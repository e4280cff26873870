/** The 64 unrolled steps of md5_process_block compute the indexed loop of the standard.

    The steps are written over an operation that is a parameter, as the macro OP is redefined between
    the rounds of the source; only which registers, words, shifts and constants it gets matters here. */
module Md5Unrolled {
  import opened Md5Standard

  method Steps0To3(op: Operation, st: State, x: seq<bv32>) returns (r: State)
    requires |x| == 16
    ensures r == Step(op, 3, Step(op, 2, Step(op, 1, Step(op, 0, st, x), x), x), x)
  {
    var a, b, c, d := st.a, st.b, st.c, st.d;
    a := op(R1, a, b, c, d, x[0], 7, 0xd76aa478);
    ghost var s1 := Step(op, 0, st, x);
    assert s1 == State(d, a, b, c);
    d := op(R1, d, a, b, c, x[1], 12, 0xe8c7b756);
    ghost var s2 := Step(op, 1, s1, x);
    assert s2 == State(c, d, a, b);
    c := op(R1, c, d, a, b, x[2], 17, 0x242070db);
    ghost var s3 := Step(op, 2, s2, x);
    assert s3 == State(b, c, d, a);
    b := op(R1, b, c, d, a, x[3], 22, 0xc1bdceee);
    return State(a, b, c, d);
  }

  method Steps4To7(op: Operation, st: State, x: seq<bv32>) returns (r: State)
    requires |x| == 16
    ensures r == Step(op, 7, Step(op, 6, Step(op, 5, Step(op, 4, st, x), x), x), x)
  {
    var a, b, c, d := st.a, st.b, st.c, st.d;
    a := op(R1, a, b, c, d, x[4], 7, 0xf57c0faf);
    ghost var s1 := Step(op, 4, st, x);
    assert s1 == State(d, a, b, c);
    d := op(R1, d, a, b, c, x[5], 12, 0x4787c62a);
    ghost var s2 := Step(op, 5, s1, x);
    assert s2 == State(c, d, a, b);
    c := op(R1, c, d, a, b, x[6], 17, 0xa8304613);
    ghost var s3 := Step(op, 6, s2, x);
    assert s3 == State(b, c, d, a);
    b := op(R1, b, c, d, a, x[7], 22, 0xfd469501);
    return State(a, b, c, d);
  }

  method Steps8To11(op: Operation, st: State, x: seq<bv32>) returns (r: State)
    requires |x| == 16
    ensures r == Step(op, 11, Step(op, 10, Step(op, 9, Step(op, 8, st, x), x), x), x)
  {
    var a, b, c, d := st.a, st.b, st.c, st.d;
    a := op(R1, a, b, c, d, x[8], 7, 0x698098d8);
    ghost var s1 := Step(op, 8, st, x);
    assert s1 == State(d, a, b, c);
    d := op(R1, d, a, b, c, x[9], 12, 0x8b44f7af);
    ghost var s2 := Step(op, 9, s1, x);
    assert s2 == State(c, d, a, b);
    c := op(R1, c, d, a, b, x[10], 17, 0xffff5bb1);
    ghost var s3 := Step(op, 10, s2, x);
    assert s3 == State(b, c, d, a);
    b := op(R1, b, c, d, a, x[11], 22, 0x895cd7be);
    return State(a, b, c, d);
  }

  method Steps12To15(op: Operation, st: State, x: seq<bv32>) returns (r: State)
    requires |x| == 16
    ensures r == Step(op, 15, Step(op, 14, Step(op, 13, Step(op, 12, st, x), x), x), x)
  {
    var a, b, c, d := st.a, st.b, st.c, st.d;
    a := op(R1, a, b, c, d, x[12], 7, 0x6b901122);
    ghost var s1 := Step(op, 12, st, x);
    assert s1 == State(d, a, b, c);
    d := op(R1, d, a, b, c, x[13], 12, 0xfd987193);
    ghost var s2 := Step(op, 13, s1, x);
    assert s2 == State(c, d, a, b);
    c := op(R1, c, d, a, b, x[14], 17, 0xa679438e);
    ghost var s3 := Step(op, 14, s2, x);
    assert s3 == State(b, c, d, a);
    b := op(R1, b, c, d, a, x[15], 22, 0x49b40821);
    return State(a, b, c, d);
  }

  method Steps16To19(op: Operation, st: State, x: seq<bv32>) returns (r: State)
    requires |x| == 16
    ensures r == Step(op, 19, Step(op, 18, Step(op, 17, Step(op, 16, st, x), x), x), x)
  {
    var a, b, c, d := st.a, st.b, st.c, st.d;
    a := op(R2, a, b, c, d, x[1], 5, 0xf61e2562);
    ghost var s1 := Step(op, 16, st, x);
    assert s1 == State(d, a, b, c);
    d := op(R2, d, a, b, c, x[6], 9, 0xc040b340);
    ghost var s2 := Step(op, 17, s1, x);
    assert s2 == State(c, d, a, b);
    c := op(R2, c, d, a, b, x[11], 14, 0x265e5a51);
    ghost var s3 := Step(op, 18, s2, x);
    assert s3 == State(b, c, d, a);
    b := op(R2, b, c, d, a, x[0], 20, 0xe9b6c7aa);
    return State(a, b, c, d);
  }

  method Steps20To23(op: Operation, st: State, x: seq<bv32>) returns (r: State)
    requires |x| == 16
    ensures r == Step(op, 23, Step(op, 22, Step(op, 21, Step(op, 20, st, x), x), x), x)
  {
    var a, b, c, d := st.a, st.b, st.c, st.d;
    a := op(R2, a, b, c, d, x[5], 5, 0xd62f105d);
    ghost var s1 := Step(op, 20, st, x);
    assert s1 == State(d, a, b, c);
    d := op(R2, d, a, b, c, x[10], 9, 0x02441453);
    ghost var s2 := Step(op, 21, s1, x);
    assert s2 == State(c, d, a, b);
    c := op(R2, c, d, a, b, x[15], 14, 0xd8a1e681);
    ghost var s3 := Step(op, 22, s2, x);
    assert s3 == State(b, c, d, a);
    b := op(R2, b, c, d, a, x[4], 20, 0xe7d3fbc8);
    return State(a, b, c, d);
  }

  method Steps24To27(op: Operation, st: State, x: seq<bv32>) returns (r: State)
    requires |x| == 16
    ensures r == Step(op, 27, Step(op, 26, Step(op, 25, Step(op, 24, st, x), x), x), x)
  {
    var a, b, c, d := st.a, st.b, st.c, st.d;
    a := op(R2, a, b, c, d, x[9], 5, 0x21e1cde6);
    ghost var s1 := Step(op, 24, st, x);
    assert s1 == State(d, a, b, c);
    d := op(R2, d, a, b, c, x[14], 9, 0xc33707d6);
    ghost var s2 := Step(op, 25, s1, x);
    assert s2 == State(c, d, a, b);
    c := op(R2, c, d, a, b, x[3], 14, 0xf4d50d87);
    ghost var s3 := Step(op, 26, s2, x);
    assert s3 == State(b, c, d, a);
    b := op(R2, b, c, d, a, x[8], 20, 0x455a14ed);
    return State(a, b, c, d);
  }

  method Steps28To31(op: Operation, st: State, x: seq<bv32>) returns (r: State)
    requires |x| == 16
    ensures r == Step(op, 31, Step(op, 30, Step(op, 29, Step(op, 28, st, x), x), x), x)
  {
    var a, b, c, d := st.a, st.b, st.c, st.d;
    a := op(R2, a, b, c, d, x[13], 5, 0xa9e3e905);
    ghost var s1 := Step(op, 28, st, x);
    assert s1 == State(d, a, b, c);
    d := op(R2, d, a, b, c, x[2], 9, 0xfcefa3f8);
    ghost var s2 := Step(op, 29, s1, x);
    assert s2 == State(c, d, a, b);
    c := op(R2, c, d, a, b, x[7], 14, 0x676f02d9);
    ghost var s3 := Step(op, 30, s2, x);
    assert s3 == State(b, c, d, a);
    b := op(R2, b, c, d, a, x[12], 20, 0x8d2a4c8a);
    return State(a, b, c, d);
  }

  method Steps32To35(op: Operation, st: State, x: seq<bv32>) returns (r: State)
    requires |x| == 16
    ensures r == Step(op, 35, Step(op, 34, Step(op, 33, Step(op, 32, st, x), x), x), x)
  {
    var a, b, c, d := st.a, st.b, st.c, st.d;
    a := op(R3, a, b, c, d, x[5], 4, 0xfffa3942);
    ghost var s1 := Step(op, 32, st, x);
    assert s1 == State(d, a, b, c);
    d := op(R3, d, a, b, c, x[8], 11, 0x8771f681);
    ghost var s2 := Step(op, 33, s1, x);
    assert s2 == State(c, d, a, b);
    c := op(R3, c, d, a, b, x[11], 16, 0x6d9d6122);
    ghost var s3 := Step(op, 34, s2, x);
    assert s3 == State(b, c, d, a);
    b := op(R3, b, c, d, a, x[14], 23, 0xfde5380c);
    return State(a, b, c, d);
  }

  method Steps36To39(op: Operation, st: State, x: seq<bv32>) returns (r: State)
    requires |x| == 16
    ensures r == Step(op, 39, Step(op, 38, Step(op, 37, Step(op, 36, st, x), x), x), x)
  {
    var a, b, c, d := st.a, st.b, st.c, st.d;
    a := op(R3, a, b, c, d, x[1], 4, 0xa4beea44);
    ghost var s1 := Step(op, 36, st, x);
    assert s1 == State(d, a, b, c);
    d := op(R3, d, a, b, c, x[4], 11, 0x4bdecfa9);
    ghost var s2 := Step(op, 37, s1, x);
    assert s2 == State(c, d, a, b);
    c := op(R3, c, d, a, b, x[7], 16, 0xf6bb4b60);
    ghost var s3 := Step(op, 38, s2, x);
    assert s3 == State(b, c, d, a);
    b := op(R3, b, c, d, a, x[10], 23, 0xbebfbc70);
    return State(a, b, c, d);
  }

  method Steps40To43(op: Operation, st: State, x: seq<bv32>) returns (r: State)
    requires |x| == 16
    ensures r == Step(op, 43, Step(op, 42, Step(op, 41, Step(op, 40, st, x), x), x), x)
  {
    var a, b, c, d := st.a, st.b, st.c, st.d;
    a := op(R3, a, b, c, d, x[13], 4, 0x289b7ec6);
    ghost var s1 := Step(op, 40, st, x);
    assert s1 == State(d, a, b, c);
    d := op(R3, d, a, b, c, x[0], 11, 0xeaa127fa);
    ghost var s2 := Step(op, 41, s1, x);
    assert s2 == State(c, d, a, b);
    c := op(R3, c, d, a, b, x[3], 16, 0xd4ef3085);
    ghost var s3 := Step(op, 42, s2, x);
    assert s3 == State(b, c, d, a);
    b := op(R3, b, c, d, a, x[6], 23, 0x04881d05);
    return State(a, b, c, d);
  }

  method Steps44To47(op: Operation, st: State, x: seq<bv32>) returns (r: State)
    requires |x| == 16
    ensures r == Step(op, 47, Step(op, 46, Step(op, 45, Step(op, 44, st, x), x), x), x)
  {
    var a, b, c, d := st.a, st.b, st.c, st.d;
    a := op(R3, a, b, c, d, x[9], 4, 0xd9d4d039);
    ghost var s1 := Step(op, 44, st, x);
    assert s1 == State(d, a, b, c);
    d := op(R3, d, a, b, c, x[12], 11, 0xe6db99e5);
    ghost var s2 := Step(op, 45, s1, x);
    assert s2 == State(c, d, a, b);
    c := op(R3, c, d, a, b, x[15], 16, 0x1fa27cf8);
    ghost var s3 := Step(op, 46, s2, x);
    assert s3 == State(b, c, d, a);
    b := op(R3, b, c, d, a, x[2], 23, 0xc4ac5665);
    return State(a, b, c, d);
  }

  method Steps48To51(op: Operation, st: State, x: seq<bv32>) returns (r: State)
    requires |x| == 16
    ensures r == Step(op, 51, Step(op, 50, Step(op, 49, Step(op, 48, st, x), x), x), x)
  {
    var a, b, c, d := st.a, st.b, st.c, st.d;
    a := op(R4, a, b, c, d, x[0], 6, 0xf4292244);
    ghost var s1 := Step(op, 48, st, x);
    assert s1 == State(d, a, b, c);
    d := op(R4, d, a, b, c, x[7], 10, 0x432aff97);
    ghost var s2 := Step(op, 49, s1, x);
    assert s2 == State(c, d, a, b);
    c := op(R4, c, d, a, b, x[14], 15, 0xab9423a7);
    ghost var s3 := Step(op, 50, s2, x);
    assert s3 == State(b, c, d, a);
    b := op(R4, b, c, d, a, x[5], 21, 0xfc93a039);
    return State(a, b, c, d);
  }

  method Steps52To55(op: Operation, st: State, x: seq<bv32>) returns (r: State)
    requires |x| == 16
    ensures r == Step(op, 55, Step(op, 54, Step(op, 53, Step(op, 52, st, x), x), x), x)
  {
    var a, b, c, d := st.a, st.b, st.c, st.d;
    a := op(R4, a, b, c, d, x[12], 6, 0x655b59c3);
    ghost var s1 := Step(op, 52, st, x);
    assert s1 == State(d, a, b, c);
    d := op(R4, d, a, b, c, x[3], 10, 0x8f0ccc92);
    ghost var s2 := Step(op, 53, s1, x);
    assert s2 == State(c, d, a, b);
    c := op(R4, c, d, a, b, x[10], 15, 0xffeff47d);
    ghost var s3 := Step(op, 54, s2, x);
    assert s3 == State(b, c, d, a);
    b := op(R4, b, c, d, a, x[1], 21, 0x85845dd1);
    return State(a, b, c, d);
  }

  method Steps56To59(op: Operation, st: State, x: seq<bv32>) returns (r: State)
    requires |x| == 16
    ensures r == Step(op, 59, Step(op, 58, Step(op, 57, Step(op, 56, st, x), x), x), x)
  {
    var a, b, c, d := st.a, st.b, st.c, st.d;
    a := op(R4, a, b, c, d, x[8], 6, 0x6fa87e4f);
    ghost var s1 := Step(op, 56, st, x);
    assert s1 == State(d, a, b, c);
    d := op(R4, d, a, b, c, x[15], 10, 0xfe2ce6e0);
    ghost var s2 := Step(op, 57, s1, x);
    assert s2 == State(c, d, a, b);
    c := op(R4, c, d, a, b, x[6], 15, 0xa3014314);
    ghost var s3 := Step(op, 58, s2, x);
    assert s3 == State(b, c, d, a);
    b := op(R4, b, c, d, a, x[13], 21, 0x4e0811a1);
    return State(a, b, c, d);
  }

  method Steps60To63(op: Operation, st: State, x: seq<bv32>) returns (r: State)
    requires |x| == 16
    ensures r == Step(op, 63, Step(op, 62, Step(op, 61, Step(op, 60, st, x), x), x), x)
  {
    var a, b, c, d := st.a, st.b, st.c, st.d;
    a := op(R4, a, b, c, d, x[4], 6, 0xf7537e82);
    ghost var s1 := Step(op, 60, st, x);
    assert s1 == State(d, a, b, c);
    d := op(R4, d, a, b, c, x[11], 10, 0xbd3af235);
    ghost var s2 := Step(op, 61, s1, x);
    assert s2 == State(c, d, a, b);
    c := op(R4, c, d, a, b, x[2], 15, 0x2ad7d2bb);
    ghost var s3 := Step(op, 62, s2, x);
    assert s3 == State(b, c, d, a);
    b := op(R4, b, c, d, a, x[9], 21, 0xeb86d391);
    return State(a, b, c, d);
  }

  lemma StepsOf4(op: Operation, n: nat, st: State, x: seq<bv32>)
    requires n + 4 <= 64 && |x| == 16
    ensures Steps(op, n + 4, st, x)
        == Step(op, n + 3, Step(op, n + 2, Step(op, n + 1, Step(op, n, Steps(op, n, st, x), x), x), x), x)
  {
    assert Steps(op, n + 2, st, x) == Step(op, n + 1, Step(op, n, Steps(op, n, st, x), x), x);
  }

  /** Round 1. */
  method Round1(op: Operation, st: State, x: seq<bv32>, ghost start: State) returns (r: State)
    requires |x| == 16 && st == Steps(op, 0, start, x)
    ensures r == Steps(op, 16, start, x)
  {
    r := st;
    StepsOf4(op, 0, start, x);
    r := Steps0To3(op, r, x);
    StepsOf4(op, 4, start, x);
    r := Steps4To7(op, r, x);
    StepsOf4(op, 8, start, x);
    r := Steps8To11(op, r, x);
    StepsOf4(op, 12, start, x);
    r := Steps12To15(op, r, x);
  }

  /** Round 2. */
  method Round2(op: Operation, st: State, x: seq<bv32>, ghost start: State) returns (r: State)
    requires |x| == 16 && st == Steps(op, 16, start, x)
    ensures r == Steps(op, 32, start, x)
  {
    r := st;
    StepsOf4(op, 16, start, x);
    r := Steps16To19(op, r, x);
    StepsOf4(op, 20, start, x);
    r := Steps20To23(op, r, x);
    StepsOf4(op, 24, start, x);
    r := Steps24To27(op, r, x);
    StepsOf4(op, 28, start, x);
    r := Steps28To31(op, r, x);
  }

  /** Round 3. */
  method Round3(op: Operation, st: State, x: seq<bv32>, ghost start: State) returns (r: State)
    requires |x| == 16 && st == Steps(op, 32, start, x)
    ensures r == Steps(op, 48, start, x)
  {
    r := st;
    StepsOf4(op, 32, start, x);
    r := Steps32To35(op, r, x);
    StepsOf4(op, 36, start, x);
    r := Steps36To39(op, r, x);
    StepsOf4(op, 40, start, x);
    r := Steps40To43(op, r, x);
    StepsOf4(op, 44, start, x);
    r := Steps44To47(op, r, x);
  }

  /** Round 4. */
  method Round4(op: Operation, st: State, x: seq<bv32>, ghost start: State) returns (r: State)
    requires |x| == 16 && st == Steps(op, 48, start, x)
    ensures r == Steps(op, 64, start, x)
  {
    r := st;
    StepsOf4(op, 48, start, x);
    r := Steps48To51(op, r, x);
    StepsOf4(op, 52, start, x);
    r := Steps52To55(op, r, x);
    StepsOf4(op, 56, start, x);
    r := Steps56To59(op, r, x);
    StepsOf4(op, 60, start, x);
    r := Steps60To63(op, r, x);
  }

  /** All 64 steps. */
  method Unrolled(op: Operation, st: State, x: seq<bv32>) returns (r: State)
    requires |x| == 16
    ensures r == AllSteps(op, st, x)
  {
    r := Round1(op, st, x, st);
    r := Round2(op, r, x, st);
    r := Round3(op, r, x, st);
    r := Round4(op, r, x, st);
  }

  // ---- the operation the macros build ----

  function FF(b: bv32, c: bv32, d: bv32): bv32 { d ^ (b & (c ^ d)) }
  function FG(b: bv32, c: bv32, d: bv32): bv32 { FF(d, b, c) }
  function FH(b: bv32, c: bv32, d: bv32): bv32 { b ^ c ^ d }
  function FI(b: bv32, c: bv32, d: bv32): bv32 { c ^ (b | !d) }

  function MacroMix(r: Round, b: bv32, c: bv32, d: bv32): bv32 {
    match r
    case R1 => FF(b, c, d)
    case R2 => FG(b, c, d)
    case R3 => FH(b, c, d)
    case R4 => FI(b, c, d)
  }

  function MacroSum(a: bv32, f: bv32, x: bv32, t: bv32): bv32 { a + (f + x + t) }

  /** OP with the function of the round: a += f(b, c, d) + word + T; rotate a by s; a += b. */
  function MacroOp(r: Round, a: bv32, b: bv32, c: bv32, d: bv32, x: bv32, s: nat, t: bv32): bv32 {
    Add(RotateLeft(MacroSum(a, MacroMix(r, b, c, d), x, t), s), b)
  }

  lemma Select(b: bv32, c: bv32, d: bv32)
    ensures d ^ (b & (c ^ d)) == (b & c) | (!b & d)
  {
  }

  lemma AndOr(b: bv32, c: bv32, d: bv32)
    ensures (d & b) | (!d & c) == (b & d) | (c & !d)
  {
  }

  lemma FirstAgrees(b: bv32, c: bv32, d: bv32)
    ensures FF(b, c, d) == F(b, c, d)
  {
    Select(b, c, d);
  }

  lemma SecondAgrees(b: bv32, c: bv32, d: bv32)
    ensures FG(b, c, d) == G(b, c, d)
  {
    Select(d, b, c);
    AndOr(b, c, d);
  }

  lemma MixAgrees(r: Round, b: bv32, c: bv32, d: bv32)
    ensures MacroMix(r, b, c, d) == Mix(r, b, c, d)
  {
    FirstAgrees(b, c, d);
    SecondAgrees(b, c, d);
  }

  lemma SumsAgree(a: bv32, f: bv32, x: bv32, t: bv32)
    ensures MacroSum(a, f, x, t) == Sum(a, f, x, t)
  {
  }

  lemma AddSwaps(a: bv32, b: bv32)
    ensures Add(a, b) == Add(b, a)
  {
  }

  lemma OperationsAgree(r: Round, a: bv32, b: bv32, c: bv32, d: bv32, x: bv32, s: nat, t: bv32)
    ensures MacroOp(r, a, b, c, d, x, s, t) == StandardOp(r, a, b, c, d, x, s, t)
  {
    MixAgrees(r, b, c, d);
    SumsAgree(a, Mix(r, b, c, d), x, t);
    AddSwaps(b, RotateLeft(Sum(a, Mix(r, b, c, d), x, t), s));
  }

  lemma {:induction false} SameSteps(p: Operation, q: Operation, n: nat, st: State, x: seq<bv32>)
    requires n <= 64 && |x| == 16
    requires forall r, a, b, c, d, w, s, t :: p(r, a, b, c, d, w, s, t) == q(r, a, b, c, d, w, s, t)
    ensures Steps(p, n, st, x) == Steps(q, n, st, x)
  {
    if n > 0 {
      SameSteps(p, q, n - 1, st, x);
    }
  }
}
