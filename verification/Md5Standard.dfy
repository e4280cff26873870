/** MD5 as RFC 1321 states it: padding (3.1, 3.2), initial state (3.3), and the indexed loop of 64
    steps over one block (3.4). */
module Md5Standard {
  import opened Bytes

  const BLOCK := 64
  const TWO32 := 0x1_0000_0000
  const TWO64 := 0x1_0000_0000_0000_0000

  datatype State = State(a: bv32, b: bv32, c: bv32, d: bv32)

  const INITIAL := State(0x67452301, 0xefcdab89, 0x98badcfe, 0x10325476)

  function F(x: bv32, y: bv32, z: bv32): bv32 { (x & y) | (!x & z) }
  function G(x: bv32, y: bv32, z: bv32): bv32 { (x & z) | (y & !z) }
  function H(x: bv32, y: bv32, z: bv32): bv32 { x ^ y ^ z }
  function I(x: bv32, y: bv32, z: bv32): bv32 { y ^ (x | !z) }

  /** The table of the standard: the integer part of 4294967296 times abs(sin(i + 1)). */
  function T(i: nat): bv32 {
    if i < 16 then T1(i) else if i < 32 then T2(i) else if i < 48 then T3(i) else T4(i)
  }

  function T1(i: nat): bv32 {
    if i == 0 then 0xd76aa478
    else if i == 1 then 0xe8c7b756
    else if i == 2 then 0x242070db
    else if i == 3 then 0xc1bdceee
    else if i == 4 then 0xf57c0faf
    else if i == 5 then 0x4787c62a
    else if i == 6 then 0xa8304613
    else if i == 7 then 0xfd469501
    else if i == 8 then 0x698098d8
    else if i == 9 then 0x8b44f7af
    else if i == 10 then 0xffff5bb1
    else if i == 11 then 0x895cd7be
    else if i == 12 then 0x6b901122
    else if i == 13 then 0xfd987193
    else if i == 14 then 0xa679438e
    else 0x49b40821
  }

  function T2(i: nat): bv32 {
    if i == 16 then 0xf61e2562
    else if i == 17 then 0xc040b340
    else if i == 18 then 0x265e5a51
    else if i == 19 then 0xe9b6c7aa
    else if i == 20 then 0xd62f105d
    else if i == 21 then 0x02441453
    else if i == 22 then 0xd8a1e681
    else if i == 23 then 0xe7d3fbc8
    else if i == 24 then 0x21e1cde6
    else if i == 25 then 0xc33707d6
    else if i == 26 then 0xf4d50d87
    else if i == 27 then 0x455a14ed
    else if i == 28 then 0xa9e3e905
    else if i == 29 then 0xfcefa3f8
    else if i == 30 then 0x676f02d9
    else 0x8d2a4c8a
  }

  function T3(i: nat): bv32 {
    if i == 32 then 0xfffa3942
    else if i == 33 then 0x8771f681
    else if i == 34 then 0x6d9d6122
    else if i == 35 then 0xfde5380c
    else if i == 36 then 0xa4beea44
    else if i == 37 then 0x4bdecfa9
    else if i == 38 then 0xf6bb4b60
    else if i == 39 then 0xbebfbc70
    else if i == 40 then 0x289b7ec6
    else if i == 41 then 0xeaa127fa
    else if i == 42 then 0xd4ef3085
    else if i == 43 then 0x04881d05
    else if i == 44 then 0xd9d4d039
    else if i == 45 then 0xe6db99e5
    else if i == 46 then 0x1fa27cf8
    else 0xc4ac5665
  }

  function T4(i: nat): bv32 {
    if i == 48 then 0xf4292244
    else if i == 49 then 0x432aff97
    else if i == 50 then 0xab9423a7
    else if i == 51 then 0xfc93a039
    else if i == 52 then 0x655b59c3
    else if i == 53 then 0x8f0ccc92
    else if i == 54 then 0xffeff47d
    else if i == 55 then 0x85845dd1
    else if i == 56 then 0x6fa87e4f
    else if i == 57 then 0xfe2ce6e0
    else if i == 58 then 0xa3014314
    else if i == 59 then 0x4e0811a1
    else if i == 60 then 0xf7537e82
    else if i == 61 then 0xbd3af235
    else if i == 62 then 0x2ad7d2bb
    else 0xeb86d391
  }

  /** Circular shift to the left by less than 32 bits. */
  function RotateLeft(w: bv32, s: nat): bv32 {
    if s < 32 then (w << s) | (w >> (32 - s)) else w
  }

  /** Which word of the block step i uses. */
  function WordIndex(i: nat): nat {
    if i < 16 then i else if i < 32 then (5 * i + 1) % 16 else if i < 48 then (3 * i + 5) % 16 else 7 * i % 16
  }

  /** The four shifts of each round, in turn. */
  function Shift(i: nat): nat {
    if i < 16 then Turn(i, 7, 12, 17, 22)
    else if i < 32 then Turn(i, 5, 9, 14, 20)
    else if i < 48 then Turn(i, 4, 11, 16, 23)
    else Turn(i, 6, 10, 15, 21)
  }

  function Turn(i: nat, s0: nat, s1: nat, s2: nat, s3: nat): nat {
    if i % 4 == 0 then s0 else if i % 4 == 1 then s1 else if i % 4 == 2 then s2 else s3
  }

  datatype Round = R1 | R2 | R3 | R4

  function RoundOf(i: nat): Round {
    if i < 16 then R1 else if i < 32 then R2 else if i < 48 then R3 else R4
  }

  /** What a step puts into its first register, from the round, the registers, the word of the block,
      the shift and the table entry. */
  type Operation = (Round, bv32, bv32, bv32, bv32, bv32, nat, bv32) -> bv32

  function Mix(r: Round, b: bv32, c: bv32, d: bv32): bv32 {
    match r
    case R1 => F(b, c, d)
    case R2 => G(b, c, d)
    case R3 => H(b, c, d)
    case R4 => I(b, c, d)
  }

  function Add(a: bv32, b: bv32): bv32 { a + b }

  function Sum(a: bv32, f: bv32, x: bv32, t: bv32): bv32 { a + f + x + t }

  /** a := b + ((a + f(b, c, d) + X[k] + T[i]) <<< s). */
  function StandardOp(r: Round, a: bv32, b: bv32, c: bv32, d: bv32, x: bv32, s: nat, t: bv32): bv32 {
    Add(b, RotateLeft(Sum(a, Mix(r, b, c, d), x, t), s))
  }

  /** One step of the indexed loop; then the registers change places. */
  function Step(op: Operation, i: nat, st: State, x: seq<bv32>): State
    requires i < 64 && |x| == 16
  {
    State(st.d, op(RoundOf(i), st.a, st.b, st.c, st.d, x[WordIndex(i)], Shift(i), T(i)), st.b, st.c)
  }

  /** The first n steps. */
  function Steps(op: Operation, n: nat, st: State, x: seq<bv32>): State
    requires n <= 64 && |x| == 16
  {
    if n == 0 then st else Step(op, n - 1, Steps(op, n - 1, st, x), x)
  }

  /** Four rounds, one step for each word in each of them. */
  function AllSteps(op: Operation, st: State, x: seq<bv32>): State
    requires |x| == 16
  {
    Steps(op, 4 * |x|, st, x)
  }

  // ---- octets and words, low-order octet first ----

  function Word(b: seq<byte>): bv32
    requires |b| == 4
  {
    (b[0] as bv32) | ((b[1] as bv32) << 8) | ((b[2] as bv32) << 16) | ((b[3] as bv32) << 24)
  }

  type Block = b: seq<byte> | |b| == BLOCK witness seq(BLOCK, _ => 0)

  function Words(block: Block): (x: seq<bv32>)
    ensures |x| == 16
  {
    seq(16, j requires 0 <= j < 16 => Word(block[4 * j..4 * j + 4]))
  }

  function WordOctets(w: bv32): (b: seq<byte>)
    ensures |b| == 4
  {
    [(w & 0xff) as byte, ((w >> 8) & 0xff) as byte, ((w >> 16) & 0xff) as byte, ((w >> 24) & 0xff) as byte]
  }

  function StateOctets(st: State): (b: Digest) {
    WordOctets(st.a) + WordOctets(st.b) + WordOctets(st.c) + WordOctets(st.d)
  }

  function Compress(st: State, block: Block): State {
    var r := AllSteps(StandardOp, st, Words(block));
    State(Add(r.a, st.a), Add(r.b, st.b), Add(r.c, st.c), Add(r.d, st.d))
  }

  type Compressor = (State, Block) -> State

  /** Compresses the whole blocks at the beginning of `data`, one after the other. */
  function Fold(compress: Compressor, st: State, data: seq<byte>): State
    decreases |data|
  {
    if |data| < BLOCK then st else Fold(compress, compress(st, data[..BLOCK]), data[BLOCK..])
  }

  // ---- padding ----

  function LittleEndian32(n: nat): (b: seq<byte>)
    ensures |b| == 4
  {
    [n % 256, n / 0x100 % 256, n / 0x1_0000 % 256, n / 0x100_0000 % 256]
  }

  /** The low 64 bits of n, low-order word first. */
  function LittleEndian64(n: nat): (b: seq<byte>)
    ensures |b| == 8
  {
    LittleEndian32(n % TWO32) + LittleEndian32(n / TWO32 % TWO32)
  }

  /** Zero octets that bring a message of n octets and its 0x80 to 56 modulo 64. */
  function ZeroCount(n: nat): (z: nat)
    ensures z < BLOCK && (n + 1 + z) % BLOCK == 56
  {
    (119 - n % BLOCK) % BLOCK
  }

  function Padding(n: nat): seq<byte> {
    [0x80] + Zeros(ZeroCount(n)) + LittleEndian64(8 * n)
  }

  function Md5Digest(message: seq<byte>): Digest {
    StateOctets(Fold(Compress, INITIAL, message + Padding(|message|)))
  }

  lemma {:induction false} FoldAppend(compress: Compressor, st: State, a: seq<byte>, b: seq<byte>)
    requires |a| % BLOCK == 0
    ensures Fold(compress, st, a + b) == Fold(compress, Fold(compress, st, a), b)
    decreases |a|
  {
    if |a| == 0 {
      assert a + b == b;
    } else {
      assert (a + b)[..BLOCK] == a[..BLOCK] && (a + b)[BLOCK..] == a[BLOCK..] + b;
      FoldAppend(compress, compress(st, a[..BLOCK]), a[BLOCK..], b);
    }
  }

  lemma FoldNext(compress: Compressor, st: State, data: seq<byte>, i: nat)
    requires i < |data| && i % BLOCK == 0 && |data| % BLOCK == 0
    ensures i + BLOCK <= |data| && (i + BLOCK) % BLOCK == 0
    ensures Fold(compress, st, data[i..]) == Fold(compress, compress(st, data[i..i + BLOCK]), data[i + BLOCK..])
  {
    assert data[i..][..BLOCK] == data[i..i + BLOCK] && data[i..][BLOCK..] == data[i + BLOCK..];
  }
}
