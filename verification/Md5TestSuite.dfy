/** A digest of the test suite of RFC 1321 (A.5), worked out step by step. */
module Md5TestSuite {
  import opened Bytes
  import opened Md5Standard

  /** The words of "abcdefghijklmnopqrstuvwxyz" with its padding. */
  predicate Alphabet(x: seq<bv32>) {
    && |x| == 16
    && x[0] == 0x64636261 && x[1] == 0x68676665 && x[2] == 0x6c6b6a69 && x[3] == 0x706f6e6d
    && x[4] == 0x74737271 && x[5] == 0x78777675 && x[6] == 0x807a79 && x[7] == 0x0
    && x[8] == 0x0 && x[9] == 0x0 && x[10] == 0x0 && x[11] == 0x0
    && x[12] == 0x0 && x[13] == 0x0 && x[14] == 0xd0 && x[15] == 0x0
  }

  function Four(n: nat, st: State, x: seq<bv32>): State
    requires n + 4 <= 64 && |x| == 16
  {
    Step(StandardOp, n + 3, Step(StandardOp, n + 2, Step(StandardOp, n + 1, Step(StandardOp, n, st, x), x), x), x)
  }

  lemma FourSteps(n: nat, x: seq<bv32>)
    requires n + 4 <= 64 && |x| == 16
    ensures Steps(StandardOp, n + 4, INITIAL, x) == Four(n, Steps(StandardOp, n, INITIAL, x), x)
  {
    var st := Steps(StandardOp, n, INITIAL, x);
    assert Steps(StandardOp, n + 1, INITIAL, x) == Step(StandardOp, n, st, x);
    assert Steps(StandardOp, n + 2, INITIAL, x) == Step(StandardOp, n + 1, Step(StandardOp, n, st, x), x);
  }

  lemma One(n: nat, st: State, x: seq<bv32>, k: nat, s: nat, t: bv32, e: bv32)
    requires n < 64 && |x| == 16 && WordIndex(n) == k && Shift(n) == s && T(n) == t
    requires e == StandardOp(RoundOf(n), st.a, st.b, st.c, st.d, x[k], s, t)
    ensures Step(StandardOp, n, st, x) == State(st.d, e, st.b, st.c)
  {
  }

  lemma Steps0To3(x: seq<bv32>)
    requires Alphabet(x)
    ensures Four(0, State(0x67452301, 0xefcdab89, 0x98badcfe, 0x10325476), x) ==
      State(0xd6d117a6, 0x4503b812, 0x227d8cf1, 0xaab1aaaa)
  {
    One(0, State(0x67452301, 0xefcdab89, 0x98badcfe, 0x10325476), x, 0, 7, 0xd76aa478, 0xd6d117a6);
    One(1, State(0x10325476, 0xd6d117a6, 0xefcdab89, 0x98badcfe), x, 1, 12, 0xe8c7b756, 0xaab1aaaa);
    One(2, State(0x98badcfe, 0xaab1aaaa, 0xd6d117a6, 0xefcdab89), x, 2, 17, 0x242070db, 0x227d8cf1);
    One(3, State(0xefcdab89, 0x227d8cf1, 0xaab1aaaa, 0xd6d117a6), x, 3, 22, 0xc1bdceee, 0x4503b812);
  }

  lemma Steps4To7(x: seq<bv32>)
    requires Alphabet(x)
    ensures Four(4, State(0xd6d117a6, 0x4503b812, 0x227d8cf1, 0xaab1aaaa), x) ==
      State(0xfe15f787, 0xda9bbb0d, 0xb71122fc, 0xa811b278)
  {
    One(4, State(0xd6d117a6, 0x4503b812, 0x227d8cf1, 0xaab1aaaa), x, 4, 7, 0xf57c0faf, 0xfe15f787);
    One(5, State(0xaab1aaaa, 0xfe15f787, 0x4503b812, 0x227d8cf1), x, 5, 12, 0x4787c62a, 0xa811b278);
    One(6, State(0x227d8cf1, 0xa811b278, 0xfe15f787, 0x4503b812), x, 6, 17, 0xa8304613, 0xb71122fc);
    One(7, State(0x4503b812, 0xb71122fc, 0xa811b278, 0xfe15f787), x, 7, 22, 0xfd469501, 0xda9bbb0d);
  }

  lemma Steps8To11(x: seq<bv32>)
    requires Alphabet(x)
    ensures Four(8, State(0xfe15f787, 0xda9bbb0d, 0xb71122fc, 0xa811b278), x) ==
      State(0xae752899, 0x56cfa5cb, 0x7d4bd80b, 0x2bbe757f)
  {
    One(8, State(0xfe15f787, 0xda9bbb0d, 0xb71122fc, 0xa811b278), x, 8, 7, 0x698098d8, 0xae752899);
    One(9, State(0xa811b278, 0xae752899, 0xda9bbb0d, 0xb71122fc), x, 9, 12, 0x8b44f7af, 0x2bbe757f);
    One(10, State(0xb71122fc, 0x2bbe757f, 0xae752899, 0xda9bbb0d), x, 10, 17, 0xffff5bb1, 0x7d4bd80b);
    One(11, State(0xda9bbb0d, 0x7d4bd80b, 0x2bbe757f, 0xae752899), x, 11, 22, 0x895cd7be, 0x56cfa5cb);
  }

  lemma Steps12To15(x: seq<bv32>)
    requires Alphabet(x)
    ensures Four(12, State(0xae752899, 0x56cfa5cb, 0x7d4bd80b, 0x2bbe757f), x) ==
      State(0x1754a316, 0x608d6b7e, 0x00df74d5, 0x85567d90)
  {
    One(12, State(0xae752899, 0x56cfa5cb, 0x7d4bd80b, 0x2bbe757f), x, 12, 7, 0x6b901122, 0x1754a316);
    One(13, State(0x2bbe757f, 0x1754a316, 0x56cfa5cb, 0x7d4bd80b), x, 13, 12, 0xfd987193, 0x85567d90);
    One(14, State(0x7d4bd80b, 0x85567d90, 0x1754a316, 0x56cfa5cb), x, 14, 17, 0xa679438e, 0x00df74d5);
    One(15, State(0x56cfa5cb, 0x00df74d5, 0x85567d90, 0x1754a316), x, 15, 22, 0x49b40821, 0x608d6b7e);
  }

  lemma Steps16To19(x: seq<bv32>)
    requires Alphabet(x)
    ensures Four(16, State(0x1754a316, 0x608d6b7e, 0x00df74d5, 0x85567d90), x) ==
      State(0x2d8071cc, 0x4c2145b3, 0xedfe7e4b, 0x5dcee119)
  {
    One(16, State(0x1754a316, 0x608d6b7e, 0x00df74d5, 0x85567d90), x, 1, 5, 0xf61e2562, 0x2d8071cc);
    One(17, State(0x85567d90, 0x2d8071cc, 0x608d6b7e, 0x00df74d5), x, 6, 9, 0xc040b340, 0x5dcee119);
    One(18, State(0x00df74d5, 0x5dcee119, 0x2d8071cc, 0x608d6b7e), x, 11, 14, 0x265e5a51, 0xedfe7e4b);
    One(19, State(0x608d6b7e, 0xedfe7e4b, 0x5dcee119, 0x2d8071cc), x, 0, 20, 0xe9b6c7aa, 0x4c2145b3);
  }

  lemma Steps20To23(x: seq<bv32>)
    requires Alphabet(x)
    ensures Four(20, State(0x2d8071cc, 0x4c2145b3, 0xedfe7e4b, 0x5dcee119), x) ==
      State(0x570c43e0, 0xc9f162d4, 0xc28ab49d, 0x977efd2a)
  {
    One(20, State(0x2d8071cc, 0x4c2145b3, 0xedfe7e4b, 0x5dcee119), x, 5, 5, 0xd62f105d, 0x570c43e0);
    One(21, State(0x5dcee119, 0x570c43e0, 0x4c2145b3, 0xedfe7e4b), x, 10, 9, 0x02441453, 0x977efd2a);
    One(22, State(0xedfe7e4b, 0x977efd2a, 0x570c43e0, 0x4c2145b3), x, 15, 14, 0xd8a1e681, 0xc28ab49d);
    One(23, State(0x4c2145b3, 0xc28ab49d, 0x977efd2a, 0x570c43e0), x, 4, 20, 0xe7d3fbc8, 0xc9f162d4);
  }

  lemma Steps24To27(x: seq<bv32>)
    requires Alphabet(x)
    ensures Four(24, State(0x570c43e0, 0xc9f162d4, 0xc28ab49d, 0x977efd2a), x) ==
      State(0x25bfae3b, 0xe6d3b398, 0xf8c8365f, 0x89980104)
  {
    One(24, State(0x570c43e0, 0xc9f162d4, 0xc28ab49d, 0x977efd2a), x, 9, 5, 0x21e1cde6, 0x25bfae3b);
    One(25, State(0x977efd2a, 0x25bfae3b, 0xc9f162d4, 0xc28ab49d), x, 14, 9, 0xc33707d6, 0x89980104);
    One(26, State(0xc28ab49d, 0x89980104, 0x25bfae3b, 0xc9f162d4), x, 3, 14, 0xf4d50d87, 0xf8c8365f);
    One(27, State(0xc9f162d4, 0xf8c8365f, 0x89980104, 0x25bfae3b), x, 8, 20, 0x455a14ed, 0xe6d3b398);
  }

  lemma Steps28To31(x: seq<bv32>)
    requires Alphabet(x)
    ensures Four(28, State(0x25bfae3b, 0xe6d3b398, 0xf8c8365f, 0x89980104), x) ==
      State(0xf54d8710, 0xaeb35766, 0x2e69afc7, 0x927b72e2)
  {
    One(28, State(0x25bfae3b, 0xe6d3b398, 0xf8c8365f, 0x89980104), x, 13, 5, 0xa9e3e905, 0xf54d8710);
    One(29, State(0x89980104, 0xf54d8710, 0xe6d3b398, 0xf8c8365f), x, 2, 9, 0xfcefa3f8, 0x927b72e2);
    One(30, State(0xf8c8365f, 0x927b72e2, 0xf54d8710, 0xe6d3b398), x, 7, 14, 0x676f02d9, 0x2e69afc7);
    One(31, State(0xe6d3b398, 0x2e69afc7, 0x927b72e2, 0xf54d8710), x, 12, 20, 0x8d2a4c8a, 0xaeb35766);
  }

  lemma Steps32To35(x: seq<bv32>)
    requires Alphabet(x)
    ensures Four(32, State(0xf54d8710, 0xaeb35766, 0x2e69afc7, 0x927b72e2), x) ==
      State(0xb4bf680e, 0x06a5e211, 0x2361ed0a, 0x4c8ffa80)
  {
    One(32, State(0xf54d8710, 0xaeb35766, 0x2e69afc7, 0x927b72e2), x, 5, 4, 0xfffa3942, 0xb4bf680e);
    One(33, State(0x927b72e2, 0xb4bf680e, 0xaeb35766, 0x2e69afc7), x, 8, 11, 0x8771f681, 0x4c8ffa80);
    One(34, State(0x2e69afc7, 0x4c8ffa80, 0xb4bf680e, 0xaeb35766), x, 11, 16, 0x6d9d6122, 0x2361ed0a);
    One(35, State(0xaeb35766, 0x2361ed0a, 0x4c8ffa80, 0xb4bf680e), x, 14, 23, 0xfde5380c, 0x06a5e211);
  }

  lemma Steps36To39(x: seq<bv32>)
    requires Alphabet(x)
    ensures Four(36, State(0xb4bf680e, 0x06a5e211, 0x2361ed0a, 0x4c8ffa80), x) ==
      State(0xb9c0c733, 0x8d41bf99, 0x23a9451b, 0xf1e6dc7a)
  {
    One(36, State(0xb4bf680e, 0x06a5e211, 0x2361ed0a, 0x4c8ffa80), x, 1, 4, 0xa4beea44, 0xb9c0c733);
    One(37, State(0x4c8ffa80, 0xb9c0c733, 0x06a5e211, 0x2361ed0a), x, 4, 11, 0x4bdecfa9, 0xf1e6dc7a);
    One(38, State(0x2361ed0a, 0xf1e6dc7a, 0xb9c0c733, 0x06a5e211), x, 7, 16, 0xf6bb4b60, 0x23a9451b);
    One(39, State(0x06a5e211, 0x23a9451b, 0xf1e6dc7a, 0xb9c0c733), x, 10, 23, 0xbebfbc70, 0x8d41bf99);
  }

  lemma Steps40To43(x: seq<bv32>)
    requires Alphabet(x)
    ensures Four(40, State(0xb9c0c733, 0x8d41bf99, 0x23a9451b, 0xf1e6dc7a), x) ==
      State(0xa3e88ead, 0x90a35af5, 0x66f6468d, 0x02c0b11c)
  {
    One(40, State(0xb9c0c733, 0x8d41bf99, 0x23a9451b, 0xf1e6dc7a), x, 13, 4, 0x289b7ec6, 0xa3e88ead);
    One(41, State(0xf1e6dc7a, 0xa3e88ead, 0x8d41bf99, 0x23a9451b), x, 0, 11, 0xeaa127fa, 0x02c0b11c);
    One(42, State(0x23a9451b, 0x02c0b11c, 0xa3e88ead, 0x8d41bf99), x, 3, 16, 0xd4ef3085, 0x66f6468d);
    One(43, State(0x8d41bf99, 0x66f6468d, 0x02c0b11c, 0xa3e88ead), x, 6, 23, 0x04881d05, 0x90a35af5);
  }

  lemma Steps44To47(x: seq<bv32>)
    requires Alphabet(x)
    ensures Four(44, State(0xa3e88ead, 0x90a35af5, 0x66f6468d, 0x02c0b11c), x) ==
      State(0xb5d41f9c, 0x71d10367, 0x703d54d8, 0xa04b4904)
  {
    One(44, State(0xa3e88ead, 0x90a35af5, 0x66f6468d, 0x02c0b11c), x, 9, 4, 0xd9d4d039, 0xb5d41f9c);
    One(45, State(0x02c0b11c, 0xb5d41f9c, 0x90a35af5, 0x66f6468d), x, 12, 11, 0xe6db99e5, 0xa04b4904);
    One(46, State(0x66f6468d, 0xa04b4904, 0xb5d41f9c, 0x90a35af5), x, 15, 16, 0x1fa27cf8, 0x703d54d8);
    One(47, State(0x90a35af5, 0x703d54d8, 0xa04b4904, 0xb5d41f9c), x, 2, 23, 0xc4ac5665, 0x71d10367);
  }

  lemma Steps48To51(x: seq<bv32>)
    requires Alphabet(x)
    ensures Four(48, State(0xb5d41f9c, 0x71d10367, 0x703d54d8, 0xa04b4904), x) ==
      State(0xfc32dd6e, 0x33edb197, 0xb35602cb, 0x65456b34)
  {
    One(48, State(0xb5d41f9c, 0x71d10367, 0x703d54d8, 0xa04b4904), x, 0, 6, 0xf4292244, 0xfc32dd6e);
    One(49, State(0xa04b4904, 0xfc32dd6e, 0x71d10367, 0x703d54d8), x, 7, 10, 0x432aff97, 0x65456b34);
    One(50, State(0x703d54d8, 0x65456b34, 0xfc32dd6e, 0x71d10367), x, 14, 15, 0xab9423a7, 0xb35602cb);
    One(51, State(0x71d10367, 0xb35602cb, 0x65456b34, 0xfc32dd6e), x, 5, 21, 0xfc93a039, 0x33edb197);
  }

  lemma Steps52To55(x: seq<bv32>)
    requires Alphabet(x)
    ensures Four(52, State(0xfc32dd6e, 0x33edb197, 0xb35602cb, 0x65456b34), x) ==
      State(0xc1e942f1, 0x83877d1b, 0x23a68048, 0xd9bb987c)
  {
    One(52, State(0xfc32dd6e, 0x33edb197, 0xb35602cb, 0x65456b34), x, 12, 6, 0x655b59c3, 0xc1e942f1);
    One(53, State(0x65456b34, 0xc1e942f1, 0x33edb197, 0xb35602cb), x, 3, 10, 0x8f0ccc92, 0xd9bb987c);
    One(54, State(0xb35602cb, 0xd9bb987c, 0xc1e942f1, 0x33edb197), x, 10, 15, 0xffeff47d, 0x23a68048);
    One(55, State(0x33edb197, 0x23a68048, 0xd9bb987c, 0xc1e942f1), x, 1, 21, 0x85845dd1, 0x83877d1b);
  }

  lemma Steps56To59(x: seq<bv32>)
    requires Alphabet(x)
    ensures Four(56, State(0xc1e942f1, 0x83877d1b, 0x23a68048, 0xd9bb987c), x) ==
      State(0x0077c208, 0x5e6bc930, 0xa3e2247f, 0x847fc2e7)
  {
    One(56, State(0xc1e942f1, 0x83877d1b, 0x23a68048, 0xd9bb987c), x, 8, 6, 0x6fa87e4f, 0x0077c208);
    One(57, State(0xd9bb987c, 0x0077c208, 0x83877d1b, 0x23a68048), x, 15, 10, 0xfe2ce6e0, 0x847fc2e7);
    One(58, State(0x23a68048, 0x847fc2e7, 0x0077c208, 0x83877d1b), x, 6, 15, 0xa3014314, 0xa3e2247f);
    One(59, State(0x83877d1b, 0xa3e2247f, 0x847fc2e7, 0x0077c208), x, 13, 21, 0x4e0811a1, 0x5e6bc930);
  }

  lemma Steps60To63(x: seq<bv32>)
    requires Alphabet(x)
    ensures Four(60, State(0x0077c208, 0x5e6bc930, 0xa3e2247f, 0x847fc2e7), x) ==
      State(0x708ed9c2, 0x1116e6d8, 0xd38f1e7f, 0x2baf1354)
  {
    One(60, State(0x0077c208, 0x5e6bc930, 0xa3e2247f, 0x847fc2e7), x, 4, 6, 0xf7537e82, 0x708ed9c2);
    One(61, State(0x847fc2e7, 0x708ed9c2, 0x5e6bc930, 0xa3e2247f), x, 11, 10, 0xbd3af235, 0x2baf1354);
    One(62, State(0xa3e2247f, 0x2baf1354, 0x708ed9c2, 0x5e6bc930), x, 2, 15, 0x2ad7d2bb, 0xd38f1e7f);
    One(63, State(0x5e6bc930, 0xd38f1e7f, 0x2baf1354, 0x708ed9c2), x, 9, 21, 0xeb86d391, 0x1116e6d8);
  }

  /** The state after 4 * j steps. */
  function Trace(j: nat): State {
    if j == 0 then State(0x67452301, 0xefcdab89, 0x98badcfe, 0x10325476)
    else if j == 1 then State(0xd6d117a6, 0x4503b812, 0x227d8cf1, 0xaab1aaaa)
    else if j == 2 then State(0xfe15f787, 0xda9bbb0d, 0xb71122fc, 0xa811b278)
    else if j == 3 then State(0xae752899, 0x56cfa5cb, 0x7d4bd80b, 0x2bbe757f)
    else if j == 4 then State(0x1754a316, 0x608d6b7e, 0x00df74d5, 0x85567d90)
    else if j == 5 then State(0x2d8071cc, 0x4c2145b3, 0xedfe7e4b, 0x5dcee119)
    else if j == 6 then State(0x570c43e0, 0xc9f162d4, 0xc28ab49d, 0x977efd2a)
    else if j == 7 then State(0x25bfae3b, 0xe6d3b398, 0xf8c8365f, 0x89980104)
    else if j == 8 then State(0xf54d8710, 0xaeb35766, 0x2e69afc7, 0x927b72e2)
    else if j == 9 then State(0xb4bf680e, 0x06a5e211, 0x2361ed0a, 0x4c8ffa80)
    else if j == 10 then State(0xb9c0c733, 0x8d41bf99, 0x23a9451b, 0xf1e6dc7a)
    else if j == 11 then State(0xa3e88ead, 0x90a35af5, 0x66f6468d, 0x02c0b11c)
    else if j == 12 then State(0xb5d41f9c, 0x71d10367, 0x703d54d8, 0xa04b4904)
    else if j == 13 then State(0xfc32dd6e, 0x33edb197, 0xb35602cb, 0x65456b34)
    else if j == 14 then State(0xc1e942f1, 0x83877d1b, 0x23a68048, 0xd9bb987c)
    else if j == 15 then State(0x0077c208, 0x5e6bc930, 0xa3e2247f, 0x847fc2e7)
    else State(0x708ed9c2, 0x1116e6d8, 0xd38f1e7f, 0x2baf1354)
  }

  lemma FourMore(j: nat, x: seq<bv32>)
    requires j < 16 && Alphabet(x)
    ensures Four(4 * j, Trace(j), x) == Trace(j + 1)
  {
    match j
    case 0 => Steps0To3(x);
    case 1 => Steps4To7(x);
    case 2 => Steps8To11(x);
    case 3 => Steps12To15(x);
    case 4 => Steps16To19(x);
    case 5 => Steps20To23(x);
    case 6 => Steps24To27(x);
    case 7 => Steps28To31(x);
    case 8 => Steps32To35(x);
    case 9 => Steps36To39(x);
    case 10 => Steps40To43(x);
    case 11 => Steps44To47(x);
    case 12 => Steps48To51(x);
    case 13 => Steps52To55(x);
    case 14 => Steps56To59(x);
    case 15 => Steps60To63(x);
  }

  lemma {:induction false} TraceReached(j: nat, x: seq<bv32>)
    requires j <= 16 && Alphabet(x)
    ensures Steps(StandardOp, 4 * j, INITIAL, x) == Trace(j)
  {
    if j > 0 {
      TraceReached(j - 1, x);
      FourMore(j - 1, x);
      FourSteps(4 * (j - 1), x);
    }
  }

  lemma AllReached(x: seq<bv32>)
    requires Alphabet(x)
    ensures AllSteps(StandardOp, INITIAL, x) == Trace(|x|)
  {
    TraceReached(|x|, x);
  }

  lemma LastSum(st: State)
    requires st == Trace(16)
    ensures Add(st.a, INITIAL.a) == 0xd7d3fcc3 && Add(st.b, INITIAL.b) == 0x00e49261
    ensures Add(st.c, INITIAL.c) == 0x6c49fb7d && Add(st.d, INITIAL.d) == 0x3be167ca
  {
  }

  lemma AlphabetCompressed(block: Block)
    requires Alphabet(Words(block))
    ensures Compress(INITIAL, block) == State(0xd7d3fcc3, 0x00e49261, 0x6c49fb7d, 0x3be167ca)
  {
    AllReached(Words(block));
    LastSum(Trace(|Words(block)|));
  }

  function Letters(): seq<byte> {
    seq(26, i requires 0 <= i < 26 => 97 + i)
  }

  /** The octets of the padded text. */
  function Octet(k: nat): byte {
    if k < 26 then 97 + k else if k == 26 then 0x80 else if k == 56 then 208 else 0
  }

  lemma LengthOctets()
    ensures LittleEndian64(8 * 26) == [208, 0, 0, 0, 0, 0, 0, 0] && ZeroCount(26) == 29
  {
  }

  lemma OctetAt(block: Block, k: nat)
    requires block == Letters() + Padding(26) && k < 64
    ensures block[k] == Octet(k)
  {
    LengthOctets();
    var tail := Padding(26);
    assert tail == [0x80] + Zeros(29) + [208, 0, 0, 0, 0, 0, 0, 0];
  }

  ghost predicate HasOctets(block: Block) {
    forall k: nat :: k < 64 ==> block[k] == Octet(k)
  }

  lemma WordIs(w: seq<byte>, a: bv32, b: bv32, c: bv32, d: bv32)
    requires |w| == 4 && w[0] as bv32 == a && w[1] as bv32 == b && w[2] as bv32 == c && w[3] as bv32 == d
    ensures Word(w) == a | (b << 8) | (c << 16) | (d << 24)
  {
  }

  lemma Word0()
    ensures Word([97, 98, 99, 100]) == 0x64636261
  {
    WordIs([97, 98, 99, 100], 97, 98, 99, 100);
  }

  lemma Word1()
    ensures Word([101, 102, 103, 104]) == 0x68676665
  {
    WordIs([101, 102, 103, 104], 101, 102, 103, 104);
  }

  lemma Word2()
    ensures Word([105, 106, 107, 108]) == 0x6c6b6a69
  {
    WordIs([105, 106, 107, 108], 105, 106, 107, 108);
  }

  lemma Word3()
    ensures Word([109, 110, 111, 112]) == 0x706f6e6d
  {
    WordIs([109, 110, 111, 112], 109, 110, 111, 112);
  }

  lemma Word4()
    ensures Word([113, 114, 115, 116]) == 0x74737271
  {
    WordIs([113, 114, 115, 116], 113, 114, 115, 116);
  }

  lemma Word5()
    ensures Word([117, 118, 119, 120]) == 0x78777675
  {
    WordIs([117, 118, 119, 120], 117, 118, 119, 120);
  }

  lemma Word6()
    ensures Word([121, 122, 128, 0]) == 0x807a79
  {
    WordIs([121, 122, 128, 0], 121, 122, 128, 0);
  }

  lemma Word14()
    ensures Word([208, 0, 0, 0]) == 0xd0
  {
    WordIs([208, 0, 0, 0], 208, 0, 0, 0);
  }

  lemma Word7()
    ensures Word([0, 0, 0, 0]) == 0x0
  {
    WordIs([0, 0, 0, 0], 0, 0, 0, 0);
  }

  lemma WordAt(block: Block, j: nat, w: seq<byte>)
    requires HasOctets(block) && j < 16
    requires w == [Octet(4 * j), Octet(4 * j + 1), Octet(4 * j + 2), Octet(4 * j + 3)]
    ensures Words(block)[j] == Word(w)
  {
    assert block[4 * j..4 * j + 4] == w;
  }

  lemma Words0To3(block: Block)
    requires HasOctets(block)
    ensures var x := Words(block);
      && x[0] == Word([97, 98, 99, 100])
      && x[1] == Word([101, 102, 103, 104])
      && x[2] == Word([105, 106, 107, 108])
      && x[3] == Word([109, 110, 111, 112])
  {
    WordAt(block, 0, [97, 98, 99, 100]);
    WordAt(block, 1, [101, 102, 103, 104]);
    WordAt(block, 2, [105, 106, 107, 108]);
    WordAt(block, 3, [109, 110, 111, 112]);
  }

  lemma Words4To7(block: Block)
    requires HasOctets(block)
    ensures var x := Words(block);
      && x[4] == Word([113, 114, 115, 116])
      && x[5] == Word([117, 118, 119, 120])
      && x[6] == Word([121, 122, 128, 0])
      && x[7] == Word([0, 0, 0, 0])
  {
    WordAt(block, 4, [113, 114, 115, 116]);
    WordAt(block, 5, [117, 118, 119, 120]);
    WordAt(block, 6, [121, 122, 128, 0]);
    WordAt(block, 7, [0, 0, 0, 0]);
  }

  lemma Words8To11(block: Block)
    requires HasOctets(block)
    ensures var x := Words(block);
      && x[8] == Word([0, 0, 0, 0])
      && x[9] == Word([0, 0, 0, 0])
      && x[10] == Word([0, 0, 0, 0])
      && x[11] == Word([0, 0, 0, 0])
  {
    WordAt(block, 8, [0, 0, 0, 0]);
    WordAt(block, 9, [0, 0, 0, 0]);
    WordAt(block, 10, [0, 0, 0, 0]);
    WordAt(block, 11, [0, 0, 0, 0]);
  }

  lemma Words12To15(block: Block)
    requires HasOctets(block)
    ensures var x := Words(block);
      && x[12] == Word([0, 0, 0, 0])
      && x[13] == Word([0, 0, 0, 0])
      && x[14] == Word([208, 0, 0, 0])
      && x[15] == Word([0, 0, 0, 0])
  {
    WordAt(block, 12, [0, 0, 0, 0]);
    WordAt(block, 13, [0, 0, 0, 0]);
    WordAt(block, 14, [208, 0, 0, 0]);
    WordAt(block, 15, [0, 0, 0, 0]);
  }

  lemma OctetsInWords(block: Block)
    requires HasOctets(block)
    ensures Alphabet(Words(block))
  {
    Words0To3(block);
    Words4To7(block);
    Words8To11(block);
    Words12To15(block);
    Word0();
    Word1();
    Word2();
    Word3();
    Word4();
    Word5();
    Word6();
    Word7();
    Word14();
  }

  lemma LettersPadded(block: Block)
    requires block == Letters() + Padding(26)
    ensures Alphabet(Words(block))
  {
    forall k: nat | k < 64 ensures block[k] == Octet(k) {
      OctetAt(block, k);
    }
    OctetsInWords(block);
  }

  lemma PaddedSize()
    ensures |Padding(26)| == 38
  {
  }

  lemma OneBlock(block: Block)
    ensures Fold(Compress, INITIAL, block) == Compress(INITIAL, block)
  {
    assert block[..BLOCK] == block;
  }

  lemma DigestOctets()
    ensures StateOctets(State(0xd7d3fcc3, 0x00e49261, 0x6c49fb7d, 0x3be167ca))
      == [0xc3, 0xfc, 0xd3, 0xd7, 0x61, 0x92, 0xe4, 0x00, 0x7d, 0xfb, 0x49, 0x6c, 0xca, 0x67, 0xe1, 0x3b]
  {
  }

  /** MD5 ("abcdefghijklmnopqrstuvwxyz") = c3fcd3d76192e4007dfb496cca67e13b. */
  lemma DigestOfAlphabet()
    ensures Md5Digest(Letters())
      == [0xc3, 0xfc, 0xd3, 0xd7, 0x61, 0x92, 0xe4, 0x00, 0x7d, 0xfb, 0x49, 0x6c, 0xca, 0x67, 0xe1, 0x3b]
  {
    PaddedSize();
    var block: Block := Letters() + Padding(26);
    LettersPadded(block);
    OneBlock(block);
    AlphabetCompressed(block);
    DigestOctets();
  }

  /** The initial state of section 3.3, low-order octets first. */
  lemma InitialOctets()
    ensures StateOctets(INITIAL) == [0x01, 0x23, 0x45, 0x67, 0x89, 0xab, 0xcd, 0xef,
                                     0xfe, 0xdc, 0xba, 0x98, 0x76, 0x54, 0x32, 0x10]
  {
  }

  /** The number four octets stand for, the lowest first. */
  function Value(b: seq<byte>): int
    requires |b| == 4
  {
    b[0] as int + 0x100 * (b[1] as int) + 0x1_0000 * (b[2] as int) + 0x100_0000 * (b[3] as int)
  }

  lemma ValueExact(n: nat)
    ensures Value(LittleEndian32(n)) == n % 0x1_0000_0000
  {
    assert n == 0x100 * (n / 0x100) + n % 0x100;
    assert n / 0x100 == 0x100 * (n / 0x1_0000) + n / 0x100 % 0x100;
    assert n / 0x1_0000 == 0x100 * (n / 0x100_0000) + n / 0x1_0000 % 0x100;
    assert n / 0x100_0000 == 0x100 * (n / 0x1_0000_0000) + n / 0x100_0000 % 0x100;
  }

  lemma TwoWords(n: nat)
    ensures n % TWO64 == n % TWO32 + TWO32 * (n / TWO32 % TWO32)
  {
    assert n == TWO32 * (n / TWO32) + n % TWO32;
    assert n / TWO32 == TWO32 * (n / TWO64) + n / TWO32 % TWO32;
  }

  lemma WordExact(n: nat)
    ensures Value(LittleEndian32(n % TWO32)) == n % TWO32
  {
    ValueExact(n % TWO32);
  }

  lemma Halves(n: nat)
    ensures LittleEndian64(n)[..4] == LittleEndian32(n % TWO32)
    ensures LittleEndian64(n)[4..] == LittleEndian32(n / TWO32 % TWO32)
  {
  }

  /** The length at the end of the padding: its octets stand for the number modulo 2^64. */
  lemma LengthExact(n: nat, low: seq<byte>, high: seq<byte>)
    requires low == LittleEndian64(n)[..4] && high == LittleEndian64(n)[4..]
    ensures Value(low) + TWO32 * Value(high) == n % TWO64
  {
    Halves(n);
    WordExact(n);
    WordExact(n / TWO32);
    TwoWords(n);
  }
}
