/** Octets, exclusive or, and network byte order. */
module Bytes {
  type byte = x: int | 0 <= x < 256

  /** Exclusive or of the low n bits of a and b. */
  function XorBits(a: nat, b: nat, n: nat): nat {
    if n == 0 then 0 else (a + b) % 2 + 2 * XorBits(a / 2, b / 2, n - 1)
  }

  function Pow2(n: nat): (p: nat)
    ensures p > 0
  {
    if n == 0 then 1 else 2 * Pow2(n - 1)
  }

  lemma {:induction false} XorBitsBound(a: nat, b: nat, n: nat)
    ensures XorBits(a, b, n) < Pow2(n)
  {
    if n > 0 { XorBitsBound(a / 2, b / 2, n - 1); }
  }

  lemma LowBit(a: nat, b: nat, x: nat)
    ensures var r := (a + b) % 2 + 2 * x;
      r / 2 == x && (r + b) % 2 == a % 2
  {
    assert a % 2 == 0 || a % 2 == 1;
    assert b % 2 == 0 || b % 2 == 1;
  }

  lemma {:induction false} XorBitsInverse(a: nat, b: nat, n: nat)
    requires a < Pow2(n)
    ensures XorBits(XorBits(a, b, n), b, n) == a
  {
    if n > 0 {
      var x := XorBits(a / 2, b / 2, n - 1);
      var r := XorBits(a, b, n);
      LowBit(a, b, x);
      XorBitsInverse(a / 2, b / 2, n - 1);
      assert XorBits(r, b, n) == (r + b) % 2 + 2 * XorBits(r / 2, b / 2, n - 1);
    }
  }

  lemma Pow2Of8()
    ensures Pow2(8) == 256
  {
    assert Pow2(4) == 16;
  }

  function Xor(a: byte, b: byte): byte {
    XorBitsBound(a, b, 8);
    Pow2Of8();
    XorBits(a, b, 8)
  }

  lemma XorInverse(a: byte, b: byte)
    ensures Xor(Xor(a, b), b) == a
  {
    Pow2Of8();
    XorBitsInverse(a, b, 8);
  }

  /** Bit k of a number, the lowest being bit 0. */
  function Bit(a: nat, k: nat): (b: nat)
    ensures b < 2
  {
    if k == 0 then a % 2 else Bit(a / 2, k - 1)
  }

  lemma LowestBit(a: nat, b: nat, x: nat)
    ensures ((a + b) % 2 + 2 * x) % 2 == (a % 2 + b % 2) % 2 && ((a + b) % 2 + 2 * x) / 2 == x
  {
  }

  lemma {:induction false} XorBit(a: nat, b: nat, n: nat, k: nat)
    requires k < n
    ensures Bit(XorBits(a, b, n), k) == (Bit(a, k) + Bit(b, k)) % 2
    decreases k
  {
    LowestBit(a, b, XorBits(a / 2, b / 2, n - 1));
    if k > 0 {
      XorBit(a / 2, b / 2, n - 1, k - 1);
    }
  }

  /** A bit of the exclusive or is set if and only if it is set in exactly one of the two octets. */
  lemma XorExact(a: byte, b: byte, k: nat)
    requires k < 8
    ensures Bit(Xor(a, b), k) == 1 <==> Bit(a, k) != Bit(b, k)
  {
    XorBit(a, b, 8, k);
  }

  function XorSeq(a: seq<byte>, b: seq<byte>): (r: seq<byte>)
    requires |a| <= |b|
    ensures |r| == |a|
  {
    seq(|a|, i requires 0 <= i < |a| => Xor(a[i], b[i]))
  }

  lemma XorSeqInverse(a: seq<byte>, b: seq<byte>)
    requires |a| <= |b|
    ensures XorSeq(XorSeq(a, b), b) == a
  {
    forall i | 0 <= i < |a| ensures XorSeq(XorSeq(a, b), b)[i] == a[i] {
      XorInverse(a[i], b[i]);
    }
  }

  function Zeros(n: nat): (z: seq<byte>)
    ensures |z| == n && forall i :: 0 <= i < n ==> z[i] == 0
  {
    seq(n, _ => 0)
  }

  /** Two octets, most significant first; the value is taken modulo 65536. */
  function BigEndian16(n: nat): (s: seq<byte>)
    ensures |s| == 2
  {
    [n / 256 % 256, n % 256]
  }

  function Value16(hi: byte, lo: byte): nat {
    256 * hi + lo
  }

  lemma Value16Of(n: nat)
    requires n < 65536
    ensures Value16(BigEndian16(n)[0], BigEndian16(n)[1]) == n
  {
  }

  lemma BigEndianOf(hi: byte, lo: byte)
    ensures BigEndian16(Value16(hi, lo)) == [hi, lo]
  {
  }

  /** `s` with `src` written over it from offset `at` on. */
  function Overwrite(s: seq<byte>, at: nat, src: seq<byte>): (r: seq<byte>)
    requires at + |src| <= |s|
    ensures |r| == |s|
  {
    s[..at] + src + s[at + |src|..]
  }

  lemma OverwriteKeeps(s: seq<byte>, at: nat, src: seq<byte>, i: nat, j: nat)
    requires at + |src| <= |s| && i <= j <= at
    ensures Overwrite(s, at, src)[i..j] == s[i..j]
    ensures Overwrite(s, at, src)[at..at + |src|] == src
  {
  }

  /** Part of a window. */
  lemma Window(d: seq<byte>, at: nat, w: seq<byte>, i: nat, j: nat)
    requires at + |w| <= |d| && d[at..at + |w|] == w && i <= j <= |w|
    ensures d[at + i..at + j] == w[i..j]
    ensures i < j ==> d[at + i] == w[i]
  {
    forall k | 0 <= k < j - i ensures d[at + i..at + j][k] == w[i..j][k] {
      assert d[at..at + |w|][i + k] == w[i + k];
    }
    assert i < j ==> d[at..at + |w|][i] == w[i];
  }

  lemma Adjacent(d: seq<byte>, a: nat, b: nat, c: nat)
    requires a <= b <= c <= |d|
    ensures d[a..c] == d[a..b] + d[b..c]
  {
  }

  lemma PrefixSplit(e: seq<byte>, d: seq<byte>)
    requires e <= d
    ensures d == e + d[|e|..]
  {
    assert d[..|e|] == e;
  }

  lemma TwoParts(d: seq<byte>, at: nat, a: seq<byte>, b: seq<byte>)
    requires at + |a| + |b| <= |d| && d[at..at + |a| + |b|] == a + b
    ensures d[at..at + |a|] == a
    ensures d[at + |a|..at + |a| + |b|] == b
  {
    Window(d, at, a + b, 0, |a|);
    Window(d, at, a + b, |a|, |a| + |b|);
  }

  /** A window of `d` that is a concatenation, part by part. */
  lemma ThreeParts(d: seq<byte>, at: nat, w: seq<byte>, a: seq<byte>, b: seq<byte>, c: seq<byte>)
    requires at + |w| <= |d| && d[at..at + |w|] == w && w == a + b + c
    ensures at + |a| + |b| + |c| == at + |w|
    ensures d[at..at + |a|] == a
    ensures d[at + |a|..at + |a| + |b|] == b
    ensures d[at + |a| + |b|..at + |w|] == c
  {
    assert w == a + (b + c);
    TwoParts(d, at, a, b + c);
    TwoParts(d, at + |a|, b, c);
  }

  /** A hash with 16-octet results, MD5 wherever a real one is needed. */
  type Digest = d: seq<byte> | |d| == 16 witness seq(16, _ => 0)
  type Hash = seq<byte> -> Digest
}
