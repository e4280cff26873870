/** The streaming MD5 object: a 128-octet buffer, four chaining words and a two-word counter. */
module Md5 {
  import opened Bytes
  import opened Md5Standard
  import opened Md5Unrolled

  type Count = n: nat | n < TWO32

  /** The double-word increment of the octet counter: the low word wraps, and the high word is raised
      when the low one came out smaller than what was added. */
  function CountUp(low: Count, high: Count, len: nat): (Count, Count) {
    var l := (low + len) % TWO32;
    (l, if l < len then (high + 1) % TWO32 else high)
  }

  /** The increment is addition modulo 2^64 for every length below 2^32; above, exactly when the
      true carry happens to be one. */
  lemma CountUpExact(low: Count, high: Count, len: nat)
    ensures var (l, h) := CountUp(low, high, len);
      (l + TWO32 * h == (low + TWO32 * high + len) % TWO64) <==> (len < TWO32 || (low + len) / TWO32 % TWO32 == 1)
  {
    var q := (low + len) / TWO32;
    var l := (low + len) % TWO32;
    assert low + len == l + TWO32 * q;
    WrapSum(l, high + q);
    if len < TWO32 {
      SmallCarry(low, len, l, q);
    } else {
      SameHighWord(high, q);
    }
  }

  /** The carry shows in the low word when less than a full word was added. */
  lemma SmallCarry(low: Count, len: nat, l: nat, q: nat)
    requires len < TWO32 && l < TWO32 && low + len == l + TWO32 * q
    ensures q == if l < len then 1 else 0
  {
  }

  lemma SameHighWord(high: Count, q: nat)
    ensures (high + q) % TWO32 == (high + 1) % TWO32 <==> q % TWO32 == 1
  {
    var m, d := q / TWO32, q % TWO32;
    assert high + q == TWO32 * m + (high + d);
    MultipleAway(m, high + d);
  }

  lemma MultipleAway(m: nat, x: nat)
    ensures (TWO32 * m + x) % TWO32 == x % TWO32
  {
    var k := x / TWO32;
    assert TWO32 * m + x == TWO32 * (m + k) + x % TWO32;
  }

  lemma WrapSum(l: Count, h: nat)
    ensures (l + TWO32 * h) % TWO64 == l + TWO32 * (h % TWO32)
  {
    var m := h / TWO32;
    assert h == TWO32 * m + h % TWO32;
    assert l + TWO32 * h == TWO64 * m + (l + TWO32 * (h % TWO32));
  }

  // ---- what the object stands for ----

  /** The two words hold n modulo 2^64. */
  ghost predicate Counts(low: Count, high: Count, n: nat) {
    low + TWO32 * high == n % TWO64
  }

  /** The chaining state and counter cover all of `message` but the octets `tail` at its end. */
  ghost predicate Represents(compress: Compressor, st: State, low: Count, high: Count, tail: seq<byte>,
        message: seq<byte>)
  {
    && |tail| <= |message| && (|message| - |tail|) % BLOCK == 0
    && tail == message[|message| - |tail|..]
    && st == Fold(compress, INITIAL, message[..|message| - |tail|])
    && Counts(low, high, |message| - |tail|)
  }

  lemma CountMore(low: Count, high: Count, n: nat, len: nat)
    requires Counts(low, high, n) && len < TWO32
    ensures Counts(CountUp(low, high, len).0, CountUp(low, high, len).1, n + len)
  {
    CountUpExact(low, high, len);
    AddMod(n, len);
  }

  lemma AddMod(n: nat, len: nat)
    ensures (n % TWO64 + len) % TWO64 == (n + len) % TWO64
  {
    var q := n / TWO64;
    assert n + len == TWO64 * q + (n % TWO64 + len);
  }

  lemma Regroup(message: seq<byte>, n: nat, tail: seq<byte>, data: seq<byte>, blocks: seq<byte>, rest: seq<byte>)
    requires n <= |message| && tail == message[n..] && tail + data == blocks + rest
    ensures var m := message + data;
      && n + |blocks| + |rest| == |m|
      && m[..n + |blocks|] == message[..n] + blocks && m[n + |blocks|..] == rest
  {
    var m := message + data;
    assert m == message[..n] + (tail + data);
    assert m == (message[..n] + blocks) + rest;
  }

  /** Compressing blocks out of the tail and new data keeps the representation. */
  lemma Absorb(compress: Compressor, st: State, low: Count, high: Count, tail: seq<byte>, message: seq<byte>,
        data: seq<byte>, blocks: seq<byte>, rest: seq<byte>)
    requires Represents(compress, st, low, high, tail, message)
    requires tail + data == blocks + rest && |blocks| % BLOCK == 0 && |blocks| < TWO32
    ensures var (l, h) := CountUp(low, high, |blocks|);
      Represents(compress, Fold(compress, st, blocks), l, h, rest, message + data)
  {
    Regroup(message, |message| - |tail|, tail, data, blocks, rest);
    Absorbed(compress, st, low, high, tail, message, blocks, rest, message + data);
  }

  lemma Absorbed(compress: Compressor, st: State, low: Count, high: Count, tail: seq<byte>, message: seq<byte>,
        blocks: seq<byte>, rest: seq<byte>, m: seq<byte>)
    requires Represents(compress, st, low, high, tail, message) && |blocks| % BLOCK == 0 && |blocks| < TWO32
    requires |m| == |message| - |tail| + |blocks| + |rest|
    requires m[..|m| - |rest|] == message[..|message| - |tail|] + blocks && m[|m| - |rest|..] == rest
    ensures var (l, h) := CountUp(low, high, |blocks|);
      Represents(compress, Fold(compress, st, blocks), l, h, rest, m)
  {
    var n := |message| - |tail|;
    assert Fold(compress, st, blocks) == Fold(compress, INITIAL, m[..|m| - |rest|]) by {
      FoldAppend(compress, INITIAL, message[..n], blocks);
    }
    CountMore(low, high, n, |blocks|);
    BlockSum(n, |blocks|);
    assert |m| - |rest| == n + |blocks|;
  }

  lemma BlockSum(a: nat, b: nat)
    requires a % BLOCK == 0 && b % BLOCK == 0
    ensures (a + b) % BLOCK == 0
  {
    assert a + b == BLOCK * (a / BLOCK + b / BLOCK);
  }

  /** Data that only joins the tail. */
  lemma Append(compress: Compressor, st: State, low: Count, high: Count, tail: seq<byte>, message: seq<byte>,
        data: seq<byte>)
    requires Represents(compress, st, low, high, tail, message)
    ensures Represents(compress, st, low, high, tail + data, message + data)
  {
    var n := |message| - |tail|;
    assert (message + data)[..n] == message[..n];
  }

  /** n & ~63 */
  function WholeBlocks(n: nat): (m: nat)
    ensures m % BLOCK == 0 && m <= n < m + BLOCK
  {
    n / BLOCK * BLOCK
  }

  // The compression function is a ghost parameter of the object, so that the buffering is reasoned
  // about without the 64 steps; `Standard` says that it is the one of the standard.

  ghost predicate Computes(f: Compressor, st: State, block: Block) {
    f(st, block) == Compress(st, block)
  }

  ghost predicate Standard(f: Compressor) {
    forall st: State, block: Block :: Computes(f, st, block)
  }

  lemma {:induction false} FoldStandard(f: Compressor, st: State, data: seq<byte>)
    requires Standard(f)
    ensures Fold(f, st, data) == Fold(Compress, st, data)
    decreases |data|
  {
    if |data| >= BLOCK {
      assert Computes(f, st, data[..BLOCK]);
      FoldStandard(f, f(st, data[..BLOCK]), data[BLOCK..]);
    }
  }

  class Md5Ctx {
    var a: bv32
    var b: bv32
    var c: bv32
    var d: bv32
    var total0: Count
    var total1: Count
    var buflen: nat
    const buffer: array<byte>
    ghost var message: seq<byte>
    ghost const compress: Compressor

    ghost function Chain(): State
      reads this
    {
      State(a, b, c, d)
    }

    ghost predicate Valid()
      reads this, buffer
    {
      buffer.Length == 128 && buflen <= BLOCK
          && Represents(compress, Chain(), total0, total1, buffer[..buflen], message)
    }

    /** md5_init_ctx */
    constructor ()
      ensures Valid() && Standard(compress) && message == [] && fresh(buffer)
    {
      a, b, c, d := INITIAL.a, INITIAL.b, INITIAL.c, INITIAL.d;
      total0, total1, buflen := 0, 0, 0;
      buffer := new byte[128](_ => 0);
      message := [];
      compress := Compress;
    }

    /** md5_process_block: counts the octets, then compresses 64 of them per round of the loop. */
    method ProcessBlock(data: seq<byte>)
      requires |data| % BLOCK == 0 && Standard(compress)
      modifies this`a, this`b, this`c, this`d, this`total0, this`total1
      ensures Chain() == Fold(compress, old(Chain()), data)
      ensures (total0, total1) == CountUp(old(total0), old(total1), |data|)
    {
      total0, total1 := CountUp(total0, total1, |data|).0, CountUp(total0, total1, |data|).1;
      var st := CompressAll(State(a, b, c, d), data, compress);
      a, b, c, d := st.a, st.b, st.c, st.d;
    }

    method MemCopy(at: nat, src: seq<byte>)
      requires buffer.Length == 128 && at + |src| <= 128
      modifies buffer
      ensures buffer[..at] == old(buffer[..at]) && buffer[at..at + |src|] == src
      ensures buffer[at + |src|..] == old(buffer[at + |src|..])
      ensures buffer[..at + |src|] == old(buffer[..at]) + src
    {
      forall i | 0 <= i < |src| {
        buffer[at + i] := src[i];
      }
    }

    /** md5_process_bytes with a buffer that is not empty: fill it up first. */
    method FillBuffer(data: seq<byte>) returns (add: nat)
      requires Valid() && Standard(compress) && |data| < TWO32
      modifies this, buffer
      ensures Valid() && add <= |data| && message == old(message) + data[..add]
      ensures add < |data| ==> buflen == 0
    {
      var leftOver := buflen;
      add := if 128 - leftOver > |data| then |data| else 128 - leftOver;
      ghost var tail := buffer[..leftOver];
      ghost var both := tail + data[..add];
      MemCopy(leftOver, data[..add]);
      buflen := buflen + add;
      message := message + data[..add];
      assert buffer[..buflen] == both;
      if leftOver + add > BLOCK {
        Absorb(compress, Chain(), total0, total1, tail, old(message), data[..add], both[..WholeBlocks(|both|)],
            both[WholeBlocks(|both|)..]);
        DrainBuffer(both);
      } else {
        Append(compress, Chain(), total0, total1, tail, old(message), data[..add]);
      }
    }

    /** Compresses the whole blocks in the buffer and moves the rest to its beginning. */
    method DrainBuffer(ghost both: seq<byte>)
      requires buffer.Length == 128 && buflen <= 128 && Standard(compress) && both == buffer[..buflen]
      modifies this`a, this`b, this`c, this`d, this`total0, this`total1, this`buflen, buffer
      ensures var n := WholeBlocks(|both|);
        && Chain() == Fold(compress, old(Chain()), both[..n])
        && (total0, total1) == CountUp(old(total0), old(total1), n)
        && buflen == |both| - n && buffer[..buflen] == both[n..]
    {
      var n := WholeBlocks(buflen);
      var rest := buflen - n;
      assert buffer[..n] == both[..n];
      ProcessBlock(buffer[..n]);
      assert buffer[n..buflen] == both[n..];
      MemCopy(0, buffer[n..buflen]);
      buflen := rest;
    }

    /** The rest of md5_process_bytes, with an empty buffer: whole blocks, then what remains. */
    method TakeBlocks(data: seq<byte>)
      requires Valid() && Standard(compress) && 0 < |data| < TWO32 && buflen == 0
      modifies this, buffer
      ensures Valid() && message == old(message) + data
    {
      var rest := data;
      message := message + data;
      if |data| > BLOCK {
        var n := WholeBlocks(|data|);
        Absorb(compress, Chain(), total0, total1, [], old(message), data, data[..n], data[n..]);
        ProcessBlock(data[..n]);
        rest := data[n..];
      } else {
        Append(compress, Chain(), total0, total1, [], old(message), data);
      }
      assert Represents(compress, Chain(), total0, total1, rest, message);
      if |rest| > 0 {
        MemCopy(0, rest);
        buflen := |rest|;
      }
      assert buffer[..buflen] == rest;
    }

    /** md5_process_bytes: any number of octets, in any chunks below 2^32 octets. */
    method ProcessBytes(data: seq<byte>)
      requires Valid() && Standard(compress) && |data| < TWO32
      modifies this, buffer
      ensures Valid() && message == old(message) + data
    {
      var add := 0;
      if buflen != 0 {
        add := FillBuffer(data);
      } else {
        assert message + data[..0] == message;
      }
      assert message + data[add..] == old(message) + data;
      if add < |data| {
        TakeBlocks(data[add..]);
      }
    }

    /** Padding and bit length go behind the tail, and the last blocks are compressed. */
    method PadAndCompress()
      requires Valid() && Standard(compress)
      modifies this, buffer
      ensures Chain() == Fold(compress, INITIAL, old(message) + Padding(|old(message)|))
    {
      var bytes := buflen;
      ghost var tail := buffer[..bytes];
      CountMore(total0, total1, |message| - bytes, bytes);
      total0, total1 := CountUp(total0, total1, bytes).0, CountUp(total0, total1, bytes).1;
      var pad := if bytes >= 56 then 64 + 56 - bytes else 56 - bytes;
      PadCount(|message|, bytes);
      PaddingIs(|message|, total0, total1);
      LastBlocks(compress, Chain(), tail, message);
      PutPadding(bytes, pad, tail);
      assert bytes + pad + 8 == 64 || bytes + pad + 8 == 128;
      ProcessBlock(buffer[..bytes + pad + 8]);
    }

    /** md5_finish_ctx */
    method Finish() returns (digest: Digest)
      requires Valid() && Standard(compress)
      modifies this, buffer
      ensures digest == Md5Digest(old(message))
    {
      FoldStandard(compress, INITIAL, message + Padding(|message|));
      PadAndCompress();
      return StateOctets(State(a, b, c, d));
    }

    /** fillbuf, then the two words of the length in bits, low-order octet first. */
    method PutPadding(bytes: nat, pad: nat, ghost tail: seq<byte>)
      requires buffer.Length == 128 && 0 < pad <= 64 && bytes + pad + 8 <= 128 && tail == buffer[..bytes]
      modifies buffer
      ensures buffer[..bytes + pad + 8] == tail + PaddedEnd(pad - 1, total0, total1)
    {
      ghost var p, l, h := [0x80] + Zeros(pad - 1), LittleEndian32(total0 * 8 % TWO32),
        LittleEndian32(total1 * 8 % TWO32 + total0 / 0x2000_0000);
      MemCopy(bytes, [0x80] + Zeros(pad - 1));
      assert buffer[..bytes + pad] == tail + p;
      MemCopy(bytes + pad, LittleEndian32(total0 * 8 % TWO32));
      assert buffer[..bytes + pad + 4] == (tail + p) + l;
      // the shifted high word and the three bits carried over from the low one share no bit
      MemCopy(bytes + pad + 4, LittleEndian32(total1 * 8 % TWO32 + total0 / 0x2000_0000));
      assert buffer[..bytes + pad + 8] == ((tail + p) + l) + h;
    }
  }

  /** What md5_finish_ctx puts behind the message. */
  function PaddedEnd(zeros: nat, low: Count, high: Count): (p: seq<byte>)
    ensures |p| == zeros + 9
  {
    [0x80] + Zeros(zeros) + LittleEndian32(low * 8 % TWO32) + LittleEndian32(high * 8 % TWO32 + low / 0x2000_0000)
  }

  /** The high word shifted left leaves room for three bits. */
  lemma ShiftedHigh(high: Count, c: nat)
    requires c < 8
    ensures high * 8 % TWO32 + c < TWO32
  {
    var q := high / 0x2000_0000;
    assert high == 0x2000_0000 * q + high % 0x2000_0000;
    DivMod(q, 8 * (high % 0x2000_0000));
    assert high * 8 == TWO32 * q + 8 * (high % 0x2000_0000);
  }

  lemma DivMod(q: nat, r: nat)
    requires r < TWO32
    ensures (TWO32 * q + r) / TWO32 == q && (TWO32 * q + r) % TWO32 == r
  {
  }

  /** Eight times n, as words. */
  lemma TimesEight(low: nat, high: nat, m: nat, c: nat, r: nat, q: nat, h: nat)
    requires low * 8 == TWO32 * c + r && high * 8 == TWO32 * q + h
    ensures 8 * (TWO64 * m + low + TWO32 * high) == TWO32 * (TWO32 * (8 * m + q) + (h + c)) + r
  {
  }

  lemma LowCarry(low: Count)
    ensures low * 8 / TWO32 == low / 0x2000_0000 < 8
  {
  }

  lemma BitLength(low: Count, high: Count, n: nat)
    requires Counts(low, high, n)
    ensures 8 * n % TWO32 == low * 8 % TWO32
    ensures 8 * n / TWO32 % TWO32 == high * 8 % TWO32 + low / 0x2000_0000
  {
    var m := n / TWO64;
    var c, r := low * 8 / TWO32, low * 8 % TWO32;
    var q, h := high * 8 / TWO32, high * 8 % TWO32;
    LowCarry(low);
    ShiftedHigh(high, c);
    assert n == TWO64 * m + low + TWO32 * high;
    TimesEight(low, high, m, c, r, q, h);
    DivMod(TWO32 * (8 * m + q) + (h + c), r);
    DivMod(8 * m + q, h + c);
  }

  lemma PadCount(n: nat, bytes: nat)
    requires bytes <= BLOCK && bytes <= n && (n - bytes) % BLOCK == 0
    ensures (if bytes >= 56 then 64 + 56 - bytes else 56 - bytes) - 1 == ZeroCount(n)
  {
    var q := (n - bytes) / BLOCK;
    assert n == BLOCK * q + bytes;
    if bytes == BLOCK {
      assert n == BLOCK * (q + 1);
      assert n % BLOCK == 0;
    } else {
      assert n % BLOCK == bytes;
    }
  }

  /** With the message counted, that is the padding of the standard. */
  lemma PaddingIs(n: nat, low: Count, high: Count)
    requires Counts(low, high, n)
    ensures PaddedEnd(ZeroCount(n), low, high) == Padding(n)
  {
    BitLength(low, high, n);
  }

  lemma LastBlocks(compress: Compressor, st: State, tail: seq<byte>, message: seq<byte>)
    requires |tail| <= |message| && (|message| - |tail|) % BLOCK == 0 && tail == message[|message| - |tail|..]
    requires st == Fold(compress, INITIAL, message[..|message| - |tail|])
    ensures Fold(compress, st, tail + Padding(|message|)) == Fold(compress, INITIAL, message + Padding(|message|))
  {
    var n := |message| - |tail|;
    FoldAppend(compress, INITIAL, message[..n], tail + Padding(|message|));
    assert message[..n] + (tail + Padding(|message|)) == message + Padding(|message|);
  }

  /** Everything fed to a new object, in any chunks, comes out as the standard's digest of the whole. */
  method DigestOfChunks(chunks: seq<seq<byte>>) returns (digest: Digest)
    requires forall i :: 0 <= i < |chunks| ==> |chunks[i]| < TWO32
    ensures digest == Md5Digest(Join(chunks))
  {
    var ctx := new Md5Ctx();
    for i := 0 to |chunks|
      invariant ctx.Valid() && Standard(ctx.compress) && fresh(ctx) && fresh(ctx.buffer)
      invariant ctx.message == Join(chunks[..i])
    {
      ctx.ProcessBytes(chunks[i]);
      assert chunks[..i + 1][..i] == chunks[..i];
    }
    assert chunks[..|chunks|] == chunks;
    digest := ctx.Finish();
  }

  function Join(chunks: seq<seq<byte>>): seq<byte> {
    if chunks == [] then [] else Join(chunks[..|chunks| - 1]) + chunks[|chunks| - 1]
  }

  method CompressAll(start: State, data: seq<byte>, ghost compress: Compressor) returns (st: State)
    requires |data| % BLOCK == 0 && Standard(compress)
    ensures st == Fold(compress, start, data)
  {
    st := start;
    var i := 0;
    while i < |data|
      invariant i <= |data| && i % BLOCK == 0
      invariant Fold(compress, st, data[i..]) == Fold(compress, start, data)
    {
      FoldNext(compress, st, data, i);
      assert Computes(compress, st, data[i..i + BLOCK]);
      st := CompressBlock(st, data[i..i + BLOCK]);
      i := i + BLOCK;
    }
  }

  /** One block: the unrolled steps, then the saved registers are added. */
  method CompressBlock(st: State, block: Block) returns (r: State)
    ensures r == Compress(st, block)
  {
    r := UnrolledBlock(st, Words(block));
    r := State(Add(r.a, st.a), Add(r.b, st.b), Add(r.c, st.c), Add(r.d, st.d));
  }

  method UnrolledBlock(st: State, x: seq<bv32>) returns (r: State)
    requires |x| == 16
    ensures r == AllSteps(StandardOp, st, x)
  {
    r := Unrolled(MacroOp, st, x);
    forall q, a, b, c, d, w, s, t
      ensures MacroOp(q, a, b, c, d, w, s, t) == StandardOp(q, a, b, c, d, w, s, t)
    {
      OperationsAgree(q, a, b, c, d, w, s, t);
    }
    SameSteps(MacroOp, StandardOp, 4 * |x|, st, x);
  }
}
