/** EAP packets in memory: header fields in network byte order, read and written through accessors. */
module EapPacket {
  import opened Bytes

  const HEADER_LEN := 5

  const REQUEST: byte := 1
  const RESPONSE: byte := 2
  const SUCCESS: byte := 3
  const FAILURE: byte := 4

  const NAK: byte := 3

  /** The codes process() of the dispatcher and of its handlers return. */
  datatype Code = RetCont | RetInv | RetOk | RetFail | RetAbort | RetOld

  /** Byte order of the machine the program runs on. */
  datatype Host = LittleEndian | BigEndian

  /** access_ui16 `+=`: htons(v) is added to the octets as the host reads them, and the result is
      stored back the same way. */
  function AddTo16(host: Host, hi: byte, lo: byte, v: nat): (byte, byte) {
    match host
    case BigEndian =>
      var sum := (Value16(hi, lo) + v) % 65536;
      (sum / 256, sum % 256)
    case LittleEndian =>
      // low address first: the host sees hi as the low and lo as the high octet
      var sum := (hi + 256 * lo + (v / 256 % 256 + 256 * (v % 256))) % 65536;
      (sum % 256, sum / 256)
  }

  /** The addition comes out right on a little-endian host exactly when the low octets do not carry. */
  predicate AddsExactly(host: Host, lo: byte, v: nat) {
    host == BigEndian || lo + v % 256 < 256
  }

  lemma SwappedSum(h: nat, l: nat)
    requires h < 256 && l < 512
    ensures (h + 256 * l) % 65536 % 256 == h
    ensures (h + 256 * l) % 65536 / 256 == if l < 256 then l else l - 256
  {
    if l >= 256 {
      assert h + 256 * l == 65536 + (h + 256 * (l - 256));
    }
  }

  lemma Octets(v: nat)
    requires v < 65536
    ensures v == 256 * (v / 256) + v % 256 && v / 256 % 256 == v / 256 < 256
  {
  }

  lemma AddSwapped(hi: byte, lo: byte, v: nat)
    requires Value16(hi, lo) + v < 65536
    ensures hi + v / 256 < 256
    ensures AddTo16(LittleEndian, hi, lo, v) ==
      (hi + v / 256, lo + v % 256 - if AddsExactly(LittleEndian, lo, v) then 0 else 256)
  {
    Octets(v);
    var a, b := v / 256, v % 256;
    assert hi + 256 * lo + (a + 256 * b) == (hi + a) + 256 * (lo + b);
    SwappedSum(hi + a, lo + b);
  }

  /** A lost carry leaves the value 256 short; nothing else can go wrong below 65536. */
  lemma AddTo16Exact(host: Host, hi: byte, lo: byte, v: nat)
    requires Value16(hi, lo) + v < 65536
    ensures var (h, l) := AddTo16(host, hi, lo, v);
      Value16(h, l) == Value16(hi, lo) + v - (if AddsExactly(host, lo, v) then 0 else 256)
    ensures host == LittleEndian ==>
      AddTo16(host, hi, lo, v).1 == lo + v % 256 - (if AddsExactly(host, lo, v) then 0 else 256)
  {
    if host == LittleEndian {
      AddSwapped(hi, lo, v);
      Octets(v);
    }
  }

  /** A 32-bit length, most significant octet first. */
  function BigEndian32(n: nat): (s: seq<byte>)
    ensures |s| == 4
  {
    [n / 0x100_0000 % 256, n / 0x1_0000 % 256, n / 0x100 % 256, n % 256]
  }

  function Value32(s: seq<byte>): nat
    requires |s| == 4
  {
    var a: int, b: int, c: int, d: int := s[0], s[1], s[2], s[3];
    0x100_0000 * a + 0x1_0000 * b + 0x100 * c + d
  }

  lemma Value32Of(n: nat)
    requires n < 0x1_0000_0000
    ensures Value32(BigEndian32(n)) == n
  {
    assert n == 256 * (n / 256) + n % 256;
    assert n / 256 == 256 * (n / 0x1_0000) + n / 256 % 256;
    assert n / 0x1_0000 == 256 * (n / 0x100_0000) + n / 0x1_0000 % 256;
  }
}
