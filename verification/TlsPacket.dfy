/** The octets of an EAP-TLS packet: what the handler reads from a request and writes into a response. */
module TlsPacket {
  import opened Options
  import opened Bytes
  import opened EapPacket
  import opened TlsHandler

  const TLS_TYPE: byte := 13
  const DATA_AT := HEADER_LEN + 1

  function LengthField(flags: byte): nat {
    if HasLength(flags) then 4 else 0
  }

  function EapLen(p: seq<byte>): nat
    requires |p| >= HEADER_LEN
  {
    Value16(p[2], p[3])
  }

  /** A request the handler can read: its length covers the header, the flag octet and, if flagged, the
      length field, and the frame holds that many octets. */
  predicate Readable(p: seq<byte>) {
    |p| > HEADER_LEN && DATA_AT + LengthField(p[5]) <= EapLen(p) <= |p|
  }

  function Read(p: seq<byte>): Input
    requires Readable(p)
  {
    var at := DATA_AT + LengthField(p[5]);
    Input(p[5], if HasLength(p[5]) then Value32(p[6..10]) else 0, p[at..EapLen(p)])
  }

  /** A reply fits into the packet. */
  predicate RoomFor(p: seq<byte>, reply: Reply) {
    |p| >= DATA_AT + match reply case Frame(flags, _, _, chunk) => LengthField(flags) + |chunk| case _ => 0
  }

  function FrameOctets(p: seq<byte>, len: (byte, byte), flags: byte, field: seq<byte>, chunk: seq<byte>): (q: seq<byte>)
    requires DATA_AT + |field| + |chunk| <= |p|
    ensures |q| == |p|
  {
    p[..2] + [len.0, len.1, p[4], flags] + field + chunk + p[DATA_AT + |field| + |chunk|..]
  }

  /** The packet after the handler has answered: code, identifier and type are not its business, and an
      empty output leaves even the length and the old payload in place. */
  function Write(host: Host, p: seq<byte>, reply: Reply): (q: seq<byte>)
    requires RoomFor(p, reply)
    ensures |q| == |p|
  {
    match reply
    case Frame(flags, declared, startLen, chunk) =>
      FrameOctets(p, AddTo16(host, 0, startLen, |chunk| + 1), flags,
                  if HasLength(flags) then BigEndian32(declared) else [], chunk)
    case Ack => FrameOctets(p, (0, 1), 0, [], [])
    case Silence => p
  }

  lemma FrameParts(p: seq<byte>, len: (byte, byte), flags: byte, field: seq<byte>, chunk: seq<byte>)
    requires DATA_AT + |field| + |chunk| <= |p|
    ensures var q := FrameOctets(p, len, flags, field, chunk);
      var at := DATA_AT + |field|;
      && q[..2] == p[..2] && q[2] == len.0 && q[3] == len.1 && q[4] == p[4] && q[5] == flags
      && q[DATA_AT..at] == field && q[at..at + |chunk|] == chunk && q[at + |chunk|..] == p[at + |chunk|..]
  {
  }

  /** The dispatcher's part of a response: its type and identifier, and the header added to the length. */
  function Finish(host: Host, p: seq<byte>, eapType: byte, id: byte): (q: seq<byte>)
    requires |p| >= HEADER_LEN
    ensures |q| == |p|
  {
    var (h, l) := AddTo16(host, p[2], p[3], HEADER_LEN);
    [p[0], id, h, l, eapType] + p[HEADER_LEN..]
  }

  /** The EAP length of a frame on the wire: startLen is stored, frame_next adds the chunk and the flag
      octet, the dispatcher adds its header. Both additions use access_ui16 `+=`. */
  function WireLength(host: Host, startLen: byte, chunk: nat): nat {
    var (h, l) := AddTo16(host, 0, startLen, chunk + 1);
    var (hi, lo) := AddTo16(host, h, l, HEADER_LEN);
    Value16(hi, lo)
  }

  /** Neither addition carries out of the low octet, or the host needs no swapping. */
  predicate Fits(host: Host, startLen: byte, chunk: nat) {
    host == BigEndian || startLen + (chunk + 1) % 256 + HEADER_LEN < 256
  }

  /** The length on the wire is exact if the frame fits, and 256 short of it otherwise. */
  lemma WireLengthExact(host: Host, startLen: byte, chunk: nat)
    requires startLen <= 4 && chunk + 10 < 65536
    ensures WireLength(host, startLen, chunk) ==
      startLen + chunk + 1 + HEADER_LEN - (if Fits(host, startLen, chunk) then 0 else 256)
  {
    AddTo16Exact(host, 0, startLen, chunk + 1);
    var (h, l) := AddTo16(host, 0, startLen, chunk + 1);
    AddTo16Exact(host, h, l, HEADER_LEN);
  }

  /** What a peer reads of a frame, or nothing when its length does not even cover its header: tls_pdu_len
      then wraps. */
  function Received(host: Host, reply: Reply): Option<Input>
    requires reply.Frame?
  {
    var size := WireLength(host, reply.startLen, |reply.chunk|) - DATA_AT - LengthField(reply.flags);
    if size < 0 || size > |reply.chunk| then None
    else Some(Input(reply.flags, reply.declared, reply.chunk[..size]))
  }

  /** A frame as the handler writes it: the length starts with the length field, which is there exactly
      when it is flagged. */
  predicate Proper(reply: Reply) {
    && reply.Frame? && |reply.chunk| + 10 < 65536
    && reply.startLen == LengthField(reply.flags)
    && if HasLength(reply.flags) then reply.declared < 0x1_0000_0000 else reply.declared == 0
  }

  function Field(reply: Reply): seq<byte>
    requires reply.Frame?
  {
    if HasLength(reply.flags) then BigEndian32(reply.declared) else []
  }

  /** A packet with this length, these flags, this field and this chunk. */
  ghost predicate Shows(w: seq<byte>, size: nat, flags: byte, field: seq<byte>, chunk: seq<byte>) {
    && |w| >= DATA_AT + |field| + |chunk| && EapLen(w) == size && w[5] == flags
    && w[DATA_AT..DATA_AT + |field|] == field && w[DATA_AT + |field|..DATA_AT + |field| + |chunk|] == chunk
  }

  /** What is on the wire. */
  lemma WrittenShows(host: Host, p: seq<byte>, reply: Reply, eapType: byte, id: byte)
    requires Proper(reply) && RoomFor(p, reply)
    ensures Shows(Finish(host, Write(host, p, reply), eapType, id), WireLength(host, reply.startLen, |reply.chunk|),
                  reply.flags, Field(reply), reply.chunk)
  {
    var field := Field(reply);
    var at := DATA_AT + |field|;
    var len := AddTo16(host, 0, reply.startLen, |reply.chunk| + 1);
    var q := FrameOctets(p, len, reply.flags, field, reply.chunk);
    FrameParts(p, len, reply.flags, field, reply.chunk);
    FinishKeeps(host, q, eapType, id, DATA_AT, at);
    FinishKeeps(host, q, eapType, id, at, at + |reply.chunk|);
  }

  /** What Read makes of it. */
  lemma ReadShown(w: seq<byte>, size: nat, flags: byte, declared: nat, field: seq<byte>, chunk: seq<byte>)
    requires Shows(w, size, flags, field, chunk) && |field| == LengthField(flags)
    requires if HasLength(flags) then declared < 0x1_0000_0000 && field == BigEndian32(declared) else declared == 0
    requires size <= DATA_AT + |field| + |chunk|
    ensures Readable(w) <==> size >= DATA_AT + |field|
    ensures size >= DATA_AT + |field| ==> Read(w) == Input(flags, declared, chunk[..size - DATA_AT - |field|])
  {
    var at := DATA_AT + |field|;
    if size >= at {
      PrefixOf(w, at, chunk, size - at);
      ReadOf(w, flags, declared, size, chunk[..size - at]);
    }
  }

  /** Received is what Read makes of the octets that Write and Finish produce, in whatever buffer. */
  lemma WrittenIsReceived(host: Host, p: seq<byte>, reply: Reply, eapType: byte, id: byte)
    requires Proper(reply) && RoomFor(p, reply)
    ensures var w := Finish(host, Write(host, p, reply), eapType, id);
      && (Readable(w) <==> Received(host, reply).Some?)
      && (Readable(w) ==> Received(host, reply) == Some(Read(w)))
  {
    WrittenShows(host, p, reply, eapType, id);
    WireLengthExact(host, reply.startLen, |reply.chunk|);
    ReadShown(Finish(host, Write(host, p, reply), eapType, id), WireLength(host, reply.startLen, |reply.chunk|),
              reply.flags, reply.declared, Field(reply), reply.chunk);
  }

  lemma ReadOf(w: seq<byte>, flags: byte, declared: nat, size: nat, payload: seq<byte>)
    requires DATA_AT + LengthField(flags) <= size <= |w|
    requires w[5] == flags && EapLen(w) == size && w[DATA_AT + LengthField(flags)..size] == payload
    requires if HasLength(flags) then declared < 0x1_0000_0000
        && w[DATA_AT..DATA_AT + 4] == BigEndian32(declared) else declared == 0
    ensures Readable(w) && Read(w) == Input(flags, declared, payload)
  {
    Value32Of(declared);
  }

  lemma FinishKeeps(host: Host, q: seq<byte>, eapType: byte, id: byte, from: nat, to: nat)
    requires DATA_AT <= from <= to <= |q|
    ensures var w := Finish(host, q, eapType, id);
      var (h, l) := AddTo16(host, q[2], q[3], HEADER_LEN);
      w[5] == q[5] && w[from..to] == q[from..to] && EapLen(w) == Value16(h, l)
  {
  }

  lemma PrefixOf(q: seq<byte>, at: nat, chunk: seq<byte>, n: nat)
    requires at + |chunk| <= |q| && q[at..at + |chunk|] == chunk && n <= |chunk|
    ensures q[at..at + n] == chunk[..n]
  {
    assert q[at..at + n] == q[at..at + |chunk|][..n];
  }
}
