/** The RADIUS packet format of section 3 and 5 of RFC 2865, independent of any buffer. */
module RadiusFormat {
  import opened Options
  import opened Bytes

  const HEADER := 20
  const MIN_PDU := 20
  const MAX_PDU := 4096
  const MAX_ATTR := 255
  const AUTH_OFFSET := 4

  const USER_PASSWORD: byte := 2
  const VENDOR_SPECIFIC: byte := 26
  const MESSAGE_AUTHENTICATOR: byte := 80

  const ACCOUNTING_REQUEST: byte := 4

  datatype Attr = Attr(kind: byte, value: seq<byte>)
  {
    /** Fits its length octet; a vendor-specific attribute has room for the vendor id. */
    predicate WellFormed() {
      2 + |value| <= MAX_ATTR && (kind == VENDOR_SPECIFIC ==> |value| >= 4)
    }

    function Size(): nat { 2 + |value| }
  }

  /** Shortest legal length octet for an attribute type. */
  function MinLength(kind: byte): nat {
    if kind == VENDOR_SPECIFIC then 6 else 2
  }

  ghost predicate AllWellFormed(attrs: seq<Attr>) {
    forall i :: 0 <= i < |attrs| ==> attrs[i].WellFormed()
  }

  function EncodeAttr(a: Attr): (s: seq<byte>)
    requires a.Size() <= MAX_ATTR
    ensures |s| == a.Size()
  {
    [a.kind, a.Size()] + a.value
  }

  function Encode(attrs: seq<Attr>): seq<byte>
    requires AllWellFormed(attrs)
  {
    if attrs == [] then [] else EncodeAttr(attrs[0]) + Encode(attrs[1..])
  }

  /** Splits an attribute list; None when it does not split into well-formed attributes. */
  function Decode(body: seq<byte>): (r: Option<seq<Attr>>)
    ensures r.Some? ==> AllWellFormed(r.value)
    decreases |body|
  {
    if body == [] then Some([])
    else if |body| < 2 || |body| < body[1] || body[1] < MinLength(body[0]) then None
    else match Decode(body[body[1]..])
      case None => None
      case Some(rest) => Some([Attr(body[0], body[2..body[1]])] + rest)
  }

  // ---- the split exists exactly for encodings, and is unique ----

  lemma {:induction false} DecodeEncode(attrs: seq<Attr>)
    requires AllWellFormed(attrs)
    ensures Decode(Encode(attrs)) == Some(attrs)
  {
    if attrs != [] {
      var a := attrs[0];
      var body := Encode(attrs);
      assert body[0] == a.kind && body[1] == a.Size();
      assert body[2..body[1]] == a.value;
      assert body[body[1]..] == Encode(attrs[1..]);
      DecodeEncode(attrs[1..]);
      assert [a] + attrs[1..] == attrs;
    }
  }

  lemma {:induction false} EncodeDecode(body: seq<byte>)
    requires Decode(body).Some?
    ensures AllWellFormed(Decode(body).value) && Encode(Decode(body).value) == body
    decreases |body|
  {
    if body != [] {
      var rest := body[body[1]..];
      EncodeDecode(rest);
      var a, others := Attr(body[0], body[2..body[1]]), Decode(rest).value;
      var attrs := [a] + others;
      assert Decode(body) == Some(attrs);
      assert attrs[0] == a && attrs[1..] == others;
      EncodeStep(attrs);
      assert EncodeAttr(a) == body[..body[1]];
      assert body == body[..body[1]] + rest;
    }
  }

  lemma {:induction false} EncodeAppend(a: seq<Attr>, b: seq<Attr>)
    requires AllWellFormed(a) && AllWellFormed(b)
    ensures AllWellFormed(a + b) && Encode(a + b) == Encode(a) + Encode(b)
  {
    if a == [] {
      assert a + b == b;
    } else {
      assert (a + b)[1..] == a[1..] + b;
      EncodeAppend(a[1..], b);
      assert forall i :: 0 <= i < |a + b| ==> (a + b)[i] == if i < |a| then a[i] else b[i - |a|];
      EncodeStep(a + b);
      EncodeStep(a);
      Regroup(EncodeAttr(a[0]), Encode(a[1..]), Encode(b));
    }
  }

  lemma EncodeStep(a: seq<Attr>)
    requires AllWellFormed(a) && a != []
    ensures Encode(a) == EncodeAttr(a[0]) + Encode(a[1..])
  {
  }

  lemma Regroup(x: seq<byte>, y: seq<byte>, z: seq<byte>)
    ensures x + (y + z) == (x + y) + z
  {
  }

  lemma EncodeOne(a: Attr)
    requires a.WellFormed()
    ensures AllWellFormed([a]) && Encode([a]) == EncodeAttr(a)
  {
    assert [a][1..] == [];
  }

  /** Where attribute k starts, counted from the first one. */
  function Offset(attrs: seq<Attr>, k: nat): nat
    requires k <= |attrs|
  {
    if k == 0 then 0 else Offset(attrs, k - 1) + attrs[k - 1].Size()
  }

  lemma {:induction false} OffsetIsPrefix(attrs: seq<Attr>, k: nat)
    requires AllWellFormed(attrs) && k <= |attrs|
    ensures Offset(attrs, k) == |Encode(attrs[..k])|
  {
    if k > 0 {
      OffsetIsPrefix(attrs, k - 1);
      assert attrs[..k] == attrs[..k - 1] + [attrs[k - 1]];
      EncodeOne(attrs[k - 1]);
      EncodeAppend(attrs[..k - 1], [attrs[k - 1]]);
    }
  }

  /** The octets at attribute k are its encoding, with the rest of the list behind it. */
  lemma AttrAt(attrs: seq<Attr>, k: nat)
    requires AllWellFormed(attrs) && k < |attrs|
    ensures var o := Offset(attrs, k); var body := Encode(attrs);
      && o + attrs[k].Size() <= |body|
      && body == Encode(attrs[..k]) + EncodeAttr(attrs[k]) + Encode(attrs[k + 1..])
      && |Encode(attrs[..k])| == o
      && body[o] == attrs[k].kind && body[o + 1] == attrs[k].Size()
      && body[o + 2..o + attrs[k].Size()] == attrs[k].value
  {
    OffsetIsPrefix(attrs, k);
    EncodeOne(attrs[k]);
    assert attrs == attrs[..k] + ([attrs[k]] + attrs[k + 1..]);
    EncodeAppend([attrs[k]], attrs[k + 1..]);
    EncodeAppend(attrs[..k], [attrs[k]] + attrs[k + 1..]);
  }

  lemma AttrHead(attrs: seq<Attr>, k: nat)
    requires AllWellFormed(attrs) && k < |attrs|
    ensures var o := Offset(attrs, k); var body := Encode(attrs);
      && o + attrs[k].Size() <= |body|
      && body[o] == attrs[k].kind && body[o + 1] == attrs[k].Size()
      && body[o + 2..o + attrs[k].Size()] == attrs[k].value
  {
    AttrAt(attrs, k);
  }

  lemma AttrSplit(attrs: seq<Attr>, k: nat)
    requires AllWellFormed(attrs) && k < |attrs|
    ensures Encode(attrs) == Encode(attrs[..k]) + EncodeAttr(attrs[k]) + Encode(attrs[k + 1..])
    ensures |Encode(attrs[..k])| == Offset(attrs, k)
  {
    AttrAt(attrs, k);
  }

  // ---- whole packets ----

  datatype Packet = Packet(code: byte, id: byte, auth: Digest, attrs: seq<Attr>)
  {
    ghost predicate Fits() {
      code != 0 && AllWellFormed(attrs) && HEADER + |Encode(attrs)| <= MAX_PDU
    }
  }

  function EncodePacket(p: Packet): seq<byte>
    requires AllWellFormed(p.attrs)
  {
    var body := Encode(p.attrs);
    [p.code, p.id] + BigEndian16(HEADER + |body|) + p.auth + body
  }

  /** What the first octets of a buffer say, whatever lies behind the declared length. */
  function DecodePacket(d: seq<byte>): (r: Option<Packet>)
    requires |d| >= HEADER
    ensures r.Some? ==> AllWellFormed(r.value.attrs)
  {
    var len := Value16(d[2], d[3]);
    if d[0] == 0 || len < MIN_PDU || len > MAX_PDU || len > |d| then None
    else match Decode(d[HEADER..len])
      case None => None
      case Some(attrs) => Some(Packet(d[0], d[1], d[AUTH_OFFSET..HEADER], attrs))
  }

  lemma DecodeEncodePacket(p: Packet, trailing: seq<byte>)
    requires p.Fits()
    ensures |EncodePacket(p)| >= HEADER && DecodePacket(EncodePacket(p) + trailing) == Some(p)
  {
    var d := EncodePacket(p) + trailing;
    var len := HEADER + |Encode(p.attrs)|;
    Value16Of(len);
    assert Value16(d[2], d[3]) == len;
    assert d[HEADER..len] == Encode(p.attrs);
    assert d[AUTH_OFFSET..HEADER] == p.auth;
    DecodeEncode(p.attrs);
  }

  lemma EncodeDecodePacket(d: seq<byte>)
    requires |d| >= HEADER && DecodePacket(d).Some?
    ensures var p := DecodePacket(d).value; var len := Value16(d[2], d[3]);
      p.Fits() && len <= |d| && EncodePacket(p) == d[..len]
  {
    var len := Value16(d[2], d[3]);
    var body := d[HEADER..len];
    EncodeDecode(body);
    BigEndianOf(d[2], d[3]);
    var p := DecodePacket(d).value;
    assert Encode(p.attrs) == body && HEADER + |body| == len;
    SplitHeader(d, len);
  }

  lemma SplitHeader(d: seq<byte>, len: nat)
    requires HEADER <= len <= |d|
    ensures d[..len] == [d[0], d[1]] + [d[2], d[3]] + d[AUTH_OFFSET..HEADER] + d[HEADER..len]
  {
  }

  /** A list of octets splits into well-formed attributes in at most one way. */
  lemma UniqueSplit(a: seq<Attr>, b: seq<Attr>)
    requires AllWellFormed(a) && AllWellFormed(b) && Encode(a) == Encode(b)
    ensures a == b
  {
    DecodeEncode(a);
    DecodeEncode(b);
  }

  /** The octets hold a packet exactly when a packet's encoding is at their beginning, and then it is
      the only one. */
  lemma HoldsPacket(d: seq<byte>, p: Packet)
    requires |d| >= HEADER
    ensures DecodePacket(d) == Some(p) <==> p.Fits() && EncodePacket(p) <= d
  {
    if DecodePacket(d) == Some(p) {
      EncodeDecodePacket(d);
    }
    if p.Fits() && EncodePacket(p) <= d {
      var n := |EncodePacket(p)|;
      PrefixSplit(EncodePacket(p), d);
      DecodeEncodePacket(p, d[n..]);
    }
  }
}
