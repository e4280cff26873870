/** The packet object: one 4096-octet array that attributes are found in, appended to and
    rewritten in place. */
module RadiusPDU {
  import opened Options
  import opened Bytes
  import opened RadiusFormat
  import opened RadiusCrypto
  import opened CiscoNames

  // ---- what writing into the array does to the packet it holds ----

  function SetLen(d: seq<byte>, n: nat): (r: seq<byte>)
    requires |d| >= HEADER
    ensures |r| == |d|
  {
    d[2 := n / 256 % 256][3 := n % 256]
  }

  function LenOf(d: seq<byte>): nat
    requires |d| >= HEADER
  {
    Value16(d[2], d[3])
  }

  /** Enough to know of the octets to know the packet. */
  lemma Recognise(d: seq<byte>, p: Packet)
    requires |d| == MAX_PDU && p.Fits()
    requires d[0] == p.code && d[1] == p.id && d[AUTH_OFFSET..HEADER] == p.auth
    requires LenOf(d) == HEADER + |Encode(p.attrs)| && d[HEADER..LenOf(d)] == Encode(p.attrs)
    ensures DecodePacket(d) == Some(p)
  {
    DecodeEncode(p.attrs);
  }

  lemma Recognised(d: seq<byte>, p: Packet)
    requires |d| == MAX_PDU && DecodePacket(d) == Some(p)
    ensures p.Fits() && LenOf(d) == HEADER + |Encode(p.attrs)| && d[HEADER..LenOf(d)] == Encode(p.attrs)
    ensures d[0] == p.code && d[1] == p.id && d[AUTH_OFFSET..HEADER] == p.auth
    ensures d[..LenOf(d)] == EncodePacket(p)
  {
    EncodeDecodePacket(d);
    EncodeDecode(d[HEADER..LenOf(d)]);
  }

  /** A buffer with the header of `d` and the encoding of other attributes. */
  lemma Reheaded(d: seq<byte>, r: seq<byte>, p: Packet, q: seq<Attr>)
    requires |d| == |r| == MAX_PDU && DecodePacket(d) == Some(p)
    requires r[0] == d[0] && r[1] == d[1] && r[AUTH_OFFSET..HEADER] == d[AUTH_OFFSET..HEADER]
    requires AllWellFormed(q) && LenOf(r) == HEADER + |Encode(q)| <= MAX_PDU && r[HEADER..LenOf(r)] == Encode(q)
    ensures DecodePacket(r) == Some(p.(attrs := q))
  {
    Recognised(d, p);
    Recognise(r, p.(attrs := q));
  }

  /** The raw effect of appending: the attribute behind the declared length, then the new length. */
  function Appended(d: seq<byte>, kind: byte, value: seq<byte>): seq<byte>
    requires |d| == MAX_PDU && 2 + |value| <= MAX_ATTR && LenOf(d) + 2 + |value| <= MAX_PDU
  {
    SetLen(Overwrite(d, LenOf(d), [kind, 2 + |value|] + value), LenOf(d) + 2 + |value|)
  }

  lemma AppendedShape(d: seq<byte>, kind: byte, value: seq<byte>)
    requires |d| == MAX_PDU && 2 + |value| <= MAX_ATTR && HEADER <= LenOf(d) && LenOf(d) + 2 + |value| <= MAX_PDU
    ensures var r := Appended(d, kind, value); var n := LenOf(d) + 2 + |value|;
      && LenOf(r) == n && r[0] == d[0] && r[1] == d[1] && r[AUTH_OFFSET..HEADER] == d[AUTH_OFFSET..HEADER]
      && r[HEADER..n] == d[HEADER..LenOf(d)] + ([kind, 2 + |value|] + value)
  {
    var r := Appended(d, kind, value);
    Value16Of(LenOf(d) + 2 + |value|);
    assert r[AUTH_OFFSET..HEADER] == d[AUTH_OFFSET..HEADER];
  }

  lemma AppendDecodes(d: seq<byte>, p: Packet, a: Attr)
    requires |d| == MAX_PDU && DecodePacket(d) == Some(p) && a.WellFormed() && LenOf(d) + a.Size() <= MAX_PDU
    ensures DecodePacket(Appended(d, a.kind, a.value)) == Some(p.(attrs := p.attrs + [a]))
  {
    Recognised(d, p);
    AppendedShape(d, a.kind, a.value);
    EncodeOne(a);
    EncodeAppend(p.attrs, [a]);
    Recognise(Appended(d, a.kind, a.value), p.(attrs := p.attrs + [a]));
  }

  /** A list that decodes, followed by octets that do not, does not decode. */
  lemma {:induction false} DecodeStuck(attrs: seq<Attr>, tail: seq<byte>)
    requires AllWellFormed(attrs) && Decode(tail) == None
    ensures Decode(Encode(attrs) + tail) == None
  {
    if attrs == [] {
      assert Encode(attrs) + tail == tail;
    } else {
      var body := Encode(attrs) + tail;
      assert body[attrs[0].Size()..] == Encode(attrs[1..]) + tail;
      DecodeStuck(attrs[1..], tail);
    }
  }

  /** Appending a vendor-specific value too short for a vendor id leaves an invalid packet. */
  lemma AppendSpoils(d: seq<byte>, p: Packet, kind: byte, value: seq<byte>)
    requires |d| == MAX_PDU && DecodePacket(d) == Some(p)
    requires 2 + |value| <= MAX_ATTR && LenOf(d) + 2 + |value| <= MAX_PDU
    requires !Attr(kind, value).WellFormed()
    ensures DecodePacket(Appended(d, kind, value)) == None
  {
    Recognised(d, p);
    var r := Appended(d, kind, value);
    var n := LenOf(d) + 2 + |value|;
    var tail := [kind, 2 + |value|] + value;
    AppendedShape(d, kind, value);
    assert Decode(tail) == None;
    DecodeStuck(p.attrs, tail);
  }

  /** The packet with one more attribute; none when that attribute is not well-formed. */
  function WithAppended(p: Packet, a: Attr): Option<Packet> {
    if a.WellFormed() then Some(p.(attrs := p.attrs + [a])) else None
  }

  lemma AppendEffect(d: seq<byte>, kind: byte, value: seq<byte>)
    requires |d| == MAX_PDU && 2 + |value| <= MAX_ATTR && LenOf(d) + 2 + |value| <= MAX_PDU
    ensures DecodePacket(d).Some? ==>
      DecodePacket(Appended(d, kind, value)) == WithAppended(DecodePacket(d).value, Attr(kind, value))
  {
    if DecodePacket(d).Some? {
      if Attr(kind, value).WellFormed() {
        AppendDecodes(d, DecodePacket(d).value, Attr(kind, value));
      } else {
        AppendSpoils(d, DecodePacket(d).value, kind, value);
      }
    }
  }

  /** Where attribute k is in the array; None, the null pointer, behind the last one. */
  function Pointer(attrs: seq<Attr>, k: nat): Option<nat>
    requires k <= |attrs|
  {
    if k == |attrs| then None else Some(HEADER + Offset(attrs, k))
  }

  /** The array holds the encoding of `attrs` behind the header. */
  ghost predicate Carries(d: seq<byte>, attrs: seq<Attr>) {
    && |d| == MAX_PDU && AllWellFormed(attrs) && HEADER + |Encode(attrs)| <= |d|
    && LenOf(d) == HEADER + |Encode(attrs)| && d[HEADER..HEADER + |Encode(attrs)|] == Encode(attrs)
  }

  lemma Carried(d: seq<byte>, p: Packet)
    requires |d| == MAX_PDU && DecodePacket(d) == Some(p)
    ensures Carries(d, p.attrs)
  {
    Recognised(d, p);
  }

  lemma HeadShown(d: seq<byte>, w: seq<byte>, o: nat, kind: byte, value: seq<byte>)
    requires HEADER + |w| <= |d| && d[HEADER..HEADER + |w|] == w && o + 2 + |value| <= |w|
    requires w[o] == kind && w[o + 1] == 2 + |value| && w[o + 2..o + 2 + |value|] == value
    ensures d[HEADER + o] == kind && d[HEADER + o + 1] == 2 + |value|
    ensures d[HEADER + o + 2..HEADER + o + 2 + |value|] == value
  {
    Window(d, HEADER, w, o, o + 1);
    Window(d, HEADER, w, o + 1, o + 2);
    Window(d, HEADER, w, o + 2, o + 2 + |value|);
  }

  /** Attribute k as the array shows it. */
  lemma PointerFacts(d: seq<byte>, attrs: seq<Attr>, k: nat)
    requires Carries(d, attrs) && k < |attrs|
    ensures var o := HEADER + Offset(attrs, k);
      && o + attrs[k].Size() <= LenOf(d)
      && d[o] == attrs[k].kind && d[o + 1] == attrs[k].Size()
      && d[o + 2..o + attrs[k].Size()] == attrs[k].value
  {
    AttrHead(attrs, k);
    HeadShown(d, Encode(attrs), Offset(attrs, k), attrs[k].kind, attrs[k].value);
  }

  lemma EndsInside(d: seq<byte>, attrs: seq<Attr>, k: nat)
    requires Carries(d, attrs) && k < |attrs|
    ensures HEADER + Offset(attrs, k) + 2 + |attrs[k].value| <= LenOf(d)
  {
    PointerFacts(d, attrs, k);
  }

  /** Octets `w` behind the header that fall into three parts, the middle one at o. */
  lemma PartsAround(d: seq<byte>, w: seq<byte>, a: seq<byte>, b: seq<byte>, c: seq<byte>, o: nat)
    requires HEADER + |w| <= |d| && d[HEADER..HEADER + |w|] == w && w == a + b + c && o == HEADER + |a|
    ensures d[HEADER..o] == a && o + |b| + |c| == HEADER + |w| && d[o + |b|..HEADER + |w|] == c
  {
    ThreeParts(d, HEADER, w, a, b, c);
  }

  lemma EndOffset(d: seq<byte>, attrs: seq<Attr>)
    requires Carries(d, attrs)
    ensures HEADER + Offset(attrs, |attrs|) == LenOf(d)
  {
    OffsetIsPrefix(attrs, |attrs|);
    assert attrs[..|attrs|] == attrs;
  }

  lemma AuthDecodes(d: seq<byte>, p: Packet, auth: Digest)
    requires |d| == MAX_PDU && DecodePacket(d) == Some(p)
    ensures DecodePacket(Overwrite(d, AUTH_OFFSET, auth)) == Some(p.(auth := auth))
  {
    Recognised(d, p);
    var r := Overwrite(d, AUTH_OFFSET, auth);
    assert r[AUTH_OFFSET..HEADER] == auth;
    assert r[HEADER..LenOf(d)] == d[HEADER..LenOf(d)];
    Recognise(r, p.(auth := auth));
  }

  lemma IdDecodes(d: seq<byte>, p: Packet, id: byte)
    requires |d| == MAX_PDU && DecodePacket(d) == Some(p)
    ensures DecodePacket(d[1 := id]) == Some(p.(id := id))
  {
    Recognised(d, p);
    var r := d[1 := id];
    assert r[AUTH_OFFSET..HEADER] == d[AUTH_OFFSET..HEADER];
    assert r[HEADER..LenOf(d)] == d[HEADER..LenOf(d)];
    Recognise(r, p.(id := id));
  }

  /** Octets behind the declared length do not matter. */
  lemma BeyondLength(d: seq<byte>, r: seq<byte>)
    requires |d| == |r| == MAX_PDU && HEADER <= LenOf(d) <= MAX_PDU && r[..LenOf(d)] == d[..LenOf(d)]
    ensures DecodePacket(r) == DecodePacket(d) && LenOf(r) == LenOf(d)
  {
    var n := LenOf(d);
    assert forall i :: 0 <= i < n ==> d[..n][i] == r[..n][i];
    assert r[HEADER..n] == d[HEADER..n];
    assert r[AUTH_OFFSET..HEADER] == d[AUTH_OFFSET..HEADER];
  }

  lemma WithValueEncode(attrs: seq<Attr>, k: nat, v: seq<byte>)
    requires AllWellFormed(attrs) && k < |attrs| && |v| == |attrs[k].value|
    ensures var q := WithValue(attrs, k, v);
      && AllWellFormed(q) && |Encode(q)| == |Encode(attrs)|
      && Encode(q) == Encode(attrs[..k]) + EncodeAttr(Attr(attrs[k].kind, v)) + Encode(attrs[k + 1..])
  {
    var q := WithValue(attrs, k, v);
    AttrSplit(attrs, k);
    AttrSplit(q, k);
    assert q[..k] == attrs[..k] && q[k + 1..] == attrs[k + 1..];
  }

  lemma ValueShape(d: seq<byte>, o: nat, n: nat, kind: byte, v: seq<byte>)
    requires |d| == MAX_PDU && HEADER <= o && o + 2 + |v| <= n <= MAX_PDU && 2 + |v| <= MAX_ATTR
    requires d[o] == kind && d[o + 1] == 2 + |v|
    ensures var r := Overwrite(d, o + 2, v);
      && r[..HEADER] == d[..HEADER]
      && r[HEADER..n] == d[HEADER..o] + EncodeAttr(Attr(kind, v)) + d[o + 2 + |v|..n]
  {
    var r := Overwrite(d, o + 2, v);
    assert r[HEADER..o] == d[HEADER..o];
    assert r[o..o + 2 + |v|] == EncodeAttr(Attr(kind, v));
    assert r[o + 2 + |v|..n] == d[o + 2 + |v|..n];
    assert r[HEADER..n] == r[HEADER..o] + r[o..o + 2 + |v|] + r[o + 2 + |v|..n];
  }

  lemma SameHeader(d: seq<byte>, r: seq<byte>)
    requires |d| == |r| == MAX_PDU && r[..HEADER] == d[..HEADER]
    ensures r[0] == d[0] && r[1] == d[1] && LenOf(r) == LenOf(d) && r[AUTH_OFFSET..HEADER] == d[AUTH_OFFSET..HEADER]
  {
    assert forall i :: 0 <= i < HEADER ==> d[..HEADER][i] == r[..HEADER][i];
  }

  /** The value of the attribute in the middle is written over. */
  lemma ValueBytes(d: seq<byte>, n: nat, w: seq<byte>, a: seq<byte>, b: seq<byte>, c: seq<byte>, kind: byte,
        v: seq<byte>, o: nat)
    requires |d| == MAX_PDU && n == HEADER + |w| <= MAX_PDU && d[HEADER..n] == w
    requires w == a + b + c && o == HEADER + |a| && |b| == 2 + |v| <= MAX_ATTR && d[o] == kind && d[o + 1] == 2 + |v|
    ensures o + 2 + |v| <= n
    ensures var r := Overwrite(d, o + 2, v);
      r[..HEADER] == d[..HEADER] && r[HEADER..n] == a + EncodeAttr(Attr(kind, v)) + c
  {
    PartsAround(d, w, a, b, c, o);
    ValueShape(d, o, n, kind, v);
  }

  lemma ValueBody(d: seq<byte>, attrs: seq<Attr>, k: nat, v: seq<byte>, o: nat, r: seq<byte>)
    requires Carries(d, attrs) && k < |attrs| && |v| == |attrs[k].value| && o == HEADER + Offset(attrs, k)
    requires o + 2 + |v| <= LenOf(d) && r == Overwrite(d, o + 2, v)
    ensures var q := WithValue(attrs, k, v);
      && AllWellFormed(q) && r[..HEADER] == d[..HEADER]
      && LenOf(d) == HEADER + |Encode(q)| <= MAX_PDU && r[HEADER..LenOf(d)] == Encode(q)
  {
    WithValueEncode(attrs, k, v);
    ValueMiddle(d, attrs, k, v, o, r);
  }

  lemma ValueMiddle(d: seq<byte>, attrs: seq<Attr>, k: nat, v: seq<byte>, o: nat, r: seq<byte>)
    requires Carries(d, attrs) && k < |attrs| && |v| == |attrs[k].value| && o == HEADER + Offset(attrs, k)
    requires o + 2 + |v| <= LenOf(d) && r == Overwrite(d, o + 2, v)
    ensures r[..HEADER] == d[..HEADER]
    ensures r[HEADER..LenOf(d)] == Encode(attrs[..k]) + EncodeAttr(Attr(attrs[k].kind, v)) + Encode(attrs[k + 1..])
  {
    PointerFacts(d, attrs, k);
    AttrSplit(attrs, k);
    ValueBytes(d, LenOf(d), Encode(attrs), Encode(attrs[..k]), EncodeAttr(attrs[k]), Encode(attrs[k + 1..]),
        attrs[k].kind, v, o);
  }

  /** The same header with the encoding of other attributes of the same length. */
  lemma Rebodied(d: seq<byte>, r: seq<byte>, p: Packet, q: seq<Attr>)
    requires |d| == |r| == MAX_PDU && DecodePacket(d) == Some(p) && r[..HEADER] == d[..HEADER]
    requires AllWellFormed(q) && LenOf(d) == HEADER + |Encode(q)| <= MAX_PDU && r[HEADER..LenOf(d)] == Encode(q)
    ensures DecodePacket(r) == Some(p.(attrs := q))
  {
    SameHeader(d, r);
    Reheaded(d, r, p, q);
  }

  /** Replacing a value by one of the same length. */
  lemma ValueDecodes(d: seq<byte>, p: Packet, k: nat, v: seq<byte>)
    requires |d| == MAX_PDU && DecodePacket(d) == Some(p) && k < |p.attrs| && |v| == |p.attrs[k].value|
    ensures HEADER + Offset(p.attrs, k) + p.attrs[k].Size() <= MAX_PDU
    ensures DecodePacket(Overwrite(d, HEADER + Offset(p.attrs, k) + 2, v))
        == Some(p.(attrs := WithValue(p.attrs, k, v)))
  {
    Carried(d, p);
    EndsInside(d, p.attrs, k);
    var o := HEADER + Offset(p.attrs, k);
    var r := Overwrite(d, o + 2, v);
    ValueBody(d, p.attrs, k, v, o, r);
    Rebodied(d, r, p, WithValue(p.attrs, k, v));
  }

  // ---- sliding the hidden password into place ----

  /** The attributes without the first password, and the new one at the end. */
  function Repassworded(attrs: seq<Attr>, k: nat, value: seq<byte>): seq<Attr>
    requires k < |attrs|
  {
    attrs[..k] + attrs[k + 1..] + [Attr(USER_PASSWORD, value)]
  }

  /** The buffer after the length is set and everything behind attribute k has moved down over it. */
  function Slid(d: seq<byte>, o: nat, size: nat, added: nat): seq<byte>
    requires |d| == MAX_PDU && o + size <= LenOf(d) && LenOf(d) + added <= MAX_PDU
  {
    var n := LenOf(d);
    Overwrite(SetLen(d, n + added - size), o, d[o + size..n + added])
  }

  lemma SlidShape(d: seq<byte>, o: nat, size: nat, added: nat)
    requires |d| == MAX_PDU && HEADER <= o && o + size <= LenOf(d) && LenOf(d) + added <= MAX_PDU
    ensures var r := Slid(d, o, size, added); var n := LenOf(d);
      && |r| == MAX_PDU && LenOf(r) == n + added - size
      && r[0] == d[0] && r[1] == d[1] && r[AUTH_OFFSET..HEADER] == d[AUTH_OFFSET..HEADER]
      && r[HEADER..n + added - size] == d[HEADER..o] + d[o + size..n] + d[n..n + added]
  {
    var r := Slid(d, o, size, added);
    var n := LenOf(d);
    var s := SetLen(d, n + added - size);
    var moved := d[o + size..n + added];
    Value16Of(n + added - size);
    SetLenKeeps(d, n + added - size, AUTH_OFFSET, HEADER);
    SetLenKeeps(d, n + added - size, HEADER, o);
    OverwriteKeeps(s, o, moved, AUTH_OFFSET, HEADER);
    OverwriteKeeps(s, o, moved, HEADER, o);
    Adjacent(d, o + size, n, n + added);
    Adjacent(r, HEADER, o, n + added - size);
  }

  lemma SlidIs(d: seq<byte>, s: seq<byte>, o: nat, size: nat, added: nat)
    requires |d| == MAX_PDU && HEADER <= o && o + size <= LenOf(d) && LenOf(d) + added <= MAX_PDU
    requires s == SetLen(d, LenOf(d) + added - size)
    ensures Overwrite(s, o, s[o + size..LenOf(d) + added]) == Slid(d, o, size, added)
  {
    SetLenKeeps(d, LenOf(d) + added - size, o + size, LenOf(d) + added);
  }

  lemma SetLenKeeps(d: seq<byte>, n: nat, i: nat, j: nat)
    requires |d| == MAX_PDU && AUTH_OFFSET <= i <= j <= MAX_PDU
    ensures SetLen(d, n)[i..j] == d[i..j]
  {
  }

  lemma RepasswordedEncode(attrs: seq<Attr>, k: nat, value: seq<byte>)
    requires AllWellFormed(attrs) && k < |attrs| && 2 + |value| <= MAX_ATTR
    ensures var q := Repassworded(attrs, k, value);
      && AllWellFormed(q)
      && Encode(q) == Encode(attrs[..k]) + Encode(attrs[k + 1..]) + EncodeAttr(Attr(USER_PASSWORD, value))
      && |Encode(q)| == |Encode(attrs)| - attrs[k].Size() + 2 + |value|
  {
    var a := Attr(USER_PASSWORD, value);
    EncodeOne(a);
    EncodeAppend(attrs[..k], attrs[k + 1..]);
    EncodeAppend(attrs[..k] + attrs[k + 1..], [a]);
    AttrSplit(attrs, k);
  }

  lemma SlidParts(d: seq<byte>, o: nat, size: nat, added: nat, x: seq<byte>, y: seq<byte>, z: seq<byte>,
        whole: seq<byte>)
    requires |d| == MAX_PDU && HEADER <= o && o + size <= LenOf(d) && LenOf(d) + added <= MAX_PDU
    requires d[HEADER..o] == x && d[o + size..LenOf(d)] == y && d[LenOf(d)..LenOf(d) + added] == z && whole == x + y + z
    ensures var r := Slid(d, o, size, added);
      LenOf(r) == HEADER + |whole| <= MAX_PDU && r[HEADER..LenOf(r)] == whole
  {
    SlidShape(d, o, size, added);
  }

  /** The part in the middle is slid over, and what was behind the packet becomes its end. */
  lemma SlideBytes(d: seq<byte>, w: seq<byte>, a: seq<byte>, b: seq<byte>, c: seq<byte>, z: seq<byte>, o: nat)
    requires |d| == MAX_PDU && LenOf(d) == HEADER + |w| && LenOf(d) + |z| <= MAX_PDU && d[HEADER..LenOf(d)] == w
    requires w == a + b + c && o == HEADER + |a| && d[LenOf(d)..LenOf(d) + |z|] == z
    ensures o + |b| <= LenOf(d)
    ensures var r := Slid(d, o, |b|, |z|);
      LenOf(r) == HEADER + |a + c + z| <= MAX_PDU && r[HEADER..LenOf(r)] == a + c + z
  {
    PartsAround(d, w, a, b, c, o);
    SlidParts(d, o, |b|, |z|, a, c, z, a + c + z);
  }

  lemma SlideBody(d: seq<byte>, attrs: seq<Attr>, k: nat, value: seq<byte>, o: nat, size: nat)
    requires Carries(d, attrs) && k < |attrs| && o == HEADER + Offset(attrs, k) && size == attrs[k].Size()
    requires 2 + |value| <= MAX_ATTR && LenOf(d) + 2 + |value| <= MAX_PDU && o + size <= LenOf(d)
    requires d[LenOf(d)..LenOf(d) + 2 + |value|] == EncodeAttr(Attr(USER_PASSWORD, value))
    ensures var q := Repassworded(attrs, k, value); var r := Slid(d, o, size, 2 + |value|);
      AllWellFormed(q) && LenOf(r) == HEADER + |Encode(q)| <= MAX_PDU && r[HEADER..LenOf(r)] == Encode(q)
  {
    AttrSplit(attrs, k);
    RepasswordedEncode(attrs, k, value);
    SlideBytes(d, Encode(attrs), Encode(attrs[..k]), EncodeAttr(attrs[k]), Encode(attrs[k + 1..]),
               EncodeAttr(Attr(USER_PASSWORD, value)), o);
  }

  lemma SlideDecodes(d: seq<byte>, p: Packet, k: nat, value: seq<byte>, o: nat, size: nat)
    requires |d| == MAX_PDU && DecodePacket(d) == Some(p) && k < |p.attrs|
    requires o == HEADER + Offset(p.attrs, k) && size == p.attrs[k].Size() && o + size <= LenOf(d)
    requires 2 + |value| <= MAX_ATTR && LenOf(d) + 2 + |value| <= MAX_PDU
    requires d[LenOf(d)..LenOf(d) + 2 + |value|] == EncodeAttr(Attr(USER_PASSWORD, value))
    ensures DecodePacket(Slid(d, o, size, 2 + |value|)) == Some(p.(attrs := Repassworded(p.attrs, k, value)))
  {
    Carried(d, p);
    SlideBody(d, p.attrs, k, value, o, size);
    SlidShape(d, o, size, 2 + |value|);
    Reheaded(d, Slid(d, o, size, 2 + |value|), p, Repassworded(p.attrs, k, value));
  }

  // ---- hiding block by block ----

  lemma WholeBlocks(done: nat, length: nat)
    requires done % 16 == 0 && length % 16 == 0 && done < length
    ensures done + 16 <= length && (done + 16) % 16 == 0
  {
  }

  /** The first `done` octets from `at` on are cipher, everything else is as in `d`. */
  ghost predicate HiddenUpTo(now: seq<byte>, d: seq<byte>, at: nat, cipher: seq<byte>, done: nat) {
    at + |cipher| <= |d| && done <= |cipher| && now == Overwrite(d, at, cipher[..done])
  }

  lemma HiddenStart(d: seq<byte>, at: nat, cipher: seq<byte>)
    requires at + |cipher| <= |d|
    ensures HiddenUpTo(d, d, at, cipher, 0)
  {
    assert Overwrite(d, at, cipher[..0]) == d;
  }

  lemma HiddenEnd(now: seq<byte>, d: seq<byte>, at: nat, cipher: seq<byte>)
    requires HiddenUpTo(now, d, at, cipher, |cipher|)
    ensures now == Overwrite(d, at, cipher)
  {
    assert cipher[..|cipher|] == cipher;
  }

  lemma OverwriteMore(d: seq<byte>, at: nat, a: seq<byte>, b: seq<byte>)
    requires at + |a| + |b| <= |d|
    ensures Overwrite(Overwrite(d, at, a), at + |a|, b) == Overwrite(d, at, a + b)
  {
  }

  /** The array after `done` octets shows the cipher so far and the plain text behind it. */
  lemma HalfHidden(d: seq<byte>, at: nat, plain: seq<byte>, cipher: seq<byte>, done: nat)
    requires |cipher| == |plain| && at + |plain| <= |d| && d[at..at + |plain|] == plain
    requires done + 16 <= |plain|
    ensures var r := Overwrite(d, at, cipher[..done]);
      && r[at + done..at + done + 16] == plain[done..done + 16]
      && (done >= 16 ==> r[at + done - 16..at + done] == cipher[done - 16..done])
  {
    var r := Overwrite(d, at, cipher[..done]);
    forall i | done <= i < done + 16 ensures r[at + i] == plain[i] {
      assert plain[i] == d[at..at + |plain|][i];
    }
  }

  lemma NextBlock(d: seq<byte>, at: nat, cipher: seq<byte>, done: nat)
    requires at + |cipher| <= |d| && done + 16 <= |cipher|
    ensures Overwrite(Overwrite(d, at, cipher[..done]), at + done, cipher[done..done + 16])
        == Overwrite(d, at, cipher[..done + 16])
  {
    OverwriteMore(d, at, cipher[..done], cipher[done..done + 16]);
    assert cipher[..done] + cipher[done..done + 16] == cipher[..done + 16];
  }

  lemma OverwriteTwice(d: seq<byte>, at: nat, a: seq<byte>, b: seq<byte>)
    requires at + |a| <= |d| && |a| == |b|
    ensures Overwrite(Overwrite(d, at, a), at, b) == Overwrite(d, at, b)
    ensures Overwrite(d, at, a)[at..at + |a|] == a
  {
  }

  lemma PadWritten(d: seq<byte>, at: nat, password: seq<byte>)
    requires at + PadLength(|password|) <= |d|
    ensures Overwrite(Overwrite(d, at, Zeros(PadLength(|password|))), at, password) == Overwrite(d, at, Pad(password))
  {
  }

  lemma HeaderThenCipher(d: seq<byte>, n: nat, head: seq<byte>, cipher: seq<byte>, m: nat)
    requires n + |head| + |cipher| <= |d| && m <= |cipher|
    ensures var r := Overwrite(Overwrite(d, n, head), n + |head|, cipher);
      r[n..n + |head| + m] == head + cipher[..m] && forall i :: 0 <= i < |head| ==> r[n + i] == head[i]
  {
    var h := Overwrite(d, n, head);
    var r := Overwrite(h, n + |head|, cipher);
    assert r[n..n + |head|] == h[n..n + |head|] == head;
    assert r[n + |head|..n + |head| + m] == cipher[..m];
    assert r[n..n + |head| + m] == r[n..n + |head|] + r[n + |head|..n + |head| + m];
  }

  /** The octets the new password attribute starts with behind the packet. */
  lemma NewAttrShape(d: seq<byte>, n: nat, b: byte, cipher: seq<byte>, v: seq<byte>)
    requires |d| == MAX_PDU && HEADER <= n == LenOf(d) && n + 2 + |cipher| <= MAX_PDU
    requires b == (2 + |cipher|) % 256 && |cipher| <= 256 && v == (if |cipher| <= 253 then cipher else [])
    requires |cipher| % 16 == 0
    ensures var r := Overwrite(Overwrite(d, n, [USER_PASSWORD, b]), n + 2, cipher);
      && DecodePacket(r) == DecodePacket(d) && LenOf(r) == n && r[..n] == d[..n]
      && b == 2 + |v| && r[n + 1] == b && r[n..n + 2 + |v|] == [USER_PASSWORD, 2 + |v|] + v
  {
    var r := Overwrite(Overwrite(d, n, [USER_PASSWORD, b]), n + 2, cipher);
    assert r[..n] == d[..n];
    BeyondLength(d, r);
    assert |cipher| <= 253 || |cipher| == 256;
    assert b == 2 + |v| && v == cipher[..|v|];
    HeaderThenCipher(d, n, [USER_PASSWORD, b], cipher, |v|);
  }

  /** The buffer with the hidden password written behind the packet. */
  function WithHidden(d: seq<byte>, n: nat, cipher: seq<byte>): (r: seq<byte>)
    requires |d| == MAX_PDU && n + 2 + |cipher| <= MAX_PDU
    ensures |r| == MAX_PDU
  {
    Overwrite(Overwrite(d, n, [USER_PASSWORD, (2 + |cipher|) % 256]), n + 2, cipher)
  }

  lemma HiddenOverClear(d: seq<byte>, n: nat, clear: seq<byte>, cipher: seq<byte>)
    requires |d| == MAX_PDU && HEADER <= n && n + 2 + |clear| <= MAX_PDU && |cipher| == |clear|
    ensures var e := WithHidden(d, n, clear);
      && e[AUTH_OFFSET..HEADER] == d[AUTH_OFFSET..HEADER] && e[n + 2..n + 2 + |clear|] == clear
      && Overwrite(e, n + 2, cipher) == WithHidden(d, n, cipher)
  {
    var h := Overwrite(d, n, [USER_PASSWORD, (2 + |clear|) % 256]);
    OverwriteTwice(h, n + 2, clear, cipher);
    assert h[AUTH_OFFSET..HEADER] == d[AUTH_OFFSET..HEADER];
    assert Overwrite(h, n + 2, clear)[AUTH_OFFSET..HEADER] == h[AUTH_OFFSET..HEADER];
  }

  lemma MovedAt(d: seq<byte>, to: nat, from: nat, end: nat, i: nat)
    requires to <= from <= end <= |d| && i < |d|
    ensures Overwrite(d, to, d[from..end])[i] == if to <= i < to + end - from then d[i + from - to] else d[i]
  {
  }

  ghost predicate HidingFits(d: seq<byte>, e: seq<byte>, v: seq<byte>) {
    && |d| == |e| == MAX_PDU && LenOf(d) + 2 + |v| <= MAX_PDU
    && LenOf(e) == LenOf(d) && e[LenOf(d) + 1] == 2 + |v|
  }

  /** The whole effect of hiding on the packet, for a cipher text of any legal length. */
  lemma HidingDecodes(d: seq<byte>, e: seq<byte>, p: Packet, k: nat, cipher: seq<byte>, v: seq<byte>, o: nat, size: nat)
    requires |d| == MAX_PDU && DecodePacket(d) == Some(p) && k < |p.attrs|
    requires o == HEADER + Offset(p.attrs, k) && size == p.attrs[k].Size() && o + size <= LenOf(d)
    requires HEADER <= LenOf(d) && LenOf(d) + 2 + |cipher| <= MAX_PDU
    requires |cipher| <= 256 && |cipher| % 16 == 0 && v == (if |cipher| <= 253 then cipher else [])
    requires e == WithHidden(d, LenOf(d), cipher)
    ensures HidingFits(d, e, v)
    ensures DecodePacket(Slid(e, o, size, 2 + |v|)) == Some(p.(attrs := Repassworded(p.attrs, k, v)))
  {
    NewAttrShape(d, LenOf(d), (2 + |cipher|) % 256, cipher, v);
    SlideDecodes(e, p, k, v, o, size);
  }

  /** Everything the code reads of the packet and of attribute k. */
  lemma ClearFacts(d: seq<byte>, p: Packet, k: nat, o: nat)
    requires |d| == MAX_PDU && DecodePacket(d) == Some(p) && k < |p.attrs| && o == HEADER + Offset(p.attrs, k)
    ensures HEADER <= o && o + p.attrs[k].Size() <= LenOf(d) && d[o + 1] == p.attrs[k].Size()
    ensures d[o + 2..o + p.attrs[k].Size()] == p.attrs[k].value && d[AUTH_OFFSET..HEADER] == p.auth
  {
    Carried(d, p);
    Recognised(d, p);
    PointerFacts(d, p.attrs, k);
  }

  // ---- a Cisco attribute under construction behind the packet ----

  function CiscoSoFar(kind: byte, text: seq<byte>): seq<byte>
    requires VSA_HEADER + |text| <= MAX_ATTR
  {
    [VENDOR_SPECIFIC, VSA_HEADER + |text|] + CISCO_VENDOR_ID + [kind, 2 + |text|] + text
  }

  ghost predicate Building(now: seq<byte>, d: seq<byte>, n: nat, kind: byte, text: seq<byte>) {
    && |now| == |d| == MAX_PDU && HEADER <= n && VSA_HEADER + |text| <= MAX_ATTR && n + VSA_HEADER + |text| <= MAX_PDU
    && now[..n] == d[..n] && now[n..n + VSA_HEADER + |text|] == CiscoSoFar(kind, text)
  }

  /** The two length octets of an attribute being built. */
  lemma BuildingLengths(now: seq<byte>, d: seq<byte>, n: nat, kind: byte, text: seq<byte>)
    requires Building(now, d, n, kind, text)
    ensures now[n + 1] == VSA_HEADER + |text| && now[n + 7] == 2 + |text|
  {
    Window(now, n, CiscoSoFar(kind, text), 1, 2);
    Window(now, n, CiscoSoFar(kind, text), 7, 8);
  }

  /** More text, with both length octets raised. */
  lemma BuildMore(now: seq<byte>, later: seq<byte>, d: seq<byte>, n: nat, kind: byte, text: seq<byte>, more: seq<byte>)
    requires Building(now, d, n, kind, text)
    requires VSA_HEADER + |text| + |more| <= MAX_ATTR && n + VSA_HEADER + |text| + |more| <= MAX_PDU
    requires later == Overwrite(now, n + VSA_HEADER + |text|, more)
                        [n + 1 := VSA_HEADER + |text| + |more|][n + 7 := 2 + |text| + |more|]
    ensures Building(later, d, n, kind, text + more)
  {
    var w, v := CiscoSoFar(kind, text), CiscoSoFar(kind, text + more);
    var size := VSA_HEADER + |text|;
    forall i | 0 <= i < size + |more| ensures later[n..n + size + |more|][i] == v[i] {
      if i < size {
        assert now[n..n + size][i] == w[i];
      }
    }
    assert later[..n] == now[..n];
  }

  lemma OverwriteSame(s: seq<byte>, at: nat, src: seq<byte>)
    requires at + |src| <= |s| && s[at..at + |src|] == src
    ensures Overwrite(s, at, src) == s
  {
  }

  lemma CiscoOctets(kind: byte, text: seq<byte>)
    requires VSA_HEADER + |text| <= MAX_ATTR
    ensures var a := CiscoAttr(kind, [], text);
      a.WellFormed() && a.Size() == VSA_HEADER + |text| && [a.kind, 2 + |a.value|] + a.value == CiscoSoFar(kind, text)
  {
  }

  lemma BuiltDecodes(now: seq<byte>, d: seq<byte>, n: nat, p: Packet, kind: byte, text: seq<byte>)
    requires Building(now, d, n, kind, text) && n == LenOf(d) && DecodePacket(d) == Some(p)
    ensures DecodePacket(SetLen(now, n + VSA_HEADER + |text|))
        == Some(p.(attrs := p.attrs + [CiscoAttr(kind, [], text)]))
  {
    BeyondLength(d, now);
    CiscoOctets(kind, text);
    OverwriteSame(now, n, CiscoSoFar(kind, text));
    AppendDecodes(now, p, CiscoAttr(kind, [], text));
  }

  lemma FinishDecodes(now: seq<byte>, d: seq<byte>, n: nat, p: Packet, kind: byte, prefix: seq<byte>, text: seq<byte>)
    requires Building(now, d, n, kind, prefix + text) && n == LenOf(d) && DecodePacket(d) == Some(p)
    ensures DecodePacket(SetLen(now, n + VSA_HEADER + |prefix| + |text|))
         == Some(p.(attrs := p.attrs + [CiscoAttr(kind, prefix, text)]))
  {
    BuiltDecodes(now, d, n, p, kind, prefix + text);
    SameCisco(kind, prefix, text);
  }

  lemma SameCisco(kind: byte, prefix: seq<byte>, text: seq<byte>)
    requires VSA_HEADER + |prefix| + |text| <= MAX_ATTR
    ensures CiscoAttr(kind, [], prefix + text) == CiscoAttr(kind, prefix, text)
  {
  }

  // ---- HMAC over arrays ----

  /** hmac_md5: the key goes into two pads that are exclusive-or'ed in place. */
  method HmacMd5(text: seq<byte>, key: seq<byte>, md5: Hash) returns (digest: Digest)
    ensures digest == Hmac(md5, key, text) && IsHmac(md5, key, text, digest)
  {
    var k: seq<byte> := key;
    if |k| > 64 {
      k := md5(key);
    }
    var ipad := new byte[64](i requires 0 <= i < 64 => if i < |k| then k[i] else 0);
    var opad := new byte[64](i requires 0 <= i < 64 => if i < |k| then k[i] else 0);
    ghost var padded := HmacKey(md5, key);
    for i := 0 to 64
      invariant forall j :: 0 <= j < i ==> ipad[j] == Xor(padded[j], 0x36) && opad[j] == Xor(padded[j], 0x5c)
      invariant forall j :: i <= j < 64 ==> ipad[j] == padded[j] && opad[j] == padded[j]
    {
      ipad[i] := Xor(ipad[i], 0x36);
      opad[i] := Xor(opad[i], 0x5c);
    }
    assert ipad[..] == XorAll(padded, 0x36) && opad[..] == XorAll(padded, 0x5c);
    digest := md5(ipad[..] + text);
    digest := md5(opad[..] + digest);
    HmacExact(md5, key, text, digest);
  }

  // ---- the packet object ----

  class RadiusPDU {
    const data: array<byte>

    ghost predicate Valid()
      reads this
    {
      data.Length == MAX_PDU
    }

    /** The packet in the array; None when IsValid says no. */
    ghost function Contents(): Option<Packet>
      requires Valid()
      reads this, data
    {
      DecodePacket(data[..])
    }

    constructor (code: byte, id: byte)
      ensures Valid() && fresh(data)
      ensures data[0] == code && data[1] == id && LenOf(data[..]) == HEADER
    {
      data := new byte[MAX_PDU](_ => 0);
      new;
      data[0], data[1], data[2], data[3] := code, id, 0, HEADER;
    }

    function GetLength(): (n: nat)
      requires Valid()
      reads this, data
      ensures n == LenOf(data[..])
    {
      Value16(data[2], data[3])
    }

    method SetLength(n: nat)
      requires Valid()
      modifies data
      ensures data[..] == SetLen(old(data[..]), n)
    {
      data[2] := n / 256 % 256;
      data[3] := n % 256;
    }

    method MemCopy(at: nat, src: seq<byte>)
      requires Valid() && at + |src| <= MAX_PDU
      modifies data
      ensures data[..] == Overwrite(old(data[..]), at, src)
    {
      forall i | 0 <= i < |src| {
        data[at + i] := src[i];
      }
    }

    /** The walk over the attributes; true exactly when the array holds a packet. */
    method IsValid() returns (r: bool)
      requires Valid()
      ensures r <==> Contents().Some?
    {
      if data[0] == 0 {
        return false;
      }
      var len := GetLength();
      if len < MIN_PDU || len > MAX_PDU {
        return false;
      }
      var currLen := HEADER;
      ghost var d := data[..];
      while currLen < len
        invariant HEADER <= currLen <= len
        invariant Decode(d[HEADER..len]).Some? <==> Decode(d[currLen..len]).Some?
      {
        var remaining := len - currLen;
        ghost var body := d[currLen..len];
        if remaining < 2 || remaining < data[currLen + 1] || data[currLen + 1] < MinLength(data[currLen]) {
          assert |body| < 2 || body[1] == data[currLen + 1];
          break;
        }
        assert body[0] == data[currLen] && body[1] == data[currLen + 1];
        assert body[body[1]..] == d[currLen + data[currLen + 1]..len];
        currLen := currLen + data[currLen + 1];
      }
      return currLen == len;
    }

    /** The attribute behind `previous`, the first one for None. */
    method GetAttr(previous: Option<nat>, ghost attrs: seq<Attr>, ghost k: nat) returns (r: Option<nat>)
      requires Valid() && Carries(data[..], attrs) && k <= |attrs|
      requires previous == if k == 0 then None else Pointer(attrs, k - 1)
      ensures r == Pointer(attrs, k)
    {
      var len := GetLength();
      var offset := HEADER;
      if previous.Some? {
        PointerFacts(data[..], attrs, k - 1);
        offset := previous.value + data[previous.value + 1];
      }
      if k < |attrs| {
        PointerFacts(data[..], attrs, k);
      } else {
        EndOffset(data[..], attrs);
      }
      return if offset >= len then None else Some(offset);
    }

    /** The first attribute of a type. */
    method FindAttr(kind: byte, ghost attrs: seq<Attr>) returns (r: Option<nat>)
      requires Valid() && Carries(data[..], attrs)
      ensures r == Pointer(attrs, FirstOf(attrs, kind))
    {
      ghost var k := 0;
      r := GetAttr(None, attrs, 0);
      if k < |attrs| { PointerFacts(data[..], attrs, k); }
      while r.Some? && data[r.value] != kind
        invariant k <= |attrs| && r == Pointer(attrs, k)
        invariant r.Some? ==> r.value + 1 < MAX_PDU && data[r.value] == attrs[k].kind
        invariant forall i :: 0 <= i < k ==> attrs[i].kind != kind
        decreases |attrs| - k
      {
        k := k + 1;
        r := GetAttr(r, attrs, k);
        if k < |attrs| { PointerFacts(data[..], attrs, k); }
      }
      FirstOfIs(attrs, kind, k);
    }

    /** The number of attributes, counted by walking over them. */
    method GetNumAttributes(ghost attrs: seq<Attr>) returns (count: nat)
      requires Valid() && Carries(data[..], attrs)
      ensures count == |attrs|
    {
      count := 0;
      var attr := GetAttr(None, attrs, 0);
      while attr.Some?
        invariant count <= |attrs| && attr == Pointer(attrs, count)
        decreases |attrs| - count
      {
        attr := GetAttr(attr, attrs, count + 1);
        count := count + 1;
      }
    }

    /** The octets of an attribute at the end, and the new length. */
    method WriteAttr(len: nat, kind: byte, value: seq<byte>)
      requires Valid() && len == GetLength() && 2 + |value| <= MAX_ATTR && len + 2 + |value| <= MAX_PDU
      modifies data
      ensures data[..] == Appended(old(data[..]), kind, value)
    {
      ghost var d := data[..];
      MemCopy(len, [kind, 2 + |value|] + value);
      ghost var e := data[..];
      SetLength(len + 2 + |value|);
      assert data[..] == SetLen(e, LenOf(d) + 2 + |value|);
    }

    /** Appends an attribute behind the last one, or changes nothing when it does not fit. */
    method AppendAttr(kind: byte, value: seq<byte>) returns (ok: bool)
      requires Valid()
      modifies data
      ensures ok <==> 2 + |value| <= MAX_ATTR && old(GetLength()) + 2 + |value| <= MAX_PDU
      ensures !ok ==> data[..] == old(data[..])
      ensures ok ==> data[..] == Appended(old(data[..]), kind, value)
      ensures ok && old(Contents()).Some? ==> Contents() == WithAppended(old(Contents()).value, Attr(kind, value))
    {
      var len := GetLength();
      var attrLen := 2 + |value|;
      if attrLen > MAX_ATTR || len + attrLen > MAX_PDU {
        return false;
      }
      ghost var d := data[..];
      WriteAttr(len, kind, value);
      AppendEffect(d, kind, value);
      return true;
    }

    /** Raises the attribute's and the vendor's length octet over octets just written behind it. */
    method ExtendCisco(n: nat, more: seq<byte>, ghost d: seq<byte>, ghost kind: byte, ghost text: seq<byte>)
      requires Valid() && Building(data[..], d, n, kind, text)
      requires VSA_HEADER + |text| + |more| <= MAX_ATTR && n + VSA_HEADER + |text| + |more| <= MAX_PDU
      modifies data
      ensures Building(data[..], d, n, kind, text + more)
    {
      ghost var now := data[..];
      BuildingLengths(now, d, n, kind, text);
      MemCopy(n + data[n + 1], more);
      data[n + 1] := data[n + 1] + |more|;
      data[n + 7] := data[n + 7] + |more|;
      BuildMore(now, data[..], d, n, kind, text, more);
    }

    /** The name of an attribute, if it has one. */
    method FindName(names: seq<Name>, vendorType: byte) returns (name: Option<seq<byte>>)
      ensures name == Lookup(names, vendorType)
    {
      var i := 0;
      while i < |names| && names[i].kind != vendorType
        invariant i <= |names| && Lookup(names, vendorType) == Lookup(names[i..], vendorType)
      {
        i := i + 1;
      }
      return if i < |names| then Some(Octets(names[i].text)) else None;
    }

    /** The attribute's name, if it has one, and '='. */
    method PutName(len: nat, vendorType: byte, ghost d: seq<byte>) returns (ok: bool)
      requires Valid() && Building(data[..], d, len, vendorType, [])
      modifies data
      ensures ok == (len + VSA_HEADER + |Prefix(vendorType, false)| <= MAX_PDU)
      ensures ok ==> Building(data[..], d, len, vendorType, Prefix(vendorType, false))
      ensures data[..][..len] == d[..len]
    {
      var found := FindName(NAMES, vendorType);
      ShortNames(vendorType);
      if found.Some? {
        var name := found.value;
        if len + VSA_HEADER + |name| + 1 > MAX_PDU {
          return false;
        }
        ExtendCisco(len, name, d, vendorType, []);
        assert [] + name == name;
        ExtendCisco(len, [EQUALS], d, vendorType, name);
      }
      return true;
    }

    /** Header and, unless `vsaHack`, name and '=' of a Cisco attribute, if they fit. */
    method StartCisco(len: nat, vendorType: byte, vsaHack: bool) returns (ok: bool)
      requires Valid() && HEADER <= len
      modifies data
      ensures ok == (len + VSA_HEADER + |Prefix(vendorType, vsaHack)| <= MAX_PDU)
      ensures ok ==> Building(data[..], old(data[..]), len, vendorType, Prefix(vendorType, vsaHack))
      ensures len <= MAX_PDU ==> data[..][..len] == old(data[..])[..len]
    {
      ghost var d := data[..];
      if len + VSA_HEADER > MAX_PDU {
        return false;
      }
      MemCopy(len, [VENDOR_SPECIFIC, VSA_HEADER] + CISCO_VENDOR_ID + [vendorType, 2]);
      assert Building(data[..], d, len, vendorType, []);
      ok := true;
      if !vsaHack {
        ok := PutName(len, vendorType, d);
      }
    }

    /** The text of a Cisco attribute that has been started. */
    method FinishCisco(len: nat, text: seq<byte>, ghost d: seq<byte>, ghost p: Packet, ghost vendorType: byte,
          ghost prefix: seq<byte>)
      returns (ok: bool)
      requires Valid() && Building(data[..], d, len, vendorType, prefix)
      requires DecodePacket(d) == Some(p) && len == LenOf(d)
      modifies data
      ensures var size := VSA_HEADER + |prefix| + |text|;
        && ok == (size <= MAX_ATTR && len + size <= MAX_PDU)
        && (ok ==> Contents() == Some(p.(attrs := p.attrs + [CiscoAttr(vendorType, prefix, text)])))
      ensures !ok ==> data[..] == old(data[..])
    {
      BuildingLengths(data[..], d, len, vendorType, prefix);
      var length := data[len + 1];
      if length + |text| > MAX_ATTR || len + length + |text| > MAX_PDU {
        return false;
      }
      ExtendCisco(len, text, d, vendorType, prefix);
      ghost var built := data[..];
      FinishDecodes(built, d, len, p, vendorType, prefix, text);
      SetLength(len + length + |text|);
      assert data[..] == SetLen(built, len + VSA_HEADER + |prefix| + |text|);
      return true;
    }

    /** A Cisco attribute, with the attribute's name and '=' in front unless `vsaHack`. */
    method AppendCiscoAttr(vendorType: byte, text: seq<byte>, vsaHack: bool) returns (ok: bool)
      requires Valid() && Contents().Some?
      modifies data
      ensures var size := VSA_HEADER + |Prefix(vendorType, vsaHack)| + |text|;
        && ok == (size <= MAX_ATTR && old(GetLength()) + size <= MAX_PDU)
        && (ok ==> Contents() == Some(old(Contents()).value.(attrs := old(Contents()).value.attrs +
              [CiscoAttr(vendorType, Prefix(vendorType, vsaHack), text)])))
      ensures !ok ==> Contents() == old(Contents())
    {
      ghost var d := data[..];
      ghost var p := Contents().value;
      Recognised(d, p);
      var len := GetLength();
      ok := StartCisco(len, vendorType, vsaHack);
      BeyondLength(d, data[..]);
      if ok {
        ok := FinishCisco(len, text, d, p, vendorType, Prefix(vendorType, vsaHack));
      }
    }

    // ---- reading and writing ----

    method Write() returns (ok: bool, out: seq<byte>)
      requires Valid()
      ensures ok <==> Contents().Some?
      ensures ok ==> out == EncodePacket(Contents().value)
    {
      ok := IsValid();
      if !ok {
        return false, [];
      }
      var len := GetLength();
      out := data[..len];
      Recognised(data[..], Contents().value);
    }

    /** Takes a packet from raw octets; the object holds no valid packet when this fails. */
    method Read(raw: seq<byte>) returns (ok: bool)
      requires Valid()
      modifies data
      ensures ok <==> |raw| >= HEADER && MIN_PDU <= LenOf(raw) <= MAX_PDU && LenOf(raw) <= |raw|
      ensures ok ==> Contents() == DecodePacket(raw)
      ensures !ok ==> Contents() == None
    {
      data[0], data[1] := 0, 0;
      SetLength(HEADER);
      if |raw| < MIN_PDU {
        return false;
      }
      MemCopy(0, raw[..HEADER]);
      assert forall i :: 0 <= i < HEADER ==> data[..][i] == raw[i];
      var length := GetLength();
      if length > |raw| || length < MIN_PDU || length > MAX_PDU {
        data[0], data[1] := 0, 0;
        SetLength(HEADER);
        return false;
      }
      if length > HEADER {
        ghost var d := data[..];
        MemCopy(HEADER, raw[HEADER..length]);
        assert forall i :: 0 <= i < HEADER ==> data[..][i] == d[i];
      }
      assert data[..][HEADER..length] == raw[HEADER..length];
      assert data[..][AUTH_OFFSET..HEADER] == raw[AUTH_OFFSET..HEADER];
      return true;
    }

    // ---- setting header fields ----

    method SetId(id: byte)
      requires Valid()
      modifies data
      ensures old(Contents()).Some? ==> Contents() == Some(old(Contents()).value.(id := id))
    {
      ghost var d := data[..];
      data[1] := id;
      assert data[..] == d[1 := id];
      if DecodePacket(d).Some? {
        IdDecodes(d, DecodePacket(d).value, id);
      }
    }

    /** The Request Authenticator: a digest for an Accounting-Request, random octets otherwise. */
    method SetAuthenticator(secret: seq<byte>, md5: Hash, random: Digest)
      requires Valid() && Contents().Some?
      modifies data
      ensures var p := old(Contents()).value;
        Contents() == Some(p.(auth :=
          if p.code == ACCOUNTING_REQUEST then md5(EncodePacket(p.(auth := ZERO16)) + secret) else random))
    {
      ghost var d := data[..];
      ghost var p := DecodePacket(d).value;
      Recognised(d, p);
      if data[0] == ACCOUNTING_REQUEST {
        MemCopy(AUTH_OFFSET, ZERO16);
        AuthDecodes(d, p, ZERO16);
        var len := GetLength();
        Recognised(data[..], p.(auth := ZERO16));
        var digest := md5(data[..len] + secret);
        AuthDecodes(data[..], p.(auth := ZERO16), digest);
        MemCopy(AUTH_OFFSET, digest);
      } else {
        MemCopy(AUTH_OFFSET, random);
        AuthDecodes(d, p, random);
      }
    }

    // ---- the password ----

    method XorBlock(at: nat, digest: Digest)
      requires Valid() && at + 16 <= MAX_PDU
      modifies data
      ensures data[..] == Overwrite(old(data[..]), at, XorSeq(old(data[at..at + 16]), digest))
    {
      for i := 0 to 16
        invariant forall j :: 0 <= j < i ==> data[at + j] == Xor(old(data[at + j]), digest[j])
        invariant forall j :: 0 <= j < MAX_PDU && !(at <= j < at + i) ==> data[j] == old(data[j])
      {
        data[at + i] := Xor(data[at + i], digest[i]);
      }
    }

    /** One block: 16 octets of plain text become cipher, hashed after the authenticator or the
        block before. */
    method HideNext(at: nat, done: nat, secret: seq<byte>, md5: Hash,
                    ghost d: seq<byte>, ghost plain: seq<byte>, ghost cipher: seq<byte>)
      requires Valid() && |d| == MAX_PDU && HEADER <= at && at + |plain| <= MAX_PDU && d[at..at + |plain|] == plain
      requires |plain| % 16 == 0 && done % 16 == 0 && done + 16 <= |plain|
      requires cipher == Hide(md5, secret, d[AUTH_OFFSET..HEADER], plain)
      requires HiddenUpTo(data[..], d, at, cipher, done)
      modifies data
      ensures HiddenUpTo(data[..], d, at, cipher, done + 16)
    {
      ghost var auth := d[AUTH_OFFSET..HEADER];
      HalfHidden(d, at, plain, cipher, done);
      HideBlock(md5, secret, auth, plain, done);
      NextBlock(d, at, cipher, done);
      var previous := if done == 0 then data[AUTH_OFFSET..HEADER] else data[at + done - 16..at + done];
      assert previous == Chained(auth, cipher, done);
      XorBlock(at + done, md5(secret + previous));
    }

    /** Hides the octets from `at` on, 16 at a time. */
    method HideInPlace(at: nat, length: nat, secret: seq<byte>, md5: Hash)
      requires Valid() && at >= HEADER && length % 16 == 0 && length >= 16 && at + length <= MAX_PDU
      modifies data
      ensures data[..] == Overwrite(old(data[..]), at,
                Hide(md5, secret, old(data[..])[AUTH_OFFSET..HEADER], old(data[..])[at..at + length]))
    {
      ghost var d := data[..];
      ghost var plain := d[at..at + length];
      ghost var cipher := Hide(md5, secret, d[AUTH_OFFSET..HEADER], plain);
      HiddenStart(d, at, cipher);
      HideNext(at, 0, secret, md5, d, plain, cipher);
      var done := 16;
      while done < length
        invariant 16 <= done <= length && done % 16 == 0
        invariant HiddenUpTo(data[..], d, at, cipher, done)
      {
        WholeBlocks(done, length);
        HideNext(at, done, secret, md5, d, plain, cipher);
        done := done + 16;
      }
      HiddenEnd(data[..], d, at, cipher);
    }

    /** memmove of everything from `from` up to `end`, down to `to`. */
    method MemMove(to: nat, from: nat, end: nat, ghost d: seq<byte>, ghost moved: seq<byte>)
      requires Valid() && to <= from <= end <= MAX_PDU
      requires d == data[..] && moved == Overwrite(d, to, d[from..end])
      modifies data
      ensures data[..] == moved
    {
      forall i | to <= i < to + end - from {
        data[i] := data[i + from - to];
      }
      forall i | 0 <= i < MAX_PDU ensures data[i] == moved[i] {
        MovedAt(d, to, from, end, i);
      }
    }

    /** The password with zeros behind it. */
    method CopyPadded(at: nat, password: seq<byte>)
      requires Valid() && at + PadLength(|password|) <= MAX_PDU
      modifies data
      ensures data[..] == Overwrite(old(data[..]), at, Pad(password))
    {
      ghost var d := data[..];
      MemCopy(at, Zeros(PadLength(|password|)));
      MemCopy(at, password);
      PadWritten(d, at, password);
    }

    /** A new password attribute behind the packet, still in clear. */
    method WritePadded(n: nat, password: seq<byte>)
      requires Valid() && HEADER <= n && n + 2 + PadLength(|password|) <= MAX_PDU
      modifies data
      ensures data[..] == WithHidden(old(data[..]), n, Pad(password))
    {
      MemCopy(n, [USER_PASSWORD, (2 + PadLength(|password|)) % 256]);
      CopyPadded(n + 2, password);
    }

    /** The new password attribute, hidden. */
    method WriteHidden(n: nat, password: seq<byte>, secret: seq<byte>, md5: Hash)
      requires Valid() && HEADER <= n && n + 2 + PadLength(|password|) <= MAX_PDU
      modifies data
      ensures data[..] == WithHidden(old(data[..]), n,
                Hide(md5, secret, old(data[..])[AUTH_OFFSET..HEADER], Pad(password)))
    {
      ghost var d := data[..];
      WritePadded(n, password);
      HiddenOverClear(d, n, Pad(password), Hide(md5, secret, d[AUTH_OFFSET..HEADER], Pad(password)));
      HideInPlace(n + 2, PadLength(|password|), secret, md5);
    }

    /** Sets the final length and closes the gap over the old attribute. */
    method SlideDown(o: nat, size: nat, added: nat)
      requires Valid() && HEADER <= o && o + size <= GetLength() && GetLength() + added <= MAX_PDU
      modifies data
      ensures data[..] == Slid(old(data[..]), o, size, added)
    {
      var len := GetLength();
      ghost var d := data[..];
      SetLength(len + added - size);
      ghost var s := data[..];
      SlidIs(d, s, o, size, added);
      MemMove(o, o + size, len + added, s, Slid(d, o, size, added));
    }

    /** The new attribute behind the packet, then the slide; `v` is the value its length octet leaves it. */
    method HideAndSlide(o: nat, size: nat, password: seq<byte>, secret: seq<byte>, md5: Hash,
          ghost cipher: seq<byte>, ghost v: seq<byte>)
      requires Valid() && HEADER <= o && o + size <= GetLength() && GetLength() + 2 + PadLength(|password|) <= MAX_PDU
      requires cipher == Hide(md5, secret, data[..][AUTH_OFFSET..HEADER], Pad(password))
      requires |cipher| == PadLength(|password|)
      requires HidingFits(data[..], WithHidden(data[..], GetLength(), cipher), v)
      modifies data
      ensures data[..] == Slid(WithHidden(old(data[..]), old(GetLength()), cipher), o, size, 2 + |v|)
    {
      var len := GetLength();
      WriteHidden(len, password, secret, md5);
      ghost var e := data[..];
      assert LenOf(e) == len && e[len + 1] == 2 + |v|;
      SlideDown(o, size, data[len + 1]);
    }

    /** The password at attribute k is hidden behind the packet and slid into place. */
    method EncryptAt(o: nat, secret: seq<byte>, md5: Hash, ghost p: Packet, ghost k: nat)
      requires Valid() && Contents() == Some(p) && k < |p.attrs| && p.attrs[k].kind == USER_PASSWORD
      requires o == HEADER + Offset(p.attrs, k) && GetLength() + 2 + PadLength(|p.attrs[k].value|) <= MAX_PDU
      modifies data
      ensures Contents() == Some(p.(attrs :=
                Repassworded(p.attrs, k, HiddenValue(md5, secret, p.auth, p.attrs[k].value))))
    {
      ghost var d, value := data[..], p.attrs[k].value;
      ClearFacts(d, p, k, o);
      var size := data[o + 1];
      var password := data[o + 2..o + size];
      assert password == value;
      ghost var cipher, v := Hide(md5, secret, p.auth, Pad(value)), HiddenValue(md5, secret, p.auth, value);
      CipherSize(md5, secret, p.auth, value);
      HidingDecodes(d, WithHidden(d, LenOf(d), cipher), p, k, cipher, v, o, size);
      HideAndSlide(o, size, password, secret, md5, cipher, v);
    }

    /** Replaces the first clear-text User-Password by a hidden one at the end of the packet. */
    method EncryptPasswords(secret: seq<byte>, md5: Hash) returns (ok: bool)
      requires Valid() && Contents().Some?
      modifies data
      ensures var p := old(Contents()).value; var k := FirstOf(p.attrs, USER_PASSWORD);
        if k == |p.attrs| then ok && data[..] == old(data[..])
        else if old(GetLength()) + 2 + PadLength(|p.attrs[k].value|) > MAX_PDU then !ok && data[..] == old(data[..])
        else ok && Contents() == Some(p.(attrs :=
               Repassworded(p.attrs, k, HiddenValue(md5, secret, p.auth, p.attrs[k].value))))
    {
      ghost var p := Contents().value;
      ghost var k := FirstOf(p.attrs, USER_PASSWORD);
      ghost var d := data[..];
      Carried(d, p);
      var found := FindAttr(USER_PASSWORD, p.attrs);
      if found == None {
        return true;
      }
      ClearFacts(d, p, k, found.value);
      var size := data[found.value + 1];
      assert size == p.attrs[k].Size();
      if GetLength() + PadLength(size - 2) + 2 > MAX_PDU {
        return false;
      }
      EncryptAt(found.value, secret, md5, p, k);
      return true;
    }

    /** Appends a zero Message-Authenticator, if it fits, and writes the HMAC of the packet over the first
        16 octets behind the header of the first attribute of that type, whatever its length: that is its
        value if it has the legal length. `found` is false where the source would follow a null pointer. */
    method SetupMessageAuthenticator(secret: seq<byte>, md5: Hash) returns (found: bool)
      requires Valid() && Contents().Some?
      requires SignatureInside(WithZeroAuthenticator(Contents().value, GetLength() + 18 <= MAX_PDU).attrs)
      modifies data
      ensures var p := old(Contents()).value;
        var q := WithZeroAuthenticator(p, old(GetLength()) + 18 <= MAX_PDU);
        var k := FirstOf(q.attrs, MESSAGE_AUTHENTICATOR);
        var d := WithZeroOctets(old(data[..]));
        && found == (k < |q.attrs|)
        && AllWellFormed(q.attrs) && SignatureInside(q.attrs)
        && data[..] == (if found
              then Overwrite(d, HEADER + Offset(q.attrs, k) + 2, Hmac(md5, secret, EncodePacket(q))) else d)
        && (found && |q.attrs[k].value| == 16 ==>
              Contents() == Some(q.(attrs := WithValue(q.attrs, k, Hmac(md5, secret, EncodePacket(q))))))
    {
      ghost var p := Contents().value;
      ghost var room := GetLength() + 18 <= MAX_PDU;
      ghost var q := WithZeroAuthenticator(p, room);
      FirstWithZero(p, room);
      var appended := AppendAttr(MESSAGE_AUTHENTICATOR, ZERO16);
      assert Contents() == Some(q);
      found := SignFirst(secret, md5, q);
    }

    /** The HMAC of the packet goes into its first Message-Authenticator. */
    method SignFirst(secret: seq<byte>, md5: Hash, ghost q: Packet) returns (found: bool)
      requires Valid() && Contents() == Some(q) && SignatureInside(q.attrs)
      modifies data
      ensures var k := FirstOf(q.attrs, MESSAGE_AUTHENTICATOR);
        && found == (k < |q.attrs|)
        && (found ==>
              data[..] == Overwrite(old(data[..]), HEADER + Offset(q.attrs, k) + 2, Hmac(md5, secret, EncodePacket(q))))
        && (found && |q.attrs[k].value| == 16 ==>
              Contents() == Some(q.(attrs := WithValue(q.attrs, k, Hmac(md5, secret, EncodePacket(q))))))
        && (!found ==> data[..] == old(data[..]))
    {
      ghost var d := data[..];
      Carried(d, q);
      var text := data[..GetLength()];
      assert text == EncodePacket(q) by {
        Recognised(d, q);
      }
      var digest := HmacMd5(text, secret, md5);
      var attr := FindAttr(MESSAGE_AUTHENTICATOR, q.attrs);
      if attr == None {
        return false;
      }
      WriteDigest(attr.value, digest, q, FirstOf(q.attrs, MESSAGE_AUTHENTICATOR));
      return true;
    }

    method WriteDigest(at: nat, digest: Digest, ghost q: Packet, ghost k: nat)
      requires Valid() && Contents() == Some(q) && k < |q.attrs|
      requires at == HEADER + Offset(q.attrs, k) && at + 18 <= MAX_PDU
      modifies data
      ensures data[..] == Overwrite(old(data[..]), at + 2, digest)
      ensures |q.attrs[k].value| == 16 ==> Contents() == Some(q.(attrs := WithValue(q.attrs, k, digest)))
    {
      if |q.attrs[k].value| == 16 {
        ValueDecodes(data[..], q, k, digest);
      }
      MemCopy(at + 2, digest);
    }
  }

  /** The 16 octets behind the header of the first Message-Authenticator lie in the buffer. */
  ghost predicate SignatureInside(attrs: seq<Attr>) {
    var k := FirstOf(attrs, MESSAGE_AUTHENTICATOR);
    k < |attrs| ==> HEADER + Offset(attrs, k) + 18 <= MAX_PDU
  }

  /** So they do if that attribute has the legal length. */
  lemma SizedIsInside(attrs: seq<Attr>)
    requires AllWellFormed(attrs) && HEADER + |Encode(attrs)| <= MAX_PDU
    requires var k := FirstOf(attrs, MESSAGE_AUTHENTICATOR); k < |attrs| ==> |attrs[k].value| == 16
    ensures SignatureInside(attrs)
  {
    var k := FirstOf(attrs, MESSAGE_AUTHENTICATOR);
    if k < |attrs| {
      AttrAt(attrs, k);
    }
  }

  lemma ZeroIsInside(p: Packet, n: nat)
    requires AllWellFormed(p.attrs) && n == HEADER + |Encode(p.attrs)| <= MAX_PDU
    requires var k := FirstOf(p.attrs, MESSAGE_AUTHENTICATOR); k < |p.attrs| ==> |p.attrs[k].value| == 16
    ensures SignatureInside(WithZeroAuthenticator(p, n + 18 <= MAX_PDU).attrs)
  {
    var zero := Attr(MESSAGE_AUTHENTICATOR, ZERO16);
    FirstWithZero(p, n + 18 <= MAX_PDU);
    EncodeOne(zero);
    EncodeAppend(p.attrs, [zero]);
    SizedIsInside(WithZeroAuthenticator(p, n + 18 <= MAX_PDU).attrs);
  }

  /** The octets SetupMessageAuthenticator computes its digest over. */
  function WithZeroOctets(d: seq<byte>): (r: seq<byte>)
    requires |d| == MAX_PDU
    ensures |r| == MAX_PDU
  {
    if LenOf(d) + 18 <= MAX_PDU then Appended(d, MESSAGE_AUTHENTICATOR, ZERO16) else d
  }

  /** The packet SetupMessageAuthenticator computes its digest over. */
  function WithZeroAuthenticator(p: Packet, room: bool): Packet {
    if room then p.(attrs := p.attrs + [Attr(MESSAGE_AUTHENTICATOR, ZERO16)]) else p
  }

  lemma FirstWithZero(p: Packet, room: bool)
    ensures FirstOf(WithZeroAuthenticator(p, room).attrs, MESSAGE_AUTHENTICATOR)
        == FirstOf(p.attrs, MESSAGE_AUTHENTICATOR)
  {
    var k := FirstOf(p.attrs, MESSAGE_AUTHENTICATOR);
    FirstOfIs(WithZeroAuthenticator(p, room).attrs, MESSAGE_AUTHENTICATOR, k);
  }
}