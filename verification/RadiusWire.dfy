/** The packet format and the authenticators in plain octets, as sections 3 and 5 of RFC 2865, section 3 of
    RFC 2866 and section 5.14 of RFC 2869 lay them out. */
module RadiusWire {
  import opened Options
  import opened Bytes
  import opened RadiusFormat
  import opened RadiusCrypto
  import opened RadiusPDU
  import opened RadiusClient
  import opened CiscoNames

  // ---- what a buffer must look like ----

  /** From i on, attributes of legal length follow each other up to n: type, length, value, where the length
      counts all three and a vendor-specific attribute has a vendor id. */
  predicate Walks(d: seq<byte>, i: nat, n: nat)
    requires n <= |d|
    decreases n - i
  {
    i == n ||
    (i + 2 <= n && d[i + 1] >= (if d[i] == 26 then 6 else 2) && i + d[i + 1] <= n && Walks(d, i + d[i + 1], n))
  }

  lemma {:induction false} WalksExact(d: seq<byte>, i: nat, n: nat)
    requires i <= n <= |d|
    ensures Walks(d, i, n) <==> Decode(d[i..n]).Some?
    decreases n - i
  {
    var body := d[i..n];
    if i < n && 2 <= |body| && MinLength(body[0]) <= body[1] <= |body| {
      assert body[body[1]..] == d[i + body[1]..n];
      WalksExact(d, i + d[i + 1], n);
    }
  }

  /** A buffer holds a packet if and only if its code is not zero, its length is 20 to 4096 and within the
      buffer, and attributes fill it up to that length. */
  lemma ValidExact(d: seq<byte>)
    requires |d| >= 20
    ensures var n := 256 * (d[2] as int) + d[3] as int;
      DecodePacket(d).Some? <==> d[0] != 0 && 20 <= n <= 4096 && n <= |d| && Walks(d, 20, n)
  {
    var n := Value16(d[2], d[3]);
    if 20 <= n <= |d| {
      WalksExact(d, 20, n);
    }
  }

  /** Code, identifier, length, authenticator, attributes. */
  lemma PacketOctets(p: Packet)
    requires p.Fits()
    ensures var w := EncodePacket(p);
      && |w| == 20 + |Encode(p.attrs)| && w[0] == p.code && w[1] == p.id
      && 256 * (w[2] as int) + w[3] as int == |w| && w[4..20] == p.auth && w[20..] == Encode(p.attrs)
  {
    Value16Of(20 + |Encode(p.attrs)|);
  }

  // ---- the authenticators ----

  /** The packet with other octets in place of its authenticator. */
  lemma WithOtherAuth(p: Packet, auth: Digest)
    requires p.Fits()
    ensures var w := EncodePacket(p);
      |w| >= 20 && EncodePacket(p.(auth := auth)) == w[..4] + auth + w[20..]
  {
    var w := EncodePacket(p);
    assert w[..4] == [p.code, p.id] + BigEndian16(20 + |Encode(p.attrs)|);
    assert w[20..] == Encode(p.attrs);
  }

  /** Request authenticator of accounting, and response authenticator: the hash over the octets of the packet
      with 16 zeros, or the authenticator of the request, in place of its own, and the secret behind. */
  lemma AuthenticatorsExact(md5: Hash, secret: seq<byte>, request: Digest, p: Packet)
    requires p.Fits()
    ensures var w := EncodePacket(p);
      && |w| >= 20
      && (AccountingAuthentic(md5, secret, p) <==> w[4..20] == md5(w[..4] + seq(16, _ => 0) + w[20..] + secret))
      && (ResponseAuthentic(md5, secret, request, p) <==> w[4..20] == md5(w[..4] + request + w[20..] + secret))
  {
    PacketOctets(p);
    assert seq(16, _ => 0) == ZERO16;
    WithOtherAuth(p, ZERO16);
    WithOtherAuth(p, request);
  }

  lemma Spliced(w: seq<byte>, v: seq<byte>, head: seq<byte>, before: seq<byte>, x: seq<byte>, value: seq<byte>,
        other: seq<byte>, behind: seq<byte>)
    requires w == head + (before + (x + value) + behind) && v == head + (before + (x + other) + behind)
    ensures var o := |head| + |before| + |x|;
      o + |value| <= |w| && v == w[..o] + other + w[o + |value|..]
  {
    var o := |head| + |before| + |x|;
    assert w == head + before + x + value + behind && v == head + before + x + other + behind;
    assert w[..o] == head + before + x && w[o + |value|..] == behind;
  }

  lemma Zeroed(p: Packet, k: nat)
    requires p.Fits() && k < |p.attrs| && |p.attrs[k].value| == 16
    ensures AllWellFormed(WithValue(p.attrs, k, ZERO16))
    ensures var w := EncodePacket(p); var o := 20 + Offset(p.attrs, k);
      o + 18 <= |w| && EncodePacket(p.(attrs := WithValue(p.attrs, k, ZERO16))) == w[..o + 2] + ZERO16 + w[o + 18..]
  {
    WithValueEncode(p.attrs, k, ZERO16);
    AttrSplit(p.attrs, k);
    Spliced(EncodePacket(p), EncodePacket(p.(attrs := WithValue(p.attrs, k, ZERO16))),
            [p.code, p.id] + BigEndian16(20 + |Encode(p.attrs)|) + p.auth, Encode(p.attrs[..k]),
            [p.attrs[k].kind, 18], p.attrs[k].value, ZERO16, Encode(p.attrs[k + 1..]));
  }

  /** Message-Authenticator: the keyed hash of RFC 2104 over the octets of the packet with 16 zeros in place of
      the value of its first attribute of type 80. */
  lemma SignatureExactly(md5: Hash, secret: seq<byte>, p: Packet, k: nat)
    requires p.Fits() && k < |p.attrs| && p.attrs[k].kind == 80 && |p.attrs[k].value| == 16
    requires forall i :: 0 <= i < k ==> p.attrs[i].kind != 80
    ensures var w := EncodePacket(p); var o := 20 + Offset(p.attrs, k);
      && o + 18 <= |w|
      && (MessageAuthentic(md5, secret, p) <==>
            IsHmac(md5, secret, w[..o + 2] + seq(16, _ => 0) + w[o + 18..], p.attrs[k].value))
  {
    FirstOfIs(p.attrs, 80, k);
    Zeroed(p, k);
    assert seq(16, _ => 0) == ZERO16;
    var w, o := EncodePacket(p), 20 + Offset(p.attrs, k);
    HmacExact(md5, secret, w[..o + 2] + ZERO16 + w[o + 18..], p.attrs[k].value);
  }

  // ---- User-Password ----

  /** Each octet of the hidden password: the clear one exclusive-or an octet of the hash over the secret and
      the hidden block before, or the authenticator for the first block. */
  lemma HiddenOctets(md5: Hash, secret: seq<byte>, auth: Digest, plain: seq<byte>, j: nat)
    requires |plain| % 16 == 0 && j < |plain|
    ensures var c := Hide(md5, secret, auth, plain); var n := j / 16 * 16;
      && |c| == |plain|
      && (j < 16 ==> c[j] == Xor(plain[j], md5(secret + auth)[j % 16]))
      && (j >= 16 ==> n >= 16 && c[j] == Xor(plain[j], md5(secret + c[n - 16..n])[j % 16]))
  {
    var c, n := Hide(md5, secret, auth, plain), j / 16 * 16;
    HideBlock(md5, secret, auth, plain, n);
    assert c[n..n + 16][j % 16] == c[j] && plain[n..n + 16][j % 16] == plain[j];
  }

  // ---- room ----

  /** The size of a hidden password: the next multiple of 16 above 0, and nothing above 240. */
  function HiddenSize(n: nat): nat {
    if n > 240 then 0 else PadLength(n)
  }

  /** An access request is made ready if and only if its octets leave room for the hidden password beside the
      clear one, and then, without the clear one, for 18 octets of signature. */
  lemma RoomExact(p: Packet, id: byte, secret: seq<byte>, random: Digest, md5: Hash)
    requires p.Fits() && p.code != 4 && NoSignature(p)
    ensures var n := |EncodePacket(p)|; var k := FirstOf(p.attrs, 2);
      Prepared(p, id, secret, random, md5).Ready? <==>
      if k == |p.attrs| then n + 18 <= 4096
      else var m := |p.attrs[k].value|;
        n + 2 + PadLength(m) <= 4096 && n - m + HiddenSize(m) + 18 <= 4096
  {
    var k := FirstOf(p.attrs, 2);
    AccessRequestAccepted(p, id, secret, random, md5);
    if k < |p.attrs| && |EncodePacket(p)| + 2 + PadLength(|p.attrs[k].value|) <= 4096 {
      var m := |p.attrs[k].value|;
      CipherSize(md5, secret, random, p.attrs[k].value);
      RepasswordedEncode(p.attrs, k, HiddenValue(md5, secret, random, p.attrs[k].value));
    }
  }

  // ---- Cisco attributes ----

  /** Type 26, vendor 9 in network byte order, vendor type, vendor length, name and text. */
  lemma CiscoOctets(kind: byte, vsaHack: bool, text: seq<byte>)
    requires VSA_HEADER + |Prefix(kind, vsaHack)| + |text| <= 255
    ensures var a := CiscoAttr(kind, Prefix(kind, vsaHack), text);
      a.kind == 26 && a.value[..6] == [0, 0, 0, 9, kind, |a.value| - 4]
      && (Lookup(NAMES, kind).Some? && !vsaHack ==> a.value[6..] == Lookup(NAMES, kind).value + [61] + text)
      && (Lookup(NAMES, kind).None? || vsaHack ==> a.value[6..] == text)
  {
    var a := CiscoAttr(kind, Prefix(kind, vsaHack), text);
    assert a.value[6..] == Prefix(kind, vsaHack) + text;
  }

  /** Nothing is read from another attribute or from another vendor's. */
  lemma CiscoOnly(a: Attr)
    ensures a.kind != 26 || !([0, 0, 0, 9] <= a.value) || |a.value| < 6 || |a.value| > 253 ==> AsCiscoString(a) == []
  {
    if |a.value| >= 4 && a.value[..4] == [0, 0, 0, 9] {
      assert [0, 0, 0, 9] <= a.value;
    }
  }

  predicate Distinct(names: seq<Name>) {
    forall i, j :: 0 <= i < j < |names| ==> names[i].kind != names[j].kind
  }

  lemma KindsDiffer()
    ensures Distinct(NAMES)
  {
  }

  lemma {:induction false} LookupAt(names: seq<Name>, i: nat)
    requires Distinct(names) && i < |names|
    ensures Lookup(names, names[i].kind) == Some(Octets(names[i].text))
  {
    if i > 0 {
      LookupAt(names[1..], i - 1);
    }
  }

  /** No vendor type has two names: each name is found under its own type. */
  lemma NamesFound(names: seq<Name>, i: nat)
    requires names == NAMES && i < |names|
    ensures Lookup(names, names[i].kind) == Some(Octets(names[i].text))
  {
    KindsDiffer();
    LookupAt(names, i);
  }
}
