/** Where the send sequence does not meet the standards, and exactly when it does.

    Each statement ranges over all hashes: where a check does not hold in general, a hash for which
    it fails is given. */
module RadiusLimits {
  import opened Bytes
  import opened RadiusFormat
  import opened RadiusCrypto
  import opened RadiusPDU
  import opened RadiusClient

  const ONES: Digest := seq(16, _ => 1)

  /** A hash that tells `text` from every other text under HMAC: 80 octets hash to their last 16,
      longer input to a digest that says whether `text` follows the 64 octets of the pad. */
  function TellsInner(text: seq<byte>): Hash {
    (x: seq<byte>) => if |x| == 80 then x[64..] else if |x| > 80 && x[64..] == text then ONES else ZERO16
  }

  lemma TellsApart(text: seq<byte>, key: seq<byte>, other: seq<byte>)
    requires |text| > 16 && |other| > 16
    ensures Hmac(TellsInner(text), key, other) == if other == text then ONES else ZERO16
  {
    var f := TellsInner(text);
    var k := HmacKey(f, key);
    var inner := XorAll(k, 0x36) + other;
    assert inner[64..] == other;
    var outer := XorAll(k, 0x5c) + f(inner);
    assert outer[64..] == f(inner);
  }

  lemma EncodingsDiffer(p: Packet, q: Packet)
    requires p.Fits() && q.Fits() && p != q
    ensures EncodePacket(p) != EncodePacket(q) && |EncodePacket(p)| > 16 && |EncodePacket(q)| > 16
  {
    DecodeEncodePacket(p, []);
    DecodeEncodePacket(q, []);
  }

  /** A signed packet passes for every hash exactly when the request had no Message-Authenticator
      or one of 16 zero octets: an older value is hashed instead of zeros. */
  lemma SignatureExact(h: Packet, secret: seq<byte>)
    requires h.Fits() && SignatureSized(h) && (NoSignature(h) ==> HEADER + |Encode(h.attrs)| + 18 <= MAX_PDU)
    ensures var k := FirstOf(h.attrs, MESSAGE_AUTHENTICATOR);
      (forall md5: Hash :: SignatureHolds(h, secret, md5)) <==> (k == |h.attrs| || h.attrs[k].value == ZERO16)
  {
    var k := FirstOf(h.attrs, MESSAGE_AUTHENTICATOR);
    if k == |h.attrs| {
      forall md5: Hash ensures SignatureHolds(h, secret, md5) {
        SignedIsAuthentic(h, secret, md5);
      }
    } else {
      if h.attrs[k].value == ZERO16 {
        forall md5: Hash ensures SignatureHolds(h, secret, md5) {
          OldSignature(h, secret, md5);
        }
      } else {
        OldSignatureFails(h, secret);
      }
    }
  }

  ghost predicate SignatureHolds(h: Packet, secret: seq<byte>, md5: Hash)
    requires AllWellFormed(h.attrs) && SignatureSized(h)
  {
    var s := WithSignature(h, secret, md5);
    s.Some? && AllWellFormed(s.value.attrs) && MessageAuthentic(md5, secret, s.value)
  }

  /** With an old signature the check amounts to equality of two HMACs. */
  lemma OldSignature(h: Packet, secret: seq<byte>, md5: Hash)
    requires h.Fits() && SignatureSized(h) && !NoSignature(h)
    ensures var k := FirstOf(h.attrs, MESSAGE_AUTHENTICATOR);
      var q := WithZeroAuthenticator(h, HEADER + |Encode(h.attrs)| + 18 <= MAX_PDU);
      var z := q.(attrs := WithValue(q.attrs, k, ZERO16));
      && q.Fits() && z.Fits()
      && (SignatureHolds(h, secret, md5) <==> Hmac(md5, secret, EncodePacket(q)) == Hmac(md5, secret, EncodePacket(z)))
      && (q == z <==> h.attrs[k].value == ZERO16)
  {
    var k := FirstOf(h.attrs, MESSAGE_AUTHENTICATOR);
    var q := WithZeroAuthenticator(h, HEADER + |Encode(h.attrs)| + 18 <= MAX_PDU);
    var z := q.(attrs := WithValue(q.attrs, k, ZERO16));
    var s := WithSignature(h, secret, md5).value;
    EncodeOne(Attr(MESSAGE_AUTHENTICATOR, ZERO16));
    EncodeAppend(h.attrs, [Attr(MESSAGE_AUTHENTICATOR, ZERO16)]);
    WithValueEncode(q.attrs, k, ZERO16);
    WithValueEncode(q.attrs, k, Hmac(md5, secret, EncodePacket(q)));
    FirstOfIs(s.attrs, MESSAGE_AUTHENTICATOR, k);
    assert WithValue(s.attrs, k, ZERO16) == z.attrs;
    if q.attrs == z.attrs { assert q.attrs[k] == z.attrs[k]; }
    if h.attrs[k].value == ZERO16 { assert q.attrs == z.attrs; }
  }

  lemma OldSignatureFails(h: Packet, secret: seq<byte>)
    requires h.Fits() && SignatureSized(h) && !NoSignature(h)
    requires h.attrs[FirstOf(h.attrs, MESSAGE_AUTHENTICATOR)].value != ZERO16
    ensures exists md5: Hash :: !SignatureHolds(h, secret, md5)
  {
    var k := FirstOf(h.attrs, MESSAGE_AUTHENTICATOR);
    var q := WithZeroAuthenticator(h, HEADER + |Encode(h.attrs)| + 18 <= MAX_PDU);
    var z := q.(attrs := WithValue(q.attrs, k, ZERO16));
    var f := TellsInner(EncodePacket(q));
    OldSignature(h, secret, f);
    EncodingsDiffer(q, z);
    TellsApart(EncodePacket(q), secret, EncodePacket(q));
    TellsApart(EncodePacket(q), secret, EncodePacket(z));
    assert ONES[0] != ZERO16[0];
    assert !SignatureHolds(h, secret, f);
  }

  // ---- a password in an accounting packet ----

  ghost predicate AccountingHolds(p: Packet, id: byte, secret: seq<byte>, random: Digest, md5: Hash)
    requires AllWellFormed(p.attrs) && SignatureSized(p)
  {
    var r := Prepared(p, id, secret, random, md5);
    r.Ready? && AllWellFormed(r.packet.attrs) && AccountingAuthentic(md5, secret, r.packet)
  }

  /** A prepared Accounting-Request with room for hiding passes for every hash exactly when it has no
      User-Password: the password is hidden after the authenticator was computed. */
  lemma AccountingExact(p: Packet, id: byte, secret: seq<byte>, random: Digest)
    requires p.Fits() && p.code == ACCOUNTING_REQUEST && SignatureSized(p)
    requires var k := FirstOf(p.attrs, USER_PASSWORD);
      k < |p.attrs| ==> HEADER + |Encode(p.attrs)| + 2 + PadLength(|p.attrs[k].value|) <= MAX_PDU
    ensures (forall md5: Hash :: AccountingHolds(p, id, secret, random, md5))
        <==> FirstOf(p.attrs, USER_PASSWORD) == |p.attrs|
  {
    if FirstOf(p.attrs, USER_PASSWORD) == |p.attrs| {
      forall md5: Hash ensures AccountingHolds(p, id, secret, random, md5) {
        AccountingRequestAccepted(p, id, secret, random, md5);
      }
    } else {
      AccountingFails(p, id, secret, random);
    }
  }

  /** A hash that tells one text from all others. */
  function Tells(text: seq<byte>): Hash {
    (x: seq<byte>) => if x == text then ZERO16 else ONES
  }

  lemma XorOne(b: byte)
    ensures Xor(b, 1) != b
  {
    OddChanges(b, XorBits(b / 2, 1 / 2, 7));
  }

  lemma OddChanges(b: nat, x: nat)
    ensures (b + 1) % 2 + 2 * x != b
  {
    assert b % 2 == 0 || b % 2 == 1;
  }

  lemma HidingChanges(text: seq<byte>, secret: seq<byte>, auth: Digest, password: seq<byte>)
    requires text != secret + auth && |password| <= 253
    ensures HiddenValue(Tells(text), secret, auth, password) != password
  {
    if 0 < |password| <= 240 {
      var plain := Pad(password);
      var c := Hide(Tells(text), secret, auth, plain);
      assert c[0] == Xor(plain[0], ONES[0]);
      XorOne(plain[0]);
    }
  }

  /** Moving attribute k to the end with another value changes the list. */
  lemma MovedDiffers(attrs: seq<Attr>, k: nat, value: seq<byte>)
    requires k < |attrs| && attrs[k].kind == USER_PASSWORD && attrs[k].value != value
    ensures Repassworded(attrs, k, value) != attrs
  {
    var q := Repassworded(attrs, k, value);
    if q == attrs {
      AllShifted(attrs, k, value, |attrs| - 1);
    }
  }

  lemma {:induction false} AllShifted(attrs: seq<Attr>, k: nat, value: seq<byte>, i: nat)
    requires k <= i < |attrs| && Repassworded(attrs, k, value) == attrs
    requires forall j :: i < j < |attrs| ==> attrs[j] == Attr(USER_PASSWORD, value)
    ensures attrs[k] == Attr(USER_PASSWORD, value)
    decreases i
  {
    assert attrs[i] == (if i == |attrs| - 1 then Attr(USER_PASSWORD, value) else attrs[i + 1]);
    if i > k {
      AllShifted(attrs, k, value, i - 1);
    }
  }

  lemma SameTail(a: seq<byte>, b: seq<byte>, tail: seq<byte>)
    requires a + tail == b + tail
    ensures a == b
  {
    assert |a| == |b|;
    assert a == (a + tail)[..|a|] == (b + tail)[..|b|] == b;
  }

  lemma AccountingFails(p: Packet, id: byte, secret: seq<byte>, random: Digest)
    requires p.Fits() && p.code == ACCOUNTING_REQUEST && SignatureSized(p)
    requires var k := FirstOf(p.attrs, USER_PASSWORD);
      k < |p.attrs| && HEADER + |Encode(p.attrs)| + 2 + PadLength(|p.attrs[k].value|) <= MAX_PDU
    ensures exists md5: Hash :: !AccountingHolds(p, id, secret, random, md5)
  {
    var k := FirstOf(p.attrs, USER_PASSWORD);
    var zeroed := p.(id := id, auth := ZERO16);
    var text := EncodePacket(zeroed) + secret;
    var f := Tells(text);
    var a := p.(id := id, auth := ZERO16);
    assert WithAuthenticator(p.(id := id), secret, f, random) == a;
    var v := HiddenValue(f, secret, ZERO16, p.attrs[k].value);
    HidingChanges(text, secret, ZERO16, p.attrs[k].value);
    MovedDiffers(p.attrs, k, v);
    var r := a.(attrs := Repassworded(p.attrs, k, v));
    assert Prepared(p, id, secret, random, f) == Ready(r);
    RepasswordedFits(p, k, v);
    EncodingsDiffer(r, zeroed);
    if EncodePacket(r) + secret == text {
      SameTail(EncodePacket(r), EncodePacket(zeroed), secret);
    }
    assert ONES[0] != ZERO16[0];
    assert !AccountingHolds(p, id, secret, random, f);
  }

  lemma RepasswordedFits(p: Packet, k: nat, v: seq<byte>)
    requires p.Fits() && k < |p.attrs| && 2 + |v| <= MAX_ATTR && HEADER + |Encode(p.attrs)| + 2 + |v| <= MAX_PDU
    ensures p.(attrs := Repassworded(p.attrs, k, v)).Fits()
  {
    RepasswordedEncode(p.attrs, k, v);
  }
}
