/** The sequence that turns a request into the packet on the wire, and what the server sees. */
module RadiusClient {
  import opened Options
  import opened Bytes
  import opened RadiusFormat
  import opened RadiusCrypto
  import opened RadiusPDU

  function WithAuthenticator(p: Packet, secret: seq<byte>, md5: Hash, random: Digest): Packet
    requires AllWellFormed(p.attrs)
  {
    p.(auth := if p.code == ACCOUNTING_REQUEST then md5(EncodePacket(p.(auth := ZERO16)) + secret) else random)
  }

  /** None when the hidden password does not fit beside the clear one. */
  function WithHiddenPassword(p: Packet, secret: seq<byte>, md5: Hash): Option<Packet>
    requires AllWellFormed(p.attrs)
  {
    var k := FirstOf(p.attrs, USER_PASSWORD);
    if k == |p.attrs| then Some(p)
    else if HEADER + |Encode(p.attrs)| + 2 + PadLength(|p.attrs[k].value|) > MAX_PDU then None
    else Some(p.(attrs := Repassworded(p.attrs, k, HiddenValue(md5, secret, p.auth, p.attrs[k].value))))
  }

  predicate NoSignature(p: Packet) {
    FirstOf(p.attrs, MESSAGE_AUTHENTICATOR) == |p.attrs|
  }

  /** The first Message-Authenticator of a packet has its legal length, if there is one. */
  predicate SignatureSized(p: Packet) {
    var k := FirstOf(p.attrs, MESSAGE_AUTHENTICATOR);
    k < |p.attrs| ==> |p.attrs[k].value| == 16
  }

  /** A zero Message-Authenticator is appended if it fits, then the first one gets the HMAC of all
      that; None where there is neither room nor an attribute to put it in. */
  function WithSignature(p: Packet, secret: seq<byte>, md5: Hash): (r: Option<Packet>)
    requires AllWellFormed(p.attrs) && SignatureSized(p)
  {
    var q := WithZeroAuthenticator(p, HEADER + |Encode(p.attrs)| + 18 <= MAX_PDU);
    var k := FirstOf(p.attrs, MESSAGE_AUTHENTICATOR);
    if k == |q.attrs| then None
    else Some(q.(attrs := WithValue(q.attrs, k, Hmac(md5, secret, EncodePacket(q)))))
  }

  datatype Outcome = Ready(packet: Packet) | NoRoom | NullAttribute

  /** Password, then Message-Authenticator for everything but accounting. */
  function Finished(a: Packet, secret: seq<byte>, md5: Hash): Outcome
    requires AllWellFormed(a.attrs) && SignatureSized(a)
  {
    match WithHiddenPassword(a, secret, md5)
    case None => NoRoom
    case Some(h) =>
      HidingKeepsSignature(a, secret, md5);
      if h.code == ACCOUNTING_REQUEST then Ready(h)
      else match WithSignature(h, secret, md5)
        case None => NullAttribute
        case Some(s) => Ready(s)
  }

  function Prepared(p: Packet, id: byte, secret: seq<byte>, random: Digest, md5: Hash): Outcome
    requires AllWellFormed(p.attrs) && SignatureSized(p)
  {
    Finished(WithAuthenticator(p.(id := id), secret, md5, random), secret, md5)
  }

  /** Moving one attribute of another type to the end keeps the first of a type first. */
  lemma MovedKeepsFirst(attrs: seq<Attr>, k: nat, value: seq<byte>, kind: byte)
    requires k < |attrs| && attrs[k].kind == USER_PASSWORD && kind != USER_PASSWORD
    ensures var m := FirstOf(attrs, kind); var q := Repassworded(attrs, k, value); var n := FirstOf(q, kind);
      (m == |attrs| <==> n == |q|) && (m < |attrs| ==> q[n] == attrs[m])
  {
    var m := FirstOf(attrs, kind);
    var q := Repassworded(attrs, k, value);
    var n := if m == |attrs| || m < k then m else m - 1;
    assert forall i :: 0 <= i < k ==> q[i] == attrs[i];
    assert forall i :: k <= i < |attrs| - 1 ==> q[i] == attrs[i + 1];
    FirstOfIs(q, kind, n);
  }

  lemma HidingKeepsSignature(p: Packet, secret: seq<byte>, md5: Hash)
    requires AllWellFormed(p.attrs) && SignatureSized(p) && WithHiddenPassword(p, secret, md5).Some?
    ensures var h := WithHiddenPassword(p, secret, md5).value;
      AllWellFormed(h.attrs) && SignatureSized(h) && (NoSignature(p) <==> NoSignature(h))
  {
    var k := FirstOf(p.attrs, USER_PASSWORD);
    if k < |p.attrs| {
      MovedKeepsFirst(p.attrs, k, HiddenValue(md5, secret, p.auth, p.attrs[k].value), MESSAGE_AUTHENTICATOR);
    }
  }

  /** CopyContents: header and attributes of a valid packet. */
  method Clone(request: RadiusPDU) returns (copy: RadiusPDU)
    requires request.Valid() && request.Contents().Some?
    ensures fresh(copy) && fresh(copy.data) && copy.Valid() && copy.Contents() == request.Contents()
  {
    copy := new RadiusPDU(0, 0);
    var len := request.GetLength();
    Recognised(request.data[..], request.Contents().value);
    copy.MemCopy(0, request.data[..len]);
    assert copy.data[..][..len] == request.data[..len];
    BeyondLength(request.data[..], copy.data[..]);
  }

  method HidePassword(pdu: RadiusPDU, secret: seq<byte>, md5: Hash) returns (ok: bool)
    requires pdu.Valid() && pdu.Contents().Some?
    modifies pdu.data
    ensures ok == WithHiddenPassword(old(pdu.Contents()).value, secret, md5).Some?
    ensures ok ==> pdu.Contents() == WithHiddenPassword(old(pdu.Contents()).value, secret, md5)
  {
    Recognised(pdu.data[..], pdu.Contents().value);
    ok := pdu.EncryptPasswords(secret, md5);
  }

  method SignPacket(pdu: RadiusPDU, secret: seq<byte>, md5: Hash) returns (found: bool)
    requires pdu.Valid() && pdu.Contents().Some? && SignatureSized(pdu.Contents().value)
    modifies pdu.data
    ensures found == WithSignature(old(pdu.Contents()).value, secret, md5).Some?
    ensures found ==> pdu.Contents() == WithSignature(old(pdu.Contents()).value, secret, md5)
  {
    Recognised(pdu.data[..], pdu.Contents().value);
    FirstWithZero(pdu.Contents().value, pdu.GetLength() + 18 <= MAX_PDU);
    ZeroIsInside(pdu.Contents().value, pdu.GetLength());
    found := pdu.SetupMessageAuthenticator(secret, md5);
  }

  /** RadiusClient::MakeRequest up to the send: id, authenticator, password, Message-Authenticator.
      `ok` is its own error return; `crashed` is where it would follow a null pointer. */
  method PrepareRequest(request: RadiusPDU, id: byte, secret: seq<byte>, random: Digest, md5: Hash)
    returns (ok: bool, crashed: bool, pdu: RadiusPDU)
    requires request.Valid() && request.Contents().Some? && SignatureSized(request.Contents().value)
    ensures pdu.Valid() && fresh(pdu)
    ensures match Prepared(request.Contents().value, id, secret, random, md5)
      case Ready(r) => ok && !crashed && pdu.Contents() == Some(r)
      case NoRoom => !ok
      case NullAttribute => ok && crashed
  {
    ghost var p := request.Contents().value;
    pdu := Clone(request);
    pdu.SetId(id);
    pdu.SetAuthenticator(secret, md5, random);
    ghost var a := WithAuthenticator(p.(id := id), secret, md5, random);
    assert pdu.Contents() == Some(a);
    crashed := false;
    ok := HidePassword(pdu, secret, md5);
    if ok {
      HidingKeepsSignature(a, secret, md5);
      ghost var h := pdu.Contents().value;
      if pdu.data[0] != ACCOUNTING_REQUEST {
        var found := SignPacket(pdu, secret, md5);
        crashed := !found;
      }
    }
  }

  lemma ResponseCovered(d: seq<byte>, p: Packet, auth: Digest)
    requires |d| == MAX_PDU && DecodePacket(d) == Some(p)
    ensures HEADER <= LenOf(d) <= MAX_PDU
    ensures d[..AUTH_OFFSET] + auth + d[HEADER..LenOf(d)] == EncodePacket(p.(auth := auth))
  {
    Recognised(d, p);
    BigEndianOf(d[2], d[3]);
    assert d[..AUTH_OFFSET] == [p.code, p.id] + BigEndian16(LenOf(d));
  }

  /** VerifyResponseAuthenticator: the digest over the response with the request's authenticator. */
  method VerifyResponse(request: RadiusPDU, response: RadiusPDU, secret: seq<byte>, md5: Hash) returns (ok: bool)
    requires request.Valid() && request.Contents().Some? && response.Valid() && response.Contents().Some?
    ensures ok <==> ResponseAuthentic(md5, secret, request.Contents().value.auth, response.Contents().value)
  {
    ghost var q, p := request.Contents().value, response.Contents().value;
    ResponseCovered(response.data[..], p, q.auth);
    var len := response.GetLength();
    var auth := request.data[AUTH_OFFSET..HEADER];
    assert auth == q.auth == request.data[..][AUTH_OFFSET..HEADER];
    assert response.data[AUTH_OFFSET..HEADER] == p.auth;
    var digest := md5(response.data[..AUTH_OFFSET] + auth + response.data[HEADER..len] + secret);
    return digest == response.data[AUTH_OFFSET..HEADER];
  }

  // ---- what the server finds ----

  /** Main result for access packets: without a Message-Authenticator in the request, preparing it
      succeeds exactly when there is room, and then the packet passes the server's check. */
  lemma AccessRequestAccepted(p: Packet, id: byte, secret: seq<byte>, random: Digest, md5: Hash)
    requires p.Fits() && p.code != ACCOUNTING_REQUEST && NoSignature(p)
    ensures var h := WithHiddenPassword(p.(id := id, auth := random), secret, md5);
      var r := Prepared(p, id, secret, random, md5);
      && (r.Ready? <==> h.Some? && AllWellFormed(h.value.attrs) && HEADER + |Encode(h.value.attrs)| + 18 <= MAX_PDU)
      && (r.Ready? ==>
            && AllWellFormed(r.packet.attrs) && MessageAuthentic(md5, secret, r.packet)
            && r.packet.code == p.code && r.packet.id == id && r.packet.auth == random
            && |r.packet.attrs| > 0 && r.packet.attrs[..|r.packet.attrs| - 1] == h.value.attrs)
  {
    var a := p.(id := id, auth := random);
    if WithHiddenPassword(a, secret, md5).Some? {
      var h := WithHiddenPassword(a, secret, md5).value;
      HidingKeepsSignature(a, secret, md5);
      if HEADER + |Encode(h.attrs)| + 18 <= MAX_PDU {
        SignedIsAuthentic(h, secret, md5);
      }
    }
  }

  lemma SignedIsAuthentic(h: Packet, secret: seq<byte>, md5: Hash)
    requires AllWellFormed(h.attrs) && NoSignature(h) && HEADER + |Encode(h.attrs)| + 18 <= MAX_PDU
    ensures var s := WithSignature(h, secret, md5);
      && s.Some? && AllWellFormed(s.value.attrs) && MessageAuthentic(md5, secret, s.value)
      && s.value == h.(attrs := s.value.attrs) && |s.value.attrs| > 0 && s.value.attrs[..|s.value.attrs| - 1] == h.attrs
  {
    var q := WithZeroAuthenticator(h, true);
    var s := WithSignature(h, secret, md5).value;
    var k := |h.attrs|;
    FirstOfIs(s.attrs, MESSAGE_AUTHENTICATOR, k);
    assert WithValue(s.attrs, k, ZERO16) == q.attrs;
  }

  /** The attributes the server gets back: the others in order, then the password, which it recovers
      padded exactly when it had at most 240 octets. */
  lemma PasswordRecovered(p: Packet, id: byte, secret: seq<byte>, random: Digest, md5: Hash, k: nat)
    requires p.Fits() && p.code != ACCOUNTING_REQUEST && NoSignature(p) && Prepared(p, id, secret, random, md5).Ready?
    requires k < |p.attrs| && (forall i :: 0 <= i < |p.attrs| ==> (p.attrs[i].kind == USER_PASSWORD <==> i == k))
    ensures var r := Prepared(p, id, secret, random, md5).packet; var j := FirstOf(r.attrs, USER_PASSWORD);
      && j == |p.attrs| - 1 && |r.attrs| == |p.attrs| + 1
      && r.attrs[..j] == p.attrs[..k] + p.attrs[k + 1..]
      && |r.attrs[j].value| % 16 == 0
      && (Unhide(md5, secret, r.auth, r.attrs[j].value) == Pad(p.attrs[k].value) <==> |p.attrs[k].value| <= 240)
  {
    AccessRequestAccepted(p, id, secret, random, md5);
    FirstOfIs(p.attrs, USER_PASSWORD, k);
    var r := Prepared(p, id, secret, random, md5).packet;
    HiddenValueRecovers(md5, secret, random, p.attrs[k].value);
    var h := Repassworded(p.attrs, k, HiddenValue(md5, secret, random, p.attrs[k].value));
    assert r.attrs[..|p.attrs|] == h;
    PasswordLast(p.attrs, k, h[|h| - 1].value, r.attrs);
  }

  /** Where the password is once it has been hidden and the list has grown. */
  lemma PasswordLast(attrs: seq<Attr>, k: nat, value: seq<byte>, grown: seq<Attr>)
    requires k < |attrs| && (forall i :: 0 <= i < |attrs| ==> (attrs[i].kind == USER_PASSWORD <==> i == k))
    requires |grown| >= |attrs| && grown[..|attrs|] == Repassworded(attrs, k, value)
    ensures FirstOf(grown, USER_PASSWORD) == |attrs| - 1
    ensures grown[..|attrs| - 1] == attrs[..k] + attrs[k + 1..]
    ensures grown[|attrs| - 1] == Attr(USER_PASSWORD, value)
  {
    var h := Repassworded(attrs, k, value);
    forall i | 0 <= i < |attrs| ensures grown[i] == h[i] {
      assert grown[..|attrs|][i] == h[i];
    }
    assert h[..|attrs| - 1] == attrs[..k] + attrs[k + 1..];
    forall i | 0 <= i < |attrs| - 1 ensures h[i].kind != USER_PASSWORD {
    }
    FirstOfIs(grown, USER_PASSWORD, |attrs| - 1);
  }

  /** Main result for accounting packets. */
  lemma AccountingRequestAccepted(p: Packet, id: byte, secret: seq<byte>, random: Digest, md5: Hash)
    requires p.Fits() && p.code == ACCOUNTING_REQUEST && SignatureSized(p)
        && FirstOf(p.attrs, USER_PASSWORD) == |p.attrs|
    ensures var r := Prepared(p, id, secret, random, md5);
      r.Ready? && r.packet == p.(id := id, auth := r.packet.auth) && AccountingAuthentic(md5, secret, r.packet)
  {
  }
}
