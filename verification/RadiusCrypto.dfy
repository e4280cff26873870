/** What the standards ask of a RADIUS packet: User-Password hiding (section 5.2 of RFC 2865), HMAC
    (section 2 of RFC 2104), Message-Authenticator (section 5.14 of RFC 2869), and the accounting
    (section 3 of RFC 2866) and response (section 3 of RFC 2865) authenticators.

    The hash is a parameter: everything holds for any function to 16 octets. */
module RadiusCrypto {
  import opened Bytes
  import opened RadiusFormat

  // ---- User-Password ----

  /** The padded length: a multiple of 16, at least 16. */
  function PadLength(n: nat): (m: nat)
    ensures m % 16 == 0 && m >= 16 && n <= m && (m < n + 16 || m == 16)
  {
    if n == 0 then 16 else (n + 15) / 16 * 16
  }

  function Pad(password: seq<byte>): (p: seq<byte>)
    ensures |p| == PadLength(|password|) && password <= p && forall i :: |password| <= i < |p| ==> p[i] == 0
  {
    password + Zeros(PadLength(|password|) - |password|)
  }

  /** c(1) = p(1) xor MD5(S + RA), c(i) = p(i) xor MD5(S + c(i-1)), in blocks of 16 octets. */
  function Hide(md5: Hash, secret: seq<byte>, previous: seq<byte>, plain: seq<byte>): (c: seq<byte>)
    requires |plain| % 16 == 0
    ensures |c| == |plain|
    decreases |plain|
  {
    if plain == [] then []
    else
      var c := XorSeq(plain[..16], md5(secret + previous));
      c + Hide(md5, secret, c, plain[16..])
  }

  /** The receiver's computation: p(i) = c(i) xor MD5(S + c(i-1)). */
  function Unhide(md5: Hash, secret: seq<byte>, previous: seq<byte>, hidden: seq<byte>): (p: seq<byte>)
    requires |hidden| % 16 == 0
    ensures |p| == |hidden|
    decreases |hidden|
  {
    if hidden == [] then []
    else
      XorSeq(hidden[..16], md5(secret + previous)) + Unhide(md5, secret, hidden[..16], hidden[16..])
  }

  /** The receiver recovers the padded password. */
  lemma {:induction false} UnhideHide(md5: Hash, secret: seq<byte>, previous: seq<byte>, plain: seq<byte>)
    requires |plain| % 16 == 0
    ensures Unhide(md5, secret, previous, Hide(md5, secret, previous, plain)) == plain
    decreases |plain|
  {
    if plain != [] {
      var c := XorSeq(plain[..16], md5(secret + previous));
      var rest := Hide(md5, secret, c, plain[16..]);
      XorSeqInverse(plain[..16], md5(secret + previous));
      assert (c + rest)[..16] == c && (c + rest)[16..] == rest;
      UnhideHide(md5, secret, c, plain[16..]);
    }
  }

  /** The block that enters the hash for the block at n. */
  function Chained(previous: seq<byte>, cipher: seq<byte>, n: nat): seq<byte>
    requires n <= |cipher| && n % 16 == 0
  {
    if n == 0 then previous else cipher[n - 16..n]
  }

  /** Each block of the result by itself, as the in-place loop computes it. */
  lemma {:induction false} HideBlock(md5: Hash, secret: seq<byte>, previous: seq<byte>, plain: seq<byte>, n: nat)
    requires |plain| % 16 == 0 && n % 16 == 0 && n + 16 <= |plain|
    ensures var c := Hide(md5, secret, previous, plain);
      c[n..n + 16] == XorSeq(plain[n..n + 16], md5(secret + Chained(previous, c, n)))
    decreases n
  {
    var c := Hide(md5, secret, previous, plain);
    var first := XorSeq(plain[..16], md5(secret + previous));
    var rest := Hide(md5, secret, first, plain[16..]);
    assert c == first + rest;
    if n == 0 {
      assert c[..16] == first;
    } else {
      HideBlock(md5, secret, first, plain[16..], n - 16);
      BlockBehind(first, rest, c, previous, n);
      assert plain[16..][n - 16..n] == plain[n..n + 16];
    }
  }

  lemma BlockBehind(first: seq<byte>, rest: seq<byte>, c: seq<byte>, previous: seq<byte>, n: nat)
    requires |first| == 16 && c == first + rest && 0 < n && n % 16 == 0 && n <= |rest|
    ensures c[n..n + 16] == rest[n - 16..n]
    ensures Chained(previous, c, n) == Chained(first, rest, n - 16)
  {
    if n == 16 {
      assert c[0..16] == first;
    } else {
      assert c[n - 16..n] == rest[n - 32..n - 16];
    }
  }

  /** What EncryptPasswords leaves as the value: above 240 octets the attribute's length octet wraps
      to 2 and the value is lost. */
  function HiddenValue(md5: Hash, secret: seq<byte>, auth: Digest, password: seq<byte>): seq<byte> {
    if |password| <= 240 then Hide(md5, secret, auth, Pad(password)) else []
  }

  lemma CipherSize(md5: Hash, secret: seq<byte>, auth: Digest, password: seq<byte>)
    requires |password| <= 253
    ensures var c := Hide(md5, secret, auth, Pad(password));
      && |c| == PadLength(|password|) && |c| % 16 == 0 && |c| <= 256
      && HiddenValue(md5, secret, auth, password) == (if |c| <= 253 then c else [])
  {
  }

  /** The receiver gets the padded password back exactly when it had at most 240 octets. */
  lemma HiddenValueRecovers(md5: Hash, secret: seq<byte>, auth: Digest, password: seq<byte>)
    ensures var v := HiddenValue(md5, secret, auth, password);
      |v| % 16 == 0 && (Unhide(md5, secret, auth, v) == Pad(password) <==> |password| <= 240)
  {
    UnhideHide(md5, secret, auth, Pad(password));
  }

  // ---- HMAC ----

  function XorAll(a: seq<byte>, b: byte): (r: seq<byte>)
    ensures |r| == |a|
  {
    seq(|a|, i requires 0 <= i < |a| => Xor(a[i], b))
  }

  function HmacKey(md5: Hash, key: seq<byte>): (k: seq<byte>)
    ensures |k| == 64
  {
    var k := if |key| > 64 then md5(key) else key;
    k + Zeros(64 - |k|)
  }

  function Hmac(md5: Hash, key: seq<byte>, text: seq<byte>): Digest {
    var k := HmacKey(md5, key);
    md5(XorAll(k, 0x5c) + md5(XorAll(k, 0x36) + text))
  }

  /** Octet j of the key as it enters the pads: long keys are hashed first, zeros come behind. */
  function KeyOctet(md5: Hash, key: seq<byte>, j: nat): byte {
    var k := if |key| > 64 then md5(key) else key;
    if j < |k| then k[j] else 0
  }

  /** 64 octets, each an octet of the key with `b` exclusive-or'ed in. */
  ghost predicate IsPad(md5: Hash, key: seq<byte>, b: byte, pad: seq<byte>) {
    |pad| == 64 && forall j :: 0 <= j < 64 ==> pad[j] == Xor(KeyOctet(md5, key, j), b)
  }

  /** The construction of RFC 2104: 0x36 inside, 0x5c outside. */
  ghost predicate IsHmac(md5: Hash, key: seq<byte>, text: seq<byte>, digest: Digest) {
    exists i, o :: IsPad(md5, key, 0x36, i) && IsPad(md5, key, 0x5c, o) && digest == md5(o + md5(i + text))
  }

  lemma HmacExact(md5: Hash, key: seq<byte>, text: seq<byte>, digest: Digest)
    ensures IsHmac(md5, key, text, digest) <==> digest == Hmac(md5, key, text)
  {
    var k := HmacKey(md5, key);
    var inside, outside := XorAll(k, 0x36), XorAll(k, 0x5c);
    assert IsPad(md5, key, 0x36, inside) && IsPad(md5, key, 0x5c, outside);
    forall i, o | IsPad(md5, key, 0x36, i) && IsPad(md5, key, 0x5c, o) ensures i == inside && o == outside {
    }
  }

  // ---- the server's checks ----

  /** The first attribute of a type; the number of attributes when there is none. */
  function FirstOf(attrs: seq<Attr>, kind: byte): (k: nat)
    ensures k <= |attrs|
    ensures forall i :: 0 <= i < k ==> attrs[i].kind != kind
    ensures k < |attrs| ==> attrs[k].kind == kind
  {
    if attrs == [] || attrs[0].kind == kind then 0 else 1 + FirstOf(attrs[1..], kind)
  }

  lemma FirstOfIs(attrs: seq<Attr>, kind: byte, k: nat)
    requires k <= |attrs| && (forall i :: 0 <= i < k ==> attrs[i].kind != kind)
    requires k < |attrs| ==> attrs[k].kind == kind
    ensures FirstOf(attrs, kind) == k
  {
  }

  const ZERO16: Digest := Zeros(16)

  function WithValue(attrs: seq<Attr>, k: nat, value: seq<byte>): (r: seq<Attr>)
    requires k < |attrs|
    ensures |r| == |attrs|
  {
    attrs[k := Attr(attrs[k].kind, value)]
  }

  /** Message-Authenticator = HMAC-MD5 of the packet with 16 zero octets in its place. */
  ghost predicate MessageAuthentic(md5: Hash, secret: seq<byte>, p: Packet)
    requires AllWellFormed(p.attrs)
  {
    var k := FirstOf(p.attrs, MESSAGE_AUTHENTICATOR);
    k < |p.attrs| && |p.attrs[k].value| == 16 && AllWellFormed(WithValue(p.attrs, k, ZERO16))
    && p.attrs[k].value == Hmac(md5, secret, EncodePacket(p.(attrs := WithValue(p.attrs, k, ZERO16))))
  }

  /** Request Authenticator = MD5(Code + Id + Length + 16 zero octets + attributes + secret). */
  ghost predicate AccountingAuthentic(md5: Hash, secret: seq<byte>, p: Packet)
    requires AllWellFormed(p.attrs)
  {
    p.auth == md5(EncodePacket(p.(auth := ZERO16)) + secret)
  }

  /** Response Authenticator = MD5(Code + Id + Length + Request Authenticator + attributes + secret). */
  ghost predicate ResponseAuthentic(md5: Hash, secret: seq<byte>, request: Digest, p: Packet)
    requires AllWellFormed(p.attrs)
  {
    p.auth == md5(EncodePacket(p.(auth := request)) + secret)
  }
}
