/** Cisco's vendor-specific attributes carry their own name in front of the value. */
module CiscoNames {
  import opened Options
  import opened Bytes
  import opened RadiusFormat

  const CISCO_VENDOR_ID: seq<byte> := [0, 0, 0, 9]
  const EQUALS: byte := 61
  const VSA_HEADER := 8

  datatype Name = Name(kind: byte, text: string)

  /** CiscoAttrNames, in its order. */
  const NAMES: seq<Name> := [
    Name(23, "h323-remote-address"), Name(24, "h323-conf-id"), Name(25, "h323-setup-time"),
    Name(28, "h323-connect-time"), Name(29, "h323-disconnect-time"), Name(30, "h323-disconnect-cause"),
    Name(101, "h323-credit-amount"), Name(102, "h323-credit-time"), Name(103, "h323-return-code"),
    Name(109, "h323-billing-model"), Name(110, "h323-currency"), Name(106, "h323-redirect-number"),
    Name(108, "h323-redirect-ip-address"), Name(33, "h323-gw-id"), Name(26, "h323-call-origin"),
    Name(27, "h323-call-type"), Name(31, "h323-voice-quality"), Name(35, "h323-incoming-conf-id"),
    Name(107, "h323-preferred-lang")]

  function Octets(s: string): (r: seq<byte>)
    ensures |r| == |s|
  {
    seq(|s|, i requires 0 <= i < |s| => s[i] as int % 256)
  }

  /** The first name listed for a vendor type. */
  function Lookup(names: seq<Name>, kind: byte): Option<seq<byte>> {
    if names == [] then None
    else if names[0].kind == kind then Some(Octets(names[0].text))
    else Lookup(names[1..], kind)
  }

  lemma ShortNames(kind: byte)
    ensures Lookup(NAMES, kind).Some? ==> |Lookup(NAMES, kind).value| <= 24
  {
    forall i | 0 <= i < |NAMES| ensures |NAMES[i].text| <= 24 {
      ShortName(i);
    }
    ShortIn(NAMES, kind);
  }

  lemma ShortName(i: nat)
    requires i < |NAMES|
    ensures |NAMES[i].text| <= 24
  {
  }

  lemma ShortIn(names: seq<Name>, kind: byte)
    requires forall i :: 0 <= i < |names| ==> |names[i].text| <= 24
    ensures Lookup(names, kind).Some? ==> |Lookup(names, kind).value| <= 24
  {
  }

  /** What stands in front of the value: the name and an equals sign, or nothing. */
  function Prefix(kind: byte, vsaHack: bool): seq<byte> {
    match Lookup(NAMES, kind)
    case Some(name) => if vsaHack then [] else name + [EQUALS]
    case None => []
  }

  /** The attribute AppendCiscoAttr builds. */
  function CiscoAttr(kind: byte, prefix: seq<byte>, text: seq<byte>): Attr
    requires VSA_HEADER + |prefix| + |text| <= MAX_ATTR
  {
    Attr(VENDOR_SPECIFIC, CISCO_VENDOR_ID + [kind, 2 + |prefix| + |text|] + prefix + text)
  }

  /** AsCiscoString: the value without its name, if that is what it starts with. */
  function AsCiscoString(a: Attr): seq<byte> {
    if !a.WellFormed() || a.kind != VENDOR_SPECIFIC || a.value[..4] != CISCO_VENDOR_ID || |a.value| < 6 then []
    else
      var text := a.value[6..];
      match Lookup(NAMES, a.value[4])
      case None => text
      case Some(name) => if StartsNamed(text, name) then text[|name| + 1..] else text
  }

  predicate StartsNamed(text: seq<byte>, name: seq<byte>) {
    |name| < |text| && text[..|name|] == name && text[|name|] == EQUALS
  }

  /** Reading back what was appended: always with the name in front; without it exactly when the
      text does not itself start with the attribute's name and an equals sign. */
  lemma CiscoRoundTrip(kind: byte, vsaHack: bool, text: seq<byte>)
    requires VSA_HEADER + |Prefix(kind, vsaHack)| + |text| <= MAX_ATTR
    ensures var a := CiscoAttr(kind, Prefix(kind, vsaHack), text);
      && a.WellFormed() && a.value[5] == |a.value| - 4
      && (AsCiscoString(a) == text <==>
            !vsaHack || Lookup(NAMES, kind) == None || !StartsNamed(text, Lookup(NAMES, kind).value))
  {
    var prefix := Prefix(kind, vsaHack);
    var a := CiscoAttr(kind, prefix, text);
    assert a.value[..4] == CISCO_VENDOR_ID && a.value[4] == kind && a.value[6..] == prefix + text;
    match Lookup(NAMES, kind) {
      case None => assert prefix + text == text;
      case Some(name) =>
        if vsaHack {
          assert prefix + text == text;
        } else {
          assert (prefix + text)[..|name|] == name;
          assert (prefix + text)[|name| + 1..] == text;
        }
    }
  }
}
