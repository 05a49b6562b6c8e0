/** DER encodings of general names and of the name constraints extension (sections 4.2.1.6 and 4.2.1.10 of RFC 5280). */
module NameEncodings {
  import opened Bytes
  import opened Der
  import opened DerEncoding
  import opened Encodings
  import opened GeneralNames
  import opened IpUtil
  import opened NameConstraints
  import opened Strings
  import opened Wrappers

  /** The identifier octets of the tags in use. */
  lemma TagOctets()
    ensures EncodeTag(BOOLEAN) == [0x01] && EncodeTag(INTEGER) == [0x02] && EncodeTag(OCTETSTRING) == [0x04]
    ensures EncodeTag(OBJECT) == [0x06] && EncodeTag(UTF8STRING) == [0x0c] && EncodeTag(PRINTABLESTRING) == [0x13]
    ensures EncodeTag(T61STRING) == [0x14] && EncodeTag(IA5STRING) == [0x16] && EncodeTag(UTCTIME) == [0x17]
    ensures EncodeTag(GENERALIZEDTIME) == [0x18] && EncodeTag(UNIVERSALSTRING) == [0x1c] && EncodeTag(BMPSTRING) == [0x1e]
    ensures EncodeTag(SEQUENCE) == [0x30] && EncodeTag(SET) == [0x31]
  {
  }

  /** Octets of an element with a one-octet tag. */
  function Field(octet: byte, v: Input): Input
    requires |v| < LENGTH_LIMIT
  {
    [octet] + EncodeLength(|v|) + v
  }

  ghost predicate StartsWith(s: Input, octet: byte, v: Input) {
    |v| < LENGTH_LIMIT && Field(octet, v) <= s
  }

  predicate Ascii(t: string) {
    forall i :: 0 <= i < |t| ==> t[i] as int < 128
  }

  function Octets(t: string): (v: Input)
    requires Ascii(t)
    ensures |v| == |t| && forall i :: 0 <= i < |t| ==> v[i] == t[i] as int
  {
    seq(|t|, i requires 0 <= i < |t| => t[i] as int)
  }

  ghost predicate StartsWithText(s: Input, octet: byte, t: string) {
    Ascii(t) && StartsWith(s, octet, Octets(t))
  }

  /** The octets hold the name: those of each form by their first octet; what follows is looked at for a directory name
      only, and there not inside it. An address comes alone or with a mask of ones then zeros, as asked for. */
  ghost predicate Holds(s: Input, n: GeneralName, ipType: IPAddressType) {
    match n
    case OtherName(v) => StartsWith(s, 0xa0, v)
    case Rfc822Name(t) => StartsWithText(s, 0x81, t)
    case DNSName(t) => StartsWithText(s, 0x82, t)
    case X400Address(v) => StartsWith(s, 0xa3, v)
    case DirectoryName(r) => exists v :: |v| < LENGTH_LIMIT && s == Field(0xa4, v) && StartsWith(v, 0x30, r)
    case EdiPartyName(v) => StartsWith(s, 0xa5, v)
    case UniformResourceIdentifier(t) => StartsWithText(s, 0x86, t)
    case IPAddress(v) => ipType == IP_ADDRESS_ONLY && (|v| == 4 || |v| == 16) && StartsWith(s, 0x87, v)
    case IPAddressRange(a, m) =>
      && ipType == IP_ADDRESS_AND_NETMASK && |a| == |m| && (|m| == 4 || |m| == 16)
      && (exists k :: PrefixBits(m, k)) && StartsWith(s, 0x87, a + m)
    case RegisteredID(v) => StartsWith(s, 0x88, v)
  }

  lemma Numbered(tag: nat, octet: byte, v: Input)
    requires |v| < LENGTH_LIMIT && tag % CONSTRUCTED < 31 && tag / CONSTRUCTED < 8 && octet == 32 * (tag / CONSTRUCTED) + tag % CONSTRUCTED
    requires octet != 0 && octet != 32
    ensures Fits(tag, v) && Encode(tag, v) == Field(octet, v)
  {
  }

  /** Reading gives a tag and contents exactly when the octets start that way. */
  lemma Reads(s: Input, tag: nat, octet: byte, v: Input)
    requires tag % CONSTRUCTED < 31 && tag / CONSTRUCTED < 8 && octet == 32 * (tag / CONSTRUCTED) + tag % CONSTRUCTED
    requires octet != 0 && octet != 32
    ensures ReadElement(s).Some? && ReadElement(s).value.tag == tag && ReadElement(s).value.value == v <==> StartsWith(s, octet, v)
    ensures StartsWith(s, octet, v) ==> ReadElement(s).value.raw == Field(octet, v)
  {
    hide ReadElement, Encode;
    if |v| < LENGTH_LIMIT {
      Numbered(tag, octet, v);
      ElementExactly(s, Element(tag, v));
    }
    if ReadElement(s).Some? { ElementExactly(s, ReadElement(s).value); }
  }

  lemma TextOctets(v: Input, t: string)
    ensures IsAscii(AsText(v)) && AsText(v) == t <==> Ascii(t) && v == Octets(t)
  {
    if Ascii(t) && v == Octets(t) { assert AsText(v) == t; }
    if IsAscii(AsText(v)) && AsText(v) == t { assert v == Octets(t); }
  }

  lemma MasksExactly(v: Input, a: Input, m: Input)
    ensures ReadIP(v, IP_ADDRESS_AND_NETMASK) == Accepted(IPAddressRange(a, m)) <==>
            |a| == |m| && (|m| == 4 || |m| == 16) && (exists k :: PrefixBits(m, k)) && v == a + m
  {
    var half := |v| / 2;
    if |v| == 2 * half { assert v == v[..half] + v[half..]; }
    if |a| == |m| && v == a + m { assert v[..half] == a && v[half..] == m; }
    hide PrefixBits;
  }

  /** The next element has this tag and these contents, and is the field of that first octet. */
  predicate NextIs(s: Input, tag: nat, octet: byte, v: Input) {
    var t := ReadElement(s);
    t.Some? && t.value.tag == tag && t.value.value == v && |v| < LENGTH_LIMIT && t.value.raw == Field(octet, v)
  }

  /** Reading and testing by the first octet pick the same form. */
  lemma Forms(s: Input, octet: byte, tag: nat)
    requires tag % CONSTRUCTED < 31 && tag / CONSTRUCTED < 8 && octet == 32 * (tag / CONSTRUCTED) + tag % CONSTRUCTED
    requires octet != 0 && octet != 32
    ensures forall v :: StartsWith(s, octet, v) ==> NextIs(s, tag, octet, v)
    ensures ReadElement(s).Some? && ReadElement(s).value.tag == tag ==>
              StartsWith(s, octet, ReadElement(s).value.value) && NextIs(s, tag, octet, ReadElement(s).value.value)
  {
    hide ReadElement, Field;
    forall v | StartsWith(s, octet, v) ensures NextIs(s, tag, octet, v) { Reads(s, tag, octet, v); }
    if ReadElement(s).Some? && ReadElement(s).value.tag == tag { Reads(s, tag, octet, ReadElement(s).value.value); }
  }

  lemma OctetsHeld(s: Input, n: GeneralName, ipType: IPAddressType)
    requires n.OtherName? || n.X400Address? || n.EdiPartyName? || n.RegisteredID?
    ensures Read(s, ipType) == Accepted(n) <==> Holds(s, n, ipType)
  {
    hide StartsWith, ReadElement, Field, ReadIP, IsAscii;
    match n
    case OtherName(_) => Forms(s, 0xa0, CONTEXT_SPECIFIC + CONSTRUCTED + 0);
    case X400Address(_) => Forms(s, 0xa3, CONTEXT_SPECIFIC + CONSTRUCTED + 3);
    case EdiPartyName(_) => Forms(s, 0xa5, CONTEXT_SPECIFIC + CONSTRUCTED + 5);
    case RegisteredID(_) => Forms(s, 0x88, CONTEXT_SPECIFIC + 8);
  }

  lemma TextHeld(s: Input, n: GeneralName, ipType: IPAddressType)
    requires n.Rfc822Name? || n.DNSName? || n.UniformResourceIdentifier?
    ensures Read(s, ipType) == Accepted(n) <==> Holds(s, n, ipType)
  {
    hide StartsWith, ReadElement, Field, ReadIP, IsAscii, Octets, Ascii;
    var t := if n.Rfc822Name? then n.mailbox else if n.DNSName? then n.dns else n.uri;
    if ReadElement(s).Some? { TextOctets(ReadElement(s).value.value, t); }
    match n
    case Rfc822Name(_) => Forms(s, 0x81, CONTEXT_SPECIFIC + 1);
    case DNSName(_) => Forms(s, 0x82, CONTEXT_SPECIFIC + 2);
    case UniformResourceIdentifier(_) => Forms(s, 0x86, CONTEXT_SPECIFIC + 6);
  }

  lemma AddressHeld(s: Input, n: GeneralName, ipType: IPAddressType)
    requires n.IPAddress? || n.IPAddressRange?
    ensures Read(s, ipType) == Accepted(n) <==> Holds(s, n, ipType)
  {
    hide StartsWith, ReadElement, Field, IsAscii, PrefixBits;
    Forms(s, 0x87, CONTEXT_SPECIFIC + 7);
    if n.IPAddressRange? && ReadElement(s).Some? { MasksExactly(ReadElement(s).value.value, n.net, n.mask); }
    if n.IPAddressRange? { MasksExactly(n.net + n.mask, n.net, n.mask); }
    hide ValidNetmask;
  }

  lemma DirectoryHeld(s: Input, n: GeneralName, ipType: IPAddressType)
    requires n.DirectoryName?
    ensures Read(s, ipType) == Accepted(n) <==> Holds(s, n, ipType)
  {
    hide StartsWith, ReadElement, Field, ReadIP, IsAscii;
    Forms(s, 0xa4, CONTEXT_SPECIFIC + CONSTRUCTED + 4);
    if Read(s, ipType) == Accepted(n) {
      var v := ReadElement(s).value.value;
      Forms(v, 0x30, SEQUENCE);
      FieldWhole(s, 0xa4, v);
    }
    if v :| |v| < LENGTH_LIMIT && s == Field(0xa4, v) && StartsWith(v, 0x30, n.rdns) {
      Forms(v, 0x30, SEQUENCE);
      FieldWhole(s, 0xa4, v);
    }
  }

  lemma FieldWhole(s: Input, octet: byte, v: Input)
    requires |v| < LENGTH_LIMIT
    ensures s == Field(octet, v) ==> StartsWith(s, octet, v)
  {
  }

  /** ParseGeneralName accepts exactly octets that hold a name, as that name. */
  lemma NameExactly(s: Input, n: GeneralName, ipType: IPAddressType)
    ensures Read(s, ipType) == Accepted(n) <==> Holds(s, n, ipType)
  {
    hide Read, Holds;
    if n.DirectoryName? { DirectoryHeld(s, n, ipType); }
    else if n.IPAddress? || n.IPAddressRange? { AddressHeld(s, n, ipType); }
    else if n.Rfc822Name? || n.DNSName? || n.UniformResourceIdentifier? { TextHeld(s, n, ipType); }
    else { OctetsHeld(s, n, ipType); }
  }

  // ----- the name constraints extension

  /** A subtree without minimum and maximum: one name in a sequence. */
  ghost predicate HoldsSubtree(t: Tlv, n: GeneralName) {
    t.tag == SEQUENCE && IsRaw(t.value) && Holds(t.value, n, IP_ADDRESS_AND_NETMASK)
  }

  lemma SubtreeExactly(t: Tlv, n: GeneralName)
    ensures SubtreeName(t) == Some(n) <==> HoldsSubtree(t, n)
  {
    hide Read, Holds, ReadElement, IsElement;
    NameExactly(t.value, n, IP_ADDRESS_AND_NETMASK);
    RawExactly(t.value);
  }

  lemma RawExactly(g: Input)
    ensures IsRaw(g) <==> ReadElement(g).Some? && ReadElement(g).value.raw == g
  {
    hide ReadElement, IsElement;
    if ReadElement(g).Some? { ElementExactly(g, ReadElement(g).value); }
    if t :| IsElement(t) && t.raw == g { ElementExactly(g, t); }
  }

  lemma {:induction false} SubtreeNamesExactly(ts: seq<Tlv>, ns: seq<GeneralName>)
    ensures SubtreeNames(ts) == Some(ns) <==> |ts| == |ns| && forall i :: 0 <= i < |ts| ==> SubtreeName(ts[i]) == Some(ns[i])
  {
    hide SubtreeName;
    if ts != [] {
      var front := ts[..|ts| - 1];
      if SubtreeNames(ts) == Some(ns) {
        SubtreeNamesExactly(front, SubtreeNames(front).value);
      } else if |ts| == |ns| {
        SubtreeNamesExactly(front, ns[..|ns| - 1]);
        assert ns == ns[..|ns| - 1] + [ns[|ns| - 1]];
        assert SubtreeNames(front) == Some(ns[..|ns| - 1]) ==> SubtreeName(ts[|ts| - 1]) != Some(ns[|ns| - 1]);
      }
    }
  }

  /** One subtree or more, each with its name. */
  ghost predicate HoldsSubtrees(v: Input, ns: seq<GeneralName>) {
    exists ts: seq<Tlv> :: |ts| == |ns| > 0 && v == Raws(ts) && forall i :: 0 <= i < |ts| ==> IsElement(ts[i]) && HoldsSubtree(ts[i], ns[i])
  }

  lemma SubtreesExactly(v: Input, ns: seq<GeneralName>)
    ensures SubtreesOf(v) == Some(ns) <==> HoldsSubtrees(v, ns)
  {
    hide Elements, IsElement, HoldsSubtree, SubtreeName, SubtreeNames;
    forall t, n ensures SubtreeName(t) == Some(n) <==> HoldsSubtree(t, n) { SubtreeExactly(t, n); }
    if SubtreesOf(v) == Some(ns) {
      var ts := Elements(v).value;
      ElementsExactly(v, ts);
      SubtreeNamesExactly(ts, ns);
      assert ts == [] ==> Raws(ts) == [];
    }
    if ts: seq<Tlv> :| |ts| == |ns| > 0 && v == Raws(ts) && forall i :: 0 <= i < |ts| ==> IsElement(ts[i]) && HoldsSubtree(ts[i], ns[i]) {
      ElementsExactly(v, ts);
      SubtreeNamesExactly(ts, ns);
      NotEmpty(ts);
    }
  }

  /** A field of the extension, written only when it is there. */
  function OptionalField(octet: byte, v: Option<Input>): Option<Input> {
    if v.None? then Some([]) else if |v.value| < LENGTH_LIMIT then Some(Field(octet, v.value)) else None
  }

  ghost predicate FieldHolds(v: Option<Input>, ns: seq<GeneralName>) {
    if v.None? then ns == [] else HoldsSubtrees(v.value, ns)
  }

  /** The octets of an extension with these fields. */
  function ExtensionOctets(p: Option<Input>, x: Option<Input>): Option<Input> {
    var f, g := OptionalField(0xa0, p), OptionalField(0xa1, x);
    if f.None? || g.None? || |f.value + g.value| >= LENGTH_LIMIT then None else Some(Field(0x30, f.value + g.value))
  }

  /** An optional element is there exactly when the octets start with it. */
  lemma OptionalExactly(s: Input, tag: nat, octet: byte, v: Option<Input>, rest: Input)
    requires tag % CONSTRUCTED < 31 && tag / CONSTRUCTED < 8 && octet == 32 * (tag / CONSTRUCTED) + tag % CONSTRUCTED
    requires octet != 0 && octet != 32
    ensures Optional(s, tag) == (v, rest) <==>
            && OptionalField(octet, v).Some? && s == OptionalField(octet, v).value + rest
            && (v.None? ==> forall w :: !StartsWith(s, octet, w))
  {
    hide ReadElement, Field;
    Forms(s, octet, tag);
    if v.Some? && |v.value| < LENGTH_LIMIT && s == Field(octet, v.value) + rest {
      assert StartsWith(s, octet, v.value);
      assert s[|Field(octet, v.value)|..] == rest;
      FieldNotEmpty(octet, v.value);
    }
    if v.None? { assert [] + rest == rest; }
  }

  lemma FieldNotEmpty(octet: byte, v: Input)
    requires |v| < LENGTH_LIMIT
    ensures Field(octet, v) != [] && Field(octet, v)[0] == octet
  {
  }

  /** What an extension holds: a sequence of a permitted field, an excluded one, or both, and nothing else. */
  ghost predicate HoldsExtension(extension: Input, p: Option<Input>, x: Option<Input>,
                                 permitted: seq<GeneralName>, excluded: seq<GeneralName>)
  {
    && (p.Some? || x.Some?) && ExtensionOctets(p, x) == Some(extension)
    && FieldHolds(p, permitted) && FieldHolds(x, excluded)
  }

  /** NameConstraints::Parse reads exactly these octets, as these names. */
  lemma ExtensionNamesExactly(extension: Input, permitted: seq<GeneralName>, excluded: seq<GeneralName>)
    ensures ExtensionNames(extension) == Some((permitted, excluded)) <==>
            exists p, x :: HoldsExtension(extension, p, x, permitted, excluded)
  {
    hide ReadElement, Field, SubtreesOf, HoldsSubtrees, OptionalField, Optional, StartsWith;
    forall v, ns ensures SubtreesOf(v) == Some(ns) <==> HoldsSubtrees(v, ns) { SubtreesExactly(v, ns); }
    if ExtensionNames(extension) == Some((permitted, excluded)) {
      var body := ReadElement(extension).value.value;
      var f := Optional(body, CONTEXT_SPECIFIC + CONSTRUCTED + 0);
      var g := Optional(f.1, CONTEXT_SPECIFIC + CONSTRUCTED + 1);
      OptionalExactly(body, CONTEXT_SPECIFIC + CONSTRUCTED + 0, 0xa0, f.0, f.1);
      OptionalExactly(f.1, CONTEXT_SPECIFIC + CONSTRUCTED + 1, 0xa1, g.0, g.1);
      Forms(extension, 0x30, SEQUENCE);
      assert f.1 == OptionalField(0xa1, g.0).value + [] == OptionalField(0xa1, g.0).value;
      assert HoldsExtension(extension, f.0, g.0, permitted, excluded);
    }
    if p, x :| HoldsExtension(extension, p, x, permitted, excluded) {
      var body := OptionalField(0xa0, p).value + OptionalField(0xa1, x).value;
      WholeField(extension, body);
      FieldsApart(p, x);
      OptionalExactly(body, CONTEXT_SPECIFIC + CONSTRUCTED + 0, 0xa0, p, OptionalField(0xa1, x).value);
      assert OptionalField(0xa1, x).value == OptionalField(0xa1, x).value + [];
      OptionalExactly(OptionalField(0xa1, x).value, CONTEXT_SPECIFIC + CONSTRUCTED + 1, 0xa1, x, []);
    }
  }

  lemma WholeField(s: Input, body: Input)
    requires |body| < LENGTH_LIMIT && s == Field(0x30, body)
    ensures NextIs(s, SEQUENCE, 0x30, body)
  {
    hide ReadElement, Field;
    Reads(s, SEQUENCE, 0x30, body);
  }

  /** The second field is not taken for the first. */
  lemma FieldsApart(p: Option<Input>, x: Option<Input>)
    requires OptionalField(0xa0, p).Some? && OptionalField(0xa1, x).Some?
    ensures p.None? ==> forall w :: !StartsWith(OptionalField(0xa0, p).value + OptionalField(0xa1, x).value, 0xa0, w)
    ensures x.None? ==> forall w :: !StartsWith(OptionalField(0xa1, x).value, 0xa1, w)
  {
    forall w | |w| < LENGTH_LIMIT ensures Field(0xa0, w)[0] == 0xa0 && Field(0xa1, w)[0] == 0xa1 {
      FieldNotEmpty(0xa0, w);
      FieldNotEmpty(0xa1, w);
    }
    if x.Some? { FieldNotEmpty(0xa1, x.value); }
    if p.None? { assert OptionalField(0xa0, p).value + OptionalField(0xa1, x).value == OptionalField(0xa1, x).value; }
  }
}
