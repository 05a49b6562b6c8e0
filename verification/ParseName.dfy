/** Distinguished names and their RFC 2253 text (pki/parse_name.cc). */
module ParseName {
  import opened Bytes
  import opened Der
  import opened OidText
  import opened Strings
  import opened Wrappers

  datatype X509NameAttribute = X509NameAttribute(typ: Input, valueTag: nat, value: Input)

  type RelativeDistinguishedName = seq<X509NameAttribute>
  type RDNSequence = seq<RelativeDistinguishedName>

  const COMMON_NAME: Input := [0x55, 0x04, 0x03]
  const SURNAME: Input := [0x55, 0x04, 0x04]
  const COUNTRY_NAME: Input := [0x55, 0x04, 0x06]
  const LOCALITY_NAME: Input := [0x55, 0x04, 0x07]
  const STATE_OR_PROVINCE_NAME: Input := [0x55, 0x04, 0x08]
  const ORGANIZATION_NAME: Input := [0x55, 0x04, 0x0a]
  const ORGANIZATION_UNIT_NAME: Input := [0x55, 0x04, 0x0b]
  const GIVEN_NAME: Input := [0x55, 0x04, 0x2a]
  const EMAIL_ADDRESS: Input := [0x2a, 0x86, 0x48, 0x86, 0xf7, 0x0d, 0x01, 0x09, 0x01]

  /** The conversions of the wide string types to octets, which this module only calls. */
  datatype Conversions = Conversions(universal: Input -> Option<Input>, bmp: Input -> Option<Input>)

  /** The short name of an attribute type, empty when the type has none. */
  function KnownName(typ: Input): string {
    if typ == COMMON_NAME then "CN"
    else if typ == SURNAME then "SN"
    else if typ == COUNTRY_NAME then "C"
    else if typ == LOCALITY_NAME then "L"
    else if typ == STATE_OR_PROVINCE_NAME then "ST"
    else if typ == ORGANIZATION_NAME then "O"
    else if typ == ORGANIZATION_UNIT_NAME then "OU"
    else if typ == GIVEN_NAME then "givenName"
    else if typ == EMAIL_ADDRESS then "emailAddress"
    else ""
  }

  /** ValueAsStringUnsafe. */
  function ValueAsString(a: X509NameAttribute, conv: Conversions): Option<Input> {
    if a.valueTag in {IA5STRING, PRINTABLESTRING, T61STRING, UTF8STRING} then Some(a.value)
    else if a.valueTag == UNIVERSALSTRING then conv.universal(a.value)
    else if a.valueTag == BMPSTRING then conv.bmp(a.value)
    else None
  }

  // ----- the text of one value

  predicate IsSpecial(c: byte) {
    c as char in {',', '+', '\"', '\\', '<', '>', ';'}
  }

  predicate IsPrintable(c: byte) {
    32 <= c <= 126
  }

  predicate Printable(v: Input) {
    forall i :: 0 <= i < |v| ==> IsPrintable(v[i])
  }

  function EscapedOctet(c: byte, first: bool, last: bool): string {
    if (first && (c as char == '#' || c as char == ' ')) || (last && c as char == ' ') || IsSpecial(c) then ['\\', c as char]
    else if !IsPrintable(c) then "\\" + HexEncode([c])
    else [c as char]
  }

  /** The text of the octets from position i on. */
  function Escape(v: Input, i: nat): string
    requires i <= |v|
    decreases |v| - i
  {
    if i == |v| then "" else EscapedOctet(v[i], i == 0, i == |v| - 1) + Escape(v, i + 1)
  }

  /** The text of an attribute value: escaped, or in hexadecimal when it cannot be shown. */
  function ValueText(a: X509NameAttribute, conv: Conversions): Option<string> {
    if KnownName(a.typ) == "" then Some("#" + HexEncode(a.value))
    else
      var v := ValueAsString(a, conv);
      if v.None? then None
      else if a.valueTag == T61STRING && !Printable(v.value) then Some("#" + HexEncode(a.value))
      else Some(Escape(v.value, 0))
  }

  function TypeText(typ: Input): Option<string> {
    if KnownName(typ) == "" then OidToText(typ) else Some(KnownName(typ))
  }

  function AttributeText(a: X509NameAttribute, conv: Conversions): Option<string> {
    var typ, value := TypeText(a.typ), ValueText(a, conv);
    if typ.None? || value.None? then None else Some(typ.value + "=" + value.value)
  }

  // ----- printing

  lemma EscapeStep(v: Input, i: nat, text: string)
    requires i < |v|
    ensures text + Escape(v, i) == (text + EscapedOctet(v[i], i == 0, i == |v| - 1)) + Escape(v, i + 1)
    ensures Printable(v[..i + 1]) <==> Printable(v[..i]) && IsPrintable(v[i])
  {
    hide EscapedOctet, IsPrintable;
    assert v[..i + 1] == v[..i] + [v[i]];
    if Printable(v[..i + 1]) { assert IsPrintable(v[..i + 1][i]); }
  }

  method EscapeValue(unescaped: Input) returns (text: string, nonprintable: bool)
    ensures text == Escape(unescaped, 0)
    ensures nonprintable <==> !Printable(unescaped)
  {
    assert Escape(unescaped, |unescaped|) == "";
    hide Escape, HexEncode;
    text, nonprintable := "", false;
    for i := 0 to |unescaped|
      invariant text + Escape(unescaped, i) == Escape(unescaped, 0)
      invariant nonprintable <==> !Printable(unescaped[..i])
    {
      hide Printable;
      EscapeStep(unescaped, i, text);
      var c := unescaped[i];
      var piece: string;
      if (i == 0 && (c as char == '#' || c as char == ' ')) || (i == |unescaped| - 1 && c as char == ' ') {
        piece := ['\\', c as char];
      } else if IsSpecial(c) {
        piece := ['\\', c as char];
      } else if c < 32 || c > 126 {
        nonprintable := true;
        piece := "\\" + HexEncode([c]);
      } else {
        piece := [c as char];
      }
      assert piece == EscapedOctet(c, i == 0, i == |unescaped| - 1);
      hide EscapedOctet;
      text := text + piece;
    }
    assert unescaped[..|unescaped|] == unescaped;
  }

  method AsRFC2253String(a: X509NameAttribute, conv: Conversions) returns (r: Option<string>)
    ensures r == AttributeText(a, conv)
  {
    hide Escape, HexEncode, OidToText;
    var typeString := KnownName(a.typ);
    var valueString := "";
    if typeString == "" {
      var t := OidToText(a.typ);
      if t.None? { return None; }
      typeString := t.value;
      valueString := "#" + HexEncode(a.value);
    }
    if valueString == "" {
      var unescaped := ValueAsString(a, conv);
      if unescaped.None? { return None; }
      var nonprintable;
      valueString, nonprintable := EscapeValue(unescaped.value);
      if nonprintable && a.valueTag == T61STRING {
        valueString := "#" + HexEncode(a.value);
      }
    }
    return Some(typeString + "=" + valueString);
  }

  /** Adds a piece, behind a separator unless there is no text yet. */
  function Append(text: string, sep: char, piece: string): string {
    (if text == "" then "" else text + [sep]) + piece
  }

  function RdnText(rdn: RelativeDistinguishedName, conv: Conversions): Option<string> {
    if rdn == [] then Some("")
    else
      var text := RdnText(rdn[..|rdn| - 1], conv);
      var piece := AttributeText(rdn[|rdn| - 1], conv);
      if text.None? || piece.None? then None else Some(Append(text.value, '+', piece.value))
  }

  /** The last RDN comes first. */
  function NameText(name: RDNSequence, conv: Conversions): Option<string> {
    if name == [] then Some("")
    else
      var text, piece := NameText(name[1..], conv), RdnText(name[0], conv);
      if text.None? || piece.None? then None else Some(Append(text.value, ',', piece.value))
  }

  lemma {:induction false} RdnFails(rdn: RelativeDistinguishedName, i: nat, conv: Conversions)
    requires i < |rdn| && AttributeText(rdn[i], conv).None?
    ensures RdnText(rdn, conv).None?
    decreases |rdn|
  {
    if i < |rdn| - 1 { RdnFails(rdn[..|rdn| - 1], i, conv); }
  }

  lemma {:induction false} NameFails(name: RDNSequence, i: nat, conv: Conversions)
    requires i < |name| && RdnText(name[i], conv).None?
    ensures NameText(name, conv).None?
  {
    if i > 0 { NameFails(name[1..], i - 1, conv); }
  }

  method ConvertRdn(rdn: RelativeDistinguishedName, conv: Conversions) returns (r: Option<string>)
    ensures r == RdnText(rdn, conv)
  {
    hide AttributeText;
    var rdnString := "";
    for k := 0 to |rdn|
      invariant RdnText(rdn[..k], conv) == Some(rdnString)
    {
      assert rdn[..k + 1][..k] == rdn[..k];
      if rdnString != "" {
        rdnString := rdnString + "+";
      }
      var atv := AsRFC2253String(rdn[k], conv);
      if atv.None? {
        RdnFails(rdn, k, conv);
        return None;
      }
      rdnString := rdnString + atv.value;
    }
    assert rdn[..|rdn|] == rdn;
    return Some(rdnString);
  }

  method ConvertToRFC2253(name: RDNSequence, conv: Conversions) returns (r: Option<string>)
    ensures r == NameText(name, conv)
  {
    hide RdnText;
    var rdnsString := "";
    var size := |name|;
    for i := 0 to size
      invariant NameText(name[size - i..], conv) == Some(rdnsString)
    {
      var rdn := name[size - i - 1];
      assert name[size - i - 1..][1..] == name[size - i..];
      var rdnString := ConvertRdn(rdn, conv);
      if rdnString.None? {
        NameFails(name, size - i - 1, conv);
        return None;
      }
      if rdnsString != "" {
        rdnsString := rdnsString + ",";
      }
      rdnsString := rdnsString + rdnString.value;
    }
    return Some(rdnsString);
  }

  // ----- parsing

  /** The contents of an AttributeTypeAndValue: an object identifier, one more element, and nothing else. */
  function AttributeOf(v: Input): Option<X509NameAttribute> {
    var es := Elements(v);
    if es.None? || |es.value| != 2 || es.value[0].tag != OBJECT then None
    else Some(X509NameAttribute(es.value[0].value, es.value[1].tag, es.value[1].value))
  }

  function RdnElement(t: Tlv): Option<X509NameAttribute> {
    if t.tag == SEQUENCE then AttributeOf(t.value) else None
  }

  /** The contents of a set: one attribute or more. */
  function RdnOf(v: Input): (r: Option<RelativeDistinguishedName>)
    ensures r.Some? ==> r.value != []
  {
    var r := ReadList(v, RdnElement);
    if r == Some([]) then None else r
  }

  function NameElement(t: Tlv): (r: Option<RelativeDistinguishedName>)
    ensures r.Some? ==> r.value != []
  {
    if t.tag == SET then RdnOf(t.value) else None
  }

  function NameOf(v: Input): (r: Option<RDNSequence>)
    ensures r.Some? ==> forall i :: 0 <= i < |r.value| ==> r.value[i] != []
  {
    ReadList(v, NameElement)
  }

  method ReadAttribute(parser: Parser) returns (r: Option<X509NameAttribute>)
    modifies parser
    ensures r == AttributeOf(old(parser.rest))
  {
    hide ReadElement;
    ghost var s := parser.rest;
    ReadNothing(s);
    var ok, typ := parser.ReadTag(OBJECT);
    if !ok {
      if ReadElement(s).Some? { ElementsStep(s, ReadElement(s).value); }
      return None;
    }
    ghost var first := ReadElement(s).value;
    ReadOneMore(s, [], s, first);
    assert [] + [first] == [first] && s[|first.raw|..] == parser.rest;
    ghost var s' := parser.rest;
    var tag, value;
    ok, tag, value := parser.ReadTagAndValue();
    if !ok {
      if s' == [] { ReadAllOf(s, [first]); } else { ReadStuck(s, [first], s'); }
      return None;
    }
    ghost var second := ReadElement(s').value;
    ReadOneMore(s, [first], s', second);
    assert [first] + [second] == [first, second] && s'[|second.raw|..] == parser.rest;
    if parser.HasMore() {
      if Elements(parser.rest).Some? { assert Elements(parser.rest).value != []; }
      return None;
    }
    ReadAllOf(s, [first, second]);
    return Some(X509NameAttribute(typ, tag, value));
  }

  method ReadRdn(parser: Parser) returns (r: Option<RelativeDistinguishedName>)
    modifies parser
    ensures r == RdnOf(old(parser.rest))
  {
    hide ReadElement, AttributeOf, AllOf;
    ghost var s := parser.rest;
    ghost var done: seq<Tlv> := [];
    var out: RelativeDistinguishedName := [];
    ReadNothing(s);
    assert AllOf([], RdnElement) == Some([]);
    while parser.HasMore()
      invariant ReadSoFar(s, done, parser.rest)
      invariant AllOf(done, RdnElement) == Some(out)
      decreases |parser.rest|
    {
      ghost var rest := parser.rest;
      var ok, inner := parser.ReadSequence();
      if !ok {
        ListStops(s, done, rest, RdnElement);
        return None;
      }
      var attribute := ReadAttribute(inner);
      if attribute.None? {
        ListStops(s, done, rest, RdnElement);
        return None;
      }
      ghost var t := ReadElement(rest).value;
      ListOneMore(s, done, rest, RdnElement, out);
      assert rest[|t.raw|..] == parser.rest;
      out := out + [attribute.value];
      done := done + [t];
    }
    ReadAllOf(s, done);
    if out == [] { return None; }
    return Some(out);
  }

  /** ParseNameValue accepts sequences of sets of attributes, none of the sets empty. */
  method ParseNameValue(nameValue: Input) returns (r: Option<RDNSequence>)
    ensures r == NameOf(nameValue)
    ensures r.Some? ==> forall i :: 0 <= i < |r.value| ==> r.value[i] != []
  {
    hide ReadElement, RdnOf, AllOf;
    var parser := new Parser(nameValue);
    ghost var done: seq<Tlv> := [];
    var out: RDNSequence := [];
    ReadNothing(nameValue);
    assert AllOf([], NameElement) == Some([]);
    while parser.HasMore()
      invariant ReadSoFar(nameValue, done, parser.rest)
      invariant AllOf(done, NameElement) == Some(out)
      decreases |parser.rest|
    {
      ghost var rest := parser.rest;
      var ok, inner := parser.ReadConstructed(SET);
      if !ok {
        ListStops(nameValue, done, rest, NameElement);
        return None;
      }
      var rdn := ReadRdn(inner);
      if rdn.None? {
        ListStops(nameValue, done, rest, NameElement);
        return None;
      }
      ghost var t := ReadElement(rest).value;
      ListOneMore(nameValue, done, rest, NameElement, out);
      assert rest[|t.raw|..] == parser.rest;
      out := out + [rdn.value];
      done := done + [t];
    }
    ReadAllOf(nameValue, done);
    return Some(out);
  }
}
