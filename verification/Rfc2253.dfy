/** Reading RFC 2253 text back: printing a name with ConvertToRFC2253 loses nothing. */
module Rfc2253 {
  import opened Bytes
  import opened OidText
  import opened ParseName
  import opened Strings
  import opened Wrappers

  /** What a decoder returns: what it read, and the text behind it. */
  datatype Decoded<+T> = Decoded(value: T, rest: string)

  datatype Attribute = Attribute(typ: Input, value: Input)

  // ----- values

  predicate IsHex(c: char) {
    '0' <= c <= '9' || 'A' <= c <= 'F' || 'a' <= c <= 'f'
  }

  function HexNumber(c: char): (n: nat)
    requires IsHex(c)
    ensures n < 16
  {
    if c <= '9' then c as int - '0' as int
    else if c <= 'F' then c as int - 'A' as int + 10
    else c as int - 'a' as int + 10
  }

  /** Octets written as pairs of hexadecimal digits. */
  function Unhex(s: string): (d: Decoded<Input>)
    ensures |d.rest| <= |s|
    decreases |s|
  {
    if |s| >= 2 && IsHex(s[0]) && IsHex(s[1]) then
      var more := Unhex(s[2..]);
      Decoded([16 * HexNumber(s[0]) + HexNumber(s[1])] + more.value, more.rest)
    else Decoded([], s)
  }

  predicate AtEnd(s: string) {
    s == "" || s[0] == ',' || s[0] == '+'
  }

  function OctetOf(c: char): byte {
    c as int % 256
  }

  /** Octets up to a separator that is not escaped (sections 2.4 and 3 of RFC 2253). */
  function Unescape(s: string): (d: Decoded<Input>)
    ensures |d.rest| <= |s|
    decreases |s|
  {
    if AtEnd(s) then Decoded([], s)
    else if s[0] == '\\' && |s| >= 3 && IsHex(s[1]) && IsHex(s[2]) then
      var more := Unescape(s[3..]);
      Decoded([16 * HexNumber(s[1]) + HexNumber(s[2])] + more.value, more.rest)
    else if s[0] == '\\' && |s| >= 2 then
      var more := Unescape(s[2..]);
      Decoded([OctetOf(s[1])] + more.value, more.rest)
    else
      var more := Unescape(s[1..]);
      Decoded([OctetOf(s[0])] + more.value, more.rest)
  }

  function DecodeValue(s: string): (d: Decoded<Input>)
    ensures |d.rest| <= |s|
  {
    if s != "" && s[0] == '#' then Unhex(s[1..]) else Unescape(s)
  }

  lemma HexDigitNumber(d: nat)
    requires d < 16
    ensures IsHex(HexDigit(d)) && HexNumber(HexDigit(d)) == d
  {
  }

  lemma HexPair(c: byte)
    ensures var hi, lo := HexDigit(c / 16), HexDigit(c % 16);
            IsHex(hi) && IsHex(lo) && 16 * HexNumber(hi) + HexNumber(lo) == c
  {
    hide HexDigit, HexNumber, IsHex;
    HexDigitNumber(c / 16);
    HexDigitNumber(c % 16);
  }

  lemma {:induction false} UnhexEncoded(v: Input, rest: string)
    requires rest == "" || !IsHex(rest[0])
    ensures Unhex(HexEncode(v) + rest) == Decoded(v, rest)
  {
    hide HexDigit, HexNumber, IsHex;
    if v == [] {
      assert HexEncode(v) + rest == rest;
    } else {
      HexPair(v[0]);
      UnhexEncoded(v[1..], rest);
      var pair, tail := [HexDigit(v[0] / 16), HexDigit(v[0] % 16)], HexEncode(v[1..]) + rest;
      assert HexEncode(v) + rest == pair + tail;
      assert (pair + tail)[2..] == tail;
      assert [v[0]] + v[1..] == v;
    }
  }

  lemma OneOctetHex(c: byte)
    ensures HexEncode([c]) == [HexDigit(c / 16), HexDigit(c % 16)]
  {
    assert [c][1..] == [];
  }

  lemma UnescapePlain(c: char, s: string)
    requires c !in {',', '+', '\\'} && c as int < 256
    ensures Unescape([c] + s) == Decoded([c as int] + Unescape(s).value, Unescape(s).rest)
  {
    hide IsHex, HexNumber;
    assert ([c] + s)[1..] == s;
  }

  lemma UnescapeQuoted(c: char, s: string)
    requires !IsHex(c) && c as int < 256
    ensures Unescape(['\\', c] + s) == Decoded([c as int] + Unescape(s).value, Unescape(s).rest)
  {
    hide IsHex, HexNumber;
    assert (['\\', c] + s)[2..] == s;
  }

  lemma UnescapePair(c: byte, s: string)
    ensures Unescape(['\\', HexDigit(c / 16), HexDigit(c % 16)] + s) == Decoded([c] + Unescape(s).value, Unescape(s).rest)
  {
    hide IsHex, HexNumber, HexDigit;
    HexPair(c);
    var text := ['\\', HexDigit(c / 16), HexDigit(c % 16)] + s;
    assert text[0] == '\\' && text[1] == HexDigit(c / 16) && text[2] == HexDigit(c % 16) && text[3..] == s;
  }

  /** Reading one escaped octet gives the octet, whichever way it was written. */
  lemma UnescapeOctet(c: byte, first: bool, last: bool, s: string)
    ensures Unescape(EscapedOctet(c, first, last) + s) == Decoded([c] + Unescape(s).value, Unescape(s).rest)
  {
    hide HexEncode, HexDigit, Unescape;
    if EscapedOctet(c, first, last) == ['\\', c as char] {
      UnescapeQuoted(c as char, s);
    } else if !IsPrintable(c) {
      OneOctetHex(c);
      assert EscapedOctet(c, first, last) == ['\\', HexDigit(c / 16), HexDigit(c % 16)];
      UnescapePair(c, s);
    } else {
      UnescapePlain(c as char, s);
    }
  }

  lemma {:induction false} UnescapeEscaped(v: Input, i: nat, rest: string)
    requires i <= |v| && AtEnd(rest)
    ensures Unescape(Escape(v, i) + rest) == Decoded(v[i..], rest)
    decreases |v| - i
  {
    hide EscapedOctet;
    if i == |v| {
      assert Escape(v, i) + rest == rest;
    } else {
      var head := EscapedOctet(v[i], i == 0, i == |v| - 1);
      assert Escape(v, i) + rest == head + (Escape(v, i + 1) + rest);
      UnescapeOctet(v[i], i == 0, i == |v| - 1, Escape(v, i + 1) + rest);
      UnescapeEscaped(v, i + 1, rest);
      assert v[i..] == [v[i]] + v[i + 1..];
    }
  }

  /** Escaped text never looks like hexadecimal text. */
  lemma EscapedIsNotHex(v: Input, rest: string)
    requires AtEnd(rest)
    ensures var s := Escape(v, 0) + rest; s == "" || s[0] != '#'
  {
    if v != [] {
      assert (Escape(v, 0) + rest)[0] == EscapedOctet(v[0], true, |v| == 1)[0];
    }
  }

  /** The octets that printing keeps: the raw ones for a type without a name. */
  function Content(a: X509NameAttribute, conv: Conversions): Attribute {
    var v := ValueAsString(a, conv);
    Attribute(a.typ, if KnownName(a.typ) == "" || v.None? then a.value else v.value)
  }

  lemma ValueRoundTrip(a: X509NameAttribute, conv: Conversions, rest: string)
    requires ValueText(a, conv).Some? && AtEnd(rest)
    ensures DecodeValue(ValueText(a, conv).value + rest) == Decoded(Content(a, conv).value, rest)
  {
    hide HexEncode, Unhex, Unescape, Escape;
    var text := ValueText(a, conv).value;
    if text == "#" + HexEncode(a.value) && Content(a, conv).value == a.value {
      assert (text + rest)[1..] == HexEncode(a.value) + rest;
      UnhexEncoded(a.value, rest);
    } else {
      var v := ValueAsString(a, conv).value;
      EscapedIsNotHex(v, rest);
      UnescapeEscaped(v, 0, rest);
      assert v[0..] == v;
    }
  }

  // ----- attributes

  function TypeOf(text: string): Input {
    if text == "CN" then COMMON_NAME
    else if text == "SN" then SURNAME
    else if text == "C" then COUNTRY_NAME
    else if text == "L" then LOCALITY_NAME
    else if text == "ST" then STATE_OR_PROVINCE_NAME
    else if text == "O" then ORGANIZATION_NAME
    else if text == "OU" then ORGANIZATION_UNIT_NAME
    else if text == "givenName" then GIVEN_NAME
    else if text == "emailAddress" then EMAIL_ADDRESS
    else TextToOid(text)
  }

  function DecodeAttribute(s: string): (d: Decoded<Attribute>)
    ensures d.rest == "" || |d.rest| < |s|
  {
    var p := Find(s, '=');
    if p == |s| then Decoded(Attribute([], []), "")
    else
      var d := DecodeValue(s[p + 1..]);
      Decoded(Attribute(TypeOf(s[..p]), d.value), d.rest)
  }

  /** Names and dotted numbers never collide, and neither holds the sign that ends them. */
  lemma TypeRoundTrip(typ: Input)
    requires TypeText(typ).Some?
    ensures TypeOf(TypeText(typ).value) == typ && '=' !in TypeText(typ).value
  {
    hide OidToText, TextToOid;
    if KnownName(typ) == "" {
      OidRoundTrip(typ);
      OidTextChars(typ);
    }
  }

  lemma AttributeRoundTrip(a: X509NameAttribute, conv: Conversions, rest: string)
    requires AttributeText(a, conv).Some? && AtEnd(rest)
    ensures AttributeText(a, conv).value != ""
    ensures DecodeAttribute(AttributeText(a, conv).value + rest) == Decoded(Content(a, conv), rest)
  {
    hide TypeText, ValueText, TypeOf, DecodeValue, Find;
    var typ, value := TypeText(a.typ).value, ValueText(a, conv).value;
    TypeRoundTrip(a.typ);
    ValueRoundTrip(a, conv, rest);
    var s := AttributeText(a, conv).value + rest;
    assert s == typ + ['='] + (value + rest);
    FindAt(typ, '=', value + rest);
    assert s[..|typ|] == typ && s[|typ| + 1..] == value + rest;
  }

  // ----- relative distinguished names

  function DecodeRdn(s: string): (d: Decoded<seq<Attribute>>)
    ensures d.value != [] && (d.rest == "" || |d.rest| < |s|)
    decreases |s|
  {
    var d := DecodeAttribute(s);
    if d.rest != "" && d.rest[0] == '+' then
      var more := DecodeRdn(d.rest[1..]);
      Decoded([d.value] + more.value, more.rest)
    else Decoded([d.value], d.rest)
  }

  function RdnContent(rdn: RelativeDistinguishedName, conv: Conversions): seq<Attribute> {
    if rdn == [] then [] else [Content(rdn[0], conv)] + RdnContent(rdn[1..], conv)
  }

  /** Text built from the left is the first attribute, a plus sign, and the rest. */
  lemma {:induction false} RdnTextCons(rdn: RelativeDistinguishedName, conv: Conversions)
    requires |rdn| >= 2 && RdnText(rdn, conv).Some?
    ensures AttributeText(rdn[0], conv).Some? && RdnText(rdn[1..], conv).Some?
    ensures RdnText(rdn, conv).value == AttributeText(rdn[0], conv).value + "+" + RdnText(rdn[1..], conv).value
    decreases |rdn|
  {
    hide AttributeText;
    var init := rdn[..|rdn| - 1];
    assert rdn[1..][..|rdn| - 2] == init[1..];
    RdnNotEmpty(init, conv);
    if |rdn| == 2 {
      assert init[1..] == [] && init[..0] == [];
    } else {
      RdnTextCons(init, conv);
      RdnNotEmpty(init[1..], conv);
    }
  }

  lemma {:induction false} RdnNotEmpty(rdn: RelativeDistinguishedName, conv: Conversions)
    requires rdn != [] && RdnText(rdn, conv).Some?
    ensures RdnText(rdn, conv).value != ""
  {
    AttributeRoundTrip(rdn[|rdn| - 1], conv, "");
  }

  lemma {:induction false} RdnRoundTrip(rdn: RelativeDistinguishedName, conv: Conversions, rest: string)
    requires rdn != [] && RdnText(rdn, conv).Some? && (rest == "" || rest[0] == ',')
    ensures DecodeRdn(RdnText(rdn, conv).value + rest) == Decoded(RdnContent(rdn, conv), rest)
    decreases |rdn|
  {
    hide AttributeText, DecodeAttribute, Content;
    var s := RdnText(rdn, conv).value + rest;
    if |rdn| == 1 {
      assert rdn[..0] == [] && rdn[1..] == [];
      AttributeRoundTrip(rdn[0], conv, rest);
      assert s == AttributeText(rdn[0], conv).value + rest;
      assert RdnContent(rdn, conv) == [Content(rdn[0], conv)];
    } else {
      RdnTextCons(rdn, conv);
      var tail := RdnText(rdn[1..], conv).value + rest;
      assert s == AttributeText(rdn[0], conv).value + ("+" + tail);
      AttributeRoundTrip(rdn[0], conv, "+" + tail);
      assert ("+" + tail)[1..] == tail;
      RdnRoundTrip(rdn[1..], conv, rest);
    }
  }

  // ----- whole names

  /** The text starts with the last RDN. */
  function Decode(s: string): seq<seq<Attribute>>
    decreases |s|
  {
    if s == "" then []
    else
      var d := DecodeRdn(s);
      if d.rest != "" && d.rest[0] == ',' then Decode(d.rest[1..]) + [d.value] else [d.value]
  }

  function Contents(name: RDNSequence, conv: Conversions): (r: seq<seq<Attribute>>)
    ensures |r| == |name| && forall i :: 0 <= i < |name| ==> r[i] == RdnContent(name[i], conv)
  {
    seq(|name|, i requires 0 <= i < |name| => RdnContent(name[i], conv))
  }

  ghost predicate NoEmptyRdn(name: RDNSequence) {
    forall i :: 0 <= i < |name| ==> name[i] != []
  }

  lemma {:induction false} NameTextSnoc(name: RDNSequence, conv: Conversions)
    requires |name| >= 2 && NoEmptyRdn(name) && NameText(name, conv).Some?
    ensures var init, last := name[..|name| - 1], name[|name| - 1];
            && NameText(init, conv).Some? && RdnText(last, conv).Some?
            && NameText(name, conv).value == RdnText(last, conv).value + "," + NameText(init, conv).value
  {
    hide RdnText;
    var init, last := name[..|name| - 1], name[|name| - 1];
    assert init[1..] == name[1..][..|name| - 2];
    if |name| == 2 {
      assert name[1..] == [last] && [last][1..] == [] && init[1..] == [];
      RdnNotEmpty(last, conv);
    } else {
      NameTextSnoc(name[1..], conv);
      NameNotEmpty(init[1..], conv);
      var t, m, h := RdnText(last, conv).value, NameText(init[1..], conv).value, RdnText(name[0], conv).value;
      assert (t + "," + m) + "," + h == t + "," + (m + "," + h);
    }
  }

  lemma {:induction false} NameNotEmpty(name: RDNSequence, conv: Conversions)
    requires name != [] && NoEmptyRdn(name) && NameText(name, conv).Some?
    ensures NameText(name, conv).value != ""
  {
    RdnNotEmpty(name[0], conv);
  }

  /** Printing loses nothing: the text gives back every RDN, type and value, when no RDN is empty. */
  lemma {:induction false} NameRoundTrip(name: RDNSequence, conv: Conversions)
    requires NoEmptyRdn(name) && NameText(name, conv).Some?
    ensures Decode(NameText(name, conv).value) == Contents(name, conv)
    decreases |name|
  {
    hide RdnText, DecodeRdn, RdnContent;
    if name != [] {
      var s := NameText(name, conv).value;
      var init, last := name[..|name| - 1], name[|name| - 1];
      NameNotEmpty(name, conv);
      if |name| == 1 {
        assert name[1..] == [];
        RdnRoundTrip(last, conv, "");
        assert s == RdnText(last, conv).value == s + "";
        assert Contents(name, conv) == [RdnContent(last, conv)];
      } else {
        NameTextSnoc(name, conv);
        var tail := NameText(init, conv).value;
        RdnRoundTrip(last, conv, "," + tail);
        assert s == RdnText(last, conv).value + ("," + tail);
        assert ("," + tail)[1..] == tail;
        NameRoundTrip(init, conv);
      }
    }
  }

  lemma {:induction false} DecodedNotEmpty(s: string, i: nat)
    requires i < |Decode(s)|
    ensures Decode(s)[i] != []
    decreases |s|
  {
    var d := DecodeRdn(s);
    if d.rest != "" && d.rest[0] == ',' && i < |Decode(d.rest[1..])| {
      DecodedNotEmpty(d.rest[1..], i);
    }
  }

  /** The names that survive printing are exactly those without an empty RDN. */
  lemma NameRoundTripExact(name: RDNSequence, conv: Conversions)
    requires NameText(name, conv).Some?
    ensures Decode(NameText(name, conv).value) == Contents(name, conv) <==> NoEmptyRdn(name)
  {
    hide NameText, Decode;
    if NoEmptyRdn(name) {
      NameRoundTrip(name, conv);
    } else {
      var i :| 0 <= i < |name| && name[i] == [];
      assert Contents(name, conv)[i] == [];
      if i < |Decode(NameText(name, conv).value)| { DecodedNotEmpty(NameText(name, conv).value, i); }
    }
  }

  /** No decoder could do better: an empty RDN at the end does not show in the text. */
  lemma {:induction false} EmptyRdnInvisible(name: RDNSequence, conv: Conversions)
    ensures NameText(name + [[]], conv) == NameText(name, conv)
  {
    var more := name + [[]];
    assert RdnText([], conv) == Some("") && Append("", ',', "") == "";
    hide RdnText, Append;
    if name == [] {
      assert more[1..] == [] && more[0] == [];
      assert NameText(more[1..], conv) == Some("");
    } else {
      assert (name + [[]])[1..] == name[1..] + [[]];
      EmptyRdnInvisible(name[1..], conv);
    }
  }

  /** Names with the same text hold the same types and octets in the same places. */
  lemma SameTextSameName(n: RDNSequence, m: RDNSequence, conv: Conversions)
    requires NoEmptyRdn(n) && NoEmptyRdn(m)
    requires NameText(n, conv).Some? && NameText(n, conv) == NameText(m, conv)
    ensures Contents(n, conv) == Contents(m, conv)
  {
    NameRoundTrip(n, conv);
    NameRoundTrip(m, conv);
  }

  /** Whatever ParseNameValue accepts survives printing. */
  lemma ParsedNameRoundTrip(v: Input, conv: Conversions)
    requires NameOf(v).Some? && NameText(NameOf(v).value, conv).Some?
    ensures Decode(NameText(NameOf(v).value, conv).value) == Contents(NameOf(v).value, conv)
  {
    NameRoundTrip(NameOf(v).value, conv);
  }

  // ----- the text is printable ASCII

  predicate PrintableText(s: string) {
    forall i :: 0 <= i < |s| ==> ' ' <= s[i] <= '~'
  }

  lemma {:induction false} HexPrintable(v: Input)
    ensures PrintableText(HexEncode(v))
  {
    if v != [] { HexPrintable(v[1..]); }
  }

  lemma {:induction false} EscapePrintable(v: Input, i: nat)
    requires i <= |v|
    ensures PrintableText(Escape(v, i))
    decreases |v| - i
  {
    if i < |v| {
      OneOctetHex(v[i]);
      EscapePrintable(v, i + 1);
    }
  }

  lemma AttributePrintable(a: X509NameAttribute, conv: Conversions)
    requires AttributeText(a, conv).Some?
    ensures PrintableText(AttributeText(a, conv).value)
  {
    hide Escape, HexEncode, OidToText;
    HexPrintable(a.value);
    if KnownName(a.typ) == "" {
      OidTextChars(a.typ);
    } else {
      EscapePrintable(ValueAsString(a, conv).value, 0);
      assert PrintableText(KnownName(a.typ));
    }
  }

  lemma {:induction false} RdnPrintable(rdn: RelativeDistinguishedName, conv: Conversions)
    requires RdnText(rdn, conv).Some?
    ensures PrintableText(RdnText(rdn, conv).value)
    decreases |rdn|
  {
    hide AttributeText;
    if rdn != [] {
      RdnPrintable(rdn[..|rdn| - 1], conv);
      AttributePrintable(rdn[|rdn| - 1], conv);
    }
  }

  /** Every name that prints, prints as printable ASCII, control octets and all. */
  lemma {:induction false} NamePrintable(name: RDNSequence, conv: Conversions)
    requires NameText(name, conv).Some?
    ensures PrintableText(NameText(name, conv).value)
  {
    hide RdnText;
    if name != [] {
      NamePrintable(name[1..], conv);
      RdnPrintable(name[0], conv);
    }
  }
}
