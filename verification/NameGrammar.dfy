/**
 * The grammar of names as text, and what ConvertToRFC2253 prints in terms of it. The productions are those of
 * section 3 of RFC 4514, which took the grammar of RFC 2253 over and corrected it; the stricter string of
 * section 3 of RFC 2253 is here too. All characters are given by their code points.
 */
module NameGrammar {
  import opened Bytes
  import opened Der
  import opened DerEncoding
  import opened OidText
  import opened ParseName
  import opened Rfc2253
  import opened Strings
  import opened Wrappers

  // ----- the productions

  predicate Alpha(c: char) {
    0x41 <= c as int <= 0x5a || 0x61 <= c as int <= 0x7a
  }

  predicate DecimalDigit(c: char) {
    0x30 <= c as int <= 0x39
  }

  predicate Hex(c: char) {
    DecimalDigit(c) || 0x41 <= c as int <= 0x46 || 0x61 <= c as int <= 0x66
  }

  /** Quotation mark, plus, comma, semicolon, angle brackets, backslash. */
  predicate Reserved(c: char) {
    c as int in {0x22, 0x2b, 0x2c, 0x3b, 0x3c, 0x3e, 0x5c}
  }

  /** How much of the text is a backslash with what it stands before: a character or two hexadecimal digits. */
  function PairLength(s: string): (n: nat)
    ensures n <= |s|
  {
    if |s| < 2 || s[0] as int != 0x5c then 0
    else if Reserved(s[1]) || s[1] as int in {0x20, 0x23, 0x3d} then 2
    else if |s| >= 3 && Hex(s[1]) && Hex(s[2]) then 3
    else 0
  }

  /** string, from its start or from further inside: a blank stands bare only inside, a number sign not in front. */
  predicate Characters(s: string, first: bool)
    decreases |s|
  {
    || s == ""
    || (PairLength(s) > 0 && Characters(s[PairLength(s)..], false))
    || (0x01 <= s[0] as int <= 0x7f && !Reserved(s[0]) && !(first && s[0] as int in {0x20, 0x23})
        && !(|s| == 1 && s[0] as int == 0x20) && Characters(s[1..], false))
  }

  /** hexstring: a number sign and one pair of digits or more. */
  predicate HexString(s: string) {
    |s| >= 3 && |s| % 2 == 1 && s[0] as int == 0x23 && forall i :: 1 <= i < |s| ==> Hex(s[i])
  }

  predicate Number(s: string) {
    s != "" && (forall i :: 0 <= i < |s| ==> DecimalDigit(s[i])) && (|s| > 1 ==> s[0] as int != 0x30)
  }

  /** numericoid: two numbers or more, with dots between them. */
  predicate NumericOid(s: string) {
    var parts := Split(s, '.');
    |parts| >= 2 && forall i :: 0 <= i < |parts| ==> Number(parts[i])
  }

  predicate Descriptor(s: string) {
    s != "" && Alpha(s[0]) && forall i :: 0 <= i < |s| ==> Alpha(s[i]) || DecimalDigit(s[i]) || s[i] as int == 0x2d
  }

  /** attributeTypeAndValue. */
  ghost predicate IsAttribute(s: string) {
    exists k :: 0 <= k < |s| && IsAttributeAt(s, k)
  }

  predicate IsAttributeAt(s: string, k: nat)
    requires k < |s|
  {
    s[k] as int == 0x3d && (Descriptor(s[..k]) || NumericOid(s[..k])) && (Characters(s[k + 1..], true) || HexString(s[k + 1..]))
  }

  /** The name is one attribute or more, with plus signs and commas between them. */
  ghost predicate IsName(s: string)
    decreases |s|
  {
    exists k :: 0 < k <= |s| && IsAttribute(s[..k]) && (k == |s| || (s[k] as int in {0x2b, 0x2c} && IsName(s[k + 1..])))
  }

  // ----- values

  lemma HexDigitIsHex(d: nat)
    requires d < 16
    ensures Hex(HexDigit(d))
  {
  }

  lemma PieceInGrammar(c: byte, first: bool, last: bool, s: string)
    requires Characters(s, false) && (last <==> s == "")
    ensures Characters(EscapedOctet(c, first, last) + s, first)
  {
    hide HexEncode, HexDigit;
    var piece := EscapedOctet(c, first, last);
    var t := piece + s;
    OneOctetHex(c);
    HexDigitIsHex(c / 16);
    HexDigitIsHex(c % 16);
    assert t[|piece|..] == s;
  }

  /** The text of a value is a string of the grammar. */
  lemma {:induction false} EscapedInGrammar(v: Input, i: nat)
    requires i <= |v|
    ensures Characters(Escape(v, i), i == 0) && (Escape(v, i) == "" <==> i == |v|)
    decreases |v| - i
  {
    hide EscapedOctet, Characters;
    if i < |v| {
      EscapedInGrammar(v, i + 1);
      if i == |v| - 1 { assert Escape(v, i + 1) == ""; }
      NoLead(Escape(v, i + 1), i + 1 == 0);
      PieceInGrammar(v[i], i == 0, i == |v| - 1, Escape(v, i + 1));
      PieceNotEmpty(v[i], i == 0, i == |v| - 1);
    } else {
      assert Characters("", i == 0) by { NothingInGrammar(); }
    }
  }

  lemma NothingInGrammar()
    ensures Characters("", true) && Characters("", false)
  {
  }

  lemma NoLead(s: string, first: bool)
    requires Characters(s, first)
    ensures Characters(s, false)
  {
  }

  lemma PieceNotEmpty(c: byte, first: bool, last: bool)
    ensures |EscapedOctet(c, first, last)| >= 1
  {
  }

  // ----- no more is escaped than has to be

  /** The octet may stand for itself at its place in the value. */
  predicate StandsBare(v: Input, i: nat)
    requires i < |v|
  {
    && 0x20 <= v[i] <= 0x7e && v[i] !in {0x22, 0x2b, 0x2c, 0x3b, 0x3c, 0x3e, 0x5c}
    && (v[i] == 0x23 ==> i > 0) && (v[i] == 0x20 ==> 0 < i < |v| - 1)
  }

  lemma PieceBare(v: Input, i: nat)
    requires i < |v|
    ensures var piece := EscapedOctet(v[i], i == 0, i == |v| - 1);
            if StandsBare(v, i) then piece == [v[i] as char] else |piece| >= 2
  {
    OneOctetHex(v[i]);
  }

  lemma {:induction false} EscapeLength(v: Input, i: nat)
    requires i <= |v|
    ensures |Escape(v, i)| >= |v| - i
    ensures |Escape(v, i)| == |v| - i <==> forall k :: i <= k < |v| ==> StandsBare(v, k)
    ensures |Escape(v, i)| == |v| - i ==> Escape(v, i) == AsText(v)[i..]
    decreases |v| - i
  {
    hide EscapedOctet, StandsBare;
    if i < |v| {
      EscapeLength(v, i + 1);
      PieceBare(v, i);
      assert AsText(v)[i..] == [AsText(v)[i]] + AsText(v)[i + 1..];
      var piece := EscapedOctet(v[i], i == 0, i == |v| - 1);
      assert |Escape(v, i)| == |piece| + |Escape(v, i + 1)|;
    }
  }

  /** A value is its own text exactly when every octet of it may stand for itself. */
  lemma BareExactly(v: Input)
    ensures Escape(v, 0) == AsText(v) <==> forall i :: 0 <= i < |v| ==> StandsBare(v, i)
  {
    hide Escape, StandsBare;
    EscapeLength(v, 0);
    assert AsText(v)[0..] == AsText(v);
  }

  // ----- the stricter string of RFC 2253

  /** special, of which a string holds none bare: comma, equals, plus, angle brackets, number sign, semicolon. */
  predicate Special2253(c: char) {
    c as int in {0x2c, 0x3d, 0x2b, 0x3c, 0x3e, 0x23, 0x3b}
  }

  function PairLength2253(s: string): (n: nat)
    ensures n <= |s|
  {
    if |s| < 2 || s[0] as int != 0x5c then 0
    else if Special2253(s[1]) || s[1] as int in {0x5c, 0x22} then 2
    else if |s| >= 3 && Hex(s[1]) && Hex(s[2]) then 3
    else 0
  }

  predicate String2253(s: string)
    decreases |s|
  {
    || s == ""
    || (PairLength2253(s) > 0 && String2253(s[PairLength2253(s)..]))
    || (!Special2253(s[0]) && s[0] as int !in {0x5c, 0x22} && String2253(s[1..]))
  }

  /** The octet is printed as RFC 2253 has it: no bare equals or number sign, no escaped blank. */
  predicate Strict(v: Input, i: nat)
    requires i < |v|
  {
    v[i] != 0x3d && (v[i] == 0x23 ==> i == 0) && (v[i] == 0x20 ==> 0 < i < |v| - 1)
  }

  lemma PairStrict(c: char, s: string)
    requires !Hex(c)
    ensures String2253(['\\', c] + s) <==> (Special2253(c) || c as int in {0x5c, 0x22}) && String2253(s)
  {
    hide Hex, Special2253;
    assert (['\\', c] + s)[2..] == s;
  }

  lemma HexStrict(h: char, l: char, s: string)
    requires Hex(h) && Hex(l)
    ensures String2253(['\\', h, l] + s) <==> String2253(s)
  {
    assert (['\\', h, l] + s)[3..] == s;
    assert !Special2253(h) && h as int !in {0x5c, 0x22};
    hide Hex, Special2253;
  }

  lemma BareStrict(c: char, s: string)
    requires c as int != 0x5c
    ensures String2253([c] + s) <==> !Special2253(c) && c as int != 0x22 && String2253(s)
  {
    hide Hex, Special2253;
    assert ([c] + s)[1..] == s;
  }

  lemma PieceStrict(v: Input, i: nat, s: string)
    requires i < |v|
    ensures String2253(EscapedOctet(v[i], i == 0, i == |v| - 1) + s) <==> Strict(v, i) && String2253(s)
  {
    hide HexEncode, HexDigit, String2253;
    var c := v[i];
    var piece := EscapedOctet(c, i == 0, i == |v| - 1);
    OneOctetHex(c);
    if piece == ['\\', c as char] {
      PairStrict(c as char, s);
      assert piece + s == ['\\', c as char] + s;
    } else if !IsPrintable(c) {
      HexDigitIsHex(c / 16);
      HexDigitIsHex(c % 16);
      assert piece == ['\\', HexDigit(c / 16), HexDigit(c % 16)];
      HexStrict(HexDigit(c / 16), HexDigit(c % 16), s);
    } else {
      BareStrict(c as char, s);
    }
  }

  lemma {:induction false} StrictFrom(v: Input, i: nat)
    requires i <= |v|
    ensures String2253(Escape(v, i)) <==> forall k :: i <= k < |v| ==> Strict(v, k)
    decreases |v| - i
  {
    hide EscapedOctet, Strict;
    if i < |v| {
      StrictFrom(v, i + 1);
      PieceStrict(v, i, Escape(v, i + 1));
      hide String2253;
    }
  }

  /** The text of a value is a string of RFC 2253 exactly when it holds no equals sign, no number sign but in front,
      and no blank at either end: the code leaves the first two bare and escapes the last with a backslash only. */
  lemma StrictExactly(v: Input)
    ensures String2253(Escape(v, 0)) <==> forall i :: 0 <= i < |v| ==> Strict(v, i)
  {
    StrictFrom(v, 0);
  }

  // ----- attributes

  lemma {:induction false} DecimalIsNumber(v: nat)
    ensures Number(Decimal(v)) && (v > 0 ==> Decimal(v)[0] != '0')
  {
    if v >= 10 { DecimalIsNumber(v / 10); }
  }

  /** Dotted text is a numericoid. */
  lemma OidInGrammar(oid: Input)
    requires OidToText(oid).Some?
    ensures NumericOid(OidToText(oid).value)
  {
    hide Components, Number;
    var c := Components(oid).value;
    var parts := Decimals(FirstArcs(c[0]) + c[1..]);
    forall i | 0 <= i < |parts| ensures Number(parts[i]) && '.' !in parts[i] {
      DecimalIsNumber((FirstArcs(c[0]) + c[1..])[i]);
      DecimalRoundTrip((FirstArcs(c[0]) + c[1..])[i]);
    }
    SplitJoin(parts, '.');
  }

  lemma {:induction false} HexInGrammar(v: Input)
    ensures |HexEncode(v)| == 2 * |v| && forall i :: 0 <= i < |HexEncode(v)| ==> Hex(HexEncode(v)[i])
  {
    hide HexDigit, Hex;
    if v != [] {
      HexInGrammar(v[1..]);
      HexDigitIsHex(v[0] / 16);
      HexDigitIsHex(v[0] % 16);
    }
  }

  /** Hexadecimal text needs an octet to show: the code writes the contents alone, which can be empty. */
  predicate Shown(a: X509NameAttribute) {
    KnownName(a.typ) == "" ==> a.value != []
  }

  lemma KnownDescriptor(typ: Input)
    requires KnownName(typ) != ""
    ensures Descriptor(KnownName(typ))
  {
    assert KnownName(typ) in ["CN", "SN", "C", "L", "ST", "O", "OU", "givenName", "emailAddress"];
    hide KnownName;
  }

  lemma TypeInGrammar(typ: Input)
    requires TypeText(typ).Some?
    ensures Descriptor(TypeText(typ).value) || NumericOid(TypeText(typ).value)
    ensures '=' !in TypeText(typ).value
  {
    hide OidToText, NumericOid, Descriptor, KnownName, TypeOf;
    TypeRoundTrip(typ);
    if KnownName(typ) == "" { OidInGrammar(typ); } else { KnownDescriptor(typ); }
  }

  lemma SignThenHex(v: Input)
    ensures !Characters("#" + HexEncode(v), true) && (HexString("#" + HexEncode(v)) <==> v != [])
  {
    hide HexEncode, Hex;
    HexInGrammar(v);
  }

  lemma ValueInGrammar(a: X509NameAttribute, conv: Conversions)
    requires ValueText(a, conv).Some?
    ensures Characters(ValueText(a, conv).value, true) || HexString(ValueText(a, conv).value) <==> Shown(a)
  {
    hide Escape, HexEncode, Characters, HexString;
    SignThenHex(a.value);
    if KnownName(a.typ) != "" {
      var v := ValueAsString(a, conv).value;
      if a.valueTag == T61STRING && !Printable(v) {
        assert v == a.value != [];
      } else {
        EscapedInGrammar(v, 0);
      }
    }
  }

  lemma {:induction false} JoinHas(parts: seq<string>, sep: char, c: char)
    requires |parts| >= 1 && c in Join(parts, sep)
    ensures c == sep || exists i :: 0 <= i < |parts| && c in parts[i]
  {
    if |parts| > 1 && c in Join(parts[1..], sep) {
      JoinHas(parts[1..], sep, c);
      if i :| 0 <= i < |parts[1..]| && c in parts[1..][i] { assert c in parts[i + 1]; }
    }
  }

  /** No type holds the sign that ends it. */
  lemma NoEquals(s: string)
    requires Descriptor(s) || NumericOid(s)
    ensures '=' !in s
  {
    hide Split, Join;
    if '=' in s && NumericOid(s) {
      JoinSplit(s, '.');
      JoinHas(Split(s, '.'), '.', '=');
    }
  }

  lemma FirstEquals(s: string, k: nat, n: nat)
    requires k < |s| && n < |s| && s[k] == s[n] == '=' && '=' !in s[..k] && '=' !in s[..n]
    ensures k == n
  {
    assert forall i :: 0 <= i < k ==> s[i] in s[..k];
    assert forall i :: 0 <= i < n ==> s[i] in s[..n];
  }

  /** The text of an attribute is one of the grammar exactly when it is not a bare number sign. */
  lemma AttributeInGrammar(a: X509NameAttribute, conv: Conversions)
    requires AttributeText(a, conv).Some?
    ensures IsAttribute(AttributeText(a, conv).value) <==> Shown(a)
  {
    hide TypeText, ValueText, Descriptor, NumericOid, Characters, HexString, Shown;
    var typ, value := TypeText(a.typ).value, ValueText(a, conv).value;
    var s := AttributeText(a, conv).value;
    TypeInGrammar(a.typ);
    ValueInGrammar(a, conv);
    assert s[..|typ|] == typ && s[|typ| + 1..] == value && s[|typ|] == '=';
    if Shown(a) { assert IsAttributeAt(s, |typ|); }
    if IsAttribute(s) {
      var k :| 0 <= k < |s| && IsAttributeAt(s, k);
      NoEquals(s[..k]);
      FirstEquals(s, k, |typ|);
    }
  }

  // ----- which values print, and in which form

  /** The octets a value is printed from: IA5, printable, teletex and UTF-8 strings as they are, the wide strings converted. */
  ghost predicate Spells(a: X509NameAttribute, conv: Conversions, v: Input) {
    || (a.valueTag in {0x0c, 0x13, 0x14, 0x16} && v == a.value)
    || (a.valueTag == 0x1c && conv.universal(a.value) == Some(v))
    || (a.valueTag == 0x1e && conv.bmp(a.value) == Some(v))
  }

  lemma SpellsExactly(a: X509NameAttribute, conv: Conversions, v: Input)
    ensures ValueAsString(a, conv) == Some(v) <==> Spells(a, conv, v)
  {
  }

  /** An attribute prints exactly if its type has a short name and its value spells octets, or its type has dotted text.
      The value is in hexadecimal exactly without a short name or for teletex with an octet that is not printable ASCII;
      otherwise it is read back as the octets it spells. */
  lemma PrintsExactly(a: X509NameAttribute, conv: Conversions)
    ensures AttributeText(a, conv).Some? <==>
            if KnownName(a.typ) == "" then OidToText(a.typ).Some? else exists v :: Spells(a, conv, v)
    ensures AttributeText(a, conv).Some? ==>
              var text := ValueText(a, conv).value;
              var hex := KnownName(a.typ) == "" || (a.valueTag == 0x14 && exists i :: 0 <= i < |a.value| && !(0x20 <= a.value[i] <= 0x7e));
              && (hex <==> text != "" && text[0] == '#')
              && (hex ==> Unhex(text[1..]) == Decoded(a.value, ""))
              && (!hex ==> Spells(a, conv, Unescape(text).value) && Unescape(text).rest == "")
  {
    hide Escape, HexEncode, OidToText, Unescape, Unhex, Spells;
    forall v ensures ValueAsString(a, conv) == Some(v) <==> Spells(a, conv, v) { SpellsExactly(a, conv, v); }
    if AttributeText(a, conv).Some? {
      UnhexEncoded(a.value, "");
      assert HexEncode(a.value) + "" == HexEncode(a.value) && ("#" + HexEncode(a.value))[1..] == HexEncode(a.value);
      if KnownName(a.typ) != "" {
        var v := ValueAsString(a, conv).value;
        UnescapeEscaped(v, 0, "");
        EscapedIsNotHex(v, "");
        assert Escape(v, 0) + "" == Escape(v, 0) && v[0..] == v;
        PrintableExactly(v);
      }
    }
  }

  lemma PrintableExactly(v: Input)
    ensures Printable(v) <==> forall i :: 0 <= i < |v| ==> 0x20 <= v[i] <= 0x7e
  {
  }

  /** A name prints exactly if all its attributes do. */
  lemma {:induction false} NamePrints(name: RDNSequence, conv: Conversions)
    ensures NameText(name, conv).Some? <==>
            forall i, j :: 0 <= i < |name| && 0 <= j < |name[i]| ==> AttributeText(name[i][j], conv).Some?
  {
    hide AttributeText, RdnText;
    if name != [] {
      NamePrints(name[1..], conv);
      RdnPrints(name[0], conv);
      assert forall i :: 1 <= i < |name| ==> name[i] == name[1..][i - 1];
    }
  }

  lemma {:induction false} RdnPrints(rdn: RelativeDistinguishedName, conv: Conversions)
    ensures RdnText(rdn, conv).Some? <==> forall j :: 0 <= j < |rdn| ==> AttributeText(rdn[j], conv).Some?
    decreases |rdn|
  {
    hide AttributeText;
    if rdn != [] { RdnPrints(rdn[..|rdn| - 1], conv); }
  }

  // ----- whole names

  lemma HexIsHex(c: char)
    ensures Hex(c) <==> IsHex(c)
  {
  }

  lemma ReadsPair(s: string, rest: string)
    requires PairLength(s) > 0
    ensures Unescape(s + rest).rest == Unescape(s[PairLength(s)..] + rest).rest
  {
    hide HexNumber;
    var n, t := PairLength(s), s + rest;
    assert t[n..] == s[n..] + rest && t[0] == s[0] && t[1] == s[1];
    HexIsHex(s[1]);
    if n == 3 {
      assert t[2] == s[2];
      HexIsHex(s[2]);
      hide Unescape;
      UnfoldPair(t);
    } else {
      assert !Hex(s[1]);
      hide Unescape;
      UnfoldQuoted(t);
    }
  }

  lemma UnfoldPair(t: string)
    requires |t| >= 3 && t[0] == '\\' && IsHex(t[1]) && IsHex(t[2])
    ensures Unescape(t).rest == Unescape(t[3..]).rest
  {
    hide HexNumber, IsHex;
  }

  lemma UnfoldQuoted(t: string)
    requires |t| >= 2 && t[0] == '\\' && !IsHex(t[1])
    ensures Unescape(t).rest == Unescape(t[2..]).rest
  {
    hide HexNumber, IsHex;
  }

  lemma ReadsBare(s: string, rest: string)
    requires s != "" && !Reserved(s[0])
    ensures Unescape(s + rest).rest == Unescape(s[1..] + rest).rest
  {
    hide HexNumber, IsHex;
    assert (s + rest)[1..] == s[1..] + rest;
  }

  lemma CharactersSplit(s: string, first: bool)
    requires Characters(s, first) && s != ""
    ensures if PairLength(s) > 0 then Characters(s[PairLength(s)..], false) else !Reserved(s[0]) && Characters(s[1..], false)
  {
  }

  /** The decoder goes over a string of the grammar up to its end. */
  lemma {:induction false} ReadsString(s: string, first: bool, rest: string)
    requires Characters(s, first) && AtEnd(rest)
    ensures Unescape(s + rest).rest == rest
    decreases |s|
  {
    hide Reserved, PairLength;
    if s == "" {
      assert s + rest == rest;
    } else {
      CharactersSplit(s, first);
      hide Unescape, AtEnd, Characters;
      if PairLength(s) > 0 {
        ReadsPair(s, rest);
        ReadsString(s[PairLength(s)..], false, rest);
      } else {
        ReadsBare(s, rest);
        ReadsString(s[1..], false, rest);
      }
    }
  }

  lemma {:induction false} ReadsHex(s: string, rest: string)
    requires |s| % 2 == 0 && AtEnd(rest) && forall i :: 0 <= i < |s| ==> Hex(s[i])
    ensures Unhex(s + rest).rest == rest
    decreases |s|
  {
    hide HexNumber;
    if s == "" {
      assert s + rest == rest;
    } else {
      ReadsHex(s[2..], rest);
      assert (s + rest)[2..] == s[2..] + rest;
    }
  }

  /** Whatever the grammar calls an attribute, the decoder reads up to its end: names split in one way only. */
  lemma ReadsAttribute(s: string, rest: string)
    requires IsAttribute(s) && AtEnd(rest)
    ensures DecodeAttribute(s + rest).rest == rest
  {
    hide Descriptor, NumericOid, Characters, HexString, TypeOf, Unhex, Unescape;
    var k :| 0 <= k < |s| && IsAttributeAt(s, k);
    var typ, value := s[..k], s[k + 1..];
    NoEquals(typ);
    assert s + rest == typ + ['='] + (value + rest);
    FindAt(typ, '=', value + rest);
    assert (s + rest)[k + 1..] == value + rest;
    if HexString(value) {
      HexStringParts(value, rest);
      ReadsHex(value[1..], rest);
    } else {
      ReadsString(value, true, rest);
      NoSign(value, rest);
    }
  }

  lemma HexStringParts(s: string, rest: string)
    requires HexString(s)
    ensures |s| >= 3 && s[0] == '#' && |s[1..]| % 2 == 0 && (s + rest)[1..] == s[1..] + rest && forall i :: 0 <= i < |s[1..]| ==> Hex(s[1..][i])
  {
  }

  lemma NoSign(s: string, rest: string)
    requires Characters(s, true) && AtEnd(rest)
    ensures s + rest == "" || (s + rest)[0] != '#'
  {
  }

  /** A text that starts with a printed attribute is a name exactly when the attribute and what follows it are. */
  lemma FirstComponent(a: X509NameAttribute, conv: Conversions, rest: string)
    requires AttributeText(a, conv).Some? && AtEnd(rest)
    ensures IsName(AttributeText(a, conv).value + rest) <==> Shown(a) && (rest == "" || IsName(rest[1..]))
  {
    hide AttributeText, IsAttribute, DecodeAttribute, Shown;
    var t := AttributeText(a, conv).value;
    var s := t + rest;
    AttributeRoundTrip(a, conv, rest);
    AttributeInGrammar(a, conv);
    assert s[..|t|] == t && s[|t|..] == rest;
    if rest != "" { assert s[|t| + 1..] == rest[1..] && s[|t|] == rest[0]; }
    if IsName(s) {
      var k :| 0 < k <= |s| && IsAttribute(s[..k])
        && (k == |s| || (s[k] as int in {0x2b, 0x2c} && IsName(s[k + 1..])));
      EndsThere(s, k, rest);
    }
  }

  /** The first attribute of a name ends where the decoder stops. */
  lemma EndsThere(s: string, k: nat, rest: string)
    requires k <= |s| && IsAttribute(s[..k]) && AtEnd(s[k..]) && DecodeAttribute(s).rest == rest
    ensures k == |s| - |rest|
  {
    hide IsAttribute, DecodeAttribute;
    assert s == s[..k] + s[k..];
    ReadsAttribute(s[..k], s[k..]);
  }

  ghost predicate AllShown(rdn: RelativeDistinguishedName) {
    forall i :: 0 <= i < |rdn| ==> Shown(rdn[i])
  }

  lemma {:induction false} RdnInGrammar(rdn: RelativeDistinguishedName, conv: Conversions, rest: string)
    requires rdn != [] && RdnText(rdn, conv).Some? && (rest == "" || rest[0] == ',')
    ensures IsName(RdnText(rdn, conv).value + rest) <==> AllShown(rdn) && (rest == "" || IsName(rest[1..]))
    decreases |rdn|
  {
    hide AttributeText, Shown, IsName;
    if |rdn| == 1 {
      assert rdn[..0] == [];
      FirstComponent(rdn[0], conv, rest);
      assert RdnText(rdn, conv).value == AttributeText(rdn[0], conv).value;
    } else {
      RdnTextCons(rdn, conv);
      var tail := RdnText(rdn[1..], conv).value + rest;
      assert RdnText(rdn, conv).value + rest == AttributeText(rdn[0], conv).value + ("+" + tail);
      FirstComponent(rdn[0], conv, "+" + tail);
      assert ("+" + tail)[1..] == tail;
      RdnInGrammar(rdn[1..], conv, rest);
      assert rdn == [rdn[0]] + rdn[1..];
      assert AllShown(rdn) <==> Shown(rdn[0]) && AllShown(rdn[1..]);
    }
  }

  /** Names without empty RDNs print as names of the grammar, exactly when no attribute without a short name has
      empty contents; the empty name prints as the empty text. */
  lemma {:induction false} NameInGrammar(name: RDNSequence, conv: Conversions)
    requires name != [] && NoEmptyRdn(name) && NameText(name, conv).Some?
    ensures IsName(NameText(name, conv).value) <==> forall i :: 0 <= i < |name| ==> AllShown(name[i])
    decreases |name|
  {
    hide RdnText, AllShown, IsName;
    var init, last := name[..|name| - 1], name[|name| - 1];
    if |name| == 1 {
      assert name[1..] == [];
      RdnInGrammar(last, conv, "");
      assert NameText(name, conv).value == RdnText(last, conv).value == RdnText(last, conv).value + "";
    } else {
      NameTextSnoc(name, conv);
      var tail := NameText(init, conv).value;
      RdnInGrammar(last, conv, "," + tail);
      assert ("," + tail)[1..] == tail;
      assert NameText(name, conv).value == RdnText(last, conv).value + ("," + tail);
      NameInGrammar(init, conv);
      assert name == init + [last];
    }
  }

  // ----- attribute types by their numbers

  lemma ThreeOctets(a: nat, b: nat, c: nat)
    requires a < 128 && b < 128 && c < 128
    ensures ComponentOctets([a, b, c]) == [a, b, c]
  {
    assert [a, b, c][1..] == [b, c] && [b, c][1..] == [c] && [c][1..] == [];
    assert ComponentOctets([c]) == [c];
    assert ComponentOctets([b, c]) == [b] + [c];
  }

  lemma EmailOctets()
    ensures ComponentOctets([42, 840, 113549, 1, 9, 1]) == EMAIL_ADDRESS
  {
    ThreeOctets(1, 9, 1);
    assert [113549, 1, 9, 1][1..] == [1, 9, 1] && [840, 113549, 1, 9, 1][1..] == [113549, 1, 9, 1];
    assert [42, 840, 113549, 1, 9, 1][1..] == [840, 113549, 1, 9, 1];
    assert Continued(6) == [134];
    assert Base128Octets(840) == [134] + [72];
    assert Base128Octets(113549) == ([134] + [247]) + [13] by { assert Continued(887) == Continued(6) + [247]; }
    assert ComponentOctets([113549, 1, 9, 1]) == Base128Octets(113549) + [1, 9, 1];
    assert ComponentOctets([840, 113549, 1, 9, 1]) == Base128Octets(840) + ComponentOctets([113549, 1, 9, 1]);
  }

  lemma UnderNameArc(n: nat)
    requires n < 128
    ensures Arcs([2, 5, 4, n]) && OidOctets([2, 5, 4, n]) == [85, 4, n]
  {
    ThreeOctets(85, 4, n);
    assert [2, 5, 4, n][2..] == [4, n];
  }

  /** Each short name belongs to one identifier: 2.5.4.n of RFC 4519, or emailAddress of PKCS #9. */
  lemma ShortNames(typ: Input)
    ensures Arcs([2, 5, 4, 3]) && (KnownName(typ) == "CN" <==> typ == OidOctets([2, 5, 4, 3]))
    ensures Arcs([2, 5, 4, 4]) && (KnownName(typ) == "SN" <==> typ == OidOctets([2, 5, 4, 4]))
    ensures Arcs([2, 5, 4, 6]) && (KnownName(typ) == "C" <==> typ == OidOctets([2, 5, 4, 6]))
    ensures Arcs([2, 5, 4, 7]) && (KnownName(typ) == "L" <==> typ == OidOctets([2, 5, 4, 7]))
    ensures Arcs([2, 5, 4, 8]) && (KnownName(typ) == "ST" <==> typ == OidOctets([2, 5, 4, 8]))
    ensures Arcs([2, 5, 4, 10]) && (KnownName(typ) == "O" <==> typ == OidOctets([2, 5, 4, 10]))
    ensures Arcs([2, 5, 4, 11]) && (KnownName(typ) == "OU" <==> typ == OidOctets([2, 5, 4, 11]))
    ensures Arcs([2, 5, 4, 42]) && (KnownName(typ) == "givenName" <==> typ == OidOctets([2, 5, 4, 42]))
    ensures Arcs([1, 2, 840, 113549, 1, 9, 1]) && (KnownName(typ) == "emailAddress" <==> typ == OidOctets([1, 2, 840, 113549, 1, 9, 1]))
  {
    hide ComponentOctets;
    UnderNameArc(3);
    UnderNameArc(4);
    UnderNameArc(6);
    UnderNameArc(7);
    UnderNameArc(8);
    UnderNameArc(10);
    UnderNameArc(11);
    UnderNameArc(42);
    EmailOctets();
    EmailArcs();
    hide OidOctets, Arcs;
  }

  lemma EmailArcs()
    ensures Arcs([1, 2, 840, 113549, 1, 9, 1]) && OidOctets([1, 2, 840, 113549, 1, 9, 1]) == EMAIL_ADDRESS
  {
    EmailOctets();
    assert [1, 2, 840, 113549, 1, 9, 1][2..] == [840, 113549, 1, 9, 1];
    assert [42] + [840, 113549, 1, 9, 1] == [42, 840, 113549, 1, 9, 1];
  }
}
