/** Writing DER elements: the reader of crypto/bytestring/cbs.c accepts exactly what this writes (section 10.1 of X.690). */
module DerEncoding {
  import opened Bytes
  import opened Der
  import opened Integers
  import opened OidText
  import opened Strings
  import opened Wrappers

  const LENGTH_LIMIT := 0x1_0000_0000

  /** Identifier octets (section 8.1.2 of X.690): class and form in three bits, numbers from 31 on in base 128 behind. */
  function EncodeTag(tag: nat): Input
    requires tag < 8 * CONSTRUCTED
  {
    var lead, number := 32 * (tag / CONSTRUCTED), tag % CONSTRUCTED;
    if number < 31 then [lead + number] else [lead + 31] + Base128Octets(number)
  }

  /** Length octets: one below 128, otherwise as few as hold the length, behind their number. */
  function EncodeLength(n: nat): Input
    requires n < LENGTH_LIMIT
  {
    if n < 128 then [n] else (LengthOctets(n); [128 + |BaseOctets(n)|] + BaseOctets(n))
  }

  lemma LengthOctets(n: nat)
    requires n < LENGTH_LIMIT
    ensures 1 <= |BaseOctets(n)| <= 4
  {
    assert Pow256(2) == 0x1_0000 by { assert Pow256(1) == 256; }
    assert Pow256(4) == LENGTH_LIMIT by { assert Pow256(3) == 0x100_0000; }
    BaseOctetsLength(n, 4);
  }

  /** Tags the reader knows: any but the two forms of universal number zero. */
  predicate ValidTag(tag: nat) {
    tag < 8 * CONSTRUCTED && tag != 0 && tag != CONSTRUCTED
  }

  predicate Fits(tag: nat, value: Input) {
    ValidTag(tag) && |value| < LENGTH_LIMIT
  }

  function Encode(tag: nat, value: Input): Input
    requires Fits(tag, value)
  {
    EncodeTag(tag) + EncodeLength(|value|) + value
  }

  /** The element holds its own encoding. */
  predicate IsElement(t: Tlv) {
    Fits(t.tag, t.value) && t.raw == Encode(t.tag, t.value)
  }

  // ----- base 128

  lemma OneOctet(v: nat, d: byte, s: Input)
    requires v < 0x200_0000_0000_0000 && (v > 0 || d != 0x80)
    ensures Base128(v, [d] + s) == if d < 128 then Some(Number(v * 128 + d, s)) else Base128(v * 128 + (d - 128), s)
  {
    assert ([d] + s)[1..] == s;
  }

  lemma {:induction false} ReadsContinued(v: nat, s: Input)
    requires 0 < v < 0x1_0000_0000_0000_0000
    ensures Base128(0, Continued(v) + s) == Base128(v, s)
    decreases v
  {
    hide Base128;
    if v < 128 {
      OneOctet(0, 128 + v, s);
    } else {
      var d: byte := 128 + v % 128;
      assert Continued(v) + s == Continued(v / 128) + ([d] + s);
      hide Continued;
      ReadsContinued(v / 128, [d] + s);
      OneOctet(v / 128, d, s);
    }
  }

  lemma ReadsBase128(v: nat, s: Input)
    requires v < 0x1_0000_0000_0000_0000
    ensures Base128(0, Base128Octets(v) + s) == Some(Number(v, s))
  {
    hide Base128;
    if v < 128 {
      OneOctet(0, v, s);
    } else {
      var d: byte := v % 128;
      assert Base128Octets(v) + s == Continued(v / 128) + ([d] + s);
      hide Continued;
      ReadsContinued(v / 128, [d] + s);
      OneOctet(v / 128, d, s);
    }
  }

  lemma {:induction false} Base128Bound(v: nat, s: Input)
    requires Base128(v, s).Some?
    ensures Base128(v, s).value.value < 0x1_0000_0000_0000_0000
    decreases |s|
  {
    if s[0] >= 128 { Base128Bound(v * 128 + s[0] % 128, s[1..]); }
  }

  /** Reading a base-128 integer gives v exactly when the octets start with the encoding of v, for v below 2^64. */
  lemma Base128Exactly(s: Input, v: nat, rest: Input)
    ensures Base128(0, s) == Some(Number(v, rest)) <==> v < 0x1_0000_0000_0000_0000 && s == Base128Octets(v) + rest
  {
    if Base128(0, s).Some? {
      Base128Unique(s);
      Base128Bound(0, s);
    }
    if v < 0x1_0000_0000_0000_0000 { ReadsBase128(v, rest); }
  }

  // ----- tags and lengths

  lemma TagExactly(s: Input, tag: nat, rest: Input)
    ensures ReadTagNumber(s) == Some(Number(tag, rest)) <==> ValidTag(tag) && s == EncodeTag(tag) + rest
  {
    hide Base128, Base128Octets;
    var number := tag % CONSTRUCTED;
    if s != [] {
      assert s == [s[0]] + s[1..];
      Base128Exactly(s[1..], number, rest);
      if ReadTagNumber(s) == Some(Number(tag, rest)) {
        assert tag / CONSTRUCTED == s[0] / 32;
      }
    }
    if ValidTag(tag) && s == EncodeTag(tag) + rest { TagReads(s, tag, rest); }
  }

  lemma TagReads(s: Input, tag: nat, rest: Input)
    requires ValidTag(tag) && s == EncodeTag(tag) + rest
    ensures ReadTagNumber(s) == Some(Number(tag, rest))
  {
    hide Base128, Base128Octets;
    var lead, number := 32 * (tag / CONSTRUCTED), tag % CONSTRUCTED;
    if number < 31 {
      assert s[0] == lead + number && s[1..] == rest;
    } else {
      assert s[0] == lead + 31 && s[1..] == Base128Octets(number) + rest;
      Base128Exactly(s[1..], number, rest);
    }
  }

  lemma LengthExactly(s: Input, n: nat, rest: Input)
    ensures ReadLength(s) == Some(Number(n, rest)) <==> n < LENGTH_LIMIT && s == EncodeLength(n) + rest
  {
    if ReadLength(s) == Some(Number(n, rest)) { LengthWritten(s, n, rest); }
    if n < LENGTH_LIMIT && s == EncodeLength(n) + rest { LengthReads(s, n, rest); }
  }

  lemma LengthWritten(s: Input, n: nat, rest: Input)
    requires ReadLength(s) == Some(Number(n, rest))
    ensures n < LENGTH_LIMIT && s == EncodeLength(n) + rest
  {
    if s[0] < 128 {
      assert s == [s[0]] + s[1..];
    } else {
      var k := s[0] % 128;
      var octets := s[1..1 + k];
      BaseOctetsOfValue(octets);
      FourOctets(n);
      assert s == [s[0]] + octets + s[1 + k..];
    }
  }

  lemma FourOctets(n: nat)
    ensures |BaseOctets(n)| <= 4 <==> n < LENGTH_LIMIT
  {
    assert Pow256(2) == 0x1_0000 by { assert Pow256(1) == 256; }
    assert Pow256(4) == LENGTH_LIMIT by { assert Pow256(3) == 0x100_0000; }
    BaseOctetsLength(n, 4);
  }

  lemma LengthReads(s: Input, n: nat, rest: Input)
    requires n < LENGTH_LIMIT && s == EncodeLength(n) + rest
    ensures ReadLength(s) == Some(Number(n, rest))
  {
    hide BaseOctets, BigEndian;
    if n < 128 {
      assert s[1..] == rest;
    } else {
      LengthOctets(n);
      BaseOctetsValue(n);
      var k := |BaseOctets(n)|;
      assert s[0] == 128 + k && s[1..1 + k] == BaseOctets(n) && s[1 + k..] == rest;
      assert s[1] == BaseOctets(n)[0];
    }
  }

  // ----- elements

  /** Reading an element gives t exactly when the octets start with the one encoding of t. */
  lemma ElementExactly(s: Input, t: Tlv)
    ensures ReadElement(s) == Some(t) <==> IsElement(t) && t.raw <= s
  {
    if ReadElement(s) == Some(t) { ElementWritten(s, t); }
    if IsElement(t) && t.raw <= s { ElementReads(s, t); }
  }

  lemma ElementWritten(s: Input, t: Tlv)
    requires ReadElement(s) == Some(t)
    ensures IsElement(t) && t.raw <= s
  {
    hide EncodeTag, EncodeLength, ReadTagNumber, ReadLength;
    var tag := ReadTagNumber(s).value;
    var len := ReadLength(tag.rest).value;
    TagExactly(s, tag.value, tag.rest);
    LengthExactly(tag.rest, len.value, len.rest);
    var h := EncodeTag(t.tag) + EncodeLength(len.value);
    assert s == h + len.rest;
    assert |s| - |len.rest| == |h|;
    assert t.raw == s[..|h| + len.value] == h + len.rest[..len.value];
  }

  lemma ElementReads(s: Input, t: Tlv)
    requires IsElement(t) && t.raw <= s
    ensures ReadElement(s) == Some(t)
  {
    hide EncodeTag, EncodeLength, ReadTagNumber, ReadLength;
    var more := s[|t.raw|..];
    var rest := t.value + more;
    var n := EncodeLength(|t.value|);
    assert s == t.raw + more;
    assert s == EncodeTag(t.tag) + (n + rest);
    TagExactly(s, t.tag, n + rest);
    LengthExactly(n + rest, |t.value|, rest);
    assert rest[..|t.value|] == t.value;
    assert s[..|s| - |rest| + |t.value|] == t.raw;
  }

  /** Octets split into these elements exactly when they are their encodings one behind the other. */
  lemma {:induction false} ElementsExactly(s: Input, ts: seq<Tlv>)
    ensures Elements(s) == Some(ts) <==> (forall i :: 0 <= i < |ts| ==> IsElement(ts[i])) && s == Raws(ts)
    decreases |ts|
  {
    hide ReadElement, Encode;
    if ts == [] {
      if s != [] && ReadElement(s).Some? { ElementsStep(s, ReadElement(s).value); }
    } else {
      var t := ts[0];
      ElementExactly(s, t);
      if Elements(s) == Some(ts) {
        ElementsStep(s, ReadElement(s).value);
        ElementsExactly(s[|t.raw|..], ts[1..]);
        assert s == t.raw + s[|t.raw|..];
        assert forall i :: 1 <= i < |ts| ==> ts[i] == ts[1..][i - 1];
      }
      if (forall i :: 0 <= i < |ts| ==> IsElement(ts[i])) && s == Raws(ts) {
        assert s[|t.raw|..] == Raws(ts[1..]);
        assert t.raw <= s;
        ElementsStep(s, t);
        ElementsExactly(s[|t.raw|..], ts[1..]);
        assert [t] + ts[1..] == ts;
      }
    }
  }

  // ----- object identifiers (section 8.19 of X.690)

  predicate Small(ns: seq<nat>) {
    forall i :: 0 <= i < |ns| ==> ns[i] < 0x1_0000_0000_0000_0000
  }

  lemma {:induction false} ComponentsExactly(s: Input, ns: seq<nat>)
    ensures Components(s) == Some(ns) <==> ns != [] && Small(ns) && s == ComponentOctets(ns)
    decreases |s|
  {
    hide Base128, Base128Octets;
    var n := Base128(0, s);
    if n.Some? {
      Base128Exactly(s, n.value.value, n.value.rest);
      if n.value.rest == [] {
        assert ComponentOctets([n.value.value]) == Base128Octets(n.value.value) + ComponentOctets([]) by { assert [n.value.value][1..] == []; }
        assert s == ComponentOctets([n.value.value]);
      } else if ns != [] {
        ComponentsExactly(n.value.rest, ns[1..]);
        if Components(s) == Some(ns) { assert ns == [n.value.value] + ns[1..]; }
      }
    }
    if ns != [] && Small(ns) && s == ComponentOctets(ns) {
      Base128Exactly(s, ns[0], ComponentOctets(ns[1..]));
      if ns[1..] == [] {
        assert ns == [ns[0]];
      } else {
        OctetsThere(ns[1..]);
        ComponentsExactly(ComponentOctets(ns[1..]), ns[1..]);
        assert ns == [ns[0]] + ns[1..];
      }
    }
  }

  lemma OctetsThere(ns: seq<nat>)
    requires ns != []
    ensures ComponentOctets(ns) != []
  {
  }

  /** The arcs of an identifier: the first is 0, 1 or 2, the second below 40 under the first two. */
  predicate Arcs(ns: seq<nat>) {
    |ns| >= 2 && (ns[0] == 2 || (ns[0] < 2 && ns[1] < 40)) && Small([40 * ns[0] + ns[1]] + ns[2..])
  }

  /** The octets of an identifier: the first two arcs in one number, then one number an arc. */
  function OidOctets(ns: seq<nat>): Input
    requires Arcs(ns)
  {
    ComponentOctets([40 * ns[0] + ns[1]] + ns[2..])
  }

  /** Text comes of exactly the octets of arcs, and is these arcs in decimal with dots between them. */
  lemma OidTextExactly(oid: Input, text: string)
    ensures OidToText(oid) == Some(text) <==> exists ns :: Arcs(ns) && oid == OidOctets(ns) && text == Join(Decimals(ns), '.')
  {
    hide Components, ComponentOctets, Join, Decimals;
    if OidToText(oid) == Some(text) {
      var c := Components(oid).value;
      ComponentsExactly(oid, c);
      var ns := FirstArcs(c[0]) + c[1..];
      assert ns[2..] == c[1..] && c == [c[0]] + c[1..];
      assert 40 * ns[0] + ns[1] == c[0];
      assert Arcs(ns) && oid == OidOctets(ns);
    }
    if ns :| Arcs(ns) && oid == OidOctets(ns) && text == Join(Decimals(ns), '.') {
      var c := [40 * ns[0] + ns[1]] + ns[2..];
      ComponentsExactly(oid, c);
      assert c[1..] == ns[2..];
      SplitArcs(ns[0], ns[1]);
      assert FirstArcs(c[0]) + c[1..] == ns;
    }
  }

  lemma SplitArcs(a: nat, b: nat)
    requires a == 2 || (a < 2 && b < 40)
    ensures FirstArcs(40 * a + b) == [a, b]
  {
  }
}
