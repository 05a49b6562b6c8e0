/** Object identifiers as dotted text (CBS_asn1_oid_to_text of crypto/bytestring/cbs.c) and back. */
module OidText {
  import opened Bytes
  import opened Der
  import opened Strings
  import opened Wrappers

  function Digit(d: nat): char
    requires d < 10
  {
    '0' + d as char
  }

  function Decimal(v: nat): (s: string)
    ensures |s| >= 1
  {
    if v < 10 then [Digit(v)] else Decimal(v / 10) + [Digit(v % 10)]
  }

  /** The value of decimal text. */
  function DecimalNumber(s: string): nat {
    if s == "" then 0
    else DecimalNumber(s[..|s| - 1]) * 10 + (if s[|s| - 1] >= '0' then s[|s| - 1] as int - '0' as int else 0)
  }

  predicate AllDigits(s: string) {
    forall i :: 0 <= i < |s| ==> '0' <= s[i] <= '9'
  }

  lemma {:induction false} DecimalRoundTrip(v: nat)
    ensures DecimalNumber(Decimal(v)) == v && AllDigits(Decimal(v))
  {
    var s := Decimal(v);
    if v < 10 {
      assert s[..0] == "";
      assert DecimalNumber(s) == DecimalNumber(s[..0]) * 10 + v;
    } else {
      DecimalRoundTrip(v / 10);
      assert s[..|s| - 1] == Decimal(v / 10);
    }
  }

  /** The base-128 integers of an encoding: at least one, all complete. */
  function Components(s: Input): Option<seq<nat>>
    decreases |s|
  {
    var n := Base128(0, s);
    if n.None? then None
    else if n.value.rest == [] then Some([n.value.value])
    else
      var more := Components(n.value.rest);
      if more.None? then None else Some([n.value.value] + more.value)
  }

  /** The first integer holds the first two arcs. */
  function FirstArcs(v: nat): seq<nat> {
    if v >= 80 then [2, v - 80] else [v / 40, v % 40]
  }

  function Decimals(ns: seq<nat>): (r: seq<string>)
    ensures |r| == |ns| && forall i :: 0 <= i < |ns| ==> r[i] == Decimal(ns[i])
  {
    seq(|ns|, i requires 0 <= i < |ns| => Decimal(ns[i]))
  }

  /** OidToString, with None for its empty result. */
  function OidToText(oid: Input): Option<string> {
    var c := Components(oid);
    if c.None? || c.value == [] then None else Some(Join(Decimals(FirstArcs(c.value[0]) + c.value[1..]), '.'))
  }

  // ----- the inverse

  /** All but the last octet of a base-128 integer. */
  function Continued(v: nat): Input {
    if v < 128 then [128 + v] else Continued(v / 128) + [128 + v % 128]
  }

  function Base128Octets(v: nat): Input {
    if v < 128 then [v] else Continued(v / 128) + [v % 128]
  }

  function ComponentOctets(ns: seq<nat>): Input {
    if ns == [] then [] else Base128Octets(ns[0]) + ComponentOctets(ns[1..])
  }

  function Numbers(parts: seq<string>): (r: seq<nat>)
    ensures |r| == |parts| && forall i :: 0 <= i < |parts| ==> r[i] == DecimalNumber(parts[i])
  {
    seq(|parts|, i requires 0 <= i < |parts| => DecimalNumber(parts[i]))
  }

  function TextToOid(text: string): Input {
    var ns := Numbers(Split(text, '.'));
    if |ns| < 2 then [] else ComponentOctets([40 * ns[0] + ns[1]] + ns[2..])
  }

  lemma ContinuedStep(v: nat, d: nat)
    requires v > 0 && d < 128
    ensures Continued(v * 128 + d) == Continued(v) + [128 + d]
    ensures Base128Octets(v * 128 + d) == Continued(v) + [d]
  {
    var w := v * 128 + d;
    assert w / 128 == v && w % 128 == d;
  }

  lemma {:induction false} ContinuedRead(v: nat, s: Input)
    requires v > 0 && Base128(v, s).Some?
    ensures Continued(v) + s == Base128Octets(Base128(v, s).value.value) + Base128(v, s).value.rest
    decreases |s|
  {
    hide Continued, Base128Octets;
    var d: byte := s[0] % 128;
    ContinuedStep(v, d);
    assert Continued(v) + s == (Continued(v) + [s[0]]) + s[1..];
    if s[0] >= 128 {
      ContinuedRead(v * 128 + d, s[1..]);
    }
  }

  /** What a base-128 integer was read from is its only encoding. */
  lemma Base128Unique(s: Input)
    requires Base128(0, s).Some?
    ensures s == Base128Octets(Base128(0, s).value.value) + Base128(0, s).value.rest
  {
    assert s == [s[0]] + s[1..];
    if s[0] >= 128 {
      assert Continued(s[0] - 128) == [s[0]];
      ContinuedRead(s[0] - 128, s[1..]);
    }
  }

  lemma {:induction false} ComponentsUnique(s: Input)
    requires Components(s).Some?
    ensures Components(s).value != [] && ComponentOctets(Components(s).value) == s
    decreases |s|
  {
    Base128Unique(s);
    var n := Base128(0, s).value;
    if n.rest == [] {
      assert Components(s).value[1..] == [];
    } else {
      ComponentsUnique(n.rest);
      assert Components(s).value[1..] == Components(n.rest).value;
    }
  }

  lemma DecimalsSplit(ns: seq<nat>)
    requires |ns| >= 1
    ensures Numbers(Split(Join(Decimals(ns), '.'), '.')) == ns
  {
    var parts := Decimals(ns);
    forall i | 0 <= i < |parts| ensures '.' !in parts[i] && DecimalNumber(parts[i]) == ns[i] {
      DecimalRoundTrip(ns[i]);
    }
    SplitJoin(parts, '.');
  }

  /** Dotted text determines the encoding, so different encodings have different text. */
  lemma OidRoundTrip(oid: Input)
    requires OidToText(oid).Some?
    ensures TextToOid(OidToText(oid).value) == oid
  {
    hide Split, Join, Components, ComponentOctets;
    ComponentsUnique(oid);
    var c := Components(oid).value;
    var arcs := FirstArcs(c[0]);
    var ns := arcs + c[1..];
    DecimalsSplit(ns);
    assert 40 * arcs[0] + arcs[1] == c[0];
    assert [40 * ns[0] + ns[1]] + ns[2..] == c;
  }

  /** Dotted text starts with a digit and has digits and dots only. */
  lemma OidTextChars(oid: Input)
    requires OidToText(oid).Some?
    ensures var t := OidToText(oid).value;
            t != "" && '0' <= t[0] <= '9' && forall i :: 0 <= i < |t| ==> '0' <= t[i] <= '9' || t[i] == '.'
  {
    var c := Components(oid).value;
    JoinChars(FirstArcs(c[0]) + c[1..]);
  }

  lemma {:induction false} JoinChars(ns: seq<nat>)
    requires |ns| >= 1
    ensures var t := Join(Decimals(ns), '.');
            t != "" && '0' <= t[0] <= '9' && forall i :: 0 <= i < |t| ==> '0' <= t[i] <= '9' || t[i] == '.'
  {
    DecimalRoundTrip(ns[0]);
    if |ns| > 1 {
      JoinChars(ns[1..]);
      assert Decimals(ns)[1..] == Decimals(ns[1..]);
      var h, r := Decimal(ns[0]), Join(Decimals(ns[1..]), '.');
      assert Join(Decimals(ns), '.') == h + ['.'] + r;
    }
  }
}
