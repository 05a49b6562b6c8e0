/** Reading DER elements (pki/parser.cc over crypto/bytestring/cbs.c). */
module Der {
  import opened Bytes
  import opened Wrappers

  // Tags carry class and constructed bits shifted up by 24 bits, as CBS_ASN1_TAG does.
  const CONSTRUCTED := 0x2000_0000
  const CONTEXT_SPECIFIC := 0x8000_0000
  const TAG_NUMBER_MASK := 0x1fff_ffff

  const BOOLEAN := 0x1
  const INTEGER := 0x2
  const OCTETSTRING := 0x4
  const OBJECT := 0x6
  const UTF8STRING := 0xc
  const PRINTABLESTRING := 0x13
  const T61STRING := 0x14
  const IA5STRING := 0x16
  const UTCTIME := 0x17
  const GENERALIZEDTIME := 0x18
  const UNIVERSALSTRING := 0x1c
  const BMPSTRING := 0x1e
  const SEQUENCE := 0x10 + CONSTRUCTED
  const SET := 0x11 + CONSTRUCTED

  /** One element: its tag, its contents, and all its octets. */
  datatype Tlv = Tlv(tag: nat, value: Input, raw: Input)

  datatype Number = Number(value: nat, rest: Input)

  /** parse_base128_integer, continued with v already read: refuses what does not fit 64 bits and leading zeros. */
  function Base128(v: nat, s: Input): (r: Option<Number>)
    ensures r.Some? ==> |r.value.rest| < |s| && r.value.rest == s[|s| - |r.value.rest|..]
    decreases |s|
  {
    if s == [] || v >= 0x200_0000_0000_0000 || (v == 0 && s[0] == 0x80) then None
    else
      var w := v * 128 + s[0] % 128;
      if s[0] < 128 then Some(Number(w, s[1..])) else Base128(w, s[1..])
  }

  /** parse_asn1_tag. */
  function ReadTagNumber(s: Input): (r: Option<Number>)
    ensures r.Some? ==> |r.value.rest| < |s| && r.value.rest == s[|s| - |r.value.rest|..]
  {
    if s == [] then None
    else
      var classBits := s[0] / 32 * CONSTRUCTED;
      if s[0] % 32 == 31 then
        var n := Base128(0, s[1..]);
        if n.None? || n.value.value > TAG_NUMBER_MASK || n.value.value < 31 then None
        else Some(Number(classBits + n.value.value, n.value.rest))
      else if classBits + s[0] % 32 == 0 || classBits + s[0] % 32 == CONSTRUCTED then None
      else Some(Number(classBits + s[0] % 32, s[1..]))
  }

  function BigEndian(s: Input): nat {
    if s == [] then 0 else BigEndian(s[..|s| - 1]) * 256 + s[|s| - 1]
  }

  /** The length octets: short form, or one to four octets of minimal long form. */
  function ReadLength(s: Input): (r: Option<Number>)
    ensures r.Some? ==> |r.value.rest| < |s| && r.value.rest == s[|s| - |r.value.rest|..]
  {
    if s == [] then None
    else if s[0] < 128 then Some(Number(s[0], s[1..]))
    else
      var k := s[0] % 128;
      if k == 0 || k > 4 || |s| < 1 + k then None
      else
        var len := BigEndian(s[1..1 + k]);
        if len < 128 || s[1] == 0 then None else Some(Number(len, s[1 + k..]))
  }

  /** CBS_get_any_asn1_element: the first element of s. */
  function ReadElement(s: Input): (r: Option<Tlv>)
    ensures r.Some? ==> 0 < |r.value.raw| <= |s| && |r.value.value| < |r.value.raw|
    ensures r.Some? ==> s == r.value.raw + s[|r.value.raw|..]
  {
    var tag := ReadTagNumber(s);
    if tag.None? then None
    else
      var len := ReadLength(tag.value.rest);
      if len.None? || len.value.value > |len.value.rest| then None
      else
        var end := |s| - |len.value.rest| + len.value.value;
        assert s == s[..end] + s[end..];
        Some(Tlv(tag.value.value, len.value.rest[..len.value.value], s[..end]))
  }

  /** All elements of s in order, or None when some octets do not parse. */
  function Elements(s: Input): (r: Option<seq<Tlv>>)
    decreases |s|
  {
    if s == [] then Some([])
    else
      var t := ReadElement(s);
      if t.None? then None else Prepend(t.value, Elements(s[|t.value.raw|..]))
  }

  function Prepend(t: Tlv, more: Option<seq<Tlv>>): Option<seq<Tlv>> {
    if more.None? then None else Some([t] + more.value)
  }

  function Raws(ts: seq<Tlv>): Input {
    if ts == [] then [] else ts[0].raw + Raws(ts[1..])
  }

  /** Splitting into elements drops nothing and invents nothing. */
  lemma {:induction false} ElementsCover(s: Input)
    requires Elements(s).Some?
    ensures Raws(Elements(s).value) == s
    decreases |s|
  {
    if s != [] {
      var t := ReadElement(s).value;
      ElementsCover(s[|t.raw|..]);
      assert Elements(s).value[1..] == Elements(s[|t.raw|..]).value;
    }
  }

  lemma {:induction false} Base128Extends(v: nat, s: Input, x: Input)
    requires Base128(v, s).Some?
    ensures Base128(v, s + x) == Some(Number(Base128(v, s).value.value, Base128(v, s).value.rest + x))
    decreases |s|
  {
    assert (s + x)[1..] == s[1..] + x;
    if s[0] >= 128 {
      Base128Extends(v * 128 + s[0] % 128, s[1..], x);
    }
  }

  lemma TagExtends(s: Input, x: Input)
    requires ReadTagNumber(s).Some?
    ensures ReadTagNumber(s + x) == Some(Number(ReadTagNumber(s).value.value, ReadTagNumber(s).value.rest + x))
  {
    assert (s + x)[1..] == s[1..] + x;
    if s[0] % 32 == 31 { Base128Extends(0, s[1..], x); }
  }

  lemma LengthExtends(s: Input, x: Input)
    requires ReadLength(s).Some?
    ensures ReadLength(s + x) == Some(Number(ReadLength(s).value.value, ReadLength(s).value.rest + x))
  {
    assert (s + x)[1..] == s[1..] + x;
    if s[0] >= 128 {
      var k := s[0] % 128;
      assert (s + x)[1..1 + k] == s[1..1 + k] && (s + x)[1 + k..] == s[1 + k..] + x;
    }
  }

  /** An element is delimited by its own octets: what follows never changes it. */
  lemma SelfDelimiting(s: Input, x: Input)
    requires ReadElement(s).Some?
    ensures ReadElement(s + x) == ReadElement(s)
  {
    TagExtends(s, x);
    var tag := ReadTagNumber(s).value;
    LengthExtends(tag.rest, x);
    var len := ReadLength(tag.rest).value;
    assert (len.rest + x)[..len.value] == len.rest[..len.value];
    var end := |s| - |len.rest| + len.value;
    assert (s + x)[..end] == s[..end];
  }

  lemma ElementsStep(s: Input, t: Tlv)
    requires ReadElement(s) == Some(t)
    ensures Elements(s) == Prepend(t, Elements(s[|t.raw|..]))
  {
  }

  /** Elements of a concatenation: the elements of the parts, in order. */
  lemma {:induction false} ElementsConcat(s: Input, es: seq<Tlv>, x: Input)
    requires Elements(s) == Some(es)
    ensures Elements(s + x) == if Elements(x).Some? then Some(es + Elements(x).value) else None
    decreases |s|
  {
    hide ReadElement;
    if s == [] {
      assert s + x == x;
      if Elements(x).Some? { assert [] + Elements(x).value == Elements(x).value; }
    } else {
      ConcatStep(s, es, x);
      ElementsConcat(s[|es[0].raw|..], es[1..], x);
      if Elements(x).Some? {
        assert [es[0]] + (es[1..] + Elements(x).value) == es + Elements(x).value;
      }
    }
  }

  lemma ConcatStep(s: Input, es: seq<Tlv>, x: Input)
    requires s != [] && Elements(s) == Some(es)
    ensures es != [] && 0 < |es[0].raw| <= |s| && Elements(s[|es[0].raw|..]) == Some(es[1..])
    ensures Elements(s + x) == Prepend(es[0], Elements(s[|es[0].raw|..] + x))
  {
    hide ReadElement;
    var t := ReadElement(s).value;
    SelfDelimiting(s, x);
    ElementsStep(s + x, t);
    assert (s + x)[|t.raw|..] == s[|t.raw|..] + x;
  }

  // ----- loops that read element by element

  /** After reading the elements in done, rest is what remains of s. */
  ghost predicate ReadSoFar(s: Input, done: seq<Tlv>, rest: Input) {
    Elements(s) == if Elements(rest).Some? then Some(done + Elements(rest).value) else None
  }

  lemma ReadNothing(s: Input)
    ensures ReadSoFar(s, [], s)
  {
    if Elements(s).Some? { assert [] + Elements(s).value == Elements(s).value; }
  }

  lemma ReadOneMore(s: Input, done: seq<Tlv>, rest: Input, t: Tlv)
    requires ReadSoFar(s, done, rest) && ReadElement(rest) == Some(t)
    ensures rest != [] && 0 < |t.raw| <= |rest|
    ensures ReadSoFar(s, done + [t], rest[|t.raw|..])
  {
    hide ReadElement;
    var rest' := rest[|t.raw|..];
    ElementsStep(rest, t);
    if Elements(rest').Some? {
      assert done + ([t] + Elements(rest').value) == (done + [t]) + Elements(rest').value;
    }
  }

  lemma ReadStuck(s: Input, done: seq<Tlv>, rest: Input)
    requires ReadSoFar(s, done, rest) && rest != [] && ReadElement(rest).None?
    ensures Elements(s).None?
  {
  }

  lemma ReadAllOf(s: Input, done: seq<Tlv>)
    requires ReadSoFar(s, done, [])
    ensures Elements(s) == Some(done)
  {
    assert done + [] == done;
  }

  lemma ReadPrefix(s: Input, done: seq<Tlv>, rest: Input)
    requires ReadSoFar(s, done, rest) && Elements(s).Some?
    ensures done <= Elements(s).value
  {
  }

  lemma AfterFirst(s: Input, t: Tlv)
    requires ReadElement(s) == Some(t)
    ensures 0 < |t.raw| <= |s|
    ensures Elements(s).Some? <==> Elements(s[|t.raw|..]).Some?
    ensures Elements(s).Some? ==> Elements(s).value == [t] + Elements(s[|t.raw|..]).value
    ensures Elements(s).Some? && s[|t.raw|..] != [] ==> |Elements(s).value| > 1
  {
    hide ReadElement;
    ElementsStep(s, t);
  }

  // ----- reading every element the same way

  /** What f makes of every element, or None when it refuses one. */
  function AllOf<T>(es: seq<Tlv>, f: Tlv -> Option<T>): (r: Option<seq<T>>)
    ensures r.Some? ==> |r.value| == |es| && forall i :: 0 <= i < |es| ==> f(es[i]) == Some(r.value[i])
    ensures r.None? ==> exists i :: 0 <= i < |es| && f(es[i]).None?
  {
    if es == [] then Some([])
    else
      var init, last := AllOf(es[..|es| - 1], f), f(es[|es| - 1]);
      if init.None? || last.None? then None else Some(init.value + [last.value])
  }

  /** The elements of s, each read by f; None when the octets do not parse or f refuses an element. */
  function ReadList<T>(s: Input, f: Tlv -> Option<T>): Option<seq<T>> {
    if Elements(s).None? then None else AllOf(Elements(s).value, f)
  }

  lemma ListOneMore<T>(s: Input, done: seq<Tlv>, rest: Input, f: Tlv -> Option<T>, out: seq<T>)
    requires ReadSoFar(s, done, rest) && AllOf(done, f) == Some(out)
    requires ReadElement(rest).Some? && f(ReadElement(rest).value).Some?
    ensures var t := ReadElement(rest).value;
            && 0 < |t.raw| <= |rest|
            && ReadSoFar(s, done + [t], rest[|t.raw|..])
            && AllOf(done + [t], f) == Some(out + [f(t).value])
  {
    hide ReadElement;
    var t := ReadElement(rest).value;
    ReadOneMore(s, done, rest, t);
    assert (done + [t])[..|done|] == done;
  }

  lemma ListStops<T>(s: Input, done: seq<Tlv>, rest: Input, f: Tlv -> Option<T>)
    requires ReadSoFar(s, done, rest) && rest != []
    requires ReadElement(rest).None? || f(ReadElement(rest).value).None?
    ensures ReadList(s, f).None?
  {
    hide ReadElement;
    if ReadElement(rest).None? {
      ReadStuck(s, done, rest);
    } else {
      var t := ReadElement(rest).value;
      ReadOneMore(s, done, rest, t);
      if Elements(s).Some? { assert Elements(s).value[|done|] == t; }
    }
  }

  /** DER booleans: a single octet, all zeros or all ones (ParseBool). */
  function ParseBool(v: Input): (r: Option<bool>) {
    if v == [0] then Some(false) else if v == [0xff] then Some(true) else None
  }

  /** der::Parser: reads elements from the front of the remaining octets. */
  class Parser {
    var rest: Input

    constructor (input: Input)
      ensures rest == input
    {
      rest := input;
    }

    predicate HasMore()
      reads this
    {
      rest != []
    }

    method PeekTagAndValue() returns (ok: bool, tag: nat, value: Input)
      ensures ok <==> ReadElement(rest).Some?
      ensures ok ==> tag == ReadElement(rest).value.tag && value == ReadElement(rest).value.value
    {
      var t := ReadElement(rest);
      if t.None? { return false, 0, []; }
      return true, t.value.tag, t.value.value;
    }

    method Advance()
      requires ReadElement(rest).Some?
      modifies this
      ensures old(rest) == ReadElement(old(rest)).value.raw + rest
    {
      rest := rest[|ReadElement(rest).value.raw|..];
    }

    method ReadTagAndValue() returns (ok: bool, tag: nat, value: Input)
      modifies this
      ensures ok <==> ReadElement(old(rest)).Some?
      ensures ok ==> var t := ReadElement(old(rest)).value;
                     tag == t.tag && value == t.value && old(rest) == t.raw + rest
      ensures !ok ==> rest == old(rest)
    {
      ok, tag, value := PeekTagAndValue();
      if ok { Advance(); }
    }

    method ReadRawTLV() returns (ok: bool, raw: Input)
      modifies this
      ensures ok <==> ReadElement(old(rest)).Some?
      ensures ok ==> raw == ReadElement(old(rest)).value.raw && old(rest) == raw + rest
      ensures !ok ==> rest == old(rest)
    {
      var t := ReadElement(rest);
      if t.None? { return false, []; }
      raw := t.value.raw;
      rest := rest[|raw|..];
      ok := true;
    }

    method ReadTag(want: nat) returns (ok: bool, value: Input)
      modifies this
      ensures ok <==> ReadElement(old(rest)).Some? && ReadElement(old(rest)).value.tag == want
      ensures ok ==> var t := ReadElement(old(rest)).value; value == t.value && old(rest) == t.raw + rest
      ensures !ok ==> rest == old(rest)
    {
      var tag;
      ok, tag, value := PeekTagAndValue();
      if !ok || tag != want { return false, []; }
      Advance();
    }

    /** On success, value is present exactly when the next element has the tag; otherwise nothing is consumed. */
    method ReadOptionalTag(want: nat) returns (ok: bool, value: Option<Input>)
      modifies this
      ensures ok <==> old(rest) == [] || ReadElement(old(rest)).Some?
      ensures ok && value.Some? ==>
                ReadElement(old(rest)).Some? &&
                var t := ReadElement(old(rest)).value;
                t.tag == want && value.value == t.value && old(rest) == t.raw + rest
      ensures ok && value.None? ==> rest == old(rest) && (rest == [] || ReadElement(rest).value.tag != want)
      ensures !ok ==> rest == old(rest)
    {
      if !HasMore() { return true, None; }
      var tag, v;
      ok, tag, v := PeekTagAndValue();
      if !ok { return false, None; }
      if tag == want {
        Advance();
        value := Some(v);
      } else {
        value := None;
      }
    }

    method ReadConstructed(want: nat) returns (ok: bool, inner: Parser)
      modifies this
      ensures fresh(inner)
      ensures ok <==> want / CONSTRUCTED % 2 == 1 && ReadElement(old(rest)).Some? && ReadElement(old(rest)).value.tag == want
      ensures ok ==> var t := ReadElement(old(rest)).value; inner.rest == t.value && old(rest) == t.raw + rest
      ensures !ok ==> rest == old(rest)
    {
      inner := new Parser([]);
      if want / CONSTRUCTED % 2 == 0 { return false, inner; }
      var value;
      ok, value := ReadTag(want);
      inner.rest := value;
    }

    method ReadSequence() returns (ok: bool, inner: Parser)
      modifies this
      ensures fresh(inner)
      ensures ok <==> ReadElement(old(rest)).Some? && ReadElement(old(rest)).value.tag == SEQUENCE
      ensures ok ==> var t := ReadElement(old(rest)).value; inner.rest == t.value && old(rest) == t.raw + rest
      ensures !ok ==> rest == old(rest)
    {
      ok, inner := ReadConstructed(SEQUENCE);
    }
  }
}
