/** X.509 extensions (ParseExtension, ParseExtensions and ConsumeExtension of pki/parse_certificate.cc). */
module Extensions {
  import opened Bytes
  import opened Der
  import opened Wrappers

  datatype ParsedExtension = ParsedExtension(oid: Input, critical: bool, value: Input)

  /** An object identifier, TRUE when critical and no element otherwise, an octet string, and nothing else. */
  function ExtensionFields(es: seq<Tlv>): Option<ParsedExtension> {
    if |es| == 2 && es[0].tag == OBJECT && es[1].tag == OCTETSTRING then
      Some(ParsedExtension(es[0].value, false, es[1].value))
    else if |es| == 3 && es[0].tag == OBJECT && es[1].tag == BOOLEAN && ParseBool(es[1].value) == Some(true) && es[2].tag == OCTETSTRING then
      Some(ParsedExtension(es[0].value, true, es[2].value))
    else None
  }

  /** One sequence of the fields of an extension, and nothing behind it. */
  function ExtensionOf(tlv: Input): Option<ParsedExtension> {
    var outer := Elements(tlv);
    if outer.None? || |outer.value| != 1 || outer.value[0].tag != SEQUENCE then None
    else
      var es := Elements(outer.value[0].value);
      if es.None? then None else ExtensionFields(es.value)
  }

  function ExtensionElement(t: Tlv): Option<ParsedExtension> {
    ExtensionOf(t.raw)
  }

  /** One sequence, not empty, of extensions. */
  function ExtensionsOf(tlv: Input): Option<seq<ParsedExtension>> {
    var outer := Elements(tlv);
    if outer.None? || |outer.value| != 1 || outer.value[0].tag != SEQUENCE || outer.value[0].value == [] then None
    else ReadList(outer.value[0].value, ExtensionElement)
  }

  ghost predicate DistinctOids(es: seq<ParsedExtension>) {
    forall i, j :: 0 <= i < j < |es| ==> es[i].oid != es[j].oid
  }

  /** The list a parse accepts: well formed, and no extension twice (section 4.2 of RFC 5280). */
  ghost function AcceptedExtensions(tlv: Input): (r: Option<seq<ParsedExtension>>)
    ensures r.Some? ==> DistinctOids(r.value)
  {
    var es := ExtensionsOf(tlv);
    if es.Some? && DistinctOids(es.value) then es else None
  }

  /** The map holds exactly the extensions of the list, each under its identifier. */
  ghost predicate MapOf(m: map<Input, ParsedExtension>, es: seq<ParsedExtension>) {
    && (forall i :: 0 <= i < |es| ==> es[i].oid in m && m[es[i].oid] == es[i])
    && (forall oid :: oid in m ==> m[oid] in es && m[oid].oid == oid)
  }

  /** Fields read one by one are the fields of the list of elements. */
  method ParseExtensionFields(parser: Parser) returns (r: Option<ParsedExtension>)
    modifies parser
    ensures r == if Elements(old(parser.rest)).None? then None else ExtensionFields(Elements(old(parser.rest)).value)
  {
    hide ReadElement, ParseBool;
    ghost var s0 := parser.rest;
    var ok, oid := parser.ReadTag(OBJECT);
    if !ok { return None; }
    AfterFirst(s0, ReadElement(s0).value);
    ghost var s1 := parser.rest;
    assert s1 == s0[|ReadElement(s0).value.raw|..];
    var critical := false;
    var flag;
    ok, flag := parser.ReadOptionalTag(BOOLEAN);
    if !ok { return None; }
    if flag.Some? {
      AfterFirst(s1, ReadElement(s1).value);
      assert parser.rest == s1[|ReadElement(s1).value.raw|..];
      var b := ParseBool(flag.value);
      if b.None? { return None; }
      critical := b.value;
      if !critical { return None; }
    }
    ghost var s2 := parser.rest;
    var value;
    ok, value := parser.ReadTag(OCTETSTRING);
    if !ok { return None; }
    AfterFirst(s2, ReadElement(s2).value);
    assert parser.rest == s2[|ReadElement(s2).value.raw|..];
    if parser.HasMore() { return None; }
    return Some(ParsedExtension(oid, critical, value));
  }

  method ParseExtension(tlv: Input) returns (r: Option<ParsedExtension>)
    ensures r == ExtensionOf(tlv)
  {
    hide ReadElement, ExtensionFields;
    var parser := new Parser(tlv);
    var ok, inner := parser.ReadSequence();
    if !ok { return None; }
    AfterFirst(tlv, ReadElement(tlv).value);
    assert parser.rest == tlv[|ReadElement(tlv).value.raw|..];
    r := ParseExtensionFields(inner);
    if parser.HasMore() { return None; }
  }

  /** Extensions not yet looked at. */
  class UnconsumedExtensions {
    var extensions: map<Input, ParsedExtension>

    constructor ()
      ensures extensions == map[]
    {
      extensions := map[];
    }

    /** ParseExtensions: fails on a duplicate wherever its twin stands. */
    method Parse(tlv: Input) returns (ok: bool)
      modifies this
      ensures ok <==> AcceptedExtensions(tlv).Some?
      ensures ok ==> MapOf(extensions, AcceptedExtensions(tlv).value)
    {
      hide ReadElement, ExtensionElement, AllOf;
      var parser := new Parser(tlv);
      var inner;
      ok, inner := parser.ReadSequence();
      if !ok { return; }
      AfterFirst(tlv, ReadElement(tlv).value);
      assert parser.rest == tlv[|ReadElement(tlv).value.raw|..];
      if !inner.HasMore() { return false; }
      ok := ParseAll(inner);
      if parser.HasMore() { return false; }
    }

    method ParseAll(parser: Parser) returns (ok: bool)
      modifies this, parser
      ensures ok <==> var es := ReadList(old(parser.rest), ExtensionElement); es.Some? && DistinctOids(es.value)
      ensures ok ==> MapOf(extensions, ReadList(old(parser.rest), ExtensionElement).value)
    {
      hide ReadElement, ExtensionElement, AllOf;
      ghost var s := parser.rest;
      ghost var done: seq<Tlv> := [];
      ghost var out: seq<ParsedExtension> := [];
      extensions := map[];
      ReadNothing(s);
      assert AllOf([], ExtensionElement) == Some([]);
      while parser.HasMore()
        invariant ReadSoFar(s, done, parser.rest)
        invariant AllOf(done, ExtensionElement) == Some(out)
        invariant DistinctOids(out) && MapOf(extensions, out)
        decreases |parser.rest|
      {
        ghost var rest := parser.rest;
        var raw;
        ok, raw := parser.ReadRawTLV();
        if !ok {
          ListStops(s, done, rest, ExtensionElement);
          return;
        }
        var extension := ParseExtension(raw);
        ElementIs(ReadElement(rest).value);
        if extension.None? {
          ListStops(s, done, rest, ExtensionElement);
          return false;
        }
        ListOneMore(s, done, rest, ExtensionElement, out);
        assert rest[|raw|..] == parser.rest;
        ghost var out' := out + [extension.value];
        done := done + [ReadElement(rest).value];
        if extension.value.oid in extensions {
          ghost var i :| 0 <= i < |out| && out[i] == extensions[extension.value.oid];
          assert out'[i].oid == out'[|out'| - 1].oid;
          DuplicateStays(s, done, parser.rest, out');
          return false;
        }
        Inserted(extensions, out, extension.value);
        extensions := extensions[extension.value.oid := extension.value];
        out := out';
      }
      ReadAllOf(s, done);
      ok := true;
    }

    /** ConsumeExtension: takes the extension out, so that it is found at most once. */
    method Consume(oid: Input) returns (r: Option<ParsedExtension>)
      modifies this
      ensures r == if oid in old(extensions) then Some(old(extensions)[oid]) else None
      ensures extensions == old(extensions) - {oid}
    {
      if oid !in extensions { return None; }
      r := Some(extensions[oid]);
      extensions := extensions - {oid};
    }

    /** The loop over what is left that looks for a critical extension, passing over one identifier. */
    method HasCritical(except: Option<Input>) returns (found: bool)
      ensures found <==> exists oid :: oid in extensions && extensions[oid].critical && Some(extensions[oid].oid) != except
    {
      var keys := extensions.Keys;
      while keys != {}
        invariant keys <= extensions.Keys
        invariant forall k :: k in extensions && k !in keys ==> !(extensions[k].critical && Some(extensions[k].oid) != except)
        decreases keys
      {
        var k :| k in keys;
        if Some(extensions[k].oid) != except && extensions[k].critical { return true; }
        keys := keys - {k};
      }
      found := false;
    }
  }

  lemma ElementIs(t: Tlv)
    ensures ExtensionElement(t) == ExtensionOf(t.raw)
  {
  }

  lemma Inserted(m: map<Input, ParsedExtension>, es: seq<ParsedExtension>, e: ParsedExtension)
    requires MapOf(m, es) && DistinctOids(es) && e.oid !in m
    ensures MapOf(m[e.oid := e], es + [e]) && DistinctOids(es + [e])
  {
    var m', es' := m[e.oid := e], es + [e];
    forall oid | oid in m' ensures m'[oid] in es' && m'[oid].oid == oid {
      if oid == e.oid { assert es'[|es|] == e; }
    }
  }

  /** A repeated identifier makes the whole list bad, whatever follows. */
  lemma DuplicateStays(s: Input, done: seq<Tlv>, rest: Input, out: seq<ParsedExtension>)
    requires ReadSoFar(s, done, rest) && AllOf(done, ExtensionElement) == Some(out)
    requires out != [] && exists i :: 0 <= i < |out| - 1 && out[i].oid == out[|out| - 1].oid
    ensures var es := ReadList(s, ExtensionElement); es.Some? ==> !DistinctOids(es.value)
  {
    hide ExtensionElement, AllOf;
    var es := ReadList(s, ExtensionElement);
    if es.Some? {
      var ts := Elements(s).value;
      assert ts[..|done|] == done;
      forall i | 0 <= i < |done| ensures es.value[i] == out[i] {
        assert ts[i] == done[i];
      }
      var i :| 0 <= i < |out| - 1 && out[i].oid == out[|out| - 1].oid;
      assert es.value[i].oid == es.value[|out| - 1].oid;
    }
  }

  /** Critical extensions are left after taking one identifier out exactly when the list has one elsewhere. */
  lemma CriticalLeft(m: map<Input, ParsedExtension>, es: seq<ParsedExtension>, oid: Input)
    requires MapOf(m, es)
    ensures (exists k :: k in m && k != oid && m[k].critical) <==> (exists i :: 0 <= i < |es| && es[i].critical && es[i].oid != oid)
  {
    if i :| 0 <= i < |es| && es[i].critical && es[i].oid != oid {
      assert es[i].oid in m;
    }
    if k :| k in m && k != oid && m[k].critical {
      var i :| 0 <= i < |es| && es[i] == m[k];
      assert es[i].critical && es[i].oid != oid;
    }
  }

  /** The same without taking anything out. */
  lemma CriticalAnywhere(m: map<Input, ParsedExtension>, es: seq<ParsedExtension>)
    requires MapOf(m, es)
    ensures (exists k :: k in m && m[k].critical) <==> (exists i :: 0 <= i < |es| && es[i].critical)
  {
    if i :| 0 <= i < |es| && es[i].critical {
      assert es[i].oid in m;
    }
    if k :| k in m && m[k].critical {
      var i :| 0 <= i < |es| && es[i] == m[k];
      assert es[i].critical;
    }
  }
}
