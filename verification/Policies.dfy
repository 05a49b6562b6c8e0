/** Certificate policies (pki/certificate_policies.cc). */
module Policies {
  import opened Bytes
  import opened Der
  import opened InputOrder
  import opened SortedSets
  import opened Wrappers

  const ANY_POLICY: Input := [0x55, 0x1d, 0x20, 0x00]
  const CPS_POINTER: Input := [0x2b, 0x06, 0x01, 0x05, 0x05, 0x07, 0x02, 0x01]
  const USER_NOTICE: Input := [0x2b, 0x06, 0x01, 0x05, 0x05, 0x07, 0x02, 0x02]

  datatype PolicyQualifierInfo = PolicyQualifierInfo(qualifierOid: Input, qualifier: Input)

  datatype PolicyInformation = PolicyInformation(policyOid: Input, policyQualifiers: seq<PolicyQualifierInfo>)

  // ----- what the extension holds

  /** An object identifier, one more element, and nothing else; unknown identifiers are refused when restricted. */
  function QualifierOf(t: Tlv, restrict: bool): Option<PolicyQualifierInfo> {
    if t.tag != SEQUENCE then None
    else
      var es := Elements(t.value);
      if es.None? || |es.value| != 2 || es.value[0].tag != OBJECT then None
      else if restrict && es.value[0].value != CPS_POINTER && es.value[0].value != USER_NOTICE then None
      else Some(PolicyQualifierInfo(es.value[0].value, es.value[1].raw))
  }

  function QualifierReader(restrict: bool): Tlv -> Option<PolicyQualifierInfo> {
    t => QualifierOf(t, restrict)
  }

  /** One qualifier or more. */
  function QualifiersOf(v: Input, restrict: bool): Option<seq<PolicyQualifierInfo>> {
    if v == [] then None else ReadList(v, QualifierReader(restrict))
  }

  /** A policy identifier, then optionally its qualifiers, which anyPolicy always restricts. */
  function PolicyOf(t: Tlv, restrict: bool): Option<PolicyInformation> {
    if t.tag != SEQUENCE then None
    else
      var es := Elements(t.value);
      if es.None? || es.value == [] || es.value[0].tag != OBJECT then None
      else
        var oid := es.value[0].value;
        if |es.value| == 1 then Some(PolicyInformation(oid, []))
        else if |es.value| > 2 || es.value[1].tag != SEQUENCE then None
        else
          var qs := QualifiersOf(es.value[1].value, restrict || oid == ANY_POLICY);
          if qs.None? then None else Some(PolicyInformation(oid, qs.value))
  }

  function PolicyReader(restrict: bool): Tlv -> Option<PolicyInformation> {
    t => PolicyOf(t, restrict)
  }

  /** One sequence, not empty, of policies. */
  function PoliciesOf(v: Input, restrict: bool): Option<seq<PolicyInformation>> {
    var es := Elements(v);
    if es.None? || |es.value| != 1 || es.value[0].tag != SEQUENCE || es.value[0].value == [] then None
    else ReadList(es.value[0].value, PolicyReader(restrict))
  }

  function Oids(ps: seq<PolicyInformation>): (r: seq<Input>)
    ensures |r| == |ps| && forall i :: 0 <= i < |ps| ==> r[i] == ps[i].policyOid
  {
    seq(|ps|, i requires 0 <= i < |ps| => ps[i].policyOid)
  }

  // ----- parsing

  method ParseQualifier(parser: Parser, restrict: bool, ghost t: Tlv) returns (r: Option<PolicyQualifierInfo>)
    requires t.tag == SEQUENCE && parser.rest == t.value
    modifies parser
    ensures r == QualifierOf(t, restrict)
  {
    hide ReadElement;
    ghost var s := parser.rest;
    var ok, oid := parser.ReadTag(OBJECT);
    if !ok { return None; }
    AfterFirst(s, ReadElement(s).value);
    ghost var s' := parser.rest;
    assert s' == s[|ReadElement(s).value.raw|..];
    if restrict && oid != CPS_POINTER && oid != USER_NOTICE { return None; }
    var qualifier;
    ok, qualifier := parser.ReadRawTLV();
    if !ok { return None; }
    AfterFirst(s', ReadElement(s').value);
    assert parser.rest == s'[|ReadElement(s').value.raw|..];
    if parser.HasMore() { return None; }
    return Some(PolicyQualifierInfo(oid, qualifier));
  }

  method ParsePolicyQualifiers(restrict: bool, parser: Parser) returns (r: Option<seq<PolicyQualifierInfo>>)
    modifies parser
    ensures r == QualifiersOf(old(parser.rest), restrict)
  {
    hide ReadElement, QualifierOf, AllOf;
    ghost var s, f := parser.rest, QualifierReader(restrict);
    ghost var done: seq<Tlv> := [];
    if !parser.HasMore() { return None; }
    var out: seq<PolicyQualifierInfo> := [];
    ReadNothing(s);
    assert AllOf([], f) == Some([]);
    while parser.HasMore()
      invariant ReadSoFar(s, done, parser.rest)
      invariant AllOf(done, f) == Some(out)
      decreases |parser.rest|
    {
      ghost var rest := parser.rest;
      var ok, inner := parser.ReadSequence();
      if !ok {
        if ReadElement(rest).Some? { NotASequence(rest, restrict); }
        ListStops(s, done, rest, f);
        return None;
      }
      var qualifier := ParseQualifier(inner, restrict, ReadElement(rest).value);
      if qualifier.None? {
        ListStops(s, done, rest, f);
        return None;
      }
      ListOneMore(s, done, rest, f, out);
      assert rest[|ReadElement(rest).value.raw|..] == parser.rest;
      out := out + [qualifier.value];
      done := done + [ReadElement(rest).value];
    }
    ReadAllOf(s, done);
    return Some(out);
  }

  lemma NotASequence(s: Input, restrict: bool)
    requires ReadElement(s).Some? && ReadElement(s).value.tag != SEQUENCE
    ensures QualifierOf(ReadElement(s).value, restrict).None? && PolicyOf(ReadElement(s).value, restrict).None?
  {
  }

  method ParsePolicy(parser: Parser, restrict: bool, ghost t: Tlv) returns (r: Option<PolicyInformation>)
    requires t.tag == SEQUENCE && parser.rest == t.value
    modifies parser
    ensures r == PolicyOf(t, restrict)
  {
    hide ReadElement, QualifiersOf;
    ghost var s := parser.rest;
    var ok, policyOid := parser.ReadTag(OBJECT);
    if !ok { return None; }
    AfterFirst(s, ReadElement(s).value);
    ghost var s' := parser.rest;
    assert s' == s[|ReadElement(s).value.raw|..];
    if !parser.HasMore() { return Some(PolicyInformation(policyOid, [])); }
    var qualifiersParser;
    ok, qualifiersParser := parser.ReadSequence();
    if !ok { return None; }
    AfterFirst(s', ReadElement(s').value);
    assert parser.rest == s'[|ReadElement(s').value.raw|..];
    if parser.HasMore() { return None; }
    var qualifiers := ParsePolicyQualifiers(restrict || policyOid == ANY_POLICY, qualifiersParser);
    if qualifiers.None? { return None; }
    return Some(PolicyInformation(policyOid, qualifiers.value));
  }

  /** The loop over the policies: what it collected, before the test for duplicates. */
  method CollectPolicies(parser: Parser, restrict: bool) returns (ok: bool, policyOids: seq<Input>, policyInformations: seq<PolicyInformation>)
    modifies parser
    ensures ok <==> ReadList(old(parser.rest), PolicyReader(restrict)).Some?
    ensures ok ==> policyInformations == ReadList(old(parser.rest), PolicyReader(restrict)).value
                   && policyOids == Oids(policyInformations)
  {
    hide ReadElement, PolicyOf, AllOf;
    ghost var s, f := parser.rest, PolicyReader(restrict);
    ghost var done: seq<Tlv> := [];
    policyOids, policyInformations := [], [];
    ReadNothing(s);
    assert AllOf([], f) == Some([]);
    while parser.HasMore()
      invariant ReadSoFar(s, done, parser.rest)
      invariant AllOf(done, f) == Some(policyInformations)
      invariant policyOids == Oids(policyInformations)
      decreases |parser.rest|
    {
      ghost var rest := parser.rest;
      var inner;
      ok, inner := parser.ReadSequence();
      if !ok {
        if ReadElement(rest).Some? { NotASequence(rest, restrict); }
        ListStops(s, done, rest, f);
        return;
      }
      var policy := ParsePolicy(inner, restrict, ReadElement(rest).value);
      if policy.None? {
        ListStops(s, done, rest, f);
        return false, policyOids, policyInformations;
      }
      ListOneMore(s, done, rest, f, policyInformations);
      assert rest[|ReadElement(rest).value.raw|..] == parser.rest;
      policyOids := policyOids + [policy.value.policyOid];
      policyInformations := policyInformations + [policy.value];
      done := done + [ReadElement(rest).value];
    }
    ReadAllOf(s, done);
    ok := true;
  }

  /** Accepted are well-formed lists without a repeated policy; the identifiers come out sorted. */
  method ParseCertificatePoliciesExtension(extensionValue: Input, restrict: bool)
    returns (ok: bool, policyOids: seq<Input>, policyInformations: seq<PolicyInformation>)
    ensures ok <==> PoliciesOf(extensionValue, restrict).Some? && Distinct(Oids(PoliciesOf(extensionValue, restrict).value))
    ensures ok ==> policyInformations == PoliciesOf(extensionValue, restrict).value
    ensures ok ==> StrictlyIncreasing(policyOids) && multiset(policyOids) == multiset(Oids(policyInformations))
  {
    hide ReadElement, PolicyReader, ReadList, Less;
    policyOids, policyInformations := [], [];
    var parser := new Parser(extensionValue);
    var policiesParser;
    ok, policiesParser := parser.ReadSequence();
    if !ok { return; }
    AfterFirst(extensionValue, ReadElement(extensionValue).value);
    assert parser.rest == extensionValue[|ReadElement(extensionValue).value.raw|..];
    if parser.HasMore() { return false, [], []; }
    if !policiesParser.HasMore() { return false, [], []; }
    ok, policyOids, policyInformations := CollectPolicies(policiesParser, restrict);
    if !ok { return; }
    ghost var found := policyOids;
    policyOids := Sort(policyOids);
    var dupe := AdjacentFind(policyOids);
    DistinctPermutes(found, policyOids);
    if dupe != |policyOids| {
      assert !Distinct(policyOids);
      return false, policyOids, policyInformations;
    }
    NoEqualNeighbours(policyOids);
    StrictIsDistinct(policyOids);
  }
}
