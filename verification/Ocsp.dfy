/** Revocation by OCSP response (pki/ocsp.cc). */
module Ocsp {
  import opened Bytes
  import opened Der
  import opened Extensions
  import opened Times
  import opened Wrappers

  datatype OCSPRevocationStatus = GOOD | REVOKED | UNKNOWN

  datatype ResponseStatus =
    | NOT_CHECKED | MISSING | PROVIDED | ERROR_RESPONSE | BAD_PRODUCED_AT | NO_MATCHING_RESPONSE
    | INVALID_DATE | PARSE_RESPONSE_ERROR | PARSE_RESPONSE_DATA_ERROR | UNHANDLED_CRITICAL_EXTENSION

  const CT_OCSP_EXTENSION: Input := [0x2b, 0x06, 0x01, 0x04, 0x01, 0xd6, 0x79, 0x02, 0x04, 0x05]
  const OCSP_SIGNING: Input := [0x2b, 0x06, 0x01, 0x05, 0x05, 0x07, 0x03, 0x09]

  datatype DigestAlgorithm = Md2 | Md4 | Md5 | Sha1 | Sha256 | Sha384 | Sha512

  datatype CertId = CertId(hashAlgorithm: DigestAlgorithm, issuerNameHash: Input, issuerKeyHash: Input, serialNumber: Input)

  datatype SingleResponse = SingleResponse(certIdTlv: Input, status: OCSPRevocationStatus, thisUpdate: GeneralizedTime,
                                           nextUpdate: Option<GeneralizedTime>, extensions: Option<Input>)

  datatype ResponderId = ByName(name: Input) | ByKey(keyHash: Input)

  datatype ResponseData = ResponseData(responderId: ResponderId, producedAt: GeneralizedTime, responses: seq<Input>, extensions: Option<Input>)

  datatype Response = Response(successful: bool, data: Input, algorithm: nat, signature: Input, certs: seq<Input>)

  datatype Certificate = Certificate(tbsTlv: Input, signatureAlgorithm: Option<nat>, signature: Input, serialNumber: Input,
                                     issuerTlv: Input, subjectTlv: Input, spki: Input, extendedKeyUsage: Option<seq<Input>>,
                                     notBefore: GeneralizedTime, notAfter: GeneralizedTime)

  /** Parsing, hashes, the date check, name matching and signature verification, which this module only calls. */
  datatype Services = Services(
    parseResponse: Input -> Option<Response>,
    parseResponseData: Input -> Option<ResponseData>,
    parseSingleResponse: Input -> Option<SingleResponse>,
    parseCertId: Input -> Option<CertId>,
    parseCertificate: Input -> Option<Certificate>,
    publicKeyBytes: Input -> Option<Input>,
    verifyHash: (DigestAlgorithm, Input, Input) -> bool,
    verifyNameMatch: (Input, Input) -> bool,
    dateValid: (GeneralizedTime, Option<GeneralizedTime>) -> bool,
    verifySignedData: (nat, Input, Input, Input) -> bool)

  // ----- what one response says about a certificate

  /** Malformed and Refused end the search; the others are about another certificate, out of date, or an answer. */
  datatype Kind = Malformed | Refused(details: ResponseStatus) | Elsewhere | Stale | Current(status: OCSPRevocationStatus)

  predicate Bad(k: Kind) {
    k.Malformed? || k.Refused?
  }

  /** What is wrong with optional extensions, one identifier being allowed to be critical. */
  ghost function ExtensionProblem(tlv: Option<Input>, except: Option<Input>): Option<ResponseStatus> {
    if tlv.None? then None
    else
      var es := AcceptedExtensions(tlv.value);
      if es.None? then Some(PARSE_RESPONSE_DATA_ERROR)
      else if exists i :: 0 <= i < |es.value| && es.value[i].critical && Some(es.value[i].oid) != except
      then Some(UNHANDLED_CRITICAL_EXTENSION)
      else None
  }

  /** The identifier names the certificate and its issuer by hashes of a supported kind. */
  ghost predicate Identifies(id: CertId, cert: Certificate, issuer: Certificate, env: Services) {
    && id.hashAlgorithm !in {Md2, Md4, Md5}
    && env.verifyHash(id.hashAlgorithm, id.issuerNameHash, cert.issuerTlv)
    && env.publicKeyBytes(issuer.spki).Some?
    && env.verifyHash(id.hashAlgorithm, id.issuerKeyHash, env.publicKeyBytes(issuer.spki).value)
    && id.serialNumber == cert.serialNumber
  }

  /** No two inputs share a hash. */
  ghost predicate CollisionFree(env: Services) {
    forall a, h, x, y :: env.verifyHash(a, h, x) && env.verifyHash(a, h, y) ==> x == y
  }

  /** An identifier names one certificate: issuer name, issuer key and serial number are fixed by it. */
  lemma IdentifiesOne(id: CertId, c: Certificate, d: Certificate, issuerOfC: Certificate, issuerOfD: Certificate, env: Services)
    requires CollisionFree(env) && Identifies(id, c, issuerOfC, env) && Identifies(id, d, issuerOfD, env)
    ensures c.serialNumber == d.serialNumber && c.issuerTlv == d.issuerTlv
    ensures env.publicKeyBytes(issuerOfC.spki) == env.publicKeyBytes(issuerOfD.spki)
  {
  }

  ghost function KindOf(der: Input, cert: Certificate, issuer: Certificate, env: Services): Kind {
    var single := env.parseSingleResponse(der);
    if single.None? then Malformed
    else if ExtensionProblem(single.value.extensions, Some(CT_OCSP_EXTENSION)).Some?
    then Refused(ExtensionProblem(single.value.extensions, Some(CT_OCSP_EXTENSION)).value)
    else
      var id := env.parseCertId(single.value.certIdTlv);
      if id.None? then Malformed
      else if !Identifies(id.value, cert, issuer, env) then Elsewhere
      else if !env.dateValid(single.value.thisUpdate, single.value.nextUpdate) then Stale
      else Current(single.value.status)
  }

  ghost function Kinds(ders: seq<Input>, cert: Certificate, issuer: Certificate, env: Services): (r: seq<Kind>)
    ensures |r| == |ders| && forall i :: 0 <= i < |ders| ==> r[i] == KindOf(ders[i], cert, issuer, env)
  {
    seq(|ders|, i requires 0 <= i < |ders| => KindOf(ders[i], cert, issuer, env))
  }

  // ----- what all responses say

  ghost predicate NoneBad(ks: seq<Kind>) {
    forall k :: k in ks ==> !Bad(k)
  }

  ghost predicate SomeCurrent(ks: seq<Kind>) {
    exists k :: k in ks && k.Current?
  }

  /** The strictest answer that applies; unknown when a response is bad or none applies. */
  ghost function StrictestStatus(ks: seq<Kind>): OCSPRevocationStatus {
    if !NoneBad(ks) || !SomeCurrent(ks) then UNKNOWN
    else if Current(REVOKED) in ks then REVOKED
    else if Current(UNKNOWN) in ks then UNKNOWN
    else GOOD
  }

  /** The details of responses none of which is bad. */
  ghost function PlainDetails(ks: seq<Kind>): ResponseStatus {
    if SomeCurrent(ks) then PROVIDED else if Stale in ks then INVALID_DATE else NO_MATCHING_RESPONSE
  }

  ghost function FirstBad(ks: seq<Kind>): (b: nat)
    requires !NoneBad(ks)
    ensures b < |ks| && Bad(ks[b]) && NoneBad(ks[..b])
  {
    if Bad(ks[0]) then 0
    else
      var b := FirstBad(ks[1..]);
      assert ks[..b + 1] == [ks[0]] + ks[1..][..b];
      b + 1
  }

  /** The first bad response has the last word on the details, if it has any to give. */
  ghost function DetailsOf(ks: seq<Kind>): ResponseStatus {
    if NoneBad(ks) then PlainDetails(ks)
    else
      var b := FirstBad(ks);
      if ks[b].Refused? then ks[b].details else PlainDetails(ks[..b])
  }

  lemma FirstBadUnique(ks: seq<Kind>, a: nat, b: nat)
    requires a < |ks| && Bad(ks[a]) && NoneBad(ks[..a])
    requires b < |ks| && Bad(ks[b]) && NoneBad(ks[..b])
    ensures a == b
  {
  }

  /** A bad response behind good ones decides. */
  lemma StopsAt(ks: seq<Kind>, b: nat)
    requires b < |ks| && Bad(ks[b]) && NoneBad(ks[..b])
    ensures StrictestStatus(ks) == UNKNOWN
    ensures DetailsOf(ks) == if ks[b].Refused? then ks[b].details else PlainDetails(ks[..b])
  {
    hide PlainDetails;
    assert ks[b] in ks && !NoneBad(ks);
    FirstBadUnique(ks, FirstBad(ks), b);
  }

  /** One more response, not bad, moves the details up and the status only towards strictness. */
  lemma OneMore(ks: seq<Kind>, k: Kind)
    requires NoneBad(ks) && !Bad(k)
    ensures NoneBad(ks + [k])
    ensures PlainDetails(ks + [k]) ==
              if k.Current? then PROVIDED
              else if k.Stale? && PlainDetails(ks) != PROVIDED then INVALID_DATE
              else PlainDetails(ks)
    ensures StrictestStatus(ks + [k]) ==
              if k.Current? && (PlainDetails(ks) != PROVIDED || StrictestStatus(ks) == GOOD || k.status == REVOKED) then k.status
              else StrictestStatus(ks)
  {
    var ls := ks + [k];
    assert k in ls && forall x :: x in ls <==> x in ks || x == k;
  }

  // ----- the code

  /** ParseOCSPResponseDataExtensions and ParseOCSPSingleResponseExtensions, which differ in the exception. */
  method CheckExtensions(tlv: Input, except: Option<Input>) returns (problem: Option<ResponseStatus>)
    ensures problem == ExtensionProblem(Some(tlv), except)
  {
    hide AcceptedExtensions;
    var extensions := new UnconsumedExtensions();
    var ok := extensions.Parse(tlv);
    if !ok { return Some(PARSE_RESPONSE_DATA_ERROR); }
    ghost var m, es := extensions.extensions, AcceptedExtensions(tlv).value;
    var critical := extensions.HasCritical(except);
    if critical {
      ghost var k :| k in m && m[k].critical && Some(m[k].oid) != except;
      ghost var i :| 0 <= i < |es| && es[i] == m[k];
      return Some(UNHANDLED_CRITICAL_EXTENSION);
    }
    forall i | 0 <= i < |es| ensures !(es[i].critical && Some(es[i].oid) != except) {
      assert es[i].oid in m && m[es[i].oid] == es[i];
    }
    return None;
  }

  method CheckCertIDMatchesCertificate(id: CertId, cert: Certificate, issuer: Certificate, env: Services) returns (r: bool)
    ensures r <==> Identifies(id, cert, issuer, env)
  {
    if id.hashAlgorithm in {Md2, Md4, Md5} { return false; }
    if !env.verifyHash(id.hashAlgorithm, id.issuerNameHash, cert.issuerTlv) { return false; }
    var key := env.publicKeyBytes(issuer.spki);
    if key.None? { return false; }
    if !env.verifyHash(id.hashAlgorithm, id.issuerKeyHash, key.value) { return false; }
    return id.serialNumber == cert.serialNumber;
  }

  lemma NothingSaid()
    ensures StrictestStatus([]) == UNKNOWN && PlainDetails([]) == NO_MATCHING_RESPONSE
    ensures forall except :: ExtensionProblem(None, except).None?
  {
  }

  lemma GoodDetails(ks: seq<Kind>)
    requires NoneBad(ks)
    ensures DetailsOf(ks) == PlainDetails(ks)
  {
  }

  method GetRevocationStatusForCert(responses: seq<Input>, cert: Certificate, issuer: Certificate, env: Services)
    returns (result: OCSPRevocationStatus, details: ResponseStatus)
    ensures result == StrictestStatus(Kinds(responses, cert, issuer, env))
    ensures details == DetailsOf(Kinds(responses, cert, issuer, env))
  {
    NothingSaid();
    hide Identifies, ExtensionProblem, PlainDetails, StrictestStatus, DetailsOf;
    ghost var ks := Kinds(responses, cert, issuer, env);
    result, details := UNKNOWN, NO_MATCHING_RESPONSE;
    assert ks[..0] == [];
    for i := 0 to |responses|
      invariant NoneBad(ks[..i])
      invariant result == StrictestStatus(ks[..i])
      invariant details == PlainDetails(ks[..i])
    {
      assert ks[..i + 1] == ks[..i] + [ks[i]];
      if Bad(ks[i]) { StopsAt(ks, i); } else { OneMore(ks[..i], ks[i]); }
      var single := env.parseSingleResponse(responses[i]);
      if single.None? { return UNKNOWN, details; }
      if single.value.extensions.Some? {
        var problem := CheckExtensions(single.value.extensions.value, Some(CT_OCSP_EXTENSION));
        if problem.Some? { return UNKNOWN, problem.value; }
      }
      var id := env.parseCertId(single.value.certIdTlv);
      if id.None? { return UNKNOWN, details; }
      var matches := CheckCertIDMatchesCertificate(id.value, cert, issuer, env);
      if !matches { continue; }
      if !env.dateValid(single.value.thisUpdate, single.value.nextUpdate) {
        if details != PROVIDED { details := INVALID_DATE; }
        continue;
      }
      if details != PROVIDED || result == GOOD || single.value.status == REVOKED {
        result := single.value.status;
      }
      details := PROVIDED;
    }
    assert ks[..|responses|] == ks;
    GoodDetails(ks);
  }

  // ----- what the answer does not depend on

  function Strictness(s: OCSPRevocationStatus): nat {
    match s
    case GOOD => 0
    case UNKNOWN => 1
    case REVOKED => 2
  }

  /** Among responses that apply, the answer is one of them and none is stricter. */
  lemma StrictestIsMaximum(ks: seq<Kind>)
    requires NoneBad(ks) && SomeCurrent(ks)
    ensures Current(StrictestStatus(ks)) in ks
    ensures forall s :: Current(s) in ks ==> Strictness(s) <= Strictness(StrictestStatus(ks))
  {
    var k :| k in ks && k.Current?;
    assert k == Current(k.status);
    assert k.status == GOOD || k.status == UNKNOWN || k.status == REVOKED;
  }

  /** Any reordering of the responses gives the same status. */
  lemma StatusIgnoresOrder(rs: seq<Input>, ss: seq<Input>, cert: Certificate, issuer: Certificate, env: Services)
    requires multiset(rs) == multiset(ss)
    ensures StrictestStatus(Kinds(rs, cert, issuer, env)) == StrictestStatus(Kinds(ss, cert, issuer, env))
  {
    hide Kinds;
    KindsPermuted(rs, ss, cert, issuer, env);
    var ks, ls := Kinds(rs, cert, issuer, env), Kinds(ss, cert, issuer, env);
    assert forall k :: k in ks <==> k in multiset(ks);
    assert forall k :: k in ls <==> k in multiset(ls);
  }

  /** Without a bad response the details depend on what is there, not on its order. */
  lemma PlainDetailsIgnoreOrder(ks: seq<Kind>, ls: seq<Kind>)
    requires NoneBad(ks) && multiset(ks) == multiset(ls)
    ensures DetailsOf(ks) == DetailsOf(ls)
  {
    assert forall k :: k in ks <==> k in multiset(ks);
    assert forall k :: k in ls <==> k in multiset(ls);
  }

  /** Nothing bad; or something malformed and otherwise only responses for other certificates;
      or nothing malformed and only one reason to refuse a response. */
  ghost predicate OrderFree(ks: seq<Kind>) {
    || NoneBad(ks)
    || (Malformed in ks && forall k :: k in ks ==> k.Malformed? || k.Elsewhere?)
    || (Malformed !in ks && forall j, k :: j in ks && k in ks && j.Refused? && k.Refused? ==> j == k)
  }

  lemma OrderFreeDetails(ks: seq<Kind>, ls: seq<Kind>)
    requires OrderFree(ks) && multiset(ks) == multiset(ls)
    ensures DetailsOf(ks) == DetailsOf(ls)
  {
    hide PlainDetails;
    assert forall k :: k in ks <==> k in multiset(ks);
    assert forall k :: k in ls <==> k in multiset(ls);
    if NoneBad(ks) {
      PlainDetailsIgnoreOrder(ks, ls);
    } else {
      var a, b := FirstBad(ks), FirstBad(ls);
      assert ks[a] in ks && ls[b] in ls;
      if Malformed in ks {
        OnlyElsewhere(ks[..a]);
        OnlyElsewhere(ls[..b]);
      }
    }
  }

  lemma OnlyElsewhere(ks: seq<Kind>)
    requires forall k :: k in ks ==> k.Elsewhere? || k.Malformed?
    ensures PlainDetails(ks) == NO_MATCHING_RESPONSE
  {
  }

  /** The sequence with its i-th element moved to the front. */
  function Front<T>(s: seq<T>, i: nat): seq<T>
    requires i < |s|
  {
    [s[i]] + (s[..i] + s[i + 1..])
  }

  lemma FrontPermutes<T>(s: seq<T>, i: nat)
    requires i < |s|
    ensures multiset(Front(s, i)) == multiset(s)
  {
    assert s == s[..i] + ([s[i]] + s[i + 1..]);
  }

  /** The kinds of responses moved to the front, and what they leave to the details. */
  lemma FrontKinds(rs: seq<Input>, i: nat, cert: Certificate, issuer: Certificate, env: Services)
    requires i < |rs|
    ensures Kinds(Front(rs, i), cert, issuer, env) == Front(Kinds(rs, cert, issuer, env), i)
  {
    hide KindOf;
  }

  lemma BadFirst(ks: seq<Kind>, i: nat)
    requires i < |ks| && Bad(ks[i])
    ensures DetailsOf(Front(ks, i)) == if ks[i].Refused? then ks[i].details else NO_MATCHING_RESPONSE
  {
    var ls := Front(ks, i);
    assert ls[..0] == [] && ls[0] == ks[i];
    StopsAt(ls, 0);
  }

  lemma MatchBeforeBad(ls: seq<Kind>)
    requires !NoneBad(ls) && (ls[0].Stale? || ls[0].Current?) && forall k :: 0 <= k < |ls| ==> !ls[k].Refused?
    ensures DetailsOf(ls) != NO_MATCHING_RESPONSE
  {
    var b := FirstBad(ls);
    assert b > 0 && ls[..b][0] == ls[0];
  }

  /** With something malformed and nothing refused, a matching response at the front shows in the details. */
  lemma MatchFirst(ks: seq<Kind>, i: nat)
    requires i < |ks| && (ks[i].Stale? || ks[i].Current?)
    requires Malformed in ks && forall k :: k in ks ==> !k.Refused?
    ensures DetailsOf(Front(ks, i)) != NO_MATCHING_RESPONSE
  {
    var ls := Front(ks, i);
    FrontPermutes(ks, i);
    assert Malformed in multiset(ls);
    assert Bad(Malformed) && !NoneBad(ls);
    forall k | 0 <= k < |ls| ensures !ls[k].Refused? {
      assert ls[k] in multiset(ls);
    }
    hide DetailsOf, NoneBad;
    MatchBeforeBad(ls);
  }

  lemma RefusalDetails(der: Input, cert: Certificate, issuer: Certificate, env: Services)
    ensures var k := KindOf(der, cert, issuer, env); k.Refused? ==> k.details != NO_MATCHING_RESPONSE
  {
    hide AcceptedExtensions, Identifies;
  }

  /** When the responses are not order-free, moving one or the other to the front gives different details. */
  lemma DetailsDiffer(rs: seq<Input>, cert: Certificate, issuer: Certificate, env: Services) returns (i: nat, j: nat)
    requires !OrderFree(Kinds(rs, cert, issuer, env))
    ensures i < |rs| && j < |rs|
    ensures DetailsOf(Kinds(Front(rs, i), cert, issuer, env)) != DetailsOf(Kinds(Front(rs, j), cert, issuer, env))
  {
    hide KindOf, DetailsOf, Front;
    var ks := Kinds(rs, cert, issuer, env);
    forall k | 0 <= k < |rs| ensures ks[k].Refused? ==> ks[k].details != NO_MATCHING_RESPONSE {
      RefusalDetails(rs[k], cert, issuer, env);
    }
    if Malformed in ks {
      i :| 0 <= i < |ks| && ks[i] == Malformed;
      BadFirst(ks, i);
      if r: nat :| r < |ks| && ks[r].Refused? {
        j := r;
        BadFirst(ks, j);
      } else {
        j :| 0 <= j < |ks| && !(ks[j].Malformed? || ks[j].Elsewhere?);
        MatchFirst(ks, j);
      }
    } else {
      var k, l :| k in ks && l in ks && k.Refused? && l.Refused? && k != l;
      i :| 0 <= i < |ks| && ks[i] == k;
      j :| 0 <= j < |ks| && ks[j] == l;
      BadFirst(ks, i);
      BadFirst(ks, j);
    }
    FrontKinds(rs, i, cert, issuer, env);
    FrontKinds(rs, j, cert, issuer, env);
  }

  ghost predicate SameDetailsInAnyOrder(rs: seq<Input>, cert: Certificate, issuer: Certificate, env: Services) {
    forall ss :: multiset(ss) == multiset(rs) ==>
      DetailsOf(Kinds(ss, cert, issuer, env)) == DetailsOf(Kinds(rs, cert, issuer, env))
  }

  /** The details do not depend on the order of the responses exactly when these are order-free. */
  lemma DetailsOrderExact(rs: seq<Input>, cert: Certificate, issuer: Certificate, env: Services)
    ensures SameDetailsInAnyOrder(rs, cert, issuer, env) <==> OrderFree(Kinds(rs, cert, issuer, env))
  {
    hide KindOf, DetailsOf, OrderFree, Kinds, Front;
    if OrderFree(Kinds(rs, cert, issuer, env)) {
      forall ss | multiset(ss) == multiset(rs)
        ensures DetailsOf(Kinds(ss, cert, issuer, env)) == DetailsOf(Kinds(rs, cert, issuer, env))
      {
        KindsPermuted(rs, ss, cert, issuer, env);
        OrderFreeDetails(Kinds(rs, cert, issuer, env), Kinds(ss, cert, issuer, env));
      }
    } else {
      var i, j := DetailsDiffer(rs, cert, issuer, env);
      FrontPermutes(rs, i);
      FrontPermutes(rs, j);
    }
  }

  /** Permuted responses have permuted kinds. */
  lemma {:induction false} KindsPermuted(rs: seq<Input>, ss: seq<Input>, cert: Certificate, issuer: Certificate, env: Services)
    requires multiset(rs) == multiset(ss)
    ensures multiset(Kinds(rs, cert, issuer, env)) == multiset(Kinds(ss, cert, issuer, env))
    decreases |rs|
  {
    assert |rs| == |multiset(rs)| == |ss|;
    if rs == [] {
      assert ss == [];
    } else {
      var j := PlaceOf(rs[0], rs, ss);
      var rest := ss[..j] + ss[j + 1..];
      assert rs == [rs[0]] + rs[1..];
      FrontPermutes(ss, j);
      assert multiset(rs[1..]) == multiset(rs) - multiset{rs[0]};
      assert multiset(rest) == multiset(Front(ss, j)) - multiset{ss[j]};
      hide KindOf, Kinds, Front;
      KindsPermuted(rs[1..], rest, cert, issuer, env);
      KindsCons(rs[0], rs[1..], cert, issuer, env);
      KindsFront(ss, j, cert, issuer, env);
    }
  }

  lemma PlaceOf(r: Input, rs: seq<Input>, ss: seq<Input>) returns (j: nat)
    requires multiset(rs) == multiset(ss) && r in rs
    ensures j < |ss| && ss[j] == r
  {
    assert r in multiset(ss);
    j :| 0 <= j < |ss| && ss[j] == r;
  }

  lemma KindsCons(r: Input, rest: seq<Input>, cert: Certificate, issuer: Certificate, env: Services)
    ensures multiset(Kinds([r] + rest, cert, issuer, env)) == multiset{KindOf(r, cert, issuer, env)} + multiset(Kinds(rest, cert, issuer, env))
  {
    hide KindOf;
    assert Kinds([r] + rest, cert, issuer, env) == [KindOf(r, cert, issuer, env)] + Kinds(rest, cert, issuer, env);
  }

  lemma KindsFront(ss: seq<Input>, j: nat, cert: Certificate, issuer: Certificate, env: Services)
    requires j < |ss|
    ensures multiset(Kinds(ss, cert, issuer, env))
            == multiset{KindOf(ss[j], cert, issuer, env)} + multiset(Kinds(ss[..j] + ss[j + 1..], cert, issuer, env))
  {
    hide KindOf, Kinds;
    KindsCons(ss[j], ss[..j] + ss[j + 1..], cert, issuer, env);
    FrontKinds(ss, j, cert, issuer, env);
    FrontPermutes(Kinds(ss, cert, issuer, env), j);
  }

  /** Two orders of the same two responses, one of them malformed, with different details. */
  lemma DetailsDependOnOrder(cert: Certificate, issuer: Certificate, time: GeneralizedTime)
    returns (rs: seq<Input>, ss: seq<Input>, env: Services)
    ensures multiset(rs) == multiset(ss)
    ensures DetailsOf(Kinds(rs, cert, issuer, env)) == PROVIDED
    ensures DetailsOf(Kinds(ss, cert, issuer, env)) == NO_MATCHING_RESPONSE
  {
    hide AcceptedExtensions;
    var good, bad: Input := [0], [1];
    env := Services(
      _ => None,
      _ => None,
      der => if der == [0] then Some(SingleResponse([], GOOD, time, None, None)) else None,
      _ => Some(CertId(Sha1, [], [], cert.serialNumber)),
      _ => None,
      _ => Some([]),
      (_, _, _) => true,
      (_, _) => false,
      (_, _) => true,
      (_, _, _, _) => false);
    rs, ss := [good, bad], [bad, good];
    assert rs == [good] + [bad] && ss == [bad] + [good];
    assert KindOf(good, cert, issuer, env) == Current(GOOD) && KindOf(bad, cert, issuer, env) == Malformed;
    var ks, ls := Kinds(rs, cert, issuer, env), Kinds(ss, cert, issuer, env);
    assert ks[..1] == [Current(GOOD)] && ls[..0] == [];
    StopsAt(ks, 1);
    StopsAt(ls, 0);
    assert Current(GOOD) in ks[..1];
  }

  // ----- who may sign a response

  /** Section 4.2.2.3 of RFC 6960: the identifier names the certificate's subject or key. */
  ghost predicate IsResponder(id: ResponderId, cert: Certificate, env: Services) {
    match id
    case ByName(name) =>
      && ReadElement(name).Some? && ReadElement(name).value.tag == SEQUENCE
      && ReadElement(cert.subjectTlv).Some? && ReadElement(cert.subjectTlv).value.tag == SEQUENCE
      && env.verifyNameMatch(ReadElement(name).value.value, ReadElement(cert.subjectTlv).value.value)
    case ByKey(hash) =>
      env.publicKeyBytes(cert.spki).Some? && env.verifyHash(Sha1, hash, env.publicKeyBytes(cert.spki).value)
  }

  /** Whoever one identifier names has one key, or names that all match when matching is an equivalence. */
  lemma RespondersAgree(id: ResponderId, c: Certificate, d: Certificate, env: Services)
    requires IsResponder(id, c, env) && IsResponder(id, d, env) && CollisionFree(env)
    requires forall x, y, z :: env.verifyNameMatch(x, y) && env.verifyNameMatch(x, z) ==> env.verifyNameMatch(y, z)
    ensures id.ByKey? ==> env.publicKeyBytes(c.spki) == env.publicKeyBytes(d.spki)
    ensures id.ByName? ==> ReadElement(c.subjectTlv).Some? && ReadElement(d.subjectTlv).Some?
                           && env.verifyNameMatch(ReadElement(c.subjectTlv).value.value, ReadElement(d.subjectTlv).value.value)
  {
    hide ReadElement;
    match id
    case ByName(name) =>
      var x := ReadElement(name).value.value;
      assert env.verifyNameMatch(x, ReadElement(c.subjectTlv).value.value);
    case ByKey(hash) =>
  }

  predicate SignedBy(r: Response, cert: Certificate, env: Services) {
    env.verifySignedData(r.algorithm, r.data, r.signature, cert.spki)
  }

  /** Section 4.2.2.2: signed by the issuer itself and meant for OCSP signing. */
  ghost predicate IsAuthorized(responder: Certificate, issuer: Certificate, env: Services) {
    && responder.signatureAlgorithm.Some?
    && env.verifySignedData(responder.signatureAlgorithm.value, responder.tbsTlv, responder.signature, issuer.spki)
    && responder.extendedKeyUsage.Some?
    && OCSP_SIGNING in responder.extendedKeyUsage.value
  }

  ghost predicate IsDelegate(der: Input, r: Response, id: ResponderId, issuer: Certificate, env: Services) {
    var cert := env.parseCertificate(der);
    cert.Some? && IsResponder(id, cert.value, env) && IsAuthorized(cert.value, issuer, env) && SignedBy(r, cert.value, env)
  }

  ghost predicate ProperlySigned(r: Response, id: ResponderId, issuer: Certificate, env: Services) {
    || (IsResponder(id, issuer, env) && SignedBy(r, issuer, env))
    || exists der :: der in r.certs && IsDelegate(der, r, id, issuer, env)
  }

  method CheckResponderIDMatchesCertificate(id: ResponderId, cert: Certificate, env: Services) returns (r: bool)
    ensures r <==> IsResponder(id, cert, env)
  {
    match id
    case ByName(name) =>
      var nameParser := new Parser(name);
      var ok, nameRdn := nameParser.ReadTag(SEQUENCE);
      if !ok { return false; }
      var subjectParser := new Parser(cert.subjectTlv);
      var certRdn;
      ok, certRdn := subjectParser.ReadTag(SEQUENCE);
      if !ok { return false; }
      return env.verifyNameMatch(nameRdn, certRdn);
    case ByKey(hash) =>
      var key := env.publicKeyBytes(cert.spki);
      if key.None? { return false; }
      return env.verifyHash(Sha1, hash, key.value);
  }

  method VerifyAuthorizedResponderCert(responder: Certificate, issuer: Certificate, env: Services) returns (r: bool)
    ensures r <==> IsAuthorized(responder, issuer, env)
  {
    if responder.signatureAlgorithm.None?
       || !env.verifySignedData(responder.signatureAlgorithm.value, responder.tbsTlv, responder.signature, issuer.spki)
    {
      return false;
    }
    if responder.extendedKeyUsage.None? { return false; }
    var purposes := responder.extendedKeyUsage.value;
    for i := 0 to |purposes|
      invariant OCSP_SIGNING !in purposes[..i]
    {
      if purposes[i] == OCSP_SIGNING { return true; }
    }
    return false;
  }

  method VerifyOCSPResponseSignature(response: Response, id: ResponderId, issuer: Certificate, env: Services) returns (r: bool)
    ensures r <==> ProperlySigned(response, id, issuer, env)
  {
    hide IsResponder, IsAuthorized;
    var byIssuer := CheckResponderIDMatchesCertificate(id, issuer, env);
    if byIssuer && SignedBy(response, issuer, env) { return true; }
    for i := 0 to |response.certs|
      invariant forall k :: 0 <= k < i ==> !IsDelegate(response.certs[k], response, id, issuer, env)
    {
      var cert := env.parseCertificate(response.certs[i]);
      if cert.None? { continue; }
      var matches := CheckResponderIDMatchesCertificate(id, cert.value, env);
      if !matches { continue; }
      var authorized := VerifyAuthorizedResponderCert(cert.value, issuer, env);
      if !authorized { continue; }
      if SignedBy(response, cert.value, env) {
        assert IsDelegate(response.certs[i], response, id, issuer, env);
        return true;
      }
    }
    return false;
  }

  // ----- the whole check

  /** A certificate given parsed, or to be parsed. */
  datatype CertificateInput = Parsed(certificate: Certificate) | Encoded(der: Input)

  ghost function Certified(c: CertificateInput, env: Services): Option<Certificate> {
    match c
    case Parsed(cert) => Some(cert)
    case Encoded(der) => env.parseCertificate(der)
  }

  /** The responses of data may be used for the certificate: produced while it was valid, nothing critical unread. */
  ghost predicate Usable(data: ResponseData, cert: Certificate) {
    && ExtensionProblem(data.extensions, None).None?
    && !Before(data.producedAt, cert.notBefore) && !Before(cert.notAfter, data.producedAt)
  }

  /** The status of parsed data: what the responses say when certificates, data and signature are all in order. */
  ghost function DataStatus(r: Response, data: ResponseData, cert: Option<Certificate>, iss: Option<Certificate>, env: Services)
    : OCSPRevocationStatus
  {
    if cert.None? || iss.None? || !Usable(data, cert.value) || !ProperlySigned(r, data.responderId, iss.value, env) then UNKNOWN
    else StrictestStatus(Kinds(data.responses, cert.value, iss.value, env))
  }

  /** The details name the first check that failed; a bad signature does not show in them. */
  ghost function DataDetails(data: ResponseData, cert: Option<Certificate>, iss: Option<Certificate>, env: Services): ResponseStatus {
    if ExtensionProblem(data.extensions, None).Some? then ExtensionProblem(data.extensions, None).value
    else if cert.None? || iss.None? then NOT_CHECKED
    else if !Usable(data, cert.value) then BAD_PRODUCED_AT
    else DetailsOf(Kinds(data.responses, cert.value, iss.value, env))
  }

  ghost function StatusFrom(raw: Input, certificate: CertificateInput, issuer: CertificateInput, env: Services): OCSPRevocationStatus {
    var response := env.parseResponse(raw);
    if raw == [] || response.None? || !response.value.successful then UNKNOWN
    else
      var data := env.parseResponseData(response.value.data);
      if data.None? then UNKNOWN
      else DataStatus(response.value, data.value, Certified(certificate, env), Certified(issuer, env), env)
  }

  ghost function DetailsFrom(raw: Input, certificate: CertificateInput, issuer: CertificateInput, env: Services): ResponseStatus {
    var response := env.parseResponse(raw);
    if raw == [] then MISSING
    else if response.None? then PARSE_RESPONSE_ERROR
    else if !response.value.successful then ERROR_RESPONSE
    else
      var data := env.parseResponseData(response.value.data);
      if data.None? then PARSE_RESPONSE_DATA_ERROR
      else DataDetails(data.value, Certified(certificate, env), Certified(issuer, env), env)
  }

  /** CheckOCSP from the extensions of the response data on. */
  method CheckResponseData(r: Response, data: ResponseData, certificate: CertificateInput, issuer: CertificateInput, env: Services)
    returns (status: OCSPRevocationStatus, details: ResponseStatus)
    ensures status == DataStatus(r, data, Certified(certificate, env), Certified(issuer, env), env)
    ensures details == DataDetails(data, Certified(certificate, env), Certified(issuer, env), env)
  {
    NothingSaid();
    hide ExtensionProblem, ProperlySigned, StrictestStatus, DetailsOf, Before, Kinds;
    if data.extensions.Some? {
      var problem := CheckExtensions(data.extensions.value, None);
      if problem.Some? { return UNKNOWN, problem.value; }
    }
    var cert := if certificate.Parsed? then Some(certificate.certificate) else env.parseCertificate(certificate.der);
    var iss := if issuer.Parsed? then Some(issuer.certificate) else env.parseCertificate(issuer.der);
    if cert.None? || iss.None? { return UNKNOWN, NOT_CHECKED; }
    if Before(data.producedAt, cert.value.notBefore) || Before(cert.value.notAfter, data.producedAt) {
      return UNKNOWN, BAD_PRODUCED_AT;
    }
    status, details := GetRevocationStatusForCert(data.responses, cert.value, iss.value, env);
    var signed := VerifyOCSPResponseSignature(r, data.responderId, iss.value, env);
    if !signed { status := UNKNOWN; }
  }

  method CheckOCSP(raw: Input, certificate: CertificateInput, issuer: CertificateInput, env: Services)
    returns (status: OCSPRevocationStatus, details: ResponseStatus)
    ensures status == StatusFrom(raw, certificate, issuer, env)
    ensures details == DetailsFrom(raw, certificate, issuer, env)
  {
    hide DataStatus, DataDetails, Certified;
    if raw == [] { return UNKNOWN, MISSING; }
    var response := env.parseResponse(raw);
    if response.None? { return UNKNOWN, PARSE_RESPONSE_ERROR; }
    if !response.value.successful { return UNKNOWN, ERROR_RESPONSE; }
    var data := env.parseResponseData(response.value.data);
    if data.None? { return UNKNOWN, PARSE_RESPONSE_DATA_ERROR; }
    status, details := CheckResponseData(response.value, data.value, certificate, issuer, env);
  }

  /** A definite answer comes from a response that applies, signed by the responder it names: the issuer
      or a certificate that the issuer signed for OCSP signing. */
  lemma DefiniteNeedsSignature(raw: Input, certificate: CertificateInput, issuer: CertificateInput, env: Services)
    requires StatusFrom(raw, certificate, issuer, env) != UNKNOWN
    ensures var response, iss := env.parseResponse(raw), Certified(issuer, env);
            && response.Some? && iss.Some? && env.parseResponseData(response.value.data).Some?
            && exists signer :: SignedBy(response.value, signer, env)
                 && IsResponder(env.parseResponseData(response.value.data).value.responderId, signer, env)
                 && (signer == iss.value || IsAuthorized(signer, iss.value, env))
    ensures DetailsFrom(raw, certificate, issuer, env) == PROVIDED
  {
    hide ExtensionProblem, KindOf, IsResponder, IsAuthorized, SignedBy;
    var response, iss := env.parseResponse(raw).value, Certified(issuer, env).value;
    var id := env.parseResponseData(response.data).value.responderId;
    if IsResponder(id, iss, env) && SignedBy(response, iss, env) {
      assert SignedBy(response, iss, env);
    } else {
      var der :| der in response.certs && IsDelegate(der, response, id, iss, env);
      assert SignedBy(response, env.parseCertificate(der).value, env);
    }
  }

  // ----- the status, by what the parsers, hashes and signatures say

  /** The extensions are well formed and the critical ones among them are of the kind excepted. */
  ghost predicate ExtensionsHandled(tlv: Input, except: Option<Input>) {
    && AcceptedExtensions(tlv).Some?
    && forall x :: x in AcceptedExtensions(tlv).value && x.critical ==> Some(x.oid) == except
  }

  /** Nothing of the response is malformed or critical and unknown; signed certificate timestamps,
      1.3.6.1.4.1.11129.2.4.5, are let pass. */
  ghost predicate Readable(der: Input, env: Services) {
    var single := env.parseSingleResponse(der);
    && single.Some?
    && (single.value.extensions.Some? ==>
          ExtensionsHandled(single.value.extensions.value, Some([43, 6, 1, 4, 1, 214, 121, 2, 4, 5])))
    && env.parseCertId(single.value.certIdTlv).Some?
  }

  /** The response is current, and for the certificate by serial number and by SHA hashes of its issuer's name and key. */
  ghost predicate Says(der: Input, status: OCSPRevocationStatus, cert: Certificate, issuer: Certificate, env: Services) {
    var single := env.parseSingleResponse(der);
    && single.Some? && env.parseCertId(single.value.certIdTlv).Some?
    && var id := env.parseCertId(single.value.certIdTlv).value;
    && id.serialNumber == cert.serialNumber
    && (id.hashAlgorithm.Sha1? || id.hashAlgorithm.Sha256? || id.hashAlgorithm.Sha384? || id.hashAlgorithm.Sha512?)
    && env.verifyHash(id.hashAlgorithm, id.issuerNameHash, cert.issuerTlv)
    && (exists key :: env.publicKeyBytes(issuer.spki) == Some(key) && env.verifyHash(id.hashAlgorithm, id.issuerKeyHash, key))
    && env.dateValid(single.value.thisUpdate, single.value.nextUpdate)
    && single.value.status == status
  }

  /** The signer has the responder's name or key, signed the response, and is the issuer or was signed by the issuer with the
      purpose of OCSP signing, 1.3.6.1.5.5.7.3.9. */
  ghost predicate Vouches(signer: Certificate, response: Response, id: ResponderId, env: Services) {
    && env.verifySignedData(response.algorithm, response.data, response.signature, signer.spki)
    && match id
       case ByName(name) =>
         exists n, m :: ReadElement(name) == Some(n) && ReadElement(signer.subjectTlv) == Some(m)
           && n.tag == SEQUENCE && m.tag == SEQUENCE && env.verifyNameMatch(n.value, m.value)
       case ByKey(hash) => exists key :: env.publicKeyBytes(signer.spki) == Some(key) && env.verifyHash(Sha1, hash, key)
  }

  ghost predicate Delegated(signer: Certificate, issuer: Certificate, env: Services) {
    && (exists a :: signer.signatureAlgorithm == Some(a) && env.verifySignedData(a, signer.tbsTlv, signer.signature, issuer.spki))
    && (exists purposes :: signer.extendedKeyUsage == Some(purposes) && [43, 6, 1, 5, 5, 7, 3, 9] in purposes)
  }

  /** A response that may be believed about the certificate: it parses, nothing critical in it is unknown, it was produced
      while the certificate was valid, and the issuer or a delegate of it enclosed in the response signed it. */
  ghost predicate Believed(raw: Input, response: Response, data: ResponseData, cert: Certificate, issuer: Certificate, env: Services) {
    && raw != [] && env.parseResponse(raw) == Some(response) && response.successful
    && env.parseResponseData(response.data) == Some(data)
    && (data.extensions.Some? ==> ExtensionsHandled(data.extensions.value, None))
    && !Before(data.producedAt, cert.notBefore) && !Before(cert.notAfter, data.producedAt)
    && (Vouches(issuer, response, data.responderId, env) ||
        exists der, signer :: der in response.certs && env.parseCertificate(der) == Some(signer)
          && Vouches(signer, response, data.responderId, env) && Delegated(signer, issuer, env))
  }

  lemma HandledExactly(tlv: Option<Input>, except: Option<Input>)
    ensures ExtensionProblem(tlv, except).None? <==> tlv.None? || ExtensionsHandled(tlv.value, except)
  {
    hide AcceptedExtensions;
    if tlv.Some? && AcceptedExtensions(tlv.value).Some? {
      var es := AcceptedExtensions(tlv.value).value;
      assert forall i :: 0 <= i < |es| ==> es[i] in es;
    }
  }

  lemma KindExactly(der: Input, cert: Certificate, issuer: Certificate, env: Services)
    ensures var k := KindOf(der, cert, issuer, env);
            && (Bad(k) <==> !Readable(der, env))
            && (!Bad(k) ==> forall s :: k == Current(s) <==> Says(der, s, cert, issuer, env))
  {
    var single := env.parseSingleResponse(der);
    if single.Some? { HandledExactly(single.value.extensions, Some(CT_OCSP_EXTENSION)); }
    hide ExtensionProblem, ExtensionsHandled;
  }

  lemma SignerExactly(signer: Certificate, response: Response, id: ResponderId, env: Services)
    ensures IsResponder(id, signer, env) && SignedBy(response, signer, env) <==> Vouches(signer, response, id, env)
  {
    hide ReadElement;
  }

  lemma SignedExactly(response: Response, id: ResponderId, issuer: Certificate, env: Services)
    ensures ProperlySigned(response, id, issuer, env) <==>
            || Vouches(issuer, response, id, env)
            || exists der, signer :: der in response.certs && env.parseCertificate(der) == Some(signer)
                 && Vouches(signer, response, id, env) && Delegated(signer, issuer, env)
  {
    forall signer ensures IsResponder(id, signer, env) && SignedBy(response, signer, env) <==> Vouches(signer, response, id, env) {
      SignerExactly(signer, response, id, env);
    }
    forall signer ensures IsAuthorized(signer, issuer, env) <==> Delegated(signer, issuer, env) {}
    hide IsResponder, SignedBy, Vouches, IsAuthorized, Delegated;
    if der :| der in response.certs && IsDelegate(der, response, id, issuer, env) {
      var signer := env.parseCertificate(der).value;
      assert Vouches(signer, response, id, env) && Delegated(signer, issuer, env);
    }
    if der, signer :| der in response.certs && env.parseCertificate(der) == Some(signer)
                      && Vouches(signer, response, id, env) && Delegated(signer, issuer, env) {
      assert IsDelegate(der, response, id, issuer, env);
    }
  }

  /** What the responses say together. */
  lemma ResponsesExactly(ders: seq<Input>, cert: Certificate, issuer: Certificate, env: Services)
    ensures var status := StrictestStatus(Kinds(ders, cert, issuer, env));
            var readable := forall der :: der in ders ==> Readable(der, env);
            && (status == REVOKED <==> readable && exists der :: der in ders && Says(der, REVOKED, cert, issuer, env))
            && (status == GOOD <==> readable && (exists der :: der in ders && Says(der, GOOD, cert, issuer, env))
                                    && forall der, s :: der in ders && Says(der, s, cert, issuer, env) ==> s == GOOD)
  {
    hide KindOf, Readable, Says;
    var ks := Kinds(ders, cert, issuer, env);
    forall i | 0 <= i < |ders|
      ensures (Bad(ks[i]) <==> !Readable(ders[i], env))
      ensures !Bad(ks[i]) ==> forall s :: ks[i] == Current(s) <==> Says(ders[i], s, cert, issuer, env)
    {
      KindExactly(ders[i], cert, issuer, env);
    }
    assert forall i :: 0 <= i < |ders| ==> ders[i] in ders && ks[i] in ks;
    if NoneBad(ks) {
      assert forall s :: Current(s) in ks <==> exists der :: der in ders && Says(der, s, cert, issuer, env);
    } else {
      var k :| k in ks && Bad(k);
    }
  }

  /** Revoked exactly when a believed response is readable throughout and some current part of it says so of the certificate;
      good exactly when some says good and none says anything else. */
  lemma StatusExactly(raw: Input, cert: Certificate, issuer: Certificate, env: Services)
    ensures var status := StatusFrom(raw, Parsed(cert), Parsed(issuer), env);
            && (status == REVOKED <==>
                  exists response, data :: Believed(raw, response, data, cert, issuer, env)
                    && (forall der :: der in data.responses ==> Readable(der, env))
                    && exists der :: der in data.responses && Says(der, REVOKED, cert, issuer, env))
            && (status == GOOD <==>
                  exists response, data :: Believed(raw, response, data, cert, issuer, env)
                    && (forall der :: der in data.responses ==> Readable(der, env))
                    && (exists der :: der in data.responses && Says(der, GOOD, cert, issuer, env))
                    && forall der, s :: der in data.responses && Says(der, s, cert, issuer, env) ==> s == GOOD)
  {
    hide ProperlySigned, Vouches, Delegated, StrictestStatus, Kinds, Readable, Says, Before, ExtensionProblem, ExtensionsHandled;
    var r := env.parseResponse(raw);
    if r.Some? && env.parseResponseData(r.value.data).Some? {
      var response, data := r.value, env.parseResponseData(r.value.data).value;
      BelievedExactly(raw, response, data, cert, issuer, env);
      ResponsesExactly(data.responses, cert, issuer, env);
    }
  }

  lemma BelievedExactly(raw: Input, response: Response, data: ResponseData, cert: Certificate, issuer: Certificate, env: Services)
    requires env.parseResponse(raw) == Some(response) && env.parseResponseData(response.data) == Some(data)
    ensures Believed(raw, response, data, cert, issuer, env) <==>
            raw != [] && response.successful && Usable(data, cert) && ProperlySigned(response, data.responderId, issuer, env)
  {
    HandledExactly(data.extensions, None);
    SignedExactly(response, data.responderId, issuer, env);
    hide ProperlySigned, Vouches, Delegated, Before, ExtensionProblem, ExtensionsHandled;
  }

  // ----- the details, likewise

  /** The response is for the certificate, current or not. */
  ghost predicate About(der: Input, cert: Certificate, issuer: Certificate, env: Services) {
    var single := env.parseSingleResponse(der);
    && single.Some? && env.parseCertId(single.value.certIdTlv).Some?
    && Identifies(env.parseCertId(single.value.certIdTlv).value, cert, issuer, env)
  }

  lemma StaleExactly(der: Input, cert: Certificate, issuer: Certificate, env: Services)
    requires Readable(der, env)
    ensures About(der, cert, issuer, env) <==>
            KindOf(der, cert, issuer, env).Stale? || exists s :: Says(der, s, cert, issuer, env)
  {
    KindExactly(der, cert, issuer, env);
    hide Readable, Identifies, Says, ExtensionProblem;
    if KindOf(der, cert, issuer, env).Current? { assert Says(der, KindOf(der, cert, issuer, env).status, cert, issuer, env); }
  }

  /** Readable responses: provided when one says something, out of date when one is about the certificate and none says
      anything, no match when none is about it. */
  lemma ReadableDetails(ders: seq<Input>, cert: Certificate, issuer: Certificate, env: Services)
    requires forall der :: der in ders ==> Readable(der, env)
    ensures var details := DetailsOf(Kinds(ders, cert, issuer, env));
            var said := exists der, s :: der in ders && Says(der, s, cert, issuer, env);
            details == if said then PROVIDED
                       else if exists der :: der in ders && About(der, cert, issuer, env) then INVALID_DATE
                       else NO_MATCHING_RESPONSE
  {
    hide KindOf, Readable, Says, About;
    var ks := Kinds(ders, cert, issuer, env);
    forall i | 0 <= i < |ders|
      ensures !Bad(ks[i]) && (forall s :: ks[i] == Current(s) <==> Says(ders[i], s, cert, issuer, env))
      ensures About(ders[i], cert, issuer, env) <==> ks[i].Stale? || exists s :: Says(ders[i], s, cert, issuer, env)
    {
      KindExactly(ders[i], cert, issuer, env);
      StaleExactly(ders[i], cert, issuer, env);
    }
    assert forall i :: 0 <= i < |ders| ==> ders[i] in ders && ks[i] in ks;
    assert SomeCurrent(ks) <==> exists der, s :: der in ders && Says(der, s, cert, issuer, env) by {
      if k :| k in ks && k.Current? { assert k == Current(k.status); }
    }
    if !SomeCurrent(ks) {
      assert Stale in ks <==> exists der :: der in ders && About(der, cert, issuer, env);
    }
  }

  /** The first unreadable response gives its own reason if its extensions are at fault, and otherwise leaves the
      details of the responses before it. */
  lemma UnreadableDetails(ders: seq<Input>, b: nat, cert: Certificate, issuer: Certificate, env: Services)
    requires b < |ders| && !Readable(ders[b], env) && forall i :: 0 <= i < b ==> Readable(ders[i], env)
    ensures var details := DetailsOf(Kinds(ders, cert, issuer, env));
            var single := env.parseSingleResponse(ders[b]);
            details == if single.None? || single.value.extensions.None? then DetailsOf(Kinds(ders[..b], cert, issuer, env))
                       else
                         var xs := AcceptedExtensions(single.value.extensions.value);
                         if xs.None? then PARSE_RESPONSE_DATA_ERROR
                         else if exists x :: x in xs.value && x.critical && x.oid != [43, 6, 1, 4, 1, 214, 121, 2, 4, 5]
                         then UNHANDLED_CRITICAL_EXTENSION
                         else DetailsOf(Kinds(ders[..b], cert, issuer, env))
  {
    var ks := Kinds(ders, cert, issuer, env);
    KindExactly(ders[b], cert, issuer, env);
    UnreadableKind(ders[b], cert, issuer, env);
    forall i | 0 <= i < b ensures !Bad(ks[i]) { KindExactly(ders[i], cert, issuer, env); }
    hide KindOf, Readable, AcceptedExtensions, Bad;
    assert ks[..b] == Kinds(ders[..b], cert, issuer, env);
    assert forall k :: k in ks[..b] ==> exists i :: 0 <= i < b && ks[i] == k;
    StopsAt(ks, b);
    GoodDetails(ks[..b]);
    hide DetailsOf;
  }

  lemma UnreadableKind(der: Input, cert: Certificate, issuer: Certificate, env: Services)
    requires !Readable(der, env)
    ensures var single, k := env.parseSingleResponse(der), KindOf(der, cert, issuer, env);
            if single.None? || single.value.extensions.None? then k == Malformed
            else
              var xs := AcceptedExtensions(single.value.extensions.value);
              if xs.None? then k == Refused(PARSE_RESPONSE_DATA_ERROR)
              else if exists x :: x in xs.value && x.critical && x.oid != [43, 6, 1, 4, 1, 214, 121, 2, 4, 5]
              then k == Refused(UNHANDLED_CRITICAL_EXTENSION)
              else k == Malformed
  {
    hide AcceptedExtensions, Identifies;
    var single := env.parseSingleResponse(der);
    if single.Some? && single.value.extensions.Some? && AcceptedExtensions(single.value.extensions.value).Some? {
      var es := AcceptedExtensions(single.value.extensions.value).value;
      assert forall i :: 0 <= i < |es| ==> es[i] in es;
    }
  }

  /** The details name the first thing that failed before the responses are looked at. */
  lemma DetailsExactly(raw: Input, certificate: CertificateInput, issuer: CertificateInput, env: Services)
    ensures var details := DetailsFrom(raw, certificate, issuer, env);
            && (details == MISSING <==> raw == [])
            && (details == PARSE_RESPONSE_ERROR <==> raw != [] && env.parseResponse(raw) == None)
            && (details == ERROR_RESPONSE <==> raw != [] && exists r :: env.parseResponse(raw) == Some(r) && !r.successful)
            && (details == NOT_CHECKED <==>
                  exists r, data :: ReadyData(raw, r, data, env) && (Unparsable(certificate, env) || Unparsable(issuer, env)))
            && (details == BAD_PRODUCED_AT <==>
                  exists r, data, cert :: ReadyData(raw, r, data, env) && !Unparsable(issuer, env) && Stands(certificate, cert, env)
                    && (Before(data.producedAt, cert.notBefore) || Before(cert.notAfter, data.producedAt)))
  {
    hide ExtensionsHandled, Before, AcceptedExtensions, ExtensionProblem, DetailsOf, Kinds;
    var r := env.parseResponse(raw);
    if r.Some? && env.parseResponseData(r.value.data).Some? {
      var data := env.parseResponseData(r.value.data).value;
      HandledExactly(data.extensions, None);
      ProblemIs(data.extensions, None);
      var cert, iss := Certified(certificate, env), Certified(issuer, env);
      assert raw != [] && r.value.successful && ExtensionProblem(data.extensions, None).None? ==> ReadyData(raw, r.value, data, env);
      if cert.Some? {
        assert Stands(certificate, cert.value, env);
        if iss.Some? { ResponseReasons(Kinds(data.responses, cert.value, iss.value, env), data.responses, cert.value, iss.value, env); }
      }
    }
  }

  /** The response arrived, parses, succeeded, and its data parse with nothing critical unread. */
  ghost predicate ReadyData(raw: Input, r: Response, data: ResponseData, env: Services) {
    && raw != [] && env.parseResponse(raw) == Some(r) && r.successful && env.parseResponseData(r.data) == Some(data)
    && (data.extensions.Some? ==> ExtensionsHandled(data.extensions.value, None))
  }

  ghost predicate Unparsable(c: CertificateInput, env: Services) {
    c.Encoded? && env.parseCertificate(c.der) == None
  }

  ghost predicate Stands(c: CertificateInput, cert: Certificate, env: Services) {
    if c.Parsed? then c.certificate == cert else env.parseCertificate(c.der) == Some(cert)
  }

  lemma ProblemIs(tlv: Option<Input>, except: Option<Input>)
    ensures ExtensionProblem(tlv, except).Some? ==>
              ExtensionProblem(tlv, except).value in {PARSE_RESPONSE_DATA_ERROR, UNHANDLED_CRITICAL_EXTENSION}
  {
    hide AcceptedExtensions;
  }

  /** The responses give no reason that an earlier check gives. */
  lemma ResponseReasons(ks: seq<Kind>, ders: seq<Input>, cert: Certificate, issuer: Certificate, env: Services)
    requires ks == Kinds(ders, cert, issuer, env)
    ensures DetailsOf(ks) in {PROVIDED, INVALID_DATE, NO_MATCHING_RESPONSE, PARSE_RESPONSE_DATA_ERROR, UNHANDLED_CRITICAL_EXTENSION}
  {
    hide Identifies, ExtensionProblem;
    if !NoneBad(ks) {
      var b := FirstBad(ks);
      var single := env.parseSingleResponse(ders[b]);
      if single.Some? { ProblemIs(single.value.extensions, Some(CT_OCSP_EXTENSION)); }
      assert ks[b] == KindOf(ders[b], cert, issuer, env);
    }
  }
}
