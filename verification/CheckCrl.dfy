/** When a CRL may answer for a certificate (CheckCRL of pki/crl.cc). */
module CheckCrl {
  import opened Bytes
  import opened Crl
  import opened Der
  import opened Extensions
  import opened Times
  import opened Wrappers

  const ISSUING_DISTRIBUTION_POINT: Input := [0x55, 0x1d, 0x1c]

  const KEY_USAGE_BIT_CRL_SIGN := 6

  datatype CertificateVersion = CERT_V1 | CERT_V2 | CERT_V3

  /** What CheckCRL looks at in a parsed certificate; basicConstraints is the cA flag of the extension. */
  datatype Certificate = Certificate(normalizedIssuer: Input, normalizedSubject: Input, serialNumber: Input, spki: Input,
                                     version: CertificateVersion, basicConstraints: Option<bool>, keyUsage: Option<set<nat>>)

  /** The distribution point of the certificate; fullName holds its URIs. */
  datatype DistributionPoint = DistributionPoint(hasReasons: bool, hasCrlIssuer: bool, fullName: Option<seq<Input>>)

  datatype ContainedCertsType = ANY_CERTS | USER_CERTS | CA_CERTS

  /** An issuing distribution point; names holds its URIs. */
  datatype Idp = Idp(names: Option<seq<Input>>, onlyContains: ContainedCertsType)

  datatype CertificateList = CertificateList(tbsTlv: Input, algorithmTlv: Input, signature: Input)

  datatype TbsCertList = TbsCertList(version: CrlVersion, algorithmTlv: Input, issuerTlv: Input,
                                     thisUpdate: GeneralizedTime, nextUpdate: Option<GeneralizedTime>,
                                     revoked: Option<Input>, extensionsTlv: Option<Input>)

  /** The parsers, the date check, name normalization and signature verification, which CheckCRL only calls. */
  datatype Services = Services(
    parseCertificateList: Input -> Option<CertificateList>,
    parseTbs: Input -> Option<TbsCertList>,
    parseAlgorithm: Input -> Option<nat>,
    parseIdp: Input -> Option<Idp>,
    dateValid: (GeneralizedTime, Option<GeneralizedTime>) -> bool,
    normalizeName: Input -> Option<Input>,
    verifySignedData: (nat, Input, Input, Input) -> bool)

  // ----- the conditions of section 6.3.3 of RFC 5280 that the source checks

  /** NormalizeNameTLV: one sequence, normalized. */
  function NormalizedTlv(tlv: Input, env: Services): Option<Input> {
    var es := Elements(tlv);
    if es.None? || |es.value| != 1 || es.value[0].tag != SEQUENCE then None else env.normalizeName(es.value[0].value)
  }

  /** Steps (b)(2)(i) to (iii): the distribution point names meet, and the kind of certificate is covered. */
  ghost predicate IdpCovers(idp: Idp, cert: Certificate, dp: DistributionPoint) {
    && (idp.names.Some? ==> dp.fullName.Some? && exists x :: x in dp.fullName.value && x in idp.names.value)
    && (idp.onlyContains == USER_CERTS ==> cert.basicConstraints != Some(true) && cert.version == CERT_V3)
    && (idp.onlyContains == CA_CERTS ==> cert.basicConstraints == Some(true))
  }

  /** Every critical extension is an issuing distribution point, and that one covers the certificate. */
  ghost predicate ExtensionsAllow(es: seq<ParsedExtension>, cert: Certificate, dp: DistributionPoint, env: Services) {
    && (forall i :: 0 <= i < |es| && es[i].critical ==> es[i].oid == ISSUING_DISTRIBUTION_POINT)
    && (forall i :: 0 <= i < |es| && es[i].oid == ISSUING_DISTRIBUTION_POINT ==>
          env.parseIdp(es[i].value).Some? && IdpCovers(env.parseIdp(es[i].value).value, cert, dp))
  }

  ghost predicate InScope(tbs: TbsCertList, cert: Certificate, dp: DistributionPoint, env: Services) {
    tbs.extensionsTlv.Some? ==>
      && AcceptedExtensions(tbs.extensionsTlv.value).Some?
      && ExtensionsAllow(AcceptedExtensions(tbs.extensionsTlv.value).value, cert, dp, env)
  }

  /** The list is what it says, current, from the issuer of the certificate, and covers the certificate. */
  ghost predicate Applies(list: CertificateList, tbs: TbsCertList, cert: Certificate, dp: DistributionPoint, env: Services) {
    && !dp.hasReasons && !dp.hasCrlIssuer
    && env.parseAlgorithm(list.algorithmTlv).Some?
    && env.parseAlgorithm(tbs.algorithmTlv) == env.parseAlgorithm(list.algorithmTlv)
    && env.dateValid(tbs.thisUpdate, tbs.nextUpdate)
    && NormalizedTlv(tbs.issuerTlv, env) == Some(cert.normalizedIssuer)
    && InScope(tbs, cert, dp, env)
  }

  /** The certificate is named as the CRL issuer, may sign CRLs, and did sign this one. */
  predicate CanSign(signer: Certificate, issuer: Input, algorithm: nat, list: CertificateList, env: Services) {
    && signer.normalizedSubject == issuer
    && (signer.keyUsage.Some? ==> KEY_USAGE_BIT_CRL_SIGN in signer.keyUsage.value)
    && env.verifySignedData(algorithm, list.tbsTlv, list.signature, signer.spki)
  }

  /** Steps (f) and (g): the certificate has the name of the CRL issuer, may sign CRLs, and did sign this one. */
  ghost predicate Signs(signer: Certificate, list: CertificateList, tbs: TbsCertList, env: Services) {
    && NormalizedTlv(tbs.issuerTlv, env).Some? && env.parseAlgorithm(list.algorithmTlv).Some?
    && CanSign(signer, NormalizedTlv(tbs.issuerTlv, env).value, env.parseAlgorithm(list.algorithmTlv).value, list, env)
  }

  ghost predicate SignedAbove(chain: seq<Certificate>, target: nat, list: CertificateList, tbs: TbsCertList, env: Services) {
    exists i :: target < i < |chain| && Signs(chain[i], list, tbs, env)
  }

  ghost function Answer(crl: Input, chain: seq<Certificate>, target: nat, dp: DistributionPoint, env: Services): CRLRevocationStatus
    requires target < |chain|
  {
    var list := env.parseCertificateList(crl);
    if list.None? || env.parseTbs(list.value.tbsTlv).None? then UNKNOWN
    else
      var tbs := env.parseTbs(list.value.tbsTlv).value;
      if Applies(list.value, tbs, chain[target], dp, env) && SignedAbove(chain, target, list.value, tbs, env)
      then StatusOf(chain[target].serialNumber, tbs.version, tbs.revoked)
      else UNKNOWN
  }

  // ----- the code

  method NormalizeNameTLV(tlv: Input, env: Services) returns (r: Option<Input>)
    ensures r == NormalizedTlv(tlv, env)
  {
    hide ReadElement;
    var parser := new Parser(tlv);
    var ok, rdn := parser.ReadTag(SEQUENCE);
    if !ok { return None; }
    AfterFirst(tlv, ReadElement(tlv).value);
    assert parser.rest == tlv[|ReadElement(tlv).value.raw|..];
    r := env.normalizeName(rdn);
    if r.None? || parser.HasMore() { return None; }
  }

  method CheckIdp(value: Input, cert: Certificate, dp: DistributionPoint, env: Services) returns (ok: bool)
    ensures ok <==> env.parseIdp(value).Some? && IdpCovers(env.parseIdp(value).value, cert, dp)
  {
    var idp := env.parseIdp(value);
    if idp.None? { return false; }
    if idp.value.names.Some? {
      if dp.fullName.None? { return false; }
      var found := ContainsExactMatchingName(dp.fullName.value, idp.value.names.value);
      if !found { return false; }
    }
    match idp.value.onlyContains {
      case USER_CERTS =>
        if cert.basicConstraints == Some(true) || cert.version == CERT_V1 || cert.version == CERT_V2 { return false; }
      case CA_CERTS =>
        if cert.basicConstraints.None? || !cert.basicConstraints.value { return false; }
      case ANY_CERTS =>
    }
    return true;
  }

  method CheckExtensions(tlv: Input, cert: Certificate, dp: DistributionPoint, env: Services) returns (ok: bool)
    ensures ok <==> AcceptedExtensions(tlv).Some? && ExtensionsAllow(AcceptedExtensions(tlv).value, cert, dp, env)
  {
    hide IdpCovers, AcceptedExtensions;
    var unconsumed := new UnconsumedExtensions();
    ok := unconsumed.Parse(tlv);
    if !ok { return; }
    ghost var m, es := unconsumed.extensions, AcceptedExtensions(tlv).value;
    var idp := unconsumed.Consume(ISSUING_DISTRIBUTION_POINT);
    assert forall k :: k in unconsumed.extensions <==> k in m && k != ISSUING_DISTRIBUTION_POINT;
    if idp.Some? {
      var covers := CheckIdp(idp.value.value, cert, dp, env);
      if !covers {
        assert m[ISSUING_DISTRIBUTION_POINT] in es;
        return false;
      }
    }
    var critical := unconsumed.HasCritical(None);
    CriticalLeft(m, es, ISSUING_DISTRIBUTION_POINT);
    assert critical <==> exists k :: k in m && k != ISSUING_DISTRIBUTION_POINT && m[k].critical;
    ok := !critical;
  }

  /** The search for a signer among the certificates above the target. */
  method FindSigner(chain: seq<Certificate>, target: nat, issuer: Input, algorithm: nat, list: CertificateList, env: Services)
    returns (found: bool)
    requires target < |chain|
    ensures found <==> exists i :: target < i < |chain| && CanSign(chain[i], issuer, algorithm, list, env)
  {
    for i := target + 1 to |chain|
      invariant forall k :: target < k < i ==> !CanSign(chain[k], issuer, algorithm, list, env)
    {
      var signer := chain[i];
      if signer.normalizedSubject != issuer { continue; }
      if signer.keyUsage.Some? && KEY_USAGE_BIT_CRL_SIGN !in signer.keyUsage.value { continue; }
      if !env.verifySignedData(algorithm, list.tbsTlv, list.signature, signer.spki) { continue; }
      return true;
    }
    found := false;
  }

  method CheckCRL(crl: Input, chain: seq<Certificate>, target: nat, dp: DistributionPoint, env: Services)
    returns (status: CRLRevocationStatus)
    requires target < |chain|
    ensures status == Answer(crl, chain, target, dp, env)
  {
    hide NormalizedTlv, StatusOf, ExtensionsAllow, AcceptedExtensions;
    if dp.hasReasons { return UNKNOWN; }
    if dp.hasCrlIssuer { return UNKNOWN; }
    var cert := chain[target];
    var list := env.parseCertificateList(crl);
    if list.None? { return UNKNOWN; }
    var tbs := env.parseTbs(list.value.tbsTlv);
    if tbs.None? { return UNKNOWN; }
    var algorithm := env.parseAlgorithm(list.value.algorithmTlv);
    if algorithm.None? { return UNKNOWN; }
    var tbsAlgorithm := env.parseAlgorithm(tbs.value.algorithmTlv);
    if tbsAlgorithm.None? || algorithm.value != tbsAlgorithm.value { return UNKNOWN; }
    if !env.dateValid(tbs.value.thisUpdate, tbs.value.nextUpdate) { return UNKNOWN; }
    var issuer := NormalizeNameTLV(tbs.value.issuerTlv, env);
    if issuer.None? { return UNKNOWN; }
    if issuer.value != cert.normalizedIssuer { return UNKNOWN; }
    if tbs.value.extensionsTlv.Some? {
      var allowed := CheckExtensions(tbs.value.extensionsTlv.value, cert, dp, env);
      if !allowed { return UNKNOWN; }
    }
    var signed := FindSigner(chain, target, issuer.value, algorithm.value, list.value, env);
    assert signed <==> SignedAbove(chain, target, list.value, tbs.value, env);
    if !signed { return UNKNOWN; }
    status := GetCRLStatusForCert(cert.serialNumber, tbs.value.version, tbs.value.revoked);
  }

  // ----- failing closed

  /** A certificate above the target has the name of the target's issuer and signed the list with the list's own algorithm. */
  ghost predicate SignedByIssuer(chain: seq<Certificate>, target: nat, list: CertificateList, env: Services)
    requires target < |chain| && env.parseAlgorithm(list.algorithmTlv).Some?
  {
    exists i :: target < i < |chain|
      && CanSign(chain[i], chain[target].normalizedIssuer, env.parseAlgorithm(list.algorithmTlv).value, list, env)
  }

  /** The answer is definite exactly when the list applies to the certificate, an issuer in the chain signed it
      with its own algorithm, and none of its entries is bad. */
  lemma DefiniteExactly(crl: Input, chain: seq<Certificate>, target: nat, dp: DistributionPoint, env: Services)
    requires target < |chain|
    ensures Answer(crl, chain, target, dp, env) != UNKNOWN <==>
            var list := env.parseCertificateList(crl);
            && list.Some? && env.parseTbs(list.value.tbsTlv).Some?
            && var tbs := env.parseTbs(list.value.tbsTlv).value;
            && Applies(list.value, tbs, chain[target], dp, env)
            && SignedByIssuer(chain, target, list.value, env)
            && (tbs.revoked.Some? ==> UsableEntries(tbs.revoked.value, tbs.version).Some?)
  {
    hide NormalizedTlv, InScope, UsableEntries, Lists, CanSign;
    var list := env.parseCertificateList(crl);
    if list.Some? && env.parseTbs(list.value.tbsTlv).Some? {
      var tbs := env.parseTbs(list.value.tbsTlv).value;
      if Applies(list.value, tbs, chain[target], dp, env) {
        assert forall c :: Signs(c, list.value, tbs, env) <==>
          CanSign(c, chain[target].normalizedIssuer, env.parseAlgorithm(list.value.algorithmTlv).value, list.value, env);
      }
    }
  }

  ghost predicate HasExtension(crl: Input, e: ParsedExtension, env: Services) {
    var list := env.parseCertificateList(crl);
    && list.Some? && env.parseTbs(list.value.tbsTlv).Some?
    && var tlv := env.parseTbs(list.value.tbsTlv).value.extensionsTlv;
    && tlv.Some? && ExtensionsOf(tlv.value).Some? && e in ExtensionsOf(tlv.value).value
  }

  /** No critical extension is passed over, and a list for one kind of certificate never answers for the other. */
  lemma ScopeRespected(crl: Input, chain: seq<Certificate>, target: nat, dp: DistributionPoint, env: Services, e: ParsedExtension)
    requires target < |chain| && Answer(crl, chain, target, dp, env) != UNKNOWN
    requires HasExtension(crl, e, env)
    ensures e.critical ==> e.oid == ISSUING_DISTRIBUTION_POINT
    ensures e.oid == ISSUING_DISTRIBUTION_POINT ==> env.parseIdp(e.value).Some?
    ensures e.oid == ISSUING_DISTRIBUTION_POINT && env.parseIdp(e.value).value.onlyContains != ANY_CERTS ==>
              (env.parseIdp(e.value).value.onlyContains == CA_CERTS <==> chain[target].basicConstraints == Some(true))
  {
    hide StatusOf, NormalizedTlv, SignedAbove, ExtensionsOf;
  }

  /** The answer for a chain is the answer for its part from the target on: nothing below the target counts. */
  lemma OnlyIssuersCount(crl: Input, chain: seq<Certificate>, target: nat, dp: DistributionPoint, env: Services)
    requires target < |chain|
    ensures Answer(crl, chain, target, dp, env) == Answer(crl, chain[target..], 0, dp, env)
  {
    hide StatusOf, Applies, Signs;
    var upper := chain[target..];
    forall list, tbs ensures SignedAbove(chain, target, list, tbs, env) <==> SignedAbove(upper, 0, list, tbs, env) {
      if i :| target < i < |chain| && Signs(chain[i], list, tbs, env) { assert upper[i - target] == chain[i]; }
      if i :| 0 < i < |upper| && Signs(upper[i], list, tbs, env) { assert chain[i + target] == upper[i]; }
    }
  }

  // ----- the answer, by what the parsers and signatures say

  /** The names meet if the point has any, and the kinds agree: user certificates are of version 3 and not of a CA. */
  ghost predicate PointFits(idp: Idp, cert: Certificate, dp: DistributionPoint) {
    && (idp.names.Some? ==> dp.fullName.Some? && exists n :: n in idp.names.value && n in dp.fullName.value)
    && match idp.onlyContains
       case ANY_CERTS => true
       case USER_CERTS => cert.version.CERT_V3? && !(cert.basicConstraints.Some? && cert.basicConstraints.value)
       case CA_CERTS => cert.basicConstraints.Some? && cert.basicConstraints.value
  }

  /** The list parses, names one algorithm twice, is current and by the issuer of the certificate; its extensions are
      well formed, and each is an issuing distribution point (2.5.29.28) that fits or not critical. */
  ghost predicate Speaks(list: CertificateList, tbs: TbsCertList, algorithm: nat, cert: Certificate, dp: DistributionPoint, env: Services) {
    && !dp.hasReasons && !dp.hasCrlIssuer
    && env.parseAlgorithm(list.algorithmTlv) == Some(algorithm) && env.parseAlgorithm(tbs.algorithmTlv) == Some(algorithm)
    && env.dateValid(tbs.thisUpdate, tbs.nextUpdate)
    && (exists n: Tlv :: Elements(tbs.issuerTlv) == Some([n]) && n.tag == SEQUENCE && env.normalizeName(n.value) == Some(cert.normalizedIssuer))
    && (tbs.extensionsTlv.Some? ==>
          && AcceptedExtensions(tbs.extensionsTlv.value).Some?
          && forall x :: x in AcceptedExtensions(tbs.extensionsTlv.value).value ==>
               if x.oid == [85, 29, 28] then exists idp :: env.parseIdp(x.value) == Some(idp) && PointFits(idp, cert, dp)
               else !x.critical)
  }

  /** Some certificate above the target has the issuer's name, may sign CRLs as far as its key usage says, and signed the list. */
  ghost predicate SignedIn(chain: seq<Certificate>, target: nat, list: CertificateList, algorithm: nat, env: Services)
    requires target < |chain|
  {
    exists signer :: signer in chain[target + 1..] && signer.normalizedSubject == chain[target].normalizedIssuer
      && (signer.keyUsage.Some? ==> 6 in signer.keyUsage.value)
      && env.verifySignedData(algorithm, list.tbsTlv, list.signature, signer.spki)
  }

  lemma NameIs(tlv: Input, name: Input, env: Services)
    ensures NormalizedTlv(tlv, env) == Some(name) <==>
            exists n: Tlv :: Elements(tlv) == Some([n]) && n.tag == SEQUENCE && env.normalizeName(n.value) == Some(name)
  {
    hide Elements;
    if NormalizedTlv(tlv, env) == Some(name) { assert Elements(tlv).value == [Elements(tlv).value[0]]; }
  }

  lemma ScopeIs(tbs: TbsCertList, cert: Certificate, dp: DistributionPoint, env: Services)
    ensures InScope(tbs, cert, dp, env) <==>
            (tbs.extensionsTlv.Some? ==>
               && AcceptedExtensions(tbs.extensionsTlv.value).Some?
               && forall x :: x in AcceptedExtensions(tbs.extensionsTlv.value).value ==>
                    if x.oid == [85, 29, 28] then exists idp :: env.parseIdp(x.value) == Some(idp) && PointFits(idp, cert, dp)
                    else !x.critical)
  {
    hide AcceptedExtensions;
    forall idp ensures IdpCovers(idp, cert, dp) <==> PointFits(idp, cert, dp) {}
    hide IdpCovers, PointFits;
    if tbs.extensionsTlv.Some? && AcceptedExtensions(tbs.extensionsTlv.value).Some? {
      var es := AcceptedExtensions(tbs.extensionsTlv.value).value;
      assert forall i :: 0 <= i < |es| ==> es[i] in es;
    }
  }

  lemma SpeaksExactly(list: CertificateList, tbs: TbsCertList, cert: Certificate, dp: DistributionPoint, env: Services)
    ensures Applies(list, tbs, cert, dp, env) <==> exists a :: Speaks(list, tbs, a, cert, dp, env)
  {
    NameIs(tbs.issuerTlv, cert.normalizedIssuer, env);
    ScopeIs(tbs, cert, dp, env);
    hide NormalizedTlv, InScope, AcceptedExtensions, Elements;
    if Applies(list, tbs, cert, dp, env) { assert Speaks(list, tbs, env.parseAlgorithm(list.algorithmTlv).value, cert, dp, env); }
  }

  lemma SignedExactly(chain: seq<Certificate>, target: nat, list: CertificateList, tbs: TbsCertList, algorithm: nat,
                      dp: DistributionPoint, env: Services)
    requires target < |chain| && Applies(list, tbs, chain[target], dp, env) && env.parseAlgorithm(list.algorithmTlv) == Some(algorithm)
    ensures SignedAbove(chain, target, list, tbs, env) <==> SignedIn(chain, target, list, algorithm, env)
  {
    hide NormalizedTlv, InScope;
    if i :| target < i < |chain| && Signs(chain[i], list, tbs, env) { assert chain[i] == chain[target + 1..][i - target - 1]; }
    if SignedIn(chain, target, list, algorithm, env) {
      var signer :| signer in chain[target + 1..] && signer.normalizedSubject == chain[target].normalizedIssuer
        && (signer.keyUsage.Some? ==> 6 in signer.keyUsage.value)
        && env.verifySignedData(algorithm, list.tbsTlv, list.signature, signer.spki);
      var i :| 0 <= i < |chain[target + 1..]| && chain[target + 1..][i] == signer;
      assert Signs(chain[target + 1 + i], list, tbs, env);
    }
  }

  /** The list answers what its entries say exactly when it speaks for the certificate and was signed above it;
      it answers unknown otherwise. */
  lemma AnswerExactly(crl: Input, chain: seq<Certificate>, target: nat, dp: DistributionPoint, env: Services,
                      status: CRLRevocationStatus)
    requires target < |chain| && status != UNKNOWN
    ensures Answer(crl, chain, target, dp, env) == status <==>
            exists list, tbs, a ::
              && env.parseCertificateList(crl) == Some(list) && env.parseTbs(list.tbsTlv) == Some(tbs)
              && Speaks(list, tbs, a, chain[target], dp, env) && SignedIn(chain, target, list, a, env)
              && StatusOf(chain[target].serialNumber, tbs.version, tbs.revoked) == status
  {
    hide Applies, Speaks, SignedIn, SignedAbove, StatusOf;
    var l := env.parseCertificateList(crl);
    if l.Some? && env.parseTbs(l.value.tbsTlv).Some? {
      var list, tbs := l.value, env.parseTbs(l.value.tbsTlv).value;
      SpeaksExactly(list, tbs, chain[target], dp, env);
      forall a | Speaks(list, tbs, a, chain[target], dp, env)
        ensures SignedAbove(chain, target, list, tbs, env) <==> SignedIn(chain, target, list, a, env)
      {
        AlgorithmOf(list, tbs, a, chain[target], dp, env);
        SignedExactly(chain, target, list, tbs, a, dp, env);
      }
    }
  }

  lemma AlgorithmOf(list: CertificateList, tbs: TbsCertList, a: nat, cert: Certificate, dp: DistributionPoint, env: Services)
    requires Speaks(list, tbs, a, cert, dp, env)
    ensures env.parseAlgorithm(list.algorithmTlv) == Some(a)
  {
  }
}
