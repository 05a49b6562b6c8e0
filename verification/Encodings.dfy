/**
 * DER encodings of what the parsers read: extensions, names, policies, revoked lists and general names. Each parser
 * accepts exactly these octets, so what it returns determines what it was given.
 */
module Encodings {
  import opened Bytes
  import opened Der
  import opened DerEncoding
  import opened Wrappers
  import C = Crl
  import E = Extensions
  import N = ParseName
  import P = Policies

  function Element(tag: nat, value: Input): Tlv
    requires Fits(tag, value)
  {
    Tlv(tag, value, Encode(tag, value))
  }

  lemma FixedTagsFit(value: Input)
    requires |value| < LENGTH_LIMIT
    ensures Fits(SEQUENCE, value) && Fits(SET, value) && Fits(OBJECT, value) && Fits(OCTETSTRING, value) && Fits(BOOLEAN, value)
    ensures Fits(INTEGER, value)
  {
  }

  lemma RawsOfFew(t: Tlv, u: Tlv, v: Tlv)
    ensures Raws([t]) == t.raw && Raws([t, u]) == t.raw + u.raw && Raws([t, u, v]) == t.raw + u.raw + v.raw
  {
    assert [t][1..] == [] && t.raw + [] == t.raw;
    assert [t, u][1..] == [u] && [u][1..] == [];
    assert [t, u, v][1..] == [u, v] && [u, v][1..] == [v] && [v][1..] == [];
    assert Raws([v]) == v.raw + [];
    assert Raws([u, v]) == u.raw + Raws([v]);
    assert Raws([t, u, v]) == t.raw + Raws([u, v]);
    assert t.raw + (u.raw + (v.raw + [])) == t.raw + u.raw + v.raw;
  }

  /** Octets hold one element exactly when they are its encoding. */
  lemma OneElement(s: Input, t: Tlv)
    ensures Elements(s) == Some([t]) <==> IsElement(t) && s == t.raw
  {
    hide IsElement, Elements;
    ElementsExactly(s, [t]);
    RawsOfFew(t, t, t);
  }

  lemma TwoElements(s: Input, t: Tlv, u: Tlv)
    ensures Elements(s) == Some([t, u]) <==> IsElement(t) && IsElement(u) && s == t.raw + u.raw
  {
    hide IsElement, Elements, Raws;
    ElementsExactly(s, [t, u]);
    RawsOfFew(t, u, u);
    assert IsElement([t, u][0]) == IsElement(t) && IsElement([t, u][1]) == IsElement(u);
  }

  lemma ThreeElements(s: Input, t: Tlv, u: Tlv, v: Tlv)
    ensures Elements(s) == Some([t, u, v]) <==> IsElement(t) && IsElement(u) && IsElement(v) && s == t.raw + u.raw + v.raw
  {
    hide IsElement, Elements, Raws;
    var ts := [t, u, v];
    ElementsExactly(s, ts);
    RawsOfFew(t, u, v);
    assert IsElement(ts[0]) == IsElement(t) && IsElement(ts[1]) == IsElement(u) && IsElement(ts[2]) == IsElement(v);
  }

  lemma {:induction false} AllOfExactly<T>(ts: seq<Tlv>, f: Tlv -> Option<T>, xs: seq<T>)
    ensures AllOf(ts, f) == Some(xs) <==> |ts| == |xs| && forall i :: 0 <= i < |ts| ==> f(ts[i]) == Some(xs[i])
  {
    hide AllOf;
    if |ts| == |xs| && (forall i :: 0 <= i < |ts| ==> f(ts[i]) == Some(xs[i])) {
      assert AllOf(ts, f).Some?;
      assert forall i :: 0 <= i < |ts| ==> Some(AllOf(ts, f).value[i]) == Some(xs[i]);
      assert AllOf(ts, f).value == xs;
    }
  }

  lemma WholeElement(t: Tlv)
    ensures IsElement(t) <==> Fits(t.tag, t.value) && t.raw == Encode(t.tag, t.value)
  {
  }

  lemma NotEmpty(ts: seq<Tlv>)
    requires ts != [] && forall i :: 0 <= i < |ts| ==> IsElement(ts[i])
    ensures Raws(ts) != []
  {
    EncodingNotEmpty(ts[0].tag, ts[0].value);
  }

  lemma EncodingNotEmpty(tag: nat, value: Input)
    requires Fits(tag, value)
    ensures Encode(tag, value) != []
  {
    assert |EncodeTag(tag)| >= 1;
  }

  /** What make writes for each value. */
  function Made<T>(xs: seq<T>, make: T -> Tlv): (ts: seq<Tlv>)
    ensures |ts| == |xs| && forall i :: 0 <= i < |xs| ==> ts[i] == make(xs[i])
  {
    seq(|xs|, i requires 0 <= i < |xs| => make(xs[i]))
  }

  /** When f reads exactly what make writes of the values that fit, a list is read exactly when it is what make writes. */
  lemma ListExactly<T(!new)>(s: Input, f: Tlv -> Option<T>, fits: T -> bool, make: T -> Tlv, xs: seq<T>)
    requires forall x :: fits(x) ==> IsElement(make(x))
    requires forall t, x :: IsElement(t) ==> (f(t) == Some(x) <==> fits(x) && t == make(x))
    ensures ReadList(s, f) == Some(xs) <==> (forall i :: 0 <= i < |xs| ==> fits(xs[i])) && s == Raws(Made(xs, make))
  {
    hide IsElement, Elements, AllOf, Raws;
    var made := Made(xs, make);
    ElementsExactly(s, made);
    AllOfExactly(made, f, xs);
    if ReadList(s, f) == Some(xs) {
      var ts := Elements(s).value;
      ElementsExactly(s, ts);
      AllOfExactly(ts, f, xs);
      assert forall i :: 0 <= i < |xs| ==> IsElement(ts[i]) && f(ts[i]) == Some(xs[i]);
      assert ts == made;
    }
    if (forall i :: 0 <= i < |xs| ==> fits(xs[i])) && s == Raws(made) {
      forall i | 0 <= i < |xs| ensures IsElement(made[i]) && f(made[i]) == Some(xs[i]) { assert fits(xs[i]); }
    }
  }

  lemma MadeNotEmpty<T(!new)>(xs: seq<T>, make: T -> Tlv)
    requires forall i :: 0 <= i < |xs| ==> IsElement(make(xs[i]))
    ensures Raws(Made(xs, make)) == [] <==> xs == []
  {
    hide IsElement;
    if xs != [] { NotEmpty(Made(xs, make)); }
  }

  /** Elements in one sequence, not empty: what several parsers expect of their whole input. */
  function InSequence(ts: seq<Tlv>): Option<Input> {
    if ts != [] && Fits(SEQUENCE, Raws(ts)) then Some(Encode(SEQUENCE, Raws(ts))) else None
  }

  // ----- extensions

  /** The fields of an extension; the default of critical is not written. */
  function ExtensionBody(e: E.ParsedExtension): Input
    requires |e.oid| < LENGTH_LIMIT && |e.value| < LENGTH_LIMIT
  {
    FixedTagsFit(e.oid);
    FixedTagsFit(e.value);
    Encode(OBJECT, e.oid) + (if e.critical then Encode(BOOLEAN, [0xff]) else []) + Encode(OCTETSTRING, e.value)
  }

  predicate ExtensionFits(e: E.ParsedExtension) {
    |e.oid| < LENGTH_LIMIT && |e.value| < LENGTH_LIMIT && |ExtensionBody(e)| < LENGTH_LIMIT
  }

  lemma ExtensionFieldsExactly(s: Input, e: E.ParsedExtension)
    ensures Elements(s).Some? && E.ExtensionFields(Elements(s).value) == Some(e)
            <==> |e.oid| < LENGTH_LIMIT && |e.value| < LENGTH_LIMIT && s == ExtensionBody(e)
  {
    hide Encode, Elements;
    if Elements(s).Some? && E.ExtensionFields(Elements(s).value) == Some(e) {
      var es := Elements(s).value;
      if |es| == 2 {
        assert es == [es[0], es[1]];
        TwoElements(s, es[0], es[1]);
      } else {
        assert es == [es[0], es[1], es[2]];
        ThreeElements(s, es[0], es[1], es[2]);
      }
    }
    if |e.oid| < LENGTH_LIMIT && |e.value| < LENGTH_LIMIT && s == ExtensionBody(e) {
      FixedTagsFit(e.oid);
      FixedTagsFit(e.value);
      FixedTagsFit([0xff]);
      var o, v := Element(OBJECT, e.oid), Element(OCTETSTRING, e.value);
      if e.critical {
        ThreeElements(s, o, Element(BOOLEAN, [0xff]), v);
      } else {
        assert Encode(OBJECT, e.oid) + [] == Encode(OBJECT, e.oid);
        TwoElements(s, o, v);
      }
    }
  }

  /** EncodeExtension: one sequence of these fields. */
  function EncodeExtension(e: E.ParsedExtension): Input
    requires ExtensionFits(e)
  {
    FixedTagsFit(ExtensionBody(e));
    Encode(SEQUENCE, ExtensionBody(e))
  }

  /** ParseExtension accepts exactly the encodings of extensions. */
  lemma ExtensionExactly(tlv: Input, e: E.ParsedExtension)
    ensures E.ExtensionOf(tlv) == Some(e) <==> ExtensionFits(e) && tlv == EncodeExtension(e)
  {
    hide Encode, Elements, ExtensionBody, E.ExtensionFields;
    if E.ExtensionOf(tlv) == Some(e) {
      var o := Elements(tlv).value[0];
      assert Elements(tlv).value == [o];
      OneElement(tlv, o);
      ExtensionFieldsExactly(o.value, e);
    }
    if ExtensionFits(e) && tlv == EncodeExtension(e) {
      FixedTagsFit(ExtensionBody(e));
      OneElement(tlv, Element(SEQUENCE, ExtensionBody(e)));
      ExtensionFieldsExactly(ExtensionBody(e), e);
    }
  }

  /** A field that is one sequence, not empty: its elements are read exactly when it is their encoding. */
  lemma SequenceExactly(field: Input, ts: seq<Tlv>)
    ensures C.EntriesIn(field) == Some(ts) <==> (forall i :: 0 <= i < |ts| ==> IsElement(ts[i])) && InSequence(ts) == Some(field)
  {
    hide Encode, Elements, IsElement;
    if C.EntriesIn(field) == Some(ts) {
      var o := Elements(field).value[0];
      assert Elements(field).value == [o];
      OneElement(field, o);
      ElementsExactly(o.value, ts);
      WholeElement(o);
    }
    if (forall i :: 0 <= i < |ts| ==> IsElement(ts[i])) && InSequence(ts) == Some(field) {
      var o := Element(SEQUENCE, Raws(ts));
      WholeElement(o);
      OneElement(field, o);
      ElementsExactly(Raws(ts), ts);
      NotEmpty(ts);
    }
  }

  function ExtensionTlv(e: E.ParsedExtension): Tlv {
    if ExtensionFits(e) then (FixedTagsFit(ExtensionBody(e)); Element(SEQUENCE, ExtensionBody(e))) else Tlv(0, [], [])
  }

  lemma ExtensionElementExactly(t: Tlv, e: E.ParsedExtension)
    requires IsElement(t)
    ensures E.ExtensionElement(t) == Some(e) <==> ExtensionFits(e) && t == ExtensionTlv(e)
    ensures ExtensionFits(e) ==> IsElement(ExtensionTlv(e))
  {
    hide Encode, ExtensionBody, E.ExtensionOf;
    ExtensionExactly(t.raw, e);
    if ExtensionFits(e) && t.raw == EncodeExtension(e) {
      ElementExactly(t.raw, t);
      ElementExactly(t.raw, ExtensionTlv(e));
    }
  }

  /** ParseExtensions accepts exactly the encodings of non-empty lists without a repeated identifier. */
  lemma ExtensionsExactly(tlv: Input, es: seq<E.ParsedExtension>)
    ensures E.AcceptedExtensions(tlv) == Some(es) <==>
            && (forall i :: 0 <= i < |es| ==> ExtensionFits(es[i])) && E.DistinctOids(es)
            && InSequence(Made(es, ExtensionTlv)) == Some(tlv)
  {
    hide Encode, IsElement, Elements, ReadList, E.ExtensionElement, ExtensionFits, ExtensionTlv, E.DistinctOids;
    forall t, e | IsElement(t) ensures E.ExtensionElement(t) == Some(e) <==> ExtensionFits(e) && t == ExtensionTlv(e) {
      ExtensionElementExactly(t, e);
    }
    forall e | ExtensionFits(e) ensures IsElement(ExtensionTlv(e)) { AnyElement(); ExtensionElementExactly(Element(SET, []), e); }
    var ts := Made(es, ExtensionTlv);
    if E.ExtensionsOf(tlv) == Some(es) {
      var o := Elements(tlv).value[0];
      assert Elements(tlv).value == [o];
      OneElement(tlv, o);
      ListExactly(o.value, E.ExtensionElement, ExtensionFits, ExtensionTlv, es);
      MadeNotEmpty(es, ExtensionTlv);
      WholeElement(o);
    }
    if (forall i :: 0 <= i < |es| ==> ExtensionFits(es[i])) && InSequence(ts) == Some(tlv) {
      var o := Element(SEQUENCE, Raws(ts));
      WholeElement(o);
      OneElement(tlv, o);
      ListExactly(Raws(ts), E.ExtensionElement, ExtensionFits, ExtensionTlv, es);
      MadeNotEmpty(es, ExtensionTlv);
    }
  }

  lemma AnyElement()
    ensures Fits(SET, []) && IsElement(Element(SET, []))
  {
  }

  // ----- names

  predicate AttributeFits(a: N.X509NameAttribute) {
    |a.typ| < LENGTH_LIMIT && Fits(a.valueTag, a.value) && |AttributeBody(a)| < LENGTH_LIMIT
  }

  /** A type and a value. */
  function AttributeBody(a: N.X509NameAttribute): Input
    requires |a.typ| < LENGTH_LIMIT && Fits(a.valueTag, a.value)
  {
    FixedTagsFit(a.typ);
    Encode(OBJECT, a.typ) + Encode(a.valueTag, a.value)
  }

  function AttributeTlv(a: N.X509NameAttribute): Tlv {
    if AttributeFits(a) then (FixedTagsFit(AttributeBody(a)); Element(SEQUENCE, AttributeBody(a))) else Tlv(0, [], [])
  }

  lemma AttributeBodyExactly(s: Input, a: N.X509NameAttribute)
    ensures N.AttributeOf(s) == Some(a) <==> |a.typ| < LENGTH_LIMIT && Fits(a.valueTag, a.value) && s == AttributeBody(a)
  {
    hide Encode, Elements;
    if N.AttributeOf(s) == Some(a) {
      var es := Elements(s).value;
      assert es == [es[0], es[1]];
      TwoElements(s, es[0], es[1]);
    }
    if |a.typ| < LENGTH_LIMIT && Fits(a.valueTag, a.value) && s == AttributeBody(a) {
      FixedTagsFit(a.typ);
      TwoElements(s, Element(OBJECT, a.typ), Element(a.valueTag, a.value));
    }
  }

  lemma AttributeExactly(t: Tlv, a: N.X509NameAttribute)
    requires IsElement(t)
    ensures N.RdnElement(t) == Some(a) <==> AttributeFits(a) && t == AttributeTlv(a)
    ensures AttributeFits(a) ==> IsElement(AttributeTlv(a))
  {
    hide Encode, AttributeBody, N.AttributeOf;
    AttributeBodyExactly(t.value, a);
  }

  predicate RdnFits(rdn: N.RelativeDistinguishedName) {
    rdn != [] && (forall i :: 0 <= i < |rdn| ==> AttributeFits(rdn[i])) && Fits(SET, Raws(Made(rdn, AttributeTlv)))
  }

  function RdnTlv(rdn: N.RelativeDistinguishedName): Tlv {
    if RdnFits(rdn) then Element(SET, Raws(Made(rdn, AttributeTlv))) else Tlv(0, [], [])
  }

  lemma AttributesExactly(s: Input, rdn: N.RelativeDistinguishedName)
    ensures ReadList(s, N.RdnElement) == Some(rdn)
            <==> (forall i :: 0 <= i < |rdn| ==> AttributeFits(rdn[i])) && s == Raws(Made(rdn, AttributeTlv))
  {
    hide Encode, IsElement, ReadList, N.RdnElement, AttributeFits, AttributeTlv;
    forall t, a | IsElement(t) ensures N.RdnElement(t) == Some(a) <==> AttributeFits(a) && t == AttributeTlv(a) {
      AttributeExactly(t, a);
    }
    forall a | AttributeFits(a) ensures IsElement(AttributeTlv(a)) { AnyElement(); AttributeExactly(Element(SET, []), a); }
    ListExactly(s, N.RdnElement, AttributeFits, AttributeTlv, rdn);
  }

  lemma RdnExactly(t: Tlv, rdn: N.RelativeDistinguishedName)
    requires IsElement(t)
    ensures N.NameElement(t) == Some(rdn) <==> RdnFits(rdn) && t == RdnTlv(rdn)
    ensures RdnFits(rdn) ==> IsElement(RdnTlv(rdn))
  {
    hide Encode, ReadList, AttributeFits, AttributeTlv;
    AttributesExactly(t.value, rdn);
  }

  /** ParseNameValue accepts exactly the encodings of names none of whose RDNs is empty. */
  lemma NameExactly(v: Input, name: N.RDNSequence)
    ensures N.NameOf(v) == Some(name) <==> (forall i :: 0 <= i < |name| ==> RdnFits(name[i])) && v == Raws(Made(name, RdnTlv))
  {
    hide Encode, IsElement, ReadList, N.NameElement, RdnFits, RdnTlv;
    forall t, rdn | IsElement(t) ensures N.NameElement(t) == Some(rdn) <==> RdnFits(rdn) && t == RdnTlv(rdn) {
      RdnExactly(t, rdn);
    }
    forall rdn | RdnFits(rdn) ensures IsElement(RdnTlv(rdn)) { AnyElement(); RdnExactly(Element(SET, []), rdn); }
    ListExactly(v, N.NameElement, RdnFits, RdnTlv, name);
  }

  // ----- policies

  /** One element and nothing else. */
  ghost predicate IsRaw(q: Input) {
    exists t :: IsElement(t) && t.raw == q
  }

  /** The two qualifiers of section 4.2.1.4 of RFC 5280, id-qt-cps (1.3.6.1.5.5.7.2.1) and id-qt-unotice (1.3.6.1.5.5.7.2.2). */
  predicate KnownQualifier(oid: Input) {
    oid == [43, 6, 1, 5, 5, 7, 2, 1] || oid == [43, 6, 1, 5, 5, 7, 2, 2]
  }

  ghost predicate QualifierFits(q: P.PolicyQualifierInfo, restrict: bool) {
    && |q.qualifierOid| < LENGTH_LIMIT && IsRaw(q.qualifier) && |QualifierBody(q)| < LENGTH_LIMIT
    && (restrict ==> KnownQualifier(q.qualifierOid))
  }

  function QualifierBody(q: P.PolicyQualifierInfo): Input
    requires |q.qualifierOid| < LENGTH_LIMIT
  {
    FixedTagsFit(q.qualifierOid);
    Encode(OBJECT, q.qualifierOid) + q.qualifier
  }

  function QualifierTlv(q: P.PolicyQualifierInfo): Tlv {
    if |q.qualifierOid| < LENGTH_LIMIT && |QualifierBody(q)| < LENGTH_LIMIT
    then (FixedTagsFit(QualifierBody(q)); Element(SEQUENCE, QualifierBody(q))) else Tlv(0, [], [])
  }

  lemma QualifierExactly(t: Tlv, q: P.PolicyQualifierInfo, restrict: bool)
    requires IsElement(t)
    ensures P.QualifierOf(t, restrict) == Some(q) <==> QualifierFits(q, restrict) && t == QualifierTlv(q)
    ensures QualifierFits(q, restrict) ==> IsElement(QualifierTlv(q))
  {
    hide Encode, Elements;
    if P.QualifierOf(t, restrict) == Some(q) {
      var es := Elements(t.value).value;
      assert es == [es[0], es[1]];
      TwoElements(t.value, es[0], es[1]);
    }
    if QualifierFits(q, restrict) {
      FixedTagsFit(QualifierBody(q));
      if t == QualifierTlv(q) {
        FixedTagsFit(q.qualifierOid);
        var u :| IsElement(u) && u.raw == q.qualifier;
        TwoElements(t.value, Element(OBJECT, q.qualifierOid), u);
      }
    }
  }

  lemma QualifiersExactly(v: Input, qs: seq<P.PolicyQualifierInfo>, restrict: bool)
    ensures P.QualifiersOf(v, restrict) == Some(qs) <==>
            qs != [] && (forall i :: 0 <= i < |qs| ==> QualifierFits(qs[i], restrict)) && v == Raws(Made(qs, QualifierTlv))
  {
    hide Encode, IsElement, ReadList, P.QualifierOf, QualifierFits, QualifierTlv;
    var f, fits := P.QualifierReader(restrict), (q: P.PolicyQualifierInfo) => QualifierFits(q, restrict);
    forall t, q | IsElement(t) ensures f(t) == Some(q) <==> fits(q) && t == QualifierTlv(q) {
      QualifierExactly(t, q, restrict);
    }
    forall q | fits(q) ensures IsElement(QualifierTlv(q)) { AnyElement(); QualifierExactly(Element(SET, []), q, restrict); }
    ListExactly(v, f, fits, QualifierTlv, qs);
    if forall i :: 0 <= i < |qs| ==> fits(qs[i]) { MadeNotEmpty(qs, QualifierTlv); }
  }

  /** A policy: its identifier and, if it has any, its qualifiers in one sequence. */
  function PolicyBody(p: P.PolicyInformation): Option<Input> {
    if |p.policyOid| >= LENGTH_LIMIT then None
    else
      FixedTagsFit(p.policyOid);
      var oid := Encode(OBJECT, p.policyOid);
      if p.policyQualifiers == [] then Some(oid)
      else
        var qs := InSequence(Made(p.policyQualifiers, QualifierTlv));
        if qs.None? then None else Some(oid + qs.value)
  }

  /** anyPolicy, 2.5.29.32.0, allows known qualifiers only. */
  ghost predicate PolicyFits(p: P.PolicyInformation, restrict: bool) {
    && PolicyBody(p).Some? && |PolicyBody(p).value| < LENGTH_LIMIT
    && (forall i :: 0 <= i < |p.policyQualifiers| ==> QualifierFits(p.policyQualifiers[i], restrict || p.policyOid == [85, 29, 32, 0]))
  }

  function PolicyTlv(p: P.PolicyInformation): Tlv {
    if PolicyBody(p).Some? && |PolicyBody(p).value| < LENGTH_LIMIT
    then (FixedTagsFit(PolicyBody(p).value); Element(SEQUENCE, PolicyBody(p).value)) else Tlv(0, [], [])
  }

  lemma PolicyExactly(t: Tlv, p: P.PolicyInformation, restrict: bool)
    requires IsElement(t)
    ensures P.PolicyOf(t, restrict) == Some(p) <==> PolicyFits(p, restrict) && t == PolicyTlv(p)
    ensures PolicyFits(p, restrict) ==> IsElement(PolicyTlv(p))
  {
    hide Encode, Elements, P.QualifiersOf, QualifierFits, QualifierTlv;
    if P.PolicyOf(t, restrict) == Some(p) { PolicyWritten(t, p, restrict); }
    if PolicyFits(p, restrict) {
      FixedTagsFit(PolicyBody(p).value);
      if t == PolicyTlv(p) { PolicyReads(t, p, restrict); }
    }
  }

  lemma PolicyWritten(t: Tlv, p: P.PolicyInformation, restrict: bool)
    requires IsElement(t) && P.PolicyOf(t, restrict) == Some(p)
    ensures PolicyFits(p, restrict) && t == PolicyTlv(p)
  {
    hide Encode, Elements, P.QualifiersOf, QualifierFits, QualifierTlv;
    var es := Elements(t.value).value;
    if |es| == 1 {
      assert es == [es[0]];
      OneElement(t.value, es[0]);
    } else {
      assert es == [es[0], es[1]];
      TwoElements(t.value, es[0], es[1]);
      QualifiersExactly(es[1].value, p.policyQualifiers, restrict || p.policyOid == P.ANY_POLICY);
    }
  }

  lemma PolicyReads(t: Tlv, p: P.PolicyInformation, restrict: bool)
    requires IsElement(t) && PolicyFits(p, restrict) && t == PolicyTlv(p)
    ensures P.PolicyOf(t, restrict) == Some(p)
  {
    hide Encode, Elements, P.QualifiersOf, QualifierFits, QualifierTlv;
    FixedTagsFit(p.policyOid);
    var o := Element(OBJECT, p.policyOid);
    if p.policyQualifiers == [] {
      OneElement(t.value, o);
    } else {
      var qs := Made(p.policyQualifiers, QualifierTlv);
      TwoElements(t.value, o, Element(SEQUENCE, Raws(qs)));
      QualifiersExactly(Raws(qs), p.policyQualifiers, restrict || p.policyOid == P.ANY_POLICY);
    }
  }

  /** ParseCertificatePolicies reads exactly the encodings of one policy or more in a sequence. */
  lemma PoliciesExactly(v: Input, ps: seq<P.PolicyInformation>, restrict: bool)
    ensures P.PoliciesOf(v, restrict) == Some(ps) <==>
            (forall i :: 0 <= i < |ps| ==> PolicyFits(ps[i], restrict)) && InSequence(Made(ps, PolicyTlv)) == Some(v)
  {
    hide Encode, IsElement, Elements, ReadList, P.PolicyOf, PolicyFits, PolicyTlv;
    var f, fits := P.PolicyReader(restrict), (p: P.PolicyInformation) => PolicyFits(p, restrict);
    forall t, p | IsElement(t) ensures f(t) == Some(p) <==> fits(p) && t == PolicyTlv(p) { PolicyExactly(t, p, restrict); }
    forall p | fits(p) ensures IsElement(PolicyTlv(p)) { AnyElement(); PolicyExactly(Element(SET, []), p, restrict); }
    var ts := Made(ps, PolicyTlv);
    if P.PoliciesOf(v, restrict) == Some(ps) {
      var o := Elements(v).value[0];
      assert Elements(v).value == [o];
      OneElement(v, o);
      ListExactly(o.value, f, fits, PolicyTlv, ps);
      MadeNotEmpty(ps, PolicyTlv);
      WholeElement(o);
    }
    if (forall i :: 0 <= i < |ps| ==> fits(ps[i])) && InSequence(ts) == Some(v) {
      var o := Element(SEQUENCE, Raws(ts));
      WholeElement(o);
      OneElement(v, o);
      ListExactly(Raws(ts), f, fits, PolicyTlv, ps);
      MadeNotEmpty(ps, PolicyTlv);
    }
  }
}
