/** Name constraints of a certification path (pki/name_constraints.cc), section 4.2.1.10 of RFC 5280. */
module NameConstraints {
  import opened Bytes
  import opened Der
  import opened DnsNames
  import opened GeneralNames
  import opened IpUtil
  import opened Modular
  import opened Rfc822
  import opened Strings
  import opened Wrappers

  const SUPPORTED_NAME_TYPES: NameTypes := 150  // rfc822Name, dNSName, directoryName, iPAddress
  const MAX_CHECKS := 0x10_0000
  const SIZE_LIMIT := 0x1_0000_0000_0000_0000

  /** VerifyNameInSubtree and FindEmailAddressesInName: given, not modelled. */
  datatype NameMatcher = NameMatcher(inSubtree: (Input, Input) -> bool, emails: Input -> Option<seq<string>>)

  // ----- parsing

  /** The name of one GeneralSubtree: a sequence holding a single acceptable name. */
  ghost function SubtreeName(t: Tlv): Option<GeneralName> {
    var g := ReadElement(t.value);
    if t.tag != SEQUENCE || g.None? || g.value.raw != t.value then None
    else
      var r := Read(g.value.raw, IP_ADDRESS_AND_NETMASK);
      if r.Accepted? then Some(r.name) else None
  }

  ghost function SubtreeNames(ts: seq<Tlv>): Option<seq<GeneralName>> {
    if ts == [] then Some([])
    else
      var front, last := SubtreeNames(ts[..|ts| - 1]), SubtreeName(ts[|ts| - 1]);
      if front.None? || last.None? then None else Some(front.value + [last.value])
  }

  /** The names of a GeneralSubtrees value. */
  ghost function SubtreesOf(value: Input): Option<seq<GeneralName>> {
    var es := Elements(value);
    if value == [] || es.None? then None else SubtreeNames(es.value)
  }

  lemma SubtreeNamesOneMore(done: seq<Tlv>, t: Tlv)
    requires SubtreeNames(done).Some?
    ensures SubtreeNames(done + [t]) ==
            if SubtreeName(t).Some? then Some(SubtreeNames(done).value + [SubtreeName(t).value]) else None
  {
    assert (done + [t])[..|done|] == done;
  }

  lemma {:induction false} SubtreeNamesReject(done: seq<Tlv>, all: seq<Tlv>)
    requires done <= all && SubtreeNames(done).None?
    ensures SubtreeNames(all).None?
    decreases |all|
  {
    if |done| == |all| {
      assert done == all;
    } else {
      SubtreeNamesReject(done, all[..|all| - 1]);
    }
  }

  lemma AddedAllOneMore(g: NameLists, ns: seq<GeneralName>, n: GeneralName)
    ensures AddedAll(g, ns + [n]) == Added(AddedAll(g, ns), n)
  {
    assert (ns + [n])[..|ns|] == ns;
  }

  method ParseGeneralSubtrees(value: Input, subtrees: GeneralNames, errors: CertErrors) returns (ok: bool)
    modifies subtrees, errors
    ensures ok <==> SubtreesOf(value).Some?
    ensures ok ==> subtrees.Lists() == AddedAll(old(subtrees.Lists()), SubtreesOf(value).value)
    ensures old(BitsAgree(subtrees.Lists())) ==> BitsAgree(subtrees.Lists())
  {
    hide ReadElement, Elements, ReadSoFar, Read, SubtreeNames, Added, AddedAll, BitsAgree;
    ghost var before := subtrees.Lists();
    var parser := new Parser(value);
    if !parser.HasMore() {
      return false;
    }
    ghost var done: seq<Tlv> := [];
    ReadNothing(value);
    NoSubtrees(before);
    while parser.HasMore()
      invariant fresh(parser)
      invariant ReadSoFar(value, done, parser.rest)
      invariant SubtreeNames(done).Some?
      invariant subtrees.Lists() == AddedAll(before, SubtreeNames(done).value)
      invariant BitsAgree(before) ==> BitsAgree(subtrees.Lists())
      decreases |parser.rest|
    {
      ghost var rest := parser.rest;
      var subtree;
      ok, subtree := parser.ReadSequence();
      if !ok {
        BadSubtree(value, done, rest);
        return false;
      }
      ghost var t := ReadElement(rest).value;
      ReadOneMore(value, done, rest, t);
      assert parser.rest == rest[|t.raw|..];
      SubtreeNamesOneMore(done, t);
      var raw;
      ok, raw := subtree.ReadRawTLV();
      if !ok {
        BadSubtree(value, done, rest);
        return false;
      }
      ok := ParseGeneralName(raw, IP_ADDRESS_AND_NETMASK, subtrees, errors);
      if !ok {
        BadSubtree(value, done, rest);
        errors.AddError(FailedParsingGeneralName);
        return false;
      }
      if subtree.HasMore() {
        BadSubtree(value, done, rest);
        return false;
      }
      AddedAllOneMore(before, SubtreeNames(done).value, SubtreeName(t).value);
      done := done + [t];
    }
    ReadAllOf(value, done);
    ok := true;
  }

  lemma NoSubtrees(g: NameLists)
    ensures SubtreeNames([]) == Some([]) && AddedAll(g, []) == g
  {
  }

  lemma BadSubtree(value: Input, done: seq<Tlv>, rest: Input)
    requires ReadSoFar(value, done, rest) && rest != [] && SubtreeNames(done).Some?
    requires ReadElement(rest).None? || SubtreeName(ReadElement(rest).value).None?
    ensures SubtreesOf(value).None?
  {
    hide ReadElement, Elements, SubtreeName, ReadSoFar;
    if ReadElement(rest).None? {
      ReadStuck(value, done, rest);
    } else {
      var t := ReadElement(rest).value;
      SubtreeNamesOneMore(done, t);
      ReadOneMore(value, done, rest, t);
      if Elements(value).Some? {
        ReadPrefix(value, done + [t], rest[|t.raw|..]);
        SubtreeNamesReject(done + [t], Elements(value).value);
      }
    }
  }

  /** The name types that a constraint of the given criticality imposes. */
  function Imposed(present: NameTypes, isCritical: bool): NameTypes {
    present & (if isCritical then ALL_TYPES else SUPPORTED_NAME_TYPES)
  }

  function Unsupported(present: NameTypes): NameTypes {
    present & !SUPPORTED_NAME_TYPES
  }

  /** The optional element at the front, and the rest. */
  ghost function Optional(s: Input, tag: nat): (Option<Input>, Input) {
    if s != [] && ReadElement(s).Some? && ReadElement(s).value.tag == tag
    then (Some(ReadElement(s).value.value), s[|ReadElement(s).value.raw|..])
    else (None, s)
  }

  /** The names of an optional GeneralSubtrees field. */
  ghost function FieldNames(field: Option<Input>): Option<seq<GeneralName>> {
    if field.None? then Some([]) else SubtreesOf(field.value)
  }

  /** The permitted and excluded names of an extension; None for both fields absent or anything malformed. */
  ghost function ExtensionNames(extension: Input): Option<(seq<GeneralName>, seq<GeneralName>)> {
    var e := ReadElement(extension);
    if e.None? || e.value.tag != SEQUENCE || e.value.raw != extension then None
    else
      var permitted := Optional(e.value.value, CONTEXT_SPECIFIC + CONSTRUCTED + 0);
      var excluded := Optional(permitted.1, CONTEXT_SPECIFIC + CONSTRUCTED + 1);
      var p, x := FieldNames(permitted.0), FieldNames(excluded.0);
      if (permitted.0.None? && excluded.0.None?) || excluded.1 != [] || p.None? || x.None? then None
      else Some((p.value, x.value))
  }

  method ParseField(sequence: Parser, tag: nat, subtrees: GeneralNames, errors: CertErrors) returns (ok: bool, present: bool)
    modifies sequence, subtrees, errors
    ensures ok ==> var f := Optional(old(sequence.rest), tag);
                   FieldNames(f.0).Some? && present == f.0.Some? && sequence.rest == f.1
                   && subtrees.Lists() == AddedAll(old(subtrees.Lists()), FieldNames(f.0).value)
    ensures !ok ==> var f := Optional(old(sequence.rest), tag);
                    FieldNames(f.0).None? || (f.1 != [] && ReadElement(f.1).None?)
    ensures old(BitsAgree(subtrees.Lists())) ==> BitsAgree(subtrees.Lists())
  {
    hide ReadElement, SubtreesOf, AddedAll, BitsAgree;
    var field;
    ok, field := sequence.ReadOptionalTag(tag);
    present := field.Some?;
    NoSubtrees(subtrees.Lists());
    if ok && field.Some? {
      ok := ParseGeneralSubtrees(field.value, subtrees, errors);
    }
  }

  /** What is stuck before the second field is stuck after it. */
  lemma StuckOrNot(s: Input)
    ensures s != [] && ReadElement(s).None? ==> Optional(s, CONTEXT_SPECIFIC + CONSTRUCTED + 1) == (None, s)
  {
  }

  /** The field of types after parsing an extension. */
  function TypesWith(types: NameTypes, permitted: NameTypes, excluded: NameTypes, isCritical: bool): NameTypes {
    WithBit(WithBit(types, Imposed(permitted, isCritical)), Imposed(excluded, isCritical))
  }

  // ----- the meaning of the constraints

  predicate Constrains(types: NameTypes, b: NameTypes) {
    HasBit(types, b)
  }

  ghost predicate PermittedRfc822(x: NameLists, p: NameLists, name: string, ignoreLocalCase: bool) {
    exists l, d :: AllowedLocalPart(l) && AllowedDomain(d) && name == l + "@" + d
      && (forall e :: e in x.rfc822Names ==> !MailboxMatches(l, d, e, Rfc822NameMatchType.Excluded, ignoreLocalCase))
      && (HasBit(p.presentNameTypes, RFC822_NAME) ==>
            exists e :: e in p.rfc822Names && MailboxMatches(l, d, e, Rfc822NameMatchType.Permitted, false))
  }

  ghost predicate PermittedDNS(x: NameLists, p: NameLists, name: string) {
    && (forall e :: e in x.dnsNames ==> !PartialMatch(name, e))
    && (HasBit(p.presentNameTypes, DNS_NAME) ==> exists e :: e in p.dnsNames && InSubtree(name, e))
  }

  ghost predicate PermittedDirectory(m: NameMatcher, x: NameLists, p: NameLists, name: Input) {
    && (forall e :: e in x.directoryNames ==> !m.inSubtree(name, e))
    && (HasBit(p.presentNameTypes, DIRECTORY_NAME) ==> exists e :: e in p.directoryNames && m.inSubtree(name, e))
  }

  ghost predicate PermittedIP(x: NameLists, p: NameLists, ip: Input) {
    && (forall e :: e in x.ipAddressRanges ==> !AgreeUnder(ip, e.0, e.1))
    && (HasBit(p.presentNameTypes, IP_ADDRESS) ==> exists e :: e in p.ipAddressRanges && AgreeUnder(ip, e.0, e.1))
  }

  /** What a certificate presents: its subject, and its alternative names if it has any. */
  datatype Presented = Presented(subject: Input, alt: Option<NameLists>)

  function NameCount(c: Presented): nat {
    match c.alt
    case Some(a) => |a.rfc822Names| + |a.dnsNames| + |a.directoryNames| + |a.ipAddresses|
    case None => |c.subject|
  }

  function ConstraintCount(x: NameLists, p: NameLists, c: Presented): nat {
    if c.alt.Some? then
      |x.rfc822Names| + |p.rfc822Names| + |x.dnsNames| + |p.dnsNames|
      + |x.directoryNames| + |p.directoryNames| + |x.ipAddressRanges| + |p.ipAddressRanges|
    else |x.directoryNames| + |p.directoryNames|
  }

  ghost predicate AltNamesPermitted(m: NameMatcher, x: NameLists, p: NameLists, types: NameTypes, a: NameLists) {
    && !HasBit(types, Unsupported(a.presentNameTypes))
    && (Constrains(types, RFC822_NAME) ==> forall n :: n in a.rfc822Names ==> PermittedRfc822(x, p, n, false))
    && (forall n :: n in a.dnsNames ==> PermittedDNS(x, p, n))
    && (forall n :: n in a.directoryNames ==> PermittedDirectory(m, x, p, n))
    && (forall n :: n in a.ipAddresses ==> PermittedIP(x, p, n))
  }

  ghost predicate EmailsPermitted(m: NameMatcher, x: NameLists, p: NameLists, types: NameTypes, subject: Input) {
    Constrains(types, RFC822_NAME) ==>
      m.emails(subject).Some? && forall n :: n in m.emails(subject).value ==> PermittedRfc822(x, p, n, true)
  }

  /** Every name the certificate presents is permitted. */
  ghost predicate NamesPermitted(m: NameMatcher, x: NameLists, p: NameLists, types: NameTypes, c: Presented) {
    && (c.alt.Some? ==> AltNamesPermitted(m, x, p, types, c.alt.value))
    && (c.alt.None? ==> EmailsPermitted(m, x, p, types, c.subject))
    && (c.alt.None? || c.subject != [] ==> PermittedDirectory(m, x, p, c.subject))
  }

  ghost function Verdict(m: NameMatcher, x: NameLists, p: NameLists, types: NameTypes, c: Presented): seq<CertErrorId> {
    if NameCount(c) * ConstraintCount(x, p, c) > MAX_CHECKS then [TooManyNameConstraintChecks]
    else if NamesPermitted(m, x, p, types, c) then []
    else [NotPermittedByNameConstraints]
  }

  /** The source's overflow-checked work limit, in 64-bit arithmetic. */
  predicate WorkExceeded(names: nat, constraints: nat) {
    var checks := (constraints * names) % SIZE_LIMIT;
    (constraints > 0 && checks / constraints != names) || checks > MAX_CHECKS
  }

  /** Wrap-around never hides excessive work: the test is exact on all 64-bit counts. */
  lemma WorkLimitExact(names: nat, constraints: nat)
    requires names < SIZE_LIMIT && constraints < SIZE_LIMIT
    ensures WorkExceeded(names, constraints) <==> names * constraints > MAX_CHECKS
  {
    var product := constraints * names;
    if constraints > 0 {
      QuotientOfProduct(names, constraints);
      if product >= SIZE_LIMIT { QuotientBelow(product % SIZE_LIMIT, names, constraints); }
      WrappedTest(product, names, constraints);
    }
  }

  /** The test, with the product as one number. */
  lemma WrappedTest(product: nat, n: nat, c: nat)
    requires c > 0 && product / c == n
    requires product >= SIZE_LIMIT ==> product % SIZE_LIMIT / c != n
    ensures product % SIZE_LIMIT / c != n || product % SIZE_LIMIT > MAX_CHECKS <==> product > MAX_CHECKS
  {
  }

  lemma QuotientOfProduct(n: nat, c: nat)
    requires c > 0
    ensures (c * n) / c == n
  {
    assert c * n == n * c + 0;
    RemainderUnique(c * n, n, 0, c);
  }

  lemma QuotientBelow(w: nat, n: nat, c: nat)
    requires c > 0 && w < c * n
    ensures w / c != n
  {
    assert c * (w / c) <= w;
  }

  /** Per-kind work adds up to no more than all names times all constraints. */
  lemma ProductsWithin(n1: nat, c1: nat, n2: nat, c2: nat, n3: nat, c3: nat, n4: nat, c4: nat)
    ensures Rows(n1, c1) + Rows(n2, c2) + Rows(n3, c3) + Rows(n4, c4) <= (n1 + n2 + n3 + n4) * (c1 + c2 + c3 + c4)
  {
    var c := c1 + c2 + c3 + c4;
    assert (n1 + n2 + n3 + n4) * c == n1 * c + n2 * c + n3 * c + n4 * c;
    Widen(n1, c1, c);
    Widen(n2, c2, c);
    Widen(n3, c3, c);
    Widen(n4, c4, c);
  }

  lemma Widen(n: nat, c: nat, d: nat)
    requires c <= d
    ensures n * c <= n * d
  {
  }

  class NameConstraints {
    const matcher: NameMatcher
    const permittedSubtrees: GeneralNames
    const excludedSubtrees: GeneralNames
    var constrainedNameTypes: NameTypes

    ghost predicate Valid()
      reads this
    {
      permittedSubtrees != excludedSubtrees
    }

    constructor (m: NameMatcher)
      ensures Valid() && matcher == m && fresh(permittedSubtrees) && fresh(excludedSubtrees)
      ensures permittedSubtrees.Lists() == EMPTY && excludedSubtrees.Lists() == EMPTY
      ensures constrainedNameTypes == NAME_NONE
    {
      matcher := m;
      var p := new GeneralNames();
      var x := new GeneralNames();
      permittedSubtrees, excludedSubtrees := p, x;
      constrainedNameTypes := NAME_NONE;
    }

    method Parse(extension: Input, isCritical: bool, errors: CertErrors) returns (ok: bool)
      requires Valid()
      modifies this, permittedSubtrees, excludedSubtrees, errors
      ensures ok <==> ExtensionNames(extension).Some?
      ensures ok ==>
        && permittedSubtrees.Lists() == AddedAll(old(permittedSubtrees.Lists()), ExtensionNames(extension).value.0)
        && excludedSubtrees.Lists() == AddedAll(old(excludedSubtrees.Lists()), ExtensionNames(extension).value.1)
        && constrainedNameTypes == TypesWith(old(constrainedNameTypes), permittedSubtrees.presentNameTypes,
                                             excludedSubtrees.presentNameTypes, isCritical)
    {
      hide ReadElement, FieldNames, Optional, AddedAll, Imposed, WithBit;
      var parser := new Parser(extension);
      var sequence;
      ok, sequence := parser.ReadSequence();
      if !ok || parser.HasMore() { return false; }
      var permitted, excluded;
      ok, permitted := ParseField(sequence, CONTEXT_SPECIFIC + CONSTRUCTED + 0, permittedSubtrees, errors);
      if !ok {
        StuckOrNot(Optional(ReadElement(extension).value.value, CONTEXT_SPECIFIC + CONSTRUCTED + 0).1);
        return false;
      }
      constrainedNameTypes := WithBit(constrainedNameTypes, Imposed(permittedSubtrees.presentNameTypes, isCritical));
      ok, excluded := ParseField(sequence, CONTEXT_SPECIFIC + CONSTRUCTED + 1, excludedSubtrees, errors);
      if !ok { return false; }
      constrainedNameTypes := WithBit(constrainedNameTypes, Imposed(excludedSubtrees.presentNameTypes, isCritical));
      if !permitted && !excluded { return false; }
      if sequence.HasMore() { return false; }
    }

    method IsPermittedRfc822Name(name: string, ignoreLocalCase: bool) returns (ok: bool, ghost calls: nat)
      ensures ok <==> PermittedRfc822(excludedSubtrees.Lists(), permittedSubtrees.Lists(), name, ignoreLocalCase)
      ensures calls <= |excludedSubtrees.rfc822Names| + |permittedSubtrees.rfc822Names|
    {
      hide Split, AllowedLocalPart, AllowedDomain, MailboxMatches, HasBit;
      calls := 0;
      var parts := SplitString(name, '@');
      forall l, d | AllowedLocalPart(l) && AllowedDomain(d) && name == l + "@" + d
        ensures parts == [l, d]
      {
        MailboxPieces(l, d);
      }
      if |parts| != 2 { return false, calls; }
      var okLocal := IsAllowedRfc822LocalPart(parts[0]);
      var okDomain := IsAllowedRfc822Domain(parts[1]);
      if !okLocal || !okDomain { return false, calls; }
      var l, d := parts[0], parts[1];
      JoinSplit(name, '@');
      JoinTwo(parts);
      assert name == l + "@" + d;
      var excluded := excludedSubtrees.rfc822Names;
      for i := 0 to |excluded|
        invariant forall k :: 0 <= k < i ==> !MailboxMatches(l, d, excluded[k], Rfc822NameMatchType.Excluded, ignoreLocalCase)
        invariant calls == i
      {
        var hit := Rfc822NameMatches(l, d, excluded[i], Rfc822NameMatchType.Excluded, ignoreLocalCase);
        calls := calls + 1;
        if hit { return false, calls; }
      }
      if !HasBit(permittedSubtrees.presentNameTypes, RFC822_NAME) { return true, calls; }
      var permitted := permittedSubtrees.rfc822Names;
      for i := 0 to |permitted|
        invariant forall k :: 0 <= k < i ==> !MailboxMatches(l, d, permitted[k], Rfc822NameMatchType.Permitted, false)
        invariant calls == |excluded| + i
      {
        var hit := Rfc822NameMatches(l, d, permitted[i], Rfc822NameMatchType.Permitted, false);
        calls := calls + 1;
        if hit { return true, calls; }
      }
      return false, calls;
    }

    method IsPermittedDNSName(name: string) returns (ok: bool, ghost calls: nat)
      ensures ok <==> PermittedDNS(excludedSubtrees.Lists(), permittedSubtrees.Lists(), name)
      ensures calls <= |excludedSubtrees.dnsNames| + |permittedSubtrees.dnsNames|
    {
      hide PartialMatch, InSubtree, HasBit;
      calls := 0;
      var excluded, permitted := excludedSubtrees.dnsNames, permittedSubtrees.dnsNames;
      for i := 0 to |excluded|
        invariant forall k :: 0 <= k < i ==> !PartialMatch(name, excluded[k])
        invariant calls == i
      {
        var hit := DNSNameMatches(name, excluded[i], WILDCARD_PARTIAL_MATCH);
        calls := calls + 1;
        if hit { return false, calls; }
      }
      if !HasBit(permittedSubtrees.presentNameTypes, DNS_NAME) { return true, calls; }
      for i := 0 to |permitted|
        invariant forall k :: 0 <= k < i ==> !InSubtree(name, permitted[k])
        invariant calls == |excluded| + i
      {
        var hit := DNSNameMatches(name, permitted[i], WILDCARD_FULL_MATCH);
        calls := calls + 1;
        if hit { return true, calls; }
      }
      return false, calls;
    }

    method IsPermittedDirectoryName(name: Input) returns (ok: bool, ghost calls: nat)
      ensures ok <==> PermittedDirectory(matcher, excludedSubtrees.Lists(), permittedSubtrees.Lists(), name)
      ensures calls <= |excludedSubtrees.directoryNames| + |permittedSubtrees.directoryNames|
    {
      hide HasBit;
      calls := 0;
      var excluded, permitted := excludedSubtrees.directoryNames, permittedSubtrees.directoryNames;
      for i := 0 to |excluded|
        invariant forall k :: 0 <= k < i ==> !matcher.inSubtree(name, excluded[k])
        invariant calls == i
      {
        calls := calls + 1;
        if matcher.inSubtree(name, excluded[i]) { return false, calls; }
      }
      if !HasBit(permittedSubtrees.presentNameTypes, DIRECTORY_NAME) { return true, calls; }
      for i := 0 to |permitted|
        invariant forall k :: 0 <= k < i ==> !matcher.inSubtree(name, permitted[k])
        invariant calls == |excluded| + i
      {
        calls := calls + 1;
        if matcher.inSubtree(name, permitted[i]) { return true, calls; }
      }
      return false, calls;
    }

    method IsPermittedIP(ip: Input) returns (ok: bool, ghost calls: nat)
      ensures ok <==> PermittedIP(excludedSubtrees.Lists(), permittedSubtrees.Lists(), ip)
      ensures calls <= |excludedSubtrees.ipAddressRanges| + |permittedSubtrees.ipAddressRanges|
    {
      hide AgreeUnder, HasBit;
      calls := 0;
      var excluded, permitted := excludedSubtrees.ipAddressRanges, permittedSubtrees.ipAddressRanges;
      for i := 0 to |excluded|
        invariant forall k :: 0 <= k < i ==> !AgreeUnder(ip, excluded[k].0, excluded[k].1)
        invariant calls == i
      {
        var hit := IPAddressMatchesWithNetmask(ip, excluded[i].0, excluded[i].1);
        calls := calls + 1;
        if hit { return false, calls; }
      }
      if !HasBit(permittedSubtrees.presentNameTypes, IP_ADDRESS) { return true, calls; }
      for i := 0 to |permitted|
        invariant forall k :: 0 <= k < i ==> !AgreeUnder(ip, permitted[k].0, permitted[k].1)
        invariant calls == |excluded| + i
      {
        var hit := IPAddressMatchesWithNetmask(ip, permitted[i].0, permitted[i].1);
        calls := calls + 1;
        if hit { return true, calls; }
      }
      return false, calls;
    }

    /** The four loops over alternative names; calls counts the constraints compared with. */
    method AreAltNamesPermitted(alt: GeneralNames) returns (ok: bool, ghost calls: nat)
      ensures ok <==> AltNamesPermitted(matcher, excludedSubtrees.Lists(), permittedSubtrees.Lists(), constrainedNameTypes, alt.Lists())
      ensures calls <= SanWork(alt.Lists(), excludedSubtrees.Lists(), permittedSubtrees.Lists())
    {
      hide PermittedRfc822, PermittedDNS, PermittedDirectory, PermittedIP, HasBit, Rows, Unsupported;
      ghost var k: nat;
      calls := 0;
      if HasBit(constrainedNameTypes, Unsupported(alt.presentNameTypes)) { return false, calls; }
      if HasBit(constrainedNameTypes, RFC822_NAME) {
        ok, calls := AreMailboxesPermitted(alt.rfc822Names);
        if !ok { return; }
      }
      ok, k := AreHostsPermitted(alt.dnsNames);
      calls := calls + k;
      if !ok { return; }
      ok, k := AreDirectoryNamesPermitted(alt.directoryNames);
      calls := calls + k;
      if !ok { return; }
      ok, k := AreAddressesPermitted(alt.ipAddresses);
      calls := calls + k;
    }

    method AreMailboxesPermitted(names: seq<string>) returns (ok: bool, ghost calls: nat)
      ensures ok <==> forall n :: n in names ==> PermittedRfc822(excludedSubtrees.Lists(), permittedSubtrees.Lists(), n, false)
      ensures calls <= Rows(|names|, |excludedSubtrees.rfc822Names| + |permittedSubtrees.rfc822Names|)
    {
      hide PermittedRfc822, Rows;
      ghost var c, k := |excludedSubtrees.rfc822Names| + |permittedSubtrees.rfc822Names|, 0;
      calls := 0;
      NoRows(c);
      for i := 0 to |names|
        invariant forall j :: 0 <= j < i ==> PermittedRfc822(excludedSubtrees.Lists(), permittedSubtrees.Lists(), names[j], false)
        invariant calls <= Rows(i, c)
      {
        OneMoreRow(i, |names|, c);
        ok, k := IsPermittedRfc822Name(names[i], false);
        calls := calls + k;
        if !ok { return; }
      }
      ok := true;
    }

    method AreHostsPermitted(names: seq<string>) returns (ok: bool, ghost calls: nat)
      ensures ok <==> forall n :: n in names ==> PermittedDNS(excludedSubtrees.Lists(), permittedSubtrees.Lists(), n)
      ensures calls <= Rows(|names|, |excludedSubtrees.dnsNames| + |permittedSubtrees.dnsNames|)
    {
      hide PermittedDNS, Rows;
      ghost var c, k := |excludedSubtrees.dnsNames| + |permittedSubtrees.dnsNames|, 0;
      calls := 0;
      NoRows(c);
      for i := 0 to |names|
        invariant forall j :: 0 <= j < i ==> PermittedDNS(excludedSubtrees.Lists(), permittedSubtrees.Lists(), names[j])
        invariant calls <= Rows(i, c)
      {
        OneMoreRow(i, |names|, c);
        ok, k := IsPermittedDNSName(names[i]);
        calls := calls + k;
        if !ok { return; }
      }
      ok := true;
    }

    method AreDirectoryNamesPermitted(names: seq<Input>) returns (ok: bool, ghost calls: nat)
      ensures ok <==> forall n :: n in names ==> PermittedDirectory(matcher, excludedSubtrees.Lists(), permittedSubtrees.Lists(), n)
      ensures calls <= Rows(|names|, |excludedSubtrees.directoryNames| + |permittedSubtrees.directoryNames|)
    {
      hide PermittedDirectory, Rows;
      ghost var c, k := |excludedSubtrees.directoryNames| + |permittedSubtrees.directoryNames|, 0;
      calls := 0;
      NoRows(c);
      for i := 0 to |names|
        invariant forall j :: 0 <= j < i ==> PermittedDirectory(matcher, excludedSubtrees.Lists(), permittedSubtrees.Lists(), names[j])
        invariant calls <= Rows(i, c)
      {
        OneMoreRow(i, |names|, c);
        ok, k := IsPermittedDirectoryName(names[i]);
        calls := calls + k;
        if !ok { return; }
      }
      ok := true;
    }

    method AreAddressesPermitted(names: seq<Input>) returns (ok: bool, ghost calls: nat)
      ensures ok <==> forall n :: n in names ==> PermittedIP(excludedSubtrees.Lists(), permittedSubtrees.Lists(), n)
      ensures calls <= Rows(|names|, |excludedSubtrees.ipAddressRanges| + |permittedSubtrees.ipAddressRanges|)
    {
      hide PermittedIP, Rows;
      ghost var c, k := |excludedSubtrees.ipAddressRanges| + |permittedSubtrees.ipAddressRanges|, 0;
      calls := 0;
      NoRows(c);
      for i := 0 to |names|
        invariant forall j :: 0 <= j < i ==> PermittedIP(excludedSubtrees.Lists(), permittedSubtrees.Lists(), names[j])
        invariant calls <= Rows(i, c)
      {
        OneMoreRow(i, |names|, c);
        ok, k := IsPermittedIP(names[i]);
        calls := calls + k;
        if !ok { return; }
      }
      ok := true;
    }

    ghost function PresentedBy(subject: Input, alt: GeneralNames?): Presented
      reads alt
    {
      Presented(subject, if alt == null then None else Some(alt.Lists()))
    }

    /** The counts that the work limit multiplies. */
    method CountWork(subject: Input, alt: GeneralNames?) returns (names: nat, constraints: nat)
      ensures names == NameCount(PresentedBy(subject, alt))
      ensures constraints == ConstraintCount(excludedSubtrees.Lists(), permittedSubtrees.Lists(), PresentedBy(subject, alt))
    {
      var x, p := excludedSubtrees, permittedSubtrees;
      names, constraints := 0, 0;
      if alt != null {
        names := |alt.rfc822Names| + |alt.dnsNames| + |alt.directoryNames| + |alt.ipAddresses|;
        constraints := |x.rfc822Names| + |p.rfc822Names| + |x.dnsNames| + |p.dnsNames|
                       + |x.directoryNames| + |p.directoryNames| + |x.ipAddressRanges| + |p.ipAddressRanges|;
      } else {
        constraints := constraints + |x.directoryNames| + |p.directoryNames|;
        names := |subject|;
      }
    }

    /** The e-mail addresses of a subject that stands without alternative names. */
    method AreEmailsPermitted(subject: Input) returns (ok: bool)
      ensures ok <==> EmailsPermitted(matcher, excludedSubtrees.Lists(), permittedSubtrees.Lists(), constrainedNameTypes, subject)
    {
      hide PermittedRfc822, HasBit;
      ghost var k: nat;
      if !HasBit(constrainedNameTypes, RFC822_NAME) { return true; }
      var found := matcher.emails(subject);
      if found.None? { return false; }
      var emailsToCheck := found.value;
      for i := 0 to |emailsToCheck|
        invariant forall j :: 0 <= j < i ==>
                    PermittedRfc822(excludedSubtrees.Lists(), permittedSubtrees.Lists(), emailsToCheck[j], true)
      {
        ok, k := IsPermittedRfc822Name(emailsToCheck[i], true);
        if !ok { return; }
      }
      ok := true;
    }

    /** Reports an error unless every name is permitted; sanCalls counts the comparisons made for alternative names. */
    method IsPermittedCert(subject: Input, alt: GeneralNames?, errors: CertErrors) returns (ghost sanCalls: nat)
      requires NameCount(PresentedBy(subject, alt)) < SIZE_LIMIT
      requires ConstraintCount(excludedSubtrees.Lists(), permittedSubtrees.Lists(), PresentedBy(subject, alt)) < SIZE_LIMIT
      modifies errors
      ensures errors.nodes == old(errors.nodes) + old(Verdict(matcher, excludedSubtrees.Lists(), permittedSubtrees.Lists(),
                                                              constrainedNameTypes, PresentedBy(subject, alt)))
      ensures sanCalls <= MAX_CHECKS
    {
      hide AltNamesPermitted, EmailsPermitted, PermittedDirectory, HasBit, WorkExceeded, SanWork, NameCount, ConstraintCount;
      ghost var c, x, p := PresentedBy(subject, alt), excludedSubtrees.Lists(), permittedSubtrees.Lists();
      ghost var k: nat;
      var ok;
      sanCalls := 0;
      var nameCount, constraintCount := CountWork(subject, alt);
      WorkLimitExact(nameCount, constraintCount);
      if WorkExceeded(nameCount, constraintCount) {
        errors.AddError(TooManyNameConstraintChecks);
        return;
      }
      if alt == null {
        ok := AreEmailsPermitted(subject);
      } else {
        ok, sanCalls := AreAltNamesPermitted(alt);
        SanWorkWithin(alt.Lists(), x, p, subject);
      }
      if ok && (alt == null || subject != []) {
        ok, k := IsPermittedDirectoryName(subject);
      }
      if !ok {
        errors.AddError(NotPermittedByNameConstraints);
      }
    }
  }

  /** The comparisons of n names with c constraints each. */
  function Rows(n: nat, c: nat): nat {
    n * c
  }

  /** The most comparisons that the four loops over alternative names can make. */
  function SanWork(a: NameLists, x: NameLists, p: NameLists): nat {
    Rows(|a.rfc822Names|, |x.rfc822Names| + |p.rfc822Names|) + Rows(|a.dnsNames|, |x.dnsNames| + |p.dnsNames|)
    + Rows(|a.directoryNames|, |x.directoryNames| + |p.directoryNames|)
    + Rows(|a.ipAddresses|, |x.ipAddressRanges| + |p.ipAddressRanges|)
  }

  lemma SanWorkWithin(a: NameLists, x: NameLists, p: NameLists, subject: Input)
    ensures var c := Presented(subject, Some(a));
            SanWork(a, x, p) <= NameCount(c) * ConstraintCount(x, p, c)
  {
    hide Rows;
    ProductsWithin(|a.rfc822Names|, |x.rfc822Names| + |p.rfc822Names|, |a.dnsNames|, |x.dnsNames| + |p.dnsNames|,
                   |a.directoryNames|, |x.directoryNames| + |p.directoryNames|,
                   |a.ipAddresses|, |x.ipAddressRanges| + |p.ipAddressRanges|);
  }

  lemma OneMoreRow(i: nat, n: nat, c: nat)
    requires i < n
    ensures Rows(0, c) == 0 && Rows(i + 1, c) == Rows(i, c) + c && Rows(i, c) + c <= Rows(n, c)
  {
    assert (n - i - 1) * c >= 0;
    assert n * c == (i + 1) * c + (n - i - 1) * c;
  }

  lemma NoRows(c: nat)
    ensures Rows(0, c) == 0
  {
  }

  lemma MailboxPieces(l: string, d: string)
    requires AllowedLocalPart(l) && AllowedDomain(d)
    ensures Split(l + "@" + d, '@') == [l, d] && l + "@" + d != ""
  {
    DenotedPieces(Mailbox(l, d));
  }
}
