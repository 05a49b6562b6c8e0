/** What name constraints guarantee, over all names and all constraint lists. */
module NameConstraintsLaws {
  import opened Bytes
  import opened DnsNames
  import opened GeneralNames
  import opened IpUtil
  import opened NameConstraints
  import opened Rfc822
  import opened Strings
  import opened Wrappers

  // ----- wildcards

  ghost predicate HostsPermitted(x: NameLists, p: NameLists, d: string) {
    forall w :: IsHost(w) ==> PermittedDNS(x, p, w + "." + d)
  }

  /** A permitted wildcard speaks for its hosts. */
  ghost predicate WildcardSound(x: NameLists, p: NameLists, d: string) {
    PermittedDNS(x, p, "*" + "." + d) ==> HostsPermitted(x, p, d)
  }

  ghost predicate NoStars(p: NameLists) {
    forall e :: e in p.dnsNames ==> '*' !in e
  }

  lemma HostIsNoWildcard(w: string, d: string)
    requires IsHost(w)
    ensures !IsWildcard(w + "." + d)
  {
    assert w[0] in w;
    if |w| > 1 { assert w[1] in w; }
  }

  /** What no wildcard excludes, no host of its domain excludes. */
  lemma ExcludedCarriesOver(d: string, w: string, constraint: string)
    requires StripDot(d) != "" && IsHost(w)
    requires !PartialMatch("*" + "." + d, constraint)
    ensures !PartialMatch(w + "." + d, constraint)
  {
    hide InSubtree, SpellsHost;
    HostIsNoWildcard(w, d);
    assert IsWildcard("*" + "." + d) && ("*" + "." + d)[2..] == d;
  }

  /** If *.d is permitted, so is every host w.d, whatever the lists, unless the permitted names contain a star. */
  lemma WildcardSoundness(x: NameLists, p: NameLists, d: string)
    requires StripDot(d) != "" && NoStars(p)
    ensures WildcardSound(x, p, d)
  {
    hide InSubtree, PartialMatch, HasBit;
    if PermittedDNS(x, p, "*" + "." + d) {
      forall w | IsHost(w) ensures PermittedDNS(x, p, w + "." + d) {
        forall e | e in x.dnsNames ensures !PartialMatch(w + "." + d, e) {
          ExcludedCarriesOver(d, w, e);
        }
        if HasBit(p.presentNameTypes, DNS_NAME) {
          var e :| e in p.dnsNames && InSubtree("*" + "." + d, e);
          FullMatchIsEveryExpansion(d, e);
          assert InSubtree(w + "." + d, e);
        }
      }
    }
  }

  function Repeat(n: nat): (s: string)
    ensures |s| == n && forall i :: 0 <= i < n ==> s[i] == 'a'
  {
    seq(n, _ => 'a')
  }

  function LongestName(names: seq<string>): (n: nat)
    ensures forall e :: e in names ==> |e| <= n
  {
    if names == [] then 0
    else
      var m := LongestName(names[1..]);
      if |names[0]| > m then |names[0]| else m
  }

  lemma SpelledIsShort(constraint: string, w: string, d: string)
    requires SpellsHost(constraint, w, d)
    ensures |w| <= |constraint|
  {
    var c := StripDot(constraint);
    JoinSplit(Lower(c), '.');
    assert |Join(Labels(c), '.')| >= |Labels(c)[0]|;
    assert Labels(c)[0] == Lower(w);
  }

  /** With stars allowed, the hosts of a permitted wildcard are permitted exactly when some permitted
      constraint, if there are any, covers the domain itself. */
  lemma WildcardSoundExact(x: NameLists, p: NameLists, d: string)
    requires StripDot(d) != "" && PermittedDNS(x, p, "*" + "." + d)
    ensures HostsPermitted(x, p, d) <==>
            (HasBit(p.presentNameTypes, DNS_NAME) ==> exists e :: e in p.dnsNames && CoversDomain(e, d))
  {
    hide InSubtree, PartialMatch, HasBit, CoversDomain, SpellsHost;
    if !HasBit(p.presentNameTypes, DNS_NAME) {
      CoveredHostsPermitted(x, p, d, "");
    } else if e :| e in p.dnsNames && CoversDomain(e, d) {
      CoveredHostsPermitted(x, p, d, e);
    } else {
      var w := Repeat(LongestName(p.dnsNames) + 2);
      assert w[0] == 'a' && IsHost(w);
      forall e | e in p.dnsNames ensures !InSubtree(w + "." + d, e) {
        HostInSubtree(w, d, e);
        if SpellsHost(e, w, d) { SpelledIsShort(e, w, d); }
      }
      assert !PermittedDNS(x, p, w + "." + d);
    }
  }

  lemma CoveredHostsPermitted(x: NameLists, p: NameLists, d: string, e: string)
    requires StripDot(d) != "" && PermittedDNS(x, p, "*" + "." + d)
    requires HasBit(p.presentNameTypes, DNS_NAME) ==> e in p.dnsNames && CoversDomain(e, d)
    ensures HostsPermitted(x, p, d)
  {
    hide InSubtree, PartialMatch, HasBit, CoversDomain, SpellsHost;
    forall w | IsHost(w) ensures PermittedDNS(x, p, w + "." + d) {
      forall c | c in x.dnsNames ensures !PartialMatch(w + "." + d, c) {
        ExcludedCarriesOver(d, w, c);
      }
      HostInSubtree(w, d, e);
    }
  }

  /** The wildcard clause needs a domain: wildcards are sound for all star-free lists exactly when
      the domain is not empty once its final dot is gone. */
  lemma WildcardSoundnessNeedsDomain(d: string)
    ensures (forall x, p :: NoStars(p) ==> WildcardSound(x, p, d)) <==> StripDot(d) != ""
  {
    hide InSubtree, HasBit;
    if StripDot(d) != "" {
      forall x, p | NoStars(p) ensures WildcardSound(x, p, d) { WildcardSoundness(x, p, d); }
    } else {
      var x := EMPTY.(dnsNames := ["foo" + "." + d]);
      NothingPresent(DNS_NAME);
      OtherHost(d);
      OwnHost("foo", d);
      assert !IsWildcard("*" + "." + d);
      HostIsNoWildcard("foo", d);
      assert PermittedDNS(x, EMPTY, "*" + "." + d);
      assert ("foo" + "." + d) in x.dnsNames && !PermittedDNS(x, EMPTY, "foo" + "." + d);
      assert NoStars(EMPTY) && IsHost("foo") && !WildcardSound(x, EMPTY, d);
    }
  }

  lemma NothingPresent(b: NameTypes)
    ensures !HasBit(NAME_NONE, b)
  {
  }

  // ----- excluding only tightens

  ghost predicate ListWithin<T>(a: seq<T>, b: seq<T>) {
    |a| <= |b| && forall e :: e in a ==> e in b
  }

  /** The constraint lists of y include those of x. */
  ghost predicate Within(x: NameLists, y: NameLists) {
    && ListWithin(x.rfc822Names, y.rfc822Names)
    && ListWithin(x.dnsNames, y.dnsNames)
    && ListWithin(x.directoryNames, y.directoryNames)
    && ListWithin(x.ipAddressRanges, y.ipAddressRanges)
    && TypesWithin(x.presentNameTypes, y.presentNameTypes)
  }

  ghost predicate TypesWithin(s: NameTypes, t: NameTypes) {
    forall b :: HasBit(s, b) ==> HasBit(t, b)
  }

  /** More excluded names, and more constrained types with them, never permit more. */
  lemma NamesTighten(m: NameMatcher, x: NameLists, y: NameLists, p: NameLists, s: NameTypes, t: NameTypes, c: Presented)
    requires Within(x, y) && TypesWithin(s, t)
    requires NamesPermitted(m, y, p, t, c)
    ensures NamesPermitted(m, x, p, s, c)
  {
    hide HasBit, MailboxMatches, PartialMatch, InSubtree, AgreeUnder, AllowedLocalPart, AllowedDomain;
    forall n, i | PermittedRfc822(y, p, n, i) ensures PermittedRfc822(x, p, n, i) {}
    forall n | PermittedDNS(y, p, n) ensures PermittedDNS(x, p, n) {}
    forall n | PermittedDirectory(m, y, p, n) ensures PermittedDirectory(m, x, p, n) {}
    forall n | PermittedIP(y, p, n) ensures PermittedIP(x, p, n) {}
    hide PermittedRfc822, PermittedDNS, PermittedDirectory, PermittedIP;
    assert c.alt.Some? ==> AltNamesPermitted(m, x, p, s, c.alt.value);
    assert c.alt.None? ==> EmailsPermitted(m, x, p, s, c.subject);
  }

  lemma CountsGrow(x: NameLists, y: NameLists, p: NameLists, c: Presented)
    requires Within(x, y)
    ensures NameCount(c) * ConstraintCount(x, p, c) <= NameCount(c) * ConstraintCount(y, p, c)
  {
    Widen(NameCount(c), ConstraintCount(x, p, c), ConstraintCount(y, p, c));
  }

  /** A certificate accepted under more exclusions is accepted under fewer: the work limit and the type gates included. */
  lemma ExcludingTightens(m: NameMatcher, x: NameLists, y: NameLists, p: NameLists, s: NameTypes, t: NameTypes, c: Presented)
    requires Within(x, y) && TypesWithin(s, t)
    requires Verdict(m, y, p, t, c) == []
    ensures Verdict(m, x, p, s, c) == []
  {
    hide NamesPermitted, Within, NameCount, ConstraintCount;
    CountsGrow(x, y, p, c);
    NamesTighten(m, x, y, p, s, t, c);
  }

  lemma WithBitWithin(x: NameTypes, b: NameTypes)
    ensures TypesWithin(x, WithBit(x, b))
  {
  }

  lemma WithBitMonotone(x: NameTypes, y: NameTypes, b: NameTypes)
    requires TypesWithin(x, y)
    ensures TypesWithin(WithBit(x, b), WithBit(y, b))
  {
    forall c | HasBit(WithBit(x, b), c) ensures HasBit(WithBit(y, b), c) {
      EitherBit(x, b, c);
      EitherBit(y, b, c);
    }
  }

  lemma EitherBit(x: NameTypes, b: NameTypes, c: NameTypes)
    ensures HasBit(WithBit(x, b), c) <==> HasBit(x, c) || HasBit(b, c)
  {
    assert (x | b) & c == (x & c) | (b & c);
  }

  lemma AddedWithin(g: NameLists, n: GeneralName)
    ensures Within(g, Added(g, n))
  {
    hide HasBit, WithBit;
    WithBitWithin(g.presentNameTypes, TypeBit(n));
  }

  lemma AddedMonotone(g: NameLists, h: NameLists, n: GeneralName)
    requires Within(g, h)
    ensures Within(Added(g, n), Added(h, n))
  {
    hide HasBit, WithBit, TypesWithin;
    WithBitMonotone(g.presentNameTypes, h.presentNameTypes, TypeBit(n));
  }

  /** Inserting a name anywhere in the list of exclusions leaves a list that includes the old one. */
  lemma {:induction false} InsertedWithin(before: seq<GeneralName>, n: GeneralName, after: seq<GeneralName>)
    ensures Within(AddedAll(EMPTY, before + after), AddedAll(EMPTY, before + [n] + after))
    decreases |after|
  {
    hide Within, Added;
    if after == [] {
      assert before + after == before && before + [n] + after == before + [n];
      AddedAllOneMore(EMPTY, before, n);
      AddedWithin(AddedAll(EMPTY, before), n);
    } else {
      var front, last := after[..|after| - 1], after[|after| - 1];
      assert before + after == (before + front) + [last];
      assert before + [n] + after == (before + [n] + front) + [last];
      InsertedWithin(before, n, front);
      AddedAllOneMore(EMPTY, before + front, last);
      AddedAllOneMore(EMPTY, before + [n] + front, last);
      AddedMonotone(AddedAll(EMPTY, before + front), AddedAll(EMPTY, before + [n] + front), last);
    }
  }

  /** The constraints that Parse makes of the names of an extension. */
  ghost function ParsedVerdict(m: NameMatcher, permitted: seq<GeneralName>, excluded: seq<GeneralName>,
                               isCritical: bool, c: Presented): seq<CertErrorId>
  {
    var x, p := AddedAll(EMPTY, excluded), AddedAll(EMPTY, permitted);
    Verdict(m, x, p, TypesWith(NAME_NONE, p.presentNameTypes, x.presentNameTypes, isCritical), c)
  }

  lemma ImposedMonotone(s: NameTypes, t: NameTypes, isCritical: bool)
    requires TypesWithin(s, t)
    ensures TypesWithin(Imposed(s, isCritical), Imposed(t, isCritical))
  {
    forall b | HasBit(Imposed(s, isCritical), b) ensures HasBit(Imposed(t, isCritical), b) {
      ImposedBit(s, isCritical, b);
      ImposedBit(t, isCritical, b);
      assert HasBit(s, b & (if isCritical then ALL_TYPES else SUPPORTED_NAME_TYPES));
    }
  }

  lemma ImposedBit(s: NameTypes, isCritical: bool, b: NameTypes)
    ensures HasBit(Imposed(s, isCritical), b) <==> HasBit(s, b & (if isCritical then ALL_TYPES else SUPPORTED_NAME_TYPES))
  {
  }

  lemma TypesWithMonotone(p: NameTypes, s: NameTypes, t: NameTypes, isCritical: bool)
    requires TypesWithin(s, t)
    ensures TypesWithin(TypesWith(NAME_NONE, p, s, isCritical), TypesWith(NAME_NONE, p, t, isCritical))
  {
    hide HasBit, Imposed, WithBit;
    ImposedMonotone(s, t, isCritical);
    var base := WithBit(NAME_NONE, Imposed(p, isCritical));
    forall b | HasBit(TypesWith(NAME_NONE, p, s, isCritical), b) ensures HasBit(TypesWith(NAME_NONE, p, t, isCritical), b) {
      EitherBit(base, Imposed(s, isCritical), b);
      EitherBit(base, Imposed(t, isCritical), b);
    }
  }

  /** Adding one more excluded subtree to an extension, anywhere, accepts no further certificate. */
  lemma ExcludedSubtreeTightens(m: NameMatcher, permitted: seq<GeneralName>, before: seq<GeneralName>, n: GeneralName,
                                after: seq<GeneralName>, isCritical: bool, c: Presented)
    requires ParsedVerdict(m, permitted, before + [n] + after, isCritical, c) == []
    ensures ParsedVerdict(m, permitted, before + after, isCritical, c) == []
  {
    hide Verdict, TypesWith, AddedAll, HasBit, ListWithin;
    var x, y := AddedAll(EMPTY, before + after), AddedAll(EMPTY, before + [n] + after);
    var p := AddedAll(EMPTY, permitted);
    InsertedWithin(before, n, after);
    TypesWithMonotone(p.presentNameTypes, x.presentNameTypes, y.presentNameTypes, isCritical);
    ExcludingTightens(m, x, y, p, TypesWith(NAME_NONE, p.presentNameTypes, x.presentNameTypes, isCritical),
                      TypesWith(NAME_NONE, p.presentNameTypes, y.presentNameTypes, isCritical), c);
  }

  // ----- no kind of constraint is skipped

  lemma TypesWithBit(p: NameTypes, x: NameTypes, isCritical: bool, b: NameTypes)
    requires IsTypeBit(b)
    ensures HasBit(TypesWith(NAME_NONE, p, x, isCritical), b) <==>
            (HasBit(p, b) || HasBit(x, b)) && (isCritical || HasBit(SUPPORTED_NAME_TYPES, b))
  {
    var base := WithBit(NAME_NONE, Imposed(p, isCritical));
    EitherBit(base, Imposed(x, isCritical), b);
    EitherBit(NAME_NONE, Imposed(p, isCritical), b);
    NothingPresent(b);
    SingleBitImposed(p, isCritical, b);
    SingleBitImposed(x, isCritical, b);
  }

  lemma SingleBitImposed(s: NameTypes, isCritical: bool, b: NameTypes)
    requires IsTypeBit(b)
    ensures HasBit(Imposed(s, isCritical), b) <==> HasBit(s, b) && (isCritical || HasBit(SUPPORTED_NAME_TYPES, b))
  {
  }

  /** The gate on mailboxes opens only when no mailbox constraint exists, so an accepted certificate
      has all its mailboxes outside every excluded and inside some permitted subtree. */
  lemma AcceptedMailboxesPermitted(m: NameMatcher, permitted: seq<GeneralName>, excluded: seq<GeneralName>,
                                   isCritical: bool, c: Presented, name: string)
    requires ParsedVerdict(m, permitted, excluded, isCritical, c) == []
    requires c.alt.Some? && name in c.alt.value.rfc822Names
    ensures var x, p := AddedAll(EMPTY, excluded), AddedAll(EMPTY, permitted);
            x.rfc822Names != [] || p.rfc822Names != [] ==> PermittedRfc822(x, p, name, false)
  {
    hide PermittedRfc822, PermittedDNS, PermittedDirectory, PermittedIP, HasBit, TypesWith, AddedAll;
    var x, p := AddedAll(EMPTY, excluded), AddedAll(EMPTY, permitted);
    NoNames();
    BuiltListsAgree(EMPTY, excluded);
    BuiltListsAgree(EMPTY, permitted);
    TypesWithBit(p.presentNameTypes, x.presentNameTypes, isCritical, RFC822_NAME);
    SupportedBits();
  }

  lemma SupportedBits()
    ensures HasBit(SUPPORTED_NAME_TYPES, RFC822_NAME) && HasBit(SUPPORTED_NAME_TYPES, DNS_NAME)
    ensures HasBit(SUPPORTED_NAME_TYPES, DIRECTORY_NAME) && HasBit(SUPPORTED_NAME_TYPES, IP_ADDRESS)
    ensures forall b :: IsTypeBit(b) && HasBit(SUPPORTED_NAME_TYPES, b) ==>
              b == RFC822_NAME || b == DNS_NAME || b == DIRECTORY_NAME || b == IP_ADDRESS
  {
  }

  lemma UnsupportedBit(t: NameTypes, present: NameTypes, b: NameTypes)
    requires IsTypeBit(b) && !HasBit(SUPPORTED_NAME_TYPES, b) && HasBit(t, b) && HasBit(present, b)
    ensures HasBit(t, Unsupported(present))
  {
  }

  /** A critical constraint of an unsupported kind rejects every certificate that presents a name of that kind. */
  lemma CriticalUnsupportedRejects(m: NameMatcher, permitted: seq<GeneralName>, excluded: seq<GeneralName>,
                                   c: Presented, b: NameTypes)
    requires IsTypeBit(b) && !HasBit(SUPPORTED_NAME_TYPES, b)
    requires HasBit(AddedAll(EMPTY, permitted).presentNameTypes, b) || HasBit(AddedAll(EMPTY, excluded).presentNameTypes, b)
    requires c.alt.Some? && HasBit(c.alt.value.presentNameTypes, b)
    ensures ParsedVerdict(m, permitted, excluded, true, c) != []
  {
    hide HasBit, TypesWith, AddedAll, Unsupported, PermittedRfc822, PermittedDNS, PermittedDirectory, PermittedIP;
    var x, p := AddedAll(EMPTY, excluded), AddedAll(EMPTY, permitted);
    TypesWithBit(p.presentNameTypes, x.presentNameTypes, true, b);
    UnsupportedBit(TypesWith(NAME_NONE, p.presentNameTypes, x.presentNameTypes, true), c.alt.value.presentNameTypes, b);
  }

  // ----- the verdict, by the names themselves

  /** The lists hold the names of their kinds, and the type bits say which kinds there are. */
  ghost predicate ListsHold(g: NameLists, ns: seq<GeneralName>) {
    && (forall s :: s in g.rfc822Names <==> Rfc822Name(s) in ns)
    && (forall s :: s in g.dnsNames <==> DNSName(s) in ns)
    && (forall v :: v in g.directoryNames <==> DirectoryName(v) in ns)
    && (forall v :: v in g.ipAddresses <==> IPAddress(v) in ns)
    && (forall a, k :: (a, k) in g.ipAddressRanges <==> IPAddressRange(a, k) in ns)
  }

  ghost predicate BitsHold(g: NameLists, ns: seq<GeneralName>) {
    && (HasBit(g.presentNameTypes, OTHER_NAME) <==> exists n :: n in ns && n.OtherName?)
    && (HasBit(g.presentNameTypes, RFC822_NAME) <==> exists n :: n in ns && n.Rfc822Name?)
    && (HasBit(g.presentNameTypes, DNS_NAME) <==> exists n :: n in ns && n.DNSName?)
    && (HasBit(g.presentNameTypes, X400_ADDRESS) <==> exists n :: n in ns && n.X400Address?)
    && (HasBit(g.presentNameTypes, DIRECTORY_NAME) <==> exists n :: n in ns && n.DirectoryName?)
    && (HasBit(g.presentNameTypes, EDI_PARTY_NAME) <==> exists n :: n in ns && n.EdiPartyName?)
    && (HasBit(g.presentNameTypes, UNIFORM_RESOURCE_IDENTIFIER) <==> exists n :: n in ns && n.UniformResourceIdentifier?)
    && (HasBit(g.presentNameTypes, IP_ADDRESS) <==> exists n :: n in ns && (n.IPAddress? || n.IPAddressRange?))
    && (HasBit(g.presentNameTypes, REGISTERED_ID) <==> exists n :: n in ns && n.RegisteredID?)
    && !HasBit(g.presentNameTypes, !ALL_TYPES)
  }

  lemma AddedHolds(g: NameLists, ns: seq<GeneralName>, n: GeneralName)
    requires ListsHold(g, ns)
    ensures ListsHold(Added(g, n), ns + [n])
  {
    hide WithBit, TypeBit;
    assert forall x :: x in ns + [n] <==> x in ns || x == n;
  }

  lemma AddedBits(g: NameLists, ns: seq<GeneralName>, n: GeneralName)
    requires BitsHold(g, ns)
    ensures BitsHold(Added(g, n), ns + [n])
  {
    hide HasBit, WithBit;
    SetBit(g.presentNameTypes, TypeBit(n));
    assert Added(g, n).presentNameTypes == WithBit(g.presentNameTypes, TypeBit(n));
    hide Added;
    assert forall x :: x in ns + [n] <==> x in ns || x == n;
  }

  lemma {:induction false} BuiltListsHold(ns: seq<GeneralName>)
    ensures ListsHold(AddedAll(EMPTY, ns), ns) && BitsHold(AddedAll(EMPTY, ns), ns)
  {
    hide ListsHold, BitsHold, Added;
    if ns == [] {
      NothingHeld();
    } else {
      var front, last := ns[..|ns| - 1], ns[|ns| - 1];
      BuiltListsHold(front);
      AddedHolds(AddedAll(EMPTY, front), front, last);
      AddedBits(AddedAll(EMPTY, front), front, last);
      assert ns == front + [last];
    }
  }

  lemma NothingHeld()
    ensures ListsHold(EMPTY, []) && BitsHold(EMPTY, [])
  {
  }

  /** A host is clear of every excluded constraint, and in a permitted one if there are any. */
  ghost predicate HostAllowed(permitted: seq<GeneralName>, excluded: seq<GeneralName>, name: string) {
    && (forall e :: DNSName(e) in excluded ==> !PartialMatch(name, e))
    && ((exists n :: n in permitted && n.DNSName?) ==> exists e :: DNSName(e) in permitted && InSubtree(name, e))
  }

  ghost predicate DirectoryAllowed(m: NameMatcher, permitted: seq<GeneralName>, excluded: seq<GeneralName>, name: Input) {
    && (forall e :: DirectoryName(e) in excluded ==> !m.inSubtree(name, e))
    && ((exists n :: n in permitted && n.DirectoryName?) ==> exists e :: DirectoryName(e) in permitted && m.inSubtree(name, e))
  }

  /** An address is outside every excluded range and inside a permitted one, bit by bit under the mask. */
  ghost predicate AddressAllowed(permitted: seq<GeneralName>, excluded: seq<GeneralName>, ip: Input) {
    && (forall a, k :: IPAddressRange(a, k) in excluded ==> !AgreeUnder(ip, a, k))
    && ((exists n :: n in permitted && (n.IPAddress? || n.IPAddressRange?)) ==>
          exists a, k :: IPAddressRange(a, k) in permitted && AgreeUnder(ip, a, k))
  }

  /** A mailbox that parses is matched by no excluded constraint, and by a permitted one if there are any. */
  ghost predicate MailboxAllowed(permitted: seq<GeneralName>, excluded: seq<GeneralName>, name: string, ignoreLocalCase: bool) {
    exists l, d :: AllowedLocalPart(l) && AllowedDomain(d) && name == l + "@" + d
      && (forall e :: Rfc822Name(e) in excluded ==> !MailboxMatches(l, d, e, Rfc822NameMatchType.Excluded, ignoreLocalCase))
      && ((exists n :: n in permitted && n.Rfc822Name?) ==>
            exists e :: Rfc822Name(e) in permitted && MailboxMatches(l, d, e, Rfc822NameMatchType.Permitted, false))
  }

  ghost predicate MailboxesConstrained(permitted: seq<GeneralName>, excluded: seq<GeneralName>) {
    exists n :: (n in permitted || n in excluded) && n.Rfc822Name?
  }

  /** Two names of one kind that the code has no matching for. */
  predicate BothUnsupported(n: GeneralName, e: GeneralName) {
    || (n.OtherName? && e.OtherName?) || (n.X400Address? && e.X400Address?) || (n.EdiPartyName? && e.EdiPartyName?)
    || (n.UniformResourceIdentifier? && e.UniformResourceIdentifier?) || (n.RegisteredID? && e.RegisteredID?)
  }

  ghost predicate Unmatchable(permitted: seq<GeneralName>, excluded: seq<GeneralName>, alts: seq<GeneralName>) {
    exists n, e :: n in alts && (e in permitted || e in excluded) && BothUnsupported(n, e)
  }

  lemma PermittedAreAllowed(m: NameMatcher, permitted: seq<GeneralName>, excluded: seq<GeneralName>)
    ensures var x, p := AddedAll(EMPTY, excluded), AddedAll(EMPTY, permitted);
            && (forall n :: PermittedDNS(x, p, n) <==> HostAllowed(permitted, excluded, n))
            && (forall n :: PermittedDirectory(m, x, p, n) <==> DirectoryAllowed(m, permitted, excluded, n))
            && (forall n, i :: PermittedRfc822(x, p, n, i) <==> MailboxAllowed(permitted, excluded, n, i))
  {
    BuiltListsHold(excluded);
    BuiltListsHold(permitted);
    hide AddedAll, HasBit, PartialMatch, InSubtree, MailboxMatches, AllowedLocalPart, AllowedDomain;
  }

  lemma AddressesAreAllowed(permitted: seq<GeneralName>, excluded: seq<GeneralName>, ip: Input)
    ensures PermittedIP(AddedAll(EMPTY, excluded), AddedAll(EMPTY, permitted), ip) <==> AddressAllowed(permitted, excluded, ip)
  {
    BuiltListsHold(excluded);
    BuiltListsHold(permitted);
    hide AddedAll, HasBit, AgreeUnder;
    var x, p := AddedAll(EMPTY, excluded), AddedAll(EMPTY, permitted);
    if AddressAllowed(permitted, excluded, ip) && HasBit(p.presentNameTypes, IP_ADDRESS) {
      var a, k :| IPAddressRange(a, k) in permitted && AgreeUnder(ip, a, k);
      assert (a, k) in p.ipAddressRanges;
    }
    if PermittedIP(x, p, ip) && HasBit(p.presentNameTypes, IP_ADDRESS) {
      var e :| e in p.ipAddressRanges && AgreeUnder(ip, e.0, e.1);
      assert (e.0, e.1) in p.ipAddressRanges;
    }
  }

  lemma UnsupportedBits(t: NameTypes, a: NameTypes)
    requires !HasBit(a, !ALL_TYPES)
    ensures HasBit(t, Unsupported(a)) <==>
            || (HasBit(t, OTHER_NAME) && HasBit(a, OTHER_NAME)) || (HasBit(t, X400_ADDRESS) && HasBit(a, X400_ADDRESS))
            || (HasBit(t, EDI_PARTY_NAME) && HasBit(a, EDI_PARTY_NAME))
            || (HasBit(t, UNIFORM_RESOURCE_IDENTIFIER) && HasBit(a, UNIFORM_RESOURCE_IDENTIFIER))
            || (HasBit(t, REGISTERED_ID) && HasBit(a, REGISTERED_ID))
  {
  }

  lemma ConstraintBits(permitted: seq<GeneralName>, excluded: seq<GeneralName>, isCritical: bool)
    ensures var x, p := AddedAll(EMPTY, excluded), AddedAll(EMPTY, permitted);
            var t := TypesWith(NAME_NONE, p.presentNameTypes, x.presentNameTypes, isCritical);
            && (HasBit(t, OTHER_NAME) <==> isCritical && exists n :: (n in permitted || n in excluded) && n.OtherName?)
            && (HasBit(t, X400_ADDRESS) <==> isCritical && exists n :: (n in permitted || n in excluded) && n.X400Address?)
            && (HasBit(t, EDI_PARTY_NAME) <==> isCritical && exists n :: (n in permitted || n in excluded) && n.EdiPartyName?)
            && (HasBit(t, UNIFORM_RESOURCE_IDENTIFIER) <==> isCritical && exists n :: (n in permitted || n in excluded) && n.UniformResourceIdentifier?)
            && (HasBit(t, REGISTERED_ID) <==> isCritical && exists n :: (n in permitted || n in excluded) && n.RegisteredID?)
  {
    var x, p := AddedAll(EMPTY, excluded), AddedAll(EMPTY, permitted);
    BuiltListsHold(excluded);
    BuiltListsHold(permitted);
    SupportedBits();
    hide AddedAll, HasBit, TypesWith, ListsHold;
    TypesWithBit(p.presentNameTypes, x.presentNameTypes, isCritical, OTHER_NAME);
    TypesWithBit(p.presentNameTypes, x.presentNameTypes, isCritical, X400_ADDRESS);
    TypesWithBit(p.presentNameTypes, x.presentNameTypes, isCritical, EDI_PARTY_NAME);
    TypesWithBit(p.presentNameTypes, x.presentNameTypes, isCritical, UNIFORM_RESOURCE_IDENTIFIER);
    TypesWithBit(p.presentNameTypes, x.presentNameTypes, isCritical, REGISTERED_ID);
  }

  lemma ClashExactly(permitted: seq<GeneralName>, excluded: seq<GeneralName>, alts: seq<GeneralName>)
    ensures Unmatchable(permitted, excluded, alts) <==>
            || ((exists n :: n in alts && n.OtherName?)
                && exists n :: (n in permitted || n in excluded) && n.OtherName?)
            || ((exists n :: n in alts && n.X400Address?)
                && exists n :: (n in permitted || n in excluded) && n.X400Address?)
            || ((exists n :: n in alts && n.EdiPartyName?)
                && exists n :: (n in permitted || n in excluded) && n.EdiPartyName?)
            || ((exists n :: n in alts && n.UniformResourceIdentifier?)
                && exists n :: (n in permitted || n in excluded) && n.UniformResourceIdentifier?)
            || ((exists n :: n in alts && n.RegisteredID?)
                && exists n :: (n in permitted || n in excluded) && n.RegisteredID?)
  {
    if n, e :| n in alts && n.OtherName? && (e in permitted || e in excluded) && e.OtherName? {
      assert BothUnsupported(n, e);
    }
    if n, e :| n in alts && n.X400Address? && (e in permitted || e in excluded) && e.X400Address? {
      assert BothUnsupported(n, e);
    }
    if n, e :| n in alts && n.EdiPartyName? && (e in permitted || e in excluded) && e.EdiPartyName? {
      assert BothUnsupported(n, e);
    }
    if n, e :| n in alts && n.UniformResourceIdentifier? && (e in permitted || e in excluded) && e.UniformResourceIdentifier? {
      assert BothUnsupported(n, e);
    }
    if n, e :| n in alts && n.RegisteredID? && (e in permitted || e in excluded) && e.RegisteredID? {
      assert BothUnsupported(n, e);
    }
  }

  lemma UnsupportedNames(permitted: seq<GeneralName>, excluded: seq<GeneralName>, isCritical: bool, alts: seq<GeneralName>)
    ensures var x, p, a := AddedAll(EMPTY, excluded), AddedAll(EMPTY, permitted), AddedAll(EMPTY, alts);
            HasBit(TypesWith(NAME_NONE, p.presentNameTypes, x.presentNameTypes, isCritical), Unsupported(a.presentNameTypes))
            <==> isCritical && Unmatchable(permitted, excluded, alts)
  {
    var x, p, a := AddedAll(EMPTY, excluded), AddedAll(EMPTY, permitted), AddedAll(EMPTY, alts);
    BuiltListsHold(alts);
    hide AddedAll, HasBit, TypesWith, Unsupported, ListsHold, Unmatchable;
    UnsupportedBits(TypesWith(NAME_NONE, p.presentNameTypes, x.presentNameTypes, isCritical), a.presentNameTypes);
    ConstraintBits(permitted, excluded, isCritical);
    ClashExactly(permitted, excluded, alts);
  }

  /** What a certificate with these alternative names presents. */
  ghost function PresentedNames(subject: Input, alts: Option<seq<GeneralName>>): Presented {
    Presented(subject, if alts.None? then None else Some(AddedAll(EMPTY, alts.value)))
  }

  /** Every alternative name is allowed by the constraints of its kind, and none is of a kind constrained but not supported. */
  ghost predicate AlternativesAllowed(m: NameMatcher, permitted: seq<GeneralName>, excluded: seq<GeneralName>,
                                      isCritical: bool, alts: seq<GeneralName>)
  {
    && !(isCritical && Unmatchable(permitted, excluded, alts))
    && (MailboxesConstrained(permitted, excluded) ==> forall n :: Rfc822Name(n) in alts ==> MailboxAllowed(permitted, excluded, n, false))
    && (forall n :: DNSName(n) in alts ==> HostAllowed(permitted, excluded, n))
    && (forall n :: DirectoryName(n) in alts ==> DirectoryAllowed(m, permitted, excluded, n))
    && (forall n :: IPAddress(n) in alts ==> AddressAllowed(permitted, excluded, n))
  }

  datatype NameKind = Mailboxes | Hosts | Directories | Addresses | Ranges

  predicate OfKind(n: GeneralName, kind: NameKind) {
    match kind
    case Mailboxes => n.Rfc822Name?
    case Hosts => n.DNSName?
    case Directories => n.DirectoryName?
    case Addresses => n.IPAddress?
    case Ranges => n.IPAddressRange?
  }

  /** How many of the names are of the kind. */
  function Count(ns: seq<GeneralName>, kind: NameKind): nat {
    if ns == [] then 0 else Count(ns[..|ns| - 1], kind) + if OfKind(ns[|ns| - 1], kind) then 1 else 0
  }

  /** What the limit is about: names of the supported kinds times constraints of the same kinds, or without alternative
      names the octets of the subject times the directory names. */
  function Work(permitted: seq<GeneralName>, excluded: seq<GeneralName>, subject: Input, alts: Option<seq<GeneralName>>): nat {
    if alts.None? then |subject| * (Count(excluded, Directories) + Count(permitted, Directories))
    else
      (Count(alts.value, Mailboxes) + Count(alts.value, Hosts) + Count(alts.value, Directories) + Count(alts.value, Addresses)) *
      (Count(excluded, Mailboxes) + Count(permitted, Mailboxes) + Count(excluded, Hosts) + Count(permitted, Hosts)
       + Count(excluded, Directories) + Count(permitted, Directories) + Count(excluded, Ranges) + Count(permitted, Ranges))
  }

  lemma AddedOne(g: NameLists, n: GeneralName)
    ensures var h := Added(g, n);
            && |h.rfc822Names| == |g.rfc822Names| + (if OfKind(n, Mailboxes) then 1 else 0)
            && |h.dnsNames| == |g.dnsNames| + (if OfKind(n, Hosts) then 1 else 0)
            && |h.directoryNames| == |g.directoryNames| + (if OfKind(n, Directories) then 1 else 0)
            && |h.ipAddresses| == |g.ipAddresses| + (if OfKind(n, Addresses) then 1 else 0)
            && |h.ipAddressRanges| == |g.ipAddressRanges| + (if OfKind(n, Ranges) then 1 else 0)
  {
    hide WithBit, TypeBit;
  }

  lemma {:induction false} ListsCount(ns: seq<GeneralName>)
    ensures var g := AddedAll(EMPTY, ns);
            && |g.rfc822Names| == Count(ns, Mailboxes) && |g.dnsNames| == Count(ns, Hosts)
            && |g.directoryNames| == Count(ns, Directories) && |g.ipAddresses| == Count(ns, Addresses)
            && |g.ipAddressRanges| == Count(ns, Ranges)
  {
    hide OfKind, Added;
    if ns != [] {
      ListsCount(ns[..|ns| - 1]);
      AddedOne(AddedAll(EMPTY, ns[..|ns| - 1]), ns[|ns| - 1]);
    }
  }

  lemma WorkExactly(permitted: seq<GeneralName>, excluded: seq<GeneralName>, subject: Input, alts: Option<seq<GeneralName>>)
    ensures var c := PresentedNames(subject, alts);
            NameCount(c) * ConstraintCount(AddedAll(EMPTY, excluded), AddedAll(EMPTY, permitted), c) == Work(permitted, excluded, subject, alts)
  {
    ListsCount(permitted);
    ListsCount(excluded);
    if alts.Some? { ListsCount(alts.value); }
    hide AddedAll, Count;
  }

  /** A certificate is accepted exactly when the work limit holds, every alternative name of every kind is allowed, without
      alternative names every mailbox in the subject is, and the subject is unless it is empty beside alternative names. */
  lemma AcceptedExactly(m: NameMatcher, permitted: seq<GeneralName>, excluded: seq<GeneralName>, isCritical: bool,
                        subject: Input, alts: Option<seq<GeneralName>>)
    ensures var c := PresentedNames(subject, alts);
            ParsedVerdict(m, permitted, excluded, isCritical, c) == [] <==>
            && Work(permitted, excluded, subject, alts) <= 0x10_0000
            && (alts.Some? ==> AlternativesAllowed(m, permitted, excluded, isCritical, alts.value))
            && (alts.None? && MailboxesConstrained(permitted, excluded) ==>
                  m.emails(subject).Some? && forall n :: n in m.emails(subject).value ==> MailboxAllowed(permitted, excluded, n, true))
            && (alts.None? || subject != [] ==> DirectoryAllowed(m, permitted, excluded, subject))
  {
    var x, p := AddedAll(EMPTY, excluded), AddedAll(EMPTY, permitted);
    var t := TypesWith(NAME_NONE, p.presentNameTypes, x.presentNameTypes, isCritical);
    PermittedAreAllowed(m, permitted, excluded);
    MailboxBit(permitted, excluded, isCritical);
    WorkExactly(permitted, excluded, subject, alts);
    hide Work, PermittedRfc822, PermittedDNS, PermittedDirectory, PermittedIP, HasBit, TypesWith, AddedAll, Unsupported, NameCount,
         ConstraintCount, MailboxesConstrained, Unmatchable, HostAllowed, DirectoryAllowed, MailboxAllowed, AddressAllowed;
    if alts.Some? {
      AlternativesExactly(m, permitted, excluded, isCritical, alts.value);
      hide AltNamesPermitted, AlternativesAllowed;
    }
  }

  lemma MailboxBit(permitted: seq<GeneralName>, excluded: seq<GeneralName>, isCritical: bool)
    ensures var x, p := AddedAll(EMPTY, excluded), AddedAll(EMPTY, permitted);
            HasBit(TypesWith(NAME_NONE, p.presentNameTypes, x.presentNameTypes, isCritical), RFC822_NAME)
            <==> MailboxesConstrained(permitted, excluded)
  {
    var x, p := AddedAll(EMPTY, excluded), AddedAll(EMPTY, permitted);
    BuiltListsHold(excluded);
    BuiltListsHold(permitted);
    SupportedBits();
    hide AddedAll, HasBit, TypesWith, ListsHold;
    TypesWithBit(p.presentNameTypes, x.presentNameTypes, isCritical, RFC822_NAME);
  }

  lemma AlternativesExactly(m: NameMatcher, permitted: seq<GeneralName>, excluded: seq<GeneralName>, isCritical: bool,
                            alts: seq<GeneralName>)
    ensures var x, p := AddedAll(EMPTY, excluded), AddedAll(EMPTY, permitted);
            AltNamesPermitted(m, x, p, TypesWith(NAME_NONE, p.presentNameTypes, x.presentNameTypes, isCritical), AddedAll(EMPTY, alts))
            <==> AlternativesAllowed(m, permitted, excluded, isCritical, alts)
  {
    PermittedAreAllowed(m, permitted, excluded);
    forall n ensures PermittedIP(AddedAll(EMPTY, excluded), AddedAll(EMPTY, permitted), n) <==> AddressAllowed(permitted, excluded, n) {
      AddressesAreAllowed(permitted, excluded, n);
    }
    MailboxBit(permitted, excluded, isCritical);
    UnsupportedNames(permitted, excluded, isCritical, alts);
    BuiltListsHold(alts);
    hide PermittedRfc822, PermittedDNS, PermittedDirectory, PermittedIP, HasBit, TypesWith, AddedAll, Unsupported, BitsHold,
         MailboxesConstrained, Unmatchable, HostAllowed, DirectoryAllowed, MailboxAllowed, AddressAllowed;
  }
}
