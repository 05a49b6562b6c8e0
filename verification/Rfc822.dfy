/** Matching a mailbox against an rfc822Name constraint (pki/name_constraints.cc). */
module Rfc822 {
  import opened Strings

  datatype Rfc822NameMatchType = Permitted | Excluded

  predicate IsAlphaDigit(c: char) {
    '0' <= c <= '9' || 'a' <= c <= 'z' || 'A' <= c <= 'Z'
  }

  predicate IsLocalChar(c: char) {
    IsAlphaDigit(c) || c in "!#$%&'*+-/=?^_`{|}~."
  }

  predicate IsDomainChar(c: char) {
    IsAlphaDigit(c) || c == '-' || c == '.'
  }

  predicate AllowedLocalPart(s: string) {
    s != "" && forall i :: 0 <= i < |s| ==> IsLocalChar(s[i])
  }

  predicate AllowedDomain(s: string) {
    s != "" && forall i :: 0 <= i < |s| ==> IsDomainChar(s[i])
  }

  method IsAllowedRfc822LocalPart(localPart: string) returns (r: bool)
    ensures r <==> AllowedLocalPart(localPart)
  {
    if localPart == "" { return false; }
    for i := 0 to |localPart|
      invariant forall k :: 0 <= k < i ==> IsLocalChar(localPart[k])
    {
      if !IsLocalChar(localPart[i]) { return false; }
    }
    return true;
  }

  method IsAllowedRfc822Domain(domain: string) returns (r: bool)
    ensures r <==> AllowedDomain(domain)
  {
    if domain == "" { return false; }
    for i := 0 to |domain|
      invariant forall k :: 0 <= k < i ==> IsDomainChar(domain[k])
    {
      if !IsDomainChar(domain[i]) { return false; }
    }
    return true;
  }

  /** Local parts are printable ASCII without the specials of section 3.2.3 of RFC 5322 other than the dot. */
  lemma LocalPartExactly(s: string)
    ensures AllowedLocalPart(s) <==>
            s != "" && forall i :: 0 <= i < |s| ==>
              0x21 <= s[i] as int <= 0x7e && s[i] as int !in {0x22, 0x28, 0x29, 0x2c, 0x3a, 0x3b, 0x3c, 0x3e, 0x40, 0x5b, 0x5c, 0x5d}
  {
    forall c ensures IsLocalChar(c) <==>
      0x21 <= c as int <= 0x7e && c as int !in {0x22, 0x28, 0x29, 0x2c, 0x3a, 0x3b, 0x3c, 0x3e, 0x40, 0x5b, 0x5c, 0x5d}
    {
      LocalChars(c);
    }
    hide IsLocalChar;
  }

  lemma LocalChars(c: char)
    ensures IsLocalChar(c) <==>
            0x21 <= c as int <= 0x7e && c as int !in {0x22, 0x28, 0x29, 0x2c, 0x3a, 0x3b, 0x3c, 0x3e, 0x40, 0x5b, 0x5c, 0x5d}
  {
  }

  /** Domains are ASCII letters, digits, dashes and dots. */
  lemma DomainExactly(s: string)
    ensures AllowedDomain(s) <==>
            s != "" && forall i :: 0 <= i < |s| ==>
              0x41 <= s[i] as int <= 0x5a || 0x61 <= s[i] as int <= 0x7a || 0x2d <= s[i] as int <= 0x2e || 0x30 <= s[i] as int <= 0x39
  {
  }

  /** What a constraint asks for: one mailbox, every mailbox at a host, or every mailbox below a domain. */
  datatype Rfc822Constraint =
    | Mailbox(localPart: string, domain: string)
    | Host(domain: string)
    | Subdomains(suffix: string)

  ghost predicate WellFormed(k: Rfc822Constraint) {
    match k
    case Mailbox(l, d) => AllowedLocalPart(l) && AllowedDomain(d)
    case Host(d) => AllowedDomain(d) && d[0] != '.'
    case Subdomains(s) => AllowedDomain(s) && s[0] == '.'
  }

  ghost function Text(k: Rfc822Constraint): string {
    match k
    case Mailbox(l, d) => l + "@" + d
    case Host(d) => d
    case Subdomains(s) => s
  }

  ghost predicate Denotes(text: string, k: Rfc822Constraint) {
    WellFormed(k) && text == Text(k)
  }

  ghost predicate Satisfies(localPart: string, domain: string, k: Rfc822Constraint, ignoreLocalCase: bool) {
    match k
    case Mailbox(l, d) => (if ignoreLocalCase then IsEqualNoCase(localPart, l) else localPart == l) && IsEqualNoCase(domain, d)
    case Host(d) => IsEqualNoCase(domain, d)
    case Subdomains(s) => EndsWithNoCase(domain, s)
  }

  /** A constraint that denotes nothing permits no mailbox and excludes every one. */
  ghost predicate MailboxMatches(localPart: string, domain: string, constraint: string,
                                 matchType: Rfc822NameMatchType, ignoreLocalCase: bool)
  {
    if exists k :: Denotes(constraint, k) then
      exists k :: Denotes(constraint, k) && Satisfies(localPart, domain, k, ignoreLocalCase)
    else matchType.Excluded?
  }

  lemma AllowedFree(s: string)
    requires AllowedLocalPart(s) || AllowedDomain(s)
    ensures '@' !in s && Split(s, '@') == [s]
  {
    forall i | 0 <= i < |s| ensures s[i] != '@' {
      assert AllowedLocalPart(s) ==> IsLocalChar(s[i]);
      assert AllowedDomain(s) ==> IsDomainChar(s[i]);
    }
    SplitFree(s, '@');
  }

  lemma DenotedPieces(k: Rfc822Constraint)
    requires WellFormed(k)
    ensures Split(Text(k), '@') == match k case Mailbox(l, d) => [l, d] case Host(d) => [d] case Subdomains(s) => [s]
  {
    match k
    case Mailbox(l, d) =>
      AllowedFree(l);
      AllowedFree(d);
      SplitAt(l, '@', d);
    case Host(d) => AllowedFree(d);
    case Subdomains(s) => AllowedFree(s);
  }

  /** A text denotes at most one constraint. */
  lemma DenotesUnique(text: string, j: Rfc822Constraint, k: Rfc822Constraint)
    requires Denotes(text, j) && Denotes(text, k)
    ensures j == k
  {
    hide Split;
    DenotedPieces(j);
    DenotedPieces(k);
    var p := Split(text, '@');
    assert |p| == 1 ==> p[0] == Text(j) == Text(k);
    assert |p| == 2 ==> j.Mailbox? && k.Mailbox? && p[0] == j.localPart == k.localPart && p[1] == j.domain == k.domain;
  }

  method Rfc822NameMatches(localPart: string, domain: string, constraint: string,
                           matchType: Rfc822NameMatchType, ignoreLocalCase: bool) returns (r: bool)
    ensures r <==> MailboxMatches(localPart, domain, constraint, matchType, ignoreLocalCase)
  {
    hide Split, IsEqualNoCase, EndsWithNoCase, AllowedLocalPart, AllowedDomain;
    var errorValue := if matchType.Permitted? then false else true;
    var components := SplitString(constraint, '@');
    var constraintLocalPart, constraintDomain := "", "";
    forall k | Denotes(constraint, k)
      ensures constraint != "" &&
              Split(constraint, '@') == match k case Mailbox(l, d) => [l, d] case Host(d) => [d] case Subdomains(s) => [s]
    {
      DenotedPieces(k);
      NotEmpty(k);
    }
    JoinSplit(constraint, '@');
    if |components| == 1 {
      constraintDomain := components[0];
    } else if |components| == 2 {
      constraintLocalPart := components[0];
      var okLocal := IsAllowedRfc822LocalPart(constraintLocalPart);
      if !okLocal { return errorValue; }
      constraintDomain := components[1];
    } else {
      return errorValue;
    }
    var okDomain := IsAllowedRfc822Domain(constraintDomain);
    if !okDomain {
      return errorValue;
    }
    AllowedNotEmpty(constraintLocalPart, constraintDomain);
    ghost var k := if |components| == 2 then Mailbox(constraintLocalPart, constraintDomain)
                   else if constraintDomain[0] == '.' then Subdomains(constraintDomain) else Host(constraintDomain);
    assert Denotes(constraint, k) by { JoinTwo(components); }
    forall j | Denotes(constraint, j) ensures j == k { DenotesUnique(constraint, j, k); }
    if constraintLocalPart != "" {
      return (if ignoreLocalCase then IsEqualNoCase(localPart, constraintLocalPart) else localPart == constraintLocalPart)
             && IsEqualNoCase(domain, constraintDomain);
    }
    if constraintDomain != "" && constraintDomain[0] == '.' {
      return EndsWithNoCase(domain, constraintDomain);
    }
    return IsEqualNoCase(domain, constraintDomain);
  }

  lemma NotEmpty(k: Rfc822Constraint)
    requires WellFormed(k)
    ensures Text(k) != ""
  {
  }

  lemma AllowedNotEmpty(l: string, d: string)
    ensures AllowedLocalPart(l) ==> l != ""
    ensures AllowedDomain(d) ==> d != ""
  {
  }

  lemma JoinTwo(parts: seq<string>)
    ensures |parts| == 1 ==> Join(parts, '@') == parts[0]
    ensures |parts| == 2 ==> Join(parts, '@') == parts[0] + "@" + parts[1]
  {
  }

  /** Ignoring the case of the local part only widens what is excluded. */
  lemma IgnoringCaseExcludesMore(localPart: string, domain: string, constraint: string, matchType: Rfc822NameMatchType)
    requires MailboxMatches(localPart, domain, constraint, matchType, false)
    ensures MailboxMatches(localPart, domain, constraint, matchType, true)
  {
    if k :| Denotes(constraint, k) && Satisfies(localPart, domain, k, false) {
      assert Satisfies(localPart, domain, k, true);
    }
  }

  // ----- what each form of constraint matches

  /** The domain lies below: it ends, up to the case of letters, with the text that starts with a dot. */
  predicate Below(domain: string, suffix: string) {
    |domain| >= |suffix| && SameButCase(domain[|domain| - |suffix|..], suffix)
  }

  /** A mailbox constraint matches that mailbox, a host constraint every mailbox there, one with a leading dot every mailbox
      in a domain below; domains up to case, local parts up to case only when told so. Any other text excludes every mailbox
      and permits none. */
  lemma MatchesExactly(localPart: string, domain: string, constraint: string, matchType: Rfc822NameMatchType, ignoreLocalCase: bool)
    ensures MailboxMatches(localPart, domain, constraint, matchType, ignoreLocalCase) <==>
            if exists l, d :: AllowedLocalPart(l) && AllowedDomain(d) && constraint == l + "@" + d then
              exists l, d :: AllowedLocalPart(l) && AllowedDomain(d) && constraint == l + "@" + d
                && (if ignoreLocalCase then SameButCase(localPart, l) else localPart == l) && SameButCase(domain, d)
            else if AllowedDomain(constraint) then
              if constraint[0] == '.' then Below(domain, constraint) else SameButCase(domain, constraint)
            else matchType.Excluded?
  {
    hide IsEqualNoCase, SameButCase, AllowedLocalPart, AllowedDomain;
    if l, d :| AllowedLocalPart(l) && AllowedDomain(d) && constraint == l + "@" + d {
      FormIs(localPart, domain, constraint, Mailbox(l, d), matchType, ignoreLocalCase);
      forall l', d' | AllowedLocalPart(l') && AllowedDomain(d') && constraint == l' + "@" + d' ensures l' == l && d' == d {
        DenotesUnique(constraint, Mailbox(l, d), Mailbox(l', d'));
      }
    } else if AllowedDomain(constraint) {
      DomainThere(constraint);
      var k := if constraint[0] == '.' then Subdomains(constraint) else Host(constraint);
      FormIs(localPart, domain, constraint, k, matchType, ignoreLocalCase);
    } else {
      forall k ensures !Denotes(constraint, k) {}
    }
  }

  lemma DomainThere(s: string)
    requires AllowedDomain(s)
    ensures s != ""
  {
  }

  /** With a form the text denotes, matching is satisfying that form. */
  lemma FormIs(localPart: string, domain: string, constraint: string, k: Rfc822Constraint,
               matchType: Rfc822NameMatchType, ignoreLocalCase: bool)
    requires Denotes(constraint, k)
    ensures MailboxMatches(localPart, domain, constraint, matchType, ignoreLocalCase) <==>
            match k
            case Mailbox(l, d) => (if ignoreLocalCase then SameButCase(localPart, l) else localPart == l) && SameButCase(domain, d)
            case Host(d) => SameButCase(domain, d)
            case Subdomains(s) => Below(domain, s)
  {
    hide IsEqualNoCase, SameButCase, AllowedLocalPart, AllowedDomain;
    forall j | Denotes(constraint, j) ensures j == k { DenotesUnique(constraint, j, k); }
    match k
    case Mailbox(l, d) =>
      NoCaseExactly(localPart, l);
      NoCaseExactly(domain, d);
    case Host(d) => NoCaseExactly(domain, d);
    case Subdomains(s) =>
      if |s| <= |domain| { NoCaseExactly(s, domain[|domain| - |s|..]); SameEitherWay(s, domain[|domain| - |s|..]); }
  }
}
