/** Matching a DNS name against a name constraint (pki/name_constraints.cc). */
module DnsNames {
  import opened Strings

  datatype WildcardMatchType = WILDCARD_PARTIAL_MATCH | WILDCARD_FULL_MATCH

  /** An absolute name without its final dot. */
  function StripDot(s: string): string {
    if s != "" && s[|s| - 1] == '.' then s[..|s| - 1] else s
  }

  /** The labels of a name, case folded. */
  function Labels(s: string): (r: seq<string>)
    ensures |r| >= 1
  {
    Split(Lower(s), '.')
  }

  predicate IsSuffix<T(==)>(a: seq<T>, b: seq<T>) {
    |a| <= |b| && b[|b| - |a|..] == a
  }

  predicate IsLabel(x: string) {
    x != "" && '.' !in x
  }

  /** A label that a wildcard stands for: any but the wildcard's own. */
  predicate IsHost(x: string) {
    IsLabel(x) && x != "*"
  }

  /** The name lies in the subtree: its labels end with the constraint's, and
      have at least one more when the constraint starts with a dot. */
  predicate InSubtree(name: string, constraint: string) {
    constraint == "" ||
    var n, c := StripDot(name), StripDot(constraint);
    if c != "" && c[0] == '.' then
      IsSuffix(Labels(c[1..]), Labels(n)) && |Labels(c[1..])| < |Labels(n)|
    else
      IsSuffix(Labels(c), Labels(n))
  }

  /** A wildcard that stands for hosts of some domain. */
  predicate IsWildcard(name: string) {
    var n := StripDot(name);
    |n| > 2 && n[0] == '*' && n[1] == '.'
  }

  /** Some host of the domain lies in the subtree. */
  ghost predicate SomeHostInSubtree(d: string, constraint: string) {
    exists x :: IsHost(x) && InSubtree(x + "." + d, constraint)
  }

  ghost predicate EveryHostInSubtree(d: string, constraint: string) {
    forall x :: IsHost(x) ==> InSubtree(x + "." + d, constraint)
  }

  /** The labels a domain contributes to the names w.d. */
  function DomainLabels(d: string): seq<string> {
    if d == "" then [] else Labels(StripDot(d))
  }

  /** The constraint spells out the name w.d itself. */
  predicate SpellsHost(constraint: string, w: string, d: string) {
    constraint != "" &&
    var c := StripDot(constraint);
    !(c != "" && c[0] == '.') && Labels(c) == [Lower(w)] + DomainLabels(d)
  }

  /** A wildcard matches when one of its hosts does or the constraint spells out the wildcard;
      any other name when it is in the subtree. */
  ghost predicate PartialMatch(name: string, constraint: string) {
    if IsWildcard(name) then SomeHostInSubtree(name[2..], constraint) || SpellsHost(constraint, "*", name[2..])
    else InSubtree(name, constraint)
  }

  ghost predicate Matches(name: string, constraint: string, mode: WildcardMatchType) {
    if mode.WILDCARD_FULL_MATCH? then InSubtree(name, constraint) else PartialMatch(name, constraint)
  }

  method DNSNameMatches(fullName: string, constraint: string, wildcardMatching: WildcardMatchType) returns (r: bool)
    ensures r <==> Matches(fullName, constraint, wildcardMatching)
  {
    hide InSubtree, PartialMatch, Find, IsEqualNoCase, EndsAtLabel;
    var name, dnsConstraint := fullName, constraint;
    if dnsConstraint == "" {
      EverythingInEmpty(fullName);
      return true;
    }
    PartialDecision(fullName, constraint);
    SuffixDecision(fullName, constraint);
    if name != "" && name[|name| - 1] == '.' {
      name := name[..|name| - 1];
    }
    if dnsConstraint != "" && dnsConstraint[|dnsConstraint| - 1] == '.' {
      dnsConstraint := dnsConstraint[..|dnsConstraint| - 1];
    }
    if wildcardMatching.WILDCARD_PARTIAL_MATCH? && |name| > 2 && name[0] == '*' && name[1] == '.' {
      var dotPos := Find(dnsConstraint, '.');
      if dotPos != |dnsConstraint| {
        var constraintDomain := dnsConstraint[dotPos + 1..];
        var wildcardDomain := name[2..];
        if IsEqualNoCase(wildcardDomain, constraintDomain) {
          return true;
        }
      }
    }
    r := MatchesSuffix(name, dnsConstraint);
  }

  /** The suffix test on names without final dots. */
  predicate EndsAtLabel(n: string, c: string) {
    var d := if c != "" && c[0] == '.' then c[1..] else c;
    EndsWithNoCase(n, c) && (|n| == |c| || (|n| > |d| && n[|n| - |d| - 1] == '.'))
  }

  /** The second half of the matching, shared by both modes. */
  method MatchesSuffix(name: string, constraint: string) returns (r: bool)
    ensures r <==> EndsAtLabel(name, constraint)
  {
    hide EndsWithNoCase;
    var dnsConstraint := constraint;
    if !EndsWithNoCase(name, dnsConstraint) {
      return false;
    }
    if |name| == |dnsConstraint| {
      return true;
    }
    if dnsConstraint != "" && dnsConstraint[0] == '.' {
      dnsConstraint := dnsConstraint[1..];
    }
    if |name| > |dnsConstraint| && name[|name| - |dnsConstraint| - 1] == '.' {
      return true;
    }
    return false;
  }

  // ----- suffixes of strings and of label lists

  lemma LowerDot(s: string, t: string)
    ensures Lower(s + "." + t) == Lower(s) + "." + Lower(t)
  {
  }

  lemma LabelsDot(s: string, t: string)
    ensures Labels(s + "." + t) == Labels(s) + Labels(t)
  {
    LowerDot(s, t);
    SplitAt(Lower(s), '.', Lower(t));
  }

  lemma LowerNoDot(x: string)
    requires '.' !in x
    ensures '.' !in Lower(x) && Labels(x) == [Lower(x)]
  {
    forall i | 0 <= i < |x| ensures Lower(x)[i] != '.' {
      assert x[i] in x;
    }
    assert Find(Lower(x), '.') == |x|;
  }

  /** A suffix that starts a label is a suffix of the labels. */
  lemma SuffixIsLabelSuffix(n: string, c: string)
    ensures IsSuffix(Labels(c), Labels(n)) <==>
            EndsWithNoCase(n, c) && (|n| == |c| || n[|n| - |c| - 1] == '.')
    ensures IsSuffix(Labels(c), Labels(n)) ==> (|n| == |c| <==> |Labels(n)| == |Labels(c)|)
  {
    if EndsWithNoCase(n, c) && (|n| == |c| || n[|n| - |c| - 1] == '.') {
      var tail := n[|n| - |c|..];
      EqualNoCase(c, tail);
      if |n| == |c| {
        assert n == tail;
      } else {
        var head := n[..|n| - |c| - 1];
        assert n == head + "." + tail;
        LabelsDot(head, tail);
      }
    }
    if IsSuffix(Labels(c), Labels(n)) { LabelSuffixIsSuffix(n, c); }
  }

  lemma LabelSuffixIsSuffix(n: string, c: string)
    requires IsSuffix(Labels(c), Labels(n))
    ensures EndsWithNoCase(n, c) && (|n| == |c| || n[|n| - |c| - 1] == '.')
    ensures |n| == |c| <==> |Labels(n)| == |Labels(c)|
  {
    hide Split, Join;
    var ln, lc := Labels(n), Labels(c);
    JoinSplit(Lower(n), '.');
    JoinSplit(Lower(c), '.');
    var head := ln[..|ln| - |lc|];
    assert ln == head + lc;
    if head == [] {
      assert ln == lc;
      EqualNoCase(c, n);
      assert n[0..] == n;
    } else {
      JoinConcat(head, lc, '.');
      var h := Join(head, '.');
      assert Lower(n) == h + "." + Lower(c);
      assert Lower(n)[|h|] == '.';
      var tail := n[|n| - |c|..];
      assert Lower(tail) == Lower(n)[|n| - |c|..] == Lower(c);
      EqualNoCase(c, tail);
    }
  }

  /** A constraint with a leading dot asks for at least one more label. */
  lemma DottedSuffix(n: string, d: string)
    ensures EndsWithNoCase(n, "." + d) <==> IsSuffix(Labels(d), Labels(n)) && |Labels(d)| < |Labels(n)|
    ensures EndsWithNoCase(n, "." + d) ==> |n| > |d| && n[|n| - |d| - 1] == '.'
  {
    SuffixIsLabelSuffix(n, d);
    DotThenSuffix(n, d);
  }

  lemma DotThenSuffix(n: string, d: string)
    ensures EndsWithNoCase(n, "." + d) <==> |n| > |d| && n[|n| - |d| - 1] == '.' && EndsWithNoCase(n, d)
  {
    if |n| > |d| {
      var tail, dotted := n[|n| - |d|..], n[|n| - |d| - 1..];
      assert dotted == [n[|n| - |d| - 1]] + tail;
      if EndsWithNoCase(n, "." + d) {
        assert ToLower(dotted[0]) == ToLower('.');
        forall i | 0 <= i < |d| ensures ToLower(d[i]) == ToLower(tail[i]) {
          assert ("." + d)[i + 1] == d[i] && dotted[i + 1] == tail[i];
        }
      }
      if EndsWithNoCase(n, d) && n[|n| - |d| - 1] == '.' {
        forall i | 0 <= i < |d| + 1 ensures ToLower(("." + d)[i]) == ToLower(dotted[i]) {
          if i > 0 { assert ("." + d)[i] == d[i - 1] && dotted[i] == tail[i - 1]; }
        }
      }
    }
  }

  lemma EverythingInEmpty(name: string)
    ensures InSubtree(name, "")
    ensures PartialMatch(name, "")
  {
    if IsWildcard(name) { assert IsHost("a") && InSubtree("a" + "." + name[2..], ""); }
  }

  /** The subtree test on normalized strings. */
  lemma SuffixDecision(name: string, constraint: string)
    requires constraint != ""
    ensures InSubtree(name, constraint) <==> EndsAtLabel(StripDot(name), StripDot(constraint))
  {
    hide Labels, IsEqualNoCase;
    var n, c := StripDot(name), StripDot(constraint);
    SuffixIsLabelSuffix(n, c);
    if c != "" && c[0] == '.' {
      assert c == "." + c[1..];
      DottedSuffix(n, c[1..]);
    }
  }

  // ----- hosts of one domain

  lemma HostLabels(w: string, d: string)
    requires IsLabel(w)
    ensures Labels(StripDot(w + "." + d)) == [Lower(w)] + DomainLabels(d)
  {
    hide Split, Lower;
    LowerNoDot(w);
    var s := w + "." + d;
    if d == "" {
      assert s[..|s| - 1] == w;
    } else if d[|d| - 1] == '.' {
      assert s[..|s| - 1] == w + "." + d[..|d| - 1];
      LabelsDot(w, StripDot(d));
    } else {
      LabelsDot(w, d);
    }
  }

  /** The constraint takes in every name that ends in d. */
  predicate CoversDomain(constraint: string, d: string) {
    constraint == "" ||
    var c := StripDot(constraint);
    if c != "" && c[0] == '.' then IsSuffix(Labels(c[1..]), DomainLabels(d)) else IsSuffix(Labels(c), DomainLabels(d))
  }

  /** What spells out one host does not cover its domain. */
  lemma SpellsOrCovers(constraint: string, w: string, d: string)
    requires SpellsHost(constraint, w, d)
    ensures !CoversDomain(constraint, d)
  {
    hide Labels, Lower, DomainLabels;
    assert |[Lower(w)] + DomainLabels(d)| > |DomainLabels(d)|;
  }

  /** Case aside, a constraint spells out one host of a domain at most. */
  lemma SpellsOne(constraint: string, v: string, w: string, d: string)
    requires SpellsHost(constraint, v, d) && SpellsHost(constraint, w, d)
    ensures Lower(v) == Lower(w)
  {
    hide Labels, Lower, DomainLabels;
    assert ([Lower(v)] + DomainLabels(d))[0] == ([Lower(w)] + DomainLabels(d))[0];
  }

  lemma LowerStar(x: string)
    requires Lower(x) == Lower("*")
    ensures x == "*"
  {
    assert Lower("*")[0] == '*' && Lower(x)[0] == ToLower(x[0]);
  }

  /** A host w.d is in the subtree because all of d is, or because it is named. */
  lemma HostInSubtree(w: string, d: string, constraint: string)
    requires IsLabel(w)
    ensures InSubtree(w + "." + d, constraint) <==> CoversDomain(constraint, d) || SpellsHost(constraint, w, d)
  {
    hide Split, Lower, Labels;
    HostLabels(w, d);
    if constraint != "" {
      var c := StripDot(constraint);
      var l := if c != "" && c[0] == '.' then Labels(c[1..]) else Labels(c);
      SuffixOfCons(l, Lower(w), DomainLabels(d));
      hide IsSuffix, StripDot, DomainLabels;
    }
  }

  lemma SuffixOfCons(l: seq<string>, h: string, t: seq<string>)
    ensures IsSuffix(l, [h] + t) <==> IsSuffix(l, t) || l == [h] + t
    ensures IsSuffix(l, t) ==> |l| < |[h] + t|
  {
    if |l| <= |t| {
      DropBehind(h, t, |t| - |l|);
    } else if |l| == |t| + 1 {
      assert ([h] + t)[0..] == [h] + t;
    }
  }

  lemma DropBehind<T>(h: T, t: seq<T>, k: nat)
    requires k <= |t|
    ensures ([h] + t)[k + 1..] == t[k..]
  {
  }

  lemma WildcardDomain(name: string)
    requires IsWildcard(name)
    ensures |name| > 2 && name == "*" + "." + name[2..] && StripDot(name)[2..] == StripDot(name[2..])
  {
  }

  lemma FirstLabelIs(c: string, x: string, t: seq<string>)
    requires Labels(c) == [x] + t && t != []
    ensures var p := Find(c, '.'); p < |c| && Lower(c[..p]) == x && Labels(c[p + 1..]) == t
  {
    hide Split, Lower, Labels;
    var p := Find(c, '.');
    if p == |c| {
      assert '.' !in c;
      LowerNoDot(c);
    } else {
      assert c == c[..p] + "." + c[p + 1..];
      LabelsDot(c[..p], c[p + 1..]);
      LowerNoDot(c[..p]);
      assert ([x] + t)[0] == x && ([x] + t)[1..] == t;
    }
  }

  ghost predicate SomeLabelInSubtree(d: string, constraint: string) {
    exists x :: IsLabel(x) && InSubtree(x + "." + d, constraint)
  }

  /** Among all labels, the wildcard's own adds the constraint that spells it out and no other. */
  lemma LabelsAndHosts(d: string, constraint: string)
    ensures SomeLabelInSubtree(d, constraint) <==> SomeHostInSubtree(d, constraint) || SpellsHost(constraint, "*", d)
  {
    hide InSubtree, CoversDomain, SpellsHost;
    assert IsLabel("*") && IsHost("a");
    HostInSubtree("*", d, constraint);
    HostInSubtree("a", d, constraint);
    if x :| IsLabel(x) && InSubtree(x + "." + d, constraint) {
      if x == "*" && CoversDomain(constraint, d) { assert InSubtree("a" + "." + d, constraint); }
    }
    if SpellsHost(constraint, "*", d) { assert InSubtree("*" + "." + d, constraint); }
  }

  /** A constraint that is some label and then the wildcard's domain contains an expansion. */
  lemma ClauseFindsExpansion(d: string, constraint: string)
    requires StripDot(d) != "" && constraint != ""
    requires var c := StripDot(constraint);
             var p := Find(c, '.');
             p < |c| && IsEqualNoCase(StripDot(d), c[p + 1..])
    ensures SomeLabelInSubtree(d, constraint)
  {
    hide Split, Lower, Labels, IsEqualNoCase, InSubtree;
    var c := StripDot(constraint);
    var p := Find(c, '.');
    EqualNoCase(StripDot(d), c[p + 1..]);
    assert Labels(c[p + 1..]) == Labels(StripDot(d)) by { SameLabels(c[p + 1..], StripDot(d)); }
    assert c == c[..p] + "." + c[p + 1..];
    LabelsDot(c[..p], c[p + 1..]);
    var x := if p == 0 then "*" else c[..p];
    assert IsLabel(x);
    LowerNoDot(x);
    HostInSubtree(x, d, constraint);
    assert p == 0 ==> c[1..] == c[p + 1..];
    assert InSubtree(x + "." + d, constraint);
  }

  lemma SameLabels(s: string, t: string)
    requires Lower(s) == Lower(t)
    ensures Labels(s) == Labels(t)
  {
  }

  /** Conversely an expansion is found by the clause unless the wildcard itself is in the subtree. */
  lemma ExpansionFoundByClause(d: string, constraint: string, x: string)
    requires StripDot(d) != "" && constraint != ""
    requires IsLabel(x) && InSubtree(x + "." + d, constraint) && !InSubtree("*" + "." + d, constraint)
    ensures var c := StripDot(constraint);
            var p := Find(c, '.');
            p < |c| && IsEqualNoCase(StripDot(d), c[p + 1..])
  {
    hide Split, Lower, Labels, IsEqualNoCase, InSubtree;
    var c := StripDot(constraint);
    HostInSubtree(x, d, constraint);
    HostInSubtree("*", d, constraint);
    FirstLabelIs(c, Lower(x), DomainLabels(d));
    var p := Find(c, '.');
    LabelsDetermine(c[p + 1..], StripDot(d));
    EqualNoCase(StripDot(d), c[p + 1..]);
  }

  lemma LabelsDetermine(s: string, t: string)
    requires Labels(s) == Labels(t)
    ensures Lower(s) == Lower(t)
  {
    SplitInjective(Lower(s), Lower(t), '.');
  }

  /** The special clause for wildcards, together with the subtree test of the wildcard itself,
      finds out whether some expansion is in the subtree. */
  lemma PartialClause(d: string, constraint: string)
    requires StripDot(d) != "" && constraint != ""
    ensures var c := StripDot(constraint);
            var p := Find(c, '.');
            SomeLabelInSubtree(d, constraint) <==>
            (p < |c| && IsEqualNoCase(StripDot(d), c[p + 1..])) || InSubtree("*" + "." + d, constraint)
  {
    hide InSubtree, IsEqualNoCase;
    var c := StripDot(constraint);
    var p := Find(c, '.');
    assert IsLabel("*");
    if p < |c| && IsEqualNoCase(StripDot(d), c[p + 1..]) {
      ClauseFindsExpansion(d, constraint);
    }
    if x :| IsLabel(x) && InSubtree(x + "." + d, constraint) && !InSubtree("*" + "." + d, constraint) {
      ExpansionFoundByClause(d, constraint, x);
    }
  }

  /** The partial mode on normalized strings. */
  lemma PartialDecision(name: string, constraint: string)
    requires constraint != ""
    ensures var n, c := StripDot(name), StripDot(constraint);
            var p := Find(c, '.');
            PartialMatch(name, constraint) <==>
            (|n| > 2 && n[0] == '*' && n[1] == '.' && p < |c| && IsEqualNoCase(n[2..], c[p + 1..]))
            || InSubtree(name, constraint)
  {
    hide InSubtree, IsEqualNoCase, SomeLabelInSubtree, SomeHostInSubtree, SpellsHost;
    if IsWildcard(name) {
      WildcardDomain(name);
      PartialClause(name[2..], constraint);
      LabelsAndHosts(name[2..], constraint);
    }
  }

  // ----- what the two modes mean for a wildcard

  lemma StarSurvives(constraint: string, d: string)
    requires SpellsHost(constraint, "*", d)
    ensures '*' in constraint
  {
    var c := StripDot(constraint);
    JoinSplit(Lower(c), '.');
    var l := Lower(c);
    assert Labels(c)[0] == Lower("*");
    if |Labels(c)| == 1 { assert l == Lower("*"); }
    assert l[0] == Lower("*")[0] == '*';
    assert ToLower(c[0]) == '*';
    assert c[0] == '*' && c[0] == constraint[0];
  }

  /** Full matching of *.d means that every host matches, exactly when the constraint does not spell out *.d. */
  lemma FullMatchExact(d: string, constraint: string)
    ensures (InSubtree("*" + "." + d, constraint) <==> EveryHostInSubtree(d, constraint))
            <==> !SpellsHost(constraint, "*", d)
  {
    hide InSubtree, CoversDomain, SpellsHost, Lower;
    HostInSubtree("*", d, constraint);
    forall x | IsHost(x)
      ensures InSubtree(x + "." + d, constraint) <==> CoversDomain(constraint, d) || SpellsHost(constraint, x, d)
    {
      HostInSubtree(x, d, constraint);
    }
    if SpellsHost(constraint, "*", d) { SpellsOrCovers(constraint, "*", d); }
    NotBothSpelled(constraint, d);
    assert IsHost("a") && IsHost("b");
    if EveryHostInSubtree(d, constraint) {
      assert InSubtree("a" + "." + d, constraint) && InSubtree("b" + "." + d, constraint);
    }
  }

  lemma NotBothSpelled(constraint: string, d: string)
    ensures !(SpellsHost(constraint, "a", d) && SpellsHost(constraint, "b", d))
  {
    assert Lower("a")[0] == 'a' && Lower("b")[0] == 'b';
    hide Lower, SpellsHost;
    if SpellsHost(constraint, "a", d) && SpellsHost(constraint, "b", d) { SpellsOne(constraint, "a", "b", d); }
  }

  /** So it does for every constraint without a star. */
  lemma FullMatchIsEveryExpansion(d: string, constraint: string)
    requires '*' !in constraint
    ensures InSubtree("*" + "." + d, constraint) <==> EveryHostInSubtree(d, constraint)
  {
    hide InSubtree, SpellsHost, EveryHostInSubtree;
    FullMatchExact(d, constraint);
    if SpellsHost(constraint, "*", d) { StarSurvives(constraint, d); }
  }

  /** The constraint spells out a host of the domain. */
  predicate SpellsSomeHost(constraint: string, d: string) {
    constraint != "" &&
    var c := StripDot(constraint);
    c != "" && c[0] != '.' && Labels(c)[1..] == DomainLabels(d) && Labels(c)[0] != "*"
  }

  lemma SpelledHost(constraint: string, d: string)
    ensures SpellsSomeHost(constraint, d) <==> exists x :: IsHost(x) && SpellsHost(constraint, x, d)
  {
    hide Labels, Lower, DomainLabels;
    var c := StripDot(constraint);
    if SpellsSomeHost(constraint, d) {
      FirstPiece(c);
      var x := c[..Find(c, '.')];
      assert Labels(c) == [Labels(c)[0]] + Labels(c)[1..];
      assert IsHost(x) && SpellsHost(constraint, x, d);
    }
    if x :| IsHost(x) && SpellsHost(constraint, x, d) {
      assert ([Lower(x)] + DomainLabels(d))[0] == Lower(x) && ([Lower(x)] + DomainLabels(d))[1..] == DomainLabels(d);
      StarIsStar(x);
      EmptyLabels(c);
    }
  }

  lemma StarIsStar(x: string)
    ensures Lower(x) == "*" <==> x == "*"
  {
    if Lower(x) == "*" { assert Lower("*") == "*"; LowerStar(x); }
    if x == "*" { assert Lower(x) == "*"; }
  }

  lemma EmptyLabels(c: string)
    ensures c == "" ==> Labels(c)[0] == ""
  {
  }

  /** The first label of a name that starts with one. */
  lemma FirstPiece(c: string)
    requires c != "" && c[0] != '.'
    ensures var x := c[..Find(c, '.')]; IsLabel(x) && Labels(c)[0] == Lower(x) && (x == "*" ==> Labels(c)[0] == "*")
  {
    hide Labels, Lower;
    var p := Find(c, '.');
    var x := c[..p];
    assert x[0] == c[0] && '.' !in x;
    LowerNoDot(x);
    StarIsStar(x);
    if p < |c| {
      assert c == x + "." + c[p + 1..];
      LabelsDot(x, c[p + 1..]);
    } else {
      assert x == c;
    }
  }

  /** Partial matching of *.d means that some host matches, exactly when the constraint does not spell out *.d
      and either d is not empty once its final dot is gone or no host of d is spelled out. */
  lemma PartialMatchExact(d: string, constraint: string)
    ensures (PartialMatch("*" + "." + d, constraint) <==> SomeHostInSubtree(d, constraint))
            <==> !SpellsHost(constraint, "*", d) && (StripDot(d) != "" || !SpellsSomeHost(constraint, d))
  {
    hide InSubtree, CoversDomain, SpellsHost, SpellsSomeHost, Lower, Labels;
    var name := "*" + "." + d;
    forall x | IsLabel(x)
      ensures InSubtree(x + "." + d, constraint) <==> CoversDomain(constraint, d) || SpellsHost(constraint, x, d)
    {
      HostInSubtree(x, d, constraint);
    }
    assert IsLabel("*") && IsHost("a") && name[2..] == d;
    SpelledHost(constraint, d);
    if CoversDomain(constraint, d) { assert InSubtree("a" + "." + d, constraint); }
    forall w | SpellsHost(constraint, w, d) ensures !CoversDomain(constraint, d) { SpellsOrCovers(constraint, w, d); }
    if SpellsHost(constraint, "*", d) {
      forall x | IsHost(x) ensures !SpellsHost(constraint, x, d) {
        if SpellsHost(constraint, x, d) {
          SpellsOne(constraint, x, "*", d);
          LowerStar(x);
        }
      }
    }
    assert SomeHostInSubtree(d, constraint) <==> CoversDomain(constraint, d) || SpellsSomeHost(constraint, d) by {
      if x :| IsHost(x) && InSubtree(x + "." + d, constraint) {}
      if x :| IsHost(x) && SpellsHost(constraint, x, d) { assert InSubtree(x + "." + d, constraint); }
    }
    assert IsWildcard(name) <==> StripDot(d) != "";
  }

  /** The constraint that spells out the wildcard: both modes match *.bar.com, and no host of bar.com. */
  lemma SpelledWildcardEscapes()
    ensures InSubtree("*.bar.com", "*.bar.com") && PartialMatch("*.bar.com", "*.bar.com")
    ensures !SomeHostInSubtree("bar.com", "*.bar.com") && !EveryHostInSubtree("bar.com", "*.bar.com")
  {
    hide InSubtree, SomeHostInSubtree, EveryHostInSubtree, PartialMatch, CoversDomain;
    var d, c := "bar.com", "*.bar.com";
    assert c == "*" + "." + d;
    SpellsItself("*", d);
    HostInSubtree("*", d, c);
    FullMatchExact(d, c);
    PartialMatchExact(d, c);
    PartialOfSpelled(d, c);
  }

  lemma PartialOfSpelled(d: string, constraint: string)
    requires StripDot(d) != "" && SpellsHost(constraint, "*", d)
    ensures PartialMatch("*" + "." + d, constraint)
  {
    hide SpellsHost, SomeHostInSubtree;
    assert ("*" + "." + d)[2..] == d;
  }

  lemma SpellsItself(w: string, d: string)
    requires IsLabel(w)
    ensures SpellsHost(w + "." + d, w, d)
  {
    hide Labels, Lower;
    HostLabels(w, d);
    assert w[0] in w && StripDot(w + "." + d)[0] == w[0];
  }

  lemma OwnHost(w: string, d: string)
    requires IsLabel(w)
    ensures InSubtree(w + "." + d, w + "." + d)
  {
    hide Split, Lower, Labels;
    var l := Labels(StripDot(w + "." + d));
    assert l[0..] == l;
    HostLabels(w, d);
    assert w[0] in w && StripDot(w + "." + d)[0] == w[0];
  }

  lemma OtherHost(d: string)
    requires StripDot(d) == ""
    ensures !InSubtree("*" + "." + d, "foo" + "." + d)
  {
    hide Split, Labels;
    HostLabels("foo", d);
    HostLabels("*", d);
    var l, m := Labels(StripDot("foo" + "." + d)), Labels(StripDot("*" + "." + d));
    assert Lower("foo")[0] == 'f' && Lower("*")[0] == '*';
    assert l[0] != m[0];
    assert m[0..] == m;
    assert StripDot("foo" + "." + d)[0] == 'f';
  }

  // ----- what does not matter: the case of letters, and one final dot

  lemma FoldedLabels(s: string, t: string)
    requires SameButCase(s, t)
    ensures Labels(s) == Labels(t) && Lower(s) == Lower(t)
  {
    NoCaseExactly(s, t);
    EqualNoCase(s, t);
  }

  lemma SameShape(s: string, t: string)
    requires SameButCase(s, t)
    ensures SameButCase(StripDot(s), StripDot(t)) && (s == "" <==> t == "")
    ensures s != "" ==> (s[0] == '.' <==> t[0] == '.') && SameButCase(s[1..], t[1..])
  {
  }

  lemma SubtreeIgnoresCase(n: string, n': string, c: string, c': string)
    requires SameButCase(n, n') && SameButCase(c, c')
    ensures InSubtree(n, c) <==> InSubtree(n', c')
  {
    SameShape(n, n');
    SameShape(c, c');
    FoldedLabels(StripDot(n), StripDot(n'));
    SameShape(StripDot(c), StripDot(c'));
    FoldedLabels(StripDot(c), StripDot(c'));
    if StripDot(c) != "" { FoldedLabels(StripDot(c)[1..], StripDot(c')[1..]); }
    hide Labels, SameButCase, StripDot;
  }

  lemma SpellingIgnoresCase(d: string, d': string, c: string, c': string)
    requires SameButCase(d, d') && SameButCase(c, c')
    ensures SpellsHost(c, "*", d) <==> SpellsHost(c', "*", d')
  {
    SameShape(d, d');
    SameShape(c, c');
    FoldedLabels(StripDot(d), StripDot(d'));
    SameShape(StripDot(c), StripDot(c'));
    FoldedLabels(StripDot(c), StripDot(c'));
    hide Labels, SameButCase, StripDot;
  }

  lemma SomeHostIgnoresCase(d: string, d': string, c: string, c': string)
    requires SameButCase(d, d') && SameButCase(c, c')
    ensures SomeHostInSubtree(d, c) ==> SomeHostInSubtree(d', c')
  {
    hide InSubtree;
    forall x ensures InSubtree(x + "." + d, c) <==> InSubtree(x + "." + d', c') {
      SubtreeIgnoresCase(x + "." + d, x + "." + d', c, c');
    }
  }

  lemma SameWildcard(n: string, n': string)
    requires SameButCase(n, n')
    ensures IsWildcard(n) <==> IsWildcard(n')
    ensures IsWildcard(n) ==> SameButCase(n[2..], n'[2..])
  {
    SameShape(n, n');
  }

  /** Names and constraints that agree up to the case of ASCII letters match alike, in either mode. */
  lemma CaseIgnored(n: string, n': string, c: string, c': string, mode: WildcardMatchType)
    requires SameButCase(n, n') && SameButCase(c, c')
    ensures Matches(n, c, mode) <==> Matches(n', c', mode)
  {
    SubtreeIgnoresCase(n, n', c, c');
    SameWildcard(n, n');
    if IsWildcard(n) {
      SameEitherWay(n[2..], n'[2..]);
      SameEitherWay(c, c');
      SomeHostIgnoresCase(n[2..], n'[2..], c, c');
      SomeHostIgnoresCase(n'[2..], n[2..], c', c);
      SpellingIgnoresCase(n[2..], n'[2..], c, c');
    }
    hide InSubtree, SomeHostInSubtree, SpellsHost, SameButCase, IsWildcard;
  }

  lemma DotStripped(s: string)
    requires s == "" || s[|s| - 1] != '.'
    ensures StripDot(s + ".") == s && StripDot(s) == s
  {
  }

  lemma SubtreeByStrip(n: string, n': string, c: string, c': string)
    requires StripDot(n) == StripDot(n') && StripDot(c) == StripDot(c') && (c == "" <==> c' == "")
    ensures InSubtree(n, c) <==> InSubtree(n', c')
  {
    hide StripDot, Labels, IsSuffix;
  }

  lemma SpellingByStrip(d: string, d': string, c: string, c': string)
    requires StripDot(d) == StripDot(d') && StripDot(c) == StripDot(c') && (d == "" <==> d' == "") && (c == "" <==> c' == "")
    ensures SpellsHost(c, "*", d) <==> SpellsHost(c', "*", d')
  {
    hide StripDot, Labels;
  }

  /** One final dot makes no difference, on either side. */
  lemma FinalDotIgnored(n: string, c: string, mode: WildcardMatchType)
    requires n == "" || n[|n| - 1] != '.'
    requires c != "" && c[|c| - 1] != '.'
    ensures Matches(n + ".", c, mode) <==> Matches(n, c, mode)
    ensures Matches(n, c + ".", mode) <==> Matches(n, c, mode)
  {
    hide InSubtree, SpellsHost, PartialMatch;
    DotStripped(n);
    DotStripped(c);
    SubtreeByStrip(n + ".", n, c, c);
    SubtreeByStrip(n, n, c + ".", c);
    PartialByStrip(n, n + ".", c, c);
    PartialByStrip(n, n, c, c + ".");
  }

  lemma PartialByStrip(n: string, n': string, c: string, c': string)
    requires (n == "" || n[|n| - 1] != '.') && (n' == n || n' == n + ".")
    requires c != "" && c[|c| - 1] != '.' && (c' == c || c' == c + ".")
    ensures PartialMatch(n, c) <==> PartialMatch(n', c')
  {
    hide InSubtree, SpellsHost, SomeHostInSubtree, StripDot;
    DotStripped(n);
    DotStripped(c);
    SubtreeByStrip(n, n', c, c');
    if IsWildcard(n) {
      var d, d' := n[2..], n'[2..];
      assert d != "" && d[|d| - 1] == n[|n| - 1] && (d' == d || d' == d + ".");
      DotStripped(d);
      SpellingByStrip(d, d', c, c');
      SomeHostByStrip(d, d', c, c');
    }
  }

  lemma SomeHostByStrip(d: string, d': string, c: string, c': string)
    requires d != "" && d[|d| - 1] != '.' && (d' == d || d' == d + ".")
    requires StripDot(c) == StripDot(c') && (c == "" <==> c' == "")
    ensures SomeHostInSubtree(d, c) <==> SomeHostInSubtree(d', c')
  {
    hide InSubtree, StripDot;
    forall x ensures InSubtree(x + "." + d, c) <==> InSubtree(x + "." + d', c') {
      var h := x + "." + d;
      DotStripped(h);
      assert x + "." + (d + ".") == h + ".";
      SubtreeByStrip(h, x + "." + d', c, c');
    }
  }
}
