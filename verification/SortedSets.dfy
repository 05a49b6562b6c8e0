/** The standard-library algorithms the source builds its set tests from: sort, adjacent_find, set_intersection. */
module SortedSets {
  import opened Bytes
  import opened InputOrder

  ghost predicate Sorted(s: seq<Input>) {
    forall i, j :: 0 <= i < j < |s| ==> !Less(s[j], s[i])
  }

  ghost predicate StrictlyIncreasing(s: seq<Input>) {
    forall i, j :: 0 <= i < j < |s| ==> Less(s[i], s[j])
  }

  ghost predicate Distinct(s: seq<Input>) {
    forall i, j :: 0 <= i < j < |s| ==> s[i] != s[j]
  }

  /** Puts x into its place in a sorted sequence. */
  method Insert(x: Input, s: seq<Input>) returns (r: seq<Input>)
    requires Sorted(s)
    ensures Sorted(r)
    ensures multiset(r) == multiset(s) + multiset{x}
  {
    var k := 0;
    var below := false;
    if |s| > 0 { below := LessThan(s[0], x); }
    while k < |s| && below
      invariant 0 <= k <= |s|
      invariant forall i :: 0 <= i < k ==> Less(s[i], x)
      invariant k < |s| ==> (below <==> Less(s[k], x))
    {
      k := k + 1;
      if k < |s| { below := LessThan(s[k], x); }
    }
    r := s[..k] + [x] + s[k..];
    assert s == s[..k] + s[k..];
    InsertedSorted(x, s, k);
  }

  lemma InsertedSorted(x: Input, s: seq<Input>, k: nat)
    requires Sorted(s) && k <= |s|
    requires forall i :: 0 <= i < k ==> Less(s[i], x)
    requires k < |s| ==> !Less(s[k], x)
    ensures Sorted(s[..k] + [x] + s[k..])
  {
    var r := s[..k] + [x] + s[k..];
    forall i | k <= i < |s| ensures !Less(s[i], x) {
      if k < i && Less(s[i], x) {
        Total(s[k], s[i]);
        if Less(s[k], s[i]) { Transitive(s[k], s[i], x); }
      }
    }
    forall i, j | 0 <= i < j < |r| ensures !Less(r[j], r[i]) {
      if i < k && j == k {
        Asymmetric(s[i], x);
      } else if i < k && j > k {
        assert r[j] == s[j - 1] && r[i] == s[i];
      }
    }
  }

  /** std::sort by operator<. */
  method Sort(s: seq<Input>) returns (r: seq<Input>)
    ensures Sorted(r)
    ensures multiset(r) == multiset(s)
  {
    r := [];
    for i := 0 to |s|
      invariant Sorted(r)
      invariant multiset(r) == multiset(s[..i])
    {
      assert s[..i + 1] == s[..i] + [s[i]];
      r := Insert(s[i], r);
    }
    assert s[..|s|] == s;
  }

  /** std::adjacent_find: the first position equal to its successor, or the end. */
  method AdjacentFind(s: seq<Input>) returns (i: nat)
    ensures i == |s| || (i + 1 < |s| && s[i] == s[i + 1])
    ensures forall k :: 0 <= k < i && k + 1 < |s| ==> s[k] != s[k + 1]
  {
    i := 0;
    while i + 1 < |s|
      invariant i <= |s|
      invariant forall k :: 0 <= k < i && k + 1 < |s| ==> s[k] != s[k + 1]
    {
      if s[i] == s[i + 1] {
        return;
      }
      i := i + 1;
    }
    i := |s|;
  }

  /** In a sorted sequence, having no equal neighbours is being strictly increasing. */
  lemma NoEqualNeighbours(s: seq<Input>)
    requires Sorted(s) && forall k :: 0 <= k < |s| - 1 ==> s[k] != s[k + 1]
    ensures StrictlyIncreasing(s)
  {
    forall i, j | 0 <= i < j < |s| ensures Less(s[i], s[j]) {
      NeighbourBelow(s, i, j);
    }
  }

  lemma {:induction false} NeighbourBelow(s: seq<Input>, i: nat, j: nat)
    requires Sorted(s) && i < j < |s| && forall k :: 0 <= k < |s| - 1 ==> s[k] != s[k + 1]
    ensures Less(s[i], s[j])
    decreases j - i
  {
    Total(s[j - 1], s[j]);
    if i < j - 1 {
      NeighbourBelow(s, i, j - 1);
      Transitive(s[i], s[j - 1], s[j]);
    }
  }

  lemma StrictIsDistinct(s: seq<Input>)
    requires StrictlyIncreasing(s)
    ensures Distinct(s) && Sorted(s)
  {
    forall i, j | 0 <= i < j < |s| ensures s[i] != s[j] && !Less(s[j], s[i]) {
      Irreflexive(s[i]);
      Asymmetric(s[i], s[j]);
    }
  }

  lemma {:induction false} DistinctMultiset(s: seq<Input>)
    ensures Distinct(s) <==> forall x :: multiset(s)[x] <= 1
    decreases |s|
  {
    if s != [] {
      var t := s[1..];
      assert s == [s[0]] + t;
      assert multiset(s) == multiset{s[0]} + multiset(t);
      DistinctMultiset(t);
      DistinctCons(s);
      hide Distinct;
      if Distinct(s) {
        forall x ensures multiset(s)[x] <= 1 {
          if x == s[0] { assert x !in multiset(t); }
        }
      } else if s[0] in t {
        assert s[0] in multiset(t);
        assert multiset(s)[s[0]] >= 2;
      } else {
        var x :| multiset(t)[x] > 1;
        assert multiset(s)[x] > 1;
      }
    }
  }

  lemma DistinctCons(s: seq<Input>)
    requires s != []
    ensures Distinct(s) <==> s[0] !in s[1..] && Distinct(s[1..])
  {
    var t := s[1..];
    assert forall k :: 0 <= k < |t| ==> t[k] == s[k + 1];
    if s[0] !in t && Distinct(t) {
      forall i, j | 0 <= i < j < |s| ensures s[i] != s[j] {
        assert s[j] == t[j - 1] && s[j] in t;
        if i > 0 { assert s[i] == t[i - 1]; }
      }
    }
  }

  /** Being free of duplicates does not depend on the order of the elements. */
  lemma DistinctPermutes(s: seq<Input>, t: seq<Input>)
    requires multiset(s) == multiset(t)
    ensures Distinct(s) <==> Distinct(t)
  {
    DistinctMultiset(s);
    DistinctMultiset(t);
  }

  lemma SmallestFirst(s: seq<Input>, t: seq<Input>)
    requires Sorted(s) && Sorted(t) && multiset(s) == multiset(t) && s != [] && t != []
    ensures s[0] == t[0]
  {
    assert s[0] in multiset(t) && t[0] in multiset(s);
    Total(s[0], t[0]);
  }

  /** Sorting has one result: a sorted permutation is unique because unordered inputs are equal. */
  lemma {:induction false} SortedPermutationUnique(s: seq<Input>, t: seq<Input>)
    requires Sorted(s) && Sorted(t) && multiset(s) == multiset(t)
    ensures s == t
    decreases |s|
  {
    assert |s| == |multiset(s)| == |multiset(t)| == |t|;
    if s != [] {
      SmallestFirst(s, t);
      assert s == [s[0]] + s[1..] && t == [t[0]] + t[1..];
      assert multiset(s[1..]) == multiset(s) - multiset{s[0]};
      assert multiset(t[1..]) == multiset(t) - multiset{t[0]};
      SortedTail(s);
      SortedTail(t);
      SortedPermutationUnique(s[1..], t[1..]);
    }
  }

  lemma SortedTail(s: seq<Input>)
    requires Sorted(s) && s != []
    ensures Sorted(s[1..])
  {
    assert forall i :: 0 <= i < |s| - 1 ==> s[1..][i] == s[i + 1];
  }

  /** std::set_intersection on sorted ranges: the merge keeps exactly the common elements. */
  method SetIntersection(a: seq<Input>, b: seq<Input>) returns (r: seq<Input>)
    requires Sorted(a) && Sorted(b)
    ensures forall x :: x in r <==> x in a && x in b
  {
    r := [];
    var i, j := 0, 0;
    while i < |a| && j < |b|
      invariant 0 <= i <= |a| && 0 <= j <= |b|
      invariant forall x :: x in a && x in b ==> x in r || (x in a[i..] && x in b[j..])
      invariant forall x :: x in r ==> x in a && x in b
      decreases |a| - i + |b| - j
    {
      var less := LessThan(a[i], b[j]);
      if less {
        NotInLater(a[i], b, j);
        assert a[i..] == [a[i]] + a[i + 1..];
        i := i + 1;
      } else {
        var greater := LessThan(b[j], a[i]);
        if greater {
          NotInLater(b[j], a, i);
          assert b[j..] == [b[j]] + b[j + 1..];
          j := j + 1;
        } else {
          Total(a[i], b[j]);
          assert a[i..] == [a[i]] + a[i + 1..];
          assert b[j..] == [b[j]] + b[j + 1..];
          r := r + [a[i]];
          i, j := i + 1, j + 1;
        }
      }
    }
  }

  lemma NotInLater(x: Input, s: seq<Input>, k: nat)
    requires Sorted(s) && k < |s| && Less(x, s[k])
    ensures x !in s[k..]
  {
    forall m | k <= m < |s| ensures s[m] != x {
      Irreflexive(x);
    }
  }
}
