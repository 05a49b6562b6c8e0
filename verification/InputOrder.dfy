/** Reading octets, and the order on octet strings (pki/input.h, pki/input.cc). */
module InputOrder {
  import opened Bytes

  /** A reader that consumes octets from the front of an input. */
  class ByteReader {
    var data: Input

    constructor (input: Input)
      ensures data == input
    {
      data := input;
    }

    predicate HasMore()
      reads this
    {
      data != []
    }

    method ReadByte() returns (ok: bool, b: byte)
      modifies this
      ensures ok <==> old(data) != []
      ensures ok ==> old(data) == [b] + data
      ensures !ok ==> data == old(data)
    {
      if !HasMore() {
        return false, 0;
      }
      b := data[0];
      data := data[1..];
      ok := true;
    }
  }

  /** The strings agree before k, and at k the first one ends or has the smaller octet. */
  predicate LessAt(a: Input, b: Input, k: nat) {
    && k <= |a| && k < |b|
    && a[..k] == b[..k]
    && (k == |a| || a[k] < b[k])
  }

  /** Lexicographic order: a proper prefix, or smaller at the first difference. */
  ghost predicate Less(a: Input, b: Input) {
    exists k: nat :: LessAt(a, b, k)
  }

  /** operator< of der::Input: two positions advanced in step. */
  method LessThan(lhs: Input, rhs: Input) returns (r: bool)
    ensures r <==> Less(lhs, rhs)
  {
    var it1, it2 := 0, 0;
    while it1 != |lhs| && it2 != |rhs|
      invariant it1 == it2 <= |lhs| && it2 <= |rhs|
      invariant lhs[..it1] == rhs[..it2]
      decreases |lhs| - it1
    {
      if lhs[it1] < rhs[it2] {
        assert LessAt(lhs, rhs, it1);
        return true;
      } else if rhs[it2] < lhs[it1] {
        assert LessAt(rhs, lhs, it1);
        Asymmetric(rhs, lhs);
        return false;
      }
      it1, it2 := it1 + 1, it2 + 1;
    }
    if it2 != |rhs| {
      assert LessAt(lhs, rhs, it1);
    } else {
      PrefixNotGreater(rhs, lhs);
    }
    return it2 != |rhs|;
  }

  /** Two witnesses of an order between the same prefixes fall at the same place. */
  lemma SamePlace(a: Input, b: Input, j: nat, k: nat)
    requires LessAt(a, b, j) && (LessAt(b, a, k) || LessAt(a, b, k))
    ensures j == k
  {
    assert forall i :: 0 <= i < j ==> a[i] == a[..j][i] == b[..j][i] == b[i];
    assert forall i :: 0 <= i < k ==> a[i] == a[..k][i] == b[..k][i] == b[i];
  }

  lemma Asymmetric(a: Input, b: Input)
    requires Less(a, b)
    ensures !Less(b, a)
  {
    var j: nat :| LessAt(a, b, j);
    forall k: nat ensures !LessAt(b, a, k) {
      if LessAt(b, a, k) { SamePlace(a, b, j, k); }
    }
  }

  lemma PrefixNotGreater(p: Input, s: Input)
    requires p <= s
    ensures !Less(s, p)
  {
    forall k: nat ensures !LessAt(s, p, k) {
      if k < |p| { assert p[k] == s[k]; }
    }
  }

  lemma Irreflexive(a: Input)
    ensures !Less(a, a)
  {
    PrefixNotGreater(a, a);
  }

  lemma Transitive(a: Input, b: Input, c: Input)
    requires Less(a, b) && Less(b, c)
    ensures Less(a, c)
  {
    var j: nat :| LessAt(a, b, j);
    var k: nat :| LessAt(b, c, k);
    var m := if j < k then j else k;
    assert a[..m] == b[..j][..m] == b[..k][..m] == c[..m] by {
      assert a[..m] == a[..j][..m];
      assert b[..j][..m] == b[..m] == b[..k][..m];
      assert c[..m] == c[..k][..m];
    }
    if j < k {
      assert b[..k][j] == c[..k][j];
    } else if k < j {
      assert a[..j][k] == b[..j][k];
    }
    assert LessAt(a, c, m);
  }

  /** Inputs that are unordered are equal octet for octet. */
  lemma {:induction false} Total(a: Input, b: Input)
    ensures Less(a, b) || a == b || Less(b, a)
    decreases |a|
  {
    if a == [] || b == [] {
      assert b != [] ==> LessAt(a, b, 0);
      assert a != [] ==> LessAt(b, a, 0);
    } else if a[0] != b[0] {
      assert LessAt(a, b, 0) || LessAt(b, a, 0);
    } else {
      Total(a[1..], b[1..]);
      if a[1..] == b[1..] {
        assert a == [a[0]] + a[1..] == b;
      } else if Less(a[1..], b[1..]) {
        LessCons(a, b);
      } else {
        LessCons(b, a);
      }
    }
  }

  lemma LessCons(a: Input, b: Input)
    requires a != [] && b != [] && a[0] == b[0] && Less(a[1..], b[1..])
    ensures Less(a, b)
  {
    var k: nat :| LessAt(a[1..], b[1..], k);
    assert a[..k + 1] == [a[0]] + a[1..][..k];
    assert b[..k + 1] == [b[0]] + b[1..][..k];
    assert LessAt(a, b, k + 1);
  }

  /** Order of strings built from parts of equal length: the first part decides, then the second. */
  lemma LessConcat(a: Input, b: Input, c: Input, d: Input)
    requires |a| == |c|
    ensures Less(a + b, c + d) <==> Less(a, c) || (a == c && Less(b, d))
  {
    var s, t := a + b, c + d;
    assert s[..|a|] == a && t[..|a|] == c && s[|a|..] == b && t[|a|..] == d;
    if k: nat :| LessAt(s, t, k) {
      if k < |a| {
        assert a[..k] == s[..k] && c[..k] == t[..k];
        assert LessAt(a, c, k);
      } else {
        assert a == s[..k][..|a|] && c == t[..k][..|a|];
        assert b[..k - |a|] == s[..k][|a|..] && d[..k - |a|] == t[..k][|a|..];
        assert LessAt(b, d, k - |a|);
      }
    }
    if k: nat :| LessAt(a, c, k) {
      assert s[..k] == a[..k] && t[..k] == c[..k];
      assert LessAt(s, t, k);
    }
    if a == c {
      if k: nat :| LessAt(b, d, k) {
        assert s[..|a| + k] == a + b[..k] && t[..|a| + k] == c + d[..k];
        assert LessAt(s, t, |a| + k);
      }
    }
  }
}
