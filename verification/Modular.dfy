/** Division with remainder and congruence. */
module Modular {
  /** Division with remainder has one answer. */
  lemma RemainderUnique(x: int, q: int, r: int, m: nat)
    requires 0 <= r < m && x == q * m + r
    ensures x % m == r && x / m == q
  {
    var d := x / m - q;
    assert d * m == (x / m) * m - q * m;
    assert x == (x / m) * m + x % m;
    assert d >= 1 ==> d * m >= m;
    assert d <= -1 ==> d * m <= 0 - m;
  }

  ghost predicate Congruent(x: int, y: int, m: nat)
    requires m > 0
  {
    (x - y) % m == 0
  }

  lemma CongruentRemainders(x: int, y: int, m: nat)
    requires m > 0
    ensures Congruent(x, y, m) <==> x % m == y % m
    ensures Congruent(x, x % m, m)
  {
    var q := (x - y) / m;
    assert x - y == q * m + (x - y) % m;
    assert x == (x / m) * m + x % m && y == (y / m) * m + y % m;
    if Congruent(x, y, m) {
      assert x == (q + y / m) * m + y % m;
      RemainderUnique(x, q + y / m, y % m, m);
    }
    if x % m == y % m {
      assert x - y == (x / m - y / m) * m;
      RemainderUnique(x - y, x / m - y / m, 0, m);
    }
    RemainderUnique(x - x % m, x / m, 0, m);
  }

  lemma CongruentTimes(x: int, y: int, z: int, m: nat)
    requires m > 0 && Congruent(x, y, m)
    ensures Congruent(x * z, y * z, m)
  {
    var q := (x - y) / m;
    assert x * z - y * z == (q * z) * m by {
      assert x - y == q * m;
      assert (q * m) * z == (q * z) * m;
      assert x * z - y * z == (x - y) * z;
    }
    RemainderUnique(x * z - y * z, q * z, 0, m);
  }

  lemma CongruentTransitive(x: int, y: int, z: int, m: nat)
    requires m > 0 && Congruent(x, y, m) && Congruent(y, z, m)
    ensures Congruent(x, z, m)
  {
    CongruentRemainders(x, y, m);
    CongruentRemainders(y, z, m);
    CongruentRemainders(x, z, m);
  }
}
