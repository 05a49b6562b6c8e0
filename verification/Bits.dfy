/** Bits of natural numbers, and the bitwise operators the source applies to unsigned integers. */
module Bits {
  function Pow2(n: nat): (p: nat)
    ensures p >= 1
  {
    if n == 0 then 1 else 2 * Pow2(n - 1)
  }

  /** Bit i of x, counted from the least significant one. */
  predicate Bit(x: nat, i: nat) {
    if i == 0 then x % 2 == 1 else Bit(x / 2, i - 1)
  }

  function And(x: nat, y: nat): nat {
    if x == 0 || y == 0 then 0
    else 2 * And(x / 2, y / 2) + (if x % 2 == 1 && y % 2 == 1 then 1 else 0)
  }

  function Or(x: nat, y: nat): nat {
    if x == 0 then y
    else if y == 0 then x
    else 2 * Or(x / 2, y / 2) + (if x % 2 == 1 || y % 2 == 1 then 1 else 0)
  }

  lemma {:induction false} BitZero(i: nat)
    ensures !Bit(0, i)
  {
    if i > 0 { BitZero(i - 1); }
  }

  /** The recursive operator is the bitwise one. */
  lemma {:induction false} AndBit(x: nat, y: nat, i: nat)
    ensures Bit(And(x, y), i) <==> Bit(x, i) && Bit(y, i)
  {
    BitZero(i);
    if x != 0 && y != 0 && i > 0 {
      assert And(x, y) / 2 == And(x / 2, y / 2);
      AndBit(x / 2, y / 2, i - 1);
    }
  }

  lemma {:induction false} OrBit(x: nat, y: nat, i: nat)
    ensures Bit(Or(x, y), i) <==> Bit(x, i) || Bit(y, i)
  {
    BitZero(i);
    if x != 0 && y != 0 && i > 0 {
      assert Or(x, y) / 2 == Or(x / 2, y / 2);
      OrBit(x / 2, y / 2, i - 1);
    }
  }

  /** A number below 2^n is determined by its first n bits. */
  lemma {:induction false} BitsDetermine(x: nat, y: nat, n: nat)
    requires x < Pow2(n) && y < Pow2(n)
    requires forall i :: 0 <= i < n ==> Bit(x, i) == Bit(y, i)
    ensures x == y
  {
    if n > 0 {
      assert Bit(x, 0) == Bit(y, 0);
      forall i | 0 <= i < n - 1 ensures Bit(x / 2, i) == Bit(y / 2, i) {
        assert Bit(x, i + 1) == Bit(y, i + 1);
      }
      BitsDetermine(x / 2, y / 2, n - 1);
    }
  }

  /** ORing a value into k cleared low bits adds it. */
  lemma {:induction false} OrIntoClearedBits(x: nat, d: nat, k: nat)
    requires d < Pow2(k)
    ensures Or(x * Pow2(k), d) == x * Pow2(k) + d
  {
    if k > 0 && x > 0 && d > 0 {
      var h := x * Pow2(k - 1);
      assert x * Pow2(k) == 2 * h by { MulDouble(x, k); }
      assert 2 * h / 2 == h && (2 * h) % 2 == 0;
      OrIntoClearedBits(x, d / 2, k - 1);
    } else if k == 0 || d == 0 {
    } else {
      assert x * Pow2(k) == 0;
    }
  }

  lemma MulDouble(x: nat, k: nat)
    requires k > 0
    ensures x * Pow2(k) == 2 * (x * Pow2(k - 1))
  {
    var p := Pow2(k - 1);
    assert x * (2 * p) == 2 * (x * p);
  }

  /** Complementing an n-bit number flips each of its n bits. */
  lemma {:induction false} ComplementBit(x: nat, n: nat, i: nat)
    requires x < Pow2(n) && i < n
    ensures Bit(Pow2(n) - 1 - x, i) <==> !Bit(x, i)
  {
    var c := Pow2(n) - 1 - x;
    assert c / 2 == Pow2(n - 1) - 1 - x / 2;
    if i > 0 {
      ComplementBit(x / 2, n - 1, i - 1);
    }
  }

  /** A block of ones at the bottom: the i-th bit is set exactly below j. */
  lemma {:induction false} LowOnesBit(j: nat, i: nat)
    ensures Bit(Pow2(j) - 1, i) <==> i < j
  {
    if j == 0 {
      BitZero(i);
    } else {
      assert (Pow2(j) - 1) / 2 == Pow2(j - 1) - 1;
      if i > 0 { LowOnesBit(j - 1, i - 1); }
    }
  }

  /** x & (x + 1) is zero exactly when x is a block of ones at the bottom. */
  lemma {:induction false} AndSuccessorZero(x: nat, n: nat)
    requires x < Pow2(n)
    ensures And(x, x + 1) == 0 <==> exists j :: 0 <= j <= n && x == Pow2(j) - 1
  {
    if x == 0 {
      assert x == Pow2(0) - 1;
    } else if x % 2 == 0 {
      assert And(x, x + 1) == 2 * And(x / 2, x / 2);
      AndSelf(x / 2);
      forall j | 0 <= j <= n ensures x != Pow2(j) - 1 {
        if j > 0 { assert Pow2(j) == 2 * Pow2(j - 1); }
      }
    } else {
      assert (x + 1) / 2 == x / 2 + 1;
      assert And(x, x + 1) == 2 * And(x / 2, x / 2 + 1);
      AndSuccessorZero(x / 2, n - 1);
      if And(x, x + 1) == 0 {
        var j :| 0 <= j <= n - 1 && x / 2 == Pow2(j) - 1;
        assert x == Pow2(j + 1) - 1;
      }
      if j :| 0 <= j <= n && x == Pow2(j) - 1 {
        assert j > 0 && x / 2 == Pow2(j - 1) - 1;
      }
    }
  }

  lemma {:induction false} AndSelf(x: nat)
    ensures And(x, x) == x
  {
    if x > 0 { AndSelf(x / 2); }
  }
}
