/** Square-and-multiply modular exponentiation (fuzz/bn_mod_exp.cc). */
module ModExp {
  import opened Modular

  /** A BIGNUM: an integer updated in place. */
  class BigNum {
    var v: int

    constructor (value: int)
      ensures v == value
    {
      v := value;
    }

    predicate IsZero()
      reads this
    {
      v == 0
    }

    predicate IsOne()
      reads this
    {
      v == 1
    }

    predicate IsOdd()
      reads this
    {
      v % 2 == 1
    }

    /** BN_mul; either factor may be the receiver. */
    method Mul(a: BigNum, b: BigNum)
      modifies this
      ensures v == old(a.v) * old(b.v)
    {
      v := a.v * b.v;
    }

    /** BN_nnmod: the non-negative remainder; the dividend may be the receiver. */
    method NonNegativeMod(a: BigNum, m: BigNum)
      requires m.v > 0
      modifies this
      ensures v == old(a.v) % old(m.v)
    {
      v := a.v % m.v;
    }

    /** BN_rshift1. */
    method ShiftRight1()
      requires v >= 0
      modifies this
      ensures v == old(v) / 2
    {
      v := v / 2;
    }
  }

  function Power(a: int, n: nat): int {
    if n == 0 then 1 else a * Power(a, n - 1)
  }

  /** r := a^p mod m. The result may share its storage with the exponent. */
  method ModExp(r: BigNum, a: BigNum, p: BigNum, m: BigNum)
    requires r != a && r != m
    requires p.v >= 0 && m.v >= 1
    modifies r
    ensures 0 <= r.v < m.v
    ensures Congruent(r.v, Power(a.v, old(p.v)), m.v)
  {
    if m.IsOne() {
      r.v := 0;
      return;
    }
    var exp := new BigNum(p.v);
    var base := new BigNum(0);
    r.v := 1;
    base.NonNegativeMod(a, m);
    ghost var target := Power(a.v, old(p.v));
    ghost var mv := m.v;
    CongruentRemainders(a.v, base.v, mv);
    PowerCongruent(a.v, base.v, exp.v, mv);
    while !exp.IsZero()
      invariant exp.v >= 0 && m.v == mv && 0 <= r.v < mv
      invariant Congruent(target, r.v * Power(base.v, exp.v), mv)
      decreases exp.v
    {
      ghost var r0, b0, e0 := r.v, base.v, exp.v;
      if exp.IsOdd() {
        r.Mul(r, base);
        r.NonNegativeMod(r, m);
      }
      exp.ShiftRight1();
      base.Mul(base, base);
      base.NonNegativeMod(base, m);
      StepCongruent(r0, b0, e0, mv);
      CongruentTransitive(target, r0 * Power(b0, e0), r.v * Power(base.v, exp.v), mv);
    }
    CongruentRemainders(target, r.v, mv);
    CongruentRemainders(r.v, target, mv);
  }

  lemma {:induction false} PowerCongruent(x: int, y: int, n: nat, m: nat)
    requires m > 0 && Congruent(x, y, m)
    ensures Congruent(Power(x, n), Power(y, n), m)
  {
    if n > 0 {
      PowerCongruent(x, y, n - 1, m);
      CongruentTimes(x, y, Power(x, n - 1), m);
      CongruentTimes(Power(x, n - 1), Power(y, n - 1), y, m);
      CongruentTransitive(Power(x, n), Power(x, n - 1) * y, Power(y, n), m);
    }
  }

  lemma {:induction false} PowerOfSquare(b: int, n: nat)
    ensures Power(b * b, n) == Power(b, 2 * n)
  {
    if n > 0 {
      PowerOfSquare(b, n - 1);
      var p := Power(b, 2 * n - 2);
      assert Power(b, 2 * n) == b * Power(b, 2 * n - 1) == b * (b * p);
      assert (b * b) * p == b * (b * p);
    }
  }

  /** One round of the loop keeps r * base^exp in its residue class. */
  lemma StepCongruent(r: int, b: int, e: nat, m: nat)
    requires m > 0 && e > 0
    ensures var r' := if e % 2 == 1 then (r * b) % m else r;
            Congruent(r * Power(b, e), r' * Power((b * b) % m, e / 2), m)
  {
    var h := e / 2;
    var q, s := Power(b * b, h), Power((b * b) % m, h);
    PowerOfSquare(b, h);
    CongruentRemainders(b * b, b * b, m);
    PowerCongruent(b * b, (b * b) % m, h, m);
    if e % 2 == 1 {
      assert Power(b, e) == b * q;
      assert r * (b * q) == (r * b) * q;
      CongruentRemainders(r * b, r * b, m);
      CongruentTimes(r * b, (r * b) % m, q, m);
      CongruentTimes(q, s, (r * b) % m, m);
      assert q * ((r * b) % m) == ((r * b) % m) * q && s * ((r * b) % m) == ((r * b) % m) * s;
      CongruentTransitive(r * Power(b, e), ((r * b) % m) * q, ((r * b) % m) * s, m);
    } else {
      CongruentTimes(q, s, r, m);
      assert q * r == r * q && s * r == r * s;
    }
  }

  /** The residue in [0, m) is unique, so the two conditions on the result determine it. */
  lemma ResidueUnique(x: int, r: int, s: int, m: nat)
    requires 0 <= r < m && 0 <= s < m
    requires Congruent(r, x, m) && Congruent(s, x, m)
    ensures r == s == x % m
  {
    RemainderUnique(r, 0, r, m);
    RemainderUnique(s, 0, s, m);
    CongruentRemainders(r, x, m);
    CongruentRemainders(s, x, m);
  }
}
