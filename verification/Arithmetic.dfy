/** Powers and division with variable operands, kept apart from the proofs that use them. */
module Arithmetic {

  function Pow(base: nat, e: nat): nat {
    if e == 0 then 1 else base * Pow(base, e - 1)
  }

  lemma PowGrows(base: nat, e: nat)
    requires base >= 2
    ensures 1 <= Pow(base, e) < Pow(base, e + 1) == base * Pow(base, e)
  {
    if e > 0 {
      PowGrows(base, e - 1);
    }
  }

  lemma {:induction false} PowMonotone(base: nat, d: nat, e: nat)
    requires base >= 2 && d <= e
    ensures 1 <= Pow(base, d) <= Pow(base, e)
  {
    PowGrows(base, d);
    if d < e {
      PowMonotone(base, d, e - 1);
      PowGrows(base, e - 1);
    }
  }

  lemma MulMonotone(a: nat, x: int, y: int)
    ensures x <= y ==> a * x <= a * y
  {
    assert x <= y ==> a * (y - x) >= 0;
  }

  lemma Distribute(a: int, b: int, c: int)
    ensures a * (b + c) == a * b + a * c
  {
  }

  lemma MulAssociates(a: int, b: int, c: int)
    ensures a * (b * c) == (a * b) * c
  {
  }

  lemma {:induction false} PowAdd(base: nat, m: nat, n: nat)
    ensures Pow(base, m + n) == Pow(base, m) * Pow(base, n)
  {
    if m > 0 {
      PowAdd(base, m - 1, n);
      MulAssociates(base, Pow(base, m - 1), Pow(base, n));
    }
  }

  /** x / d, by repeated subtraction: the digit proofs need only the lemmas below, and
      the solver is spared division by a variable. */
  function Quotient(x: nat, d: nat): nat
    requires d >= 1
  {
    if x < d then 0 else 1 + Quotient(x - d, d)
  }

  /** x % d, in the same way. */
  function Remainder(x: nat, d: nat): (r: nat)
    requires d >= 1
    ensures r < d
  {
    if x < d then x else Remainder(x - d, d)
  }

  lemma {:induction false} Recompose(x: nat, d: nat)
    requires d >= 1
    ensures x == d * Quotient(x, d) + Remainder(x, d)
  {
    if x >= d {
      Recompose(x - d, d);
      assert d * (1 + Quotient(x - d, d)) == d + d * Quotient(x - d, d);
    }
  }

  lemma DecompositionUnique(d: nat, q: nat, r: nat, q': nat, r': nat)
    requires r < d && r' < d && d * q + r == d * q' + r'
    ensures q == q' && r == r'
  {
    MulMonotone(d, q + 1, q');
    MulMonotone(d, q' + 1, q);
    assert d * (q + 1) == d * q + d && d * (q' + 1) == d * q' + d;
  }

  /** The two functions are the operators of C on unsigned operands. */
  lemma IsDivision(x: nat, d: nat)
    requires d >= 1
    ensures Quotient(x, d) == x / d && Remainder(x, d) == x % d
  {
    Recompose(x, d);
    assert x == d * (x / d) + x % d;
    DecompositionUnique(d, Quotient(x, d), Remainder(x, d), x / d, x % d);
  }

  /** Spending the room that n long words leave, one short word costing base - 1. */
  lemma SplitFits(n: nat, base: nat, high: nat, space: nat, short: nat)
    requires base >= 2 && high < n <= space == base * high
    requires short == Quotient(space - n, base - 1)
    ensures short < high && short * base + (n - short) <= space
  {
    var b := base - 1;
    Recompose(space - n, b);
    assert space == b * high + high;
    QuotientBelow(space - n, b, high);
    assert short * base == b * short + short;
  }

  lemma StripRemainder(x: nat, d: nat)
    requires d >= 1
    ensures x % d <= x && (x - x % d) / d == Quotient(x, d)
  {
    IsDivision(x, d);
    Recompose(x, d);
    MulMonotone(d, 0, Quotient(x, d));
    var even := x - Remainder(x, d);
    IsDivision(even, d);
    Recompose(even, d);
    DecompositionUnique(d, Quotient(x, d), 0, Quotient(even, d), Remainder(even, d));
  }

  /** A quotient is compared with a bound by multiplying the bound. */
  lemma QuotientBelow(x: nat, d: nat, bound: nat)
    requires d >= 1
    ensures Quotient(x, d) < bound <==> x < d * bound
  {
    var q := Quotient(x, d);
    Recompose(x, d);
    MulMonotone(d, q + 1, bound);
    MulMonotone(d, bound, q);
    assert d * (q + 1) == d * q + d;
  }

  lemma QuotientShrinks(x: nat, d: nat)
    requires d >= 2 && x >= d
    ensures 1 <= Quotient(x, d) < x
  {
    QuotientBelow(x, d, x);
    MulMonotone(x, 2, d);
    assert x * 2 <= d * x;
  }
}
