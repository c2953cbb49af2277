/** Serial numbers as digit sequences of a fixed length, most significant digit first. */
module Numerals {
  import opened Arithmetic
  import opened Common

  /** The n least significant digits of serial. */
  function Digits(serial: nat, base: nat, n: nat): (digits: seq<nat>)
    requires base >= 2
    ensures |digits| == n
    ensures forall i :: 0 <= i < n ==> digits[i] < base
    decreases n
  {
    if n == 0 then [] else Digits(Quotient(serial, base), base, n - 1) + [Remainder(serial, base)]
  }

  /** How many digits serial has; zero is written with one digit. */
  function DigitCount(serial: nat, base: nat): (n: nat)
    requires base >= 2
    ensures n >= 1
  {
    if serial < base then 1
    else
      QuotientShrinks(serial, base);
      1 + DigitCount(Quotient(serial, base), base)
  }

  lemma {:induction false} DigitCountBounds(serial: nat, base: nat)
    requires base >= 2
    ensures serial < Pow(base, DigitCount(serial, base))
    ensures DigitCount(serial, base) > 1 ==> Pow(base, DigitCount(serial, base) - 1) <= serial
  {
    var n := DigitCount(serial, base);
    if serial < base {
      assert Pow(base, 1) == base * Pow(base, 0);
    } else {
      QuotientShrinks(serial, base);
      DigitCountBounds(Quotient(serial, base), base);
      QuotientBelow(serial, base, Pow(base, n - 1));
      QuotientBelow(serial, base, Pow(base, n - 2));
    }
  }

  /** serial without its n least significant digits. */
  ghost function HighPart(serial: nat, base: nat, n: nat): nat
    requires base >= 2
  {
    if n == 0 then serial else Quotient(HighPart(serial, base, n - 1), base)
  }

  lemma {:induction false} HighPartOfQuotient(serial: nat, base: nat, n: nat)
    requires base >= 2
    ensures HighPart(Quotient(serial, base), base, n) == HighPart(serial, base, n + 1)
  {
    if n > 0 {
      HighPartOfQuotient(serial, base, n - 1);
    }
  }

  lemma {:induction false} HighPartVanishes(serial: nat, base: nat, n: nat)
    requires base >= 2
    ensures HighPart(serial, base, n) == 0 <==> serial < Pow(base, n)
    decreases n
  {
    if n > 0 {
      HighPartOfQuotient(serial, base, n - 1);
      HighPartVanishes(Quotient(serial, base), base, n - 1);
      QuotientBelow(serial, base, Pow(base, n - 1));
    }
  }

  /** Cutting a numeral in two: the first m digits are those of the high part. */
  lemma {:induction false} DigitsSplit(serial: nat, base: nat, m: nat, n: nat)
    requires base >= 2
    ensures Digits(HighPart(serial, base, n), base, m) + Digits(serial, base, n) == Digits(serial, base, m + n)
    decreases n
  {
    if n > 0 {
      HighPartOfQuotient(serial, base, n - 1);
      DigitsSplit(Quotient(serial, base), base, m, n - 1);
    }
  }

  /** The next digit to the left of the last n digits is the last digit of the rest. */
  lemma NextDigit(serial: nat, base: nat, n: nat)
    requires base >= 2
    ensures [Remainder(HighPart(serial, base, n), base)] + Digits(serial, base, n) == Digits(serial, base, n + 1)
  {
    DigitsSplit(serial, base, 1, n);
    var top := HighPart(serial, base, n);
    assert Digits(top, base, 1) == Digits(Quotient(top, base), base, 0) + [Remainder(top, base)];
  }

  lemma {:induction false} HighPartIsQuotient(serial: nat, base: nat, n: nat)
    requires base >= 2
    ensures Pow(base, n) >= 1 && HighPart(serial, base, n) == Quotient(serial, Pow(base, n))
  {
    PowMonotone(base, 0, n);
    if n == 0 {
      Recompose(serial, 1);
    } else {
      var p := Pow(base, n - 1);
      HighPartIsQuotient(serial, base, n - 1);
      QuotientTwice(serial, p, base, Pow(base, n));
    }
  }

  lemma QuotientIs(x: nat, d: nat, q: nat, r: nat)
    requires r < d && x == d * q + r
    ensures Quotient(x, d) == q
  {
    Recompose(x, d);
    DecompositionUnique(d, Quotient(x, d), Remainder(x, d), q, r);
  }

  lemma QuotientTwice(x: nat, p: nat, d: nat, m: nat)
    requires p >= 1 && d >= 1 && m == p * d >= 1
    ensures Quotient(Quotient(x, p), d) == Quotient(x, m)
  {
    var y, rx := Quotient(x, p), Remainder(x, p);
    var q, ry := Quotient(y, d), Remainder(y, d);
    Recompose(x, p);
    Recompose(y, d);
    CombineRemainders(x, p, d, q, ry, rx);
    QuotientIs(x, m, q, p * ry + rx);
  }

  lemma CombineRemainders(x: nat, p: nat, d: nat, q: nat, ry: nat, rx: nat)
    requires ry < d && rx < p && x == p * (d * q + ry) + rx
    ensures 0 <= p * ry + rx < p * d && x == (p * d) * q + (p * ry + rx)
  {
    MulMonotone(p, ry, d - 1);
    MulMonotone(p, 0, ry);
    Distribute(p, d, -1);
    Distribute(p, d * q, ry);
    MulAssociates(p, d, q);
  }

  /** Digit i from the left is that of its power of the base. */
  lemma DigitAt(serial: nat, base: nat, n: nat, i: nat)
    requires base >= 2 && i < n
    ensures var p := Pow(base, n - 1 - i); p >= 1 && Digits(serial, base, n)[i] == (serial / p) % base
  {
    var low := n - 1 - i;
    DigitsSplit(serial, base, i + 1, low);
    HighPartIsQuotient(serial, base, low);
    var top := HighPart(serial, base, low);
    assert Digits(serial, base, n)[i] == Digits(top, base, i + 1)[i] == Remainder(top, base);
    IsDivision(serial, Pow(base, low));
    IsDivision(top, base);
  }

  lemma {:induction false} DigitsInjective(u: nat, v: nat, base: nat, n: nat)
    requires base >= 2 && u < Pow(base, n) && v < Pow(base, n)
    requires Digits(u, base, n) == Digits(v, base, n)
    ensures u == v
    decreases n
  {
    if n > 0 {
      var qu, qv := Quotient(u, base), Quotient(v, base);
      SnocInjective(Digits(qu, base, n - 1), Remainder(u, base), Digits(qv, base, n - 1), Remainder(v, base));
      QuotientBelow(u, base, Pow(base, n - 1));
      QuotientBelow(v, base, Pow(base, n - 1));
      DigitsInjective(qu, qv, base, n - 1);
      Recompose(u, base);
      Recompose(v, base);
    }
  }
}
