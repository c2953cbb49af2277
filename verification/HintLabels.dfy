/** The labels of follow hints: how many digits they need, how a serial number is spelled
    in the user's alphabet, and why the labels of one page form a prefix code. */
module HintLabels {
  import opened Arithmetic
  import opened Common
  import opened Numerals

  const HINT_BUFFER := 32

  /** No word begins with another one; in particular no two words are equal. */
  ghost predicate PrefixFree<T>(words: seq<seq<T>>) {
    forall i, j :: 0 <= i < |words| && 0 <= j < |words| && i != j ==> !(words[i] <= words[j])
  }

  // ----- number of digits

  /** r is the least exponent from 1 on whose power reaches n. */
  ghost predicate IsCeilLog(n: nat, base: nat, r: nat) {
    r >= 1 && n <= Pow(base, r) && (r > 1 ==> Pow(base, r - 1) < n)
  }

  lemma CeilLogUnique(n: nat, base: nat, r: nat, r': nat)
    requires base >= 2 && IsCeilLog(n, base, r) && IsCeilLog(n, base, r')
    ensures r == r'
  {
    if r < r' {
      PowMonotone(base, r, r' - 1);
    } else if r' < r {
      PowMonotone(base, r', r - 1);
    }
  }

  method CeilLog(n: nat, base: nat) returns (result: nat)
    requires n >= 1 && base >= 2
    ensures IsCeilLog(n, base, result)
  {
    result := 1;
    var accum := base;
    assert Pow(base, 1) == base * Pow(base, 0) == base;
    while accum < n
      invariant result >= 1 && accum == Pow(base, result)
      invariant result > 1 ==> Pow(base, result - 1) < n
      decreases n - accum
    {
      PowGrows(base, result);
      result := result + 1;
      accum := accum * base;
    }
  }

  // ----- spelling a serial number

  /** Digit d is written as the letter at position d of the alphabet. */
  function Spell(digits: seq<nat>, alphabet: string): (word: string)
    requires forall i :: 0 <= i < |digits| ==> digits[i] < |alphabet|
    ensures |word| == |digits|
  {
    seq(|digits|, i requires 0 <= i < |digits| => alphabet[digits[i]])
  }

  lemma SpellCons(d: nat, digits: seq<nat>, alphabet: string)
    requires d < |alphabet| && forall i :: 0 <= i < |digits| ==> digits[i] < |alphabet|
    ensures Spell([d] + digits, alphabet) == [alphabet[d]] + Spell(digits, alphabet)
  {
  }

  /** Shift the first n characters one place to the right and put c in front of them. */
  method PushFront(hint: array<char>, n: nat, c: char)
    requires n < hint.Length
    modifies hint
    ensures hint[..n + 1] == [c] + old(hint[..n])
  {
    forall i | 0 <= i < n {
      hint[i + 1] := hint[i];
    }
    hint[0] := c;
  }

  /** Write serial into a 32 byte buffer, least significant digit first, each digit
      pushed in at the front. The buffer must also hold the terminating NUL. */
  method MkHint(serial: nat, alphabet: string, digits: nat) returns (word: string)
    requires |alphabet| >= 2
    requires digits < HINT_BUFFER && DigitCount(serial, |alphabet|) < HINT_BUFFER
    ensures var n := DigitCount(serial, |alphabet|);
            word == Spell(Digits(serial, |alphabet|, if n < digits then digits else n), alphabet)
  {
    var hint := new char[HINT_BUFFER];
    var hintln := 0;
    var base := |alphabet|;
    var rest := serial;
    ghost var total := DigitCount(serial, base);
    while true
      invariant hintln < total
      invariant rest == HighPart(serial, base, hintln)
      invariant DigitCount(rest, base) == total - hintln
      invariant hint[..hintln] == Spell(Digits(serial, base, hintln), alphabet)
      decreases total - hintln
    {
      IsDivision(rest, base);
      NextDigit(serial, base, hintln);
      var remain := rest % base;
      SpellCons(remain, Digits(serial, base, hintln), alphabet);
      PushFront(hint, hintln, alphabet[remain]);
      hintln := hintln + 1;
      StripDigit(rest, base);
      rest := rest - remain;
      rest := rest / base;
      if rest <= 0 {
        break;
      }
    }
    while hintln < digits
      invariant total <= hintln < HINT_BUFFER
      invariant hintln <= digits || hintln == total
      invariant hint[..hintln] == Spell(Digits(serial, base, hintln), alphabet)
    {
      ZeroDigit(serial, base, hintln);
      SpellCons(0, Digits(serial, base, hintln), alphabet);
      PushFront(hint, hintln, alphabet[0]);
      hintln := hintln + 1;
    }
    word := hint[..hintln];
  }

  /** Subtracting the last digit before dividing by the base changes nothing, and the
      quotient is zero exactly when that was the only digit. */
  lemma StripDigit(rest: nat, base: nat)
    requires base >= 2
    ensures rest % base <= rest && (rest - rest % base) / base == Quotient(rest, base)
    ensures Quotient(rest, base) > 0 <==> DigitCount(rest, base) > 1
    ensures Quotient(rest, base) > 0 ==> DigitCount(Quotient(rest, base), base) == DigitCount(rest, base) - 1
  {
    StripRemainder(rest, base);
    if rest >= base {
      QuotientShrinks(rest, base);
    }
  }

  /** Beyond the digits of serial there are only zero digits. */
  lemma ZeroDigit(serial: nat, base: nat, n: nat)
    requires base >= 2 && DigitCount(serial, base) <= n
    ensures Digits(serial, base, n + 1) == [0] + Digits(serial, base, n)
  {
    DigitCountBounds(serial, base);
    PowMonotone(base, DigitCount(serial, base), n);
    HighPartVanishes(serial, base, n);
    NextDigit(serial, base, n);
  }

  /** Letter i of a label of n letters is the one for the digit of base^(n-1-i). */
  lemma LabelLetter(serial: nat, alphabet: string, n: nat, i: nat)
    requires |alphabet| >= 2 && i < n
    ensures var p := Pow(|alphabet|, n - 1 - i);
            p >= 1 && Spell(Digits(serial, |alphabet|, n), alphabet)[i] == alphabet[(serial / p) % |alphabet|]
  {
    DigitAt(serial, |alphabet|, n, i);
  }

  /** A serial in range is written with no more digits than requested. */
  lemma InRangeDigits(serial: nat, base: nat, digits: nat)
    requires base >= 2 && digits >= 1 && serial < Pow(base, digits)
    ensures DigitCount(serial, base) <= digits
  {
    DigitCountBounds(serial, base);
    if digits < DigitCount(serial, base) {
      PowMonotone(base, digits, DigitCount(serial, base) - 1);
    }
  }

  // ----- the labels of one page

  /** How many of n hints get the shorter length. */
  function ShortCount(n: nat, base: nat, needed: nat): nat
    requires base >= 2 && n <= Pow(base, needed)
  {
    if needed > 1 then Quotient(Pow(base, needed) - n, base - 1) else 0
  }

  /** Short labels count up from zero; long ones start behind the block that the short
      labels take away from the long numerals. */
  function SlotSerial(n: nat, base: nat, needed: nat, slot: nat): nat
    requires base >= 2 && n <= Pow(base, needed)
  {
    var short := ShortCount(n, base, needed);
    if slot < short then slot else short * base + (slot - short)
  }

  function SlotLength(n: nat, base: nat, needed: nat, slot: nat): nat
    requires base >= 2 && needed >= 1 && n <= Pow(base, needed)
  {
    if slot < ShortCount(n, base, needed) then needed - 1 else needed
  }

  function LabelDigits(n: nat, base: nat, needed: nat, slot: nat): (digits: seq<nat>)
    requires base >= 2 && needed >= 1 && n <= Pow(base, needed)
    ensures forall i :: 0 <= i < |digits| ==> digits[i] < base
  {
    Digits(SlotSerial(n, base, needed, slot), base, SlotLength(n, base, needed, slot))
  }

  function Plan(n: nat, alphabet: string, needed: nat): (words: seq<string>)
    requires |alphabet| >= 2 && needed >= 1 && n <= Pow(|alphabet|, needed)
    ensures |words| == n
  {
    seq(n, slot requires 0 <= slot => Spell(LabelDigits(n, |alphabet|, needed, slot), alphabet))
  }

  /** The plan, letter by letter: short labels count up from zero; long ones go on at the number of
      short ones times the number of letters. */
  lemma PlanLetter(n: nat, alphabet: string, needed: nat, slot: nat, i: nat)
    requires |alphabet| >= 2 && n >= 1 && IsCeilLog(n, |alphabet|, needed) && slot < n
    requires i < |Plan(n, alphabet, needed)[slot]|
    ensures var k := |alphabet|;
            var short := if needed > 1 then (Pow(k, needed) - n) / (k - 1) else 0;
            var length := if slot < short then needed - 1 else needed;
            var serial := if slot < short then slot else short * k + (slot - short);
            && |Plan(n, alphabet, needed)[slot]| == length
            && Pow(k, length - 1 - i) >= 1
            && Plan(n, alphabet, needed)[slot][i] == alphabet[(serial / Pow(k, length - 1 - i)) % k]
  {
    var k := |alphabet|;
    if needed > 1 {
      IsDivision(Pow(k, needed) - n, k - 1);
    }
    LabelLetter(SlotSerial(n, k, needed, slot), alphabet, SlotLength(n, k, needed, slot), i);
  }

  /** All serials fit: there are at most n short labels, their serials are below
      base^(needed-1), and the serials of the long labels are below base^needed. */
  lemma SerialsInRange(n: nat, base: nat, needed: nat)
    requires base >= 2 && n >= 1 && IsCeilLog(n, base, needed)
    ensures var short := ShortCount(n, base, needed);
            && short < n
            && (short > 0 ==> needed > 1 && short < Pow(base, needed - 1))
            && short * base + (n - short) <= Pow(base, needed)
  {
    if needed > 1 {
      SplitFits(n, base, Pow(base, needed - 1), Pow(base, needed), ShortCount(n, base, needed));
    } else {
      assert Pow(base, 1) == base * Pow(base, 0) == base;
    }
  }

  lemma SlotInRange(n: nat, base: nat, needed: nat, slot: nat)
    requires base >= 2 && n >= 1 && IsCeilLog(n, base, needed) && slot < n
    ensures var length := SlotLength(n, base, needed, slot);
            length >= 1 && DigitCount(SlotSerial(n, base, needed, slot), base) <= length
  {
    SerialsInRange(n, base, needed);
    InRangeDigits(SlotSerial(n, base, needed, slot), base, SlotLength(n, base, needed, slot));
  }

  /** The digit sequences behind two different slots are not prefixes of each other. */
  lemma SlotsIncomparable(n: nat, base: nat, needed: nat, a: nat, b: nat)
    requires base >= 2 && n >= 1 && IsCeilLog(n, base, needed)
    requires a < n && b < n && a != b
    ensures !(LabelDigits(n, base, needed, a) <= LabelDigits(n, base, needed, b))
  {
    var short := ShortCount(n, base, needed);
    SerialsInRange(n, base, needed);
    var da, db := LabelDigits(n, base, needed, a), LabelDigits(n, base, needed, b);
    if da <= db {
      if a < short && b < short {
        assert da == db;
        DigitsInjective(a, b, base, needed - 1);
      } else if a < short {
        var long := short * base + (b - short);
        var high := Quotient(long, base);
        assert db == Digits(high, base, needed - 1) + [Remainder(long, base)];
        assert da == db[..needed - 1] == Digits(high, base, needed - 1);
        QuotientBelow(long, base, short);
        assert base * short == short * base;
        assert Pow(base, needed) == base * Pow(base, needed - 1);
        QuotientBelow(long, base, Pow(base, needed - 1));
        DigitsInjective(a, high, base, needed - 1);
      } else if b >= short {
        assert da == db;
        DigitsInjective(short * base + (a - short), short * base + (b - short), base, needed);
      }
    }
  }

  /** Distinct letters: spelling neither creates nor loses prefixes. */
  lemma SpellPrefix(a: seq<nat>, b: seq<nat>, alphabet: string)
    requires Distinct(alphabet)
    requires forall i :: 0 <= i < |a| ==> a[i] < |alphabet|
    requires forall i :: 0 <= i < |b| ==> b[i] < |alphabet|
    ensures Spell(a, alphabet) <= Spell(b, alphabet) <==> a <= b
  {
    var u, v := Spell(a, alphabet), Spell(b, alphabet);
    if u <= v {
      forall i | 0 <= i < |a|
        ensures a[i] == b[i]
      {
        assert u[i] == v[i];
        assert alphabet[a[i]] == alphabet[b[i]];
      }
    }
  }

  /** Whatever the number of hints and the letters, the planned labels are a prefix code
      whose words have the two lengths the planner announces. */
  lemma PlanIsPrefixCode(n: nat, alphabet: string, needed: nat)
    requires |alphabet| >= 2 && Distinct(alphabet) && n >= 1 && IsCeilLog(n, |alphabet|, needed)
    ensures PrefixFree(Plan(n, alphabet, needed))
    ensures forall slot :: 0 <= slot < n ==>
              |Plan(n, alphabet, needed)[slot]|
                == if slot < ShortCount(n, |alphabet|, needed) then needed - 1 else needed
    ensures forall slot :: 0 <= slot < n ==> |Plan(n, alphabet, needed)[slot]| >= 1
  {
    var base := |alphabet|;
    SerialsInRange(n, base, needed);
    forall a, b | 0 <= a < n && 0 <= b < n && a != b
      ensures !(Plan(n, alphabet, needed)[a] <= Plan(n, alphabet, needed)[b])
    {
      SlotsIncomparable(n, base, needed, a, b);
      SpellPrefix(LabelDigits(n, base, needed, a), LabelDigits(n, base, needed, b), alphabet);
    }
  }
}
