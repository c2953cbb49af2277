/** No prefix code does better than the planned labels: Kraft's inequality, by counting the
    words of full length that each code word blocks. */
module HintOptimality {
  import opened Arithmetic
  import opened Common
  import opened HintLabels

  ghost predicate Over(w: string, letters: string) {
    forall i :: 0 <= i < |w| ==> w[i] in letters
  }

  /** The words of S, each with p written in front. */
  ghost function Prepend(p: string, S: set<string>): set<string> {
    set w | w in S :: p + w
  }

  lemma {:induction false} PrependSize(p: string, S: set<string>)
    ensures |Prepend(p, S)| == |S|
    decreases |S|
  {
    if S != {} {
      var w :| w in S;
      PrependSize(p, S - {w});
      forall v | v in S - {w}
        ensures p + v != p + w
      {
        assert (p + v)[|p|..] == v && (p + w)[|p|..] == w;
      }
      assert p + w !in Prepend(p, S - {w});
      assert Prepend(p, S) == Prepend(p, S - {w}) + {p + w};
    } else {
      assert Prepend(p, S) == {};
    }
  }

  /** The words of S, each with one of the letters in front. */
  ghost function Extend(letters: string, S: set<string>): set<string> {
    if letters == "" then {}
    else Extend(letters[..|letters| - 1], S) + Prepend([letters[|letters| - 1]], S)
  }

  lemma PrependLetter(c: char, S: set<string>, w: string)
    ensures w in Prepend([c], S) <==> w != "" && w[0] == c && w[1..] in S
  {
    if w in Prepend([c], S) {
      var v :| v in S && w == [c] + v;
      assert w[1..] == v;
    } else if w != "" && w[0] == c {
      assert w == [c] + w[1..];
    }
  }

  lemma {:induction false} ExtendMember(letters: string, S: set<string>, w: string)
    ensures w in Extend(letters, S) <==> w != "" && w[0] in letters && w[1..] in S
  {
    if letters != "" {
      var front, c := letters[..|letters| - 1], letters[|letters| - 1];
      ExtendMember(front, S, w);
      PrependLetter(c, S, w);
      assert letters == front + [c];
    }
  }

  lemma ExtendDisjoint(front: string, c: char, S: set<string>)
    requires c !in front
    ensures Extend(front, S) !! Prepend([c], S)
  {
    forall w | w in Extend(front, S)
      ensures w !in Prepend([c], S)
    {
      ExtendMember(front, S, w);
      PrependLetter(c, S, w);
    }
  }

  lemma {:induction false} ExtendSize(letters: string, S: set<string>)
    requires Distinct(letters)
    ensures |Extend(letters, S)| == |letters| * |S|
  {
    if letters != "" {
      var front, c := letters[..|letters| - 1], letters[|letters| - 1];
      ExtendSize(front, S);
      PrependSize([c], S);
      ExtendDisjoint(front, c, S);
      assert |letters| * |S| == |front| * |S| + |S|;
    }
  }

  /** All words of length n. */
  ghost function AllWords(letters: string, n: nat): set<string> {
    if n == 0 then {""} else Extend(letters, AllWords(letters, n - 1))
  }

  lemma {:induction false} AllWordsMember(letters: string, n: nat, w: string)
    ensures w in AllWords(letters, n) <==> |w| == n && Over(w, letters)
  {
    if n > 0 {
      ExtendMember(letters, AllWords(letters, n - 1), w);
      if w != "" {
        AllWordsMember(letters, n - 1, w[1..]);
        assert w == [w[0]] + w[1..];
        assert Over(w, letters) <==> w[0] in letters && Over(w[1..], letters);
      }
    }
  }

  lemma {:induction false} AllWordsSize(letters: string, n: nat)
    requires Distinct(letters)
    ensures |AllWords(letters, n)| == Pow(|letters|, n)
  {
    if n > 0 {
      AllWordsSize(letters, n - 1);
      ExtendSize(letters, AllWords(letters, n - 1));
    }
  }

  /** The words of length n that begin with w. */
  ghost function Blocked(w: string, letters: string, n: nat): set<string>
    requires |w| <= n
  {
    Prepend(w, AllWords(letters, n - |w|))
  }

  lemma BlockedWords(w: string, letters: string, n: nat)
    requires Distinct(letters) && |w| <= n && Over(w, letters)
    ensures |Blocked(w, letters, n)| == Pow(|letters|, n - |w|)
  {
    AllWordsSize(letters, n - |w|);
    PrependSize(w, AllWords(letters, n - |w|));
  }

  lemma BlockedWord(w: string, letters: string, n: nat, v: string)
    requires |w| <= n && Over(w, letters) && v in Blocked(w, letters, n)
    ensures v in AllWords(letters, n) && w <= v
  {
    var u :| u in AllWords(letters, n - |w|) && v == w + u;
    AllWordsMember(letters, n - |w|, u);
    AllWordsMember(letters, n, v);
  }

  ghost function Weight(words: seq<string>, base: nat, n: nat): nat
    requires forall i :: 0 <= i < |words| ==> |words[i]| <= n
  {
    if words == [] then 0
    else
      var last := |words| - 1;
      Weight(words[..last], base, n) + Pow(base, n - |words[last]|)
  }

  ghost function AllBlocked(words: seq<string>, letters: string, n: nat): set<string>
    requires forall i :: 0 <= i < |words| ==> |words[i]| <= n
  {
    if words == [] then {}
    else
      var last := |words| - 1;
      AllBlocked(words[..last], letters, n) + Blocked(words[last], letters, n)
  }

  ghost predicate CodeWords(words: seq<string>, letters: string, n: nat) {
    forall i :: 0 <= i < |words| ==> |words[i]| <= n && Over(words[i], letters)
  }

  lemma {:induction false} BlockedBegin(words: seq<string>, letters: string, n: nat, v: string)
    requires Distinct(letters) && CodeWords(words, letters, n) && v in AllBlocked(words, letters, n)
    ensures v in AllWords(letters, n) && exists i :: 0 <= i < |words| && words[i] <= v
  {
    var last := |words| - 1;
    if v in AllBlocked(words[..last], letters, n) {
      BlockedBegin(words[..last], letters, n, v);
    } else {
      BlockedWord(words[last], letters, n, v);
    }
  }

  lemma BlockedDisjoint(words: seq<string>, w: string, letters: string, n: nat)
    requires Distinct(letters) && CodeWords(words, letters, n) && |w| <= n && Over(w, letters)
    requires forall i :: 0 <= i < |words| ==> !(words[i] <= w) && !(w <= words[i])
    ensures AllBlocked(words, letters, n) !! Blocked(w, letters, n)
  {
    forall v | v in AllBlocked(words, letters, n) && v in Blocked(w, letters, n)
      ensures false
    {
      BlockedBegin(words, letters, n, v);
      BlockedWord(w, letters, n, v);
      var i :| 0 <= i < |words| && words[i] <= v;
      Comparable(words[i], w, v);
    }
  }

  /** The blocked words of a prefix code are disjoint, so their numbers add up. */
  lemma {:induction false} BlockedSize(words: seq<string>, letters: string, n: nat)
    requires Distinct(letters) && PrefixFree(words) && CodeWords(words, letters, n)
    ensures |AllBlocked(words, letters, n)| == Weight(words, |letters|, n)
  {
    if words != [] {
      var front, w := words[..|words| - 1], words[|words| - 1];
      BlockedSize(front, letters, n);
      BlockedWords(w, letters, n);
      BlockedDisjoint(front, w, letters, n);
    }
  }

  lemma Comparable(a: string, b: string, v: string)
    requires a <= v && b <= v
    ensures a <= b || b <= a
  {
    assert a == v[..|a|] && b == v[..|b|];
  }

  /** Kraft's inequality. */
  lemma Kraft(words: seq<string>, letters: string, n: nat)
    requires Distinct(letters) && PrefixFree(words) && CodeWords(words, letters, n)
    ensures Weight(words, |letters|, n) <= Pow(|letters|, n)
  {
    BlockedSize(words, letters, n);
    AllWordsSize(letters, n);
    forall v | v in AllBlocked(words, letters, n)
      ensures v in AllWords(letters, n)
    {
      BlockedBegin(words, letters, n, v);
    }
    SubsetSize(AllBlocked(words, letters, n), AllWords(letters, n));
  }

  /** The number of words of the given length. */
  function CountOfLength(words: seq<string>, length: nat): nat {
    if words == [] then 0
    else CountOfLength(words[..|words| - 1], length) + (if |words[|words| - 1]| == length then 1 else 0)
  }

  lemma {:induction false} TwoLengthWeight(words: seq<string>, base: nat, needed: nat)
    requires base >= 2 && needed >= 1
    requires forall i :: 0 <= i < |words| ==> |words[i]| == needed - 1 || |words[i]| == needed
    ensures CountOfLength(words, needed - 1) <= |words|
    ensures Weight(words, base, needed) == |words| + CountOfLength(words, needed - 1) * (base - 1)
  {
    if words != [] {
      TwoLengthWeight(words[..|words| - 1], base, needed);
      assert Pow(base, 1) == base * Pow(base, 0) == base;
      var short := CountOfLength(words[..|words| - 1], needed - 1);
      assert (short + 1) * (base - 1) == short * (base - 1) + (base - 1);
    }
  }

  lemma {:induction false} NoneOfLengthZero(words: seq<string>)
    requires forall i :: 0 <= i < |words| ==> words[i] != ""
    ensures CountOfLength(words, 0) == 0
  {
    if words != [] {
      NoneOfLengthZero(words[..|words| - 1]);
    }
  }

  /** Any prefix code of n non-empty words that uses the two lengths of the plan has at
      most as many words of the shorter length as the plan has. */
  lemma SplitIsOptimal(words: seq<string>, letters: string, needed: nat)
    requires |letters| >= 2 && Distinct(letters) && |words| >= 1
    requires IsCeilLog(|words|, |letters|, needed)
    requires PrefixFree(words)
    requires forall i :: 0 <= i < |words| ==> |words[i]| == needed - 1 || |words[i]| == needed
    requires forall i :: 0 <= i < |words| ==> words[i] != "" && Over(words[i], letters)
    ensures CountOfLength(words, needed - 1) <= ShortCount(|words|, |letters|, needed)
  {
    if needed == 1 {
      NoneOfLengthZero(words);
    } else {
      var spare, b := Pow(|letters|, needed) - |words|, |letters| - 1;
      var short := CountOfLength(words, needed - 1);
      Kraft(words, letters, needed);
      TwoLengthWeight(words, |letters|, needed);
      QuotientBelow(spare, b, short);
      assert short * b == b * short;
    }
  }

  lemma {:induction false} WeightAtLeastOne(words: seq<string>, base: nat, n: nat)
    requires base >= 2
    requires forall i :: 0 <= i < |words| ==> |words[i]| <= n
    ensures |words| <= Weight(words, base, n)
  {
    if words != [] {
      WeightAtLeastOne(words[..|words| - 1], base, n);
      PowMonotone(base, 0, n - |words[|words| - 1]|);
    }
  }

  /** No prefix code of the same size gets by with shorter words than the plan's longest. */
  lemma LengthIsOptimal(words: seq<string>, letters: string, needed: nat, longest: nat)
    requires |letters| >= 2 && Distinct(letters) && |words| >= 1
    requires IsCeilLog(|words|, |letters|, needed)
    requires PrefixFree(words) && CodeWords(words, letters, longest)
    ensures |words| > 1 ==> longest >= needed
  {
    Kraft(words, letters, longest);
    WeightAtLeastOne(words, |letters|, longest);
    if longest == 0 {
      assert Pow(|letters|, 0) == 1;
    } else if longest < needed {
      PowMonotone(|letters|, longest, needed - 1);
    }
  }

  lemma {:induction false} CountFirstWords(words: seq<string>, short: nat, length: nat)
    requires forall i :: 0 <= i < |words| ==> (|words[i]| == length <==> i < short)
    ensures CountOfLength(words, length) == if |words| < short then |words| else short
  {
    if words != [] {
      CountFirstWords(words[..|words| - 1], short, length);
    }
  }

  /** The plan attains the bound of SplitIsOptimal. */
  lemma PlanAttainsOptimum(n: nat, alphabet: string, needed: nat)
    requires |alphabet| >= 2 && Distinct(alphabet) && n >= 1 && IsCeilLog(n, |alphabet|, needed)
    ensures CountOfLength(Plan(n, alphabet, needed), needed - 1) == ShortCount(n, |alphabet|, needed)
  {
    PlanIsPrefixCode(n, alphabet, needed);
    SerialsInRange(n, |alphabet|, needed);
    CountFirstWords(Plan(n, alphabet, needed), ShortCount(n, |alphabet|, needed), needed - 1);
  }

  // ----- the total length

  function TotalLength(words: seq<string>): nat {
    if words == [] then 0 else TotalLength(words[..|words| - 1]) + |words[|words| - 1]|
  }

  function Longest(words: seq<string>): (n: nat)
    ensures forall i :: 0 <= i < |words| ==> |words[i]| <= n
  {
    if words == [] then 0
    else
      var n, last := Longest(words[..|words| - 1]), |words[|words| - 1]|;
      if n < last then last else n
  }

  /** Bernoulli's inequality. */
  lemma {:induction false} PowAtLeast(base: nat, j: nat)
    requires base >= 2
    ensures Pow(base, j) >= 1 + (base - 1) * j
  {
    if j > 0 {
      var p := Pow(base, j - 1);
      PowAtLeast(base, j - 1);
      PowMonotone(base, 0, j - 1);
      MulMonotone(base - 1, 1, p);
      Distribute(base - 1, j - 1, 1);
      assert Pow(base, j) == base * p == p + (base - 1) * p;
    }
  }

  /** What a word of a length counts against words of length needed. */
  function Share(base: nat, needed: nat, length: nat): int {
    1 + (base - 1) * (needed - length)
  }

  /** A word blocks at least its share of the full-length words. */
  lemma ShareBlocked(base: nat, needed: nat, length: nat, n: nat)
    requires base >= 2 && needed <= n && length <= n
    ensures Pow(base, n - length) >= Pow(base, n - needed) * Share(base, needed, length)
  {
    if length <= needed {
      PowAdd(base, n - needed, needed - length);
      PowAtLeast(base, needed - length);
      MulMonotone(Pow(base, n - needed), Share(base, needed, length), Pow(base, needed - length));
    } else {
      MulMonotone(base - 1, needed - length, -1);
      MulMonotone(Pow(base, n - needed), Share(base, needed, length), 0);
    }
  }

  function Shares(words: seq<string>, base: nat, needed: nat): int {
    if words == [] then 0
    else Shares(words[..|words| - 1], base, needed) + Share(base, needed, |words[|words| - 1]|)
  }

  lemma {:induction false} SharesTotal(words: seq<string>, base: nat, needed: nat)
    ensures Shares(words, base, needed) == |words| + (base - 1) * (needed * |words| - TotalLength(words))
  {
    if words != [] {
      var front, last := words[..|words| - 1], |words[|words| - 1]|;
      SharesTotal(front, base, needed);
      Distribute(base - 1, needed * |front| - TotalLength(front), needed - last);
      assert needed * |words| == needed * |front| + needed;
    }
  }

  lemma {:induction false} SharesBlocked(words: seq<string>, base: nat, needed: nat, n: nat)
    requires base >= 2 && needed <= n && forall i :: 0 <= i < |words| ==> |words[i]| <= n
    ensures Weight(words, base, n) >= Pow(base, n - needed) * Shares(words, base, needed)
  {
    if words != [] {
      var front, last := words[..|words| - 1], |words[|words| - 1]|;
      SharesBlocked(front, base, needed, n);
      ShareBlocked(base, needed, last, n);
      Distribute(Pow(base, n - needed), Shares(front, base, needed), Share(base, needed, last));
    }
  }

  lemma Cancel(p: nat, x: int, y: int)
    requires p >= 1 && p * x <= p * y
    ensures x <= y
  {
    MulMonotone(p, y + 1, x);
    assert p * (y + 1) == p * y + p;
  }

  /** The words of a prefix code, whatever their lengths, have room for their shares. */
  lemma SharesFit(words: seq<string>, letters: string, needed: nat)
    requires |letters| >= 2 && Distinct(letters) && PrefixFree(words)
    requires forall i :: 0 <= i < |words| ==> Over(words[i], letters)
    ensures Shares(words, |letters|, needed) <= Pow(|letters|, needed)
  {
    var base := |letters|;
    var n := if Longest(words) < needed then needed else Longest(words);
    Kraft(words, letters, n);
    SharesBlocked(words, base, needed, n);
    PowAdd(base, n - needed, needed);
    PowMonotone(base, 0, n - needed);
    Cancel(Pow(base, n - needed), Shares(words, base, needed), Pow(base, needed));
  }

  lemma SavedAtMost(n: nat, d: nat, saved: int, space: nat)
    requires d >= 1 && n + d * saved <= space && n <= space
    ensures saved <= Quotient(space - n, d)
  {
    if saved > 0 {
      QuotientBelow(space - n, d, saved);
    }
  }

  /** The plan has the least total length: among the prefix codes of n non-empty words, of
      whatever lengths, none saves more letters than the plan has short words. */
  lemma TotalIsOptimal(words: seq<string>, letters: string, needed: nat)
    requires |letters| >= 2 && Distinct(letters) && |words| >= 1
    requires IsCeilLog(|words|, |letters|, needed) && PrefixFree(words)
    requires forall i :: 0 <= i < |words| ==> words[i] != "" && Over(words[i], letters)
    ensures TotalLength(words) >= needed * |words| - ShortCount(|words|, |letters|, needed)
  {
    if needed == 1 {
      AtLeastOneLetter(words);
    } else {
      var saved := needed * |words| - TotalLength(words);
      SharesFit(words, letters, needed);
      SharesTotal(words, |letters|, needed);
      SavedAtMost(|words|, |letters| - 1, saved, Pow(|letters|, needed));
    }
  }

  lemma {:induction false} AtLeastOneLetter(words: seq<string>)
    requires forall i :: 0 <= i < |words| ==> words[i] != ""
    ensures TotalLength(words) >= |words|
  {
    if words != [] {
      AtLeastOneLetter(words[..|words| - 1]);
    }
  }

  lemma {:induction false} TotalOfTwoLengths(words: seq<string>, short: nat, needed: nat)
    requires needed >= 1
    requires forall i :: 0 <= i < |words| ==> |words[i]| == if i < short then needed - 1 else needed
    ensures TotalLength(words) == needed * |words| - if |words| < short then |words| else short
  {
    if words != [] {
      TotalOfTwoLengths(words[..|words| - 1], short, needed);
      assert needed * |words| == needed * (|words| - 1) + needed;
    }
  }

  /** The plan attains the bound of TotalIsOptimal. */
  lemma PlanAttainsTotal(n: nat, alphabet: string, needed: nat)
    requires |alphabet| >= 2 && Distinct(alphabet) && n >= 1 && IsCeilLog(n, |alphabet|, needed)
    ensures TotalLength(Plan(n, alphabet, needed)) == needed * n - ShortCount(n, |alphabet|, needed)
  {
    PlanIsPrefixCode(n, alphabet, needed);
    SerialsInRange(n, |alphabet|, needed);
    TotalOfTwoLengths(Plan(n, alphabet, needed), ShortCount(n, |alphabet|, needed), needed);
  }
}
