/** The follow state of a window: the growing table of hints and the buffer of typed keys. */
module FollowStates {
  import opened Arithmetic
  import opened Common
  import opened Numerals
  import opened HintLabels
  import opened FollowHints

  ghost function NodesOf(hints: seq<LinkHint>): (nodes: seq<Box>) {
    seq(|hints|, i requires 0 <= i < |hints| => hints[i].node)
  }

  ghost function LabelsOf(hints: seq<LinkHint>): (labels: seq<string>) {
    seq(|hints|, i requires 0 <= i < |hints| => hints[i].hint)
  }

  /** pow(alphalen, needed) is cast to int; this keeps the cast exact. */
  ghost predicate SpaceFitsInt(n: nat, base: nat) {
    forall e :: IsCeilLog(n, base, e) ==> Pow(base, e) <= INT_MAX
  }

  lemma {:induction false} PowAtLeastTwo(base: nat, e: nat)
    requires base >= 2
    ensures Pow(2, e) <= Pow(base, e)
  {
    if e > 0 {
      PowAtLeastTwo(base, e - 1);
      MulMonotone(base, Pow(2, e - 1), Pow(base, e - 1));
    }
  }

  /** A label whose code space fits an int fits the 32 byte buffer with its NUL. */
  lemma FewDigits(base: nat, e: nat)
    requires base >= 2 && Pow(base, e) <= INT_MAX
    ensures e < HINT_BUFFER
  {
    if e > 31 {
      assert Pow(2, 1) == 2 && Pow(2, 2) == 4;
      PowAdd(2, 2, 2);
      PowAdd(2, 4, 4);
      PowAdd(2, 8, 8);
      PowAdd(2, 16, 16);
      PowMonotone(2, 32, e);
      PowAtLeastTwo(base, e);
    }
  }

  /** word is serial written with the given number of digits, which are enough. */
  ghost predicate IsNumeral(word: string, serial: nat, alphabet: string, digits: nat) {
    && |alphabet| >= 2
    && DigitCount(serial, |alphabet|) <= digits
    && word == Spell(Digits(serial, |alphabet|, digits), alphabet)
  }

  /** Slots with consecutive labels from a serial on. */
  ghost predicate CountsUp(plan: seq<string>, first: nat, count: nat, start: nat, alphabet: string, digits: nat) {
    && |alphabet| >= 2 && first + count <= |plan|
    && forall i :: first <= i < first + count ==> IsNumeral(plan[i], start + (i - first), alphabet, digits)
  }

  /** The plan counts up twice: through the short labels, then through the long ones. */
  lemma PlanNumerals(n: nat, alphabet: string, needed: nat, short: nat, start: nat)
    requires |alphabet| >= 2 && n >= 1 && IsCeilLog(n, |alphabet|, needed)
    requires short == ShortCount(n, |alphabet|, needed) && start == short * |alphabet|
    ensures short < n && (short > 0 ==> needed > 1) && Plan(n, alphabet, needed)[..n] == Plan(n, alphabet, needed)
    ensures needed > 1 ==> CountsUp(Plan(n, alphabet, needed), 0, short, 0, alphabet, needed - 1)
    ensures CountsUp(Plan(n, alphabet, needed), short, n - short, start, alphabet, needed)
  {
    var plan := Plan(n, alphabet, needed);
    SerialsInRange(n, |alphabet|, needed);
    forall i | 0 <= i < n
      ensures IsNumeral(plan[i], SlotSerial(n, |alphabet|, needed, i), alphabet, SlotLength(n, |alphabet|, needed, i))
    {
      SlotInRange(n, |alphabet|, needed, i);
    }
  }

  lemma SwapInPrefix<T>(s: seq<T>, i: nat, j: nat)
    requires j <= i < |s|
    ensures Swap(s, i, j)[..i] == Swap(s[..i + 1], i, j)[..i]
    ensures Swap(s, i, j)[i..] == [Swap(s[..i + 1], i, j)[i]] + s[i + 1..]
  {
  }

  /** One round of the shuffle, seen on the labels as a whole. */
  lemma ShuffleRound(labels: seq<string>, i: nat, rand: nat -> nat)
    requires 0 < i < |labels|
    ensures var swapped := Swap(labels, i, Remainder(rand(i), i + 1));
            Shuffle(labels[..i + 1], rand) + labels[i + 1..] == Shuffle(swapped[..i], rand) + swapped[i..]
  {
    var j := Remainder(rand(i), i + 1);
    var t := Swap(labels[..i + 1], i, j);
    SwapInPrefix(labels, i, j);
    assert Shuffle(labels[..i + 1], rand) == Shuffle(t[..i], rand) + [t[i]];
    ConcatAssociates(Shuffle(t[..i], rand), [t[i]], labels[i + 1..]);
  }

  /** Shuffling on from position i down ends with these labels. */
  ghost predicate ShufflesTo(labels: seq<string>, i: nat, rand: nat -> nat, goal: seq<string>)
    requires i < |labels|
    decreases i
  {
    if i == 0 then labels == goal
    else ShufflesTo(Swap(labels, i, Remainder(rand(i), i + 1)), i - 1, rand, goal)
  }

  lemma {:induction false} ShuffleEnds(labels: seq<string>, i: nat, rand: nat -> nat, goal: seq<string>)
    requires i < |labels| && goal == Shuffle(labels[..i + 1], rand) + labels[i + 1..]
    ensures ShufflesTo(labels, i, rand, goal)
    decreases i
  {
    if i > 0 {
      ShuffleRound(labels, i, rand);
      ShuffleEnds(Swap(labels, i, Remainder(rand(i), i + 1)), i - 1, rand, goal);
    } else {
      assert labels == labels[..1] + labels[1..];
    }
  }

  lemma ShuffleBegins(labels: seq<string>, i: nat, rand: nat -> nat)
    requires |labels| == i + 1
    ensures ShufflesTo(labels, i, rand, Shuffle(labels, rand))
  {
    NothingBehind(Shuffle(labels, rand), labels);
    ShuffleEnds(labels, i, rand, Shuffle(labels, rand));
  }

  lemma NothingBehind<T>(s: seq<T>, t: seq<T>)
    ensures t[..|t|] == t && s + t[|t|..] == s
  {
  }

  /** Typing character k of a label after the characters before it. */
  lemma NextKey(labels: seq<string>, needed: nat, slot: nat, k: nat)
    requires Labelling(labels, needed) && slot < |labels| && k < |labels[slot]|
    ensures Type(labels, needed, labels[slot][..k], labels[slot][k])
         == if k + 1 == |labels[slot]| then ("", Some(slot)) else (labels[slot][..k + 1], None)
  {
    var word := labels[slot];
    NothingTypedIsOnTheWay(labels, needed);
    assert word[..0] == "" && word[0..k] == word[..k];
    SpellingFollows(labels, needed, slot, 0, k);
    TypingStaysOnTheWay(labels, needed, "", word[..k]);
    SpellingFollows(labels, needed, slot, k, k + 1);
    assert word[k..k + 1] == [word[k]];
  }

  class FollowState {
    var hints: array?<LinkHint>
    var nhint: nat
    var zhint: nat
    var needed: nat
    var hintbuf: array?<char>
    var hintln: nat

    ghost predicate Valid()
      reads this, hints, hintbuf
    {
      && (if hints == null then nhint == 0 else hints.Length == zhint && nhint < zhint)
      && (hintbuf != null ==> hintbuf.Length == needed + 1 && hintln <= needed)
    }

    ghost function Recorded(): seq<LinkHint>
      reads this, hints, hintbuf
      requires Valid()
    {
      if hints == null then [] else hints[..nhint]
    }

    /** The part of the buffer that has been accepted. */
    ghost function Typed(): string
      reads this, hints, hintbuf
      requires Valid() && hintbuf != null
    {
      hintbuf[..hintln]
    }

    constructor ()
      ensures Valid() && Recorded() == [] && hints == null && hintbuf == null
    {
      hints, nhint, zhint, needed, hintbuf, hintln := null, 0, 0, 0, null, 0;
    }

    /** Append one hint, growing the table when only one free slot is left. */
    method Append(node: Box)
      requires Valid()
      modifies this, hints
      ensures Valid() && (hints == old(hints) || fresh(hints)) && hints != null
      ensures Recorded() == old(Recorded()) + [LinkHint(node, "")]
      ensures zhint == if old(hints) == null then 64
                       else if old(nhint) + 1 >= old(zhint) then 2 * old(zhint) else old(zhint)
      ensures unchanged(`hintbuf) && unchanged(`hintln) && unchanged(`needed)
    {
      if hints == null {
        hints := new LinkHint[64];
        nhint := 0;
        zhint := 64;
      } else if nhint + 1 >= zhint {
        var grown := new LinkHint[2 * zhint];
        forall i | 0 <= i < nhint {
          grown[i] := hints[i];
        }
        hints := grown;
        zhint := 2 * zhint;
      }
      hints[nhint] := LinkHint(node, "");
      nhint := nhint + 1;
    }

    /** Is there a hint for the link of this box already? */
    method IsCollected(node: Box) returns (collected: bool)
      requires Valid()
      ensures collected <==> exists i :: 0 <= i < nhint && SameHref(node, NodesOf(Recorded())[i])
    {
      var i := 0;
      while i < nhint
        invariant 0 <= i <= nhint
        invariant forall j :: 0 <= j < i ==> !SameHref(node, NodesOf(Recorded())[j])
      {
        if node.href == hints[i].node.href && node.href != None {
          assert SameHref(node, NodesOf(Recorded())[i]);
          return true;
        }
        i := i + 1;
      }
      return false;
    }

    /** Visit a box and its children, collecting the visible links not collected before. */
    method CollectHints(node: Box)
      requires Valid()
      modifies this, hints
      ensures Valid() && (hints == old(hints) || fresh(hints))
      ensures NodesOf(Recorded()) == VisitAll(old(NodesOf(Recorded())), PreOrder(node))
      ensures old(Recorded()) == [] ==> NodesOf(Recorded()) == Selection(PreOrder(node))
      ensures unchanged(`hintbuf) && unchanged(`hintln) && unchanged(`needed)
      decreases node, 1
    {
      VisitSelects(PreOrder(node));
      ghost var before := NodesOf(Recorded());
      if (node.href.Some? || node.gadget) && node.width > 0 && node.height > 0 {
        var collected := IsCollected(node);
        if !collected {
          Append(node);
        }
      }
      assert NodesOf(Recorded()) == Visit(before, node);
      CollectChildren(node.children);
    }

    method CollectChildren(children: seq<Box>)
      requires Valid()
      modifies this, hints
      ensures Valid() && (hints == old(hints) || fresh(hints))
      ensures NodesOf(Recorded()) == VisitAll(old(NodesOf(Recorded())), PreOrderAll(children))
      ensures unchanged(`hintbuf) && unchanged(`hintln) && unchanged(`needed)
      decreases children, 0
    {
      ghost var goal := VisitAll(NodesOf(Recorded()), PreOrderAll(children));
      VisitsChildren(NodesOf(Recorded()), children, 0);
      var k := 0;
      while k < |children|
        invariant 0 <= k <= |children|
        invariant Valid() && (hints == old(hints) || fresh(hints))
        invariant VisitsTo(NodesOf(Recorded()), children, k, goal)
        invariant unchanged(`hintbuf) && unchanged(`hintln) && unchanged(`needed)
      {
        CollectHints(children[k]);
        k := k + 1;
      }
    }

    /** Label hint i, the hints before it being labelled already. */
    method SetLabel(i: nat, word: string)
      requires Valid() && i < nhint
      modifies hints
      ensures Valid() && NodesOf(Recorded()) == old(NodesOf(Recorded()))
      ensures LabelsOf(hints[..i + 1]) == old(LabelsOf(hints[..i])) + [word]
    {
      hints[i] := hints[i].(hint := word);
    }

    /** Label the hints from slot first on with consecutive serials; the hints before first
        are labelled already, and plan says what all labels are to be. */
    method LabelRange(alphabet: string, digits: nat, start: nat, first: nat, count: nat, ghost plan: seq<string>)
      requires Valid() && hints != null && |alphabet| >= 2 && 1 <= digits < HINT_BUFFER
      requires first + count <= nhint == |plan| && CountsUp(plan, first, count, start, alphabet, digits)
      requires LabelsOf(hints[..first]) == plan[..first]
      modifies hints
      ensures Valid() && NodesOf(Recorded()) == old(NodesOf(Recorded()))
      ensures LabelsOf(hints[..first + count]) == plan[..first + count]
    {
      ghost var nodes := NodesOf(Recorded());
      var i := first;
      while i < first + count
        invariant first <= i <= first + count && Valid() && NodesOf(Recorded()) == nodes
        invariant LabelsOf(hints[..i]) == plan[..i]
      {
        assert IsNumeral(plan[i], start + (i - first), alphabet, digits);
        var word := MkHint(start + (i - first), alphabet, digits);
        SetLabel(i, word);
        assert plan[..i + 1] == plan[..i] + [plan[i]];
        i := i + 1;
      }
    }

    /** Write the labels in order: nshort short serials, then the long ones. */
    method LabelInOrder(alphabet: string, nshort: nat)
      requires Valid() && nhint >= 1 && |alphabet| >= 2 && needed < HINT_BUFFER
      requires IsCeilLog(nhint, |alphabet|, needed) && nshort == ShortCount(nhint, |alphabet|, needed)
      modifies hints
      ensures Valid() && NodesOf(Recorded()) == old(NodesOf(Recorded()))
      ensures LabelsOf(Recorded()) == Plan(nhint, alphabet, needed)
    {
      ghost var plan := Plan(nhint, alphabet, needed);
      var start := nshort * |alphabet|;
      PlanNumerals(nhint, alphabet, needed, nshort, start);
      var nlong := nhint - nshort;
      if needed > 1 {
        LabelRange(alphabet, needed - 1, 0, 0, nshort, plan);
      }
      LabelRange(alphabet, needed, start, nshort, nlong, plan);
    }

    /** Give every hint a label: short serials, then long ones, then a shuffle. */
    method LabelHints(alphabet: string, rand: nat -> nat)
      requires Valid() && nhint >= 1 && |alphabet| >= 2 && SpaceFitsInt(nhint, |alphabet|)
      modifies this, hints
      ensures Valid() && hints == old(hints) && nhint == old(nhint)
      ensures NodesOf(Recorded()) == old(NodesOf(Recorded()))
      ensures IsCeilLog(nhint, |alphabet|, needed)
      ensures LabelsOf(Recorded()) == Shuffle(Plan(nhint, alphabet, needed), rand)
      ensures hintbuf != null && fresh(hintbuf) && Typed() == ""
    {
      var alphalen := |alphabet|;
      needed := CeilLog(nhint, alphalen);
      hintbuf := new char[needed + 1];
      hintln := 0;
      FewDigits(alphalen, needed);
      var nshort := 0;
      if needed > 1 {
        var space := Pow(alphalen, needed);
        IsDivision(space - nhint, alphalen - 1);
        nshort := (space - nhint) / (alphalen - 1);
      }
      LabelInOrder(alphabet, nshort);
      ShuffleHints(rand);
    }

    method SwapLabels(i: nat, j: nat)
      requires Valid() && i < nhint && j < nhint
      modifies hints
      ensures Valid()
      ensures NodesOf(Recorded()) == old(NodesOf(Recorded()))
      ensures LabelsOf(Recorded()) == Swap(old(LabelsOf(Recorded())), i, j)
      ensures hints[i].hint == old(hints[j].hint) && hints[j].hint == old(hints[i].hint)
      ensures forall k :: 0 <= k < nhint && k != i && k != j ==> hints[k] == old(hints[k])
    {
      var a, b := hints[i].hint, hints[j].hint;
      hints[i] := hints[i].(hint := b);
      hints[j] := hints[j].(hint := a);
    }

    /** One round: exchange the label at i with the one at a random place up to i. */
    method ShuffleOnce(i: nat, rand: nat -> nat, ghost goal: seq<string>)
      requires Valid() && 0 < i < nhint && ShufflesTo(LabelsOf(Recorded()), i, rand, goal)
      modifies hints
      ensures Valid() && NodesOf(Recorded()) == old(NodesOf(Recorded()))
      ensures LabelsOf(Recorded()) == Swap(old(LabelsOf(Recorded())), i, Remainder(rand(i), i + 1))
      ensures var j := rand(i) % (i + 1);
              hints[i].hint == old(hints[j].hint) && hints[j].hint == old(hints[i].hint)
      ensures ShufflesTo(LabelsOf(Recorded()), i - 1, rand, goal)
    {
      IsDivision(rand(i), i + 1);
      var j := rand(i) % (i + 1);
      SwapLabels(i, j);
    }

    method ShuffleHints(rand: nat -> nat)
      requires Valid() && nhint >= 1
      modifies hints
      ensures Valid()
      ensures NodesOf(Recorded()) == old(NodesOf(Recorded()))
      ensures LabelsOf(Recorded()) == Shuffle(old(LabelsOf(Recorded())), rand)
    {
      ghost var nodes, goal := NodesOf(Recorded()), Shuffle(LabelsOf(Recorded()), rand);
      var i := nhint - 1;
      ShuffleBegins(LabelsOf(Recorded()), i, rand);
      while i > 0
        invariant 0 <= i < nhint && Valid() && NodesOf(Recorded()) == nodes
        invariant ShufflesTo(LabelsOf(Recorded()), i, rand, goal)
      {
        ShuffleOnce(i, rand, goal);
        i := i - 1;
      }
    }

    /** Forget all hints. */
    method FinishHints()
      requires Valid()
      modifies this
      ensures Valid() && Recorded() == [] && hintbuf == null
    {
      hints := null;
      nhint := 0;
      hintbuf := null;
    }

    /** One printable key. Returns the hint that is followed, if the key completes a label. */
    method HandleKey(c: char) returns (followed: Option<LinkHint>)
      requires Valid() && hintbuf != null
      modifies this, hintbuf
      ensures Valid()
      ensures var labels, typed := old(LabelsOf(Recorded())), old(Typed());
              var (typed', slot) := Type(labels, old(needed), typed, c);
              && (slot.Some? ==> followed == Some(old(Recorded())[slot.value]) && Recorded() == [] && hintbuf == null)
              && (slot.None? ==> followed == None && Recorded() == old(Recorded()) && needed == old(needed)
                                 && hintbuf == old(hintbuf) && Typed() == typed')
    {
      if hintln >= needed {
        return None;
      }
      ghost var labels, typed := LabelsOf(Recorded()), Typed();
      hintbuf[hintln] := c;
      ghost var word := typed + [c];
      assert hintbuf[..hintln + 1] == word;
      var i, partial := Compare(word);
      if i < nhint {
        followed := Some(hints[i]);
        FinishHints();
        return;
      }
      if partial {
        hintln := hintln + 1;
      } else {
        assert hintbuf[..hintln] == typed;
      }
      return None;
    }

    /** Compare the buffer with every label in turn, up to the first equal one. */
    method Compare(ghost word: string) returns (i: nat, partial: bool)
      requires Valid() && hintbuf != null && hintln < needed && hintbuf[..hintln + 1] == word
      ensures i == FirstMatch(LabelsOf(Recorded()), word, 0) <= nhint
      ensures i == nhint ==> (partial <==> exists k :: 0 <= k < nhint && word <= LabelsOf(Recorded())[k])
    {
      ghost var labels := LabelsOf(Recorded());
      partial := false;
      i := 0;
      while i < nhint
        invariant 0 <= i <= nhint && FirstMatch(labels, word, 0) == FirstMatch(labels, word, i)
        invariant partial <==> exists k :: 0 <= k < i && word <= labels[k]
      {
        assert hints[i].hint == labels[i];
        if hints[i].hint == hintbuf[..hintln + 1] {
          return;
        }
        if hintbuf[..hintln + 1] <= hints[i].hint {
          partial := true;
        }
        i := i + 1;
      }
    }
  }

  /** A user who types the label of one hint, key by key. */
  method SpellLabel(state: FollowState, slot: nat) returns (followed: Option<LinkHint>)
    requires state.Valid() && state.hintbuf != null && state.Typed() == "" && slot < state.nhint
    requires Labelling(LabelsOf(state.Recorded()), state.needed)
    modifies state, state.hintbuf
    ensures followed == Some(old(state.Recorded())[slot])
  {
    ghost var recorded, labels, needed := state.Recorded(), LabelsOf(state.Recorded()), state.needed;
    var word := state.hints[slot].hint;
    assert word == labels[slot];
    followed := None;
    var k := 0;
    while k < |word|
      invariant 0 <= k <= |word|
      invariant k < |word| ==> state.Valid() && state.hintbuf != null && state.hintbuf == old(state.hintbuf)
      invariant k < |word| ==> state.Recorded() == recorded && state.needed == needed && state.Typed() == word[..k]
      invariant k == |word| ==> followed == Some(recorded[slot])
    {
      NextKey(labels, needed, slot, k);
      followed := state.HandleKey(word[k]);
      k := k + 1;
    }
  }

  /** The whole feature: collect from a page, label, and type one of the labels. */
  method FollowByLabel(page: Box, alphabet: string, rand: nat -> nat, slot: nat) returns (followed: Option<LinkHint>)
    requires |alphabet| >= 2 && Distinct(alphabet)
    requires slot < |Selection(PreOrder(page))|
    requires SpaceFitsInt(|Selection(PreOrder(page))|, |alphabet|)
    ensures followed.Some? && followed.value.node == Selection(PreOrder(page))[slot]
  {
    var state := new FollowState();
    state.CollectHints(page);
    state.LabelHints(alphabet, rand);
    ghost var recorded := state.Recorded();
    assert NodesOf(recorded)[slot] == Selection(PreOrder(page))[slot];
    ShuffledPlanIsPrefixCode(state.nhint, alphabet, state.needed, rand);
    assert forall i :: 0 <= i < |recorded| ==> LabelsOf(recorded)[i] in LabelsOf(recorded);
    followed := SpellLabel(state, slot);
  }
}
