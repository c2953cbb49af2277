/** Collecting the links of a page, labelling them, and following one by typing its label. */
module FollowHints {
  import opened Arithmetic
  import opened Common
  import opened HintLabels

  /** A laid-out box; href stands for the address of the link's URL object. */
  datatype Box = Box(href: Option<nat>, gadget: bool, width: int, height: int, children: seq<Box>)

  predicate Visible(b: Box) {
    (b.href.Some? || b.gadget) && b.width > 0 && b.height > 0
  }

  predicate SameHref(a: Box, b: Box) {
    a.href == b.href && a.href.Some?
  }

  datatype LinkHint = LinkHint(node: Box, hint: string)

  // ----- collection, as a function

  function PreOrder(b: Box): seq<Box>
    decreases b, 1
  {
    [b] + PreOrderAll(b.children)
  }

  function PreOrderAll(bs: seq<Box>): seq<Box>
    decreases bs, 0
  {
    if bs == [] then [] else PreOrder(bs[0]) + PreOrderAll(bs[1..])
  }

  /** What visiting one box does to the boxes collected so far. */
  function Visit(found: seq<Box>, b: Box): seq<Box> {
    if Visible(b) && forall i :: 0 <= i < |found| ==> !SameHref(b, found[i]) then found + [b] else found
  }

  function VisitAll(found: seq<Box>, bs: seq<Box>): seq<Box>
    decreases bs
  {
    if bs == [] then found else VisitAll(Visit(found, bs[0]), bs[1..])
  }

  lemma {:induction false} VisitAppend(found: seq<Box>, a: seq<Box>, b: seq<Box>)
    ensures VisitAll(found, a + b) == VisitAll(VisitAll(found, a), b)
    decreases a
  {
    if a == [] {
      assert a + b == b;
    } else {
      assert (a + b)[1..] == a[1..] + b;
      VisitAppend(Visit(found, a[0]), a[1..], b);
    }
  }

  lemma VisitChild(found: seq<Box>, children: seq<Box>, k: nat)
    requires k < |children|
    ensures VisitAll(found, PreOrderAll(children[k..]))
         == VisitAll(VisitAll(found, PreOrder(children[k])), PreOrderAll(children[k + 1..]))
  {
    assert children[k..][0] == children[k] && children[k..][1..] == children[k + 1..];
    VisitAppend(found, PreOrder(children[k]), PreOrderAll(children[k + 1..]));
  }

  /** Visiting the children from the k-th on ends with these boxes. */
  ghost predicate VisitsTo(found: seq<Box>, children: seq<Box>, k: nat, goal: seq<Box>)
    requires k <= |children|
    decreases |children| - k
  {
    if k == |children| then found == goal
    else VisitsTo(VisitAll(found, PreOrder(children[k])), children, k + 1, goal)
  }

  lemma {:induction false} VisitsChildren(found: seq<Box>, children: seq<Box>, k: nat)
    requires k <= |children|
    ensures VisitsTo(found, children, k, VisitAll(found, PreOrderAll(children[k..])))
    decreases |children| - k
  {
    if k < |children| {
      VisitChild(found, children, k);
      VisitsChildren(VisitAll(found, PreOrder(children[k])), children, k + 1);
    }
  }

  // ----- collection, as a property of the page

  /** Position i of the traversal is worth a hint: the box is visible and no earlier visible
      box has its link. */
  ghost predicate Worth(bs: seq<Box>, i: nat)
    requires i < |bs|
  {
    Visible(bs[i]) && forall j :: 0 <= j < i && Visible(bs[j]) ==> !SameHref(bs[i], bs[j])
  }

  ghost function Selection(bs: seq<Box>): seq<Box> {
    if bs == [] then []
    else
      var last := |bs| - 1;
      Selection(bs[..last]) + if Worth(bs, last) then [bs[last]] else []
  }

  /** The positions marked in keep. */
  ghost function Marked(keep: seq<bool>): (at: seq<nat>)
    ensures forall j, k :: 0 <= j < k < |at| ==> at[j] < at[k]
    ensures forall k :: 0 <= k < |at| ==> at[k] < |keep| && keep[at[k]]
    ensures forall i :: 0 <= i < |keep| && keep[i] ==> i in at
  {
    if keep == [] then []
    else Marked(keep[..|keep| - 1]) + if keep[|keep| - 1] then [|keep| - 1] else []
  }

  lemma WorthInFront(bs: seq<Box>)
    requires bs != []
    ensures forall i :: 0 <= i < |bs| - 1 ==> (Worth(bs[..|bs| - 1], i) <==> Worth(bs, i))
  {
  }

  lemma {:induction false} SelectionIsMarked(bs: seq<Box>, keep: seq<bool>)
    requires |keep| == |bs| && forall i :: 0 <= i < |bs| ==> (keep[i] <==> Worth(bs, i))
    ensures |Selection(bs)| == |Marked(keep)|
    ensures forall k :: 0 <= k < |Selection(bs)| ==> Selection(bs)[k] == bs[Marked(keep)[k]]
  {
    if bs != [] {
      var last := |bs| - 1;
      var before := Marked(keep[..last]);
      WorthInFront(bs);
      SelectionIsMarked(bs[..last], keep[..last]);
      assert Marked(keep) == before + if keep[last] then [last] else [];
      assert forall k :: 0 <= k < |before| ==> bs[..last][before[k]] == bs[before[k]];
    }
  }

  /** Kept are, in order, the boxes with a size and a link or a form control, except for links that
      an earlier box with a size has too. Boxes without a link are never merged. */
  lemma SelectionIs(bs: seq<Box>) returns (at: seq<nat>)
    ensures |at| == |Selection(bs)| && forall j, k :: 0 <= j < k < |at| ==> at[j] < at[k]
    ensures forall k :: 0 <= k < |at| ==> at[k] < |bs| && Selection(bs)[k] == bs[at[k]]
    ensures forall i :: 0 <= i < |bs| ==>
              (i in at <==>
               && bs[i].width > 0 && bs[i].height > 0
               && (if bs[i].href == None then bs[i].gadget
                   else forall j :: 0 <= j < i && bs[j].width > 0 && bs[j].height > 0 ==> bs[j].href != bs[i].href))
  {
    var keep := seq(|bs|, i requires 0 <= i < |bs| => Worth(bs, i));
    SelectionIsMarked(bs, keep);
    at := Marked(keep);
    forall i | 0 <= i < |bs|
      ensures i in at <==> Worth(bs, i)
    {
    }
  }

  /** A form control without a link is kept as often as it occurs, if it has a size. */
  lemma {:induction false} LinklessKept(bs: seq<Box>, b: Box)
    requires b.href == None && b.gadget && b.width > 0 && b.height > 0
    ensures multiset(Selection(bs))[b] == multiset(bs)[b]
  {
    if bs != [] {
      var front, last := bs[..|bs| - 1], bs[|bs| - 1];
      LinklessKept(front, b);
      assert bs == front + [last];
      assert multiset(bs) == multiset(front) + multiset([last]);
    }
  }

  /** A box stands before everything inside it: first itself, then its children in order, each
      with all that is inside. */
  lemma BoxBeforeContents(b: Box, k: nat)
    requires k < |b.children|
    ensures PreOrder(b) != [] && PreOrder(b)[0] == b
    ensures [b] + PreOrderAll(b.children[..k]) + PreOrder(b.children[k]) <= PreOrder(b)
  {
    PreOrderSplit(b.children, k);
    var before, child := PreOrderAll(b.children[..k]), PreOrder(b.children[k]);
    ConcatAssociates([b], before, child);
    assert PreOrder(b) == [b] + PreOrderAll(b.children);
    assert [b] + (before + child) <= [b] + PreOrderAll(b.children);
  }

  lemma {:induction false} PreOrderSplit(bs: seq<Box>, k: nat)
    requires k < |bs|
    ensures PreOrderAll(bs[..k]) + PreOrder(bs[k]) <= PreOrderAll(bs)
  {
    if k == 0 {
      assert PreOrderAll(bs[..0]) + PreOrder(bs[0]) == PreOrder(bs[0]);
    } else {
      PreOrderSplit(bs[1..], k - 1);
      assert bs[..k][1..] == bs[1..][..k - 1] && bs[..k][0] == bs[0];
      var before, child := PreOrderAll(bs[1..][..k - 1]), PreOrder(bs[k]);
      ConcatAssociates(PreOrder(bs[0]), before, child);
      assert PreOrder(bs[0]) + (before + child) <= PreOrder(bs[0]) + PreOrderAll(bs[1..]);
    }
  }

  /** A link is among the collected boxes exactly when some visible box has it. */
  lemma {:induction false} SelectionLinks(bs: seq<Box>, b: Box)
    ensures (exists i :: 0 <= i < |Selection(bs)| && SameHref(b, Selection(bs)[i]))
       <==> (exists j :: 0 <= j < |bs| && Visible(bs[j]) && SameHref(b, bs[j]))
  {
    if bs != [] {
      var front, last := bs[..|bs| - 1], |bs| - 1;
      SelectionLinks(front, b);
      assert forall j :: 0 <= j < last ==> front[j] == bs[j];
      var chosen, before := Selection(bs), Selection(front);
      if i :| 0 <= i < |chosen| && SameHref(b, chosen[i]) {
        assert i < |before| ==> chosen[i] == before[i];
        assert i == |before| ==> chosen[i] == bs[last];
      }
      if j :| 0 <= j < |bs| && Visible(bs[j]) && SameHref(b, bs[j]) {
        if j == last && Worth(bs, last) {
          assert chosen[|before|] == bs[last];
        } else {
          if j == last {
            var k :| 0 <= k < last && Visible(bs[k]) && SameHref(bs[last], bs[k]);
            assert SameHref(b, front[k]);
          }
          var i :| 0 <= i < |before| && SameHref(b, before[i]);
          assert chosen[i] == before[i];
        }
      }
    }
  }

  /** Starting with no hints, the traversal collects exactly the boxes worth a hint, in
      order. */
  lemma {:induction false} VisitSelects(bs: seq<Box>)
    ensures VisitAll([], bs) == Selection(bs)
  {
    if bs != [] {
      var front, last := bs[..|bs| - 1], bs[|bs| - 1];
      VisitSelects(front);
      assert bs == front + [last];
      VisitAppend([], front, [last]);
      assert VisitAll(Selection(front), [last]) == Visit(Selection(front), last);
      SelectionLinks(front, last);
      assert forall j :: 0 <= j < |front| ==> front[j] == bs[j];
    }
  }

  /** No two collected boxes have the same link. */
  lemma {:induction false} SelectionHasNoDuplicates(bs: seq<Box>)
    ensures forall i, j :: 0 <= i < j < |Selection(bs)| ==> !SameHref(Selection(bs)[i], Selection(bs)[j])
  {
    if bs != [] {
      var front, last := bs[..|bs| - 1], |bs| - 1;
      SelectionHasNoDuplicates(front);
      SelectionLinks(front, bs[last]);
      assert forall j :: 0 <= j < last ==> front[j] == bs[j];
      forall i, j | 0 <= i < j < |Selection(bs)|
        ensures !SameHref(Selection(bs)[i], Selection(bs)[j])
      {
        assert i < |Selection(front)| && Selection(bs)[i] == Selection(front)[i];
        if j < |Selection(front)| {
          assert Selection(bs)[j] == Selection(front)[j];
        } else {
          assert !SameHref(bs[last], Selection(front)[i]);
        }
      }
    }
  }

  // ----- shuffling

  /** The Fisher-Yates shuffle; rand(i) is the number drawn for position i. */
  function Shuffle(s: seq<string>, rand: nat -> nat): (r: seq<string>)
    ensures |r| == |s|
    decreases |s|
  {
    if |s| <= 1 then s
    else
      var i := |s| - 1;
      var t := Swap(s, i, Remainder(rand(i), i + 1));
      Shuffle(t[..i], rand) + [t[i]]
  }

  /** Settling the last place and rearranging the rest rearranges the whole. */
  lemma LastSettled<T>(s: seq<T>, t: seq<T>, i: nat, rest: seq<T>)
    requires |t| == i + 1 && multiset(t) == multiset(s) && multiset(rest) == multiset(t[..i])
    ensures multiset(rest + [t[i]]) == multiset(s)
  {
    assert t == t[..i] + [t[i]];
  }

  lemma {:induction false} ShufflePermutes(s: seq<string>, rand: nat -> nat)
    ensures multiset(Shuffle(s, rand)) == multiset(s)
    decreases |s|
  {
    if |s| > 1 {
      var i := |s| - 1;
      var t := Swap(s, i, Remainder(rand(i), i + 1));
      SwapPermutes(s, i, Remainder(rand(i), i + 1));
      ShufflePermutes(t[..i], rand);
      LastSettled(s, t, i, Shuffle(t[..i], rand));
    }
  }

  /** The draw for the last place picks what comes there; what stood there takes the picked
      place, and the rest is shuffled on. */
  lemma ShuffleFromLast(s: seq<string>, rand: nat -> nat)
    requires |s| >= 2
    ensures var last := |s| - 1;
            var j := rand(last) % |s|;
            && Shuffle(s, rand)[last] == s[j]
            && Shuffle(s, rand)[..last] == Shuffle(if j < last then s[..last][j := s[last]] else s[..last], rand)
  {
    var last := |s| - 1;
    IsDivision(rand(last), |s|);
    var j := Remainder(rand(last), |s|);
    SwapEntries(s, last, j);
    assert Swap(s, last, j)[..last] == if j < last then s[..last][j := s[last]] else s[..last];
  }

  lemma {:induction false} ShuffleDependsOnDraws(s: seq<string>, rand: nat -> nat, rand': nat -> nat)
    requires forall i :: 0 <= i < |s| ==> rand(i) == rand'(i)
    ensures Shuffle(s, rand) == Shuffle(s, rand')
    decreases |s|
  {
    if |s| > 1 {
      var i := |s| - 1;
      ShuffleDependsOnDraws(Swap(s, i, Remainder(rand(i), i + 1))[..i], rand, rand');
    }
  }

  lemma DropLastEqual<T>(a: seq<T>, b: seq<T>)
    requires multiset(a) == multiset(b) && |a| == |b| > 0 && a[|a| - 1] == b[|b| - 1]
    ensures multiset(a[..|a| - 1]) == multiset(b[..|b| - 1])
  {
    DropLast(a);
    DropLast(b);
  }

  lemma DropLast<T>(a: seq<T>)
    requires |a| > 0
    ensures multiset(a[..|a| - 1]) == multiset(a) - multiset{a[|a| - 1]}
  {
    assert a == a[..|a| - 1] + [a[|a| - 1]];
  }

  /** Drawing j for the last position puts s[j] there and shuffles the others as inner does. */
  lemma ReachWithDraw(s: seq<string>, goal: seq<string>, j: nat, inner: nat -> nat) returns (rand: nat -> nat)
    requires |s| == |goal| > 1 && j < |s| && s[j] == goal[|s| - 1]
    requires Shuffle(Swap(s, |s| - 1, j)[..|s| - 1], inner) == goal[..|s| - 1]
    ensures Shuffle(s, rand) == goal
  {
    var i := |s| - 1;
    rand := (n: nat) => if n == i then j else inner(n);
    ShuffleDependsOnDraws(Swap(s, i, j)[..i], inner, rand);
    assert Remainder(j, |s|) == j;
    assert goal == goal[..i] + [goal[i]];
  }

  lemma SameLength<T>(s: seq<T>, goal: seq<T>)
    requires multiset(s) == multiset(goal)
    ensures |s| == |goal|
  {
    assert |s| == |multiset(s)| == |multiset(goal)| == |goal|;
  }

  lemma Occurs<T>(s: seq<T>, goal: seq<T>, i: nat) returns (j: nat)
    requires multiset(s) == multiset(goal) && i < |goal|
    ensures j < |s| && s[j] == goal[i]
  {
    assert goal[i] in multiset(goal);
    j :| 0 <= j < |s| && s[j] == goal[i];
  }

  lemma PickLast<T>(s: seq<T>, goal: seq<T>, j: nat)
    requires multiset(s) == multiset(goal) && |s| == |goal| && j < |s| && s[j] == goal[|s| - 1]
    ensures multiset(Swap(s, |s| - 1, j)[..|s| - 1]) == multiset(goal[..|s| - 1])
  {
    SwapPermutes(s, |s| - 1, j);
    var t := Swap(s, |s| - 1, j);
    assert t[|t| - 1] == s[j];
    DropLastEqual(t, goal);
  }

  /** Every arrangement of the labels can come out of the shuffle. */
  lemma {:induction false} ShuffleReachesEveryOrder(s: seq<string>, goal: seq<string>) returns (rand: nat -> nat)
    requires multiset(s) == multiset(goal)
    ensures Shuffle(s, rand) == goal
    decreases |s|
  {
    SameLength(s, goal);
    if s == [] {
      rand := n => 0;
    } else {
      var j := Occurs(s, goal, |s| - 1);
      PickLast(s, goal, j);
      if |s| == 1 {
        rand := n => 0;
      } else {
        var inner := ShuffleReachesEveryOrder(Swap(s, |s| - 1, j)[..|s| - 1], goal[..|s| - 1]);
        rand := ReachWithDraw(s, goal, j, inner);
      }
    }
  }

  lemma CountAtMostOne<T>(s: seq<T>, x: T)
    requires Distinct(s)
    ensures multiset(s)[x] <= 1
  {
    if multiset(s)[x] >= 2 {
      var i, j := TwoPositions(s, x);
    }
  }

  lemma PositionsDiffer<T>(s: seq<T>, i: nat, j: nat)
    requires i < j < |s| && multiset(s)[s[i]] <= 1
    ensures s[i] != s[j]
  {
    assert s == s[..j] + s[j..];
    assert multiset(s) == multiset(s[..j]) + multiset(s[j..]);
    assert s[..j][i] in multiset(s[..j]) && s[j..][0] in multiset(s[j..]);
  }

  /** Rearranging a prefix code gives a prefix code. */
  lemma PrefixFreePermutes(words: seq<string>, words': seq<string>)
    requires PrefixFree(words) && multiset(words) == multiset(words')
    ensures PrefixFree(words')
  {
    assert Distinct(words) by {
      assert forall i, j :: 0 <= i < j < |words| ==> !(words[i] <= words[j]);
    }
    forall i, j | 0 <= i < |words'| && 0 <= j < |words'| && i != j
      ensures !(words'[i] <= words'[j])
    {
      assert words'[i] in multiset(words') && words'[j] in multiset(words');
      CountAtMostOne(words, words'[i]);
      CountAtMostOne(words, words'[j]);
      if i < j {
        PositionsDiffer(words', i, j);
      } else {
        PositionsDiffer(words', j, i);
      }
      var a :| 0 <= a < |words| && words[a] == words'[i];
      var b :| 0 <= b < |words| && words[b] == words'[j];
      assert !(words[a] <= words[b]);
    }
  }

  /** Whatever rand() returns, the labels end up a prefix code of non-empty words of at most
      the announced length. */
  lemma ShuffledPlanIsPrefixCode(n: nat, alphabet: string, needed: nat, rand: nat -> nat)
    requires |alphabet| >= 2 && Distinct(alphabet) && n >= 1 && IsCeilLog(n, |alphabet|, needed)
    ensures PrefixFree(Shuffle(Plan(n, alphabet, needed), rand))
    ensures forall word :: word in Shuffle(Plan(n, alphabet, needed), rand) ==> 1 <= |word| <= needed
  {
    var plan := Plan(n, alphabet, needed);
    PlanIsPrefixCode(n, alphabet, needed);
    ShufflePermutes(plan, rand);
    PrefixFreePermutes(plan, Shuffle(plan, rand));
    forall word | word in Shuffle(plan, rand)
      ensures 1 <= |word| <= needed
    {
      assert word in multiset(Shuffle(plan, rand));
      assert word in multiset(plan);
    }
  }

  // ----- typing

  /** One typed character: either it completes a label, or some label goes on like this, or
      it is dropped. */
  function Type(labels: seq<string>, needed: nat, typed: string, c: char): (r: (string, Option<nat>))
  {
    if |typed| >= needed then (typed, None)
    else
      var slot := FirstMatch(labels, typed + [c], 0);
      if slot < |labels| then ("", Some(slot))
      else if exists i :: 0 <= i < |labels| && typed + [c] <= labels[i] then (typed + [c], None)
      else (typed, None)
  }

  function FirstMatch(labels: seq<string>, word: string, from: nat): (i: nat)
    requires from <= |labels|
    ensures from <= i <= |labels|
    ensures forall j :: from <= j < i ==> labels[j] != word
    ensures i < |labels| ==> labels[i] == word
    decreases |labels| - from
  {
    if from == |labels| || labels[from] == word then from else FirstMatch(labels, word, from + 1)
  }

  /** What is typed so far is a proper beginning of a label and no label is a beginning of it. */
  ghost predicate OnTheWay(labels: seq<string>, typed: string) {
    && (exists i :: 0 <= i < |labels| && typed < labels[i])
    && forall i :: 0 <= i < |labels| ==> !(labels[i] <= typed)
  }

  /** Typing a whole key sequence; stops at the first hint that is followed. */
  function TypeAll(labels: seq<string>, needed: nat, typed: string, keys: string): (r: (string, Option<nat>))
    decreases |keys|
  {
    if keys == "" then (typed, None)
    else
      var (typed', hint) := Type(labels, needed, typed, keys[0]);
      if hint.Some? then (typed', hint) else TypeAll(labels, needed, typed', keys[1..])
  }

  ghost predicate Labelling(labels: seq<string>, needed: nat) {
    PrefixFree(labels) && forall i :: 0 <= i < |labels| ==> 1 <= |labels[i]| <= needed
  }

  lemma SameWordSameSlot(labels: seq<string>, i: nat, j: nat)
    requires PrefixFree(labels) && i < |labels| && j < |labels| && labels[i] == labels[j]
    ensures i == j
  {
    assert labels[i] <= labels[j];
  }

  /** One key keeps the invariant, and a hint is followed exactly when the accepted
      characters and the new one spell its whole label. */
  lemma TypeStep(labels: seq<string>, needed: nat, typed: string, c: char)
    requires Labelling(labels, needed) && OnTheWay(labels, typed)
    ensures Type(labels, needed, typed, c).1.None? ==> OnTheWay(labels, Type(labels, needed, typed, c).0)
    ensures forall i :: 0 <= i < |labels| ==>
              (Type(labels, needed, typed, c).1 == Some(i) <==> labels[i] == typed + [c])
    ensures Type(labels, needed, typed, c).1.None? ==>
              Type(labels, needed, typed, c).0
                == if exists i :: 0 <= i < |labels| && typed + [c] <= labels[i] then typed + [c] else typed
  {
    var word := typed + [c];
    var i :| 0 <= i < |labels| && typed < labels[i];
    assert |typed| < needed;
    var first := FirstMatch(labels, word, 0);
    if first == |labels| {
      if k :| 0 <= k < |labels| && word <= labels[k] {
        assert word < labels[k];
        forall m | 0 <= m < |labels|
          ensures !(labels[m] <= word)
        {
          PrefixOfSnoc(labels[m], typed, c);
        }
      }
    } else {
      forall k | 0 <= k < |labels| && labels[k] == word
        ensures k == first
      {
        SameWordSameSlot(labels, k, first);
      }
    }
  }

  /** Spelling the label of hint i follows that hint, at the last key and not before. */
  lemma {:induction false} SpellingFollows(labels: seq<string>, needed: nat, i: nat, start: nat, upto: nat)
    requires Labelling(labels, needed) && i < |labels| && start <= upto <= |labels[i]| && start < |labels[i]|
    requires OnTheWay(labels, labels[i][..start])
    ensures TypeAll(labels, needed, labels[i][..start], labels[i][start..upto])
         == if upto == |labels[i]| then ("", Some(i)) else (labels[i][..upto], None)
    decreases upto - start
  {
    var word := labels[i];
    if start < upto {
      var typed, c := word[..start], word[start];
      assert word[start..upto][0] == c && word[start..upto][1..] == word[start + 1..upto];
      assert typed + [c] == word[..start + 1] <= word;
      TypeStep(labels, needed, typed, c);
      if start + 1 < |word| {
        forall m | 0 <= m < |labels|
          ensures labels[m] != typed + [c]
        {
          assert m != i ==> !(labels[m] <= labels[i]);
        }
        assert Type(labels, needed, typed, c) == (typed + [c], None);
        SpellingFollows(labels, needed, i, start + 1, upto);
      } else {
        assert typed + [c] == word;
      }
    }
  }

  /** From a fresh labelling every key sequence leaves either a hint followed or a buffer
      that is on the way to one. */
  lemma {:induction false} TypingStaysOnTheWay(labels: seq<string>, needed: nat, typed: string, keys: string)
    requires Labelling(labels, needed) && OnTheWay(labels, typed)
    ensures TypeAll(labels, needed, typed, keys).1.None? ==>
              OnTheWay(labels, TypeAll(labels, needed, typed, keys).0)
    decreases |keys|
  {
    if keys != "" {
      TypeStep(labels, needed, typed, keys[0]);
      var (typed', hint) := Type(labels, needed, typed, keys[0]);
      if hint.None? {
        TypingStaysOnTheWay(labels, needed, typed', keys[1..]);
      }
    }
  }

  lemma NothingTypedIsOnTheWay(labels: seq<string>, needed: nat)
    requires Labelling(labels, needed) && labels != []
    ensures OnTheWay(labels, "")
  {
    assert "" < labels[0];
  }
}
