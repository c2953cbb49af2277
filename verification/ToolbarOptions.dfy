/** The toolbar in the user's options: reading the list of item names, filling the toolbar, and
    why writing the list back fails. */
module ToolbarOptions {
  import opened Common
  import opened Toolbars

  const BACK_BUTTON := 0
  const HISTORY_BUTTON := 1
  const FORWARD_BUTTON := 2
  const RELOADSTOP_BUTTON := 3
  const WEBSEARCH_ITEM := 5
  const OPENMENU_BUTTON := 6
  const THROBBER_ITEM := 10
  const DEFAULT_ITEMS: seq<nat> :=
    [BACK_BUTTON, HISTORY_BUTTON, FORWARD_BUTTON, RELOADSTOP_BUTTON, WEBSEARCH_ITEM, OPENMENU_BUTTON, THROBBER_ITEM]

  // ----- tokens

  /** The position of the first '/' from a position on, or the end. */
  function TokenEnd(s: string, from: nat): (end: nat)
    requires from <= |s|
    ensures from <= end <= |s| && (end < |s| ==> s[end] == '/')
    ensures forall i :: from <= i < end ==> s[i] != '/'
    decreases |s| - from
  {
    if from == |s| || s[from] == '/' then from else TokenEnd(s, from + 1)
  }

  /** The tokens from a position on; a '/' at the very end starts no further token. */
  function TokensFrom(s: string, from: nat): seq<string>
    requires from <= |s|
    decreases |s| - from
  {
    if from == |s| then []
    else
      var end := TokenEnd(s, from);
      [s[from..end]] + TokensFrom(s, NextFrom(s, end))
  }

  function NextFrom(s: string, end: nat): nat {
    if end < |s| then end + 1 else end
  }

  function Tokens(s: string): seq<string> {
    TokensFrom(s, 0)
  }

  /** Every token with a '/' behind it. */
  function Join(tokens: seq<string>): string {
    if tokens == [] then "" else tokens[0] + "/" + Join(tokens[1..])
  }

  lemma TokenEndIs(s: string, from: nat, end: nat)
    requires from <= end <= |s| && (end < |s| ==> s[end] == '/') && forall i :: from <= i < end ==> s[i] != '/'
    ensures TokenEnd(s, from) == end
  {
  }

  lemma {:induction false} TokensOfJoinFrom(before: string, tokens: seq<string>)
    requires forall i :: 0 <= i < |tokens| ==> '/' !in tokens[i]
    ensures TokensFrom(before + Join(tokens), |before|) == tokens
    decreases |tokens|
  {
    var s := before + Join(tokens);
    if tokens == [] {
      assert s == before;
    } else {
      ReadBack(before, tokens[0], Join(tokens[1..]), s);
      TokensOfJoinFrom(before + tokens[0] + "/", tokens[1..]);
    }
  }

  /** A token written behind some text is read back from there. */
  lemma ReadBack(before: string, t: string, rest: string, s: string)
    requires '/' !in t && s == before + (t + "/" + rest)
    ensures s == before + t + "/" + rest
    ensures TokenEnd(s, |before|) == |before + t| < |s| && s[|before|..|before + t|] == t
    ensures NextFrom(s, |before + t|) == |before + t + "/"|
  {
    var end := |before + t|;
    assert s == before + t + "/" + rest;
    assert s[|before|..end] == t && s[end] == '/';
    assert forall i :: |before| <= i < end ==> s[i] == t[i - |before|];
    TokenEndIs(s, |before|, end);
  }

  /** Reading gives back any written list of tokens, empty ones included. */
  lemma TokensOfJoin(tokens: seq<string>)
    requires forall i :: 0 <= i < |tokens| ==> '/' !in tokens[i]
    ensures Tokens(Join(tokens)) == tokens
  {
    TokensOfJoinFrom("", tokens);
    assert "" + Join(tokens) == Join(tokens);
  }

  /** What is written behind the tokens of s[from..]: s itself, closed with a '/'. */
  function Closed(s: string): string {
    if s == "" || s[|s| - 1] == '/' then s else s + "/"
  }

  lemma ClosedStep(t: string, rest: string)
    ensures Closed(t + "/" + rest) == t + "/" + Closed(rest)
    ensures t != "" && '/' !in t ==> Closed(t) == t + "/" + Closed("")
  {
    if rest != "" {
      assert (t + "/" + rest)[|t + "/" + rest| - 1] == rest[|rest| - 1];
    } else {
      assert t + "/" + rest == t + "/";
    }
    assert t != "" ==> t[|t| - 1] in t;
    assert t + "/" + "" == t + "/";
  }

  /** Reading loses nothing but a '/' at the end. */
  lemma {:induction false} JoinOfTokens(s: string, from: nat)
    requires from <= |s|
    ensures Join(TokensFrom(s, from)) == Closed(s[from..])
    decreases |s| - from
  {
    if from < |s| {
      var end := TokenEnd(s, from);
      var next := NextFrom(s, end);
      JoinOfTokens(s, next);
      assert TokensFrom(s, from)[1..] == TokensFrom(s, next);
      ClosedStep(s[from..end], s[next..]);
      SplitToken(s, from, end);
    }
  }

  lemma SplitToken(s: string, from: nat, end: nat)
    requires from <= end <= |s| && (end < |s| ==> s[end] == '/')
    ensures s[from..] == if end < |s| then s[from..end] + "/" + s[NextFrom(s, end)..] else s[from..end]
    ensures end == |s| ==> s[NextFrom(s, end)..] == ""
  {
  }

  // ----- items

  function KnownItems(names: seq<string>, tokens: seq<string>): (items: seq<nat>)
    ensures forall k :: 0 <= k < |items| ==> items[k] < |names|
  {
    if tokens == [] then []
    else
      var i := FirstIndex(names, tokens[0]);
      (if i < |names| then [i] else []) + KnownItems(names, tokens[1..])
  }

  /** A token that is no item's name, the empty one included, is passed over wherever it is. */
  lemma {:induction false} UnknownTokenIsSkipped(names: seq<string>, before: seq<string>, t: string, after: seq<string>)
    requires t !in names
    ensures KnownItems(names, before + [t] + after) == KnownItems(names, before + after)
  {
    if before == [] {
      assert [t] + after == before + [t] + after && after == before + after;
      assert ([t] + after)[1..] == after;
    } else {
      UnknownTokenIsSkipped(names, before[1..], t, after);
      assert (before + [t] + after)[1..] == before[1..] + [t] + after;
      assert (before + after)[1..] == before[1..] + after;
    }
  }

  lemma NoneBetween(at: seq<nat>, low: nat, high: nat)
    requires forall k :: 0 <= k < |at| ==> low <= at[k] < high
    ensures at != [] ==> low < high
  {
    if at != [] {
      assert low <= at[0] < high;
    }
  }

  lemma NextKnown(names: seq<string>, tokens: seq<string>, at: seq<nat>, from: nat)
    requires from < |tokens| && tokens[from] in names && forall j, k :: 0 <= j < k < |at| ==> at[j] < at[k]
    requires forall k :: 0 <= k < |at| ==> from <= at[k] < |tokens|
    requires forall p :: from <= p < |tokens| ==> (tokens[p] in names <==> p in at)
    ensures at != [] && at[0] == from
    ensures forall j, k :: 0 <= j < k < |at[1..]| ==> at[1..][j] < at[1..][k]
    ensures forall k :: 0 <= k < |at[1..]| ==> from + 1 <= at[1..][k] < |tokens|
    ensures forall p :: from + 1 <= p < |tokens| ==> (tokens[p] in names <==> p in at[1..])
  {
    assert from in at && forall k :: 0 < k < |at| ==> at[0] < at[k];
    assert at == [at[0]] + at[1..];
  }

  /** Known names among tokens that are none: at says where the known ones are. */
  lemma {:induction false} KnownAmongUnknown(names: seq<string>, tokens: seq<string>, at: seq<nat>, from: nat)
    requires from <= |tokens| && forall j, k :: 0 <= j < k < |at| ==> at[j] < at[k]
    requires forall k :: 0 <= k < |at| ==> from <= at[k] < |tokens|
    requires forall p :: from <= p < |tokens| ==> (tokens[p] in names <==> p in at)
    ensures var items := KnownItems(names, tokens[from..]);
            |items| == |at| && forall k :: 0 <= k < |at| ==> items[k] == FirstIndex(names, tokens[at[k]])
    decreases |tokens| - from
  {
    NoneBetween(at, from, |tokens|);
    if from < |tokens| {
      assert tokens[from..][0] == tokens[from] && tokens[from..][1..] == tokens[from + 1..];
      if tokens[from] in names {
        NextKnown(names, tokens, at, from);
        KnownAmongUnknown(names, tokens, at[1..], from + 1);
      } else {
        KnownAmongUnknown(names, tokens, at, from + 1);
      }
    }
  }

  /** The items the option asks for; the defaults if it names none. */
  function Requested(names: seq<string>, option: Option<string>): (items: seq<nat>)
    requires |names| > THROBBER_ITEM
    ensures items != [] && forall k :: 0 <= k < |items| ==> items[k] < |names|
  {
    var items := KnownItems(names, Tokens(if option.None? then "" else option.value));
    if items == [] then DEFAULT_ITEMS else items
  }

  /** The location of an item is the last place where it is asked for. */
  function LastPlace(items: seq<nat>, item: nat): (k: int)
    ensures k == INACTIVE_LOCATION <==> item !in items
    ensures item in items ==> 0 <= k < |items| && items[k] == item && item !in items[k + 1..]
  {
    if items == [] then INACTIVE_LOCATION
    else if items[|items| - 1] == item then |items| - 1
    else
      assert items == items[..|items| - 1] + [items[|items| - 1]];
      var k := LastPlace(items[..|items| - 1], item);
      assert k >= 0 ==> items[k + 1..] == items[..|items| - 1][k + 1..] + [items[|items| - 1]];
      k
  }

  ghost predicate Places(locations: seq<int>, items: seq<nat>) {
    forall i :: 0 <= i < |locations| ==> locations[i] == LastPlace(items, i)
  }

  lemma PlaceOf(items: seq<nat>, k: nat)
    requires Distinct(items) && k < |items|
    ensures LastPlace(items, items[k]) == k
  {
    var k' := LastPlace(items, items[k]);
    assert items[k] in items;
    assert items[k'] == items[k];
  }

  /** The placed locations have no gap exactly when no item is asked for twice. */
  lemma PlacesEncode(locations: seq<int>, items: seq<nat>)
    requires Places(locations, items) && forall k :: 0 <= k < |items| ==> items[k] < |locations|
    ensures Encodes(locations, items) <==> Distinct(items)
  {
    if Distinct(items) {
      forall k | 0 <= k < |items|
        ensures locations[items[k]] == k
      {
        PlaceOf(items, k);
      }
      forall i | 0 <= i < |locations|
        ensures locations[i] == INACTIVE_LOCATION || (0 <= locations[i] < |items| && items[locations[i]] == i)
      {
        assert locations[i] == LastPlace(items, i);
      }
    }
    if Encodes(locations, items) {
      EncodingUnique(locations, items, items);
    }
  }

  /** Distinct items, given by their names, are placed by their order. */
  lemma NamedPlaces(names: seq<string>, items: seq<nat>, named: seq<string>, locations: seq<int>)
    requires Distinct(names) && |names| == |locations| && Distinct(named) && |named| == |items|
    requires forall k :: 0 <= k < |items| ==> items[k] < |names| && names[items[k]] == named[k]
    requires Places(locations, items)
    ensures forall i, k :: 0 <= i < |names| && 0 <= k < |named| && names[i] == named[k] ==> locations[i] == k
    ensures forall i :: 0 <= i < |names| && names[i] !in named ==> locations[i] == -1
  {
    assert Distinct(items) by {
      assert forall j, k :: 0 <= j < k < |items| ==> named[j] != named[k];
    }
    forall i, k | 0 <= i < |names| && 0 <= k < |named| && names[i] == named[k]
      ensures locations[i] == k
    {
      assert i == items[k];
      PlaceOf(items, k);
    }
    forall i | 0 <= i < |names| && names[i] !in named
      ensures locations[i] == -1
    {
      forall k | 0 <= k < |items|
        ensures items[k] != i
      {
        assert names[items[k]] == named[k];
      }
      assert locations[i] == LastPlace(items, i);
    }
  }

  /** Reading distinct known names, mixed with any other tokens: the k-th known one gets location
      k and all other items are inactive. */
  lemma MixedOption(names: seq<string>, tokens: seq<string>, at: seq<nat>, named: seq<string>, locations: seq<int>)
    requires |names| == |locations| > 10 && Distinct(names) && Distinct(named) && named != []
    requires forall p :: 0 <= p < |tokens| ==> '/' !in tokens[p]
    requires |at| == |named| && forall j, k :: 0 <= j < k < |at| ==> at[j] < at[k]
    requires forall k :: 0 <= k < |at| ==> at[k] < |tokens| && tokens[at[k]] == named[k]
    requires forall p :: 0 <= p < |tokens| ==> (tokens[p] in names <==> p in at)
    requires Places(locations, Requested(names, Some(Join(tokens))))
    ensures forall i, k :: 0 <= i < |names| && 0 <= k < |named| && names[i] == named[k] ==> locations[i] == k
    ensures forall i :: 0 <= i < |names| && names[i] !in named ==> locations[i] == -1
  {
    MixedItems(names, tokens, at, named);
    NamedPlaces(names, Requested(names, Some(Join(tokens))), named, locations);
  }

  lemma MixedItems(names: seq<string>, tokens: seq<string>, at: seq<nat>, named: seq<string>)
    requires |names| > 10 && named != []
    requires forall p :: 0 <= p < |tokens| ==> '/' !in tokens[p]
    requires |at| == |named| && forall j, k :: 0 <= j < k < |at| ==> at[j] < at[k]
    requires forall k :: 0 <= k < |at| ==> at[k] < |tokens| && tokens[at[k]] == named[k]
    requires forall p :: 0 <= p < |tokens| ==> (tokens[p] in names <==> p in at)
    ensures var items := Requested(names, Some(Join(tokens)));
            |items| == |named| && forall k :: 0 <= k < |items| ==> items[k] < |names| && names[items[k]] == named[k]
  {
    TokensOfJoin(tokens);
    assert tokens[0..] == tokens;
    KnownAmongUnknown(names, tokens, at, 0);
    var items := KnownItems(names, tokens);
    assert items == Requested(names, Some(Join(tokens)));
    forall k | 0 <= k < |items|
      ensures items[k] < |names| && names[items[k]] == named[k]
    {
      assert at[k] in at && tokens[at[k]] in names;
      KnownIndex(names, tokens[at[k]]);
    }
  }

  lemma KnownIndex(names: seq<string>, name: string)
    requires name in names
    ensures FirstIndex(names, name) < |names|
  {
  }

  /** Without a known name nothing is known, and the defaults are asked for. */
  lemma {:induction false} NothingKnown(names: seq<string>, tokens: seq<string>)
    requires forall t :: t in tokens ==> t !in names
    ensures KnownItems(names, tokens) == []
  {
    if tokens != [] {
      assert tokens == [tokens[0]] + tokens[1..];
      assert tokens[0] in tokens;
      NothingKnown(names, tokens[1..]);
    }
  }

  lemma PlacedAt(locations: seq<int>, items: seq<nat>, k: nat)
    requires Places(locations, items) && Distinct(items) && k < |items| && items[k] < |locations|
    ensures locations[items[k]] == k
  {
    PlaceOf(items, k);
  }

  lemma NotPlaced(locations: seq<int>, items: seq<nat>)
    requires Places(locations, items)
    ensures forall i :: 0 <= i < |locations| && i !in items ==> locations[i] == -1
  {
  }

  /** Where the seven default items end up. */
  lemma PlacedInOrder(locations: seq<int>, items: seq<nat>)
    requires Places(locations, items) && |locations| > 10 && items == [0, 1, 2, 3, 5, 6, 10]
    ensures locations[0] == 0 && locations[1] == 1 && locations[2] == 2 && locations[3] == 3
    ensures locations[5] == 4 && locations[6] == 5 && locations[10] == 6
    ensures forall i :: 0 <= i < |locations| && i !in {0, 1, 2, 3, 5, 6, 10} ==> locations[i] == -1
  {
    PlacedAt(locations, items, 0);
    PlacedAt(locations, items, 1);
    PlacedAt(locations, items, 2);
    PlacedAt(locations, items, 3);
    PlacedAt(locations, items, 4);
    PlacedAt(locations, items, 5);
    PlacedAt(locations, items, 6);
    NotPlaced(locations, items);
  }

  /** tb->items[item].location = location++ */
  method Place(locations: array<int>, item: nat, location: nat, ghost placed: seq<nat>)
    returns (next: nat, ghost placed': seq<nat>)
    requires item < locations.Length && location == |placed| && Places(locations[..], placed)
    modifies locations
    ensures next == location + 1 == |placed'| && placed' == placed + [item] && Places(locations[..], placed')
  {
    PlaceNext(locations[..], placed, item);
    locations[item] := location;
    next := location + 1;
    placed' := placed + [item];
  }

  method ClearLocations(locations: array<int>)
    modifies locations
    ensures Places(locations[..], [])
  {
    for iidx := 0 to locations.Length
      invariant forall j :: 0 <= j < iidx ==> locations[j] == INACTIVE_LOCATION
    {
      locations[iidx] := INACTIVE_LOCATION;
    }
  }

  /** Walk over the string, placing each item whose name is met. */
  method ParseItems(names: seq<string>, locations: array<int>, tbitems: string)
    returns (location: nat, ghost placed: seq<nat>)
    requires locations.Length == |names| && Places(locations[..], [])
    modifies locations
    ensures placed == KnownItems(names, Tokens(tbitems)) && location == |placed|
    ensures Places(locations[..], placed)
  {
    var end := 0;
    location, placed := 0, [];
    ghost var goal := KnownItems(names, Tokens(tbitems));
    ItemsToCome(names, tbitems, 0, []);
    assert [] + goal == goal;
    while end < |tbitems|
      invariant 0 <= end <= |tbitems| && location == |placed|
      invariant Places(locations[..], placed) && ParsesTo(names, tbitems, end, placed, goal)
      decreases |tbitems| - end
    {
      var start := end;
      end := ScanToken(tbitems, start);
      var item := FindName(names, tbitems[start..end]);
      if item < |names| {
        location, placed := Place(locations, item, location, placed);
      }
      if end < |tbitems| && tbitems[end] == '/' {
        end := end + 1;
      }
    }
  }

  /** Read the option string and place the items it names. */
  method ApplyCustomisation(names: seq<string>, locations: array<int>, option: Option<string>)
    requires locations.Length == |names| > THROBBER_ITEM
    modifies locations
    ensures Places(locations[..], Requested(names, option))
    ensures option == None || (forall t :: t in Tokens(option.value) ==> t !in names) ==>
              && locations[0] == 0 && locations[1] == 1 && locations[2] == 2 && locations[3] == 3
              && locations[5] == 4 && locations[6] == 5 && locations[10] == 6
              && forall i :: 0 <= i < locations.Length && i !in {0, 1, 2, 3, 5, 6, 10} ==> locations[i] == -1
  {
    ClearLocations(locations);
    var location, placed := ParseItems(names, locations, if option.None? then "" else option.value);
    if location == 0 {
      PlaceDefaults(locations);
      PlacedInOrder(locations[..], DEFAULT_ITEMS);
    }
    WhenNothingIsKnown(names, option, placed);
  }

  lemma WhenNothingIsKnown(names: seq<string>, option: Option<string>, items: seq<nat>)
    requires items == KnownItems(names, Tokens(if option.None? then "" else option.value))
    ensures option == None || (forall t :: t in Tokens(option.value) ==> t !in names) ==> items == []
  {
    if option == None || (forall t :: t in Tokens(option.value) ==> t !in names) {
      NothingKnown(names, Tokens(if option.None? then "" else option.value));
    }
  }

  method ScanToken(s: string, start: nat) returns (end: nat)
    requires start <= |s|
    ensures end == TokenEnd(s, start)
  {
    end := start;
    while end < |s| && s[end] != '/'
      invariant start <= end <= |s|
      invariant forall i :: start <= i < end ==> s[i] != '/'
    {
      end := end + 1;
    }
    TokenEndIs(s, start, end);
  }

  method FindName(names: seq<string>, token: string) returns (iidx: nat)
    ensures iidx == FirstIndex(names, token)
  {
    iidx := 0;
    while iidx < |names|
      invariant 0 <= iidx <= |names|
      invariant forall j :: 0 <= j < iidx ==> names[j] != token
    {
      if |names[iidx]| == |token| && names[iidx] == token {
        break;
      }
      iidx := iidx + 1;
    }
    FirstIndexIs(names, token, iidx);
  }

  /** With these items placed, reading on from a position ends with the items of goal. */
  ghost predicate ParsesTo(names: seq<string>, s: string, from: nat, placed: seq<nat>, goal: seq<nat>)
    decreases |s| - from
  {
    if from >= |s| then placed == goal
    else
      var end := TokenEnd(s, from);
      var item := FirstIndex(names, s[from..end]);
      ParsesTo(names, s, NextFrom(s, end), if item < |names| then placed + [item] else placed, goal)
  }

  lemma {:induction false} ItemsToCome(names: seq<string>, s: string, from: nat, placed: seq<nat>)
    requires from <= |s|
    ensures ParsesTo(names, s, from, placed, placed + KnownItems(names, TokensFrom(s, from)))
    decreases |s| - from
  {
    if from < |s| {
      var end := TokenEnd(s, from);
      var item, tail := FirstIndex(names, s[from..end]), TokensFrom(s, NextFrom(s, end));
      assert TokensFrom(s, from)[1..] == tail;
      ItemsToCome(names, s, NextFrom(s, end), if item < |names| then placed + [item] else placed);
      ConcatAssociates(placed, if item < |names| then [item] else [], KnownItems(names, tail));
    }
    assert placed + [] == placed;
  }

  lemma PlaceNext(locations: seq<int>, placed: seq<nat>, item: nat)
    requires Places(locations, placed) && item < |locations|
    ensures Places(locations[item := |placed|], placed + [item])
  {
    assert (placed + [item])[..|placed|] == placed;
  }

  method PlaceDefaults(locations: array<int>)
    requires locations.Length > THROBBER_ITEM && Places(locations[..], [])
    modifies locations
    ensures Places(locations[..], DEFAULT_ITEMS)
  {
    ghost var placed := [];
    var location := 0;
    location, placed := Place(locations, BACK_BUTTON, location, placed);
    location, placed := Place(locations, HISTORY_BUTTON, location, placed);
    location, placed := Place(locations, FORWARD_BUTTON, location, placed);
    location, placed := Place(locations, RELOADSTOP_BUTTON, location, placed);
    location, placed := Place(locations, WEBSEARCH_ITEM, location, placed);
    location, placed := Place(locations, OPENMENU_BUTTON, location, placed);
    location, placed := Place(locations, THROBBER_ITEM, location, placed);
    assert placed == DEFAULT_ITEMS;
  }

  // ----- filling the toolbar

  /** The items met by walking the locations from k on, up to the first free one. */
  function Walk(locations: seq<int>, k: nat): (items: seq<nat>)
    requires k <= |locations|
    ensures |items| <= |locations| - k
    ensures forall j :: 0 <= j < |items| ==> items[j] < |locations| && locations[items[j]] == k + j
    decreases |locations| - k
  {
    if k == |locations| || FirstIndex(locations, k) == |locations| then []
    else [FirstIndex(locations, k)] + Walk(locations, k + 1)
  }

  /** populate_gtk_toolbar_widget: insert the items found at locations 0, 1, ... */
  method Populate(locations: array<int>) returns (inserted: seq<nat>)
    ensures inserted == Walk(locations[..], 0)
  {
    inserted := [];
    var location := 0;
    ghost var goal := Walk(locations[..], 0);
    while location < locations.Length
      invariant 0 <= location <= locations.Length
      invariant inserted + Walk(locations[..], location) == goal
    {
      var itemid := FindLocation(locations, location);
      if itemid == locations.Length {
        break;
      }
      ConcatAssociates(inserted, [itemid], Walk(locations[..], location + 1));
      inserted := inserted + [itemid];
      location := location + 1;
    }
    assert inserted + [] == inserted;
  }

  /** Every active item is met by the walk. */
  ghost predicate WalkIsComplete(locations: seq<int>) {
    forall i :: 0 <= i < |locations| && locations[i] != INACTIVE_LOCATION ==> i in Walk(locations, 0)
  }

  lemma {:induction false} WalkOfEncoding(locations: seq<int>, order: seq<nat>, k: nat)
    requires Encodes(locations, order) && k <= |order| <= |locations|
    ensures Walk(locations, k) == order[k..]
    decreases |order| - k
  {
    ItemAtLocation(locations, order, k);
    if k < |order| {
      WalkOfEncoding(locations, order, k + 1);
    }
  }

  // ----- drops on what the toolbar shows

  /** Reading an option leaves no two items at one location, gaps or not. */
  lemma PlacesAreSeparate(locations: seq<int>, items: seq<nat>)
    requires Places(locations, items)
    ensures Separate(locations)
  {
    forall i, j | 0 <= i < j < |locations| && locations[i] >= 0
      ensures locations[i] != locations[j]
    {
      assert locations[i] == LastPlace(items, i) && locations[j] == LastPlace(items, j);
      assert i in items;
    }
    forall i | 0 <= i < |locations|
      ensures locations[i] >= INACTIVE_LOCATION
    {
      assert locations[i] == LastPlace(items, i);
    }
  }

  lemma {:induction false} WalkEnd(locations: seq<int>, k: nat)
    requires k <= |locations|
    ensures var e := k + |Walk(locations, k)|; e < |locations| ==> FirstIndex(locations, e) == |locations|
    decreases |locations| - k
  {
    if k < |locations| && FirstIndex(locations, k) < |locations| {
      WalkEnd(locations, k + 1);
    }
  }

  /** The walk is what the locations show. */
  lemma WalkIsShown(locations: seq<int>)
    requires Separate(locations)
    ensures Shows(locations, Walk(locations, 0))
  {
    var walk := Walk(locations, 0);
    WalkEnd(locations, 0);
    assert forall k :: 0 <= k < |walk| ==> locations[walk[k]] == k;
    if |walk| == |locations| {
      AllTaken(locations, walk);
    }
  }

  lemma AllTaken(locations: seq<int>, walk: seq<nat>)
    requires |walk| == |locations|
    requires forall k :: 0 <= k < |walk| ==> walk[k] < |locations| && locations[walk[k]] == k
    ensures forall i :: 0 <= i < |locations| ==> locations[i] < |locations|
  {
    assert Distinct(walk) by {
      assert forall j, k :: 0 <= j < k < |walk| ==> locations[walk[j]] == j && locations[walk[k]] == k;
    }
    forall i | 0 <= i < |locations|
      ensures locations[i] < |locations|
    {
      if i !in walk {
        RoomForOne(walk, i, |locations|);
      }
    }
  }

  lemma {:induction false} ShownFrom(locations: seq<int>, order: seq<nat>, k: nat)
    requires Separate(locations) && Shows(locations, order) && k <= |order| <= |locations|
    ensures Walk(locations, k) == order[k..]
    decreases |order| - k
  {
    if k < |order| {
      assert locations[order[k]] == k;
      ShownFrom(locations, order, k + 1);
    }
  }

  lemma ShownIsWalk(locations: seq<int>, order: seq<nat>)
    requires Separate(locations) && Shows(locations, order)
    ensures Walk(locations, 0) == order
  {
    ShowsDistinct(locations, order);
    ShownFrom(locations, order, 0);
    assert order[0..] == order;
  }

  /** Dropping an item on the toolbox deletes it from what the toolbar shows, also when there are
      gaps behind. */
  lemma ToolboxDropOnWalk(locations: seq<int>, item: nat)
    requires Separate(locations) && item < |locations| && locations[item] >= 0
    ensures Walk(TakenOut(locations, item), 0) == Without(Walk(locations, 0), item)
  {
    WalkIsShown(locations);
    TakenOutShows(locations, Walk(locations, 0), item);
    TakenOutSeparate(locations, item);
    ShownIsWalk(TakenOut(locations, item), Without(Walk(locations, 0), item));
  }

  /** Dropping an item on the toolbar removes it from what the toolbar shows if it is there,
      adjusts the index and inserts it, also when there are gaps behind. */
  lemma ToolbarDropOnWalk(locations: seq<int>, item: nat, index: nat, made: bool)
    requires Separate(locations) && item < |locations| && index <= |Walk(locations, 0)|
    ensures var rest := Without(Walk(locations, 0), item);
            var q := DropIndex(Walk(locations, 0), index, item);
            && q <= |rest|
            && Walk(Dropped(locations, item, index, made), 0) == if made then InsertAt(rest, q, item) else rest
  {
    var walk := Walk(locations, 0);
    WalkIsShown(locations);
    DroppedShows(locations, walk, item, index, made);
    DroppedSeparate(locations, item, index, made);
    var rest, q := Without(walk, item), DropIndex(walk, index, item);
    ShownIsWalk(Dropped(locations, item, index, made), if made then InsertAt(rest, q, item) else rest);
  }

  /** The walk stops at the first gap. */
  lemma {:induction false} WalkStops(locations: seq<int>, k: nat, gap: nat)
    requires k <= gap <= |locations| && forall i :: 0 <= i < |locations| ==> locations[i] != gap
    ensures |Walk(locations, k)| <= gap - k
    decreases gap - k
  {
    if k < gap && FirstIndex(locations, k) < |locations| {
      WalkStops(locations, k + 1, gap);
    }
  }

  lemma DistinctWalk(locations: seq<int>, items: seq<nat>)
    requires Encodes(locations, items)
    ensures Walk(locations, 0) == items && WalkIsComplete(locations)
  {
    OrderFits(locations, items);
    WalkOfEncoding(locations, items, 0);
    assert items[0..] == items;
    forall i | 0 <= i < |locations| && locations[i] != INACTIVE_LOCATION
      ensures i in items
    {
      assert items[locations[i]] == i;
    }
  }

  /** Reading an option and filling the toolbar shows every active item, in the order of the
      option, exactly when the option names no item twice. */
  lemma PlacedToolbar(locations: seq<int>, items: seq<nat>)
    requires Places(locations, items) && forall k :: 0 <= k < |items| ==> items[k] < |locations|
    ensures Distinct(items) ==> Walk(locations, 0) == items
    ensures WalkIsComplete(locations) <==> Distinct(items)
  {
    PlacesEncode(locations, items);
    if Distinct(items) {
      DistinctWalk(locations, items);
    } else {
      var j, k :| 0 <= j < k < |items| && items[j] == items[k];
      RepeatLeavesGap(locations, items, j, k);
    }
  }

  lemma {:induction false} LastPlaceAtLeast(items: seq<nat>, k: nat)
    requires k < |items|
    ensures LastPlace(items, items[k]) >= k
  {
    if items[|items| - 1] != items[k] {
      LastPlaceAtLeast(items[..|items| - 1], k);
    }
  }

  lemma RepeatLeavesGap(locations: seq<int>, items: seq<nat>, j: nat, k: nat)
    requires Places(locations, items) && forall k :: 0 <= k < |items| ==> items[k] < |locations|
    requires j < k < |items| && items[j] == items[k]
    ensures !WalkIsComplete(locations)
  {
    var item := items[k];
    LastPlaceAtLeast(items, k);
    assert item in items;
    assert locations[item] == LastPlace(items, item) > j;
    forall i | 0 <= i < |locations|
      ensures locations[i] != j
    {
      assert locations[i] == LastPlace(items, i);
      if i == item {
        assert locations[i] > j;
      }
    }
    if j <= |locations| {
      WalkStops(locations, 0, j);
    }
    var walk := Walk(locations, 0);
    assert forall m :: 0 <= m < |walk| ==> locations[walk[m]] == m;
  }

  // ----- writing the option

  function NamesOf(names: seq<string>, order: seq<nat>): seq<string>
    requires forall k :: 0 <= k < |order| ==> order[k] < |names|
  {
    seq(|order|, k requires 0 <= k < |order| => names[order[k]])
  }

  /** The names of any order, written with '/' behind each, are read back as that order. */
  lemma WrittenOrderIsRead(names: seq<string>, order: seq<nat>)
    requires Distinct(names) && forall i :: 0 <= i < |names| ==> '/' !in names[i]
    requires forall k :: 0 <= k < |order| ==> order[k] < |names|
    ensures KnownItems(names, Tokens(Join(NamesOf(names, order)))) == order
  {
    TokensOfJoin(NamesOf(names, order));
    KnownNames(names, order);
  }

  lemma {:induction false} KnownNames(names: seq<string>, order: seq<nat>)
    requires Distinct(names) && forall k :: 0 <= k < |order| ==> order[k] < |names|
    ensures KnownItems(names, NamesOf(names, order)) == order
  {
    if order != [] {
      FirstIndexIs(names, names[order[0]], order[0]);
      assert NamesOf(names, order)[1..] == NamesOf(names, order[1..]);
      KnownNames(names, order[1..]);
    }
  }

  /** A toolbar of at least one item survives being written as a list of names and read back. */
  lemma OptionRoundTrip(names: seq<string>, locations: seq<int>, order: seq<nat>, locations': seq<int>)
    requires |names| == |locations| == |locations'| > THROBBER_ITEM
    requires Distinct(names) && forall i :: 0 <= i < |names| ==> '/' !in names[i]
    requires Encodes(locations, order) && order != []
    requires Places(locations', Requested(names, Some(Join(NamesOf(names, order)))))
    ensures locations' == locations
  {
    WrittenOrderIsRead(names, order);
    EncodingUnique(locations, order, order);
    PlacesEncode(locations', order);
    forall i | 0 <= i < |locations|
      ensures locations'[i] == locations[i]
    {
      AbsentIsInactive(locations, order, i);
      if locations[i] != INACTIVE_LOCATION {
        PlaceOf(order, locations[i]);
      }
    }
  }
}
