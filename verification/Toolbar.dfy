/** The toolbar under customisation: an array of locations encodes the sequence of items, and
    the drop handlers shift locations in place. */
module Toolbars {
  import opened Common

  const INACTIVE_LOCATION := -1

  /** order lists the active items by location; all other items are inactive. */
  ghost predicate Encodes(locations: seq<int>, order: seq<nat>) {
    && (forall k :: 0 <= k < |order| ==> order[k] < |locations| && locations[order[k]] == k)
    && (forall i :: 0 <= i < |locations| ==>
          locations[i] == INACTIVE_LOCATION || (0 <= locations[i] < |order| && order[locations[i]] == i))
  }

  function Without(order: seq<nat>, item: nat): (r: seq<nat>) {
    if order == [] then []
    else if order[0] == item then order[1..]
    else [order[0]] + Without(order[1..], item)
  }

  function InsertAt(order: seq<nat>, p: nat, item: nat): seq<nat>
    requires p <= |order|
  {
    order[..p] + [item] + order[p..]
  }

  /** Where an item dropped at index p of the toolbar ends up once it has left its old place. */
  function DropIndex(order: seq<nat>, p: nat, item: nat): nat {
    if exists k :: 0 <= k < |order| && k < p && order[k] == item then p - 1 else p
  }

  // ----- what the handlers do to any array of locations

  /** No two items share a location that the handlers look at. */
  ghost predicate Separate(locations: seq<int>) {
    && (forall i :: 0 <= i < |locations| ==> locations[i] >= INACTIVE_LOCATION)
    && forall i, j :: 0 <= i < j < |locations| && 0 <= locations[i] <= |locations| ==> locations[i] != locations[j]
  }

  /** The first free location from k on. */
  function Gap(locations: seq<int>, k: nat): (g: nat)
    ensures k <= g && (k <= |locations| ==> g <= |locations|)
    ensures forall l :: k <= l < g ==> FirstIndex(locations, l) < |locations|
    ensures g < |locations| ==> FirstIndex(locations, g) == |locations|
    decreases |locations| - k
  {
    if k >= |locations| || FirstIndex(locations, k) == |locations| then k else Gap(locations, k + 1)
  }

  /** The item is gone, and what stood behind it up to the first gap has moved down. */
  function TakenOut(locations: seq<int>, item: nat): (r: seq<int>)
    requires item < |locations| && locations[item] >= 0
    ensures |r| == |locations|
  {
    var start := locations[item];
    var g := Gap(locations, start);
    seq(|locations|, i requires 0 <= i < |locations| =>
      if i == item then INACTIVE_LOCATION
      else if start <= locations[i] < g then locations[i] - 1
      else locations[i])
  }

  /** The item is at p, and what stood there and behind has moved up. */
  function PutAt(locations: seq<int>, item: nat, p: nat): (r: seq<int>)
    requires item < |locations|
    ensures |r| == |locations|
  {
    seq(|locations|, i requires 0 <= i < |locations| =>
      if i == item then p
      else if p <= locations[i] <= |locations| then locations[i] + 1
      else locations[i])
  }

  function Dropped(locations: seq<int>, item: nat, index: nat, made: bool): (r: seq<int>)
    requires item < |locations|
    ensures |r| == |locations|
  {
    var active := locations[item] >= 0;
    var rest := if active then TakenOut(locations, item) else locations;
    if made then PutAt(rest, item, if active && locations[item] < index then index - 1 else index) else rest
  }

  /** order lists the items from location 0 up to the first free location. */
  ghost predicate Shows(locations: seq<int>, order: seq<nat>) {
    && (forall k :: 0 <= k < |order| ==> order[k] < |locations| && locations[order[k]] == k)
    && forall i :: 0 <= i < |locations| ==> locations[i] != |order|
  }

  // ----- consequences of the encoding

  lemma NoShorterOrder(locations: seq<int>, order: seq<nat>, order': seq<nat>)
    requires Encodes(locations, order) && Encodes(locations, order')
    ensures |order| <= |order'|
  {
    if order != [] {
      assert locations[order[|order| - 1]] == |order| - 1;
    }
  }

  /** An array encodes at most one order; its items are distinct. */
  lemma EncodingUnique(locations: seq<int>, order: seq<nat>, order': seq<nat>)
    requires Encodes(locations, order) && Encodes(locations, order')
    ensures order == order' && Distinct(order)
  {
    NoShorterOrder(locations, order, order');
    NoShorterOrder(locations, order', order);
    forall k | 0 <= k < |order|
      ensures order[k] == order'[k]
    {
      assert locations[order[k]] == k;
    }
    forall j, k | 0 <= j < k < |order|
      ensures order[j] != order[k]
    {
      assert locations[order[j]] == j && locations[order[k]] == k;
    }
  }

  ghost function Elements(order: seq<nat>): (r: set<nat>)
    ensures forall x :: x in r <==> x in order
  {
    if order == [] then {} else
      assert order == order[..|order| - 1] + [order[|order| - 1]];
      Elements(order[..|order| - 1]) + {order[|order| - 1]}
  }

  ghost function Below(n: nat): (r: set<nat>)
    ensures forall x: nat :: x in r <==> x < n
    ensures |r| == n
  {
    if n == 0 then {} else Below(n - 1) + {n - 1}
  }

  lemma {:induction false} ElementsCounted(order: seq<nat>)
    requires Distinct(order)
    ensures |Elements(order)| == |order|
  {
    if order != [] {
      ElementsCounted(order[..|order| - 1]);
    }
  }

  /** There are no more active items than items. */
  lemma OrderFits(locations: seq<int>, order: seq<nat>)
    requires Encodes(locations, order)
    ensures |order| <= |locations| && Distinct(order)
  {
    EncodingUnique(locations, order, order);
    ElementsCounted(order);
    SubsetSize(Elements(order), Below(|locations|));
  }

  /** Active locations are a bijection with 0..m-1: the item at location k is order[k]. */
  lemma ItemAtLocation(locations: seq<int>, order: seq<nat>, location: int)
    requires Encodes(locations, order) && location != INACTIVE_LOCATION
    ensures FirstIndex(locations, location) == if 0 <= location < |order| then order[location] else |locations|
  {
    var i := FirstIndex(locations, location);
    if 0 <= location < |order| {
      assert locations[order[location]] == location;
    }
  }

  lemma {:induction false} WithoutAt(order: seq<nat>, k: nat)
    requires Distinct(order) && k < |order|
    ensures Without(order, order[k]) == order[..k] + order[k + 1..]
  {
    if k > 0 {
      WithoutAt(order[1..], k - 1);
      assert order[1..][..k - 1] == order[1..k] && order[1..][k..] == order[k + 1..];
      assert order[..k] == [order[0]] + order[1..k];
    }
  }

  lemma {:induction false} WithoutAbsent(order: seq<nat>, item: nat)
    requires item !in order
    ensures Without(order, item) == order
  {
    if order != [] {
      WithoutAbsent(order[1..], item);
    }
  }

  /** A drop only moves the dragged item: the others keep their order. */
  lemma {:induction false} OthersKeepOrder(rest: seq<nat>, p: nat, item: nat)
    requires p <= |rest| && item !in rest
    ensures Without(InsertAt(rest, p, item), item) == rest
  {
    if p > 0 {
      assert InsertAt(rest, p, item)[1..] == InsertAt(rest[1..], p - 1, item);
      OthersKeepOrder(rest[1..], p - 1, item);
    }
  }

  lemma DropIndexIs(order: seq<nat>, p: nat, item: nat, k: nat)
    requires Distinct(order) && k < |order| && order[k] == item
    ensures DropIndex(order, p, item) == if k < p then p - 1 else p
    ensures Without(order, item) == order[..k] + order[k + 1..]
  {
    WithoutAt(order, k);
  }

  /** Dropped at the index of another item, an item comes to stand directly before it. */
  lemma DropLandsBefore(order: seq<nat>, p: nat, item: nat)
    requires Distinct(order) && p < |order| && order[p] != item
    ensures var rest, q := Without(order, item), DropIndex(order, p, item);
            q < |rest| && InsertAt(rest, q, item)[q] == item && InsertAt(rest, q, item)[q + 1] == order[p]
  {
    if item in order {
      var k :| 0 <= k < |order| && order[k] == item;
      DropIndexIs(order, p, item, k);
      var rest, q := order[..k] + order[k + 1..], if k < p then p - 1 else p;
      assert rest[q] == order[p];
      assert InsertAt(rest, q, item)[q + 1] == rest[q];
    } else {
      WithoutAbsent(order, item);
    }
  }

  /** Dropped on either side of itself, an item stays where it was. */
  lemma DropInPlace(order: seq<nat>, k: nat, p: nat)
    requires Distinct(order) && k < |order| && (p == k || p == k + 1)
    ensures DropIndex(order, p, order[k]) == k && k <= |Without(order, order[k])|
    ensures InsertAt(Without(order, order[k]), k, order[k]) == order
  {
    DropIndexIs(order, p, order[k], k);
    assert order == order[..k] + [order[k]] + order[k + 1..];
  }

  // ----- the class

  /** itemid_from_location; the number of items stands for the placeholder. */
  method FindLocation(locations: array<int>, location: int) returns (itemid: nat)
    ensures itemid == FirstIndex(locations[..], location)
  {
    itemid := 0;
    while itemid < locations.Length
      invariant 0 <= itemid <= locations.Length
      invariant forall j :: 0 <= j < itemid ==> locations[j] != location
    {
      if locations[itemid] == location {
        break;
      }
      itemid := itemid + 1;
    }
    FirstIndexIs(locations[..], location, itemid);
  }

  class Customisation {
    const locations: array<int>
    var dragitem: int
    var dragfrom: bool

    ghost predicate Valid()
      reads this, locations
    {
      Separate(locations[..]) && -1 <= dragitem < locations.Length
    }

    constructor (items: nat)
      ensures locations.Length == items && fresh(locations) && Valid() && Encodes(locations[..], [])
    {
      locations := new int[items](_ => INACTIVE_LOCATION);
      dragitem, dragfrom := -1, false;
    }

    /** Close the gap a removed item leaves: it and all items behind it, up to the next gap, move
        down one place, then it becomes inactive. */
    method TakeOut(item: nat)
      requires Separate(locations[..]) && item < locations.Length && locations[item] != INACTIVE_LOCATION
      modifies locations
      ensures locations[..] == TakenOut(old(locations[..]), item)
    {
      ghost var before := locations[..];
      ghost var start: nat := before[item];
      var location := locations[item];
      while location < locations.Length
        invariant start <= location && ShiftedDown(before, start, location, locations[..])
        invariant Gap(before, location) == Gap(before, start)
        decreases locations.Length - location
      {
        ShiftedItem(before, start, location, locations[..]);
        var itemid := FindLocation(locations, location);
        if itemid == locations.Length {
          break;
        }
        locations[itemid] := locations[itemid] - 1;
        location := location + 1;
      }
      ShiftEnds(before, item, location, locations[..]);
      locations[item] := INACTIVE_LOCATION;
    }

    /** Make room at position p and put an inactive item there. */
    method PutIn(item: nat, p: nat)
      requires Separate(locations[..]) && item < locations.Length && locations[item] == INACTIVE_LOCATION
      modifies locations
      ensures locations[..] == PutAt(old(locations[..]), item, p)
    {
      ghost var before := locations[..];
      var location := locations.Length;
      while location >= p
        invariant location <= locations.Length
        invariant if p <= locations.Length then p - 1 <= location else location == locations.Length
        invariant ShiftedUp(before, location + 1, locations[..])
        decreases location
      {
        RoomItem(before, location, locations[..]);
        var itemid := FindLocation(locations, location);
        if itemid != locations.Length {
          locations[itemid] := locations[itemid] + 1;
        }
        location := location - 1;
      }
      locations[item] := p;
      assert locations[..] == PutAt(before, item, p);
    }

    /** Drop on the toolbox: the dragged item leaves the toolbar. */
    method DropOnToolbox()
      requires Valid()
      modifies this, locations
      ensures Valid() && dragitem == -1
      ensures locations[..]
           == if old(dragfrom) || old(dragitem) == -1 || old(locations[..])[old(dragitem)] == INACTIVE_LOCATION
              then old(locations[..])
              else TakenOut(old(locations[..]), old(dragitem))
    {
      if dragfrom || dragitem == -1 {
        dragitem := -1;
        return;
      }
      if locations[dragitem] == INACTIVE_LOCATION {
        dragitem := -1;
        return;
      }
      TakenOutSeparate(locations[..], dragitem);
      TakeOut(dragitem);
      dragitem := -1;
    }

    /** Drop on the toolbar at the index GTK reports; made says whether the new button could be
        created. */
    method DropOnToolbar(index: nat, made: bool)
      requires Valid()
      modifies this, locations
      ensures Valid()
      ensures old(dragitem) == -1 ==> dragitem == -1 && locations[..] == old(locations[..])
      ensures old(dragitem) != -1 ==>
                && dragitem == (if made then -1 else old(dragitem))
                && locations[..] == Dropped(old(locations[..]), old(dragitem), index, made)
    {
      var position := index;
      if dragitem == -1 {
        return;
      }
      if locations[dragitem] != INACTIVE_LOCATION {
        if locations[dragitem] < position {
          position := position - 1;
        }
        TakenOutSeparate(locations[..], dragitem);
        TakeOut(dragitem);
      }
      if !made {
        return;
      }
      PutAtSeparate(locations[..], dragitem, position);
      PutIn(dragitem, position);
      dragitem := -1;
    }
  }

  // ----- the loops

  /** In the middle of making room: what lay from location on has moved up. */
  ghost predicate ShiftedUp(before: seq<int>, location: int, now: seq<int>) {
    && |now| == |before|
    && forall i :: 0 <= i < |now| ==>
         now[i] == if location <= before[i] <= |before| then before[i] + 1 else before[i]
  }

  lemma RoomItem(before: seq<int>, location: int, now: seq<int>)
    requires Separate(before) && 0 <= location <= |before| && ShiftedUp(before, location + 1, now)
    ensures FirstIndex(now, location) == FirstIndex(before, location)
    ensures forall i :: 0 <= i < |before| && before[i] == location ==> i == FirstIndex(before, location)
  {
    FirstIndexIs(now, location, FirstIndex(before, location));
  }

  /** In the middle of the shift: what lay from start up to location has moved down. Two items
      may share location start - 1 meanwhile. */
  ghost predicate ShiftedDown(before: seq<int>, start: int, location: int, now: seq<int>) {
    && |now| == |before|
    && forall i :: 0 <= i < |now| ==>
         now[i] == if start <= before[i] < location then before[i] - 1 else before[i]
  }

  /** The next location still leads to the item that was there, and to no other; moving that one
      down goes on with the shift, and no item there means that the gap is reached. */
  lemma ShiftedItem(before: seq<int>, start: nat, location: int, now: seq<int>)
    requires Separate(before) && start <= location < |before| && ShiftedDown(before, start, location, now)
    ensures FirstIndex(now, location) == FirstIndex(before, location)
    ensures var i := FirstIndex(now, location);
            if i < |now| then
              ShiftedDown(before, start, location + 1, now[i := now[i] - 1])
              && Gap(before, location + 1) == Gap(before, location)
            else Gap(before, location) == location
  {
    FirstIndexIs(now, location, FirstIndex(before, location));
  }

  lemma ShiftEnds(before: seq<int>, item: nat, location: nat, now: seq<int>)
    requires item < |before| && 0 <= before[item] && Gap(before, before[item]) == location
    requires ShiftedDown(before, before[item], location, now)
    ensures now[item := INACTIVE_LOCATION] == TakenOut(before, item)
  {
  }

  // ----- the drops keep locations apart

  lemma TakenOutSeparate(locations: seq<int>, item: nat)
    requires Separate(locations) && item < |locations| && locations[item] >= 0
    ensures Separate(TakenOut(locations, item))
  {
  }

  lemma PutAtSeparate(locations: seq<int>, item: nat, p: nat)
    requires Separate(locations) && item < |locations| && locations[item] == INACTIVE_LOCATION
    ensures Separate(PutAt(locations, item, p))
  {
  }

  lemma DroppedSeparate(locations: seq<int>, item: nat, index: nat, made: bool)
    requires Separate(locations) && item < |locations|
    ensures Separate(Dropped(locations, item, index, made))
  {
    var active := locations[item] >= 0;
    if active {
      TakenOutSeparate(locations, item);
    }
    var rest := if active then TakenOut(locations, item) else locations;
    assert rest[item] == INACTIVE_LOCATION;
    PutAtSeparate(rest, item, if active && locations[item] < index then index - 1 else index);
  }

  // ----- the drops on the sequence of items

  lemma ShowsDistinct(locations: seq<int>, order: seq<nat>)
    requires Shows(locations, order)
    ensures Distinct(order) && |order| <= |locations|
  {
    forall j, k | 0 <= j < k < |order|
      ensures order[j] != order[k]
    {
      assert locations[order[j]] == j && locations[order[k]] == k;
    }
    ElementsCounted(order);
    SubsetSize(Elements(order), Below(|locations|));
  }

  /** A toolbar without gaps shows all its active items. */
  lemma EncodesIsShowsAll(locations: seq<int>, order: seq<nat>)
    requires Separate(locations)
    ensures Encodes(locations, order) <==>
              Shows(locations, order) && AllBelow(locations, |order|)
  {
    if Shows(locations, order) {
      ShowsDistinct(locations, order);
    }
  }

  /** An item is shown, inactive, or behind the first gap. */
  lemma WhereItemIs(locations: seq<int>, order: seq<nat>, item: nat)
    requires Separate(locations) && Shows(locations, order) && item < |locations|
    ensures item in order <==> 0 <= locations[item] < |order|
    ensures item in order ==> order[locations[item]] == item
  {
    ShowsDistinct(locations, order);
    var k := locations[item];
    if 0 <= k < |order| {
      assert locations[order[k]] == k;
    }
  }

  lemma {:induction false} GapIsEnd(locations: seq<int>, order: seq<nat>, k: nat)
    requires Shows(locations, order) && k <= |order|
    ensures Gap(locations, k) == |order|
    decreases |order| - k
  {
    ShowsDistinct(locations, order);
    if k < |order| {
      assert locations[order[k]] == k;
      GapIsEnd(locations, order, k + 1);
    }
  }

  /** Taking an item out deletes it from what the toolbar shows. */
  lemma TakenOutShows(locations: seq<int>, order: seq<nat>, item: nat)
    requires Separate(locations) && Shows(locations, order) && item < |locations| && locations[item] >= 0
    ensures Shows(TakenOut(locations, item), Without(order, item))
  {
    ShowsDistinct(locations, order);
    WhereItemIs(locations, order, item);
    if item in order {
      WithoutAt(order, locations[item]);
      GapIsEnd(locations, order, locations[item]);
      ClosedUp(locations, order, locations[item], TakenOut(locations, item));
    } else {
      WithoutAbsent(order, item);
      TakenFromBehind(locations, order, item);
    }
  }

  lemma TakenFromBehind(locations: seq<int>, order: seq<nat>, item: nat)
    requires Separate(locations) && Shows(locations, order) && |order| <= |locations|
    requires item < |locations| && locations[item] > |order|
    ensures Shows(TakenOut(locations, item), order)
  {
    var now := TakenOut(locations, item);
    forall i | 0 <= i < |now|
      ensures now[i] != |order|
    {
      assert locations[i] == locations[item] <= |locations| ==> i == item;
    }
  }

  lemma ClosedUp(before: seq<int>, order: seq<nat>, k: nat, now: seq<int>)
    requires Shows(before, order) && |now| == |before| && k < |order|
    requires forall i :: 0 <= i < |now| ==>
               now[i] == if i == order[k] then INACTIVE_LOCATION
                         else if k <= before[i] < |order| then before[i] - 1
                         else before[i]
    requires forall i :: 0 <= i < |before| && 0 <= before[i] < |order| ==> order[before[i]] == i
    ensures Shows(now, order[..k] + order[k + 1..])
  {
    var rest := order[..k] + order[k + 1..];
    forall j | 0 <= j < |rest|
      ensures rest[j] < |now| && now[rest[j]] == j
    {
      var j' := if j < k then j else j + 1;
      assert rest[j] == order[j'] && before[order[j']] == j';
      assert before[order[k]] == k;
    }
  }

  lemma RoomForOne(order: seq<nat>, item: nat, n: nat)
    requires Distinct(order) && item !in order && item < n && forall x :: x in order ==> x < n
    ensures |order| < n
  {
    DistinctSnoc(order, item);
    ElementsCounted(order + [item]);
    SubsetSize(Elements(order + [item]), Below(n));
  }

  /** Putting an item in inserts it into what the toolbar shows. */
  lemma PutAtShows(locations: seq<int>, order: seq<nat>, item: nat, p: nat)
    requires Separate(locations) && Shows(locations, order) && p <= |order|
    requires item < |locations| && locations[item] == INACTIVE_LOCATION
    ensures Shows(PutAt(locations, item, p), InsertAt(order, p, item))
  {
    ShowsDistinct(locations, order);
    WhereItemIs(locations, order, item);
    RoomForOne(order, item, |locations|);
    var now, grown := PutAt(locations, item, p), InsertAt(order, p, item);
    forall j | 0 <= j < |grown|
      ensures grown[j] < |now| && now[grown[j]] == j
    {
      if j != p {
        var j' := if j < p then j else j - 1;
        assert grown[j] == order[j'] && locations[order[j']] == j';
      }
    }
  }

  /** A drop on the toolbar, whatever gaps there are behind the items it shows: the dragged item
      leaves its place, the index is adjusted and the item inserted. */
  lemma DroppedShows(locations: seq<int>, order: seq<nat>, item: nat, index: nat, made: bool)
    requires Separate(locations) && Shows(locations, order) && item < |locations| && index <= |order|
    ensures var rest, q := Without(order, item), DropIndex(order, index, item);
            && q <= |rest|
            && Shows(Dropped(locations, item, index, made), if made then InsertAt(rest, q, item) else rest)
  {
    ShowsDistinct(locations, order);
    WhereItemIs(locations, order, item);
    var rest, k := Without(order, item), locations[item];
    if item in order {
      DropIndexIs(order, index, item, k);
    } else {
      WithoutAbsent(order, item);
    }
    if k >= 0 {
      TakenOutShows(locations, order, item);
      TakenOutSeparate(locations, item);
    }
    var left := if k >= 0 then TakenOut(locations, item) else locations;
    assert left[item] == INACTIVE_LOCATION;
    PutAtShows(left, rest, item, DropIndex(order, index, item));
  }

  // ----- toolbars without gaps

  lemma EncodesSeparate(locations: seq<int>, order: seq<nat>)
    requires Encodes(locations, order)
    ensures Separate(locations) && Distinct(order)
  {
    EncodingUnique(locations, order, order);
    forall i, j | 0 <= i < j < |locations| && 0 <= locations[i] <= |locations|
      ensures locations[i] != locations[j]
    {
      assert order[locations[i]] == i;
    }
  }

  lemma AbsentIsInactive(locations: seq<int>, order: seq<nat>, item: nat)
    requires Encodes(locations, order) && item < |locations|
    ensures locations[item] == INACTIVE_LOCATION <==> item !in order
  {
    if locations[item] != INACTIVE_LOCATION {
      assert order[locations[item]] == item;
    }
  }

  ghost predicate AllBelow(locations: seq<int>, n: nat) {
    forall i :: 0 <= i < |locations| ==> locations[i] < n
  }

  lemma TakenOutBelow(locations: seq<int>, item: nat, n: nat)
    requires Separate(locations) && AllBelow(locations, n) && n <= |locations|
    requires item < |locations| && locations[item] >= 0 && Gap(locations, locations[item]) == n
    ensures AllBelow(TakenOut(locations, item), n - 1)
  {
  }

  lemma PutAtBelow(locations: seq<int>, item: nat, p: nat, n: nat)
    requires AllBelow(locations, n) && item < |locations| && p <= n
    ensures AllBelow(PutAt(locations, item, p), n + 1)
  {
  }

  /** Drops leave a toolbar without gaps without gaps. */
  lemma TakenOutEncodes(locations: seq<int>, order: seq<nat>, item: nat)
    requires Encodes(locations, order) && item < |locations| && locations[item] >= 0
    ensures Encodes(TakenOut(locations, item), Without(order, item)) && |Without(order, item)| == |order| - 1
  {
    EncodesSeparate(locations, order);
    EncodesIsShowsAll(locations, order);
    ShowsDistinct(locations, order);
    WhereItemIs(locations, order, item);
    WithoutAt(order, locations[item]);
    GapIsEnd(locations, order, locations[item]);
    TakenOutBelow(locations, item, |order|);
    TakenOutShows(locations, order, item);
    TakenOutSeparate(locations, item);
    EncodesIsShowsAll(TakenOut(locations, item), Without(order, item));
  }

  lemma PutAtEncodes(locations: seq<int>, order: seq<nat>, item: nat, p: nat)
    requires Encodes(locations, order) && p <= |order|
    requires item < |locations| && locations[item] == INACTIVE_LOCATION
    ensures Encodes(PutAt(locations, item, p), InsertAt(order, p, item))
  {
    EncodesSeparate(locations, order);
    EncodesIsShowsAll(locations, order);
    PutAtBelow(locations, item, p, |order|);
    PutAtShows(locations, order, item, p);
    PutAtSeparate(locations, item, p);
    EncodesIsShowsAll(PutAt(locations, item, p), InsertAt(order, p, item));
  }

  lemma DroppedEncodes(locations: seq<int>, order: seq<nat>, item: nat, index: nat, made: bool)
    requires Encodes(locations, order) && item < |locations| && index <= |order|
    ensures var rest, q := Without(order, item), DropIndex(order, index, item);
            && q <= |rest|
            && Encodes(Dropped(locations, item, index, made), if made then InsertAt(rest, q, item) else rest)
  {
    EncodesSeparate(locations, order);
    EncodesIsShowsAll(locations, order);
    WhereItemIs(locations, order, item);
    if locations[item] >= 0 {
      DropIndexIs(order, index, item, locations[item]);
      TakenOutEncodes(locations, order, item);
      PutAtEncodes(TakenOut(locations, item), Without(order, item), item, DropIndex(order, index, item));
    } else {
      WithoutAbsent(order, item);
      PutAtEncodes(locations, order, item, index);
    }
  }
}
