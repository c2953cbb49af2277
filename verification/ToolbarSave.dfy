/** Writing the toolbar back to the options. The buffer is sized without room for the last
    NUL, so a toolbar without gaps is never saved. */
module ToolbarSaves {
  import opened Common
  import opened Toolbars
  import opened ToolbarOptions

  /** A buffer that is stored without having been written has no text. */
  datatype SaveResult = Invalid | Unknown | Saved(text: Option<string>)

  function Weight(names: seq<string>, i: nat): (w: nat)
    requires i < |names|
    ensures w > 0
  {
    |names[i]| + 1
  }

  /** The bytes the active items among the first n need that are not in done. */
  ghost function Needed(names: seq<string>, locations: seq<int>, n: nat, done: set<nat>): nat
    requires n <= |names| == |locations|
  {
    if n == 0 then 0
    else
      Needed(names, locations, n - 1, done)
      + if locations[n - 1] != INACTIVE_LOCATION && n - 1 !in done then Weight(names, n - 1) else 0
  }

  lemma {:induction false} NeededWithout(names: seq<string>, locations: seq<int>, n: nat, done: set<nat>, i: nat)
    requires n <= |names| == |locations| && i !in done
    requires i < n ==> locations[i] != INACTIVE_LOCATION
    ensures Needed(names, locations, n, done)
         == Needed(names, locations, n, done + {i}) + if i < n then Weight(names, i) else 0
  {
    if n > 0 {
      NeededWithout(names, locations, n - 1, done, i);
    }
  }

  /** Nothing is needed exactly when every active item is done. */
  lemma {:induction false} NothingNeeded(names: seq<string>, locations: seq<int>, n: nat, done: set<nat>)
    requires n <= |names| == |locations|
    ensures Needed(names, locations, n, done) == 0 <==>
              forall i :: 0 <= i < n && locations[i] != INACTIVE_LOCATION ==> i in done
  {
    if n > 0 {
      NothingNeeded(names, locations, n - 1, done);
    }
  }

  ghost predicate SomeActive(locations: seq<int>) {
    exists i :: 0 <= i < |locations| && locations[i] != INACTIVE_LOCATION
  }

  /** The first loop: room for every active name and a separator. */
  method OrderLength(names: seq<string>, locations: array<int>) returns (orderlen: nat)
    requires locations.Length == |names|
    ensures orderlen == Needed(names, locations[..], |names|, {})
    ensures orderlen == 0 <==> !SomeActive(locations[..])
  {
    orderlen := 0;
    for iidx := 0 to |names|
      invariant orderlen == Needed(names, locations[..], iidx, {})
    {
      if locations[iidx] != INACTIVE_LOCATION {
        orderlen := orderlen + |names[iidx]|;
        orderlen := orderlen + 1;
      }
    }
    NothingNeeded(names, locations[..], |names|, {});
  }

  /** The part of the walk before a location. */
  ghost predicate Walked(locations: seq<int>, walked: seq<nat>, location: nat) {
    && location <= |locations| && |walked| == location
    && walked + Walk(locations, location) == Walk(locations, 0)
  }

  /** Write one more name: done grows by it, and it exhausts the buffer exactly when no
      active item is left. */
  lemma WriteStep(names: seq<string>, locations: seq<int>, walked: seq<nat>, location: nat, itemid: nat)
    requires |names| == |locations| && Walked(locations, walked, location) && location < |locations|
    requires itemid == FirstIndex(locations, location) < |locations|
    ensures itemid !in Elements(walked) && Elements(walked + [itemid]) == Elements(walked) + {itemid}
    ensures Walked(locations, walked + [itemid], location + 1)
    ensures Needed(names, locations, |names|, Elements(walked))
         == Weight(names, itemid) + Needed(names, locations, |names|, Elements(walked + [itemid]))
  {
    var walk := Walk(locations, 0);
    assert walk[..location] == walked;
    assert forall j :: 0 <= j < |walked| ==> walked[j] == walk[j] && locations[walk[j]] == j;
    ConcatAssociates(walked, [itemid], Walk(locations, location + 1));
    NeededWithout(names, locations, |names|, Elements(walked), itemid);
    assert Elements(walked + [itemid]) == Elements(walked) + {itemid};
  }

  lemma WalkEnds(names: seq<string>, locations: seq<int>, walked: seq<nat>, location: nat)
    requires |names| == |locations| && Walked(locations, walked, location) && Walk(locations, location) == []
    ensures walked == Walk(locations, 0)
    ensures Needed(names, locations, |names|, Elements(walked)) == 0 <==> WalkIsComplete(locations)
  {
    assert walked + [] == walked;
    NothingNeeded(names, locations, |names|, Elements(walked));
  }

  lemma WalkCovers(names: seq<string>, locations: seq<int>, walked: seq<nat>, location: nat)
    requires |names| == |locations| && Walked(locations, walked, location)
    requires Needed(names, locations, |names|, Elements(walked)) == 0
    ensures WalkIsComplete(locations)
  {
    NothingNeeded(names, locations, |names|, Elements(walked));
    assert forall i :: i in walked ==> i in walked + Walk(locations, location);
  }

  lemma {:induction false} JoinAppend(a: seq<string>, b: seq<string>)
    ensures Join(a + b) == Join(a) + Join(b)
  {
    if a == [] {
      assert a + b == b;
    } else {
      assert (a + b)[1..] == a[1..] + b;
      JoinAppend(a[1..], b);
      ConcatAssociates(a[0] + "/", Join(a[1..]), Join(b));
    }
  }

  lemma JoinNext(names: seq<string>, walked: seq<nat>, itemid: nat)
    requires itemid < |names| && forall k :: 0 <= k < |walked| ==> walked[k] < |names|
    ensures Join(NamesOf(names, walked + [itemid])) == Join(NamesOf(names, walked)) + names[itemid] + "/"
  {
    assert NamesOf(names, walked + [itemid]) == NamesOf(names, walked) + [names[itemid]];
    JoinAppend(NamesOf(names, walked), [names[itemid]]);
    assert [names[itemid]][1..] == [];
    assert Join([names[itemid]]) == names[itemid] + "/" + "" == names[itemid] + "/";
    ConcatAssociates(Join(NamesOf(names, walked)), names[itemid], "/");
  }

  ghost predicate NoneAtStart(locations: seq<int>) {
    forall i :: 0 <= i < |locations| ==> locations[i] != 0
  }

  /** The text of the names met so far, if one has been written. */
  ghost function Written(names: seq<string>, walked: seq<nat>): (text: Option<string>)
    requires forall k :: 0 <= k < |walked| ==> walked[k] < |names|
  {
    if walked == [] then None else Some(Join(NamesOf(names, walked)))
  }

  /** The names walked are written, and the space left is what the other active items need. */
  ghost predicate Writing(names: seq<string>, locs: seq<int>, walked: seq<nat>, location: nat, orderlen: nat,
                          start: nat, text: Option<string>)
  {
    && |names| == |locs| && Walked(locs, walked, location)
    && (forall k :: 0 <= k < |walked| ==> walked[k] < |names|)
    && text == Written(names, walked) && start == |Join(NamesOf(names, walked))|
    && orderlen == start + Needed(names, locs, |names|, Elements(walked))
  }

  lemma WritingBegins(names: seq<string>, locs: seq<int>, orderlen: nat)
    requires |names| == |locs| && orderlen == Needed(names, locs, |names|, {})
    ensures Writing(names, locs, [], 0, orderlen, 0, None)
  {
    assert [] + Walk(locs, 0) == Walk(locs, 0);
  }

  /** One more name: it fits with its NUL exactly when some active item is left. */
  lemma WritingGoesOn(names: seq<string>, locs: seq<int>, walked: seq<nat>, location: nat, orderlen: nat,
                      start: nat, text: Option<string>, itemid: nat)
    requires Writing(names, locs, walked, location, orderlen, start, text) && location < |locs|
    requires itemid == FirstIndex(locs, location) < |locs|
    ensures Writing(names, locs, walked + [itemid], location + 1, orderlen, start + |names[itemid]| + 1,
                    Some((if text.None? then "" else text.value) + names[itemid] + "/"))
    ensures start + |names[itemid]| + 1 <= orderlen
    ensures start + |names[itemid]| + 1 == orderlen ==> WalkIsComplete(locs)
  {
    WriteStep(names, locs, walked, location, itemid);
    JoinNext(names, walked, itemid);
    if start + |names[itemid]| + 1 == orderlen {
      WalkCovers(names, locs, walked + [itemid], location + 1);
    }
  }

  /** nsgtk_toolbar_customisation_save, up to storing the string. Saving goes through exactly
      when some active item is not met by the walk; then the names met are stored, or a buffer
      nobody has written exactly when no item is at location 0. */
  method Save(names: seq<string>, locations: array<int>) returns (r: SaveResult)
    requires locations.Length == |names|
    ensures r.Invalid? <==> !SomeActive(locations[..])
    ensures r.Unknown? <==> SomeActive(locations[..]) && WalkIsComplete(locations[..])
    ensures r.Saved? <==> !WalkIsComplete(locations[..])
    ensures r.Saved? && r.text.None? <==> SomeActive(locations[..]) && NoneAtStart(locations[..])
    ensures r.Saved? && r.text.Some? ==> r.text.value == Join(NamesOf(names, Walk(locations[..], 0)))
  {
    ghost var locs := locations[..];
    var orderlen := OrderLength(names, locations);
    if orderlen == 0 {
      assert WalkIsComplete(locs);
      return Invalid;
    }
    var text, start: nat := None, 0;
    var location := 0;
    ghost var walked: seq<nat> := [];
    WritingBegins(names, locs, orderlen);
    while location < locations.Length
      invariant Writing(names, locs, walked, location, orderlen, start, text) && start < orderlen
      decreases locations.Length - location
    {
      var itemid := FindLocation(locations, location);
      if itemid == locations.Length {
        break;
      }
      WritingGoesOn(names, locs, walked, location, orderlen, start, text, itemid);
      walked := walked + [itemid];
      var written := |names[itemid]| + 1;
      if written >= orderlen - start {
        return Unknown;
      }
      text := Some((if text.None? then "" else text.value) + names[itemid] + "/");
      start := start + written;
      if start >= orderlen {
        break;
      }
      location := location + 1;
    }
    WalkEnds(names, locs, walked, location);
    return Saved(text);
  }

  /** An option leaves no item at location 0 exactly when its first item is named again. */
  lemma FirstNamedAgain(locations: seq<int>, items: seq<nat>)
    requires Places(locations, items) && items != [] && forall k :: 0 <= k < |items| ==> items[k] < |locations|
    ensures SomeActive(locations)
    ensures NoneAtStart(locations) <==> items[0] in items[1..]
  {
    var first := items[0];
    assert first in items && locations[first] == LastPlace(items, first);
    if first in items[1..] {
      LastPlaceOfRepeat(items);
    }
  }

  lemma LastPlaceOfRepeat(items: seq<nat>)
    requires items != [] && items[0] in items[1..]
    ensures forall item :: LastPlace(items, item) != 0
  {
    forall item
      ensures LastPlace(items, item) != 0
    {
      assert items == [items[0]] + items[1..];
    }
  }

  /** A toolbar without gaps, such as every sequence of drops leaves, is never saved. */
  lemma GapFreeToolbarIsNotSaved(locations: seq<int>, order: seq<nat>)
    requires Encodes(locations, order)
    ensures WalkIsComplete(locations) && (SomeActive(locations) <==> order != [])
  {
    DistinctWalk(locations, order);
    if order != [] {
      assert locations[order[0]] == 0;
    }
  }
}
