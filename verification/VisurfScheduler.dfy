/** The visurf scheduler on the heap: a singly linked list, spliced in place, and the dispatch
    loop of the main program. */
module VisurfSchedulers {
  import opened Common
  import opened TimerTable
  import opened Timespecs
  import opened VisurfSchedule

  class Node {
    var callback: nat
    var p: nat
    var due: Timespec
    var next: Node?

    constructor (callback: nat, p: nat, due: Timespec, next: Node?)
      ensures this.callback == callback && this.p == p && this.due == due && this.next == next
    {
      this.callback, this.p, this.due, this.next := callback, p, due, next;
    }

    ghost function Abstract(): Timer
      reads this`callback, this`p, this`due
    {
      Cell(Some(Key(callback, p)), due)
    }
  }

  ghost function Cells(nodes: seq<Node>): (cells: seq<Timer>)
    reads nodes
    ensures Shows(nodes, cells)
  {
    seq(|nodes|, i requires 0 <= i < |nodes| reads nodes => nodes[i].Abstract())
  }

  /** The nodes carry these timers, in this order. */
  ghost predicate Shows(nodes: seq<Node>, cells: seq<Timer>)
    reads nodes`callback, nodes`p, nodes`due
  {
    |cells| == |nodes| && forall i :: 0 <= i < |nodes| ==> nodes[i].Abstract() == cells[i]
  }

  lemma ShowsWithout(nodes: seq<Node>, cells: seq<Timer>, i: nat)
    requires Shows(nodes, cells) && i < |nodes|
    ensures Shows(nodes[..i] + nodes[i + 1..], cells[..i] + cells[i + 1..])
  {
  }

  /** The nodes are linked in this order, ending in null. */
  ghost predicate Chain(nodes: seq<Node>)
    reads nodes`next
  {
    && Distinct(nodes)
    && forall i {:trigger nodes[i].next} :: 0 <= i < |nodes| ==> nodes[i].next == NodeAt(nodes, i + 1)
  }

  ghost predicate NoneDueBefore(timers: seq<Timer>, i: nat, now: Timespec) {
    i <= |timers| && forall j :: 0 <= j < i ==> !IsDue(timers[j], now)
  }

  /** The node at a position, null past the end. */
  ghost function NodeAt(nodes: seq<Node>, i: nat): Node? {
    if i < |nodes| then nodes[i] else null
  }

  /** The progress of the dispatch loop: the timers fired, the dispatches it can still take, the
      position of the scan and of the earliest timer before it. */
  datatype Scan = Scan(fired: seq<Timer>, fuel: nat, i: nat, index: Option<nat>)

  class Callbacks {
    var head: Node?
    ghost var nodes: seq<Node>
    ghost var repr: set<Node>

    ghost predicate Linked()
      reads this, repr
    {
      (forall o :: o in nodes ==> o in repr) && Chain(nodes) && head == NodeAt(nodes, 0)
    }

    ghost predicate Valid()
      reads this, repr
    {
      Linked() && Inv(Model())
    }

    ghost function Model(): seq<Timer>
      reads this, repr
      requires Linked()
    {
      Cells(nodes)
    }

    constructor ()
      ensures Valid() && Model() == [] && repr == {}
    {
      head, nodes, repr := null, [], {};
    }

    /** *prev = next, where prev points into nodes[i - 1], or at the head, and next is what
        follows nodes[i]. */
    method Splice(prev: Node?, next: Node?, ghost i: nat, ghost cells: seq<Timer>)
      requires Linked() && i < |nodes| && next == nodes[i].next && Shows(nodes, cells)
      requires if i == 0 then prev == null else prev == nodes[i - 1]
      modifies this`head, this`nodes, repr`next
      ensures nodes == old(nodes[..i]) + old(nodes[i + 1..]) && |nodes| == old(|nodes|) - 1
      ensures Linked() && next == NodeAt(nodes, i) && Shows(nodes, cells[..i] + cells[i + 1..])
    {
      ghost var was := nodes;
      assert next == NodeAt(was, i + 1);
      if prev == null {
        head := next;
      } else {
        prev.next := next;
      }
      nodes := was[..i] + was[i + 1..];
      ShowsWithout(was, cells, i);
      forall j | 0 <= j < |nodes|
        ensures nodes[j].next == NodeAt(nodes, j + 1)
      {
        if j + 1 < i {
          assert nodes[j] == was[j] && was[j].next == NodeAt(was, j + 1);
        } else if j + 1 > i {
          assert nodes[j] == was[j + 1] && was[j + 1] != prev && was[j + 1].next == NodeAt(was, j + 2);
        }
      }
    }

    /** Splice out a node of the key, which leaves what dropping the key is to give. */
    method UnlinkNode(prev: Node?, next: Node?, ghost key: Key, ghost i: nat, ghost cells: seq<Timer>,
                      ghost goal: seq<Timer>)
      returns (ghost rest: seq<Timer>)
      requires Linked() && i < |nodes| && next == nodes[i].next && Shows(nodes, cells)
      requires if i == 0 then prev == null else prev == nodes[i - 1]
      requires cells[i].key == Some(key) && cells[..i] + Drop(cells[i..], key) == goal
      modifies this`head, this`nodes, repr`next
      ensures Linked() && |nodes| == old(|nodes|) - 1 && Shows(nodes, rest)
      ensures next == NodeAt(nodes, i) && (i > 0 ==> prev == nodes[i - 1])
      ensures rest[..i] + Drop(rest[i..], key) == goal
    {
      DropStep(cells, key, i, goal);
      Splice(prev, next, i, cells);
      rest := cells[..i] + cells[i + 1..];
    }

    /** Walk the list with prev one step behind and unlink every timer of a key. */
    method Unlink(callback: nat, p: nat, ghost timers: seq<Timer>) returns (found: bool)
      requires Linked() && Shows(nodes, timers)
      modifies this`head, this`nodes, repr`next
      ensures Linked() && Shows(nodes, Drop(timers, Key(callback, p)))
      ensures found == (|nodes| < old(|nodes|))
    {
      ghost var key, goal := Key(callback, p), Drop(timers, Key(callback, p));
      var prev: Node? := null;
      var cb := head;
      ghost var i, cells := 0, timers;
      found := false;
      DropBegins(timers, key);
      while cb != null
        invariant Linked() && Shows(nodes, cells)
        invariant i <= |nodes| && cb == NodeAt(nodes, i)
        invariant if i == 0 then prev == null else prev == nodes[i - 1]
        invariant cells[..i] + Drop(cells[i..], key) == goal
        invariant |nodes| <= old(|nodes|) && found == (|nodes| < old(|nodes|))
        decreases |nodes| - i
      {
        var next := cb.next;
        assert cells[i] == cb.Abstract();
        if cb.callback == callback && cb.p == p {
          cells := UnlinkNode(prev, next, key, i, cells, goal);
          found := true;
        } else {
          DropStep(cells, key, i, goal);
          prev := cb;
          i := i + 1;
        }
        cb := next;
      }
      DropDone(cells, key, goal);
    }

    /** nsvi_schedule_remove */
    method Remove(callback: nat, p: nat) returns (found: bool)
      requires Valid()
      modifies this`head, this`nodes, repr`next
      ensures Valid() && Model() == Drop(old(Model()), Key(callback, p))
      ensures found == HasKey(old(Model()), Key(callback, p))
    {
      DropKeepsInv(Model(), Key(callback, p));
      DropLength(Model(), Key(callback, p));
      found := Unlink(callback, p, Model());
    }

    method Prepend(callback: nat, p: nat, due: Timespec)
      requires Linked() && Inv([Cell(Some(Key(callback, p)), due)] + Model())
      modifies this
      ensures Valid() && fresh(repr - old(repr))
      ensures Model() == [Cell(Some(Key(callback, p)), due)] + old(Model())
    {
      ghost var was, cells := nodes, Model();
      var cb := new Node(callback, p, due, head);
      nodes := [cb] + nodes;
      head := cb;
      repr := repr + {cb};
      assert forall j :: 1 <= j < |nodes| ==> nodes[j] == was[j - 1];
      assert Model() == [cb.Abstract()] + cells;
    }

    /** nsvi_misc_schedule; clock is what clock_gettime returns. */
    method Schedule(ms: int, callback: nat, p: nat, clock: Timespec) returns (ok: bool)
      requires Valid() && Normalized(clock)
      modifies this, repr
      ensures Valid() && fresh(repr - old(repr))
      ensures (Model(), ok) == ScheduleCall(old(Model()), Call(ms, Key(callback, p), clock))
      ensures ms >= 0 ==> head != null && head.callback == callback && head.p == p
      ensures ms >= 0 ==> ToNsec(head.due) == ToNsec(clock) + ms * 1_000_000
    {
      ghost var list := ScheduleCall(Model(), Call(ms, Key(callback, p), clock)).0;
      ScheduleKeepsInv(Model(), Call(ms, Key(callback, p), clock));
      ok := Remove(callback, p);
      if ms < 0 {
        return;
      }
      var due := AddMsec(clock, ms);
      assert [Cell(Some(Key(callback, p)), due)] + Model() == list;
      Prepend(callback, p, due);
      ok := true;
    }

    /** What a callback does to the scheduler while it runs. */
    method Perform(calls: seq<Call>)
      requires Valid() && forall i :: 0 <= i < |calls| ==> Normalized(calls[i].clock)
      modifies this, repr
      ensures Valid() && fresh(repr - old(repr)) && Model() == ApplyCalls(old(Model()), calls)
    {
      ghost var goal := ApplyCalls(Model(), calls);
      for i := 0 to |calls|
        invariant Valid() && fresh(repr - old(repr)) && ApplyCalls(Model(), calls[i..]) == goal
      {
        assert calls[i..][0] == calls[i] && calls[i..][1..] == calls[i + 1..];
        var _ := Schedule(calls[i].ms, calls[i].key.callback, calls[i].key.context, calls[i].clock);
      }
    }

    /** Copy a due timer, unlink it and call its function. */
    method Fire(cb: Node, ghost i: nat, calls: seq<Call>)
      requires Valid() && i < |nodes| && nodes[i] == cb
      requires forall j :: 0 <= j < |calls| ==> Normalized(calls[j].clock)
      modifies this, repr
      ensures Valid() && fresh(repr - old(repr)) && Model() == AfterDispatch(old(Model()), i, calls)
    {
      var callback, p := cb.callback, cb.p;
      var _ := Remove(callback, p);
      Perform(calls);
    }

    ghost predicate Designates(next: Node?, index: Option<nat>)
      reads this`nodes
    {
      match index
      case None => next == null
      case Some(k) => k < |nodes| && next == nodes[k]
    }

    /** Keep the earlier of next and the timer behind it in the scan. */
    method Earlier(cb: Node, next: Node?, ghost i: nat, ghost index: Option<nat>)
      returns (earlier: Node?, ghost index': Option<nat>)
      requires Valid() && i < |nodes| && cb == nodes[i]
      requires IsNext(Model()[..i], index) && Designates(next, index)
      ensures IsNext(Model()[..i + 1], index') && Designates(earlier, index')
      ensures earlier in nodes[..i + 1]
      ensures forall j :: 0 <= j <= i ==> ToNsec(earlier.due) <= ToNsec(nodes[j].due)
    {
      NextStep(Model(), index, i);
      if next == null {
        return cb, Some(i);
      }
      var ns := SubToNsec(cb.due, next.due);
      if ns <= 0 {
        return cb, Some(i);
      }
      return next, index;
    }

    /** Where the dispatch loop is: it has fired some timers, is on its course to the goal, and
        has scanned the first i timers, none of them due, next being an earliest of these. */
    ghost predicate Scanning(cb: Node?, next: Node?, now: Timespec, behave: nat -> seq<Call>, scan: Scan,
                             goal: (seq<Timer>, seq<Timer>))
      reads this, repr
    {
      && Valid() && OnCourse(Model(), scan.fired, behave, now, scan.fuel, goal)
      && NoneDueBefore(Model(), scan.i, now) && cb == NodeAt(nodes, scan.i)
      && IsNext(Model()[..scan.i], scan.index) && Designates(next, scan.index)
    }

    /** Fire the first due timer and start over. */
    method FireDue(cb: Node, next: Node?, now: Timespec, calls: seq<Call>, ghost behave: nat -> seq<Call>,
                   ghost scan: Scan, ghost goal: (seq<Timer>, seq<Timer>))
      returns (after: Node?, ghost scan': Scan)
      requires Scanning(cb, next, now, behave, scan, goal) && calls == behave(|scan.fired|)
      requires IsDue(Model()[scan.i], now) && forall j :: 0 <= j < |calls| ==> Normalized(calls[j].clock)
      modifies this, repr
      ensures Scanning(after, null, now, behave, scan', goal) && fresh(repr - old(repr))
      ensures |scan'.fired| == |scan.fired| + 1 && scan'.fuel < scan.fuel
    {
      CourseStep(Model(), scan.fired, behave, now, scan.fuel, goal, scan.i);
      scan' := Scan(scan.fired + [Model()[scan.i]], scan.fuel - 1, 0, None);
      Fire(cb, scan.i, calls);
      after := head;
    }

    /** Step over a timer that is not due yet. */
    method PassOver(cb: Node, next: Node?, now: Timespec, ghost behave: nat -> seq<Call>, ghost scan: Scan,
                    ghost goal: (seq<Timer>, seq<Timer>))
      returns (after: Node?, earlier: Node?, ghost scan': Scan)
      requires Scanning(cb, next, now, behave, scan, goal) && !IsDue(Model()[scan.i], now)
      ensures Scanning(after, earlier, now, behave, scan', goal)
      ensures scan'.fired == scan.fired && scan'.fuel == scan.fuel && scan'.i == scan.i + 1 <= |nodes|
      ensures after == cb.next && (earlier == cb || earlier == next)
    {
      ghost var index;
      earlier, index := Earlier(cb, next, scan.i, scan.index);
      after := cb.next;
      scan' := scan.(i := scan.i + 1, index := index);
    }

    /** One round: fire a due timer, or step over one that is not due. */
    method Round(cb: Node, next: Node?, now: Timespec, calls: seq<Call>, ghost behave: nat -> seq<Call>,
                 ghost scan: Scan, ghost goal: (seq<Timer>, seq<Timer>))
      returns (fires: bool, after: Node?, earlier: Node?, ghost scan': Scan)
      requires Scanning(cb, next, now, behave, scan, goal) && calls == behave(|scan.fired|)
      requires forall j :: 0 <= j < |calls| ==> Normalized(calls[j].clock)
      modifies this, repr
      ensures Scanning(after, earlier, now, behave, scan', goal) && fresh(repr - old(repr))
      ensures |scan'.fired| == |scan.fired| + if fires then 1 else 0
      ensures if fires then scan'.fuel < scan.fuel
              else nodes == old(nodes) && scan'.fuel == scan.fuel && scan'.i == scan.i + 1 <= |nodes|
    {
      var ns := SubToNsec(cb.due, now);
      assert Model()[scan.i] == cb.Abstract();
      fires, earlier := ns <= 0, null;
      if fires {
        after, scan' := FireDue(cb, next, now, calls, behave, scan, goal);
      } else {
        after, earlier, scan' := PassOver(cb, next, now, behave, scan, goal);
      }
    }

    /** The dispatch loop: fire what is due, starting over each time, and find the next timer.
        behave(n) are the calls the n-th fired callback makes. When the loop ends nothing is due
        and next is an earliest remaining timer. */
    method DispatchDue(now: Timespec, behave: nat -> seq<Call>)
      returns (next: Node?, ghost index: Option<nat>, ghost fired: seq<Timer>)
      requires Valid() && Ends(Model(), behave, 0, now)
      requires forall n: nat, i :: 0 <= i < |behave(n)| ==> Normalized(behave(n)[i].clock)
      modifies this, repr
      ensures Valid() && fresh(repr - old(repr))
      ensures Dispatch(old(Model()), behave, 0, now, |fired|) == Some((Model(), fired))
      ensures NoneDueBefore(Model(), |nodes|, now)
      ensures IsNext(Model(), index) && Designates(next, index)
      ensures forall j :: 0 <= j < |nodes| ==> ToNsec(nodes[j].due) > ToNsec(now)
      ensures next == null <==> nodes == []
      ensures next != null ==>
                exists k :: 0 <= k < |nodes| && nodes[k] == next
                            && (forall j :: 0 <= j < |nodes| ==> ToNsec(next.due) <= ToNsec(nodes[j].due))
                            && (forall j :: k < j < |nodes| ==> ToNsec(next.due) < ToNsec(nodes[j].due))
    {
      ghost var scan, goal;
      next := null;
      var cb, n := head, 0;
      scan, goal := ScanBegins(now, behave);
      while cb != null
        invariant Scanning(cb, next, now, behave, scan, goal)
        invariant fresh(repr - old(repr)) && n == |scan.fired|
        decreases scan.fuel, |nodes| - scan.i
      {
        var fires;
        fires, cb, next, scan := Round(cb, next, now, behave(n), behave, scan, goal);
        n := if fires then n + 1 else n;
      }
      ScanEnds(next, now, behave, scan, goal);
      index, fired := scan.index, scan.fired;
    }

    lemma ScanBegins(now: Timespec, behave: nat -> seq<Call>) returns (scan: Scan, goal: (seq<Timer>, seq<Timer>))
      requires Valid() && Ends(Model(), behave, 0, now)
      ensures Scanning(head, null, now, behave, scan, goal) && scan.fired == []
      ensures Dispatch(Model(), behave, 0, now, |goal.1|) == Some(goal)
    {
      var fuel;
      fuel, goal := CourseBegins(Model(), behave, now);
      scan := Scan([], fuel, 0, None);
    }

    lemma ScanEnds(next: Node?, now: Timespec, behave: nat -> seq<Call>, scan: Scan, goal: (seq<Timer>, seq<Timer>))
      requires Scanning(null, next, now, behave, scan, goal)
      ensures goal == (Model(), scan.fired) && NoneDueBefore(Model(), |nodes|, now) && IsNext(Model(), scan.index)
      ensures forall j :: 0 <= j < |nodes| ==> ToNsec(nodes[j].due) > ToNsec(now)
      ensures next == null <==> nodes == []
      ensures next != null ==>
                exists k :: 0 <= k < |nodes| && nodes[k] == next
                            && (forall j :: 0 <= j < |nodes| ==> ToNsec(next.due) <= ToNsec(nodes[j].due))
                            && (forall j :: k < j < |nodes| ==> ToNsec(next.due) < ToNsec(nodes[j].due))
    {
      var list := Model();
      assert list[..scan.i] == list;
      CourseEnds(list, scan.fired, behave, now, scan.fuel, goal);
      assert forall j :: 0 <= j < |nodes| ==> list[j] == nodes[j].Abstract();
    }
  }

  lemma DropBegins(cells: seq<Timer>, key: Key)
    ensures cells[..0] + Drop(cells[0..], key) == Drop(cells, key)
  {
    assert cells[0..] == cells;
  }

  lemma DropDone(cells: seq<Timer>, key: Key, goal: seq<Timer>)
    requires cells[..|cells|] + Drop(cells[|cells|..], key) == goal
    ensures cells == goal
  {
    assert cells[..|cells|] == cells;
  }

  /** The kept part and what dropping keeps of the rest make the goal; unlinking a matching
      timer or stepping over another one leaves it so. */
  lemma DropStep(cells: seq<Timer>, key: Key, i: nat, goal: seq<Timer>)
    requires i < |cells| && cells[..i] + Drop(cells[i..], key) == goal
    ensures cells[i].key != Some(key) ==> cells[..i + 1] + Drop(cells[i + 1..], key) == goal
    ensures cells[i].key == Some(key) ==>
              var cells' := cells[..i] + cells[i + 1..];
              cells'[..i] + Drop(cells'[i..], key) == goal
  {
    assert cells[i..][1..] == cells[i + 1..];
    if cells[i].key == Some(key) {
      SplitAt(cells[..i], cells[i + 1..]);
      assert [] + Drop(cells[i + 1..], key) == Drop(cells[i + 1..], key);
    } else {
      ConcatAssociates(cells[..i], [cells[i]], Drop(cells[i + 1..], key));
      assert cells[..i] + [cells[i]] == cells[..i + 1];
    }
  }

  lemma {:induction false} DropLength(cells: seq<Timer>, key: Key)
    ensures |Drop(cells, key)| < |cells| <==> HasKey(cells, key)
  {
    if cells != [] {
      DropLength(cells[1..], key);
      if i :| 0 <= i < |cells| && cells[i].key == Some(key) {
        assert i > 0 ==> cells[1..][i - 1].key == Some(key);
      }
      if i :| 0 <= i < |cells| - 1 && cells[1..][i].key == Some(key) {
        assert cells[i + 1].key == Some(key);
      }
    }
  }
}
