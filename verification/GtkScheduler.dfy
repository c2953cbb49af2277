/** The GTK scheduler on the heap: callback records shared between lists and timers, killed
    in place, and the run loop that calls and frees them. */
module GtkSchedulers {
  import opened Common
  import opened TimerTable
  import opened GtkSchedule

  const NULL := 0

  class Callback {
    ghost const id: nat
    var callback: nat
    var context: nat
    var killed: bool

    constructor (callback: nat, context: nat, ghost id: nat)
      ensures this.callback == callback && this.context == context && !killed && this.id == id
    {
      this.callback, this.context, killed, this.id := callback, context, false, id;
    }

    /** A record loses its function exactly when it is killed. */
    ghost predicate Sound()
      reads this
    {
      killed <==> callback == NULL
    }

    ghost function Abstract(): Cell<nat>
      reads this
    {
      Cell(if killed then None else Some(Key(callback, context)), id)
    }
  }

  ghost function Cells(list: seq<Callback>): (cells: seq<Cell<nat>>)
    reads list
    ensures |cells| == |list|
    ensures forall i :: 0 <= i < |list| ==> cells[i] == list[i].Abstract()
  {
    seq(|list|, i requires 0 <= i < |list| reads list => list[i].Abstract())
  }

  ghost predicate SoundList(list: seq<Callback>)
    reads list
  {
    Distinct(list) && forall o :: o in list ==> o.Sound()
  }

  ghost predicate Apart(a: seq<Callback>, b: seq<Callback>) {
    forall o | o in a :: o !in b
  }

  /** Kill one record if it matches. */
  method KillCallback(target: Callback, callback: nat, context: nat) returns (matched: bool)
    requires target.Sound() && callback != NULL
    modifies target
    ensures target.Sound()
    ensures target.Abstract() == KillCell(old(target.Abstract()), Key(callback, context))
    ensures matched <==> old(target.Abstract().key) == Some(Key(callback, context))
  {
    matched := target.callback == callback && target.context == context;
    if matched {
      target.callback := NULL;
      target.context := NULL;
      target.killed := true;
    }
  }

  /** Kill every matching record of one list; the other two lists keep theirs. */
  method KillList(list: seq<Callback>, callback: nat, context: nat, ghost x: seq<Callback>, ghost y: seq<Callback>)
    returns (matched: bool)
    requires SoundList(list) && SoundList(x) && SoundList(y) && Apart(x, list) && Apart(y, list) && callback != NULL
    modifies list
    ensures SoundList(list) && Cells(list) == Kill(old(Cells(list)), Key(callback, context))
    ensures matched <==> HasKey(old(Cells(list)), Key(callback, context))
    ensures SoundList(x) && SoundList(y) && Cells(x) == old(Cells(x)) && Cells(y) == old(Cells(y))
  {
    ghost var key, cells := Key(callback, context), Cells(list);
    ghost var xs, ys := Cells(x), Cells(y);
    matched := false;
    for i := 0 to |list|
      invariant forall o :: o in list ==> o.Sound()
      invariant forall j :: 0 <= j < i ==> list[j].Abstract() == KillCell(cells[j], key)
      invariant forall j :: i <= j < |list| ==> list[j].Abstract() == cells[j]
      invariant matched <==> exists j :: 0 <= j < i && cells[j].key == Some(key)
      invariant forall j :: 0 <= j < |x| ==> x[j].Abstract() == xs[j] && x[j].Sound()
      invariant forall j :: 0 <= j < |y| ==> y[j].Abstract() == ys[j] && y[j].Sound()
    {
      assert forall j :: 0 <= j < |list| && j != i ==> list[j] != list[i];
      assert forall j :: 0 <= j < |x| ==> x[j] in x;
      assert forall j :: 0 <= j < |y| ==> y[j] in y;
      var m := KillCallback(list[i], callback, context);
      matched := matched || m;
    }
    assert Cells(list) == Kill(cells, key);
    assert Cells(x) == xs && Cells(y) == ys;
  }

  class Scheduler {
    var queued: seq<Callback>
    var pending: seq<Callback>
    var thisRun: seq<Callback>
    ghost var current: seq<nat>
    ghost var expired: seq<nat>
    ghost var freed: seq<nat>
    ghost var nextId: nat
    ghost var repr: set<Callback>

    ghost predicate Valid()
      reads this, repr
    {
      && (forall o :: o in queued ==> o in repr)
      && (forall o :: o in pending ==> o in repr)
      && (forall o :: o in thisRun ==> o in repr)
      && SoundList(queued) && SoundList(pending) && SoundList(thisRun)
      && Apart(queued, pending) && Apart(queued, thisRun) && Apart(pending, thisRun)
    }

    ghost function Model(): State
      reads this, repr
      requires Valid()
    {
      State(Cells(queued), Cells(pending), Cells(thisRun), current, expired, freed, nextId)
    }

    constructor ()
      ensures Valid() && Model() == INITIAL && repr == {}
    {
      queued, pending, thisRun := [], [], [];
      current, expired, freed, nextId, repr := [], [], [], 0, {};
    }

    method Remove(callback: nat, context: nat) returns (ok: bool)
      requires Valid() && callback != NULL
      modifies repr
      ensures Valid() && repr == old(repr) && Model() == GtkSchedule.Remove(old(Model()), Key(callback, context))
      ensures ok == Present(old(Model()), Key(callback, context))
    {
      var a := KillList(queued, callback, context, pending, thisRun);
      var b := KillList(pending, callback, context, queued, thisRun);
      var c := KillList(thisRun, callback, context, queued, pending);
      ok := a || b || c;
    }

    /** Allocate a record, put it in front of the queue and start its timer. */
    method Enqueue(callback: nat, context: nat)
      requires Valid() && callback != NULL
      modifies this`queued, this`nextId, this`repr
      ensures Valid() && fresh(repr - old(repr))
      ensures Model() == GtkSchedule.Enqueue(old(Model()), Key(callback, context))
      ensures |queued| == old(|queued|) + 1 && queued[1..] == old(queued)
      ensures queued[0].callback == callback && queued[0].context == context && !queued[0].killed
    {
      var cb := new Callback(callback, context, nextId);
      PutFirst(cb);
    }

    method PutFirst(cb: Callback)
      requires Valid() && cb !in repr && cb.Sound() && !cb.killed && cb.id == nextId
      modifies this`queued, this`nextId, this`repr
      ensures Valid() && repr == old(repr) + {cb} && queued == [cb] + old(queued)
      ensures Model() == GtkSchedule.Enqueue(old(Model()), Key(cb.callback, cb.context))
    {
      ghost var cells := Cells(queued);
      queued := [cb] + queued;
      nextId := nextId + 1;
      repr := repr + {cb};
      assert Cells(queued) == [cb.Abstract()] + cells;
    }

    /** Replace the timer of a callback, or only remove it when t is negative. */
    method Schedule(t: int, callback: nat, context: nat) returns (ok: bool)
      requires Valid() && callback != NULL
      modifies this, repr
      ensures Valid() && fresh(repr - old(repr))
      ensures (Model(), ok) == ScheduleCall(old(Model()), t, Key(callback, context))
      ensures t < 0 ==> queued == old(queued)
      ensures t >= 0 ==> ok && |queued| == old(|queued|) + 1 && queued[1..] == old(queued)
      ensures t >= 0 ==> queued[0].callback == callback && queued[0].context == context && !queued[0].killed
    {
      ok := Remove(callback, context);
      if t >= 0 {
        Enqueue(callback, context);
        ok := true;
      }
    }

    /** The timer of a queued record fires. */
    method GenericCallback(i: nat)
      requires Valid() && i < |queued|
      modifies this
      ensures Valid() && repr == old(repr) && Model() == Expire(old(Model()), i)
    {
      ghost var q, p := Cells(queued), Cells(pending);
      var cb := queued[i];
      DistinctSnoc(pending, cb);
      expired := expired + [cb.id];
      pending := pending + [cb];
      queued := queued[..i] + queued[i + 1..];
      assert Cells(queued) == q[..i] + q[i + 1..];
      assert Cells(pending) == p + [q[i]];
    }

    /** What a callback does to the scheduler while it runs. */
    method Perform(ops: seq<Op>)
      requires Valid() && forall i :: 0 <= i < |ops| && ops[i].Call? ==> ops[i].key.callback != NULL
      modifies this, repr
      ensures Valid() && fresh(repr - old(repr))
      ensures Model() == ApplyOps(old(Model()), ops) && |thisRun| == old(|thisRun|)
    {
      ghost var goal := ApplyOps(Model(), ops);
      for i := 0 to |ops|
        invariant Valid() && fresh(repr - old(repr)) && |thisRun| == old(|thisRun|)
        invariant ApplyOps(Model(), ops[i..]) == goal
      {
        assert ops[i..][0] == ops[i] && ops[i..][1..] == ops[i + 1..];
        match ops[i] {
          case Call(t, key) =>
            var _ := Schedule(t, key.callback, key.context);
          case Timer(k) =>
            if k < |queued| {
              GenericCallback(k);
            }
        }
      }
    }

    method TakeNext() returns (cb: Callback)
      requires Valid() && thisRun != []
      modifies this`thisRun, this`current
      ensures Valid() && |thisRun| == old(|thisRun|) - 1 && cb.id == old(Model()).run[0].value
      ensures cb.killed <==> old(Model()).run[0].key.None?
      ensures Model() == TakeHeadOff(old(Model()))
    {
      ghost var r := Cells(thisRun);
      cb := thisRun[0];
      thisRun := thisRun[1..];
      current := [cb.id];
      assert Cells(thisRun) == r[1..];
    }

    /** Call the record unless it is dead; done tells what its callback did. */
    method Invoke(cb: Callback, ops: seq<Op>) returns (ghost done: seq<Op>)
      requires Valid() && forall i :: 0 <= i < |ops| && ops[i].Call? ==> ops[i].key.callback != NULL
      modifies this, repr
      ensures Valid() && fresh(repr - old(repr)) && |thisRun| == old(|thisRun|)
      ensures done == (if old(cb.killed) then [] else ops) && Model() == ApplyOps(old(Model()), done)
    {
      done := [];
      if !cb.killed {
        Perform(ops);
        done := ops;
      }
    }

    /** Call the record unless it is dead, and free it. */
    method InvokeAndFree(cb: Callback, ops: seq<Op>) returns (ghost done: seq<Op>)
      requires Valid() && forall i :: 0 <= i < |ops| && ops[i].Call? ==> ops[i].key.callback != NULL
      modifies this, repr
      ensures Valid() && fresh(repr - old(repr)) && |thisRun| == old(|thisRun|) && current == []
      ensures done == (if old(cb.killed) then [] else ops)
      ensures Model() == Release(ApplyOps(old(Model()), done), cb.id)
    {
      done := Invoke(cb, ops);
      freed := freed + [cb.id];
      current := [];
    }

    /** Take the next record off the list, call it unless it is dead, and free it. */
    method RunNext(ops: seq<Op>) returns (ghost done: seq<Op>)
      requires Valid() && thisRun != [] && current == []
      requires forall i :: 0 <= i < |ops| && ops[i].Call? ==> ops[i].key.callback != NULL
      modifies this, repr
      ensures Valid() && fresh(repr - old(repr)) && |thisRun| == old(|thisRun|) - 1 && current == []
      ensures done == if old(Model()).run[0].key.Some? then ops else []
      ensures Model() == RunTurn(old(Model()), done)
    {
      var cb := TakeNext();
      done := InvokeAndFree(cb, ops);
    }

    /** One iteration, which keeps the run on its way to the goal. */
    method Iterate(ops: seq<Op>, ghost turns: seq<Turn>, ghost behave: nat -> seq<Op>, ghost goal: (State, seq<Turn>))
      returns (ghost turns': seq<Turn>)
      requires Valid() && thisRun != [] && current == []
      requires ops == behave(|turns|) && RunsTo(Model(), turns, behave, goal)
      requires forall i :: 0 <= i < |ops| && ops[i].Call? ==> ops[i].key.callback != NULL
      modifies this, repr
      ensures Valid() && fresh(repr - old(repr)) && |thisRun| == old(|thisRun|) - 1 && current == []
      ensures |turns'| == |turns| + 1 && RunsTo(Model(), turns', behave, goal)
    {
      ghost var s := Model();
      ghost var done := RunNext(ops);
      RunsOn(s, turns, behave, goal, done, Model());
      turns' := turns + [Turn(s.run[0].value, s.run[0].key, done)];
    }

    /** Make the pending records the run list, and tell whether there are any. */
    method CapturePending() returns (any: bool)
      requires Valid() && thisRun == []
      modifies this`thisRun, this`pending
      ensures Valid() && Model() == Capture(old(Model()))
      ensures any <==> thisRun != []
      ensures any <==> old(pending) != []
    {
      thisRun := pending;
      if thisRun == [] {
        return false;
      }
      pending := [];
      return true;
    }

    /** Capture the pending records and run the live ones; behave says what the n-th
        callback of the run does. */
    method ScheduleRun(behave: nat -> seq<Op>) returns (ran: bool, ghost turns: seq<Turn>)
      requires Valid() && thisRun == [] && current == []
      requires forall n: nat, i :: 0 <= i < |behave(n)| && behave(n)[i].Call? ==> behave(n)[i].key.callback != NULL
      modifies this, repr
      ensures Valid() && fresh(repr - old(repr)) && thisRun == [] && current == []
      ensures ran <==> old(pending) != []
      ensures (Model(), turns) == GtkSchedule.ScheduleRun(old(Model()), behave)
    {
      ghost var goal := GtkSchedule.ScheduleRun(Model(), behave);
      RunBegins(Model(), behave);
      ran := CapturePending();
      turns := [];
      var n := 0;
      while thisRun != []
        invariant Valid() && fresh(repr - old(repr)) && current == []
        invariant n == |turns| && RunsTo(Model(), turns, behave, goal)
        decreases |thisRun|
      {
        turns := Iterate(behave(n), turns, behave, goal);
        n := n + 1;
      }
    }
  }
}
