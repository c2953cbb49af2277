/** The GTK scheduler on values: three lists of cells, tombstones, and the timers that feed
    them. A cell's value is the identity of the allocated callback record. */
module GtkSchedule {
  import opened Common
  import opened TimerTable

  /** expired logs the records whose timer has fired, freed those returned to the heap, and
      current holds the record schedule_run has taken off its list but not yet freed. */
  datatype State = State(
    queued: seq<Cell<nat>>,
    pending: seq<Cell<nat>>,
    run: seq<Cell<nat>>,
    current: seq<nat>,
    expired: seq<nat>,
    freed: seq<nat>,
    nextId: nat)

  const INITIAL := State([], [], [], [], [], [], 0)

  function AllCells(s: State): seq<Cell<nat>> {
    s.queued + s.pending + s.run
  }

  /** Kill the entries of a key in all three lists. */
  function Remove(s: State, key: Key): State {
    s.(queued := Kill(s.queued, key), pending := Kill(s.pending, key), run := Kill(s.run, key))
  }

  function Present(s: State, key: Key): bool {
    HasKey(s.queued, key) || HasKey(s.pending, key) || HasKey(s.run, key)
  }

  function ScheduleCall(s: State, t: int, key: Key): (State, bool) {
    var removed := Remove(s, key);
    if t < 0 then (removed, Present(s, key))
    else (Enqueue(removed, key), true)
  }

  function Enqueue(s: State, key: Key): State {
    s.(queued := [Cell(Some(key), s.nextId)] + s.queued, nextId := s.nextId + 1)
  }

  /** The timer of the i-th queued record fires, dead or alive. */
  function Expire(s: State, i: nat): State {
    if i < |s.queued| then
      s.(queued := s.queued[..i] + s.queued[i + 1..],
         pending := s.pending + [s.queued[i]],
         expired := s.expired + [s.queued[i].value])
    else s
  }

  /** What can happen while a callback runs, or between runs. */
  datatype Op = Call(t: int, key: Key) | Timer(i: nat)

  function ApplyOp(s: State, op: Op): (r: State)
    ensures |r.run| == |s.run|
  {
    match op
    case Call(t, key) => ScheduleCall(s, t, key).0
    case Timer(i) => Expire(s, i)
  }

  function ApplyOps(s: State, ops: seq<Op>): (r: State)
    ensures |r.run| == |s.run|
    decreases |ops|
  {
    if ops == [] then s else ApplyOps(ApplyOp(s, ops[0]), ops[1..])
  }

  /** One iteration of schedule_run: the record, the callback it fired if any, and what that
      callback did. */
  datatype Turn = Turn(id: nat, fired: Option<Key>, ops: seq<Op>)

  function Capture(s: State): State {
    s.(run := s.pending, pending := [])
  }

  function TakeHeadOff(s: State): State
    requires s.run != []
  {
    s.(run := s.run[1..], current := [s.run[0].value])
  }

  function Release(s: State, id: nat): State {
    s.(current := [], freed := s.freed + [id])
  }

  /** Take the head off the run list, let its callback do ops, and free the record. */
  function RunTurn(s: State, ops: seq<Op>): (r: State)
    requires s.run != []
    ensures |r.run| == |s.run| - 1
  {
    Release(ApplyOps(TakeHeadOff(s), ops), s.run[0].value)
  }

  function NextTurn(s: State, behave: nat -> seq<Op>, n: nat): Turn
    requires s.run != []
  {
    Turn(s.run[0].value, s.run[0].key, if s.run[0].key.Some? then behave(n) else [])
  }

  /** The n-th callback of the run does behave(n). */
  function RunLoop(s: State, behave: nat -> seq<Op>, n: nat): (r: (State, seq<Turn>))
    decreases |s.run|
  {
    if s.run == [] then (s, [])
    else
      var turn := NextTurn(s, behave, n);
      var (done, turns) := RunLoop(RunTurn(s, turn.ops), behave, n + 1);
      (done, [turn] + turns)
  }

  function ScheduleRun(s: State, behave: nat -> seq<Op>): (State, seq<Turn>) {
    RunLoop(Capture(s), behave, 0)
  }

  // ----- the invariant

  function Ids(cells: seq<Cell<nat>>): (ids: seq<nat>)
    ensures |ids| == |cells|
  {
    seq(|cells|, i requires 0 <= i < |cells| => cells[i].value)
  }

  /** At most one live entry per key; expiry order is the order of freeing, then running,
      then waiting; and every record is in exactly one place. */
  ghost predicate Inv(s: State) {
    && OnePerKey(AllCells(s))
    && s.expired == s.freed + s.current + Ids(s.run) + Ids(s.pending)
    && Distinct(Ids(s.queued) + s.expired)
    && forall id :: id in Ids(s.queued) + s.expired ==> id < s.nextId
  }

  ghost function Meaning(s: State): map<Key, nat> {
    Timers(AllCells(s))
  }

  lemma KillEverywhere(s: State, key: Key)
    ensures AllCells(Remove(s, key)) == Kill(AllCells(s), key)
    ensures Present(s, key) <==> HasKey(AllCells(s), key)
  {
    if i :| 0 <= i < |s.queued| && s.queued[i].key == Some(key) {
      assert AllCells(s)[i].key == Some(key);
    }
    if i :| 0 <= i < |s.pending| && s.pending[i].key == Some(key) {
      assert AllCells(s)[|s.queued| + i].key == Some(key);
    }
    if i :| 0 <= i < |s.run| && s.run[i].key == Some(key) {
      assert AllCells(s)[|s.queued| + |s.pending| + i].key == Some(key);
    }
  }

  /** nsgtk_schedule is the abstract schedule operation, result code included. */
  lemma ScheduleRefines(s: State, t: int, key: Key)
    requires Inv(s)
    ensures (Meaning(ScheduleCall(s, t, key).0), ScheduleCall(s, t, key).1)
         == Schedule(Meaning(s), t, key, s.nextId)
    ensures Inv(ScheduleCall(s, t, key).0)
  {
    var removed := Remove(s, key);
    RemoveRefines(s, key);
    if t >= 0 {
      EnqueueRefines(removed, key);
      assert (Meaning(s) - {key})[key := s.nextId] == Meaning(s)[key := s.nextId];
    }
  }

  lemma RemoveRefines(s: State, key: Key)
    requires Inv(s)
    ensures Meaning(Remove(s, key)) == Meaning(s) - {key} && (Present(s, key) <==> key in Meaning(s))
    ensures Inv(Remove(s, key)) && !HasKey(AllCells(Remove(s, key)), key)
  {
    var cells, removed := AllCells(s), Remove(s, key);
    KillEverywhere(s, key);
    TimersKeys(cells, key);
    TimersOfKill(cells, key);
    OnePerKeyOfKill(cells, key);
    assert Ids(removed.queued) == Ids(s.queued) && Ids(removed.pending) == Ids(s.pending);
    assert Ids(removed.run) == Ids(s.run);
  }

  lemma EnqueueRefines(s: State, key: Key)
    requires Inv(s) && !HasKey(AllCells(s), key)
    ensures Meaning(Enqueue(s, key)) == Meaning(s)[key := s.nextId] && Inv(Enqueue(s, key))
  {
    var s', c := Enqueue(s, key), Cell(Some(key), s.nextId);
    assert AllCells(s') == [c] + AllCells(s);
    TimersAppend([c], AllCells(s));
    assert Timers([c]) == map[key := s.nextId];
    assert Ids(s'.queued) == [s.nextId] + Ids(s.queued);
    FreshId(s.nextId, Ids(s.queued) + s.expired);
    assert Ids(s'.queued) + s'.expired == [s.nextId] + (Ids(s.queued) + s.expired);
  }

  lemma FreshId(id: nat, ids: seq<nat>)
    requires Distinct(ids) && forall i :: i in ids ==> i < id
    ensures Distinct([id] + ids) && forall i :: i in [id] + ids ==> i < id + 1
  {
    assert forall j :: 0 <= j < |ids| ==> ids[j] in ids;
  }

  /** An expiring timer changes neither the meaning nor the invariant. */
  lemma ExpireKeepsMeaning(s: State, i: nat)
    requires Inv(s)
    ensures Meaning(Expire(s, i)) == Meaning(s) && Inv(Expire(s, i))
  {
    if i < |s.queued| {
      var s', c := Expire(s, i), s.queued[i];
      var front, back := s.queued[..i], s.queued[i + 1..];
      assert AllCells(s) == front + [c] + (back + s.pending) + s.run;
      assert AllCells(s') == front + (back + s.pending) + [c] + s.run;
      TimersMove(front, c, back + s.pending, s.run);
      assert Ids(s.queued) == Ids(front) + [c.value] + Ids(back);
      assert Ids(s'.queued) == Ids(front) + Ids(back);
      assert Ids(s'.pending) == Ids(s.pending) + [c.value];
      MoveId(Ids(front), c.value, Ids(back), s.expired);
      assert s'.expired == s'.freed + s'.current + Ids(s'.run) + Ids(s'.pending);
    }
  }

  lemma MoveId(front: seq<nat>, id: nat, back: seq<nat>, rest: seq<nat>)
    requires Distinct(front + [id] + back + rest)
    ensures Distinct(front + back + (rest + [id]))
    ensures forall i :: i in front + back + (rest + [id]) <==> i in front + [id] + back + rest
  {
    var x, y := front + [id] + back + rest, front + back + (rest + [id]);
    forall i, j | 0 <= i < j < |y|
      ensures y[i] != y[j]
    {
      var i', j' := Source(|front|, |back| + |rest|, i), Source(|front|, |back| + |rest|, j);
      assert y[i] == x[i'] && y[j] == x[j'];
    }
  }

  lemma {:induction false} OpsKeepInv(s: State, ops: seq<Op>)
    requires Inv(s)
    ensures Inv(ApplyOps(s, ops)) && ApplyOps(s, ops).current == s.current
    ensures ApplyOps(s, ops).freed == s.freed
    ensures Ids(ApplyOps(s, ops).run) == Ids(s.run)
    decreases |ops|
  {
    if ops != [] {
      match ops[0] {
        case Call(t, key) => ScheduleRefines(s, t, key);
        case Timer(i) => ExpireKeepsMeaning(s, i);
      }
      assert Ids(ApplyOp(s, ops[0]).run) == Ids(s.run);
      OpsKeepInv(ApplyOp(s, ops[0]), ops[1..]);
    }
  }

  /** Taking the head of the run list off forgets its timer and nothing else. */
  lemma TakeHead(s: State)
    requires Inv(s) && s.run != [] && s.current == []
    ensures Inv(TakeHeadOff(s))
    ensures Meaning(TakeHeadOff(s))
         == if s.run[0].key.Some? then Meaning(s) - {s.run[0].key.value} else Meaning(s)
  {
    var c, s' := s.run[0], TakeHeadOff(s);
    var front := s.queued + s.pending;
    assert s.run == [c] + s.run[1..];
    assert AllCells(s) == front + [c] + s.run[1..] + [];
    assert AllCells(s) == front + ([c] + s.run[1..]);
    assert front + s.run[1..] + [c] + [] == AllCells(s') + [c];
    TimersMove(front, c, s.run[1..], []);
    assert OnePerKey(AllCells(s')) by {
      assert forall i :: 0 <= i < |AllCells(s')| ==> AllCells(s')[i] == (AllCells(s') + [c])[i];
    }
    TimersAppend(AllCells(s'), [c]);
    TimersDisjoint(AllCells(s'), [c]);
    assert Timers([c]) == if c.key.Some? then map[c.key.value := c.value] else map[];
    assert Ids(s.run) == [c.value] + Ids(s.run[1..]);
    assert s.freed + [] + ([c.value] + Ids(s.run[1..])) + Ids(s.pending)
        == s.freed + [c.value] + Ids(s.run[1..]) + Ids(s.pending);
  }

  lemma TurnKeepsInv(s: State, ops: seq<Op>)
    requires Inv(s) && s.run != [] && s.current == []
    ensures Inv(RunTurn(s, ops)) && RunTurn(s, ops).current == []
    ensures RunTurn(s, ops).freed + Ids(RunTurn(s, ops).run) == s.freed + Ids(s.run)
  {
    TakeHead(s);
    OpsKeepInv(TakeHeadOff(s), ops);
    var id := s.run[0].value;
    ReleaseKeepsInv(ApplyOps(TakeHeadOff(s), ops), id);
    assert Ids(s.run) == [id] + Ids(s.run[1..]);
    ConcatAssociates(s.freed, [id], Ids(s.run[1..]));
  }

  lemma ReleaseKeepsInv(s: State, id: nat)
    requires Inv(s) && s.current == [id]
    ensures Inv(Release(s, id))
  {
    assert s.freed + [id] + [] == s.freed + s.current;
  }

  /** A run keeps the invariant, empties its list, and frees exactly the captured records,
      once each, in order. */
  lemma {:induction false} RunLoopKeepsInv(s: State, behave: nat -> seq<Op>, n: nat)
    requires Inv(s) && s.current == []
    ensures var s' := RunLoop(s, behave, n).0;
            Inv(s') && s'.run == [] && s'.current == [] && s'.freed == s.freed + Ids(s.run)
    decreases |s.run|
  {
    if s.run == [] {
      assert s.freed + Ids(s.run) == s.freed;
    } else {
      var ops := NextTurn(s, behave, n).ops;
      TurnKeepsInv(s, ops);
      RunLoopKeepsInv(RunTurn(s, ops), behave, n + 1);
    }
  }

  lemma CaptureKeepsMeaning(s: State)
    requires Inv(s) && s.run == []
    ensures Inv(Capture(s)) && Meaning(Capture(s)) == Meaning(s)
  {
    assert AllCells(Capture(s)) == AllCells(s);
    assert s.freed + s.current + Ids(s.run) + Ids(s.pending)
        == s.freed + s.current + Ids(s.pending) + Ids([]);
  }

  // ----- which callbacks a run fires

  ghost predicate Touches(ops: seq<Op>, key: Key) {
    exists i :: 0 <= i < |ops| && ops[i].Call? && ops[i].key == key
  }

  /** What happens to the k-th entry of the run list while a callback runs. */
  lemma {:induction false} OpsOnRun(s: State, ops: seq<Op>, k: nat)
    requires k < |s.run|
    ensures ApplyOps(s, ops).run[k]
         == if s.run[k].key.Some? && Touches(ops, s.run[k].key.value) then s.run[k].(key := None) else s.run[k]
    decreases |ops|
  {
    if ops != [] {
      var s' := ApplyOp(s, ops[0]);
      OpsOnRun(s', ops[1..], k);
      if s.run[k].key.Some? {
        var key := s.run[k].key.value;
        assert ops == [ops[0]] + ops[1..];
        assert Touches(ops, key) <==> (ops[0].Call? && ops[0].key == key) || Touches(ops[1..], key) by {
          if i :| 0 <= i < |ops[1..]| && ops[1..][i].Call? && ops[1..][i].key == key {
            assert ops[i + 1].Call? && ops[i + 1].key == key;
          }
        }
      }
    }
  }

  ghost predicate Touched(turns: seq<Turn>, key: Key) {
    exists j :: 0 <= j < |turns| && Touches(turns[j].ops, key)
  }

  lemma TouchedCons(t: Turn, turns: seq<Turn>, key: Key)
    ensures Touched([t] + turns, key) <==> Touches(t.ops, key) || Touched(turns, key)
  {
    var all := [t] + turns;
    if Touches(t.ops, key) {
      assert Touches(all[0].ops, key);
    }
    if j :| 0 <= j < |turns| && Touches(turns[j].ops, key) {
      assert Touches(all[j + 1].ops, key);
    }
  }

  /** A run makes one turn per captured record, in order, and fires the k-th exactly when it
      was alive at the start and no callback fired before it in this run has scheduled or
      removed its key. */
  lemma {:induction false} RunFiresSurvivors(s: State, behave: nat -> seq<Op>, n: nat, k: nat)
    requires k < |s.run|
    ensures |RunLoop(s, behave, n).1| == |s.run| && RunLoop(s, behave, n).1[k].id == s.run[k].value
    ensures RunLoop(s, behave, n).1[k].fired
         == (if s.run[k].key.Some? && !Touched(RunLoop(s, behave, n).1[..k], s.run[k].key.value)
             then s.run[k].key else None)
    decreases |s.run|
  {
    var turn := NextTurn(s, behave, n);
    var next := RunTurn(s, turn.ops);
    var rest := RunLoop(next, behave, n + 1).1;
    assert RunLoop(s, behave, n).1 == [turn] + rest;
    if |s.run| > 1 {
      RunFiresSurvivors(next, behave, n + 1, if k == 0 then 0 else k - 1);
    }
    if k > 0 {
      OpsOnRun(TakeHeadOff(s), turn.ops, k - 1);
      assert ([turn] + rest)[..k] == [turn] + rest[..k - 1];
      if s.run[k].key.Some? {
        TouchedCons(turn, rest[..k - 1], s.run[k].key.value);
      }
    }
  }

  // ----- a run, step by step

  /** A run that has made these turns and is in this state comes to the end goal. */
  ghost predicate RunsTo(s: State, turns: seq<Turn>, behave: nat -> seq<Op>, goal: (State, seq<Turn>))
    decreases |s.run|
  {
    if s.run == [] then goal == (s, turns)
    else
      var turn := NextTurn(s, behave, |turns|);
      RunsTo(RunTurn(s, turn.ops), turns + [turn], behave, goal)
  }

  lemma RunsOn(s: State, turns: seq<Turn>, behave: nat -> seq<Op>, goal: (State, seq<Turn>), done: seq<Op>, s': State)
    requires RunsTo(s, turns, behave, goal) && s.run != []
    requires done == (if s.run[0].key.Some? then behave(|turns|) else []) && s' == RunTurn(s, done)
    ensures RunsTo(s', turns + [Turn(s.run[0].value, s.run[0].key, done)], behave, goal)
  {
  }

  lemma {:induction false} RunsToEnd(s: State, turns: seq<Turn>, behave: nat -> seq<Op>)
    ensures var (done, more) := RunLoop(s, behave, |turns|);
            RunsTo(s, turns, behave, (done, turns + more))
    decreases |s.run|
  {
    if s.run == [] {
      assert turns + [] == turns;
    } else {
      var turn := NextTurn(s, behave, |turns|);
      var next := RunTurn(s, turn.ops);
      RunsToEnd(next, turns + [turn], behave);
      ConcatAssociates(turns, [turn], RunLoop(next, behave, |turns| + 1).1);
    }
  }

  lemma RunBegins(s: State, behave: nat -> seq<Op>)
    ensures RunsTo(Capture(s), [], behave, ScheduleRun(s, behave))
  {
    RunsToEnd(Capture(s), [], behave);
    var turns := ScheduleRun(s, behave).1;
    assert [] + turns == turns;
  }

  // ----- every reachable state

  datatype Command = Do(op: Op) | RunPending(behave: nat -> seq<Op>)

  function Execute(s: State, commands: seq<Command>): State
    decreases |commands|
  {
    if commands == [] then s
    else
      var s' := match commands[0]
                case Do(op) => ApplyOp(s, op)
                case RunPending(behave) => ScheduleRun(s, behave).0;
      Execute(s', commands[1..])
  }

  lemma {:induction false} EveryReachableState(s: State, commands: seq<Command>)
    requires Inv(s) && s.run == [] && s.current == []
    ensures var s' := Execute(s, commands);
            Inv(s') && s'.run == [] && s'.current == [] && s'.expired == s'.freed + Ids(s'.pending)
    decreases |commands|
  {
    if commands == [] {
      assert s.freed + s.current + Ids(s.run) == s.freed;
    } else {
      match commands[0] {
        case Do(op) =>
          assert ApplyOps(s, [op]) == ApplyOps(ApplyOp(s, op), []) == ApplyOp(s, op);
          OpsKeepInv(s, [op]);
          EveryReachableState(ApplyOp(s, op), commands[1..]);
        case RunPending(behave) =>
          CaptureKeepsMeaning(s);
          RunLoopKeepsInv(Capture(s), behave, 0);
          EveryReachableState(ScheduleRun(s, behave).0, commands[1..]);
      }
    }
  }

  lemma InitialInv()
    ensures Inv(INITIAL)
  {
  }

  /** From the start on, whatever is scheduled, expires or runs: a key has a timer exactly when
      it has a live entry in one of the lists, and then only that one. */
  lemma StateFromStart(commands: seq<Command>, key: Key)
    ensures var s := Execute(INITIAL, commands);
            && Inv(s) && s.run == [] && s.current == [] && s.expired == s.freed + Ids(s.pending)
            && if key in Meaning(s) then IsOnlyTimer(AllCells(s), key, Meaning(s)[key]) else !HasKey(AllCells(s), key)
  {
    InitialInv();
    EveryReachableState(INITIAL, commands);
    var s := Execute(INITIAL, commands);
    TimersKeys(AllCells(s), key);
    if key in Meaning(s) {
      var i := EntryOf(AllCells(s), key);
    }
  }
}
