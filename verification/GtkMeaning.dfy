/** What the GTK scheduler means as a whole: a table of timers by key, and the records in the
    order of their lists. There are no tombstones here: a record is called when its turn comes
    exactly if it is still the timer of some key. */
module GtkMeaning {
  import opened Common
  import opened TimerTable
  import opened GtkSchedule

  datatype Table = Table(timers: map<Key, nat>, queued: seq<nat>, pending: seq<nat>, run: seq<nat>, nextId: nat)

  ghost function View(s: State): Table {
    Table(Meaning(s), Ids(s.queued), Ids(s.pending), Ids(s.run), s.nextId)
  }

  /** The key whose timer a record is. */
  ghost function Owner(timers: map<Key, nat>, id: nat): Option<Key> {
    if key :| key in timers && timers[key] == id then Some(key) else None
  }

  ghost function TableOp(t: Table, op: Op): (r: Table)
    ensures r.run == t.run
  {
    match op
    case Call(time, key) =>
      var timers := Schedule(t.timers, time, key, t.nextId).0;
      if time < 0 then t.(timers := timers)
      else t.(timers := timers, queued := [t.nextId] + t.queued, nextId := t.nextId + 1)
    case Timer(i) =>
      if i < |t.queued| then t.(queued := t.queued[..i] + t.queued[i + 1..], pending := t.pending + [t.queued[i]])
      else t
  }

  ghost function TableOps(t: Table, ops: seq<Op>): (r: Table)
    ensures r.run == t.run
    decreases |ops|
  {
    if ops == [] then t else TableOps(TableOp(t, ops[0]), ops[1..])
  }

  /** Give each record of the run its turn: the timer it still is, is used up and called. */
  ghost function TableRun(t: Table, behave: nat -> seq<Op>, n: nat): (Table, seq<Turn>)
    decreases |t.run|
  {
    if t.run == [] then (t, [])
    else
      var owner := Owner(t.timers, t.run[0]);
      var ops := if owner.Some? then behave(n) else [];
      var timers := if owner.Some? then t.timers - {owner.value} else t.timers;
      var (done, turns) := TableRun(TableOps(t.(timers := timers, run := t.run[1..]), ops), behave, n + 1);
      (done, [Turn(t.run[0], owner, ops)] + turns)
  }

  ghost function TableExecute(t: Table, commands: seq<Command>): Table
    decreases |commands|
  {
    if commands == [] then t
    else
      var t' := match commands[0]
                case Do(op) => TableOp(t, op)
                case RunPending(behave) => TableRun(t.(run := t.pending, pending := []), behave, 0).0;
      TableExecute(t', commands[1..])
  }

  // ----- the lists and the table agree

  /** The record of an entry is the timer of the entry's key, and of no key if it is dead. */
  lemma EntryOwner(s: State, i: nat)
    requires Inv(s) && i < |AllCells(s)|
    ensures Owner(Meaning(s), AllCells(s)[i].value) == AllCells(s)[i].key
  {
    var cells := AllCells(s);
    IdsDistinct(s);
    forall key | key in Meaning(s) && Meaning(s)[key] == cells[i].value
      ensures cells[i].key == Some(key)
    {
      var j := EntryOf(cells, key);
      assert Ids(cells)[i] == Ids(cells)[j];
    }
    if cells[i].key.Some? {
      TimersKeys(cells, cells[i].key.value);
      var j := EntryOf(cells, cells[i].key.value);
      assert j == i;
    }
  }

  lemma IdsDistinct(s: State)
    requires Inv(s)
    ensures Distinct(Ids(AllCells(s)))
  {
    var q, p, r := Ids(s.queued), Ids(s.pending), Ids(s.run);
    var all, ids := q + s.expired, Ids(AllCells(s));
    var e := |s.freed + s.current|;
    assert s.expired == (s.freed + s.current) + r + p;
    forall i, j | 0 <= i < j < |ids|
      ensures ids[i] != ids[j]
    {
      var i', j' := Position(|q|, |p|, |r|, e, i), Position(|q|, |p|, |r|, e, j);
      assert ids[i] == all[i'] && ids[j] == all[j'];
    }
  }

  /** Where entry i of all lists stands among the queued and the expired records. */
  function Position(q: nat, p: nat, r: nat, e: nat, i: nat): nat {
    if i < q then i else if i < q + p then i + e + r else i - p + e
  }

  lemma OpView(s: State, op: Op)
    requires Inv(s)
    ensures View(ApplyOp(s, op)) == TableOp(View(s), op)
  {
    match op {
      case Call(time, key) =>
        ScheduleRefines(s, time, key);
        assert Ids(Kill(s.queued, key)) == Ids(s.queued) && Ids(Kill(s.pending, key)) == Ids(s.pending);
        assert Ids(Kill(s.run, key)) == Ids(s.run);
        var c := Cell(Some(key), s.nextId);
        assert Ids([c] + Kill(s.queued, key)) == [s.nextId] + Ids(s.queued);
      case Timer(i) =>
        ExpireKeepsMeaning(s, i);
        if i < |s.queued| {
          assert Ids(s.queued[..i] + s.queued[i + 1..]) == Ids(s.queued)[..i] + Ids(s.queued)[i + 1..];
          assert Ids(s.pending + [s.queued[i]]) == Ids(s.pending) + [s.queued[i].value];
        }
    }
  }

  lemma {:induction false} OpsView(s: State, ops: seq<Op>)
    requires Inv(s)
    ensures View(ApplyOps(s, ops)) == TableOps(View(s), ops)
    decreases |ops|
  {
    if ops != [] {
      OpView(s, ops[0]);
      assert ApplyOps(s, [ops[0]]) == ApplyOps(ApplyOp(s, ops[0]), []);
      OpsKeepInv(s, [ops[0]]);
      OpsView(ApplyOp(s, ops[0]), ops[1..]);
    }
  }

  /** A run of schedule_run makes the same turns and comes to the same table. */
  lemma {:induction false} RunView(s: State, behave: nat -> seq<Op>, n: nat)
    requires Inv(s) && s.current == []
    ensures var (done, turns) := RunLoop(s, behave, n);
            TableRun(View(s), behave, n) == (View(done), turns)
    decreases |s.run|
  {
    if s.run != [] {
      var turn := NextTurn(s, behave, n);
      var taken, next := TakeHeadOff(s), RunTurn(s, turn.ops);
      assert AllCells(s)[|s.queued + s.pending|] == s.run[0];
      EntryOwner(s, |s.queued + s.pending|);
      TakeHead(s);
      OpsView(taken, turn.ops);
      OpsKeepInv(taken, turn.ops);
      TurnKeepsInv(s, turn.ops);
      RunView(next, behave, n + 1);
      assert Ids(s.run)[1..] == Ids(taken.run) == Ids(next.run);
      assert View(next) == View(ApplyOps(taken, turn.ops));
    }
  }

  /** Whatever is scheduled, expires or runs, the three lists with their tombstones mean the
      table. */
  lemma {:induction false} ExecuteView(s: State, commands: seq<Command>)
    requires Inv(s) && s.run == [] && s.current == []
    ensures View(Execute(s, commands)) == TableExecute(View(s), commands)
    decreases |commands|
  {
    if commands != [] {
      match commands[0] {
        case Do(op) =>
          OpView(s, op);
          assert ApplyOps(s, [op]) == ApplyOps(ApplyOp(s, op), []) == ApplyOp(s, op);
          OpsKeepInv(s, [op]);
          ExecuteView(ApplyOp(s, op), commands[1..]);
        case RunPending(behave) =>
          CaptureKeepsMeaning(s);
          RunLoopKeepsInv(Capture(s), behave, 0);
          RunView(Capture(s), behave, 0);
          ExecuteView(ScheduleRun(s, behave).0, commands[1..]);
      }
    }
  }
}
