/** The visurf scheduler on values: a list of timers, and the loop that dispatches the due
    ones. */
module VisurfSchedule {
  import opened Common
  import opened TimerTable
  import opened Timespecs

  type Timer = Cell<Timespec>

  /** nsvi_misc_schedule called while the clock shows the given time. */
  datatype Call = Call(ms: int, key: Key, clock: Timespec)

  function Due(clock: Timespec, ms: int): Timespec {
    FromNsec(ToNsec(clock) + ms * NSEC_PER_MSEC)
  }

  function ScheduleCall(list: seq<Timer>, c: Call): (seq<Timer>, bool) {
    var rest := Drop(list, c.key);
    if c.ms < 0 then (rest, HasKey(list, c.key))
    else ([Cell(Some(c.key), Due(c.clock, c.ms))] + rest, true)
  }

  ghost predicate Inv(list: seq<Timer>) {
    && OnePerKey(list)
    && forall i :: 0 <= i < |list| ==> list[i].key.Some? && Normalized(list[i].value)
  }

  lemma DropKeepsInv(list: seq<Timer>, key: Key)
    requires Inv(list)
    ensures Inv(Drop(list, key)) && !HasKey(Drop(list, key), key)
  {
    DropMembers(list, key);
    assert forall i :: 0 <= i < |Drop(list, key)| ==> Drop(list, key)[i] in Drop(list, key);
  }

  /** nsvi_misc_schedule is the abstract schedule operation, result code included. */
  lemma ScheduleRefines(list: seq<Timer>, c: Call)
    requires Inv(list)
    ensures (Timers(ScheduleCall(list, c).0), ScheduleCall(list, c).1)
         == Schedule(Timers(list), c.ms, c.key, Due(c.clock, c.ms))
    ensures Inv(ScheduleCall(list, c).0)
  {
    var rest := Drop(list, c.key);
    TimersKeys(list, c.key);
    TimersOfDrop(list, c.key);
    DropKeepsInv(list, c.key);
    NormalForm(c.clock, ToNsec(c.clock) + c.ms * NSEC_PER_MSEC);
    if c.ms >= 0 {
      var list' := ScheduleCall(list, c).0;
      assert list'[1..] == rest;
      assert (Timers(list) - {c.key})[c.key := Due(c.clock, c.ms)] == Timers(list)[c.key := Due(c.clock, c.ms)];
    }
  }

  lemma ScheduleKeepsInv(list: seq<Timer>, c: Call)
    requires Inv(list)
    ensures Inv(ScheduleCall(list, c).0)
  {
    ScheduleRefines(list, c);
  }

  function ApplyCalls(list: seq<Timer>, calls: seq<Call>): seq<Timer>
    decreases |calls|
  {
    if calls == [] then list else ApplyCalls(ScheduleCall(list, calls[0]).0, calls[1..])
  }

  /** After any run of schedule calls each (callback, p) occurs at most once. */
  lemma {:induction false} CallsKeepInv(list: seq<Timer>, calls: seq<Call>)
    requires Inv(list)
    ensures Inv(ApplyCalls(list, calls))
    decreases |calls|
  {
    if calls != [] {
      ScheduleKeepsInv(list, calls[0]);
      CallsKeepInv(ScheduleCall(list, calls[0]).0, calls[1..]);
    }
  }

  // ----- order

  /** The timer of b stands before that of a. */
  ghost predicate StandsBefore(list: seq<Timer>, b: Key, a: Key) {
    exists i, j :: 0 <= i < j < |list| && list[i].key == Some(b) && list[j].key == Some(a)
  }

  lemma {:induction false} DropKeepsMember(list: seq<Timer>, key: Key, a: Key)
    requires HasKey(list, a) && key != a
    ensures HasKey(Drop(list, key), a)
  {
    TimersKeys(list, a);
    TimersOfDrop(list, key);
    TimersKeys(Drop(list, key), a);
  }

  lemma {:induction false} DropKeepsOrder(list: seq<Timer>, key: Key, b: Key, a: Key)
    requires StandsBefore(list, b, a) && key != a && key != b
    ensures StandsBefore(Drop(list, key), b, a)
  {
    var i, j :| 0 <= i < j < |list| && list[i].key == Some(b) && list[j].key == Some(a);
    var rest, kept := list[1..], Drop(list[1..], key);
    if i == 0 {
      assert rest[j - 1].key == Some(a);
      DropKeepsMember(rest, key, a);
      var k :| 0 <= k < |kept| && kept[k].key == Some(a);
      assert Drop(list, key)[0].key == Some(b) && Drop(list, key)[k + 1].key == Some(a);
    } else {
      assert rest[i - 1].key == Some(b) && rest[j - 1].key == Some(a);
      DropKeepsOrder(rest, key, b, a);
      var k, l :| 0 <= k < l < |kept| && kept[k].key == Some(b) && kept[l].key == Some(a);
      var one := |Drop(list, key)| - |kept|;
      assert Drop(list, key)[k + one].key == Some(b) && Drop(list, key)[l + one].key == Some(a);
    }
  }

  lemma {:induction false} CallsKeepOrder(list: seq<Timer>, calls: seq<Call>, b: Key, a: Key)
    requires StandsBefore(list, b, a)
    requires forall i :: 0 <= i < |calls| ==> calls[i].key != a && calls[i].key != b
    ensures StandsBefore(ApplyCalls(list, calls), b, a)
    decreases |calls|
  {
    if calls != [] {
      var c, rest := calls[0], Drop(list, calls[0].key);
      DropKeepsOrder(list, c.key, b, a);
      var i, j :| 0 <= i < j < |rest| && rest[i].key == Some(b) && rest[j].key == Some(a);
      var list' := ScheduleCall(list, c).0;
      var one := |list'| - |rest|;
      assert list'[i + one].key == Some(b) && list'[j + one].key == Some(a);
      CallsKeepOrder(list', calls[1..], b, a);
    }
  }

  /** Of two live timers the one scheduled later stands first. */
  lemma LaterStandsFirst(list: seq<Timer>, a: Key, later: Call, calls: seq<Call>)
    requires HasKey(list, a) && later.key != a && later.ms >= 0
    requires forall i :: 0 <= i < |calls| ==> calls[i].key != a && calls[i].key != later.key
    ensures var list' := ApplyCalls(list, [later] + calls);
            exists i, j :: 0 <= i < j < |list'| && list'[i].key == Some(later.key) && list'[j].key == Some(a)
  {
    var rest, list' := Drop(list, later.key), ScheduleCall(list, later).0;
    DropKeepsMember(list, later.key, a);
    var k :| 0 <= k < |rest| && rest[k].key == Some(a);
    assert list'[0].key == Some(later.key) && list'[k + 1].key == Some(a);
    CallsKeepOrder(list', calls, later.key, a);
    var all := [later] + calls;
    assert all[0] == later && all[1..] == calls;
    assert ApplyCalls(list, all) == ApplyCalls(list', calls);
  }

  // ----- dispatching

  predicate IsDue(t: Timer, now: Timespec) {
    ToNsec(t.value) <= ToNsec(now)
  }

  function FirstDue(list: seq<Timer>, now: Timespec): (i: nat)
    ensures i <= |list|
    ensures i < |list| ==> IsDue(list[i], now)
    ensures forall j :: 0 <= j < i ==> !IsDue(list[j], now)
  {
    if list == [] || IsDue(list[0], now) then 0 else 1 + FirstDue(list[1..], now)
  }

  lemma FirstDueUnique(list: seq<Timer>, now: Timespec, i: nat)
    requires i <= |list| && (i < |list| ==> IsDue(list[i], now))
    requires forall j :: 0 <= j < i ==> !IsDue(list[j], now)
    ensures i == FirstDue(list, now)
  {
  }

  /** The list after the timer at position i has been removed and its callback has run. */
  function AfterDispatch(list: seq<Timer>, i: nat, calls: seq<Call>): seq<Timer>
    requires i < |list|
  {
    ApplyCalls(if list[i].key.Some? then Drop(list, list[i].key.value) else list, calls)
  }

  /** Dispatch due timers, each time the first in the list, until none is left; the n-th
      callback makes the calls behave(n). None when fuel dispatches do not suffice. */
  function Dispatch(list: seq<Timer>, behave: nat -> seq<Call>, n: nat, now: Timespec, fuel: nat)
    : (r: Option<(seq<Timer>, seq<Timer>)>)
    decreases fuel
  {
    var i := FirstDue(list, now);
    if i == |list| then Some((list, []))
    else if fuel == 0 then None
    else
      match Dispatch(AfterDispatch(list, i, behave(n)), behave, n + 1, now, fuel - 1)
      case None => None
      case Some((rest, fired)) => Some((rest, [list[i]] + fired))
  }

  /** The loop ends. */
  ghost predicate Ends(list: seq<Timer>, behave: nat -> seq<Call>, n: nat, now: Timespec) {
    exists fuel: nat :: Dispatch(list, behave, n, now, fuel).Some?
  }

  /** How the loop ends does not depend on the fuel; it takes as much as timers are fired. */
  lemma {:induction false} DispatchExact(list: seq<Timer>, behave: nat -> seq<Call>, n: nat, now: Timespec, fuel: nat)
    requires Dispatch(list, behave, n, now, fuel).Some?
    ensures var fired := Dispatch(list, behave, n, now, fuel).value.1;
            forall enough: nat ::
              if enough >= |fired| then Dispatch(list, behave, n, now, enough) == Dispatch(list, behave, n, now, fuel)
              else Dispatch(list, behave, n, now, enough).None?
    decreases fuel
  {
    var i := FirstDue(list, now);
    if i < |list| {
      DispatchExact(AfterDispatch(list, i, behave(n)), behave, n + 1, now, fuel - 1);
    }
  }

  /** Whenever the loop exits, whatever the callbacks did: no remaining timer is due, keys are
      still unique, and every fired timer was due. */
  lemma {:induction false} DispatchExit(list: seq<Timer>, behave: nat -> seq<Call>, n: nat, now: Timespec, fuel: nat)
    requires Inv(list) && Dispatch(list, behave, n, now, fuel).Some?
    ensures var (rest, fired) := Dispatch(list, behave, n, now, fuel).value;
            Inv(rest) && (forall t :: t in rest ==> !IsDue(t, now)) && (forall t :: t in fired ==> IsDue(t, now))
    decreases fuel
  {
    var i := FirstDue(list, now);
    if i < |list| {
      var list' := AfterDispatch(list, i, behave(n));
      DispatchKeepsInv(list, i, behave(n));
      DispatchExit(list', behave, n + 1, now, fuel - 1);
      var (rest, fired) := Dispatch(list', behave, n + 1, now, fuel - 1).value;
      assert Dispatch(list, behave, n, now, fuel).value == (rest, [list[i]] + fired);
    }
  }

  lemma DispatchKeepsInv(list: seq<Timer>, i: nat, calls: seq<Call>)
    requires Inv(list) && i < |list|
    ensures Inv(AfterDispatch(list, i, calls))
  {
    DropKeepsInv(list, list[i].key.value);
    CallsKeepInv(Drop(list, list[i].key.value), calls);
  }

  ghost function DueCount(list: seq<Timer>, now: Timespec): nat {
    if list == [] then 0 else (if IsDue(list[0], now) then 1 else 0) + DueCount(list[1..], now)
  }

  /** The calls set no timer that is due already. */
  ghost predicate SetFuture(calls: seq<Call>, now: Timespec) {
    forall i :: 0 <= i < |calls| && calls[i].ms >= 0 ==>
                  ToNsec(calls[i].clock) + calls[i].ms * NSEC_PER_MSEC > ToNsec(now)
  }

  /** A millisecond is enough, as the clock does not run backwards. */
  lemma OneMillisecondIsFuture(calls: seq<Call>, now: Timespec)
    requires forall i :: 0 <= i < |calls| ==> ToNsec(calls[i].clock) >= ToNsec(now) && calls[i].ms != 0
    ensures SetFuture(calls, now)
  {
  }

  lemma {:induction false} DropDueCount(list: seq<Timer>, key: Key, now: Timespec)
    ensures DueCount(Drop(list, key), now) <= DueCount(list, now)
    ensures (exists i :: 0 <= i < |list| && list[i].key == Some(key) && IsDue(list[i], now)) ==>
              DueCount(Drop(list, key), now) < DueCount(list, now)
  {
    if list != [] {
      var rest := list[1..];
      DropDueCount(rest, key, now);
      if list[0].key == Some(key) {
        assert Drop(list, key) == Drop(rest, key);
      } else {
        assert Drop(list, key)[1..] == Drop(rest, key);
      }
      if i :| 0 <= i < |list| && list[i].key == Some(key) && IsDue(list[i], now) {
        assert i > 0 ==> rest[i - 1] == list[i];
      }
    }
  }

  lemma {:induction false} CallsDueCount(list: seq<Timer>, calls: seq<Call>, now: Timespec)
    requires SetFuture(calls, now)
    ensures DueCount(ApplyCalls(list, calls), now) <= DueCount(list, now)
    decreases |calls|
  {
    if calls != [] {
      var c := calls[0];
      var list' := ScheduleCall(list, c).0;
      DropDueCount(list, c.key, now);
      NormalForm(c.clock, ToNsec(c.clock) + c.ms * NSEC_PER_MSEC);
      assert c.ms >= 0 ==> list'[1..] == Drop(list, c.key);
      CallsDueCount(list', calls[1..], now);
    }
  }

  /** Each dispatch lowers the number of due timers if the callback sets none that is due. */
  lemma DispatchLowersDueCount(list: seq<Timer>, i: nat, calls: seq<Call>, now: Timespec)
    requires i < |list| && list[i].key.Some? && IsDue(list[i], now) && SetFuture(calls, now)
    ensures DueCount(AfterDispatch(list, i, calls), now) < DueCount(list, now)
  {
    DropDueCount(list, list[i].key.value, now);
    CallsDueCount(Drop(list, list[i].key.value), calls, now);
  }

  /** If no callback sets a due timer, the loop ends within as many dispatches as timers were
      due. */
  lemma {:induction false} DispatchWithinDueCount(list: seq<Timer>, behave: nat -> seq<Call>, n: nat, now: Timespec,
                                                  fuel: nat)
    requires Inv(list) && (forall m :: m >= n ==> SetFuture(behave(m), now)) && fuel >= DueCount(list, now)
    ensures Dispatch(list, behave, n, now, fuel).Some?
    ensures |Dispatch(list, behave, n, now, fuel).value.1| <= DueCount(list, now)
    decreases fuel
  {
    var i := FirstDue(list, now);
    if i < |list| {
      DispatchLowersDueCount(list, i, behave(n), now);
      DispatchKeepsInv(list, i, behave(n));
      DispatchWithinDueCount(AfterDispatch(list, i, behave(n)), behave, n + 1, now, fuel - 1);
    }
  }

  /** It is enough that from some dispatch on no callback sets a due timer. */
  lemma {:induction false} DispatchTerminates(list: seq<Timer>, behave: nat -> seq<Call>, n: nat, now: Timespec,
                                              calm: nat)
    requires Inv(list) && forall m :: m >= calm ==> SetFuture(behave(m), now)
    ensures Ends(list, behave, n, now)
    decreases calm - n
  {
    var i := FirstDue(list, now);
    if n >= calm {
      DispatchWithinDueCount(list, behave, n, now, DueCount(list, now));
    } else if i < |list| {
      DispatchKeepsInv(list, i, behave(n));
      DispatchTerminates(AfterDispatch(list, i, behave(n)), behave, n + 1, now, calm);
      var fuel: nat :| Dispatch(AfterDispatch(list, i, behave(n)), behave, n + 1, now, fuel).Some?;
      assert Dispatch(list, behave, n, now, fuel + 1).Some?;
    } else {
      assert Dispatch(list, behave, n, now, 0).Some?;
    }
  }

  // ----- callbacks that schedule only themselves

  ghost predicate AllOn(calls: seq<Call>, key: Key) {
    forall i :: 0 <= i < |calls| ==> calls[i].key == key
  }

  /** For fuel dispatches every callback schedules or removes only its own key. */
  ghost predicate OwnOnly(list: seq<Timer>, behave: nat -> seq<Call>, n: nat, now: Timespec, fuel: nat)
    decreases fuel
  {
    var i := FirstDue(list, now);
    i < |list| && fuel > 0 ==>
      && list[i].key.Some? && AllOn(behave(n), list[i].key.value)
      && OwnOnly(AfterDispatch(list, i, behave(n)), behave, n + 1, now, fuel - 1)
  }

  /** The calls do not leave their key due: the last of them, if any, removes the timer or sets
      it in the future. */
  predicate Leaves(calls: seq<Call>, now: Timespec) {
    calls == [] ||
    var last := calls[|calls| - 1];
    last.ms < 0 || ToNsec(last.clock) + last.ms * NSEC_PER_MSEC > ToNsec(now)
  }

  /** How many of fuel dispatches from the n-th on have such a callback. */
  function Leavers(behave: nat -> seq<Call>, n: nat, now: Timespec, fuel: nat): nat
    decreases fuel
  {
    if fuel == 0 then 0 else (if Leaves(behave(n), now) then 1 else 0) + Leavers(behave, n + 1, now, fuel - 1)
  }

  lemma {:induction false} DropAbsent(list: seq<Timer>, key: Key)
    requires !HasKey(list, key)
    ensures Drop(list, key) == list
  {
    if list != [] {
      assert list[0].key != Some(key);
      assert forall i :: 0 <= i < |list| - 1 ==> list[1..][i] == list[i + 1];
      DropAbsent(list[1..], key);
    }
  }

  /** Removing a due timer makes exactly one fewer due. */
  lemma {:induction false} DropDueExactly(list: seq<Timer>, i: nat, now: Timespec)
    requires OnePerKey(list) && i < |list| && list[i].key.Some? && IsDue(list[i], now)
    ensures DueCount(Drop(list, list[i].key.value), now) == DueCount(list, now) - 1
  {
    var key, rest := list[i].key.value, list[1..];
    if i == 0 {
      DropAbsent(rest, key);
      assert Drop(list, key) == rest;
    } else {
      assert OnePerKey(rest) && rest[i - 1] == list[i];
      DropDueExactly(rest, i - 1, now);
      assert Drop(list, key)[1..] == Drop(rest, key);
    }
  }

  lemma {:induction false} NothingDue(list: seq<Timer>, now: Timespec)
    ensures FirstDue(list, now) == |list| <==> DueCount(list, now) == 0
  {
    if list != [] {
      NothingDue(list[1..], now);
    }
  }

  /** Of calls on one key only the last counts. */
  lemma {:induction false} LastCallCounts(list: seq<Timer>, key: Key, calls: seq<Call>)
    requires AllOn(calls, key) && calls != []
    ensures ApplyCalls(list, calls) == ScheduleCall(list, calls[|calls| - 1]).0
    decreases |calls|
  {
    var list', rest := ScheduleCall(list, calls[0]).0, calls[1..];
    if rest == [] {
      assert ApplyCalls(list', rest) == list';
    } else {
      LastCallCounts(list', key, rest);
      DropTwice(list, key);
      if calls[0].ms >= 0 {
        assert list'[1..] == Drop(list, key);
        assert [] + Drop(list'[1..], key) == Drop(list'[1..], key);
      }
    }
  }

  lemma DropTwice(list: seq<Timer>, key: Key)
    ensures Drop(Drop(list, key), key) == Drop(list, key)
  {
    DropMembers(list, key);
    assert forall i :: 0 <= i < |Drop(list, key)| ==> Drop(list, key)[i] in Drop(list, key);
    DropAbsent(Drop(list, key), key);
  }

  /** A dispatch takes one due timer away exactly when its callback does not leave its own key
      due. */
  lemma OwnDispatch(list: seq<Timer>, i: nat, calls: seq<Call>, now: Timespec)
    requires Inv(list) && i < |list| && IsDue(list[i], now) && AllOn(calls, list[i].key.value)
    ensures DueCount(AfterDispatch(list, i, calls), now) == DueCount(list, now) - if Leaves(calls, now) then 1 else 0
  {
    var key := list[i].key.value;
    DropDueExactly(list, i, now);
    DropTwice(list, key);
    if calls != [] {
      var last := calls[|calls| - 1];
      LastCallCounts(Drop(list, key), key, calls);
      NormalForm(last.clock, ToNsec(last.clock) + last.ms * NSEC_PER_MSEC);
      assert last.ms >= 0 ==> ([Cell(Some(key), Due(last.clock, last.ms))] + Drop(list, key))[1..] == Drop(list, key);
    }
  }

  /** Exactly when the loop ends within fuel dispatches, however many timers there are: when as
      many callbacks leave as timers were due. */
  lemma {:induction false} OwnOnlyEnds(list: seq<Timer>, behave: nat -> seq<Call>, n: nat, now: Timespec, fuel: nat)
    requires Inv(list) && OwnOnly(list, behave, n, now, fuel)
    ensures Dispatch(list, behave, n, now, fuel).Some? <==> Leavers(behave, n, now, fuel) >= DueCount(list, now)
    decreases fuel
  {
    var i := FirstDue(list, now);
    NothingDue(list, now);
    if i < |list| && fuel > 0 {
      DispatchKeepsInv(list, i, behave(n));
      OwnDispatch(list, i, behave(n), now);
      OwnOnlyEnds(AfterDispatch(list, i, behave(n)), behave, n + 1, now, fuel - 1);
    }
  }

  lemma OwnOnlyEndsExactly(list: seq<Timer>, behave: nat -> seq<Call>, now: Timespec)
    requires Inv(list) && forall fuel: nat :: OwnOnly(list, behave, 0, now, fuel)
    ensures Ends(list, behave, 0, now) <==>
              exists fuel: nat :: Leavers(behave, 0, now, fuel) >= DueCount(list, now)
  {
    if fuel: nat :| Dispatch(list, behave, 0, now, fuel).Some? {
      OwnOnlyEnds(list, behave, 0, now, fuel);
    }
    if fuel: nat :| Leavers(behave, 0, now, fuel) >= DueCount(list, now) {
      OwnOnlyEnds(list, behave, 0, now, fuel);
    }
  }

  // ----- one key alone

  ghost predicate OnlyDue(list: seq<Timer>, key: Key, now: Timespec) {
    forall t :: t in list && IsDue(t, now) ==> t.key == Some(key)
  }

  lemma OwnDispatchList(list: seq<Timer>, i: nat, key: Key, calls: seq<Call>)
    requires i < |list| && list[i].key == Some(key) && AllOn(calls, key)
    ensures AfterDispatch(list, i, calls)
         == if calls == [] then Drop(list, key) else ScheduleCall(list, calls[|calls| - 1]).0
  {
    DropTwice(list, key);
    if calls != [] {
      LastCallCounts(Drop(list, key), key, calls);
    }
  }

  lemma OneKeyStep(list: seq<Timer>, i: nat, key: Key, calls: seq<Call>, now: Timespec)
    requires OnlyDue(list, key, now) && AllOn(calls, key) && i < |list| && IsDue(list[i], now)
    ensures list[i].key == Some(key) && OnlyDue(AfterDispatch(list, i, calls), key, now)
  {
    assert list[i] in list;
    OwnDispatchList(list, i, key, calls);
    DropMembers(list, key);
  }

  /** While nothing else is due, a key whose callback speaks only of itself is fired alone. */
  lemma {:induction false} OneKeyIsOwnOnly(list: seq<Timer>, key: Key, behave: nat -> seq<Call>, n: nat, now: Timespec,
                                           fuel: nat)
    requires OnlyDue(list, key, now) && forall m :: m >= n ==> AllOn(behave(m), key)
    ensures OwnOnly(list, behave, n, now, fuel)
    decreases fuel
  {
    var i := FirstDue(list, now);
    if fuel > 0 && i < |list| {
      OneKeyStep(list, i, key, behave(n), now);
      OneKeyIsOwnOnly(AfterDispatch(list, i, behave(n)), key, behave, n + 1, now, fuel - 1);
    }
  }

  lemma {:induction false} SomeLeaver(behave: nat -> seq<Call>, n: nat, now: Timespec, fuel: nat)
    ensures Leavers(behave, n, now, fuel) >= 1 <==> exists m :: n <= m < n + fuel && Leaves(behave(m), now)
    decreases fuel
  {
    if fuel > 0 {
      SomeLeaver(behave, n + 1, now, fuel - 1);
    }
  }

  /** When one timer is due and its callback schedules only itself, the loop ends exactly when
      some call of the callback leaves. */
  lemma RenewalEndsExactly(list: seq<Timer>, key: Key, behave: nat -> seq<Call>, now: Timespec)
    requires Inv(list) && OnlyDue(list, key, now) && DueCount(list, now) == 1
    requires forall m: nat :: AllOn(behave(m), key)
    ensures Ends(list, behave, 0, now) <==> exists m: nat :: Leaves(behave(m), now)
  {
    forall fuel: nat
      ensures OwnOnly(list, behave, 0, now, fuel)
    {
      OneKeyIsOwnOnly(list, key, behave, 0, now, fuel);
    }
    OwnOnlyEndsExactly(list, behave, now);
    if fuel: nat :| Leavers(behave, 0, now, fuel) >= DueCount(list, now) {
      SomeLeaver(behave, 0, now, fuel);
    }
    if m: nat :| Leaves(behave(m), now) {
      SomeLeaver(behave, 0, now, m + 1);
    }
  }

  /** After a dispatch whose callback leaves, other timers of the list may be due, but no new
      one and none of its key. */
  lemma LeaverIsGone(list: seq<Timer>, i: nat, key: Key, calls: seq<Call>, now: Timespec)
    requires i < |list| && list[i].key == Some(key) && AllOn(calls, key) && Leaves(calls, now)
    ensures forall t :: t in AfterDispatch(list, i, calls) && IsDue(t, now) ==> t in list && t.key != Some(key)
  {
    OwnDispatchList(list, i, key, calls);
    DropMembers(list, key);
    if calls != [] {
      var last := calls[|calls| - 1];
      NormalForm(last.clock, ToNsec(last.clock) + last.ms * NSEC_PER_MSEC);
    }
  }

  /** A due callback that keeps leaving its key due is fired for ever. */
  lemma StayerNeverEnds(list: seq<Timer>, key: Key, behave: nat -> seq<Call>, n: nat, now: Timespec, fuel: nat)
    requires Inv(list) && OnlyDue(list, key, now) && DueCount(list, now) > 0
    requires forall m :: m >= n ==> AllOn(behave(m), key) && !Leaves(behave(m), now)
    ensures Dispatch(list, behave, n, now, fuel).None?
  {
    OneKeyIsOwnOnly(list, key, behave, n, now, fuel);
    OwnOnlyEnds(list, behave, n, now, fuel);
    SomeLeaver(behave, n, now, fuel);
  }

  /** One callback that leaves does not end the loop while another one renews itself. */
  lemma OneLeaverIsNotEnough(a: Key, b: Key, behave: nat -> seq<Call>, now: Timespec, fuel: nat)
    requires a != b && Normalized(now) && behave(0) == [Call(1, a, now)]
    requires forall m :: m >= 1 ==> behave(m) == [Call(0, b, now)]
    ensures Leaves(behave(0), now)
    ensures Dispatch([Cell(Some(a), now), Cell(Some(b), now)], behave, 0, now, fuel).None?
  {
    var x, y := Cell(Some(a), now), Cell(Some(b), now);
    var list := [x, y];
    assert list[1..] == [y] && [y][1..] == [];
    assert DueCount([], now) == 0 && DueCount([y], now) == 1 && DueCount(list, now) == 2;
    FirstDueUnique(list, now, 0);
    if fuel > 0 {
      OwnDispatch(list, 0, behave(0), now);
      LeaverIsGone(list, 0, a, behave(0), now);
      DispatchKeepsInv(list, 0, behave(0));
      StayerNeverEnds(AfterDispatch(list, 0, behave(0)), b, behave, 1, now, fuel - 1);
    }
  }

  // ----- the loop, step by step

  /** A loop that has fired these timers and has this list left comes to the end goal. */
  ghost predicate OnCourse(list: seq<Timer>, fired: seq<Timer>, behave: nat -> seq<Call>, now: Timespec, fuel: nat,
                           goal: (seq<Timer>, seq<Timer>))
    decreases fuel
  {
    var i := FirstDue(list, now);
    if i == |list| then goal == (list, fired)
    else
      && fuel > 0
      && OnCourse(AfterDispatch(list, i, behave(|fired|)), fired + [list[i]], behave, now, fuel - 1, goal)
  }

  /** The step by step loop comes to the end that the dispatch describes. */
  lemma {:induction false} DispatchOnCourse(list: seq<Timer>, fired: seq<Timer>, behave: nat -> seq<Call>,
                                            now: Timespec, fuel: nat)
    requires Dispatch(list, behave, |fired|, now, fuel).Some?
    ensures var (rest, more) := Dispatch(list, behave, |fired|, now, fuel).value;
            OnCourse(list, fired, behave, now, fuel, (rest, fired + more))
    decreases fuel
  {
    var i := FirstDue(list, now);
    if i < |list| {
      var list', fired' := AfterDispatch(list, i, behave(|fired|)), fired + [list[i]];
      DispatchOnCourse(list', fired', behave, now, fuel - 1);
      ConcatAssociates(fired, [list[i]], Dispatch(list', behave, |fired'|, now, fuel - 1).value.1);
    } else {
      assert fired + [] == fired;
    }
  }

  lemma CourseBegins(list: seq<Timer>, behave: nat -> seq<Call>, now: Timespec)
    returns (fuel: nat, goal: (seq<Timer>, seq<Timer>))
    requires Ends(list, behave, 0, now)
    ensures OnCourse(list, [], behave, now, fuel, goal)
    ensures Dispatch(list, behave, 0, now, |goal.1|) == Some(goal)
  {
    fuel :| Dispatch(list, behave, 0, now, fuel).Some?;
    goal := Dispatch(list, behave, 0, now, fuel).value;
    DispatchExact(list, behave, 0, now, fuel);
    DispatchOnCourse(list, [], behave, now, fuel);
    assert [] + goal.1 == goal.1;
  }

  /** One dispatch stays on course. */
  lemma CourseStep(list: seq<Timer>, fired: seq<Timer>, behave: nat -> seq<Call>, now: Timespec, fuel: nat,
                   goal: (seq<Timer>, seq<Timer>), i: nat)
    requires OnCourse(list, fired, behave, now, fuel, goal) && i < |list| && IsDue(list[i], now)
    requires forall j :: 0 <= j < i ==> !IsDue(list[j], now)
    ensures fuel > 0
    ensures OnCourse(AfterDispatch(list, i, behave(|fired|)), fired + [list[i]], behave, now, fuel - 1, goal)
  {
    FirstDueUnique(list, now, i);
  }

  /** With nothing due the goal is reached. */
  lemma CourseEnds(list: seq<Timer>, fired: seq<Timer>, behave: nat -> seq<Call>, now: Timespec, fuel: nat,
                   goal: (seq<Timer>, seq<Timer>))
    requires OnCourse(list, fired, behave, now, fuel, goal)
    requires forall j :: 0 <= j < |list| ==> !IsDue(list[j], now)
    ensures goal == (list, fired)
  {
    FirstDueUnique(list, now, |list|);
  }

  // ----- the next timer

  /** next is the position of an earliest timer, the last one if there are several. */
  ghost predicate IsNext(list: seq<Timer>, next: Option<nat>) {
    match next
    case None => list == []
    case Some(k) =>
      && k < |list|
      && (forall i :: 0 <= i < |list| ==> ToNsec(list[k].value) <= ToNsec(list[i].value))
      && (forall i :: k < i < |list| ==> ToNsec(list[k].value) < ToNsec(list[i].value))
  }

  /** The scan takes over a timer that is not later than the earliest so far. */
  lemma NextStep(list: seq<Timer>, next: Option<nat>, i: nat)
    requires i < |list| && IsNext(list[..i], next)
    ensures IsNext(list[..i + 1],
                   if next.None? || ToNsec(list[i].value) <= ToNsec(list[next.value].value) then Some(i) else next)
  {
    assert forall j :: 0 <= j < i ==> list[..i][j] == list[..i + 1][j];
  }
}
