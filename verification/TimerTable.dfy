/** The abstract meaning the two schedulers share: one timer per (callback, context) pair.
    Both keep their timers in lists of cells; a cell without a key is a tombstone. */
module TimerTable {
  import opened Common

  /** A callback function and the context it is called with, as addresses. */
  datatype Key = Key(callback: nat, context: nat)

  datatype Cell<V> = Cell(key: Option<Key>, value: V)

  /** Scheduling replaces the timer of a key; a negative time only removes it. The flag says
      whether the call reports success. */
  function Schedule<V>(timers: map<Key, V>, time: int, key: Key, value: V): (map<Key, V>, bool) {
    if time < 0 then (timers - {key}, key in timers) else (timers[key := value], true)
  }

  function Timers<V>(cells: seq<Cell<V>>): map<Key, V> {
    if cells == [] then map[]
    else
      var rest := Timers(cells[1..]);
      if cells[0].key.Some? then rest[cells[0].key.value := cells[0].value] else rest
  }

  ghost predicate OnePerKey<V>(cells: seq<Cell<V>>) {
    forall i, j :: 0 <= i < j < |cells| && cells[i].key.Some? ==> cells[i].key != cells[j].key
  }

  predicate HasKey<V>(cells: seq<Cell<V>>, key: Key) {
    exists i :: 0 <= i < |cells| && cells[i].key == Some(key)
  }

  function KillCell<V>(c: Cell<V>, key: Key): Cell<V> {
    if c.key == Some(key) then c.(key := None) else c
  }

  /** Turn the cells of a key into tombstones. */
  function Kill<V>(cells: seq<Cell<V>>, key: Key): (r: seq<Cell<V>>)
    ensures |r| == |cells|
  {
    seq(|cells|, i requires 0 <= i < |cells| => KillCell(cells[i], key))
  }

  /** The cells with another key, in order. */
  function Drop<V>(cells: seq<Cell<V>>, key: Key): (r: seq<Cell<V>>)
    ensures |r| <= |cells|
  {
    if cells == [] then []
    else (if cells[0].key == Some(key) then [] else [cells[0]]) + Drop(cells[1..], key)
  }

  lemma {:induction false} TimersKeys<V>(cells: seq<Cell<V>>, key: Key)
    ensures key in Timers(cells) <==> HasKey(cells, key)
  {
    if cells != [] {
      TimersKeys(cells[1..], key);
      assert forall i :: 0 <= i < |cells| - 1 ==> cells[1..][i] == cells[i + 1];
      if i :| 0 <= i < |cells| && cells[i].key == Some(key) {
        assert i > 0 ==> cells[1..][i - 1].key == Some(key);
      }
    }
  }

  /** The entry at i is the live one of this key, and there is no other. */
  ghost predicate IsOnlyEntry<V>(cells: seq<Cell<V>>, key: Key, i: int) {
    0 <= i < |cells| && forall j :: 0 <= j < |cells| ==> (cells[j].key == Some(key) <==> j == i)
  }

  /** There is one live entry of this key, with this value. */
  ghost predicate IsOnlyTimer<V>(cells: seq<Cell<V>>, key: Key, value: V) {
    exists i :: IsOnlyEntry(cells, key, i) && cells[i].value == value
  }

  /** The timer of a key is the value of its entry. */
  lemma {:induction false} EntryOf<V>(cells: seq<Cell<V>>, key: Key) returns (i: nat)
    requires OnePerKey(cells) && key in Timers(cells)
    ensures IsOnlyEntry(cells, key, i) && Timers(cells)[key] == cells[i].value
  {
    if cells[0].key == Some(key) {
      i := 0;
    } else {
      i := EntryOf(cells[1..], key);
      i := i + 1;
    }
  }

  lemma {:induction false} TimersAppend<V>(a: seq<Cell<V>>, b: seq<Cell<V>>)
    ensures Timers(a + b) == Timers(b) + Timers(a)
  {
    if a == [] {
      assert a + b == b;
    } else {
      assert (a + b)[1..] == a[1..] + b;
      TimersAppend(a[1..], b);
    }
  }

  lemma {:induction false} TimersOfKill<V>(cells: seq<Cell<V>>, key: Key)
    ensures Timers(Kill(cells, key)) == Timers(cells) - {key}
  {
    if cells != [] {
      assert Kill(cells, key)[1..] == Kill(cells[1..], key);
      TimersOfKill(cells[1..], key);
    }
  }

  lemma {:induction false} TimersOfDrop<V>(cells: seq<Cell<V>>, key: Key)
    ensures Timers(Drop(cells, key)) == Timers(cells) - {key}
  {
    if cells != [] {
      TimersOfDrop(cells[1..], key);
      if cells[0].key == Some(key) {
        assert Drop(cells, key) == Drop(cells[1..], key);
      } else {
        assert Drop(cells, key)[1..] == Drop(cells[1..], key);
      }
    }
  }

  lemma TimersDisjoint<V>(a: seq<Cell<V>>, b: seq<Cell<V>>)
    requires OnePerKey(a + b)
    ensures Timers(a).Keys !! Timers(b).Keys
  {
    forall key | key in Timers(a)
      ensures key !in Timers(b)
    {
      TimersKeys(a, key);
      TimersKeys(b, key);
      var i :| 0 <= i < |a| && a[i].key == Some(key);
      assert forall j :: 0 <= j < |b| ==> (a + b)[|a| + j] == b[j] && (a + b)[i] == a[i];
    }
  }

  /** Lists without a common key can be exchanged. */
  lemma TimersCommute<V>(a: seq<Cell<V>>, b: seq<Cell<V>>)
    requires OnePerKey(a + b)
    ensures Timers(a + b) == Timers(b + a)
  {
    TimersAppend(a, b);
    TimersAppend(b, a);
    TimersDisjoint(a, b);
  }

  /** Moving one cell past others that do not share its key changes nothing. */
  lemma TimersMove<V>(a: seq<Cell<V>>, c: Cell<V>, b: seq<Cell<V>>, rest: seq<Cell<V>>)
    requires OnePerKey(a + [c] + b + rest)
    ensures Timers(a + [c] + b + rest) == Timers(a + b + [c] + rest)
    ensures OnePerKey(a + b + [c] + rest)
  {
    var x, y := a + [c] + b + rest, a + b + [c] + rest;
    assert OnePerKey([c] + b) by {
      assert forall i :: 0 <= i < |b| + 1 ==> ([c] + b)[i] == x[|a| + i];
    }
    TimersCommute([c], b);
    assert x == a + ([c] + b) + rest && y == a + (b + [c]) + rest;
    TimersAppend(a + ([c] + b), rest);
    TimersAppend(a + (b + [c]), rest);
    TimersAppend(a, [c] + b);
    TimersAppend(a, b + [c]);
    forall i, j | 0 <= i < j < |y| && y[i].key.Some?
      ensures y[i].key != y[j].key
    {
      var i', j' := Source(|a|, |b|, i), Source(|a|, |b|, j);
      assert y[i] == x[i'] && y[j] == x[j'];
    }
  }

  /** Where the element at position i came from, when one element moved past n others. */
  function Source(before: nat, n: nat, i: nat): nat {
    if i < before then i else if i < before + n then i + 1 else if i == before + n then before else i
  }

  lemma OnePerKeyOfKill<V>(cells: seq<Cell<V>>, key: Key)
    requires OnePerKey(cells)
    ensures OnePerKey(Kill(cells, key)) && !HasKey(Kill(cells, key), key)
  {
  }

  lemma {:induction false} DropMembers<V>(cells: seq<Cell<V>>, key: Key)
    ensures forall c :: c in Drop(cells, key) ==> c in cells && c.key != Some(key)
    ensures OnePerKey(cells) ==> OnePerKey(Drop(cells, key))
  {
    if cells != [] {
      var rest := cells[1..];
      DropMembers(rest, key);
      assert cells == [cells[0]] + rest;
      if OnePerKey(cells) {
        assert OnePerKey(rest);
        forall j | 0 <= j < |Drop(rest, key)| && cells[0].key.Some?
          ensures Drop(rest, key)[j].key != cells[0].key
        {
          assert Drop(rest, key)[j] in rest;
        }
      }
    }
  }
}
