/** The key-binding state of the browser: the growing sorted array and the key buffer. */
module BindingStates {
  import opened Common
  import opened BindingTable
  import opened KeyBindings

  lemma InsertBefore(table: seq<Binding>, b: Binding, i: nat)
    requires AllParsed(table) && Parsed(b) && i <= |table|
    requires forall j :: 0 <= j < i ==> table[j].keys[0].keysym < b.keys[0].keysym
    requires i < |table| ==> table[i].keys[0].keysym >= b.keys[0].keysym
    ensures AllParsed(Insert(table, b)) && Insert(table, b) == table[..i] + [b] + table[i..]
  {
    assert i == InsertPosition(table, b.keys[0].keysym);
  }

  lemma WithoutHead(table: seq<Binding>, keys: seq<Key>, i: nat)
    requires i < |table|
    ensures Without(table[i..], keys)
         == (if table[i].keys == keys then [] else [table[i]]) + Without(table[i + 1..], keys)
  {
    assert table[i..][1..] == table[i + 1..];
  }

  /** memmove one place up and store b in the gap. */
  method InsertAt(a: array<Binding>, n: nat, i: nat, b: Binding)
    requires i <= n < a.Length
    modifies a
    ensures a[..n + 1] == old(a[..i]) + [b] + old(a[i..n])
  {
    forall j | i <= j < n {
      a[j + 1] := a[j];
    }
    a[i] := b;
  }

  /** memmove one place down over entry i. */
  method DeleteAt(a: array<Binding>, n: nat, i: nat)
    requires i < n <= a.Length
    modifies a
    ensures a[..n - 1] == old(a[..i]) + old(a[i + 1..n])
  {
    forall j | i <= j < n - 1 {
      a[j] := a[j + 1];
    }
  }

  /** Deleting a matching entry, or stepping over another one, leaves the same to be kept. */
  lemma WithoutStep(table: seq<Binding>, keys: seq<Key>, i: nat)
    requires i < |table|
    ensures table[..i] + Without(table[i..], keys)
         == (if table[i].keys == keys then table[..i] else table[..i + 1]) + Without(table[i + 1..], keys)
  {
    WithoutHead(table, keys, i);
    var head := if table[i].keys == keys then [] else [table[i]];
    ConcatAssociates(table[..i], head, Without(table[i + 1..], keys));
    assert table[..i] + head == if table[i].keys == keys then table[..i] else table[..i + 1];
  }

  class Bindings {
    const buffer: array<Key>
    var nbuf: nat
    var bindings: array?<Binding>
    var nbindings: nat
    var zbindings: nat

    ghost predicate Valid()
      reads this, bindings, buffer
    {
      && buffer.Length == KEYBUF_SIZE && nbuf <= KEYBUF_SIZE
      && (if bindings == null then nbindings == 0 && zbindings == 0
          else bindings.Length == zbindings && nbindings < zbindings)
      && AllParsed(Table())
    }

    ghost function Table(): seq<Binding>
      reads this`bindings, this`nbindings, bindings
    {
      if bindings == null || bindings.Length < nbindings then [] else bindings[..nbindings]
    }

    ghost function Buffered(): seq<Key>
      reads this`nbuf, buffer
    {
      if buffer.Length < nbuf then [] else buffer[..nbuf]
    }

    constructor ()
      ensures Valid() && Table() == [] && Buffered() == []
    {
      buffer := new Key[KEYBUF_SIZE];
      nbuf, bindings, nbindings, zbindings := 0, null, 0, 0;
    }

    /** Make room for one more binding. */
    method Grow()
      requires Valid()
      modifies this`bindings, this`zbindings
      ensures Valid() && Table() == old(Table())
      ensures zbindings == if old(nbindings) + 1 < old(zbindings) then old(zbindings)
                           else if old(zbindings) == 0 then 16 else 2 * old(zbindings)
      ensures bindings != null && nbindings + 1 < zbindings && (bindings == old(bindings) || fresh(bindings))
    {
      if nbindings + 1 >= zbindings {
        if zbindings == 0 {
          bindings := new Binding[16];
          zbindings := 16;
        } else {
          var grown := new Binding[2 * zbindings];
          forall i | 0 <= i < nbindings {
            grown[i] := bindings[i];
          }
          zbindings := 2 * zbindings;
          bindings := grown;
        }
        assert Table() == old(Table());
      }
    }

    method FindPosition(b: Binding) returns (i: nat)
      requires Valid() && Parsed(b)
      ensures i <= nbindings && Insert(Table(), b) == Table()[..i] + [b] + Table()[i..]
      ensures AllParsed(Insert(Table(), b))
    {
      i := 0;
      while i < nbindings
        invariant 0 <= i <= nbindings
        invariant forall j :: 0 <= j < i ==> Table()[j].keys[0].keysym < b.keys[0].keysym
      {
        if bindings[i].keys[0].keysym >= b.keys[0].keysym {
          break;
        }
        i := i + 1;
      }
      InsertBefore(Table(), b, i);
    }

    /** Add a binding before the first one whose first keysym is not smaller. */
    method New(b: Binding)
      requires Valid() && Parsed(b)
      modifies this`bindings, this`nbindings, this`zbindings, bindings
      ensures Valid() && Table() == Insert(old(Table()), b)
    {
      Grow();
      ghost var table := Table();
      var i := FindPosition(b);
      assert bindings[..i] == table[..i] && bindings[i..nbindings] == table[i..];
      InsertAt(bindings, nbindings, i, b);
      nbindings := nbindings + 1;
      assert Table() == table[..i] + [b] + table[i..];
    }

    /** Walk two key lists side by side; equal when both end together. */
    method SameKeys(a: seq<Key>, b: seq<Key>) returns (same: bool)
      ensures same <==> a == b
    {
      var k := 0;
      while k < |a| && k < |b|
        invariant 0 <= k <= |a| && k <= |b| && a[..k] == b[..k]
      {
        if a[k].keysym != b[k].keysym || a[k].mask != b[k].mask {
          return false;
        }
        k := k + 1;
      }
      return k == |a| && k == |b|;
    }

    method RemoveAt(i: nat)
      requires Valid() && i < nbindings
      modifies this`nbindings, bindings
      ensures Valid() && Table() == old(Table()[..i]) + old(Table()[i + 1..])
    {
      ghost var table := Table();
      assert bindings[..i] == table[..i] && bindings[i + 1..nbindings] == table[i + 1..];
      DeleteAt(bindings, nbindings, i);
      nbindings := nbindings - 1;
      assert Table() == table[..i] + table[i + 1..];
    }

    /** Remove every binding of exactly these keys. */
    method Remove(keys: seq<Key>)
      requires Valid()
      modifies this`nbindings, bindings
      ensures Valid() && Table() == Without(old(Table()), keys)
    {
      ghost var goal := Without(Table(), keys);
      var i := 0;
      assert Table()[0..] == Table();
      while i < nbindings
        invariant 0 <= i <= nbindings && Valid()
        invariant Table()[..i] + Without(Table()[i..], keys) == goal
        decreases nbindings - i
      {
        ghost var table := Table();
        WithoutStep(table, keys, i);
        var same := SameKeys(keys, bindings[i].keys);
        if same {
          RemoveAt(i);
          SplitAt(table[..i], table[i + 1..]);
        } else {
          i := i + 1;
        }
      }
      assert Table()[i..] == [] && Table()[..i] == Table();
    }

    /** Compare the buffer with one binding. */
    method GetBindingState(keys: seq<Key>) returns (state: MatchState)
      requires Valid()
      ensures state == MatchOf(Buffered(), keys)
    {
      var i := 0;
      while i < nbuf && i < |keys|
        invariant 0 <= i <= nbuf && i <= |keys|
        invariant keys[..i] == Buffered()[..i]
      {
        if keys[i].keysym != buffer[i].keysym || keys[i].mask != buffer[i].mask {
          assert keys[i] != Buffered()[i];
          return NoMatch;
        }
        i := i + 1;
      }
      if i == nbuf && i < |keys| {
        return Partial;
      }
      return Complete;
    }

    /** Compare the buffer with every binding in turn, up to the first complete one. */
    method Scan() returns (i: nat, pending: nat)
      requires Valid()
      ensures i == FirstComplete(Table(), Buffered())
      ensures i == nbindings ==>
                (pending > 0 <==> exists j :: 0 <= j < |Table()| && Buffered() < Table()[j].keys)
    {
      ghost var table, typed := Table(), Buffered();
      pending := 0;
      i := 0;
      while i < nbindings
        invariant 0 <= i <= nbindings
        invariant forall j :: 0 <= j < i ==> !(table[j].keys <= typed)
        invariant pending > 0 <==> exists j :: 0 <= j < i && typed < table[j].keys
      {
        assert bindings[i] == table[i];
        var state := GetBindingState(bindings[i].keys);
        match state {
          case Complete =>
            FirstIs(table, typed, i);
            return;
          case Partial =>
            pending := pending + 1;
          case NoMatch =>
        }
        i := i + 1;
      }
      FirstIs(table, typed, i);
    }

    method PushKey(key: Key)
      requires Valid() && nbuf < KEYBUF_SIZE
      modifies this`nbuf, buffer
      ensures Valid() && Buffered() == old(Buffered()) + [key]
    {
      buffer[nbuf] := key;
      nbuf := nbuf + 1;
    }

    /** Run, wait or discard, with the new key in the buffer. */
    method Settle() returns (outcome: Outcome)
      requires Valid()
      modifies this`nbuf
      ensures Valid() && (Buffered(), outcome) == Resolve(Table(), old(Buffered()))
    {
      var i, pending := Scan();
      if i < nbindings {
        nbuf := 0;
        return Execute(bindings[i].command);
      }
      if pending == 0 {
        nbuf := 0;
        return Discard;
      }
      return Pending;
    }

    /** One key event. The caller runs the command of an Execute outcome. */
    method Handle(key: Key, pressed: bool) returns (outcome: Outcome)
      requires Valid()
      modifies this`nbuf, buffer
      ensures Valid() && (Buffered(), outcome) == Step(Table(), old(Buffered()), key, pressed)
      ensures |old(Buffered())| == 8 ==> outcome == Overflow && Buffered() == []
      ensures |old(Buffered())| < 8 && (0xffe1 <= key.keysym <= 0xffee || !pressed) ==>
                outcome == Ignored && Buffered() == old(Buffered())
      ensures |old(Buffered())| < 8 && !(0xffe1 <= key.keysym <= 0xffee) && pressed ==>
                && outcome != Ignored && outcome != Overflow
                && Buffered() == if outcome == Pending then old(Buffered()) + [key] else []
    {
      if nbuf >= KEYBUF_SIZE {
        nbuf := 0;
        return Overflow;
      }
      if KEY_SHIFT_L <= key.keysym <= KEY_HYPER_R {
        return Ignored;
      }
      if !pressed {
        return Ignored;
      }
      PushKey(key);
      outcome := Settle();
    }
  }

  lemma {:induction false} FirstIs(table: seq<Binding>, buffer: seq<Key>, i: nat)
    requires i <= |table| && forall j :: 0 <= j < i ==> !(table[j].keys <= buffer)
    requires i < |table| ==> table[i].keys <= buffer
    ensures FirstComplete(table, buffer) == i
  {
    if i > 0 {
      FirstIs(table[1..], buffer, i - 1);
    }
  }
}
