/** The table of key bindings: what a history of bind and unbind commands leaves in it. */
module BindingTable {
  import opened Common

  datatype Key = Key(keysym: nat, mask: nat)

  /** A parsed binding; the parser yields at least one key. */
  datatype Binding = Binding(keys: seq<Key>, command: string)

  predicate Parsed(b: Binding) {
    b.keys != []
  }

  ghost predicate AllParsed(table: seq<Binding>) {
    forall i :: 0 <= i < |table| ==> Parsed(table[i])
  }

  // ----- what the two commands do to the table

  /** The first position whose first keysym is not below the given one. */
  function InsertPosition(table: seq<Binding>, keysym: nat): (p: nat)
    requires AllParsed(table)
    ensures p <= |table|
    ensures forall i :: 0 <= i < p ==> table[i].keys[0].keysym < keysym
    ensures p < |table| ==> table[p].keys[0].keysym >= keysym
  {
    if table == [] || table[0].keys[0].keysym >= keysym then 0
    else 1 + InsertPosition(table[1..], keysym)
  }

  function Insert(table: seq<Binding>, b: Binding): seq<Binding>
    requires AllParsed(table) && Parsed(b)
  {
    var p := InsertPosition(table, b.keys[0].keysym);
    table[..p] + [b] + table[p..]
  }

  /** The bindings with another key sequence, in order. */
  function Without(table: seq<Binding>, keys: seq<Key>): (r: seq<Binding>)
    ensures |r| <= |table|
    ensures AllParsed(table) ==> AllParsed(r)
  {
    if table == [] then []
    else (if table[0].keys == keys then [] else [table[0]]) + Without(table[1..], keys)
  }

  datatype Change = Bind(binding: Binding) | Unbind(keys: seq<Key>)

  ghost predicate ParsedChange(c: Change) {
    c.Bind? ==> Parsed(c.binding)
  }

  ghost predicate ParsedHistory(history: seq<Change>) {
    forall i :: 0 <= i < |history| ==> ParsedChange(history[i])
  }

  function Apply(table: seq<Binding>, c: Change): (r: seq<Binding>)
    requires AllParsed(table) && ParsedChange(c)
    ensures AllParsed(r)
  {
    match c
    case Bind(b) => Insert(table, b)
    case Unbind(keys) => Without(table, keys)
  }

  function TableOf(history: seq<Change>): (table: seq<Binding>)
    requires ParsedHistory(history)
    ensures AllParsed(table)
  {
    if history == [] then [] else Apply(TableOf(history[..|history| - 1]), history[|history| - 1])
  }

  // ----- the reference: a list of live bindings, newest first

  ghost function NewestFirst(history: seq<Change>): seq<Binding> {
    if history == [] then []
    else
      var earlier := NewestFirst(history[..|history| - 1]);
      match history[|history| - 1]
      case Bind(b) => [b] + earlier
      case Unbind(keys) => Without(earlier, keys)
  }

  /** The bindings whose first keysym is the given one, in order. */
  ghost function StartingWith(table: seq<Binding>, keysym: nat): seq<Binding> {
    if table == [] then []
    else (if Parsed(table[0]) && table[0].keys[0].keysym == keysym then [table[0]] else [])
         + StartingWith(table[1..], keysym)
  }

  ghost predicate Sorted(table: seq<Binding>) {
    AllParsed(table) && forall i, j :: 0 <= i < j < |table| ==> table[i].keys[0].keysym <= table[j].keys[0].keysym
  }

  lemma {:induction false} StartingWithAppend(a: seq<Binding>, b: seq<Binding>, keysym: nat)
    ensures StartingWith(a + b, keysym) == StartingWith(a, keysym) + StartingWith(b, keysym)
  {
    if a == [] {
      assert a + b == b;
    } else {
      assert (a + b)[1..] == a[1..] + b;
      StartingWithAppend(a[1..], b, keysym);
    }
  }

  lemma {:induction false} StartingWithNone(table: seq<Binding>, keysym: nat)
    requires AllParsed(table) && forall i :: 0 <= i < |table| ==> table[i].keys[0].keysym != keysym
    ensures StartingWith(table, keysym) == []
  {
    if table != [] {
      StartingWithNone(table[1..], keysym);
    }
  }

  /** Insertion puts the new binding before those with the same first keysym. */
  lemma InsertNewest(table: seq<Binding>, b: Binding, keysym: nat)
    requires AllParsed(table) && Parsed(b)
    ensures StartingWith(Insert(table, b), keysym)
         == (if b.keys[0].keysym == keysym then [b] else []) + StartingWith(table, keysym)
  {
    var p := InsertPosition(table, b.keys[0].keysym);
    StartingWithAppend(table[..p] + [b], table[p..], keysym);
    StartingWithAppend(table[..p], [b], keysym);
    StartingWithAppend(table[..p], table[p..], keysym);
    assert table == table[..p] + table[p..];
    assert [b][1..] == [];
    if b.keys[0].keysym == keysym {
      StartingWithNone(table[..p], keysym);
    }
  }

  lemma InsertKeepsSorted(table: seq<Binding>, b: Binding)
    requires Sorted(table) && Parsed(b)
    ensures Sorted(Insert(table, b))
  {
  }

  lemma {:induction false} WithoutAndStartingWith(table: seq<Binding>, keys: seq<Key>, keysym: nat)
    ensures StartingWith(Without(table, keys), keysym) == Without(StartingWith(table, keysym), keys)
  {
    if table != [] {
      WithoutAndStartingWith(table[1..], keys, keysym);
      var head := if table[0].keys == keys then [] else [table[0]];
      StartingWithAppend(head, Without(table[1..], keys), keysym);
      var head' := if Parsed(table[0]) && table[0].keys[0].keysym == keysym then [table[0]] else [];
      WithoutAppend(head', StartingWith(table[1..], keysym), keys);
      assert [table[0]][1..] == [];
    }
  }

  lemma {:induction false} WithoutAppend(a: seq<Binding>, b: seq<Binding>, keys: seq<Key>)
    ensures Without(a + b, keys) == Without(a, keys) + Without(b, keys)
  {
    if a == [] {
      assert a + b == b;
    } else {
      assert (a + b)[1..] == a[1..] + b;
      WithoutAppend(a[1..], b, keys);
    }
  }

  /** Removal drops every binding of exactly these keys and keeps each other one as often as
      it occurred. */
  lemma {:induction false} WithoutIsFilter(table: seq<Binding>, keys: seq<Key>, b: Binding)
    ensures multiset(Without(table, keys))[b] == if b.keys == keys then 0 else multiset(table)[b]
  {
    if table != [] {
      WithoutIsFilter(table[1..], keys, b);
      var head := if table[0].keys == keys then [] else [table[0]];
      assert table == [table[0]] + table[1..];
      assert multiset(table) == multiset([table[0]]) + multiset(table[1..]);
      assert multiset(Without(table, keys)) == multiset(head) + multiset(Without(table[1..], keys));
    }
  }

  lemma {:induction false} WithoutKeepsSorted(table: seq<Binding>, keys: seq<Key>)
    requires Sorted(table)
    ensures Sorted(Without(table, keys))
  {
    if table != [] {
      var rest := Without(table[1..], keys);
      WithoutKeepsSorted(table[1..], keys);
      forall i | 0 <= i < |rest|
        ensures table[0].keys[0].keysym <= rest[i].keys[0].keysym
      {
        WithoutIsFilter(table[1..], keys, rest[i]);
        assert rest[i] in multiset(rest);
        assert rest[i] in table[1..];
      }
    }
  }

  /** After any history the table is sorted by first keysym, and among bindings with one
      first keysym it lists the live ones newest first. The two facts determine it. */
  lemma {:induction false} TableIsStableSort(history: seq<Change>, keysym: nat)
    requires ParsedHistory(history)
    ensures Sorted(TableOf(history))
    ensures StartingWith(TableOf(history), keysym) == StartingWith(NewestFirst(history), keysym)
  {
    if history != [] {
      var earlier, c := history[..|history| - 1], history[|history| - 1];
      TableIsStableSort(earlier, keysym);
      assert ParsedChange(c);
      match c
      case Bind(b) =>
        InsertKeepsSorted(TableOf(earlier), b);
        InsertNewest(TableOf(earlier), b, keysym);
        StartingWithAppend([b], NewestFirst(earlier), keysym);
        assert [b][1..] == [];
      case Unbind(keys) =>
        WithoutKeepsSorted(TableOf(earlier), keys);
        WithoutAndStartingWith(TableOf(earlier), keys, keysym);
        WithoutAndStartingWith(NewestFirst(earlier), keys, keysym);
    }
  }

  lemma StartingWithMember(table: seq<Binding>, keysym: nat, b: Binding)
    ensures b in StartingWith(table, keysym) <==> b in table && Parsed(b) && b.keys[0].keysym == keysym
  {
    if table != [] {
      StartingWithMember(table[1..], keysym, b);
      assert table == [table[0]] + table[1..];
    }
  }

  /** Two sorted tables that agree on every first keysym are equal. */
  lemma {:induction false} SortedDetermined(a: seq<Binding>, b: seq<Binding>)
    requires Sorted(a) && Sorted(b)
    requires forall keysym :: StartingWith(a, keysym) == StartingWith(b, keysym)
    ensures a == b
  {
    if a == [] {
      assert b != [] ==> StartingWith(b, b[0].keys[0].keysym) != [];
    } else {
      var k := a[0].keys[0].keysym;
      assert StartingWith(a, k)[0] == a[0];
      StartingWithMember(b, k, a[0]);
      assert a[0] in b;
      var k' := b[0].keys[0].keysym;
      assert StartingWith(b, k')[0] == b[0];
      StartingWithMember(a, k', b[0]);
      assert k == k';
      forall keysym
        ensures StartingWith(a[1..], keysym) == StartingWith(b[1..], keysym)
      {
        assert StartingWith(a, keysym) == StartingWith(b, keysym);
        if keysym == k {
          assert StartingWith(a[1..], k) == StartingWith(a, k)[1..];
          assert StartingWith(b[1..], k) == StartingWith(b, k)[1..];
        } else {
          assert StartingWith(a, keysym) == [] + StartingWith(a[1..], keysym) == StartingWith(a[1..], keysym);
          assert StartingWith(b, keysym) == [] + StartingWith(b[1..], keysym) == StartingWith(b[1..], keysym);
        }
      }
      SortedDetermined(a[1..], b[1..]);
      assert a == [a[0]] + a[1..] && b == [b[0]] + b[1..];
    }
  }

  // ----- looking a key sequence up

  function Lookup(table: seq<Binding>, keys: seq<Key>): Option<string> {
    if table == [] then None
    else if table[0].keys == keys then Some(table[0].command)
    else Lookup(table[1..], keys)
  }

  /** The command of the last bind of these keys that no later unbind has taken back. */
  ghost function MostRecent(history: seq<Change>, keys: seq<Key>): Option<string> {
    if history == [] then None
    else match history[|history| - 1]
      case Bind(b) => if b.keys == keys then Some(b.command) else MostRecent(history[..|history| - 1], keys)
      case Unbind(ks) => if ks == keys then None else MostRecent(history[..|history| - 1], keys)
  }

  lemma {:induction false} LookupWithout(table: seq<Binding>, gone: seq<Key>, keys: seq<Key>)
    ensures Lookup(Without(table, gone), keys) == if gone == keys then None else Lookup(table, keys)
  {
    if table != [] {
      LookupWithout(table[1..], gone, keys);
      if table[0].keys != gone {
        assert Without(table, gone)[1..] == Without(table[1..], gone);
      } else {
        assert Without(table, gone) == Without(table[1..], gone);
      }
    }
  }

  lemma {:induction false} LookupStartingWith(table: seq<Binding>, keys: seq<Key>)
    requires keys != []
    ensures Lookup(StartingWith(table, keys[0].keysym), keys) == Lookup(table, keys)
  {
    if table != [] {
      LookupStartingWith(table[1..], keys);
      var rest := StartingWith(table[1..], keys[0].keysym);
      assert ([table[0]] + rest)[1..] == rest;
      assert [] + rest == rest;
    }
  }

  lemma {:induction false} LookupNewestFirst(history: seq<Change>, keys: seq<Key>)
    ensures Lookup(NewestFirst(history), keys) == MostRecent(history, keys)
  {
    if history != [] {
      var earlier := history[..|history| - 1];
      LookupNewestFirst(earlier, keys);
      match history[|history| - 1]
      case Bind(b) => assert ([b] + NewestFirst(earlier))[1..] == NewestFirst(earlier);
      case Unbind(gone) => LookupWithout(NewestFirst(earlier), gone, keys);
    }
  }

  /** The first table entry for a key sequence is its most recent live binding. */
  lemma LookupIsMostRecent(history: seq<Change>, keys: seq<Key>)
    requires ParsedHistory(history) && keys != []
    ensures Lookup(TableOf(history), keys) == MostRecent(history, keys)
  {
    TableIsStableSort(history, keys[0].keysym);
    LookupStartingWith(TableOf(history), keys);
    LookupStartingWith(NewestFirst(history), keys);
    LookupNewestFirst(history, keys);
  }
}
