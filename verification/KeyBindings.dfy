/** The key-sequence matcher: a buffer of pressed keys against the table of bindings. */
module KeyBindings {
  import opened Common
  import opened BindingTable

  const KEYBUF_SIZE := 8
  const KEY_SHIFT_L := 0xffe1
  const KEY_HYPER_R := 0xffee

  datatype MatchState = Partial | Complete | NoMatch

  /** What one key event leads to. */
  datatype Outcome =
    | Ignored
    | Overflow
    | Pending
    | Discard
    | Execute(command: string)

  predicate IsModifier(keysym: nat) {
    KEY_SHIFT_L <= keysym <= KEY_HYPER_R
  }

  // ----- one event

  function MatchOf(buffer: seq<Key>, keys: seq<Key>): MatchState {
    if keys <= buffer then Complete else if buffer < keys then Partial else NoMatch
  }

  /** The first binding in the table whose keys the buffer begins with. */
  function FirstComplete(table: seq<Binding>, buffer: seq<Key>): (i: nat)
    ensures i <= |table|
    ensures i < |table| ==> table[i].keys <= buffer
    ensures forall j :: 0 <= j < i ==> !(table[j].keys <= buffer)
  {
    if table == [] || table[0].keys <= buffer then 0 else 1 + FirstComplete(table[1..], buffer)
  }

  /** What becomes of the buffer once a key has been added to it. */
  function Resolve(table: seq<Binding>, buffer: seq<Key>): (r: (seq<Key>, Outcome)) {
    var i := FirstComplete(table, buffer);
    if i < |table| then ([], Execute(table[i].command))
    else if exists j :: 0 <= j < |table| && buffer < table[j].keys then (buffer, Pending)
    else ([], Discard)
  }

  function Step(table: seq<Binding>, buffer: seq<Key>, key: Key, pressed: bool): (r: (seq<Key>, Outcome)) {
    if |buffer| >= KEYBUF_SIZE then ([], Overflow)
    else if IsModifier(key.keysym) || !pressed then (buffer, Ignored)
    else Resolve(table, buffer + [key])
  }

  /** Which events go by: with fewer than 8 keys buffered, releases and the keysyms 0xffe1 to
      0xffee. Every other key is taken up. */
  lemma EventsThatGoBy(table: seq<Binding>, buffer: seq<Key>, key: Key, pressed: bool)
    requires |buffer| <= 8
    ensures Step(table, buffer, key, pressed) == (buffer, Ignored) <==>
              |buffer| < 8 && (!pressed || 0xffe1 <= key.keysym <= 0xffee)
    ensures Step(table, buffer, key, pressed).1 == Ignored <==>
              |buffer| < 8 && (!pressed || 0xffe1 <= key.keysym <= 0xffee)
    ensures Step(table, buffer, key, pressed).1 == Overflow <==> |buffer| == 8
    ensures Step(table, buffer, key, pressed).1 == Pending ==> Step(table, buffer, key, pressed).0 == buffer + [key]
    ensures Stroke(KeyEvent(key, pressed)) == if !pressed || 0xffe1 <= key.keysym <= 0xffee then [] else [key]
  {
  }

  // ----- the invariant

  /** The buffer is empty, or a strict prefix of a binding; no binding is a prefix of it. */
  ghost predicate Matching(table: seq<Binding>, buffer: seq<Key>) {
    && AllParsed(table)
    && |buffer| <= KEYBUF_SIZE
    && (buffer == [] || exists j :: 0 <= j < |table| && buffer < table[j].keys)
    && forall j :: 0 <= j < |table| ==> !(table[j].keys <= buffer)
  }

  lemma EmptyBufferMatches(table: seq<Binding>)
    requires AllParsed(table)
    ensures Matching(table, [])
  {
  }

  lemma StepKeepsMatching(table: seq<Binding>, buffer: seq<Key>, key: Key, pressed: bool)
    requires Matching(table, buffer)
    ensures Matching(table, Step(table, buffer, key, pressed).0)
  {
    EmptyBufferMatches(table);
  }

  lemma {:induction false} FirstCompleteIsLookup(table: seq<Binding>, buffer: seq<Key>)
    requires forall j :: 0 <= j < |table| && table[j].keys <= buffer ==> table[j].keys == buffer
    ensures var i := FirstComplete(table, buffer);
            if i < |table| then Lookup(table, buffer) == Some(table[i].command) else Lookup(table, buffer) == None
  {
    if table != [] && !(table[0].keys <= buffer) {
      FirstCompleteIsLookup(table[1..], buffer);
    }
  }

  /** A command runs only when its binding equals exactly the buffered keys and the new one,
      and then it is the first such entry of the table. */
  lemma ExecutesExactMatch(table: seq<Binding>, buffer: seq<Key>, key: Key, pressed: bool)
    requires Matching(table, buffer)
    ensures Step(table, buffer, key, pressed).1.Execute? <==>
              |buffer| < KEYBUF_SIZE && pressed && !IsModifier(key.keysym) && Lookup(table, buffer + [key]).Some?
    ensures Step(table, buffer, key, pressed).1.Execute? ==>
              Lookup(table, buffer + [key]) == Some(Step(table, buffer, key, pressed).1.command)
  {
    forall j | 0 <= j < |table| && table[j].keys <= buffer + [key]
      ensures table[j].keys == buffer + [key]
    {
      PrefixOfSnoc(table[j].keys, buffer, key);
    }
    FirstCompleteIsLookup(table, buffer + [key]);
  }

  /** The buffer overflows only under a binding that could never be completed. */
  lemma OverflowNeedsLongBinding(table: seq<Binding>, buffer: seq<Key>, key: Key, pressed: bool)
    requires Matching(table, buffer) && Step(table, buffer, key, pressed).1.Overflow?
    ensures exists j :: 0 <= j < |table| && |table[j].keys| > KEYBUF_SIZE
  {
    var j :| 0 <= j < |table| && buffer < table[j].keys;
  }

  // ----- runs

  datatype Event = KeyEvent(key: Key, pressed: bool) | Reconfigure(change: Change)

  /** The keys from one reset of the buffer to the next, how they ended, and the bindings
      in force at the end. */
  datatype Segment = Segment(keys: seq<Key>, outcome: Outcome, table: seq<Binding>)

  datatype State = State(table: seq<Binding>, buffer: seq<Key>)

  /** The keys of an event that count: pressed ones that are no modifiers. */
  function Stroke(e: Event): seq<Key> {
    if e.KeyEvent? && e.pressed && !IsModifier(e.key.keysym) then [e.key] else []
  }

  function Strokes(events: seq<Event>): seq<Key> {
    if events == [] then [] else Stroke(events[0]) + Strokes(events[1..])
  }

  function KeysOf(segments: seq<Segment>): seq<Key> {
    if segments == [] then [] else segments[0].keys + KeysOf(segments[1..])
  }

  ghost predicate ParsedEvents(events: seq<Event>) {
    forall i :: 0 <= i < |events| && events[i].Reconfigure? ==> ParsedChange(events[i].change)
  }

  function Advance(s: State, e: Event): (r: (State, seq<Segment>))
    requires AllParsed(s.table) && (e.Reconfigure? ==> ParsedChange(e.change))
    ensures AllParsed(r.0.table)
  {
    match e
    case Reconfigure(change) => (s.(table := Apply(s.table, change)), [])
    case KeyEvent(key, pressed) =>
      var (buffer', outcome) := Step(s.table, s.buffer, key, pressed);
      (s.(buffer := buffer'),
       if outcome.Ignored? || outcome.Pending? then []
       else [Segment(s.buffer + Stroke(e), outcome, s.table)])
  }

  function Run(s: State, events: seq<Event>): (r: (State, seq<Segment>))
    requires AllParsed(s.table) && ParsedEvents(events)
    ensures AllParsed(r.0.table)
    decreases |events|
  {
    if events == [] then (s, [])
    else
      var (s', segments) := Advance(s, events[0]);
      var (s'', segments') := Run(s', events[1..]);
      (s'', segments + segments')
  }

  /** Bindings change only while no key is buffered. */
  ghost predicate ChangesBetweenSequences(s: State, events: seq<Event>)
    requires AllParsed(s.table) && ParsedEvents(events)
    decreases |events|
  {
    events == [] ||
    ((events[0].Reconfigure? ==> s.buffer == []) &&
     ChangesBetweenSequences(Advance(s, events[0]).0, events[1..]))
  }

  /** How a segment may end. */
  ghost predicate ProperSegment(g: Segment) {
    match g.outcome
    case Execute(command) =>
      && Lookup(g.table, g.keys) == Some(command)
      && 1 <= |g.keys| <= KEYBUF_SIZE && Matching(g.table, g.keys[..|g.keys| - 1])
    case Discard =>
      && g.keys != [] && Matching(g.table, g.keys[..|g.keys| - 1])
      && forall j :: 0 <= j < |g.table| ==> !(g.table[j].keys <= g.keys) && !(g.keys <= g.table[j].keys)
    case Overflow => |g.keys| >= KEYBUF_SIZE && Matching(g.table, g.keys[..KEYBUF_SIZE])
    case _ => false
  }

  lemma SegmentIsProper(table: seq<Binding>, buffer: seq<Key>, key: Key, pressed: bool)
    requires Matching(table, buffer)
    requires var outcome := Step(table, buffer, key, pressed).1; !outcome.Ignored? && !outcome.Pending?
    ensures ProperSegment(Segment(buffer + Stroke(KeyEvent(key, pressed)), Step(table, buffer, key, pressed).1, table))
  {
    ExecutesExactMatch(table, buffer, key, pressed);
    var keys := buffer + Stroke(KeyEvent(key, pressed));
    assert keys[..|buffer|] == buffer;
  }

  lemma AdvanceIsProper(s: State, e: Event)
    requires Matching(s.table, s.buffer) && (e.Reconfigure? ==> ParsedChange(e.change) && s.buffer == [])
    ensures Matching(Advance(s, e).0.table, Advance(s, e).0.buffer)
    ensures forall g :: g in Advance(s, e).1 ==> ProperSegment(g)
    ensures KeysOf(Advance(s, e).1) + Advance(s, e).0.buffer == s.buffer + Stroke(e)
  {
    match e
    case Reconfigure(change) =>
      EmptyBufferMatches(Apply(s.table, change));
      assert s.buffer + Stroke(e) == s.buffer;
    case KeyEvent(key, pressed) =>
      StepKeepsMatching(s.table, s.buffer, key, pressed);
      KeysStayTogether(s, e);
      var outcome := Step(s.table, s.buffer, key, pressed).1;
      if !outcome.Ignored? && !outcome.Pending? {
        SegmentIsProper(s.table, s.buffer, key, pressed);
      }
  }

  /** A key goes into the buffer or ends a segment; none is lost. */
  lemma KeysStayTogether(s: State, e: Event)
    requires AllParsed(s.table) && e.KeyEvent?
    ensures KeysOf(Advance(s, e).1) + Advance(s, e).0.buffer == s.buffer + Stroke(e)
  {
    var (buffer', outcome) := Step(s.table, s.buffer, e.key, e.pressed);
    var all := s.buffer + Stroke(e);
    assert [] + buffer' == buffer' && all + [] == all;
    if outcome.Ignored? {
      assert all == s.buffer;
    } else if !outcome.Pending? {
      var g := Segment(all, outcome, s.table);
      assert [g][1..] == [];
      assert KeysOf([g]) == all;
    }
  }

  lemma {:induction false} KeysOfAppend(a: seq<Segment>, b: seq<Segment>)
    ensures KeysOf(a + b) == KeysOf(a) + KeysOf(b)
  {
    if a == [] {
      assert a + b == b;
    } else {
      assert (a + b)[1..] == a[1..] + b;
      KeysOfAppend(a[1..], b);
    }
  }

  lemma Glue<T>(x: seq<T>, middle: seq<T>, before: seq<T>, stroke: seq<T>, y: seq<T>, after: seq<T>, rest: seq<T>)
    requires x + middle == before + stroke && y + after == middle + rest
    ensures (x + y) + after == before + (stroke + rest)
  {
    calc {
      (x + y) + after;
      x + (y + after);
      x + (middle + rest);
      (x + middle) + rest;
      (before + stroke) + rest;
      before + (stroke + rest);
    }
  }

  /** Every run cuts the stream of key strokes into segments, losing and inventing nothing;
      every segment ends properly and the state stays matching. */
  lemma {:induction false} RunSegmentsStrokes(s: State, events: seq<Event>)
    requires Matching(s.table, s.buffer) && ParsedEvents(events) && ChangesBetweenSequences(s, events)
    ensures Matching(Run(s, events).0.table, Run(s, events).0.buffer)
    ensures forall g :: g in Run(s, events).1 ==> ProperSegment(g)
    ensures KeysOf(Run(s, events).1) + Run(s, events).0.buffer == s.buffer + Strokes(events)
    decreases |events|
  {
    if events == [] {
      assert Run(s, events) == (s, []);
    } else {
      var e, rest := events[0], events[1..];
      var (s', segments) := Advance(s, e);
      var (s'', segments') := Run(s', rest);
      AdvanceIsProper(s, e);
      RunSegmentsStrokes(s', rest);
      KeysOfAppend(segments, segments');
      Glue(KeysOf(segments), s'.buffer, s.buffer, Stroke(e), KeysOf(segments'), s''.buffer, Strokes(rest));
    }
  }

  /** No binding is a proper prefix of keys. */
  ghost predicate NoShorterBinding(table: seq<Binding>, keys: seq<Key>) {
    forall j :: 0 <= j < |table| ==> !(table[j].keys < keys)
  }

  lemma OnlyExactBegins(table: seq<Binding>, keys: seq<Key>, buffer: seq<Key>)
    requires NoShorterBinding(table, keys) && buffer <= keys
    ensures forall j :: 0 <= j < |table| && table[j].keys <= buffer ==> table[j].keys == buffer == keys
  {
    forall j | 0 <= j < |table| && table[j].keys <= buffer
      ensures table[j].keys == buffer == keys
    {
      PrefixOfPrefix(table[j].keys, buffer, keys);
    }
  }

  /** The buffer resolves to the bound command when the sequence is complete, and waits
      before that. */
  lemma ResolveSequence(table: seq<Binding>, keys: seq<Key>, buffer: seq<Key>)
    requires Lookup(table, keys).Some? && NoShorterBinding(table, keys) && buffer <= keys
    ensures Resolve(table, buffer)
         == if buffer == keys then ([], Execute(Lookup(table, keys).value)) else (buffer, Pending)
  {
    LookupFinds(table, keys);
    var k :| 0 <= k < |table| && table[k].keys == keys;
    OnlyExactBegins(table, keys, buffer);
    FirstCompleteIsLookup(table, buffer);
    assert buffer != keys ==> buffer < table[k].keys;
  }

  /** One more key of a bound sequence: its command runs when the sequence is complete and
      not before. */
  lemma NextStroke(s: State, keys: seq<Key>, e: Event)
    requires AllParsed(s.table) && Lookup(s.table, keys).Some? && NoShorterBinding(s.table, keys)
    requires |keys| <= KEYBUF_SIZE && Stroke(e) != [] && s.buffer + Stroke(e) <= keys
    ensures Advance(s, e)
         == if s.buffer + Stroke(e) == keys
            then (s.(buffer := []), [Segment(keys, Execute(Lookup(s.table, keys).value), s.table)])
            else (s.(buffer := s.buffer + Stroke(e)), [])
  {
    ResolveSequence(s.table, keys, s.buffer + [e.key]);
  }

  lemma NoStroke(s: State, e: Event)
    requires AllParsed(s.table) && e.KeyEvent? && Stroke(e) == [] && |s.buffer| < KEYBUF_SIZE
    ensures Advance(s, e) == (s, [])
  {
  }

  lemma RunAfter(s: State, events: seq<Event>, s': State, segments: seq<Segment>, result: (State, seq<Segment>))
    requires AllParsed(s.table) && ParsedEvents(events) && events != []
    requires Advance(s, events[0]) == (s', segments)
    requires Run(s', events[1..]) == result
    ensures Run(s, events) == (result.0, segments + result.1)
  {
  }

  /** Pressing the rest of a bound sequence, with any releases and modifier events in
      between, runs its command once, at the last key. */
  lemma {:induction false} SequenceRunsCommand(table: seq<Binding>, buffer: seq<Key>, keys: seq<Key>,
                                                events: seq<Event>)
    requires AllParsed(table) && Lookup(table, keys).Some? && NoShorterBinding(table, keys)
    requires 1 <= |keys| <= KEYBUF_SIZE && buffer < keys
    requires forall i :: 0 <= i < |events| ==> events[i].KeyEvent?
    requires buffer + Strokes(events) == keys
    ensures Run(State(table, buffer), events)
         == (State(table, []), [Segment(keys, Execute(Lookup(table, keys).value), table)])
    decreases |events|
  {
    var s, done := State(table, buffer), Segment(keys, Execute(Lookup(table, keys).value), table);
    var e, rest := events[0], events[1..];
    var buffer' := buffer + Stroke(e);
    Regroup(buffer, Stroke(e), Strokes(rest), keys);
    assert [done] + [] == [done] && [] + [done] == [done];
    if Stroke(e) == [] {
      NoStroke(s, e);
      SequenceRunsCommand(table, buffer', keys, rest);
      RunAfter(s, events, s, [], (State(table, []), [done]));
    } else if buffer' == keys {
      NextStroke(s, keys, e);
      QuietTail(State(table, []), rest);
      RunAfter(s, events, State(table, []), [done], (State(table, []), []));
    } else {
      NextStroke(s, keys, e);
      SequenceRunsCommand(table, buffer', keys, rest);
      RunAfter(s, events, State(table, buffer'), [], (State(table, []), [done]));
    }
  }

  lemma Regroup<T>(a: seq<T>, b: seq<T>, c: seq<T>, all: seq<T>)
    requires a + (b + c) == all
    ensures (a + b) + c == all && a + b <= all
    ensures b == [] ==> a + b == a
    ensures a + b == all ==> c == []
  {
    assert a + (b + c) == (a + b) + c;
  }

  lemma PrefixOfPrefix(a: seq<Key>, b: seq<Key>, c: seq<Key>)
    ensures a <= b <= c ==> a <= c && (a == c ==> b == c)
  {
  }

  lemma {:induction false} LookupFinds(table: seq<Binding>, keys: seq<Key>)
    requires Lookup(table, keys).Some?
    ensures exists k :: 0 <= k < |table| && table[k].keys == keys
  {
    if table[0].keys != keys {
      LookupFinds(table[1..], keys);
    }
  }

  /** Without strokes an empty buffer stays empty and nothing runs. */
  lemma {:induction false} QuietTail(s: State, events: seq<Event>)
    requires AllParsed(s.table) && s.buffer == [] && Strokes(events) == []
    requires forall i :: 0 <= i < |events| ==> events[i].KeyEvent?
    ensures Run(s, events) == (s, [])
    decreases |events|
  {
    if events != [] {
      assert Stroke(events[0]) == [];
      QuietTail(s, events[1..]);
    }
  }

  /** A run of key events that ends in one segment has it from all the strokes. */
  lemma OneSegment(table: seq<Binding>, events: seq<Event>, keys: seq<Key>, g: Segment)
    requires AllParsed(table) && Strokes(events) == keys
    requires forall i :: 0 <= i < |events| ==> events[i].KeyEvent?
    requires Run(State(table, []), events) == (State(table, []), [g])
    ensures g.keys == keys && ProperSegment(g)
  {
    EmptyBufferMatches(table);
    KeysChangeNothing(State(table, []), events);
    RunSegmentsStrokes(State(table, []), events);
    assert [g][1..] == [];
    assert KeysOf([g]) == g.keys + KeysOf([]) == g.keys;
    assert g in [g];
    assert g.keys + [] == g.keys && [] + keys == keys;
  }

  lemma {:induction false} KeysChangeNothing(s: State, events: seq<Event>)
    requires AllParsed(s.table) && forall i :: 0 <= i < |events| ==> events[i].KeyEvent?
    ensures ChangesBetweenSequences(s, events)
    decreases |events|
  {
    if events != [] {
      KeysChangeNothing(Advance(s, events[0]).0, events[1..]);
    }
  }

  /** Keys that were executed had no shorter binding before them. */
  lemma ExecutedUnshadowed(g: Segment)
    requires ProperSegment(g) && g.outcome.Execute?
    ensures NoShorterBinding(g.table, g.keys)
  {
    var front := g.keys[..|g.keys| - 1];
    forall j | 0 <= j < |g.table|
      ensures !(g.table[j].keys < g.keys)
    {
      PrefixOfSnoc(g.table[j].keys, front, g.keys[|g.keys| - 1]);
      assert g.keys == front + [g.keys[|g.keys| - 1]];
    }
  }

  /** After any history of bind and unbind commands, pressing a sequence runs its most recently
      bound command, once and at the last key, exactly when it is bound, has 1 to 8 keys and no
      other binding is a proper beginning of it. */
  lemma LiveBindingIsDelivered(history: seq<Change>, keys: seq<Key>, events: seq<Event>, command: string)
    requires ParsedHistory(history) && forall i :: 0 <= i < |events| ==> events[i].KeyEvent?
    ensures var table := TableOf(history);
            Strokes(events) == keys ==>
              (Run(State(table, []), events) == (State(table, []), [Segment(keys, Execute(command), table)]) <==>
               MostRecent(history, keys) == Some(command) && NoShorterBinding(table, keys)
               && 1 <= |keys| <= KEYBUF_SIZE)
  {
    var table, g := TableOf(history), Segment(keys, Execute(command), TableOf(history));
    if keys != [] {
      LookupIsMostRecent(history, keys);
    }
    if Strokes(events) == keys {
      assert [] + Strokes(events) == keys;
      if MostRecent(history, keys) == Some(command) && NoShorterBinding(table, keys) && 1 <= |keys| <= KEYBUF_SIZE {
        SequenceRunsCommand(table, [], keys, events);
      }
      if Run(State(table, []), events) == (State(table, []), [g]) {
        OneSegment(table, events, keys, g);
        ExecutedUnshadowed(g);
      }
    }
  }
}
