/** One pixel on its way between the core's straight RGBA bytes and cairo's premultiplied
    native ones. */
module Pixels {
  import opened Arithmetic

  type byte = x: int | 0 <= x < 256

  datatype Pixel = Pixel(r: byte, g: byte, b: byte, t: byte)

  /** ((c * (t + 1)) >> 8) & 0xff */
  function Pre(c: byte, t: byte): byte {
    if t != 0 then (c * (t + 1)) / 256 % 256 else 0
  }

  /** (c << 8) / t, at most 255 */
  function De(c: byte, t: byte): byte {
    if t != 0 then
      var d := Quotient(c * 256, t);
      if d > 255 then 255 else d
    else 0
  }

  function Premultiplied(p: Pixel, solid: bool): Pixel {
    if solid then p else Pixel(Pre(p.r, p.t), Pre(p.g, p.t), Pre(p.b, p.t), p.t)
  }

  function Demultiplied(p: Pixel, solid: bool): Pixel {
    if solid then p else Pixel(De(p.r, p.t), De(p.g, p.t), De(p.b, p.t), p.t)
  }

  // ----- one channel

  lemma PreValue(c: byte, t: byte)
    requires t != 0
    ensures 256 * Pre(c, t) <= c * (t + 1) < 256 * Pre(c, t) + 256
  {
    MulMonotone(c, t + 1, 256);
    MulMonotone(256, c, 255);
    MulMonotone(c, 0, t + 1);
    assert c * 256 == 256 * c;
  }

  /** The premultiplied channel, in numbers. */
  lemma PreIs(c: byte, t: byte)
    ensures var x: int, y: int := c, t; Pre(c, t) == if y == 0 then 0 else x * (y + 1) / 256
  {
    if t != 0 {
      PreValue(c, t);
    }
  }

  /** The demultiplied channel, in numbers: the greatest d up to 255 with t * d <= 256 * c. */
  lemma DeIs(c: byte, t: byte)
    requires t > 0
    ensures var x: int, y: int, d: int := c, t, De(c, t);
            y * d <= 256 * x && (d < 255 ==> 256 * x < y * d + y)
    ensures De(c, 0) == 0
  {
    var d := Quotient(c * 256, t);
    Recompose(c * 256, t);
    MulMonotone(t, 255, d);
  }

  /** A premultiplied channel is at most alpha. */
  lemma PreAtMostAlpha(c: byte, t: byte)
    ensures Pre(c, t) <= t
  {
    if t != 0 {
      PreValue(c, t);
      MulMonotone(t + 1, c, 255);
      assert c * (t + 1) == (t + 1) * c;
    }
  }

  lemma DeValue(c: byte, t: byte)
    requires t != 0 && c < t
    ensures t * De(c, t) <= 256 * c < t * De(c, t) + t
  {
    var d := Quotient(c * 256, t);
    Recompose(c * 256, t);
    QuotientBelow(c * 256, t, 256);
    MulMonotone(256, c + 1, t);
    assert t * 256 == 256 * t;
  }

  lemma DeOfAlpha(t: byte)
    requires t != 0
    ensures De(t, t) == 255
  {
    Recompose(t * 256, t);
    DecompositionUnique(t, Quotient(t * 256, t), Remainder(t * 256, t), 256, 0);
  }

  /** A cycle of get_buffer and modified keeps every channel of an invisible pixel, a channel
      equal to alpha, and otherwise one whose quotient is not below the remainder. */
  predicate Kept(c: byte, t: byte) {
    t == 0 || c == t || Quotient(c * 256, t) >= Remainder(c * 256, t)
  }

  /** One cycle: a channel stays exactly when it is a kept one, and becomes one lower otherwise. */
  lemma CycleKeeps(c: byte, t: byte)
    requires c <= t
    ensures Pre(De(c, t), t) == if Kept(c, t) then c else c - 1
  {
    if t != 0 {
      var d := De(c, t);
      PreValue(d, t);
      assert d * (t + 1) == t * d + d;
      if c < t {
        DeValue(c, t);
        Recompose(c * 256, t);
        QuotientBelow(c * 256, t, 256);
      } else {
        DeOfAlpha(t);
      }
    }
  }

  /** Full alpha loses nothing in either direction. */
  lemma FullAlphaIsExact(c: byte)
    ensures Pre(c, 255) == c && De(c, 255) == c
  {
    if c < 255 {
      DeValue(c, 255);
    } else {
      DeOfAlpha(255);
    }
  }

  /** Black and the brightest value survive every cycle. */
  lemma FixedChannels(t: byte)
    ensures Pre(De(0, t), t) == 0 && Pre(De(t, t), t) == t
  {
    CycleKeeps(0, t);
    CycleKeeps(t, t);
  }

  /** Where a channel comes to rest: at the greatest kept value not above it. */
  function Settled(c: byte, t: byte): (p: byte)
    requires c <= t
    ensures p <= c && Kept(p, t) && forall q: byte :: p < q <= c ==> !Kept(q, t)
  {
    if Kept(c, t) then c else Settled(c - 1, t)
  }

  /** A channel after n cycles. */
  function Faded(c: byte, t: byte, n: nat): (p: byte)
    requires c <= t
    ensures p <= c && c - p <= n
  {
    if c - n > Settled(c, t) then c - n else Settled(c, t)
  }

  // ----- many cycles

  datatype Op = Modified | GetBuffer

  /** One channel as the calls see it: the flag, and the value as it is stored. */
  datatype Channel = Channel(converted: bool, value: byte)

  function Apply(s: Channel, t: byte, op: Op): Channel {
    match op
    case Modified => if s.converted then s else Channel(true, Pre(s.value, t))
    case GetBuffer => if s.converted then Channel(false, De(s.value, t)) else s
  }

  function Run(s: Channel, t: byte, ops: seq<Op>): Channel
    decreases |ops|
  {
    if ops == [] then s else Run(Apply(s, t, ops[0]), t, ops[1..])
  }

  /** How many times the calls convert back to premultiplied form. */
  function Cycles(converted: bool, ops: seq<Op>): nat
    decreases |ops|
  {
    if ops == [] then 0
    else match ops[0]
      case Modified => (if converted then 0 else 1) + Cycles(true, ops[1..])
      case GetBuffer => Cycles(false, ops[1..])
  }

  /** Whether the last call left the surface converted. */
  function Ends(converted: bool, ops: seq<Op>): bool {
    if ops == [] then converted else ops[|ops| - 1].Modified?
  }

  /** The channel p, as a converted surface stores it or as the core reads it. */
  function Held(p: byte, t: byte, converted: bool): Channel {
    if converted then Channel(true, p) else Channel(false, De(p, t))
  }

  /** Any run of calls, exactly: the channel has lost one for every cycle until it settled. */
  lemma {:induction false} RunExact(c: byte, t: byte, converted: bool, ops: seq<Op>)
    requires c <= t
    ensures Run(Held(c, t, converted), t, ops)
         == Held(Faded(c, t, Cycles(converted, ops)), t, Ends(converted, ops))
    decreases |ops|
  {
    if ops != [] {
      var c' := if ops[0].Modified? && !converted then Pre(De(c, t), t) else c;
      CycleKeeps(c, t);
      RunExact(c', t, ops[0].Modified?, ops[1..]);
    }
  }

  /** Every run of calls keeps a channel exactly when one cycle does. */
  lemma KeptForEver(c: byte, t: byte)
    requires c <= t
    ensures (forall ops :: Run(Channel(true, c), t, ops) == Held(c, t, Ends(true, ops))) <==> Kept(c, t)
  {
    var cycle := [GetBuffer, Modified];
    RunExact(c, t, true, cycle);
    assert cycle[1..] == [Modified] && cycle[1..][1..] == [];
    if Kept(c, t) {
      forall ops
        ensures Run(Channel(true, c), t, ops) == Held(c, t, Ends(true, ops))
      {
        RunExact(c, t, true, ops);
      }
    }
  }

  /** The bytes v of a new surface after any run of calls. */
  function After(v: byte, t: byte, ops: seq<Op>): byte {
    var n := Cycles(false, ops);
    if n == 0 then v
    else
      PreAtMostAlpha(v, t);
      Held(Faded(Pre(v, t), t, n - 1), t, Ends(false, ops)).value
  }

  lemma {:induction false} NewRunExact(v: byte, t: byte, ops: seq<Op>)
    ensures Run(Channel(false, v), t, ops) == Channel(Ends(false, ops), After(v, t, ops))
    decreases |ops|
  {
    if ops != [] {
      if ops[0].Modified? {
        PreAtMostAlpha(v, t);
        RunExact(Pre(v, t), t, true, ops[1..]);
      } else {
        NewRunExact(v, t, ops[1..]);
      }
    }
  }

  /** With full alpha any run of calls keeps every value. */
  lemma {:induction false} FullAlphaRun(s: Channel, ops: seq<Op>)
    ensures Run(s, 255, ops).value == s.value
    decreases |ops|
  {
    if ops != [] {
      FullAlphaIsExact(s.value);
      FullAlphaRun(Apply(s, 255, ops[0]), ops[1..]);
    }
  }

  // ----- whole pixels

  /** A pixel as the calls see it, on a surface with or without alpha. */
  datatype Stored = Stored(converted: bool, pixel: Pixel)

  function ApplyPixel(s: Stored, solid: bool, op: Op): Stored {
    match op
    case Modified => if s.converted then s else Stored(true, Premultiplied(s.pixel, solid))
    case GetBuffer => if s.converted then Stored(false, Demultiplied(s.pixel, solid)) else s
  }

  function RunPixel(s: Stored, solid: bool, ops: seq<Op>): Stored
    decreases |ops|
  {
    if ops == [] then s else RunPixel(ApplyPixel(s, solid, ops[0]), solid, ops[1..])
  }

  /** Alpha never changes. A pixel of a surface without alpha is kept exactly; on a surface with
      alpha each channel runs on its own. */
  lemma {:induction false} PixelRun(s: Stored, solid: bool, ops: seq<Op>)
    ensures RunPixel(s, solid, ops).pixel.t == s.pixel.t
    ensures solid ==> RunPixel(s, solid, ops).pixel == s.pixel
    ensures !solid ==>
              var e, t := RunPixel(s, solid, ops), s.pixel.t;
              && Run(Channel(s.converted, s.pixel.r), t, ops) == Channel(e.converted, e.pixel.r)
              && Run(Channel(s.converted, s.pixel.g), t, ops) == Channel(e.converted, e.pixel.g)
              && Run(Channel(s.converted, s.pixel.b), t, ops) == Channel(e.converted, e.pixel.b)
    decreases |ops|
  {
    if ops != [] {
      PixelRun(ApplyPixel(s, solid, ops[0]), solid, ops[1..]);
    }
  }

  /** A pixel of a new surface after any run of calls. */
  function PixelAfter(p: Pixel, solid: bool, ops: seq<Op>): Pixel {
    if solid then p else Pixel(After(p.r, p.t, ops), After(p.g, p.t, ops), After(p.b, p.t, ops), p.t)
  }

  lemma PixelRunExact(p: Pixel, solid: bool, ops: seq<Op>)
    ensures RunPixel(Stored(false, p), solid, ops) == Stored(Ends(false, ops), PixelAfter(p, solid, ops))
  {
    PixelRun(Stored(false, p), solid, ops);
    PixelRunFlag(Stored(false, p), solid, ops);
    NewRunExact(p.r, p.t, ops);
    NewRunExact(p.g, p.t, ops);
    NewRunExact(p.b, p.t, ops);
  }

  lemma {:induction false} PixelRunFlag(s: Stored, solid: bool, ops: seq<Op>)
    ensures RunPixel(s, solid, ops).converted == Ends(s.converted, ops)
    decreases |ops|
  {
    if ops != [] {
      PixelRunFlag(ApplyPixel(s, solid, ops[0]), solid, ops[1..]);
    }
  }

  lemma {:induction false} CyclesBeforeEnd(ops: seq<Op>)
    requires Ends(false, ops)
    ensures Cycles(false, ops) > 0
    decreases |ops|
  {
    if ops[0].GetBuffer? {
      CyclesBeforeEnd(ops[1..]);
    }
  }

  predicate AtMostAlpha(p: Pixel) {
    p.r <= p.t && p.g <= p.t && p.b <= p.t
  }

  /** On a converted surface no channel is above alpha. */
  lemma ConvertedAtMostAlpha(p: Pixel, ops: seq<Op>)
    requires Ends(false, ops)
    ensures AtMostAlpha(PixelAfter(p, false, ops))
  {
    CyclesBeforeEnd(ops);
    PreAtMostAlpha(p.r, p.t);
    PreAtMostAlpha(p.g, p.t);
    PreAtMostAlpha(p.b, p.t);
  }

  /** Fading down to nothing: at alpha 254 a channel below 127 loses one in every cycle until
      it is black. */
  lemma ChannelFades(c: byte, ops: seq<Op>)
    requires c < 127
    ensures var k := Cycles(true, ops);
            Run(Channel(true, c), 254, ops) == Held(if k < c then c - k else 0, 254, Ends(true, ops))
  {
    RunExact(c, 254, true, ops);
    forall q: byte | 0 < q < 127
      ensures !Kept(q, 254)
    {
      Recompose(q * 256, 254);
      DecompositionUnique(254, Quotient(q * 256, 254), Remainder(q * 256, 254), q, 2 * q);
    }
  }
}
