/** The bitmap whose pixel buffer is converted in place between the two forms. */
module PixelBuffers {
  import opened Arithmetic
  import opened Pixels

  /** Pixel k as the core reads it: red, green, blue, alpha. */
  function CorePixel(bytes: seq<byte>, k: nat): Pixel
    requires 4 * k + 3 < |bytes|
  {
    Pixel(bytes[4 * k], bytes[4 * k + 1], bytes[4 * k + 2], bytes[4 * k + 3])
  }

  /** Pixel k as cairo reads it: alpha, red, green, blue in the machine's byte order. */
  function NativePixel(bytes: seq<byte>, k: nat, little: bool): Pixel
    requires 4 * k + 3 < |bytes|
  {
    if little then Pixel(bytes[4 * k + 2], bytes[4 * k + 1], bytes[4 * k], bytes[4 * k + 3])
    else Pixel(bytes[4 * k + 1], bytes[4 * k + 2], bytes[4 * k + 3], bytes[4 * k])
  }

  /** Where the bytes of a converted pixel are: a 32 bit word with alpha on top, then red, green and
      blue, in the machine's byte order. */
  lemma NativeBytes(before: seq<byte>, now: seq<byte>, count: nat, little: bool, solid: bool)
    requires |before| == |now| == 4 * count
    requires forall k :: 0 <= k < count ==> NativePixel(now, k, little) == Premultiplied(CorePixel(before, k), solid)
    ensures forall p :: 0 <= p < |now| - 3 && p % 4 == 0 ==>
              var r, g, b, t := before[p], before[p + 1], before[p + 2], before[p + 3];
              var r', g' := if solid then r else Pre(r, t), if solid then g else Pre(g, t);
              var b' := if solid then b else Pre(b, t);
              now[p..p + 4] == if little then [b', g', r', t] else [t, r', g', b']
  {
    forall p | 0 <= p < |now| - 3 && p % 4 == 0
      ensures var r, g, b, t := before[p], before[p + 1], before[p + 2], before[p + 3];
              var r', g' := if solid then r else Pre(r, t), if solid then g else Pre(g, t);
              var b' := if solid then b else Pre(b, t);
              now[p..p + 4] == if little then [b', g', r', t] else [t, r', g', b']
    {
      var k := p / 4;
      assert p == 4 * k;
      assert NativePixel(now, k, little) == Premultiplied(CorePixel(before, k), solid);
    }
  }

  /** The core gets red, green, blue and alpha, in this order. */
  lemma CoreBytes(before: seq<byte>, now: seq<byte>, count: nat, little: bool, solid: bool)
    requires |before| == |now| == 4 * count
    requires forall k :: 0 <= k < count ==> CorePixel(now, k) == Demultiplied(NativePixel(before, k, little), solid)
    ensures forall p :: 0 <= p < |now| - 3 && p % 4 == 0 ==>
              var b0, b1, b2, b3 := before[p], before[p + 1], before[p + 2], before[p + 3];
              var r, g := if little then b2 else b1, if little then b1 else b2;
              var b, t := if little then b0 else b3, if little then b3 else b0;
              now[p..p + 4] == if solid then [r, g, b, t] else [De(r, t), De(g, t), De(b, t), t]
  {
    forall p | 0 <= p < |now| - 3 && p % 4 == 0
      ensures var b0, b1, b2, b3 := before[p], before[p + 1], before[p + 2], before[p + 3];
              var r, g := if little then b2 else b1, if little then b1 else b2;
              var b, t := if little then b0 else b3, if little then b3 else b0;
              now[p..p + 4] == if solid then [r, g, b, t] else [De(r, t), De(g, t), De(b, t), t]
    {
      var k := p / 4;
      assert p == 4 * k;
      assert CorePixel(now, k) == Demultiplied(NativePixel(before, k, little), solid);
    }
  }

  /** What a native pixel is, as the 32 bit word cairo reads. */
  lemma NativeWord(bytes: seq<byte>, k: nat, little: bool)
    requires 4 * k + 3 < |bytes|
    ensures var b0: int, b1: int, b2: int, b3: int :=
              bytes[4 * k], bytes[4 * k + 1], bytes[4 * k + 2], bytes[4 * k + 3];
            var p := NativePixel(bytes, k, little);
            var r: int, g: int, b: int, t: int := p.r, p.g, p.b, p.t;
            (if little then b0 + 256 * b1 + 65536 * b2 + 16777216 * b3
             else b3 + 256 * b2 + 65536 * b1 + 16777216 * b0)
            == ((t * 256 + r) * 256 + g) * 256 + b
  {
  }

  class Bitmap {
    const pixels: array<byte>
    const count: nat
    const isOpaque: bool
    const little: bool
    var converted: bool

    ghost predicate Valid() {
      pixels.Length == 4 * count
    }

    /** The pixels the buffer holds at the moment. */
    ghost function Image(): (image: seq<Pixel>)
      reads this, pixels
      requires Valid()
      ensures |image| == count
      ensures forall k :: 0 <= k < count ==>
                image[k] == if converted then NativePixel(pixels[..], k, little) else CorePixel(pixels[..], k)
    {
      seq(count, k requires 0 <= k < count && Valid() reads this, pixels =>
        if converted then NativePixel(pixels[..], k, little) else CorePixel(pixels[..], k))
    }

    constructor (pixels: array<byte>, count: nat, isOpaque: bool, little: bool)
      requires pixels.Length == 4 * count
      ensures Valid() && !converted && this.pixels == pixels && this.count == count
      ensures this.isOpaque == isOpaque && this.little == little
    {
      this.pixels, this.count, this.isOpaque, this.little := pixels, count, isOpaque, little;
      converted := false;
    }

    method WriteNative(k: nat, p: Pixel)
      requires Valid() && k < count
      modifies pixels
      ensures NativePixel(pixels[..], k, little) == p
      ensures forall i :: 0 <= i < pixels.Length && !(4 * k <= i < 4 * k + 4) ==> pixels[i] == old(pixels[i])
    {
      if little {
        pixels[4 * k + 0] := p.b;
        pixels[4 * k + 1] := p.g;
        pixels[4 * k + 2] := p.r;
        pixels[4 * k + 3] := p.t;
      } else {
        pixels[4 * k + 0] := p.t;
        pixels[4 * k + 1] := p.r;
        pixels[4 * k + 2] := p.g;
        pixels[4 * k + 3] := p.b;
      }
    }

    method WriteCore(k: nat, p: Pixel)
      requires Valid() && k < count
      modifies pixels
      ensures CorePixel(pixels[..], k) == p
      ensures forall i :: 0 <= i < pixels.Length && !(4 * k <= i < 4 * k + 4) ==> pixels[i] == old(pixels[i])
    {
      pixels[4 * k + 0] := p.r;
      pixels[4 * k + 1] := p.g;
      pixels[4 * k + 2] := p.b;
      pixels[4 * k + 3] := p.t;
    }

    /** The image has changed: bring it into cairo's form. */
    method Modified()
      requires Valid()
      modifies this, pixels
      ensures converted
      ensures forall k :: 0 <= k < count ==>
                Image()[k] == if old(converted) then old(Image()[k]) else Premultiplied(old(Image()[k]), isOpaque)
      ensures old(converted) ==> pixels[..] == old(pixels[..])
      ensures var before, now := old(pixels[..]), pixels[..];
              !old(converted) ==>
                forall p :: 0 <= p < |now| - 3 && p % 4 == 0 ==>
                  var r, g, b, t := before[p], before[p + 1], before[p + 2], before[p + 3];
                  var r', g' := if isOpaque then r else Pre(r, t), if isOpaque then g else Pre(g, t);
                  var b' := if isOpaque then b else Pre(b, t);
                  now[p..p + 4] == if little then [b', g', r', t] else [t, r', g', b']
    {
      if converted {
        return;
      }
      ghost var before := pixels[..];
      ToNative();
      NativeBytes(before, pixels[..], count, little, isOpaque);
      converted := true;
    }

    /** Convert every pixel in place. */
    method ToNative()
      requires Valid() && !converted
      modifies pixels
      ensures forall k :: 0 <= k < count ==>
                NativePixel(pixels[..], k, little) == Premultiplied(CorePixel(old(pixels[..]), k), isOpaque)
    {
      ghost var before := pixels[..];
      for k := 0 to count
        invariant forall j :: 0 <= j < k ==>
                    NativePixel(pixels[..], j, little) == Premultiplied(CorePixel(before, j), isOpaque)
        invariant forall i :: 4 * k <= i < pixels.Length ==> pixels[i] == before[i]
      {
        var p := Pixel(pixels[4 * k + 0], pixels[4 * k + 1], pixels[4 * k + 2], pixels[4 * k + 3]);
        if !isOpaque {
          if p.t != 0 {
            p := Pixel(Pre(p.r, p.t), Pre(p.g, p.t), Pre(p.b, p.t), p.t);
          } else {
            p := Pixel(0, 0, 0, p.t);
          }
        }
        WriteNative(k, p);
      }
    }

    /** Give the core its bytes back. */
    method GetBuffer() returns (bytes: array<byte>)
      requires Valid()
      modifies this, pixels
      ensures !converted && bytes == pixels
      ensures forall k :: 0 <= k < count ==>
                Image()[k] == if old(converted) then Demultiplied(old(Image()[k]), isOpaque) else old(Image()[k])
      ensures !old(converted) ==> pixels[..] == old(pixels[..])
      ensures var before, now := old(pixels[..]), pixels[..];
              old(converted) ==>
                forall p :: 0 <= p < |now| - 3 && p % 4 == 0 ==>
                  var b0, b1, b2, b3 := before[p], before[p + 1], before[p + 2], before[p + 3];
                  var r, g, b, t := if little then b2 else b1, if little then b1 else b2, if little then b0 else b3,
                                    if little then b3 else b0;
                  now[p..p + 4] == if isOpaque then [r, g, b, t] else [De(r, t), De(g, t), De(b, t), t]
    {
      if !converted {
        return pixels;
      }
      ghost var before := pixels[..];
      ToCore();
      CoreBytes(before, pixels[..], count, little, isOpaque);
      converted := false;
      return pixels;
    }

    /** Convert every pixel back in place. */
    method ToCore()
      requires Valid() && converted
      modifies pixels
      ensures forall k :: 0 <= k < count ==>
                CorePixel(pixels[..], k) == Demultiplied(NativePixel(old(pixels[..]), k, little), isOpaque)
    {
      ghost var before := pixels[..];
      for k := 0 to count
        invariant forall j :: 0 <= j < k ==>
                    CorePixel(pixels[..], j) == Demultiplied(NativePixel(before, j, little), isOpaque)
        invariant forall i :: 4 * k <= i < pixels.Length ==> pixels[i] == before[i]
      {
        var p: Pixel;
        if little {
          p := Pixel(pixels[4 * k + 2], pixels[4 * k + 1], pixels[4 * k + 0], pixels[4 * k + 3]);
        } else {
          p := Pixel(pixels[4 * k + 1], pixels[4 * k + 2], pixels[4 * k + 3], pixels[4 * k + 0]);
        }
        if !isOpaque {
          if p.t != 0 {
            var r, g, b := Unscale(p.r, p.t), Unscale(p.g, p.t), Unscale(p.b, p.t);
            p := Pixel(if r > 255 then 255 else r, if g > 255 then 255 else g, if b > 255 then 255 else b, p.t);
          } else {
            p := Pixel(0, 0, 0, p.t);
          }
        }
        WriteCore(k, p);
      }
    }

    /** The pixels with the flag, as the calls see them. */
    ghost predicate Holds(state: seq<Stored>)
      reads this, pixels
      requires Valid()
    {
      |state| == count && forall k :: 0 <= k < count ==> state[k] == Stored(converted, Image()[k])
    }

    method Call(op: Op, ghost state: seq<Stored>)
      requires Valid() && Holds(state)
      modifies this, pixels
      ensures converted == op.Modified?
      ensures forall k :: 0 <= k < count ==> Stored(converted, Image()[k]) == ApplyPixel(state[k], isOpaque, op)
    {
      match op {
        case Modified => Modified();
        case GetBuffer => var _ := GetBuffer();
      }
    }

    /** Any run of calls, on a surface of any size in either byte order. A new surface keeps
        its alpha, its opaque pixels wholly, and otherwise each channel but for what the
        cycles take off it; converted, it has no channel above alpha. */
    method Perform(ops: seq<Op>)
      requires Valid()
      modifies this, pixels
      ensures converted == Ends(old(converted), ops)
      ensures forall k :: 0 <= k < count ==>
                Stored(converted, Image()[k]) == RunPixel(Stored(old(converted), old(Image()[k])), isOpaque, ops)
      ensures !old(converted) ==>
                forall k :: 0 <= k < count ==>
                  && Image()[k] == PixelAfter(old(Image()[k]), isOpaque, ops)
                  && (converted && !isOpaque ==> AtMostAlpha(Image()[k]))
    {
      ghost var image, flag := Image(), converted;
      ghost var start := seq(count, k requires 0 <= k < |image| => Stored(flag, image[k]));
      ghost var state := start;
      for i := 0 to |ops|
        invariant Holds(state) && converted == Ends(old(converted), ops[..i])
        invariant forall k :: 0 <= k < count ==>
                    RunPixel(state[k], isOpaque, ops[i..]) == RunPixel(start[k], isOpaque, ops)
      {
        Call(ops[i], state);
        state := seq(count, k requires 0 <= k < |state| => ApplyPixel(state[k], isOpaque, ops[i]));
        assert ops[i..][0] == ops[i] && ops[i..][1..] == ops[i + 1..];
      }
      assert ops[|ops|..] == [] && ops[..|ops|] == ops;
      forall k | 0 <= k < count
        ensures !old(converted) ==> state[k] == Stored(Ends(false, ops), PixelAfter(start[k].pixel, isOpaque, ops))
        ensures !old(converted) && !isOpaque && Ends(false, ops) ==> AtMostAlpha(state[k].pixel)
      {
        if !old(converted) {
          PixelRunExact(start[k].pixel, isOpaque, ops);
          if !isOpaque && Ends(false, ops) {
            ConvertedAtMostAlpha(start[k].pixel, ops);
          }
        }
      }
    }
  }

  /** (c << 8) / t */
  function Unscale(c: byte, t: byte): (s: nat)
    requires t != 0
    ensures De(c, t) == if s > 255 then 255 else s
  {
    IsDivision(c * 256, t);
    (c * 256) / t
  }
}
