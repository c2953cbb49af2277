/** Printing a bitmap: clipping one image by hand, and tiling the clip rectangle with copies. */
module PrintTiles {
  import opened Arithmetic

  datatype Rect = Rect(x: int, y: int, width: int, height: int)

  /** One cairo fill: the image placed with its top left corner at (x, y), and the area that is
      painted from it. */
  datatype Fill = Fill(image: Rect, area: Rect)

  ghost predicate Inside(r: Rect, px: int, py: int) {
    r.x <= px < r.x + r.width && r.y <= py < r.y + r.height
  }

  /** How often a pixel is painted. */
  ghost function Count(fills: seq<Fill>, px: int, py: int): nat {
    if fills == [] then 0
    else Count(fills[..|fills| - 1], px, py) + if Inside(fills[|fills| - 1].area, px, py) then 1 else 0
  }

  function Multiple(k: int, m: int): int {
    k * m
  }

  ghost predicate Congruent(a: int, b: int, m: int) {
    exists k :: a - b == Multiple(k, m)
  }

  lemma CongruentStep(a: int, b: int, m: int)
    requires Congruent(a, b, m)
    ensures Congruent(a + m, b, m)
  {
    var k :| a - b == Multiple(k, m);
    assert a + m - b == Multiple(k + 1, m);
  }

  /** Where tiling starts along one axis: one tile before the clip edge, in step with the given
      position, or at the position itself if that is not beyond the edge. */
  function Start(position: int, edge: int, size: nat): int
    requires size > 0
  {
    if position > edge then (edge - size) + Remainder(position - edge, size) else position
  }

  /** Tiling starts in step with the given position and not beyond the clip edge; it starts at
      the position itself exactly when that is not beyond the edge. */
  lemma StartInStep(position: int, edge: int, size: nat)
    requires size > 0
    ensures Congruent(Start(position, edge, size), position, size)
    ensures Start(position, edge, size) <= edge
    ensures Start(position, edge, size) == position <==> position <= edge
    ensures position > edge ==> edge - size <= Start(position, edge, size) < edge
  {
    if position > edge {
      Recompose(position - edge, size);
      var tiles: int := -1 - Quotient(position - edge, size);
      assert Multiple(tiles, size) == 0 - size * Quotient(position - edge, size) - size;
      assert Start(position, edge, size) - position == Multiple(tiles, size);
    } else {
      assert position - position == Multiple(0, size);
    }
  }

  predicate Covers(start: int, size: nat, p: int) {
    start <= p < start + size
  }

  /** One row or column of tiles alone paints, within a clip extent, what a tile at the given
      position would, exactly when that position is not beyond the edge, or lies behind the
      extent by whole tiles from the edge, so that nothing is to be painted and nothing is. */
  lemma OneTileWhereMeant(position: int, edge: int, size: nat, extent: nat)
    requires size > 0 && extent > 0
    ensures (forall p :: edge <= p < edge + extent ==>
               (Covers(Start(position, edge, size), size, p) <==> Covers(position, size, p)))
            <==> position <= edge || (position >= edge + extent && Remainder(position - edge, size) == 0)
  {
    StartInStep(position, edge, size);
    if position > edge {
      assert Covers(Start(position, edge, size), size, edge) <==> Remainder(position - edge, size) > 0;
      assert !Covers(position, size, edge);
      assert position < edge + extent ==> Covers(position, size, position);
    }
  }

  /** A tile in step with x shows, at px, the image column of px counted from x modulo the
      width. */
  lemma ColumnShown(a: int, x: int, size: nat, px: int)
    requires size > 0 && Congruent(a, x, size) && a <= px < a + size
    ensures px - a == (px - x) % size
  {
    var k :| a - x == Multiple(k, size);
    var q, r := (px - x) / size, (px - x) % size;
    assert px - x == size * q + r;
    assert size * k == Multiple(k, size);
    MulMonotone(size, k + 1, q);
    MulMonotone(size, q + 1, k);
    assert size * (k + 1) == size * k + size && size * (q + 1) == size * q + size;
  }

  ghost predicate AreaInImage(f: Fill) {
    forall px, py :: Inside(f.area, px, py) ==> Inside(f.image, px, py)
  }

  /** f shows one of the tiles of a pattern of w by h images with a corner at (x, y). */
  ghost predicate IsTile(f: Fill, x: int, y: int, w: nat, h: nat) {
    && f.image.width == w && f.image.height == h && AreaInImage(f)
    && Congruent(f.image.x, x, w) && Congruent(f.image.y, y, h)
  }

  /** Every pixel painted by a tile shows the image pixel the repeating pattern has there. */
  lemma TileShowsPattern(f: Fill, x: int, y: int, w: nat, h: nat, px: int, py: int)
    requires w > 0 && h > 0 && IsTile(f, x, y, w, h) && Inside(f.area, px, py)
    ensures px - f.image.x == (px - x) % w && py - f.image.y == (py - y) % h
  {
    assert Inside(f.image, px, py);
    ColumnShown(f.image.x, x, w, px);
    ColumnShown(f.image.y, y, h, py);
  }

  class Printer {
    var cliprect: Rect
    var fills: seq<Fill>

    constructor ()
      ensures fills == [] && cliprect == Rect(0, 0, 0, 0)
    {
      cliprect, fills := Rect(0, 0, 0, 0), [];
    }

    ghost predicate Valid()
      reads this
    {
      cliprect.width >= 0 && cliprect.height >= 0
    }

    /** nsgtk_print_plot_clip: the clip rectangle, cut down to the page. */
    method SetClip(x0: int, y0: int, x1: int, y1: int, pageWidth: nat, pageHeight: nat)
      modifies this`cliprect
      ensures x0 <= x1 && y0 <= y1 ==> Valid()
      ensures forall px, py :: Inside(cliprect, px, py) <==>
                x0 <= px < x1 && y0 <= py < y1 && 0 <= px < pageWidth && 0 <= py < pageHeight
    {
      var cx0, cy0 := Clamp(x0, pageWidth), Clamp(y0, pageHeight);
      var cx1, cy1 := Clamp(x1, pageWidth), Clamp(y1, pageHeight);
      cliprect := Rect(cx0, cy0, cx1 - cx0, cy1 - cy0);
    }

    /** Paint the part of one image that lies in the clip rectangle, if there is any. */
    method PlotPixbuf(x: int, y: int, width: nat, height: nat)
      requires Valid()
      modifies this`fills
      ensures |old(fills)| <= |fills| <= |old(fills)| + 1 && fills[..|old(fills)|] == old(fills)
      ensures |fills| > |old(fills)| ==>
                fills[|old(fills)|].image == Rect(x, y, width, height) && AreaInImage(fills[|old(fills)|])
      ensures forall px, py :: Count(fills, px, py)
                == Count(old(fills), px, py)
                   + if Inside(cliprect, px, py) && Inside(Rect(x, y, width, height), px, py) then 1 else 0
    {
      if width == 0 || height == 0 {
        return;
      }
      if x > cliprect.x + cliprect.width || x + width < cliprect.x
         || y > cliprect.y + cliprect.height || y + height < cliprect.y {
        return;
      }
      var x0, y0 := cliprect.x - x, cliprect.y - y;
      var x1 := (x + width) - (cliprect.x + cliprect.width);
      var y1 := (y + height) - (cliprect.y + cliprect.height);
      var dsrcx, dsrcy, dwidth: int, dheight: int := x, y, width, height;
      if x0 > 0 {
        dsrcx := dsrcx + x0;
        dwidth := dwidth - x0;
      }
      if y0 > 0 {
        dsrcy := dsrcy + y0;
        dheight := dheight - y0;
      }
      if x1 > 0 {
        dwidth := dwidth - x1;
      }
      if y1 > 0 {
        dheight := dheight - y1;
      }
      if dwidth == 0 || dheight == 0 {
        return;
      }
      fills := fills + [Fill(Rect(x, y, width, height), Rect(dsrcx, dsrcy, dwidth, dheight))];
    }

    /** The pixels the tile loops are to paint. */
    ghost predicate Wanted(x: int, y: int, w: nat, h: nat, repeatX: bool, repeatY: bool, px: int, py: int)
      requires w > 0 && h > 0
      reads this`cliprect
    {
      && Inside(cliprect, px, py)
      && (repeatX || px < Start(x, cliprect.x, w) + w)
      && (repeatY || py < Start(y, cliprect.y, h) + h)
    }

    /** With one repeat switched off, the pixels painted are those of the row or column of tiles
        at the given position exactly under the condition for its axis. */
    lemma OneRowWhereMeant(x: int, y: int, w: nat, h: nat)
      requires w > 0 && h > 0 && cliprect.width > 0 && cliprect.height > 0
      ensures (forall px, py :: Wanted(x, y, w, h, true, false, px, py) <==>
                 Inside(cliprect, px, py) && Covers(y, h, py))
              <==> y <= cliprect.y || (y >= cliprect.y + cliprect.height && Remainder(y - cliprect.y, h) == 0)
      ensures (forall px, py :: Wanted(x, y, w, h, false, true, px, py) <==>
                 Inside(cliprect, px, py) && Covers(x, w, px))
              <==> x <= cliprect.x || (x >= cliprect.x + cliprect.width && Remainder(x - cliprect.x, w) == 0)
    {
      StartInStep(x, cliprect.x, w);
      StartInStep(y, cliprect.y, h);
      OneTileWhereMeant(x, cliprect.x, w, cliprect.width);
      OneTileWhereMeant(y, cliprect.y, h, cliprect.height);
      assert forall p :: cliprect.y <= p < cliprect.y + cliprect.height ==>
          (Wanted(x, y, w, h, true, false, cliprect.x, p) <==> Covers(Start(y, cliprect.y, h), h, p));
      assert forall p :: cliprect.x <= p < cliprect.x + cliprect.width ==>
          (Wanted(x, y, w, h, false, true, p, cliprect.y) <==> Covers(Start(x, cliprect.x, w), w, p));
    }

    /** Every fill from a position on shows a tile of the pattern. */
    ghost predicate InStep(from: nat, x: int, y: int, w: nat, h: nat)
      reads this`fills
    {
      forall k :: from <= k < |fills| ==> IsTile(fills[k], x, y, w, h)
    }

    /** One row of tiles at height doneheight. */
    method PlotRow(x: int, y: int, doneheight: int, w: nat, h: nat, repeatX: bool, ghost from: nat)
      requires Valid() && w > 0 && h > 0 && from <= |fills| && InStep(from, x, y, w, h) && Congruent(doneheight, y, h)
      modifies this`fills
      ensures from <= |fills| && InStep(from, x, y, w, h)
      ensures forall px, py :: Count(fills, px, py)
                == Count(old(fills), px, py)
                   + if Inside(cliprect, px, py) && doneheight <= py < doneheight + h
                        && (repeatX || px < Start(x, cliprect.x, w) + w) then 1 else 0
    {
      StartInStep(x, cliprect.x, w);
      var donewidth := 0;
      if x > cliprect.x {
        IsDivision(x - cliprect.x, w);
        donewidth := (cliprect.x - w) + ((x - cliprect.x) % w);
      } else {
        donewidth := x;
      }
      while donewidth < cliprect.x + cliprect.width
        invariant from <= |fills| && InStep(from, x, y, w, h) && Congruent(donewidth, x, w)
        invariant donewidth >= Start(x, cliprect.x, w) && (repeatX || donewidth == Start(x, cliprect.x, w))
        invariant forall px, py :: Count(fills, px, py)
                    == Count(old(fills), px, py)
                       + if Inside(cliprect, px, py) && doneheight <= py < doneheight + h && px < donewidth
                         then 1 else 0
        decreases cliprect.x + cliprect.width - donewidth
      {
        PlotPixbuf(donewidth, doneheight, w, h);
        CongruentStep(donewidth, x, w);
        donewidth := donewidth + w;
        if !repeatX {
          break;
        }
      }
    }

    /** nsgtk_print_plot_bitmap; bmwidth and bmheight are the size of the bitmap itself. */
    method PlotBitmap(x: int, y: int, width: nat, height: nat, bmwidth: nat, bmheight: nat,
                      repeatX: bool, repeatY: bool)
      requires Valid()
      modifies this`fills
      ensures repeatX || repeatY ==> |fills| >= |old(fills)| && InStep(|old(fills)|, x, y, bmwidth, bmheight)
      ensures repeatX && repeatY && bmwidth > 0 && bmheight > 0 ==>
                forall px, py :: Count(fills, px, py)
                  == Count(old(fills), px, py) + if Inside(cliprect, px, py) then 1 else 0
      ensures repeatX && !repeatY && bmwidth > 0 && bmheight > 0 ==>
                var edge := cliprect.y;
                var end := if y > edge then edge + Remainder(y - edge, bmheight) else y + bmheight;
                forall px, py :: Count(fills, px, py)
                  == Count(old(fills), px, py) + if Inside(cliprect, px, py) && py < end then 1 else 0
      ensures !repeatX && repeatY && bmwidth > 0 && bmheight > 0 ==>
                var edge := cliprect.x;
                var end := if x > edge then edge + Remainder(x - edge, bmwidth) else x + bmwidth;
                forall px, py :: Count(fills, px, py)
                  == Count(old(fills), px, py) + if Inside(cliprect, px, py) && px < end then 1 else 0
      ensures (repeatX || repeatY) && bmwidth > 0 && bmheight > 0 ==>
                forall px, py :: Count(fills, px, py)
                  == Count(old(fills), px, py)
                     + if Wanted(x, y, bmwidth, bmheight, repeatX, repeatY, px, py) then 1 else 0
      ensures !(repeatX || repeatY) ==>
                forall px, py :: Count(fills, px, py)
                  == Count(old(fills), px, py)
                     + if Inside(cliprect, px, py) && Inside(Rect(x, y, width, height), px, py) then 1 else 0
    {
      if !(repeatX || repeatY) {
        PlotPixbuf(x, y, width, height);
        return;
      }
      var w, h := bmwidth, bmheight;
      if w == 0 || h == 0 {
        return;
      }
      ghost var from := |fills|;
      StartInStep(y, cliprect.y, h);
      var doneheight := 0;
      if y > cliprect.y {
        IsDivision(y - cliprect.y, h);
        doneheight := (cliprect.y - h) + ((y - cliprect.y) % h);
      } else {
        doneheight := y;
      }
      while doneheight < cliprect.y + cliprect.height
        invariant from <= |fills| && InStep(from, x, y, w, h) && Congruent(doneheight, y, h)
        invariant doneheight >= Start(y, cliprect.y, h) && (repeatY || doneheight == Start(y, cliprect.y, h))
        invariant forall px, py :: Count(fills, px, py)
                    == Count(old(fills), px, py)
                       + if Inside(cliprect, px, py) && py < doneheight
                            && (repeatX || px < Start(x, cliprect.x, w) + w) then 1 else 0
        decreases cliprect.y + cliprect.height - doneheight
      {
        PlotRow(x, y, doneheight, w, h, repeatX, from);
        CongruentStep(doneheight, y, h);
        doneheight := doneheight + h;
        if !repeatY {
          break;
        }
      }
    }
  }

  /** min(max(v, 0), limit) */
  function Clamp(v: int, limit: nat): (c: int)
    ensures 0 <= c <= limit && (0 <= v <= limit ==> c == v)
    ensures (v < 0 ==> c == 0) && (v > limit ==> c == limit)
  {
    var low := if v > 0 then v else 0;
    if low < limit then low else limit
  }
}
