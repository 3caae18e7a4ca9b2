/**
 * The pixel buffer shared by both view models: a rows x columns x 4 array of bytes,
 * channels in Blue, Green, Red, Alpha order, and the loops that clear it, paint into it
 * and flatten it into the one-dimensional array handed to the display.
 */
module Framebuffer {
  import opened Arith

  /** One channel of one pixel. */
  type Byte = x: int | 0 <= x < 256

  /** Number of channels per pixel (B, G, R, A). */
  const Channels := 4

  /** Is (row, col) a pixel of `a`? */
  predicate InBounds(a: array3<Byte>, row: int, col: int) {
    0 <= row < a.Length0 && 0 <= col < a.Length1
  }

  // ---------------------------------------------------------------------------
  // Single-pixel grey plots and their accumulated effect

  /** A write of `value` into the three colour channels of pixel (row y, column x). */
  datatype Plot = Plot(x: int, y: int, value: Byte)

  /** The colour byte at (row, col) after `plots` were applied in order over `base`:
      the last plot aimed at that pixel wins; plots aimed elsewhere leave it alone. */
  function Overlay(plots: seq<Plot>, row: int, col: int, base: Byte): Byte
    decreases |plots|
  {
    if plots == [] then base
    else
      var p := plots[|plots| - 1];
      if p.y == row && p.x == col then p.value else Overlay(plots[..|plots| - 1], row, col, base)
  }

  /** Does some plot of `plots` aim at (row, col)? */
  predicate Hits(plots: seq<Plot>, row: int, col: int) {
    exists q :: 0 <= q < |plots| && plots[q].y == row && plots[q].x == col
  }

  lemma OverlaySnoc(plots: seq<Plot>, p: Plot, row: int, col: int, base: Byte)
    ensures Overlay(plots + [p], row, col, base)
         == if p.y == row && p.x == col then p.value else Overlay(plots, row, col, base)
  {
    assert (plots + [p])[..|plots|] == plots;
  }

  /** Applying two runs of plots one after the other is applying their concatenation. */
  lemma {:induction false} OverlayAppend(first: seq<Plot>, second: seq<Plot>, row: int, col: int, base: Byte)
    ensures Overlay(first + second, row, col, base)
         == Overlay(second, row, col, Overlay(first, row, col, base))
    decreases |second|
  {
    if second == [] {
      assert first + second == first;
    } else {
      var last := second[|second| - 1];
      var init := second[..|second| - 1];
      assert second == init + [last];
      assert first + second == (first + init) + [last];
      OverlaySnoc(first + init, last, row, col, base);
      OverlaySnoc(init, last, row, col, Overlay(first, row, col, base));
      OverlayAppend(first, init, row, col, base);
    }
  }

  /** A pixel that no plot aims at keeps its value; one that some plot aims at gets a value
      that does not depend on what was there before. */
  lemma {:induction false} OverlayUntouched(plots: seq<Plot>, row: int, col: int, base: Byte, other: Byte)
    ensures !Hits(plots, row, col) ==> Overlay(plots, row, col, base) == base
    ensures Hits(plots, row, col) ==> Overlay(plots, row, col, base) == Overlay(plots, row, col, other)
    decreases |plots|
  {
    if plots != [] {
      var init := plots[..|plots| - 1];
      var p := plots[|plots| - 1];
      OverlayUntouched(init, row, col, base, other);
      if !(p.y == row && p.x == col) {
        if Hits(plots, row, col) {
          var q :| 0 <= q < |plots| && plots[q].y == row && plots[q].x == col;
          assert init[q].y == row && init[q].x == col;
        } else {
          assert forall q :: 0 <= q < |init| ==> init[q] == plots[q];
        }
      }
    }
  }

  lemma OverlaySnocAll(plots: seq<Plot>, p: Plot)
    ensures forall row, col, base ::
      Overlay(plots + [p], row, col, base) == if p.y == row && p.x == col then p.value else Overlay(plots, row, col, base)
  {
    assert (plots + [p])[..|plots|] == plots;
  }

  lemma OverlayPairAll(p: Plot, q: Plot)
    ensures forall row, col, base ::
      Overlay([p, q], row, col, base)
      == if q.y == row && q.x == col then q.value else if p.y == row && p.x == col then p.value else base
  {
    forall row, col, base
      ensures Overlay([p, q], row, col, base)
        == if q.y == row && q.x == col then q.value else if p.y == row && p.x == col then p.value else base
    {
      OverlaySnoc([p], q, row, col, base);
      OverlaySnoc([], p, row, col, base);
      assert [p] + [q] == [p, q];
      assert [] + [p] == [p];
    }
  }

  lemma OverlayAppendAll(first: seq<Plot>, second: seq<Plot>)
    ensures forall row, col, base ::
      Overlay(first + second, row, col, base) == Overlay(second, row, col, Overlay(first, row, col, base))
  {
    forall row, col, base
      ensures Overlay(first + second, row, col, base) == Overlay(second, row, col, Overlay(first, row, col, base))
    {
      OverlayAppend(first, second, row, col, base);
    }
  }

  /** Drawing the same plots twice leaves the same picture as drawing them once: later
      identical writes overwrite, they never accumulate. */
  lemma OverlayTwice(plots: seq<Plot>, row: int, col: int, base: Byte)
    ensures Overlay(plots + plots, row, col, base) == Overlay(plots, row, col, base)
  {
    OverlayAppend(plots, plots, row, col, base);
    OverlayUntouched(plots, row, col, base, Overlay(plots, row, col, base));
  }

  // ---------------------------------------------------------------------------
  // Square blocks, painted column by column with the first out-of-range index stopping the walk

  /** Is (i, j) an offset of the square block of half-width `offset` (columns i, rows j in [-offset, offset))? */
  predicate InBlock(offset: int, i: int, j: int) {
    -offset <= i < offset && -offset <= j < offset
  }

  /** The block cell at column offset i and row offset j around (row, col) lies inside `a`. */
  predicate CellInBounds(a: array3<Byte>, row: int, col: int, i: int, j: int) {
    InBounds(a, row + j, col + i)
  }

  /** Does (i', j') come no later than (i, j) in the walk over a block (column offset i outer, row offset j inner)? */
  predicate NoLater(i': int, j': int, i: int, j: int) {
    i' < i || (i' == i && j' <= j)
  }

  /** Every block cell up to and including (i, j), in walk order, lies inside `a`:
      the walk reaches (i, j) and writes it. */
  ghost predicate Reached(a: array3<Byte>, row: int, col: int, offset: int, i: int, j: int) {
    forall i', j' :: InBlock(offset, i', j') && NoLater(i', j', i, j) ==> CellInBounds(a, row, col, i', j')
  }

  /** Every cell of the block lies inside `a`. */
  ghost predicate BlockFits(a: array3<Byte>, row: int, col: int, offset: int) {
    forall i, j :: InBlock(offset, i, j) ==> CellInBounds(a, row, col, i, j)
  }

  /** Is pixel (r, c) written when the block around (row, col) is walked? */
  ghost predicate BlockWrites(a: array3<Byte>, row: int, col: int, offset: int, r: int, c: int) {
    InBlock(offset, c - col, r - row) && Reached(a, row, col, offset, c - col, r - row)
  }

  /** The nested loops `for i in [-offset, offset) for j in [-offset, offset) for k < 3:
      a[row + j, col + i, k] = value`, where the first out-of-range index ends the walk
      (`ok` is false) and the writes before it stay. */
  method PaintBlock(a: array3<Byte>, row: int, col: int, offset: int, value: Byte) returns (ok: bool)
    requires a.Length2 == Channels
    modifies a
    ensures ok <==> BlockFits(a, row, col, offset)
    ensures forall r, c, k :: 0 <= r < a.Length0 && 0 <= c < a.Length1 && 0 <= k < Channels ==>
      a[r, c, k] == if k < 3 && BlockWrites(a, row, col, offset, r, c) then value else old(a[r, c, k])
  {
    var i := -offset;
    while i < offset
      invariant offset >= 0 ==> -offset <= i <= offset
      invariant forall i', j' :: InBlock(offset, i', j') && i' < i ==> CellInBounds(a, row, col, i', j')
      invariant forall r, c, k :: 0 <= r < a.Length0 && 0 <= c < a.Length1 && 0 <= k < Channels ==>
        a[r, c, k] == if k < 3 && InBlock(offset, c - col, r - row) && c - col < i then value else old(a[r, c, k])
    {
      var j := -offset;
      while j < offset
        invariant -offset <= j <= offset
        invariant forall i', j' :: InBlock(offset, i', j') && NoLater(i', j', i, j - 1) ==> CellInBounds(a, row, col, i', j')
        invariant forall r, c, k :: 0 <= r < a.Length0 && 0 <= c < a.Length1 && 0 <= k < Channels ==>
          a[r, c, k] == if k < 3 && InBlock(offset, c - col, r - row) && NoLater(c - col, r - row, i, j - 1)
                        then value else old(a[r, c, k])
      {
        if !InBounds(a, row + j, col + i) {
          ok := false;
          StoppedWalk(a, row, col, offset, i, j);
          return;
        }
        var k := 0;
        while k < 3
          invariant 0 <= k <= 3
          invariant forall r, c, k' :: 0 <= r < a.Length0 && 0 <= c < a.Length1 && 0 <= k' < Channels ==>
            a[r, c, k'] == if k' < 3 && InBlock(offset, c - col, r - row)
                              && (NoLater(c - col, r - row, i, j - 1) || (r == row + j && c == col + i && k' < k))
                           then value else old(a[r, c, k'])
        {
          a[row + j, col + i, k] := value;
          k := k + 1;
        }
        j := j + 1;
      }
      i := i + 1;
    }
    ok := true;
  }

  /** When the walk stops at the out-of-range cell (i, j), the cells it has written are exactly
      those it reached. */
  lemma StoppedWalk(a: array3<Byte>, row: int, col: int, offset: int, i: int, j: int)
    requires InBlock(offset, i, j) && !CellInBounds(a, row, col, i, j)
    requires forall i', j' :: InBlock(offset, i', j') && NoLater(i', j', i, j - 1) ==> CellInBounds(a, row, col, i', j')
    ensures !BlockFits(a, row, col, offset)
    ensures forall r, c :: BlockWrites(a, row, col, offset, r, c) <==>
      InBlock(offset, c - col, r - row) && NoLater(c - col, r - row, i, j - 1)
  {
    forall r, c
      ensures BlockWrites(a, row, col, offset, r, c) <==>
        InBlock(offset, c - col, r - row) && NoLater(c - col, r - row, i, j - 1)
    {
      if InBlock(offset, c - col, r - row) && !NoLater(c - col, r - row, i, j - 1) {
        assert NoLater(i, j, c - col, r - row);
      }
    }
  }

  // ---------------------------------------------------------------------------
  // Clearing and flattening

  /** The clearing loops: every colour channel gets `color`, every alpha channel 255. */
  method Fill(a: array3<Byte>, color: Byte)
    requires a.Length2 == Channels
    modifies a
    ensures forall r, c, k :: 0 <= r < a.Length0 && 0 <= c < a.Length1 && 0 <= k < Channels ==>
      a[r, c, k] == if k < 3 then color else 255
  {
    var row := 0;
    while row < a.Length0
      invariant 0 <= row <= a.Length0
      invariant forall r, c, k :: 0 <= r < row && 0 <= c < a.Length1 && 0 <= k < Channels ==>
        a[r, c, k] == if k < 3 then color else 255
    {
      var col := 0;
      while col < a.Length1
        invariant 0 <= col <= a.Length1
        invariant forall r, c, k :: 0 <= c < a.Length1 && 0 <= k < Channels && (0 <= r < row || (r == row && 0 <= c < col)) ==>
          a[r, c, k] == if k < 3 then color else 255
      {
        var i := 0;
        while i < 3
          invariant 0 <= i <= 3
          invariant forall r, c, k :: 0 <= c < a.Length1 && 0 <= k < Channels && (0 <= r < row || (r == row && 0 <= c < col)) ==>
            a[r, c, k] == if k < 3 then color else 255
          invariant forall k :: 0 <= k < i ==> a[row, col, k] == color
        {
          a[row, col, i] := color;
          i := i + 1;
        }
        a[row, col, 3] := 255;
        col := col + 1;
      }
      row := row + 1;
    }
  }

  /** Position of channel k of pixel (row, col) in the flattened row-major buffer of the given width. */
  function FlatIndex(width: int, row: int, col: int, k: int): int {
    (row * width + col) * Channels + k
  }

  lemma FlatIndexBelow(width: int, row: int, col: int, k: int, row': int, col': int, k': int)
    requires 0 <= col < width && 0 <= col' < width && 0 <= k < Channels && 0 <= k' < Channels
    requires 0 <= row' < row || (row' == row && (col' < col || (col' == col && k' < k)))
    ensures FlatIndex(width, row', col', k') < FlatIndex(width, row, col, k)
  {
    if row' < row {
      MulLe(row' + 1, row, width);
      assert (row' + 1) * width == row' * width + width;
    }
  }

  lemma FlatIndexInRange(height: int, width: int, row: int, col: int, k: int)
    requires 0 <= row < height && 0 <= col < width && 0 <= k < Channels
    ensures 0 <= FlatIndex(width, row, col, k) < height * width * Channels
  {
    MulLe(0, row, width);
    MulLe(row + 1, height, width);
  }

  lemma AllFlatIndicesInRange(height: int, width: int)
    ensures forall r, c, k :: 0 <= r < height && 0 <= c < width && 0 <= k < Channels ==>
      0 <= FlatIndex(width, r, c, k) < height * width * Channels
  {
    forall r, c, k | 0 <= r < height && 0 <= c < width && 0 <= k < Channels
      ensures 0 <= FlatIndex(width, r, c, k) < height * width * Channels
    {
      FlatIndexInRange(height, width, r, c, k);
    }
  }

  /** The copy loop of SetBitmap: `pixels1d[index++] = a[row, col, i]` in row, column, channel order. */
  /** `flat` is the row-major flattening of `a`, four bytes per pixel, the layout the bitmap is
      written from. */
  ghost predicate Flattened(a: array3<Byte>, flat: array<Byte>)
    reads a, flat
  {
    && a.Length2 == Channels
    && flat.Length == a.Length0 * a.Length1 * Channels
    && forall r, c, k :: 0 <= r < a.Length0 && 0 <= c < a.Length1 && 0 <= k < Channels ==>
         0 <= FlatIndex(a.Length1, r, c, k) < flat.Length && flat[FlatIndex(a.Length1, r, c, k)] == a[r, c, k]
  }

  method Flatten(a: array3<Byte>) returns (flat: array<Byte>)
    requires a.Length2 == Channels
    ensures fresh(flat) && flat.Length == a.Length0 * a.Length1 * Channels
    ensures Flattened(a, flat)
  {
    var height, width := a.Length0, a.Length1;
    assert height * width >= 0;
    flat := new Byte[height * width * Channels];
    AllFlatIndicesInRange(height, width);
    var index := 0;
    var row := 0;
    while row < height
      invariant 0 <= row <= height
      invariant index == row * width * Channels
      invariant forall r, c, k :: 0 <= r < row && 0 <= c < width && 0 <= k < Channels ==>
        flat[FlatIndex(width, r, c, k)] == a[r, c, k]
    {
      var col := 0;
      while col < width
        invariant 0 <= col <= width
        invariant index == FlatIndex(width, row, col, 0)
        invariant forall r, c, k :: 0 <= c < width && 0 <= k < Channels && (0 <= r < row || (r == row && 0 <= c < col)) ==>
          flat[FlatIndex(width, r, c, k)] == a[r, c, k]
      {
        var i := 0;
        while i < Channels
          invariant 0 <= i <= Channels
          invariant index == FlatIndex(width, row, col, i)
          invariant forall r, c, k :: 0 <= c < width && 0 <= k < Channels && (0 <= r < row || (r == row && (c < col || (c == col && k < i)))) ==>
            flat[FlatIndex(width, r, c, k)] == a[r, c, k]
        {
          FlatIndexInRange(height, width, row, col, i);
          forall r, c, k | 0 <= c < width && 0 <= k < Channels && (0 <= r < row || (r == row && (c < col || (c == col && k < i))))
            ensures FlatIndex(width, r, c, k) < index
          {
            FlatIndexBelow(width, row, col, i, r, c, k);
          }
          flat[index] := a[row, col, i];
          index := index + 1;
          i := i + 1;
        }
        col := col + 1;
      }
      assert (row + 1) * width == row * width + width;
      row := row + 1;
    }
  }
}
