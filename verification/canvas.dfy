/**
 * The drawing canvas: a BGRA pixel buffer 780 pixels wide and 800 high, cleared to a light grey. A click paints a
 * black 6 × 6 square at the pointer. Every second click also joins the pointer to the point of
 * the previous click: one column at a time, a 2 × 2 black square is painted around the rounded
 * y of the line. Then the bitmap is refreshed from the buffer.
 *
 * Nothing in this class catches an exception. A square that reaches past the buffer therefore
 * ends the click at the first cell outside it. The writes made before that stay, and the rest of
 * the click does not happen. The operations report this as a Thrown outcome.
 */
module Canvas {
  import opened Outcomes
  import opened Arith
  import opened Framebuffer
  import opened Raster

  const BitmapWidth := 780
  const BitmapHeight := 800

  /** The background colour: byte.MaxValue − 10. */
  const CanvasColor: Byte := 245

  /** The colour every square is painted in. */
  const Black: Byte := 0

  /** Half-width of the square painted at a click. */
  const ClickOffset := 3

  /** Half-width of the squares that make up a line. */
  const LineOffset := 1

  /** The nullable Point? of the last click. */
  datatype Option<T> = None | Some(value: T)

  /** A square's centre, by row and column. */
  datatype Cell = Cell(row: int, col: int)

  // ---------------------------------------------------------------------------
  // Rounding

  /** Round as written: a half is added away from zero, and the caller's cast to int truncates. */
  function Round(y: real): (z: real)
    ensures z - y == 0.5 || y - z == 0.5
    ensures (z < 0.0) == (y < 0.0)
  {
    if y < 0.0 then y - 0.5 else y + 0.5
  }

  /** `(int)Round(y)` is an integer nearest to y, a tie going away from zero. */
  lemma RoundNearest(y: real)
    ensures var k := Trunc(Round(y)) as real;
      && (y >= 0.0 ==> y - 0.5 < k <= y + 0.5)
      && (y < 0.0 ==> y - 0.5 <= k < y + 0.5)
  {
  }

  /** Rounding commutes with negation. */
  lemma RoundOdd(y: real)
    ensures Trunc(Round(-y)) == -Trunc(Round(y))
  {
    if y == 0.0 {
      assert Round(-y) == Round(y) == 0.5;
    }
  }

  // ---------------------------------------------------------------------------
  // The squares of a line

  /** The centres DrawLine paints, from column x to column end: each has the row that the rounded
      walked y truncates to. The walked y then advances by `step`. */
  function Centers(x: int, end: int, y: real, step: real): (cs: seq<Cell>)
    decreases end - x
  {
    if x > end then [] else [Cell(Trunc(Round(y)), x)] + Centers(x + 1, end, y + step, step)
  }

  /** The centres of DrawLine from p1 to p2. The walk covers the columns between the truncated x
      of the two ends. It starts at the y of the end whose truncated x is smaller, or of p2 when
      both truncate alike, and steps by the slope dy/dx. A vertical segment (dx = 0) has a single
      column, so its infinite or undefined slope is never used; the model steps by 0 there. */
  function LineCenters(p1: Point, p2: Point): seq<Cell> {
    var dx, dy := p2.x - p1.x, p2.y - p1.y;
    var y := if Trunc(p1.x) < Trunc(p2.x) then p1.y else p2.y;
    Centers(Min(Trunc(p1.x), Trunc(p2.x)), Max(Trunc(p1.x), Trunc(p2.x)), y, if dx == 0.0 then 0.0 else dy / dx)
  }

  /** The centre at position q: column x + q, with the walked y advanced q times. */
  lemma {:induction false} CentersAt(x: int, end: int, y: real, step: real, q: nat)
    requires q <= end - x
    ensures |Centers(x, end, y, step)| == end - x + 1
    ensures Centers(x, end, y, step)[q] == Cell(Trunc(Round(Advance(y, step, q))), x + q)
    decreases end - x
  {
    var rest := Centers(x + 1, end, y + step, step);
    if x + 1 <= end {
      CentersAt(x + 1, end, y + step, step, if q == 0 then 0 else q - 1);
    } else {
      assert rest == [];
    }
  }

  /** A line has one square per column, from the smaller to the larger truncated x. The first
      square sits on the rounded y of the end the walk starts from. */
  lemma LineCentersColumns(p1: Point, p2: Point)
    ensures var cs, b, e := LineCenters(p1, p2), Min(Trunc(p1.x), Trunc(p2.x)), Max(Trunc(p1.x), Trunc(p2.x));
      && |cs| == e - b + 1
      && (forall q :: 0 <= q < |cs| ==> cs[q].col == b + q)
      && cs[0].row == Trunc(Round(if Trunc(p1.x) < Trunc(p2.x) then p1.y else p2.y))
  {
    var dx, dy := p2.x - p1.x, p2.y - p1.y;
    var y := if Trunc(p1.x) < Trunc(p2.x) then p1.y else p2.y;
    var b, e := Min(Trunc(p1.x), Trunc(p2.x)), Max(Trunc(p1.x), Trunc(p2.x));
    var step := if dx == 0.0 then 0.0 else dy / dx;
    assert LineCenters(p1, p2) == Centers(b, e, y, step);
    CentersAt(b, e, y, step, 0);
    forall q | 0 <= q <= e - b
      ensures |Centers(b, e, y, step)| == e - b + 1 && Centers(b, e, y, step)[q].col == b + q
    {
      CentersAt(b, e, y, step, q);
    }
  }

  /** Swapping the ends gives the same squares when they lie in different columns: the walk
      starts from the same end with the same slope. */
  lemma LineCentersSymmetric(p1: Point, p2: Point)
    requires Trunc(p1.x) != Trunc(p2.x)
    ensures LineCenters(p2, p1) == LineCenters(p1, p2)
  {
    var dx, dy := p2.x - p1.x, p2.y - p1.y;
    assert p1.x - p2.x == -dx && p1.y - p2.y == -dy;
    if dx != 0.0 {
      NegDiv(dy, dx);
    }
  }

  /** When both ends lie in one column, the single square is at the second end's row, so
      swapping the ends moves it whenever their rows round differently. */
  lemma LineCentersOneColumn(p1: Point, p2: Point)
    requires Trunc(p1.x) == Trunc(p2.x)
    ensures LineCenters(p1, p2) == [Cell(Trunc(Round(p2.y)), Trunc(p1.x))]
    ensures Trunc(Round(p1.y)) != Trunc(Round(p2.y)) ==> LineCenters(p2, p1) != LineCenters(p1, p2)
  {
    var x := Trunc(p1.x);
    var s12 := if p2.x - p1.x == 0.0 then 0.0 else (p2.y - p1.y) / (p2.x - p1.x);
    var s21 := if p1.x - p2.x == 0.0 then 0.0 else (p1.y - p2.y) / (p1.x - p2.x);
    assert LineCenters(p1, p2) == Centers(x, x, p2.y, s12);
    assert LineCenters(p2, p1) == Centers(x, x, p1.y, s21);
    assert Centers(x, x, p2.y, s12) == [Cell(Trunc(Round(p2.y)), x)] + Centers(x + 1, x, p2.y + s12, s12);
    assert Centers(x, x, p1.y, s21) == [Cell(Trunc(Round(p1.y)), x)] + Centers(x + 1, x, p1.y + s21, s21);
    assert LineCenters(p2, p1)[0].row == Trunc(Round(p1.y)) && LineCenters(p1, p2)[0].row == Trunc(Round(p2.y));
  }

  /** Do the squares of half-width LineOffset around all centres cs fit in a? */
  ghost predicate AllFit(a: array3<Byte>, cs: seq<Cell>) {
    forall q :: 0 <= q < |cs| ==> BlockFits(a, cs[q].row, cs[q].col, LineOffset)
  }

  /** One step of DrawLine's walk: the centre of column x is the next one of the line. */
  lemma CentersAdvance(done: seq<Cell>, rest: seq<Cell>, line: seq<Cell>, x: int, end: int, y: real, step: real,
                       cell: Cell, after: seq<Cell>)
    requires x <= end && rest == Centers(x, end, y, step) && done + rest == line
    requires cell == Cell(Trunc(Round(y)), x) && after == Centers(x + 1, end, y + step, step)
    ensures (done + [cell]) + after == line
  {
    assert rest == [cell] + after;
  }

  lemma AllFitSnoc(a: array3<Byte>, cs: seq<Cell>, cell: Cell)
    ensures AllFit(a, cs + [cell]) <==> AllFit(a, cs) && BlockFits(a, cell.row, cell.col, LineOffset)
  {
    if AllFit(a, cs) && BlockFits(a, cell.row, cell.col, LineOffset) {
      forall q | 0 <= q < |cs| + 1
        ensures BlockFits(a, (cs + [cell])[q].row, (cs + [cell])[q].col, LineOffset)
      {
        if q < |cs| { assert (cs + [cell])[q] == cs[q]; }
      }
    }
    if AllFit(a, cs + [cell]) {
      forall q | 0 <= q < |cs|
        ensures BlockFits(a, cs[q].row, cs[q].col, LineOffset)
      {
        assert (cs + [cell])[q] == cs[q];
      }
      assert (cs + [cell])[|cs|] == cell;
    }
  }

  /** Is pixel (r, c) painted when the squares around cs are painted in order? The first square
      that does not fit ends the walk, and only the cells it reached before are painted. */
  ghost predicate Stroked(a: array3<Byte>, cs: seq<Cell>, r: int, c: int)
    decreases |cs|
  {
    && |cs| > 0
    && var pre, last := cs[..|cs| - 1], cs[|cs| - 1];
       Stroked(a, pre, r, c) || (AllFit(a, pre) && BlockWrites(a, last.row, last.col, LineOffset, r, c))
  }

  lemma StrokedSnoc(a: array3<Byte>, cs: seq<Cell>, cell: Cell, r: int, c: int)
    ensures Stroked(a, cs + [cell], r, c)
         == (Stroked(a, cs, r, c) || (AllFit(a, cs) && BlockWrites(a, cell.row, cell.col, LineOffset, r, c)))
  {
    assert (cs + [cell])[..|cs|] == cs;
  }

  /** Nothing after a square that does not fit is painted. */
  lemma {:induction false} StrokedStops(a: array3<Byte>, pre: seq<Cell>, rest: seq<Cell>, r: int, c: int)
    requires !AllFit(a, pre)
    ensures Stroked(a, pre + rest, r, c) == Stroked(a, pre, r, c)
    ensures !AllFit(a, pre + rest)
    decreases |rest|
  {
    if rest != [] {
      var init, last := rest[..|rest| - 1], rest[|rest| - 1];
      assert pre + rest == (pre + init) + [last];
      StrokedStops(a, pre, init, r, c);
      StrokedSnoc(a, pre + init, last, r, c);
      assert forall q :: 0 <= q < |pre| ==> (pre + init)[q] == pre[q];
    } else {
      assert pre + rest == pre;
    }
  }

  /** When every square fits, the painted pixels are exactly those of the 2 × 2 squares around
      the centres: the rows and columns at offsets −1 and 0. */
  lemma {:induction false} StrokedSquares(a: array3<Byte>, cs: seq<Cell>, r: int, c: int)
    requires AllFit(a, cs)
    ensures Stroked(a, cs, r, c)
        <==> exists q :: 0 <= q < |cs| && InBlock(LineOffset, c - cs[q].col, r - cs[q].row)
    decreases |cs|
  {
    if cs != [] {
      var pre, last := cs[..|cs| - 1], cs[|cs| - 1];
      assert AllFit(a, pre) by {
        forall q | 0 <= q < |pre|
          ensures BlockFits(a, pre[q].row, pre[q].col, LineOffset)
        {
          assert pre[q] == cs[q];
        }
      }
      StrokedSquares(a, pre, r, c);
      assert BlockFits(a, last.row, last.col, LineOffset);
      if exists q :: 0 <= q < |cs| && InBlock(LineOffset, c - cs[q].col, r - cs[q].row) {
        var q :| 0 <= q < |cs| && InBlock(LineOffset, c - cs[q].col, r - cs[q].row);
        if q < |pre| {
          assert pre[q] == cs[q];
        }
      }
      if exists q :: 0 <= q < |pre| && InBlock(LineOffset, c - pre[q].col, r - pre[q].row) {
        var q :| 0 <= q < |pre| && InBlock(LineOffset, c - pre[q].col, r - pre[q].row);
        assert cs[q] == pre[q];
      }
    }
  }

  /** The canvas view model. */
  class CanvasViewModel {
    /** The pixel buffer: BitmapHeight rows of BitmapWidth pixels of 4 bytes (B, G, R, A). */
    const pixels: array3<Byte>
    /** The flattened copy the bitmap was last written from. */
    var bitmap: array<Byte>
    /** The point of an odd-numbered click, waiting for the click that ends its line. */
    var lastPoint: Option<Point>
    /** The number of clicks that ran to the end. */
    ghost var clicks: nat

    /** The buffer has the source's dimensions, every colour byte is the background or black,
        every alpha byte is opaque, and a point is pending exactly after an odd number of clicks. */
    ghost predicate Valid()
      reads this, pixels
    {
      && pixels.Length0 == BitmapHeight && pixels.Length1 == BitmapWidth && pixels.Length2 == Channels
      && bitmap.Length == BitmapHeight * BitmapWidth * Channels
      && (forall row, col, k :: 0 <= row < pixels.Length0 && 0 <= col < pixels.Length1 && 0 <= k < Channels ==>
            if k < 3 then pixels[row, col, k] == CanvasColor || pixels[row, col, k] == Black else pixels[row, col, k] == 255)
      && (lastPoint.Some? <==> clicks % 2 == 1)
    }

    /** Every colour byte is the background colour and every alpha byte is opaque. */
    ghost predicate Blank()
      reads this, pixels
    {
      && pixels.Length2 == Channels
      && forall row, col, k :: 0 <= row < pixels.Length0 && 0 <= col < pixels.Length1 && 0 <= k < Channels ==>
           pixels[row, col, k] == if k < 3 then CanvasColor else 255
    }

    /** The bitmap is the row-major flattening of the pixel buffer. */
    ghost predicate Shown()
      reads this, pixels, bitmap
    {
      Flattened(pixels, bitmap)
    }

    /** Which pixels a click at p paints when `last` is pending: those of its own 6 × 6 square
        and, when that square fits and a point is pending, those of the line from p to it. */
    ghost predicate ClickPaints(last: Option<Point>, p: Point, r: int, c: int) {
      || BlockWrites(pixels, Trunc(p.y), Trunc(p.x), ClickOffset, r, c)
      || (BlockFits(pixels, Trunc(p.y), Trunc(p.x), ClickOffset) && last.Some? && Stroked(pixels, LineCenters(p, last.value), r, c))
    }

    /** The constructor: the buffer is cleared and shown, and no point is pending. */
    constructor ()
      ensures Valid() && Blank() && Shown()
      ensures lastPoint == None && clicks == 0
    {
      pixels := new Byte[BitmapHeight, BitmapWidth, Channels];
      bitmap := new Byte[BitmapHeight * BitmapWidth * Channels];
      lastPoint := None;
      clicks := 0;
      new;
      InitializeBitmap();
    }

    /** Click: paints the square at p. On an odd-numbered click p becomes pending. On an
        even-numbered one the line from p to the pending point is drawn and nothing is pending
        any more. The bitmap is then refreshed. A square that reaches past the buffer throws;
        the click then stops there, and the pending point and the bitmap stay as they were. */
    method Click(p: Point) returns (outcome: Outcome)
      requires Valid()
      modifies this, pixels
      ensures Valid()
      ensures outcome.Completed? <==>
        && BlockFits(pixels, Trunc(p.y), Trunc(p.x), ClickOffset)
        && (old(lastPoint).Some? ==> AllFit(pixels, LineCenters(p, old(lastPoint).value)))
      ensures outcome.Thrown? ==>
        outcome.fault == IndexOutOfRange && lastPoint == old(lastPoint) && clicks == old(clicks) && bitmap == old(bitmap)
      ensures outcome.Completed? ==>
        && lastPoint == (if old(lastPoint).None? then Some(p) else None)
        && clicks == old(clicks) + 1
        && Shown()
      ensures forall row, col, k :: 0 <= row < pixels.Length0 && 0 <= col < pixels.Length1 && 0 <= k < Channels ==>
        pixels[row, col, k] == if k < 3 && ClickPaints(old(lastPoint), p, row, col) then Black else old(pixels[row, col, k])
    {
      outcome := DrawPoint(p, ClickOffset);
      if outcome.Thrown? {
        return;
      }
      if lastPoint.None? {
        lastPoint := Some(p);
      } else {
        outcome := DrawLine(p, lastPoint.value);
        if outcome.Thrown? {
          return;
        }
        lastPoint := None;
      }
      clicks := clicks + 1;
      SetBitmap();
    }

    /** DrawLine: for every column x from the smaller to the larger truncated x of the ends, the
        2 × 2 square around (x, Round(y)) is painted, then y advances by the slope. A square that
        reaches past the buffer throws and ends the line. */
    method DrawLine(p1: Point, p2: Point) returns (outcome: Outcome)
      requires pixels.Length2 == Channels
      modifies pixels
      ensures outcome.Completed? <==> AllFit(pixels, LineCenters(p1, p2))
      ensures outcome.Thrown? ==> outcome.fault == IndexOutOfRange
      ensures forall row, col, k :: 0 <= row < pixels.Length0 && 0 <= col < pixels.Length1 && 0 <= k < Channels ==>
        pixels[row, col, k] == if k < 3 && Stroked(pixels, LineCenters(p1, p2), row, col) then Black else old(pixels[row, col, k])
    {
      var dy := p2.y - p1.y;
      var dx := p2.x - p1.x;
      // a vertical segment has one column, so its slope is never used
      var m := if dx == 0.0 then 0.0 else dy / dx;
      var y := if Trunc(p1.x) < Trunc(p2.x) then p1.y else p2.y;
      var beginX, endX;
      if Trunc(p1.x) < Trunc(p2.x) {
        beginX, endX := Trunc(p1.x), Trunc(p2.x);
      } else {
        beginX, endX := Trunc(p2.x), Trunc(p1.x);
      }
      ghost var line := LineCenters(p1, p2);
      assert line == Centers(beginX, endX, y, m);
      ghost var done: seq<Cell> := [];
      ghost var rest := line;
      var x := beginX;
      while x <= endX
        invariant rest == Centers(x, endX, y, m) && done + rest == line
        invariant AllFit(pixels, done)
        invariant forall row, col, k :: 0 <= row < pixels.Length0 && 0 <= col < pixels.Length1 && 0 <= k < Channels ==>
          pixels[row, col, k] == if k < 3 && Stroked(pixels, done, row, col) then Black else old(pixels[row, col, k])
        decreases endX - x
      {
        var cell := Cell(Trunc(Round(y)), x);
        ghost var after := Centers(x + 1, endX, y + m, m);
        CentersAdvance(done, rest, line, x, endX, y, m, cell, after);
        outcome := DrawPoint(Point(x as real, Round(y)), LineOffset);
        forall row, col, k | 0 <= row < pixels.Length0 && 0 <= col < pixels.Length1 && 0 <= k < Channels
          ensures pixels[row, col, k] == if k < 3 && Stroked(pixels, done + [cell], row, col) then Black else old(pixels[row, col, k])
        {
          StrokedSnoc(pixels, done, cell, row, col);
        }
        AllFitSnoc(pixels, done, cell);
        if outcome.Thrown? {
          forall row, col
            ensures Stroked(pixels, line, row, col) == Stroked(pixels, done + [cell], row, col)
          {
            StrokedStops(pixels, done + [cell], after, row, col);
          }
          StrokedStops(pixels, done + [cell], after, 0, 0);
          return;
        }
        done, rest := done + [cell], after;
        y := y + m;
        x := x + 1;
      }
      assert done == line;
      return Completed;
    }

    /** DrawPoint: the cells (row + j, col + i) for i and j in [−offset, offset), around the
        truncated coordinates of p, get black colour bytes, column offset outermost. The first cell
        outside the buffer throws; the cells before it stay painted. */
    method DrawPoint(p: Point, offset: int) returns (outcome: Outcome)
      requires pixels.Length2 == Channels
      modifies pixels
      ensures outcome.Completed? <==> BlockFits(pixels, Trunc(p.y), Trunc(p.x), offset)
      ensures outcome.Thrown? ==> outcome.fault == IndexOutOfRange
      ensures forall row, col, k :: 0 <= row < pixels.Length0 && 0 <= col < pixels.Length1 && 0 <= k < Channels ==>
        pixels[row, col, k] == if k < 3 && BlockWrites(pixels, Trunc(p.y), Trunc(p.x), offset, row, col) then Black else old(pixels[row, col, k])
    {
      var completed := PaintBlock(pixels, Trunc(p.y), Trunc(p.x), offset, Black);
      outcome := if completed then Completed else Thrown(IndexOutOfRange);
    }

    /** InitializeBitmap: every colour byte gets the background colour, every alpha byte 255, and
        the bitmap is refreshed. */
    method InitializeBitmap()
      requires pixels.Length0 == BitmapHeight && pixels.Length1 == BitmapWidth && pixels.Length2 == Channels
      modifies this, pixels
      ensures Blank() && Shown() && fresh(bitmap)
      ensures lastPoint == old(lastPoint) && clicks == old(clicks)
    {
      Fill(pixels, CanvasColor);
      SetBitmap();
    }

    /** SetBitmap: a fresh row-major copy of the buffer becomes the bitmap. */
    method SetBitmap()
      requires pixels.Length2 == Channels
      modifies this
      ensures Shown() && fresh(bitmap)
      ensures lastPoint == old(lastPoint) && clicks == old(clicks)
    {
      bitmap := Flatten(pixels);
    }
  }
}
