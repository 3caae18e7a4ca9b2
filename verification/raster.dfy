/**
 * What the stereoscopy view draws, as sequences of plots: Wu's anti-aliased line between two
 * screen points, the outline of a triangle, and the outlines of the front-facing triangles of
 * a mesh. The drawing methods of the view model are specified against these functions.
 */
module Raster {
  import opened Arith
  import opened Framebuffer
  import opened SphereMesh

  /** A point on the screen; x grows to the right (columns), y downwards (rows). */
  datatype Point = Point(x: real, y: real)

  /** The line colour L of the Wu line. */
  const Ink: Byte := 0

  /** The background colour B of the Wu line (the canvas colour). */
  const Paper: Byte := 255

  /** `v - (int)v`: the fractional part of v, negative for negative non-integers. */
  function Frac(v: real): (f: real)
    ensures -1.0 < f < 1.0
    ensures v >= 0.0 ==> 0.0 <= f < 1.0
    ensures v <= 0.0 ==> -1.0 < f <= 0.0
  {
    v - Trunc(v) as real
  }

  /** The two intensities of one Wu step at fractional part f, before the cast to byte:
      the first pixel gets the ink weighted by 1 − f, the second by f. */
  function Shade(f: real): (c: (real, real))
    ensures c.0 + c.1 == Ink as real + Paper as real
    ensures 0.0 <= f < 1.0 ==> Ink as real <= c.0 < Paper as real && Ink as real < c.1 <= Paper as real
  {
    (Ink as real * (1.0 - f) + Paper as real * f, Ink as real * f + Paper as real * (1.0 - f))
  }

  /** The two plots of a shallow step at column x and fractional row y: rows ⌊y⌋ and ⌊y⌋ + 1. */
  function ColumnPlots(x: int, y: real): (plots: seq<Plot>)
    ensures |plots| == 2
  {
    var c := Shade(Frac(y));
    [Plot(x, y.Floor, ByteOf(c.0)), Plot(x, y.Floor + 1, ByteOf(c.1))]
  }

  /** The two plots of a steep step at row y and fractional column x: columns ⌊x⌋ and ⌊x⌋ + 1. */
  function RowPlots(y: int, x: real): (plots: seq<Plot>)
    ensures |plots| == 2
  {
    var c := Shade(Frac(x));
    [Plot(x.Floor, y, ByteOf(c.0)), Plot(x.Floor + 1, y, ByteOf(c.1))]
  }

  /** A walk along the integers i..end, carrying a fractional coordinate v that advances by
      `step` per integer; each position contributes the two plots `stepPlots(i, v)`. */
  function Walk(i: int, end: int, v: real, step: real, stepPlots: (int, real) -> seq<Plot>): (plots: seq<Plot>)
    requires forall i', v' :: |stepPlots(i', v')| == 2
    ensures |plots| == if i <= end then 2 * (end - i + 1) else 0
    decreases end - i
  {
    if i > end then [] else stepPlots(i, v) + Walk(i + 1, end, v + step, step, stepPlots)
  }

  /** Is the slope dy/dx of p1 → p2 below 1 in magnitude? A vertical segment (dx = 0) divides by
      zero in floating point, giving an infinite or undefined slope, and is steep. */
  predicate Shallow(p1: Point, p2: Point) {
    var dx, dy := p2.x - p1.x, p2.y - p1.y;
    dx != 0.0 && -1.0 < dy / dx < 1.0
  }

  /** The plots of the Wu line from p1 to p2, in drawing order. The walk runs between the
      truncated end coordinates and starts from the end with the smaller truncated coordinate;
      when both truncate alike it starts from p2. In the steep branch the step 1/m is dx/dy,
      which is 0 for a vertical segment. */
  function WuLine(p1: Point, p2: Point): (plots: seq<Plot>)
    ensures Shallow(p1, p2) ==> |plots| == 2 * (Max(Trunc(p1.x), Trunc(p2.x)) - Min(Trunc(p1.x), Trunc(p2.x)) + 1)
    ensures !Shallow(p1, p2) ==> |plots| == 2 * (Max(Trunc(p1.y), Trunc(p2.y)) - Min(Trunc(p1.y), Trunc(p2.y)) + 1)
  {
    var dx, dy := p2.x - p1.x, p2.y - p1.y;
    if Shallow(p1, p2) then
      var y := if Trunc(p1.x) < Trunc(p2.x) then p1.y else p2.y;
      var beginX := if Trunc(p1.x) < Trunc(p2.x) then Trunc(p1.x) else Trunc(p2.x);
      var endX := if Trunc(p1.x) < Trunc(p2.x) then Trunc(p2.x) else Trunc(p1.x);
      Walk(beginX, endX, y, dy / dx, ColumnPlots)
    else
      var x := if Trunc(p1.y) < Trunc(p2.y) then p1.x else p2.x;
      var beginY := if Trunc(p1.y) < Trunc(p2.y) then Trunc(p1.y) else Trunc(p2.y);
      var endY := if Trunc(p1.y) < Trunc(p2.y) then Trunc(p2.y) else Trunc(p1.y);
      Walk(beginY, endY, x, if dx == 0.0 then 0.0 else dx / dy, RowPlots)
  }

  /** The shallow branch of WuLine, for the start row and the column range a caller has chosen
      the way WuLine chooses them. */
  lemma ShallowWalk(p1: Point, p2: Point, y: real, beginX: int, endX: int)
    requires Shallow(p1, p2) && y == if Trunc(p1.x) < Trunc(p2.x) then p1.y else p2.y
    requires Trunc(p1.x) < Trunc(p2.x) ==> beginX == Trunc(p1.x) && endX == Trunc(p2.x)
    requires Trunc(p1.x) >= Trunc(p2.x) ==> beginX == Trunc(p2.x) && endX == Trunc(p1.x)
    ensures WuLine(p1, p2) == Walk(beginX, endX, y, (p2.y - p1.y) / (p2.x - p1.x), ColumnPlots)
  {
  }

  /** The steep branch of WuLine, likewise. */
  lemma SteepWalk(p1: Point, p2: Point, x: real, beginY: int, endY: int, step: real)
    requires !Shallow(p1, p2) && x == if Trunc(p1.y) < Trunc(p2.y) then p1.x else p2.x
    requires Trunc(p1.y) < Trunc(p2.y) ==> beginY == Trunc(p1.y) && endY == Trunc(p2.y)
    requires Trunc(p1.y) >= Trunc(p2.y) ==> beginY == Trunc(p2.y) && endY == Trunc(p1.y)
    requires step == if p2.x - p1.x == 0.0 then 0.0 else (p2.x - p1.x) / (p2.y - p1.y)
    ensures WuLine(p1, p2) == Walk(beginY, endY, x, step, RowPlots)
  {
  }

  function Min(a: int, b: int): int { if a < b then a else b }
  function Max(a: int, b: int): int { if a < b then b else a }

  // ---------------------------------------------------------------------------
  // Closed forms of the two walks

  /** A walk that has not ended is its first step followed by the rest. */
  lemma WalkStep(i: int, end: int, v: real, step: real, stepPlots: (int, real) -> seq<Plot>)
    requires forall i', v' :: |stepPlots(i', v')| == 2
    requires i <= end
    ensures Walk(i, end, v, step, stepPlots) == stepPlots(i, v) + Walk(i + 1, end, v + step, step, stepPlots)
  {
  }

  /** Plots drawn so far followed by the rest of a walk: one more step moves the next two plots
      from the rest to the plots drawn. */
  lemma WalkAdvance(done: seq<Plot>, pair: seq<Plot>, line: seq<Plot>, i: int, end: int, v: real, step: real,
                    stepPlots: (int, real) -> seq<Plot>)
    requires forall i', v' :: |stepPlots(i', v')| == 2
    requires i <= end && pair == stepPlots(i, v) && done + Walk(i, end, v, step, stepPlots) == line
    ensures (done + pair) + Walk(i + 1, end, v + step, step, stepPlots) == line
  {
    WalkStep(i, end, v, step, stepPlots);
  }

  /** The walked coordinate after q steps of `step` from v, added one step at a time as the loop
      does. */
  function Advance(v: real, step: real, q: nat): real
    decreases q
  {
    if q == 0 then v else Advance(v + step, step, q - 1)
  }

  /** A steep segment that is not vertical rises by at least its run, so dy is not zero. */
  lemma SteepRise(dx: real, dy: real)
    requires dx != 0.0 && !(-1.0 < dy / dx < 1.0)
    ensures dy != 0.0
  {
  }

  /** Negating both operands leaves a quotient unchanged. */
  lemma NegDiv(a: real, b: real)
    requires b != 0.0
    ensures (-a) / (-b) == a / b
  {
    assert (-a) / (-b) == (-1.0 * a) / (-1.0 * b);
  }

  /** Position q of a walk is i + q, with the fractional coordinate advanced q steps. */
  lemma {:induction false} WalkAt(i: int, end: int, v: real, step: real, stepPlots: (int, real) -> seq<Plot>, q: nat)
    requires forall i', v' :: |stepPlots(i', v')| == 2
    requires q <= end - i
    ensures Walk(i, end, v, step, stepPlots)[2 * q] == stepPlots(i + q, Advance(v, step, q))[0]
    ensures Walk(i, end, v, step, stepPlots)[2 * q + 1] == stepPlots(i + q, Advance(v, step, q))[1]
    decreases q
  {
    var head, rest := stepPlots(i, v), Walk(i + 1, end, v + step, step, stepPlots);
    assert Walk(i, end, v, step, stepPlots) == head + rest;
    if q > 0 {
      WalkAt(i + 1, end, v + step, step, stepPlots, q - 1);
      var at := stepPlots(i + q, Advance(v, step, q));
      assert stepPlots(i + 1 + (q - 1), Advance(v + step, step, q - 1)) == at;
      assert (head + rest)[2 * q] == rest[2 * (q - 1)] == at[0];
      assert (head + rest)[2 * q + 1] == rest[2 * (q - 1) + 1] == at[1];
    }
  }

  /** A shallow line visits every column from the smaller to the larger truncated x, inclusive,
      and plots in each column two vertically adjacent pixels. */
  lemma WuLineShallow(p1: Point, p2: Point)
    requires Shallow(p1, p2)
    ensures var plots, b, e := WuLine(p1, p2), Min(Trunc(p1.x), Trunc(p2.x)), Max(Trunc(p1.x), Trunc(p2.x));
      && |plots| == 2 * (e - b + 1)
      && forall q :: 0 <= q <= e - b ==>
           plots[2 * q].x == b + q && plots[2 * q + 1].x == b + q && plots[2 * q + 1].y == plots[2 * q].y + 1
  {
    var plots, b, e := WuLine(p1, p2), Min(Trunc(p1.x), Trunc(p2.x)), Max(Trunc(p1.x), Trunc(p2.x));
    var y := if Trunc(p1.x) < Trunc(p2.x) then p1.y else p2.y;
    var step := (p2.y - p1.y) / (p2.x - p1.x);
    assert plots == Walk(b, e, y, step, ColumnPlots);
    forall q | 0 <= q <= e - b
      ensures plots[2 * q].x == b + q && plots[2 * q + 1].x == b + q && plots[2 * q + 1].y == plots[2 * q].y + 1
    {
      WalkAt(b, e, y, step, ColumnPlots, q);
    }
  }

  /** A steep line visits every row from the smaller to the larger truncated y, inclusive, and
      plots in each row two horizontally adjacent pixels. */
  lemma WuLineSteep(p1: Point, p2: Point)
    requires !Shallow(p1, p2)
    ensures var plots, b, e := WuLine(p1, p2), Min(Trunc(p1.y), Trunc(p2.y)), Max(Trunc(p1.y), Trunc(p2.y));
      && |plots| == 2 * (e - b + 1)
      && forall q :: 0 <= q <= e - b ==>
           plots[2 * q].y == b + q && plots[2 * q + 1].y == b + q && plots[2 * q + 1].x == plots[2 * q].x + 1
  {
    var plots, b, e := WuLine(p1, p2), Min(Trunc(p1.y), Trunc(p2.y)), Max(Trunc(p1.y), Trunc(p2.y));
    var x := if Trunc(p1.y) < Trunc(p2.y) then p1.x else p2.x;
    var dx, dy := p2.x - p1.x, p2.y - p1.y;
    if dx != 0.0 {
      SteepRise(dx, dy);
    }
    var step := if dx == 0.0 then 0.0 else dx / dy;
    assert plots == Walk(b, e, x, step, RowPlots);
    forall q | 0 <= q <= e - b
      ensures plots[2 * q].y == b + q && plots[2 * q + 1].y == b + q && plots[2 * q + 1].x == plots[2 * q].x + 1
    {
      WalkAt(b, e, x, step, RowPlots, q);
    }
  }

  /** The two bytes of a step add up to 254 or 255: the cast to byte truncates each of two
      complementary intensities. For a negative coordinate both intensities leave the byte range
      and wrap, and the sum still holds. */
  lemma ShadeBytes(v: real)
    ensures var c := Shade(Frac(v)); 254 <= ByteOf(c.0) + ByteOf(c.1) <= 255
  {
    var c := Shade(Frac(v));
    assert c.1 == 255.0 - c.0;
    var a := c.0.Floor;
    assert (255.0 - c.0).Floor == if a as real == c.0 then 255 - a else 254 - a;
  }

  /** Drawing p2 → p1 gives the same plots as p1 → p2, provided the end coordinates along the
      walk truncate to different integers. */
  lemma WuLineSymmetric(p1: Point, p2: Point)
    requires Shallow(p1, p2) ==> Trunc(p1.x) != Trunc(p2.x)
    requires !Shallow(p1, p2) ==> Trunc(p1.y) != Trunc(p2.y)
    ensures WuLine(p2, p1) == WuLine(p1, p2)
  {
    var dx, dy := p2.x - p1.x, p2.y - p1.y;
    assert p1.x - p2.x == -dx && p1.y - p2.y == -dy;
    if dx != 0.0 {
      NegDiv(dy, dx);
    }
    if dy != 0.0 {
      NegDiv(dx, dy);
    }
  }

  /** When both ends truncate to the same column the walk starts from the second point's row,
      so the direction matters: (0.2, 0) → (0.7, 0.3) shades rows 0 and 1 with 76 and 178,
      the reverse direction with 0 and 255. */
  lemma WuLineAsymmetric()
    ensures WuLine(Point(0.2, 0.0), Point(0.7, 0.3)) == [Plot(0, 0, 76), Plot(0, 1, 178)]
    ensures WuLine(Point(0.7, 0.3), Point(0.2, 0.0)) == [Plot(0, 0, 0), Plot(0, 1, 255)]
  {
    var p1, p2 := Point(0.2, 0.0), Point(0.7, 0.3);
    assert Shallow(p1, p2) && Shallow(p2, p1);
    assert Trunc(0.2) == 0 && Trunc(0.7) == 0 && Trunc(0.3) == 0 && Trunc(0.0) == 0;
    assert ByteOf(76.5) == 76 && ByteOf(178.5) == 178;
    assert ByteOf(0.0) == 0 && ByteOf(255.0) == 255;
  }

  // ---------------------------------------------------------------------------
  // Back-face culling and triangle outlines

  /** The z component of (b − a) × (c − a). */
  function Cross(a: Point, b: Point, c: Point): (z: real)
    ensures a == b || b == c || a == c ==> z == 0.0
  {
    (b.x - a.x) * (c.y - a.y) - (b.y - a.y) * (c.x - a.x)
  }

  /** A triangle is drawn when its screen winding makes the cross product strictly positive. */
  predicate FrontFacing(a: Point, b: Point, c: Point)
    ensures FrontFacing(a, b, c) ==> a != b && b != c && a != c
  {
    Cross(a, b, c) > 0.0
  }

  /** The test does not depend on which vertex comes first, and a triangle and its mirror
      winding are never both drawn; a degenerate (collinear) triangle is never drawn. */
  lemma FrontFacingWinding(a: Point, b: Point, c: Point)
    ensures FrontFacing(a, b, c) <==> FrontFacing(b, c, a)
    ensures FrontFacing(a, b, c) ==> !FrontFacing(a, c, b)
    ensures a == b || b == c || a == c ==> !FrontFacing(a, b, c)
  {
    assert Cross(b, c, a) == Cross(a, b, c);
    assert Cross(a, c, b) == -Cross(a, b, c);
  }

  /** The three edges of a drawn triangle, v1 → v2, v2 → v3, v3 → v1, in that order. */
  function Outline(a: Point, b: Point, c: Point): seq<Plot> {
    WuLine(a, b) + WuLine(b, c) + WuLine(c, a)
  }

  /** The screen position of a vertex. */
  function Screen(v: Vertex): Point {
    Point(v.sx, v.sy)
  }

  /** Do all corners of all triangles index the vertex array? */
  predicate Indexed(vs: seq<Vertex>, ts: seq<Triangle>) {
    forall k :: 0 <= k < |ts| ==> 0 <= ts[k].v1 < |vs| && 0 <= ts[k].v2 < |vs| && 0 <= ts[k].v3 < |vs|
  }

  /** Is triangle t front-facing on the screen? */
  predicate Visible(vs: seq<Vertex>, t: Triangle)
    requires 0 <= t.v1 < |vs| && 0 <= t.v2 < |vs| && 0 <= t.v3 < |vs|
  {
    FrontFacing(Screen(vs[t.v1]), Screen(vs[t.v2]), Screen(vs[t.v3]))
  }

  /** The plots triangle t contributes to the mesh: its outline if it is front-facing, else none. */
  function TrianglePlots(vs: seq<Vertex>, t: Triangle): seq<Plot>
    requires 0 <= t.v1 < |vs| && 0 <= t.v2 < |vs| && 0 <= t.v3 < |vs|
  {
    if Visible(vs, t) then Outline(Screen(vs[t.v1]), Screen(vs[t.v2]), Screen(vs[t.v3])) else []
  }

  /** The plots of a run of parts, one after the other. */
  function Concat(parts: seq<seq<Plot>>): seq<Plot>
    decreases |parts|
  {
    if parts == [] then [] else Concat(parts[..|parts| - 1]) + parts[|parts| - 1]
  }

  /** The contribution of each triangle, in array order. */
  function Parts(vs: seq<Vertex>, ts: seq<Triangle>): (parts: seq<seq<Plot>>)
    requires Indexed(vs, ts)
    ensures |parts| == |ts|
  {
    seq(|ts|, k requires 0 <= k < |ts| => TrianglePlots(vs, ts[k]))
  }

  /** The plots of the whole mesh, triangle after triangle in array order. */
  function MeshPlots(vs: seq<Vertex>, ts: seq<Triangle>): seq<Plot>
    requires Indexed(vs, ts)
  {
    Concat(Parts(vs, ts))
  }

  /** The contribution of triangle t whose corners are on screen at a, b and c. */
  lemma TrianglePlotsAt(vs: seq<Vertex>, t: Triangle, a: Point, b: Point, c: Point)
    requires 0 <= t.v1 < |vs| && 0 <= t.v2 < |vs| && 0 <= t.v3 < |vs|
    requires a == Screen(vs[t.v1]) && b == Screen(vs[t.v2]) && c == Screen(vs[t.v3])
    ensures TrianglePlots(vs, t) == if Cross(a, b, c) > 0.0 then Outline(a, b, c) else []
  {
  }

  /** The plots of the first k + 1 triangles are those of the first k followed by triangle k's. */
  lemma PartsStep(vs: seq<Vertex>, ts: seq<Triangle>, k: int)
    requires Indexed(vs, ts) && 0 <= k < |ts|
    ensures Concat(Parts(vs, ts)[..k + 1]) == Concat(Parts(vs, ts)[..k]) + TrianglePlots(vs, ts[k])
  {
    var parts := Parts(vs, ts);
    assert parts[..k + 1][..k] == parts[..k];
  }

  /** A run of parts touches a pixel exactly when one of the parts does. */
  lemma {:induction false} ConcatHits(parts: seq<seq<Plot>>, row: int, col: int)
    ensures Hits(Concat(parts), row, col) <==> exists k :: 0 <= k < |parts| && Hits(parts[k], row, col)
    decreases |parts|
  {
    if parts != [] {
      var init, last := parts[..|parts| - 1], parts[|parts| - 1];
      ConcatHits(init, row, col);
      HitsAppend(Concat(init), last, row, col);
      if exists k :: 0 <= k < |init| && Hits(init[k], row, col) {
        var k :| 0 <= k < |init| && Hits(init[k], row, col);
        assert parts[k] == init[k];
      }
      if exists k :: 0 <= k < |parts| && Hits(parts[k], row, col) {
        var k :| 0 <= k < |parts| && Hits(parts[k], row, col);
        if k < |init| {
          assert init[k] == parts[k];
        }
      }
    }
  }

  /** A triangle touches a pixel exactly when it is front-facing and the pixel lies on its outline. */
  lemma TrianglePlotsHits(vs: seq<Vertex>, t: Triangle, row: int, col: int)
    requires 0 <= t.v1 < |vs| && 0 <= t.v2 < |vs| && 0 <= t.v3 < |vs|
    ensures Hits(TrianglePlots(vs, t), row, col) <==>
      Visible(vs, t) && Hits(Outline(Screen(vs[t.v1]), Screen(vs[t.v2]), Screen(vs[t.v3])), row, col)
  {
  }

  /** A pixel is touched by the mesh exactly when it lies on the outline of a front-facing
      triangle: back-facing triangles contribute nothing. */
  lemma MeshPlotsHits(vs: seq<Vertex>, ts: seq<Triangle>, row: int, col: int)
    requires Indexed(vs, ts)
    ensures Hits(MeshPlots(vs, ts), row, col) <==>
      exists k :: 0 <= k < |ts| && Visible(vs, ts[k])
        && Hits(Outline(Screen(vs[ts[k].v1]), Screen(vs[ts[k].v2]), Screen(vs[ts[k].v3])), row, col)
  {
    ConcatHits(Parts(vs, ts), row, col);
    forall k | 0 <= k < |ts|
      ensures Hits(Parts(vs, ts)[k], row, col) <==>
        Visible(vs, ts[k]) && Hits(Outline(Screen(vs[ts[k].v1]), Screen(vs[ts[k].v2]), Screen(vs[ts[k].v3])), row, col)
    {
      TrianglePlotsHits(vs, ts[k], row, col);
    }
  }

  /** A concatenation hits a pixel exactly when one of its parts does. */
  lemma HitsAppend(first: seq<Plot>, second: seq<Plot>, row: int, col: int)
    ensures Hits(first + second, row, col) <==> Hits(first, row, col) || Hits(second, row, col)
  {
    var all := first + second;
    if Hits(all, row, col) {
      var q :| 0 <= q < |all| && all[q].y == row && all[q].x == col;
      if q >= |first| {
        assert second[q - |first|] == all[q];
      } else {
        assert first[q] == all[q];
      }
    }
    if Hits(first, row, col) {
      var q :| 0 <= q < |first| && first[q].y == row && first[q].x == col;
      assert all[q] == first[q];
    }
    if Hits(second, row, col) {
      var q :| 0 <= q < |second| && second[q].y == row && second[q].x == col;
      assert all[q + |first|] == second[q];
    }
  }
}
