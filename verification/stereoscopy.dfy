/**
 * The stereoscopy view model: a 1000 × 1000 BGRA pixel buffer on which a UV sphere is drawn as
 * the anti-aliased outlines of its front-facing triangles. The drawing methods are specified
 * against the plot sequences of the Raster module: after a drawing step, every colour byte is
 * what the plots left there (the last plot aimed at the pixel wins) and every alpha byte is as
 * it was.
 */
module Stereoscopy {
  import opened Outcomes
  import opened Arith
  import opened Framebuffer
  import opened SphereMesh
  import opened Matrices
  import opened Raster

  const BitmapWidth := 1000
  const BitmapHeight := 1000

  /** The background colour (byte.MaxValue). */
  const CanvasColor: Byte := 255

  /** The view matrix `t`: the identity with `zoom` as translation along z. */
  function View(zoom: real): (t: Matrix)
    ensures Shape(t, 4, 4)
    ensures forall i, j :: 0 <= i < 4 && 0 <= j < 4 ==> t[i][j] == if i == j then 1.0 else if i == 2 && j == 3 then zoom else 0.0
  {
    [[1.0, 0.0, 0.0, 0.0], [0.0, 1.0, 0.0, 0.0], [0.0, 0.0, 1.0, zoom], [0.0, 0.0, 0.0, 1.0]]
  }

  /** The rotation about the x axis, given the cosine and sine of its angle. */
  function RotationX(cos: real, sin: real): (rx: Matrix)
    ensures Shape(rx, 4, 4)
  {
    [[1.0, 0.0, 0.0, 0.0], [0.0, cos, -sin, 0.0], [0.0, sin, cos, 0.0], [0.0, 0.0, 0.0, 1.0]]
  }

  /** The rotation about the y axis, given the cosine and sine of its angle. */
  function RotationY(cos: real, sin: real): (ry: Matrix)
    ensures Shape(ry, 4, 4)
  {
    [[cos, 0.0, sin, 0.0], [0.0, 1.0, 0.0, 0.0], [-sin, 0.0, cos, 0.0], [0.0, 0.0, 0.0, 1.0]]
  }

  /** At the initial angles alphaX = alphaY = 0 (cos 0 = 1, sin 0 = 0) both rotations are the
      identity, so the combined matrix T is the view matrix itself. */
  lemma RotationsAtRest(t: Matrix)
    requires Shape(t, 4, 4)
    ensures RotationX(1.0, 0.0) == Identity(4) && RotationY(1.0, 0.0) == Identity(4)
    ensures Product(Product(t, RotationX(1.0, 0.0)), RotationY(1.0, 0.0)) == t
  {
    var id := Identity(4);
    forall i | 0 <= i < 4
      ensures RotationX(1.0, 0.0)[i] == id[i] && RotationY(1.0, 0.0)[i] == id[i]
    {
      assert forall j :: 0 <= j < 4 ==> RotationX(1.0, 0.0)[i][j] == id[i][j] && RotationY(1.0, 0.0)[i][j] == id[i][j];
    }
    ProductIdentityRight(t, 4);
  }

  /** A vertex with its screen position set to where `project` sends it under `transform`. */
  function Projected(v: Vertex, transform: Matrix, project: (Matrix, Vertex) -> Point): Vertex {
    var p := project(transform, v);
    v.(sx := p.x, sy := p.y)
  }

  class StereoscopyViewModel {
    /** The pixel buffer, rows × columns × (B, G, R, A); the array itself is never replaced. */
    const pixels: array3<Byte>
    /** The flattened copy handed to the display by the last SetBitmap. */
    var bitmap: array<Byte>
    var vertices: array<Vertex>
    var triangles: array<Triangle>
    var r: real
    var zoom: real
    var m: int
    var n: int
    var alphaX: real
    var alphaY: real
    /** The view matrix `t`. */
    var t: Matrix
    /** The combined view and rotation matrix `T` of the last projection. */
    var transform: Matrix

    ghost predicate Valid()
      reads this
    {
      && pixels.Length0 == BitmapHeight && pixels.Length1 == BitmapWidth && pixels.Length2 == Channels
      && bitmap.Length == BitmapHeight * BitmapWidth * Channels
      && Shape(t, 4, 4)
    }

    /** Every colour byte is the canvas colour and every alpha byte is opaque. */
    ghost predicate Blank()
      reads this, pixels
    {
      && pixels.Length2 == Channels
      && forall row, col, k :: 0 <= row < pixels.Length0 && 0 <= col < pixels.Length1 && 0 <= k < Channels ==>
           pixels[row, col, k] == if k < 3 then CanvasColor else 255
    }

    /** The bitmap is the row-major flattening of the pixel buffer. */
    ghost predicate Shown()
      reads this, pixels, bitmap
    {
      Flattened(pixels, bitmap)
    }

    /** Since the previous state, `plots` were applied to the colour channels and the alpha
        channel was left alone. */
    twostate predicate Drawn(plots: seq<Plot>)
      reads this, pixels
    {
      && pixels.Length2 == Channels
      && forall row, col, k :: 0 <= row < pixels.Length0 && 0 <= col < pixels.Length1 && 0 <= k < Channels ==>
           pixels[row, col, k] == if k < 3 then Overlay(plots, row, col, old(pixels[row, col, k])) else old(pixels[row, col, k])
    }

    /** The initial state: radius 1, zoom 1.5, 50 meridians and 50 parallels, no rotation, and
        a view matrix whose z translation is 2 (not the zoom); the buffer is cleared and shown. */
    constructor ()
      ensures Valid() && Blank() && Shown()
      ensures r == 1.0 && zoom == 1.5 && m == 50 && n == 50 && alphaX == 0.0 && alphaY == 0.0
      ensures t == View(2.0)
    {
      pixels := new Byte[BitmapHeight, BitmapWidth, Channels];
      bitmap := new Byte[BitmapHeight * BitmapWidth * Channels];
      vertices := new Vertex[0];
      triangles := new Triangle[0];
      r, zoom, m, n, alphaX, alphaY := 1.0, 1.5, 50, 50, 0.0, 0.0;
      t := View(2.0);
      transform := View(2.0);
      new;
      ResetBitmap();
    }

    /** ChangeConfiguration: takes the six configuration values; the meridian and parallel
        counts are cast to int (truncated toward zero) and the view matrix is rebuilt. */
    method ChangeConfiguration(radius: real, zoomValue: real, meridians: real, parallels: real, rotateX: real, rotateY: real)
      requires Valid()
      modifies this
      ensures Valid()
      ensures r == radius && zoom == zoomValue && alphaX == rotateX && alphaY == rotateY
      ensures m == Trunc(meridians) && n == Trunc(parallels)
      ensures t == View(zoomValue)
      ensures bitmap == old(bitmap) && vertices == old(vertices) && triangles == old(triangles) && transform == old(transform)
    {
      r := radius;
      zoom := zoomValue;
      m := Trunc(meridians);
      n := Trunc(parallels);
      alphaX := rotateX;
      alphaY := rotateY;
      t := View(zoom);
    }

    /** DrawSphere: clear, build the vertices, project them, build the triangles, draw the
        mesh and show it. `place` stands for the trigonometric position of the grid vertices,
        `cos` and `sin` for the trigonometric functions, and `project` for the perspective
        projection under the combined matrix. It completes exactly when there are at least two
        meridians and one parallel; otherwise the exception of the step that failed propagates
        and the cleared picture stays on display. */
    method DrawSphere(place: (int, int) -> Point3, cos: real -> real, sin: real -> real, project: (Matrix, Vertex) -> Point)
      returns (outcome: Outcome)
      requires Valid()
      modifies this, pixels
      ensures Valid()
      ensures m == old(m) && n == old(n) && r == old(r) && t == old(t)
      ensures outcome.Completed? <==> m >= 2 && n >= 1
      ensures outcome.Thrown? ==>
        outcome.fault == if m * n + 2 < 0 then Overflow
                         else if m * n + 2 == 0 then IndexOutOfRange
                         else if m == 1 && n >= 1 then DivideByZero
                         else if m < 0 && n < 0 then NullReference
                         else if 2 * m * n < 0 then Overflow
                         else IndexOutOfRange
      ensures outcome.Thrown? ==> Blank() && Shown()
      ensures zoom == old(zoom) && alphaX == old(alphaX) && alphaY == old(alphaY)
      ensures outcome.Completed? ==>
        && vertices.Length == m * n + 2 && triangles.Length == 2 * m * n
        && (forall k :: 0 <= k < triangles.Length ==> triangles[k] == SphereTriangle(m, n, k))
        && Indexed(vertices[..], triangles[..])
      ensures outcome.Completed? ==> Placed(place, cos, sin, project) && Shown()
      ensures outcome.Completed? ==>
        forall row, col, k :: 0 <= row < pixels.Length0 && 0 <= col < pixels.Length1 && 0 <= k < Channels ==>
          pixels[row, col, k] == if k < 3 then Overlay(MeshPlots(vertices[..], triangles[..]), row, col, CanvasColor) else 255
    {
      ResetBitmap();
      outcome := BuildMesh(place, cos, sin, project);
      if outcome.Thrown? {
        return;
      }
      DrawMesh();
      SetBitmap();
    }

    /** The steps of DrawSphere between clearing the buffer and drawing: the projected vertices
        and the 2·m·n triangles. An exception of either step leaves DrawSphere; neither the
        buffer nor the bitmap is touched here. */
    method BuildMesh(place: (int, int) -> Point3, cos: real -> real, sin: real -> real, project: (Matrix, Vertex) -> Point)
      returns (outcome: Outcome)
      requires Valid()
      modifies this
      ensures Valid() && bitmap == old(bitmap)
      ensures m == old(m) && n == old(n) && r == old(r) && t == old(t)
      ensures outcome.Completed? <==> m >= 2 && n >= 1
      ensures outcome.Thrown? ==>
        outcome.fault == if m * n + 2 < 0 then Overflow
                         else if m * n + 2 == 0 then IndexOutOfRange
                         else if m == 1 && n >= 1 then DivideByZero
                         else if m < 0 && n < 0 then NullReference
                         else if 2 * m * n < 0 then Overflow
                         else IndexOutOfRange
      ensures zoom == old(zoom) && alphaX == old(alphaX) && alphaY == old(alphaY)
      ensures outcome.Completed? ==>
        && vertices.Length == m * n + 2 && triangles.Length == 2 * m * n
        && (forall k :: 0 <= k < triangles.Length ==> triangles[k] == SphereTriangle(m, n, k))
        && Indexed(vertices[..], triangles[..])
      ensures outcome.Completed? ==> Placed(place, cos, sin, project)
    {
      outcome := PlaceVertices(place, cos, sin, project);
      if outcome.Thrown? {
        return;
      }
      var createdTriangles, order := CreateTriangles(m, n);
      if createdTriangles.Failure? {
        return Thrown(createdTriangles.error);
      }
      triangles := createdTriangles.value;
      forall k | 0 <= k < triangles.Length
        ensures 0 <= triangles[k].v1 < vertices.Length && 0 <= triangles[k].v2 < vertices.Length && 0 <= triangles[k].v3 < vertices.Length
      {
        SphereTriangleVertices(m, n, k);
      }
      return Completed;
    }

    /** The vertices of the sphere as DrawSphere projects them: T = t · Rx(alphaX) · Ry(alphaY),
        and the poles and the grid vertices at their indices, each projected under T. */
    ghost predicate Placed(place: (int, int) -> Point3, cos: real -> real, sin: real -> real, project: (Matrix, Vertex) -> Point)
      reads this`m, this`n, this`r, this`t, this`alphaX, this`alphaY, this`transform, this`vertices, vertices
    {
      && m >= 2 && n >= 1 && Shape(t, 4, 4)
      && transform == Product(Product(t, RotationX(cos(alphaX), sin(alphaX))), RotationY(cos(alphaY), sin(alphaY)))
      && vertices.Length == m * n + 2
      && vertices[0] == Projected(NorthPole(r), transform, project)
      && vertices[m * n + 1] == Projected(SouthPole(r), transform, project)
      && (forall i, j :: 0 <= i < n && 0 <= j < m ==>
            (1 <= GridIndex(m, i, j) <= m * n
             && vertices[GridIndex(m, i, j)] == Projected(GridVertex(m, n, r, place(i, j), i, j), transform, project)))
    }

    /** CreateVertices followed by TransformAndProject. With both counts negative the grid loop
        writes nothing, so vertex 1 is null and its projection throws (UnwrittenSlot); otherwise
        every vertex was written (VerticesWritten) and all of them are projected. */
    method PlaceVertices(place: (int, int) -> Point3, cos: real -> real, sin: real -> real, project: (Matrix, Vertex) -> Point)
      returns (outcome: Outcome)
      requires Valid()
      modifies this
      ensures Valid() && bitmap == old(bitmap) && triangles == old(triangles)
      ensures m == old(m) && n == old(n) && r == old(r) && t == old(t)
      ensures zoom == old(zoom) && alphaX == old(alphaX) && alphaY == old(alphaY)
      ensures outcome.Completed? <==> m * n + 2 >= 1 && !(m == 1 && n >= 1) && !(m < 0 && n < 0)
      ensures outcome.Thrown? ==>
        outcome.fault == if m * n + 2 < 0 then Overflow
                         else if m * n + 2 == 0 then IndexOutOfRange
                         else if m == 1 && n >= 1 then DivideByZero
                         else NullReference
      ensures outcome.Completed? && m >= 2 && n >= 1 ==> Placed(place, cos, sin, project)
    {
      var createdVertices := CreateVertices(m, n, r, place);
      if createdVertices.Failure? {
        return Thrown(createdVertices.error);
      }
      vertices := createdVertices.value;
      var firstNull := vertices.Length;
      if m < 0 && n < 0 {
        UnwrittenSlot(m, n);
        firstNull := 1;
      }
      outcome := TransformAndProject(cos, sin, project, firstNull);
    }

    /** TransformAndProject: T = t · Rx(alphaX) · Ry(alphaY), then every vertex in array order gets
        the screen position of its projection under T. Both products are of 4 × 4 matrices and never
        throw. `firstNull` is the first slot CreateVertices never wrote (the array length when it
        wrote them all): projecting it dereferences null, which ends the loop there. */
    method TransformAndProject(cos: real -> real, sin: real -> real, project: (Matrix, Vertex) -> Point, firstNull: nat)
      returns (outcome: Outcome)
      requires Valid()
      modifies this, vertices
      ensures Valid()
      ensures outcome.Completed? <==> firstNull >= vertices.Length
      ensures outcome.Thrown? ==> outcome.fault == NullReference
      ensures transform == Product(Product(t, RotationX(cos(alphaX), sin(alphaX))), RotationY(cos(alphaY), sin(alphaY)))
      ensures vertices == old(vertices) && bitmap == old(bitmap) && triangles == old(triangles)
      ensures forall i :: 0 <= i < vertices.Length ==>
        vertices[i] == if i < firstNull then Projected(old(vertices[i]), transform, project) else old(vertices[i])
      ensures m == old(m) && n == old(n) && r == old(r) && t == old(t)
      ensures zoom == old(zoom) && alphaX == old(alphaX) && alphaY == old(alphaY)
    {
      var rx := RotationX(cos(alphaX), sin(alphaX));
      var ry := RotationY(cos(alphaY), sin(alphaY));
      SquareProduct(t, rx, 4);
      SquareProduct(Product(t, rx), ry, 4);
      var rotated := MatrixMultiply(t, rx);
      var combined := MatrixMultiply(rotated.value, ry);
      transform := combined.value;
      var i := 0;
      while i < vertices.Length
        modifies vertices
        invariant 0 <= i <= vertices.Length && i <= firstNull
        invariant forall i' :: 0 <= i' < i ==> vertices[i'] == Projected(old(vertices[i']), transform, project)
        invariant forall i' :: i <= i' < vertices.Length ==> vertices[i'] == old(vertices[i'])
      {
        if i == firstNull {
          return Thrown(NullReference);
        }
        var p := project(transform, vertices[i]);
        vertices[i] := vertices[i].(sx := p.x, sy := p.y);
        i := i + 1;
      }
      return Completed;
    }

    /** DrawMesh: the triangles in array order; each one whose screen cross product is positive
        has its outline drawn, the others are skipped. */
    method DrawMesh()
      requires Valid() && Indexed(vertices[..], triangles[..])
      modifies pixels
      ensures Drawn(MeshPlots(vertices[..], triangles[..]))
    {
      ghost var vs, ts := vertices[..], triangles[..];
      ghost var parts := Parts(vs, ts);
      var k := 0;
      while k < triangles.Length
        invariant 0 <= k <= triangles.Length
        invariant vertices[..] == vs && triangles[..] == ts
        invariant Drawn(Concat(parts[..k]))
      {
        var tri := triangles[k];
        var a := Point(vertices[tri.v1].sx, vertices[tri.v1].sy);
        var b := Point(vertices[tri.v2].sx, vertices[tri.v2].sy);
        var c := Point(vertices[tri.v3].sx, vertices[tri.v3].sy);
        assert tri == ts[k] && a == Screen(vs[tri.v1]) && b == Screen(vs[tri.v2]) && c == Screen(vs[tri.v3]);
        PartsStep(vs, ts, k);
        TrianglePlotsAt(vs, tri, a, b, c);
        ghost var before := Concat(parts[..k]);
        if Cross(a, b, c) > 0.0 {
          ghost var outline := Outline(a, b, c);
          assert Concat(parts[..k + 1]) == before + outline;
          label Mid:
          DrawTriangle(tri);
          forall row, col, ch | 0 <= row < pixels.Length0 && 0 <= col < pixels.Length1 && 0 <= ch < Channels
            ensures pixels[row, col, ch] == if ch < 3 then Overlay(before + outline, row, col, old(pixels[row, col, ch])) else old(pixels[row, col, ch])
          {
            assert old@Mid(pixels[row, col, ch]) == if ch < 3 then Overlay(before, row, col, old(pixels[row, col, ch])) else old(pixels[row, col, ch]);
            if ch < 3 {
              OverlayAppend(before, outline, row, col, old(pixels[row, col, ch]));
            }
          }
          assert Drawn(Concat(parts[..k + 1]));
        } else {
          assert Concat(parts[..k + 1]) == before;
          assert Drawn(Concat(parts[..k + 1]));
        }
        k := k + 1;
      }
      assert parts[..triangles.Length] == parts;
    }

    /** DrawTriangle: the Wu lines v1 → v2, v2 → v3 and v3 → v1 between the screen positions. */
    method DrawTriangle(tri: Triangle)
      requires Valid() && 0 <= tri.v1 < vertices.Length && 0 <= tri.v2 < vertices.Length && 0 <= tri.v3 < vertices.Length
      modifies pixels
      ensures Drawn(Outline(Screen(vertices[tri.v1]), Screen(vertices[tri.v2]), Screen(vertices[tri.v3])))
    {
      var a := Point(vertices[tri.v1].sx, vertices[tri.v1].sy);
      var b := Point(vertices[tri.v2].sx, vertices[tri.v2].sy);
      var c := Point(vertices[tri.v3].sx, vertices[tri.v3].sy);
      DrawWuLine(a, b);
      DrawWuLine(b, c);
      OverlayAppendAll(WuLine(a, b), WuLine(b, c));
      DrawWuLine(c, a);
      OverlayAppendAll(WuLine(a, b) + WuLine(b, c), WuLine(c, a));
    }

    /** DrawWuLine: Wu's line from p1 to p2 with line colour 0 on background 255. A slope
        m = dy / dx below 1 in magnitude walks the columns, any other the rows. */
    method DrawWuLine(p1: Point, p2: Point)
      requires Valid()
      modifies pixels
      ensures Drawn(WuLine(p1, p2))
    {
      var dx := p2.x - p1.x;
      var dy := p2.y - p1.y;
      // for dx = 0 the slope is infinite or undefined and fails the test
      if dx != 0.0 && -1.0 < dy / dx < 1.0 {
        var y := if Trunc(p1.x) < Trunc(p2.x) then p1.y else p2.y;
        var beginX, endX;
        if Trunc(p1.x) < Trunc(p2.x) {
          beginX, endX := Trunc(p1.x), Trunc(p2.x);
        } else {
          beginX, endX := Trunc(p2.x), Trunc(p1.x);
        }
        ShallowWalk(p1, p2, y, beginX, endX);
        DrawWalk(beginX, endX, y, dy / dx, ColumnPlots);
      } else {
        var x := if Trunc(p1.y) < Trunc(p2.y) then p1.x else p2.x;
        var beginY, endY;
        if Trunc(p1.y) < Trunc(p2.y) {
          beginY, endY := Trunc(p1.y), Trunc(p2.y);
        } else {
          beginY, endY := Trunc(p2.y), Trunc(p1.y);
        }
        // 1 / m is dx / dy, and 0 for a vertical segment (m infinite)
        var step := if dx == 0.0 then 0.0 else dx / dy;
        SteepWalk(p1, p2, x, beginY, endY, step);
        DrawWalk(beginY, endY, x, step, RowPlots);
      }
    }

    /** The loop of DrawWuLine, for either orientation: for every step i from begin to end, the two
        plots of stepPlots(i, v) are drawn, then v advances by step. DrawWuLine passes ColumnPlots
        for a shallow segment (i the column, v the fractional row) and RowPlots for a steep one
        (i the row, v the fractional column). */
    method DrawWalk(begin: int, end: int, v0: real, step: real, stepPlots: (int, real) -> seq<Plot>)
      requires Valid() && forall i, v :: |stepPlots(i, v)| == 2
      modifies pixels
      ensures Drawn(Walk(begin, end, v0, step, stepPlots))
    {
      ghost var line := Walk(begin, end, v0, step, stepPlots);
      ghost var done: seq<Plot> := [];
      ghost var rest := line;
      var v := v0;
      var i := begin;
      while i <= end
        invariant rest == Walk(i, end, v, step, stepPlots) && done + rest == line
        invariant Drawn(done)
        decreases end - i
      {
        var pair := stepPlots(i, v);
        label Step:
        DrawPair(pair);
        forall row, col, ch | 0 <= row < pixels.Length0 && 0 <= col < pixels.Length1 && 0 <= ch < Channels
          ensures pixels[row, col, ch] == if ch < 3 then Overlay(done + pair, row, col, old(pixels[row, col, ch])) else old(pixels[row, col, ch])
        {
          assert old@Step(pixels[row, col, ch]) == if ch < 3 then Overlay(done, row, col, old(pixels[row, col, ch])) else old(pixels[row, col, ch]);
          if ch < 3 {
            OverlayAppend(done, pair, row, col, old(pixels[row, col, ch]));
          }
        }
        WalkAdvance(done, pair, line, i, end, v, step, stepPlots);
        done, rest := done + pair, Walk(i + 1, end, v + step, step, stepPlots);
        v := v + step;
        i := i + 1;
      }
      assert done == line;
    }

    /** The two single-pixel DrawPoint calls of one step of the Wu walk, in order. */
    method DrawPair(pair: seq<Plot>)
      requires Valid() && |pair| == 2
      modifies pixels
      ensures Drawn(pair)
    {
      DrawPoint(pair[0].x, pair[0].y, 0, pair[0].value);
      DrawPoint(pair[1].x, pair[1].y, 0, pair[1].value);
      OverlayPairAll(pair[0], pair[1]);
      assert [pair[0], pair[1]] == pair;
    }

    /** DrawPoint at column x and row y (the callers pass whole numbers, which Math.Round keeps).
        With offset 0 the three colour bytes of that pixel get `intensity`; a pixel outside the
        buffer makes the first write throw, the exception is caught and nothing changes. Otherwise
        the square block of half-width `offset` around it is walked; the exception at the first
        cell outside the buffer is caught and the writes before it stay. */
    method DrawPoint(x: int, y: int, offset: int, intensity: Byte)
      requires Valid()
      modifies pixels
      ensures offset == 0 ==>
        forall row, col, k :: 0 <= row < pixels.Length0 && 0 <= col < pixels.Length1 && 0 <= k < Channels ==>
          pixels[row, col, k] == if k < 3 && row == y && col == x then intensity else old(pixels[row, col, k])
      ensures offset != 0 ==>
        forall row, col, k :: 0 <= row < pixels.Length0 && 0 <= col < pixels.Length1 && 0 <= k < Channels ==>
          pixels[row, col, k] == if k < 3 && BlockWrites(pixels, y, x, offset, row, col) then intensity else old(pixels[row, col, k])
    {
      if offset == 0 {
        if !InBounds(pixels, y, x) {
          return;
        }
        var k := 0;
        while k < 3
          invariant 0 <= k <= 3
          invariant forall row, col, k' :: 0 <= row < pixels.Length0 && 0 <= col < pixels.Length1 && 0 <= k' < Channels ==>
            pixels[row, col, k'] == if k' < k && row == y && col == x then intensity else old(pixels[row, col, k'])
        {
          pixels[y, x, k] := intensity;
          k := k + 1;
        }
        return;
      }
      var completed := PaintBlock(pixels, y, x, offset, intensity);
    }

    /** ResetBitmap: clear the buffer and show it. */
    method ResetBitmap()
      requires Valid()
      modifies this, pixels
      ensures Valid() && Blank() && Shown() && fresh(bitmap)
      ensures vertices == old(vertices) && triangles == old(triangles) && transform == old(transform)
      ensures m == old(m) && n == old(n) && r == old(r) && zoom == old(zoom) && t == old(t)
      ensures alphaX == old(alphaX) && alphaY == old(alphaY)
    {
      SetPixelArray();
      SetBitmap();
    }

    /** SetPixelArray: every colour byte becomes the canvas colour, every alpha byte 255. */
    method SetPixelArray()
      requires Valid()
      modifies pixels
      ensures Blank()
    {
      Fill(pixels, CanvasColor);
    }

    /** SetBitmap: copy the buffer, row by row, column by column, channel by channel, into a new
        one-dimensional array and show it. */
    method SetBitmap()
      requires Valid()
      modifies this
      ensures Valid() && Shown() && fresh(bitmap)
      ensures vertices == old(vertices) && triangles == old(triangles) && transform == old(transform)
      ensures m == old(m) && n == old(n) && r == old(r) && zoom == old(zoom) && t == old(t)
      ensures alphaX == old(alphaX) && alphaY == old(alphaY)
    {
      bitmap := Flatten(pixels);
    }
  }
}
