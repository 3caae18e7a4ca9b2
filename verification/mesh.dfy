/**
 * The UV sphere mesh of the stereoscopy view: m meridians by n parallels, two poles,
 * m·n + 2 vertices and 2·m·n triangles that refer to vertices by index.
 */
module SphereMesh {
  import opened Outcomes
  import opened Arith

  /** A mesh vertex: object coordinates (x, y, z, w), the parameter pair (u, v) set by SetT,
      and the screen position (sx, sy) set once by the projection step. */
  datatype Vertex = Vertex(x: real, y: real, z: real, w: real, u: real, v: real, sx: real, sy: real)

  /** A triangle as three indices into the vertex array; the order is the winding. */
  datatype Triangle = Triangle(v1: int, v2: int, v3: int)

  /** A position in object space, as computed by the trigonometry of the placement. */
  datatype Point3 = Point3(x: real, y: real, z: real)

  /** The north pole (0, r, 0) with parameters (1, 0.5). */
  function NorthPole(r: real): (p: Vertex)
    ensures p.x * p.x + p.y * p.y + p.z * p.z == r * r && p.y == r && p.w == r
  {
    Vertex(0.0, r, 0.0, r, 1.0, 0.5, 0.0, 0.0)
  }

  /** The south pole (0, -r, 0) with parameters (0, 0.5). */
  function SouthPole(r: real): (p: Vertex)
    ensures p.x * p.x + p.y * p.y + p.z * p.z == r * r && p.y == -r && p.w == r
    ensures p.x == NorthPole(r).x && p.z == NorthPole(r).z && p.y == -NorthPole(r).y
  {
    Vertex(0.0, -r, 0.0, r, 0.0, 0.5, 0.0, 0.0)
  }

  /** Index of grid vertex (parallel i, meridian j). */
  function GridIndex(m: int, i: int, j: int): int {
    i * m + j + 1
  }

  /** Grid vertex (i, j) at position `at`. Its parameters are computed with integer division,
      so u is 1 only on the last meridian and v is always 0. */
  function GridVertex(m: int, n: int, r: real, at: Point3, i: int, j: int): (g: Vertex)
    requires m >= 2 && 0 <= i < n && 0 <= j < m
    ensures g.u == if j == m - 1 then 1.0 else 0.0
    ensures g.v == 0.0
    ensures g.w == r && g.x == at.x && g.y == at.y && g.z == at.z
  {
    Vertex(at.x, at.y, at.z, r, (j / (m - 1)) as real, ((i + 1) / (n + 1)) as real, 0.0, 0.0)
  }

  lemma GridIndexBelow(m: int, i: int, j: int, i': int, j': int)
    requires 0 <= j < m && 0 <= j' < m
    requires 0 <= i' < i || (i' == i && j' < j)
    ensures GridIndex(m, i', j') < GridIndex(m, i, j)
  {
    if i' < i {
      MulLe(i' + 1, i, m);
    }
  }

  lemma GridIndexInRange(m: int, n: int, i: int, j: int)
    requires 0 <= i < n && 0 <= j < m
    ensures 1 <= GridIndex(m, i, j) <= m * n
  {
    MulLe(0, i, m);
    MulLe(i + 1, n, m);
  }

  /** CreateVertices: the north pole at 0, grid vertex (i, j) at i·m + j + 1 for i < n and j < m,
      the south pole at m·n + 1. `place(i, j)` stands for the trigonometric position of grid
      vertex (i, j). A negative length throws OverflowException, an empty array makes the write
      of the north pole throw, and one meridian makes `j / (m - 1)` divide by zero. */
  method CreateVertices(m: int, n: int, r: real, place: (int, int) -> Point3) returns (res: Result<array<Vertex>>)
    ensures res.Success? <==> m * n + 2 >= 1 && !(m == 1 && n >= 1)
    ensures res.Failure? ==>
      res.error == if m * n + 2 < 0 then Overflow else if m * n + 2 == 0 then IndexOutOfRange else DivideByZero
    ensures res.Success? ==> fresh(res.value) && res.value.Length == m * n + 2
    ensures res.Success? ==> res.value[m * n + 1] == SouthPole(r)
    ensures res.Success? && m * n + 1 != 0 ==> res.value[0] == NorthPole(r)
    ensures res.Success? ==> forall i, j :: 0 <= i < n && 0 <= j < m ==>
      1 <= GridIndex(m, i, j) <= m * n && res.value[GridIndex(m, i, j)] == GridVertex(m, n, r, place(i, j), i, j)
  {
    if m * n + 2 < 0 {
      return Failure(Overflow);
    }
    var v := new Vertex[m * n + 2];
    if m * n + 2 == 0 {
      return Failure(IndexOutOfRange);
    }
    v[0] := NorthPole(r);
    var i := 0;
    while i < n
      invariant 0 <= i && (n >= 0 ==> i <= n)
      invariant i > 0 && m >= 1 ==> m >= 2
      invariant m * n + 1 != 0 ==> v[0] == NorthPole(r)
      invariant forall i', j' :: 0 <= i' < i && 0 <= j' < m ==>
        1 <= GridIndex(m, i', j') <= m * n && v[GridIndex(m, i', j')] == GridVertex(m, n, r, place(i', j'), i', j')
    {
      var j := 0;
      while j < m
        invariant 0 <= j && (m >= 0 ==> j <= m)
        invariant j > 0 ==> m >= 2
        invariant m * n + 1 != 0 ==> v[0] == NorthPole(r)
        invariant forall i', j' :: 0 <= j' < m && (0 <= i' < i || (i' == i && j' < j)) ==>
          1 <= GridIndex(m, i', j') <= m * n && v[GridIndex(m, i', j')] == GridVertex(m, n, r, place(i', j'), i', j')
      {
        if m - 1 == 0 {
          return Failure(DivideByZero);
        }
        var at := place(i, j);
        GridIndexInRange(m, n, i, j);
        forall i', j' | 0 <= j' < m && (0 <= i' < i || (i' == i && j' < j))
          ensures GridIndex(m, i', j') < GridIndex(m, i, j)
        {
          GridIndexBelow(m, i, j, i', j');
        }
        v[i * m + j + 1] := Vertex(at.x, at.y, at.z, r, (j / (m - 1)) as real, ((i + 1) / (n + 1)) as real, 0.0, 0.0);
        j := j + 1;
      }
      i := i + 1;
    }
    v[m * n + 1] := SouthPole(r);
    forall i', j' | 0 <= i' < n && 0 <= j' < m
      ensures GridIndex(m, i', j') <= m * n
    {
      GridIndexInRange(m, n, i', j');
    }
    return Success(v);
  }

  /** When both counts are negative, the grid loop does not run: slot 1 of the m·n + 2 slots is
      neither pole nor grid vertex, so it is never written (in the source it stays null). */
  lemma UnwrittenSlot(m: int, n: int)
    requires m < 0 && n < 0
    ensures 1 < m * n + 1 && forall i, j :: 0 <= i < n && 0 <= j < m ==> GridIndex(m, i, j) != 1
  {
    MulLe(1, -m, -n);
  }

  /** Otherwise, after a successful CreateVertices every slot is written: it is a pole or the
      grid vertex of row (k − 1) / m and column (k − 1) % m. */
  lemma VerticesWritten(m: int, n: int, k: int)
    requires m * n + 2 >= 1 && !(m == 1 && n >= 1) && !(m < 0 && n < 0) && 0 <= k < m * n + 2
    ensures k == 0 || k == m * n + 1
         || (m >= 2 && 0 <= (k - 1) / m < n && 0 <= (k - 1) % m < m && k == GridIndex(m, (k - 1) / m, (k - 1) % m))
  {
    if k != 0 && k != m * n + 1 {
      if m < 0 {
        MulLe(m, 0, n);
        assert false;
      } else if n < 0 {
        MulLe(n, 0, m);
        assert false;
      }
      var i, j := (k - 1) / m, (k - 1) % m;
      if i >= n {
        MulLe(n, i, m);
        assert false;
      }
    }
  }

  // ---------------------------------------------------------------------------
  // Triangle topology

  /** Position of column c of slot row q in the triangle array, slot rows being m long. */
  function Slot(m: int, q: int, c: int): int {
    q * m + c
  }

  /** The meridian after column c, the last one wrapping to column 0. */
  function Next(m: int, c: int): int {
    if c == m - 1 then 0 else c + 1
  }

  /** The reference topology, by slot row q and column c. Row 0 is the north cap, row 2n − 1 the
      south cap, and rows 2i + 1 and 2i + 2 split each quad between parallels i and i + 1 into
      two triangles. */
  function SlotTriangle(m: int, n: int, q: int, c: int): Triangle {
    if q == 0 then
      Triangle(0, GridIndex(m, 0, Next(m, c)), GridIndex(m, 0, c))
    else if q == 2 * n - 1 then
      Triangle(m * n + 1, GridIndex(m, n - 1, c), GridIndex(m, n - 1, Next(m, c)))
    else if q % 2 == 1 then
      var i := (q - 1) / 2;
      Triangle(GridIndex(m, i, c), GridIndex(m, i, Next(m, c)), GridIndex(m, i + 1, Next(m, c)))
    else
      var i := (q - 2) / 2;
      Triangle(GridIndex(m, i, c), GridIndex(m, i + 1, Next(m, c)), GridIndex(m, i + 1, c))
  }

  /** The triangle that slot k of the 2·m·n array holds. */
  function SphereTriangle(m: int, n: int, k: int): Triangle
    requires m >= 1
  {
    SlotTriangle(m, n, k / m, k % m)
  }

  lemma SlotDecompose(m: int, q: int, c: int)
    requires 0 <= c < m
    ensures Slot(m, q, c) / m == q && Slot(m, q, c) % m == c
  {
    var k := Slot(m, q, c);
    var d := k / m - q;
    assert m * d == c - k % m;
  }

  lemma AllSlotsDecompose(m: int)
    requires m >= 1
    ensures forall q, c :: 0 <= c < m ==> Slot(m, q, c) / m == q && Slot(m, q, c) % m == c
  {
    forall q, c | 0 <= c < m
      ensures Slot(m, q, c) / m == q && Slot(m, q, c) % m == c
    {
      SlotDecompose(m, q, c);
    }
  }

  lemma SlotInRange(m: int, n: int, q: int, c: int)
    requires 0 <= q < 2 * n && 0 <= c < m
    ensures 0 <= Slot(m, q, c) < 2 * m * n
  {
    MulLe(0, q, m);
    MulLe(q + 1, 2 * n, m);
  }

  /** The index the C# code computes for the south cap is slot row 2·n − 1. */
  lemma SouthSlot(m: int, n: int, c: int)
    ensures 2 * (n - 1) * m + c + m == Slot(m, 2 * n - 1, c)
  {
    assert (2 * n - 1) * m == 2 * (n - 1) * m + m;
  }

  /** Slot rows 2·n − 2 and 2·n − 1 start 2·m and m entries before the end of the 2·m·n array. */
  lemma LastRows(m: int, n: int)
    ensures (2 * n - 2) * m == 2 * m * n - 2 * m && (2 * n - 1) * m == 2 * m * n - m
  {
  }

  /** Every index of the 2·m·n array is a slot: row k / m, column k % m. Row 0 holds exactly the
      first m indices and row 2·n − 1 exactly the last m. */
  lemma SlotOfIndex(m: int, n: int, k: int)
    requires m >= 1 && 0 <= k < 2 * m * n
    ensures 0 <= k / m < 2 * n && 0 <= k % m < m && k == Slot(m, k / m, k % m)
    ensures k / m == 0 <==> k < m
    ensures k / m == 2 * n - 1 <==> k >= 2 * m * n - m
  {
    var q, c := k / m, k % m;
    assert k == q * m + c;
    if q >= 2 * n {
      MulLe(2 * n, q, m);
      assert false;
    }
    if q >= 1 {
      MulLe(1, q, m);
    }
    if q <= 2 * n - 2 {
      MulLe(q, 2 * n - 2, m);
      LastRows(m, n);
    } else {
      LastRows(m, n);
    }
  }

  /** Distinct grid positions have distinct indices. */
  lemma GridIndexInjective(m: int, i: int, j: int, i': int, j': int)
    requires 0 <= i && 0 <= i' && 0 <= j < m && 0 <= j' < m
    requires GridIndex(m, i, j) == GridIndex(m, i', j')
    ensures i == i' && j == j'
  {
    if i' < i || (i' == i && j' < j) {
      GridIndexBelow(m, i, j, i', j');
    } else if i < i' || (i == i' && j < j') {
      GridIndexBelow(m, i', j', i, j);
    }
  }

  /** Every triangle refers to vertices of the m·n + 2 array; the north pole (index 0) occurs in
      exactly the first m triangles, the south pole (index m·n + 1) in exactly the last m, and in
      both cases as the first vertex. */
  lemma {:induction false} SphereTriangleVertices(m: int, n: int, k: int)
    requires m >= 1 && n >= 1 && 0 <= k < 2 * m * n
    ensures var t := SphereTriangle(m, n, k);
      && 0 <= t.v1 <= m * n + 1 && 1 <= t.v2 <= m * n && 1 <= t.v3 <= m * n
      && (t.v1 == 0 <==> k < m)
      && (t.v1 == m * n + 1 <==> k >= 2 * m * n - m)
  {
    SlotOfIndex(m, n, k);
    var q, c := k / m, k % m;
    var nc := Next(m, c);
    if q == 0 {
      GridIndexInRange(m, n, 0, c);
      GridIndexInRange(m, n, 0, nc);
    } else if q == 2 * n - 1 {
      GridIndexInRange(m, n, n - 1, c);
      GridIndexInRange(m, n, n - 1, nc);
    } else if q % 2 == 1 {
      var i := (q - 1) / 2;
      GridIndexInRange(m, n, i, c);
      GridIndexInRange(m, n, i, nc);
      GridIndexInRange(m, n, i + 1, nc);
    } else {
      var i := (q - 2) / 2;
      GridIndexInRange(m, n, i, c);
      GridIndexInRange(m, n, i + 1, nc);
      GridIndexInRange(m, n, i + 1, c);
    }
  }

  /** With at least two meridians no triangle repeats a vertex. */
  lemma {:induction false} SphereTriangleProper(m: int, n: int, k: int)
    requires m >= 2 && n >= 1 && 0 <= k < 2 * m * n
    ensures var t := SphereTriangle(m, n, k); t.v1 != t.v2 && t.v2 != t.v3 && t.v1 != t.v3
  {
    SphereTriangleVertices(m, n, k);
    SlotOfIndex(m, n, k);
    var q, c := k / m, k % m;
    var nc := Next(m, c);
    var t := SphereTriangle(m, n, k);
    if q == 0 || q == 2 * n - 1 {
      var i := if q == 0 then 0 else n - 1;
      if t.v2 == t.v3 {
        GridIndexInjective(m, i, c, i, nc);
      }
    } else if q % 2 == 1 {
      var i := (q - 1) / 2;
      if t.v1 == t.v2 {
        GridIndexInjective(m, i, c, i, nc);
      }
      if t.v2 == t.v3 {
        GridIndexInjective(m, i, nc, i + 1, nc);
      }
      if t.v1 == t.v3 {
        GridIndexInjective(m, i, c, i + 1, nc);
      }
    } else {
      var i := (q - 2) / 2;
      if t.v1 == t.v2 {
        GridIndexInjective(m, i, c, i + 1, nc);
      }
      if t.v2 == t.v3 {
        GridIndexInjective(m, i + 1, nc, i + 1, c);
      }
      if t.v1 == t.v3 {
        GridIndexInjective(m, i, c, i + 1, c);
      }
    }
  }

  /** With two meridians every vertex ring is a line: each cap triangle occurs twice, once
      in each winding, so the caps enclose no area. */
  lemma TwoMeridianCaps(n: int)
    requires n >= 1
    ensures SphereTriangle(2, n, 0) == Triangle(0, 2, 1) && SphereTriangle(2, n, 1) == Triangle(0, 1, 2)
    ensures SphereTriangle(2, n, 4 * n - 2) == Triangle(2 * n + 1, 2 * n - 1, 2 * n)
    ensures SphereTriangle(2, n, 4 * n - 1) == Triangle(2 * n + 1, 2 * n, 2 * n - 1)
  {
    var q := 2 * n - 1;
    SlotDecompose(2, q, 0);
    SlotDecompose(2, q, 1);
    assert 4 * n - 2 == Slot(2, q, 0) && 4 * n - 1 == Slot(2, q, 1);
    assert GridIndex(2, n - 1, 0) == 2 * n - 1 && GridIndex(2, n - 1, 1) == 2 * n;
    assert Next(2, 0) == 1 && Next(2, 1) == 0;
    assert SlotTriangle(2, n, q, 0) == Triangle(2 * n + 1, GridIndex(2, n - 1, 0), GridIndex(2, n - 1, 1));
    assert SlotTriangle(2, n, q, 1) == Triangle(2 * n + 1, GridIndex(2, n - 1, 1), GridIndex(2, n - 1, 0));
    assert SphereTriangle(2, n, 4 * n - 2) == SlotTriangle(2, n, q, 0);
    assert SphereTriangle(2, n, 4 * n - 1) == SlotTriangle(2, n, q, 1);
  }

  // The triangles the C# code writes, one lemma per kind of write, equal the reference topology.

  lemma NorthCapTriangle(m: int, n: int, c: int)
    requires n >= 1 && 0 <= c < m
    ensures SlotTriangle(m, n, 0, c) == if c < m - 1 then Triangle(0, c + 2, c + 1) else Triangle(0, 1, m)
  {
  }

  lemma SouthCapTriangle(m: int, n: int, c: int)
    requires n >= 1 && 0 <= c < m
    ensures SlotTriangle(m, n, 2 * n - 1, c)
         == if c < m - 1 then Triangle(m * n + 1, (n - 1) * m + c + 1, (n - 1) * m + c + 2)
            else Triangle(m * n + 1, m * n, (n - 1) * m + 1)
  {
    assert (n - 1) * m + m == m * n;
  }

  lemma BandTriangles(m: int, n: int, i: int, c: int)
    requires 0 <= i < n - 1 && 0 <= c < m
    ensures SlotTriangle(m, n, 2 * i + 1, c)
         == if c < m - 1 then Triangle(i * m + c + 1, i * m + c + 2, (i + 1) * m + c + 2)
            else Triangle((i + 1) * m, i * m + 1, (i + 1) * m + 1)
    ensures SlotTriangle(m, n, 2 * i + 2, c)
         == if c < m - 1 then Triangle(i * m + c + 1, (i + 1) * m + c + 2, (i + 1) * m + c + 1)
            else Triangle((i + 1) * m, (i + 1) * m + 1, (i + 2) * m)
  {
    assert (2 * i + 1 - 1) / 2 == i;
    assert (2 * i + 2 - 2) / 2 == i;
    assert (i + 1) * m == i * m + m;
    assert (i + 2) * m == (i + 1) * m + m;
  }

  /** How far CreateTriangles has got: columns done in the north cap and in the south cap, complete
      bands, and columns done in the upper and lower slot rows of the band being filled. */
  datatype Progress = Progress(north: int, south: int, bands: int, upper: int, lower: int)

  /** Has slot row q, column c been written at progress p? */
  ghost predicate Done(n: int, p: Progress, q: int, c: int) {
    0 <= c
    && ((q == 0 && c < p.north)
        || (q == 2 * n - 1 && c < p.south)
        || (1 <= q < 2 * p.bands + 1)
        || (q == 2 * p.bands + 1 && c < p.upper)
        || (q == 2 * p.bands + 2 && c < p.lower))
  }

  /** At progress p, every written slot holds its reference triangle, and `order` lists the written
      slots, each once. */
  ghost predicate Filled(ts: seq<Triangle>, m: int, n: int, p: Progress, order: seq<int>)
    requires m >= 1
  {
    && (forall q, c :: 0 <= c < m && Done(n, p, q, c) ==>
          0 <= Slot(m, q, c) < |ts| && ts[Slot(m, q, c)] == SlotTriangle(m, n, q, c))
    && (forall a :: 0 <= a < |order| ==> 0 <= order[a] < |ts| && Done(n, p, order[a] / m, order[a] % m))
    && (forall a, b :: 0 <= a < b < |order| ==> order[a] != order[b])
  }

  // Each write advances one field of the progress by one column.

  lemma NorthStep(n: int, p: Progress)
    requires n >= 1 && p.bands == 0 && p.upper == 0 && p.lower == 0 && 0 <= p.north
    ensures !Done(n, p, 0, p.north)
    ensures forall q, c :: Done(n, p.(north := p.north + 1), q, c) <==> Done(n, p, q, c) || (q == 0 && c == p.north)
  {
  }

  lemma SouthStep(n: int, p: Progress)
    requires n >= 1 && p.bands == 0 && p.upper == 0 && p.lower == 0 && 0 <= p.south
    ensures !Done(n, p, 2 * n - 1, p.south)
    ensures forall q, c :: Done(n, p.(south := p.south + 1), q, c) <==> Done(n, p, q, c) || (q == 2 * n - 1 && c == p.south)
  {
  }

  lemma UpperStep(n: int, p: Progress)
    requires 0 <= p.bands < n - 1 && 0 <= p.upper
    ensures !Done(n, p, 2 * p.bands + 1, p.upper)
    ensures forall q, c :: Done(n, p.(upper := p.upper + 1), q, c) <==> Done(n, p, q, c) || (q == 2 * p.bands + 1 && c == p.upper)
  {
  }

  lemma LowerStep(n: int, p: Progress)
    requires 0 <= p.bands < n - 1 && 0 <= p.lower
    ensures !Done(n, p, 2 * p.bands + 2, p.lower)
    ensures forall q, c :: Done(n, p.(lower := p.lower + 1), q, c) <==> Done(n, p, q, c) || (q == 2 * p.bands + 2 && c == p.lower)
  {
  }

  /** After the upper and lower rows of band b are complete, band b counts as done. */
  lemma BandStep(n: int, m: int, b: int)
    requires 0 <= b < n - 1
    ensures forall q, c :: 0 <= c < m ==> (Done(n, Progress(m, m, b, m, m), q, c) <==> Done(n, Progress(m, m, b + 1, 0, 0), q, c))
  {
  }

  /** Writing the reference triangle into slot k = (q, c), not written before, extends the filled
      part by that slot. */
  lemma Record(ts: seq<Triangle>, ts': seq<Triangle>, m: int, n: int, p: Progress, order: seq<int>,
               q: int, c: int, k: int, p': Progress)
    requires m >= 1 && 0 <= c < m && k == Slot(m, q, c) && 0 <= k < |ts|
    requires |ts'| == |ts| && ts'[k] == SlotTriangle(m, n, q, c)
    requires forall x :: 0 <= x < |ts| && x != k ==> ts'[x] == ts[x]
    requires Filled(ts, m, n, p, order) && !Done(n, p, q, c)
    requires forall q', c' :: Done(n, p', q', c') <==> Done(n, p, q', c') || (q' == q && c' == c)
    ensures Filled(ts', m, n, p', order + [k])
  {
    AllSlotsDecompose(m);
    assert ts' == ts[k := SlotTriangle(m, n, q, c)];
  }

  lemma RecordNorth(ts: seq<Triangle>, ts': seq<Triangle>, m: int, n: int, p: Progress, order: seq<int>, k: int)
    requires m >= 1 && n >= 1 && p.bands == 0 && p.upper == 0 && p.lower == 0 && 0 <= p.north < m
    requires k == Slot(m, 0, p.north) && 0 <= k < |ts|
    requires |ts'| == |ts| && ts'[k] == SlotTriangle(m, n, 0, p.north)
    requires forall x :: 0 <= x < |ts| && x != k ==> ts'[x] == ts[x]
    requires Filled(ts, m, n, p, order)
    ensures Filled(ts', m, n, p.(north := p.north + 1), order + [k])
  {
    NorthStep(n, p);
    Record(ts, ts', m, n, p, order, 0, p.north, k, p.(north := p.north + 1));
  }

  lemma RecordSouth(ts: seq<Triangle>, ts': seq<Triangle>, m: int, n: int, p: Progress, order: seq<int>, k: int)
    requires m >= 1 && n >= 1 && p.bands == 0 && p.upper == 0 && p.lower == 0 && 0 <= p.south < m
    requires k == Slot(m, 2 * n - 1, p.south) && 0 <= k < |ts|
    requires |ts'| == |ts| && ts'[k] == SlotTriangle(m, n, 2 * n - 1, p.south)
    requires forall x :: 0 <= x < |ts| && x != k ==> ts'[x] == ts[x]
    requires Filled(ts, m, n, p, order)
    ensures Filled(ts', m, n, p.(south := p.south + 1), order + [k])
  {
    SouthStep(n, p);
    Record(ts, ts', m, n, p, order, 2 * n - 1, p.south, k, p.(south := p.south + 1));
  }

  lemma RecordUpper(ts: seq<Triangle>, ts': seq<Triangle>, m: int, n: int, p: Progress, order: seq<int>, k: int)
    requires m >= 1 && 0 <= p.bands < n - 1 && 0 <= p.upper < m
    requires k == Slot(m, 2 * p.bands + 1, p.upper) && 0 <= k < |ts|
    requires |ts'| == |ts| && ts'[k] == SlotTriangle(m, n, 2 * p.bands + 1, p.upper)
    requires forall x :: 0 <= x < |ts| && x != k ==> ts'[x] == ts[x]
    requires Filled(ts, m, n, p, order)
    ensures Filled(ts', m, n, p.(upper := p.upper + 1), order + [k])
  {
    UpperStep(n, p);
    Record(ts, ts', m, n, p, order, 2 * p.bands + 1, p.upper, k, p.(upper := p.upper + 1));
  }

  lemma RecordLower(ts: seq<Triangle>, ts': seq<Triangle>, m: int, n: int, p: Progress, order: seq<int>, k: int)
    requires m >= 1 && 0 <= p.bands < n - 1 && 0 <= p.lower < m
    requires k == Slot(m, 2 * p.bands + 2, p.lower) && 0 <= k < |ts|
    requires |ts'| == |ts| && ts'[k] == SlotTriangle(m, n, 2 * p.bands + 2, p.lower)
    requires forall x :: 0 <= x < |ts| && x != k ==> ts'[x] == ts[x]
    requires Filled(ts, m, n, p, order)
    ensures Filled(ts', m, n, p.(lower := p.lower + 1), order + [k])
  {
    LowerStep(n, p);
    Record(ts, ts', m, n, p, order, 2 * p.bands + 2, p.lower, k, p.(lower := p.lower + 1));
  }

  /** Column c of both caps, as the C# code writes it: the north triangle into index c, then the
      south one into index 2·(n − 1)·m + c + m; the last column closes each cap on column 0. */
  lemma CapColumn(ts0: seq<Triangle>, ts1: seq<Triangle>, ts2: seq<Triangle>, m: int, n: int, c: int, k: int,
                  order: seq<int>)
    requires m >= 1 && n >= 1 && 0 <= c < m && k == 2 * (n - 1) * m + c + m
    requires 0 <= c < |ts0| && 0 <= k < |ts0|
    requires Filled(ts0, m, n, Progress(c, c, 0, 0, 0), order)
    requires ts1 == ts0[c := if c < m - 1 then Triangle(0, c + 2, c + 1) else Triangle(0, 1, m)]
    requires ts2 == ts1[k := if c < m - 1 then Triangle(m * n + 1, (n - 1) * m + c + 1, (n - 1) * m + c + 2)
                             else Triangle(m * n + 1, m * n, (n - 1) * m + 1)]
    ensures Filled(ts2, m, n, Progress(c + 1, c + 1, 0, 0, 0), order + [c, k])
  {
    NorthCapTriangle(m, n, c);
    RecordNorth(ts0, ts1, m, n, Progress(c, c, 0, 0, 0), order, c);
    SouthSlot(m, n, c);
    SouthCapTriangle(m, n, c);
    RecordSouth(ts1, ts2, m, n, Progress(c + 1, c, 0, 0, 0), order + [c], k);
    assert order + [c] + [k] == order + [c, k];
  }

  /** Column c of band i, as the C# code writes it: the upper triangle into index (2·i + 1)·m + c,
      then the lower one into (2·i + 2)·m + c; the last column closes the band on meridian 0. */
  lemma BandColumn(ts0: seq<Triangle>, ts1: seq<Triangle>, ts2: seq<Triangle>, m: int, n: int, i: int, c: int,
                   k1: int, k2: int, order: seq<int>)
    requires m >= 1 && 0 <= i < n - 1 && 0 <= c < m && k1 == (2 * i + 1) * m + c && k2 == (2 * i + 2) * m + c
    requires 0 <= k1 < |ts0| && 0 <= k2 < |ts0|
    requires Filled(ts0, m, n, Progress(m, m, i, c, c), order)
    requires ts1 == ts0[k1 := if c < m - 1 then Triangle(i * m + c + 1, i * m + c + 2, (i + 1) * m + c + 2)
                              else Triangle((i + 1) * m, i * m + 1, (i + 1) * m + 1)]
    requires ts2 == ts1[k2 := if c < m - 1 then Triangle(i * m + c + 1, (i + 1) * m + c + 2, (i + 1) * m + c + 1)
                              else Triangle((i + 1) * m, (i + 1) * m + 1, (i + 2) * m)]
    ensures Filled(ts2, m, n, Progress(m, m, i, c + 1, c + 1), order + [k1, k2])
  {
    BandTriangles(m, n, i, c);
    RecordUpper(ts0, ts1, m, n, Progress(m, m, i, c, c), order, k1);
    RecordLower(ts1, ts2, m, n, Progress(m, m, i, c + 1, c), order + [k1], k2);
    assert order + [k1] + [k2] == order + [k1, k2];
  }

  /** A band whose two slot rows are complete counts as done. */
  lemma BandComplete(ts: seq<Triangle>, m: int, n: int, i: int, order: seq<int>)
    requires m >= 1 && 0 <= i < n - 1
    requires Filled(ts, m, n, Progress(m, m, i, m, m), order)
    ensures Filled(ts, m, n, Progress(m, m, i + 1, 0, 0), order)
  {
    BandStep(n, m, i);
  }

  /** The two polar caps: slot rows 0 and 2·n − 1, filled column by column. */
  method FillCaps(t: array<Triangle>, m: int, n: int) returns (ghost order: seq<int>)
    requires m >= 1 && n >= 1 && t.Length == 2 * m * n
    modifies t
    ensures |order| == 2 * m && Filled(t[..], m, n, Progress(m, m, 0, 0, 0), order)
  {
    order := [];
    ghost var p := Progress(0, 0, 0, 0, 0);
    var i := 0;
    while i < m - 1
      invariant 0 <= i <= m - 1 && p == Progress(i, i, 0, 0, 0)
      invariant |order| == 2 * i
      invariant Filled(t[..], m, n, p, order)
    {
      var k := 2 * (n - 1) * m + i + m;
      SlotInRange(m, n, 0, i);
      SouthSlot(m, n, i);
      SlotInRange(m, n, 2 * n - 1, i);
      ghost var ts0 := t[..];
      t[i] := Triangle(0, i + 2, i + 1);
      ghost var ts1 := t[..];
      t[k] := Triangle(m * n + 1, (n - 1) * m + i + 1, (n - 1) * m + i + 2);
      CapColumn(ts0, ts1, t[..], m, n, i, k, order);
      order, p := order + [i, k], Progress(i + 1, i + 1, 0, 0, 0);
      i := i + 1;
    }
    order := CloseCaps(t, m, n, order);
  }

  /** The last column m − 1 of both caps, written after the loop. */
  method CloseCaps(t: array<Triangle>, m: int, n: int, ghost order0: seq<int>) returns (ghost order: seq<int>)
    requires m >= 1 && n >= 1 && t.Length == 2 * m * n
    requires Filled(t[..], m, n, Progress(m - 1, m - 1, 0, 0, 0), order0)
    modifies t
    ensures |order| == |order0| + 2 && Filled(t[..], m, n, Progress(m, m, 0, 0, 0), order)
  {
    var k := 2 * (n - 1) * m + m - 1 + m;
    SlotInRange(m, n, 0, m - 1);
    SouthSlot(m, n, m - 1);
    SlotInRange(m, n, 2 * n - 1, m - 1);
    ghost var ts0 := t[..];
    t[m - 1] := Triangle(0, 1, m);
    ghost var ts1 := t[..];
    t[k] := Triangle(m * n + 1, m * n, (n - 1) * m + 1);
    CapColumn(ts0, ts1, t[..], m, n, m - 1, k, order0);
    order := order0 + [m - 1, k];
  }

  /** Band i between parallels i and i + 1: slot rows 2·i + 1 and 2·i + 2, filled column by column. */
  method FillBand(t: array<Triangle>, m: int, n: int, i: int, ghost order0: seq<int>) returns (ghost order: seq<int>)
    requires m >= 1 && 0 <= i < n - 1 && t.Length == 2 * m * n
    requires Filled(t[..], m, n, Progress(m, m, i, 0, 0), order0)
    modifies t
    ensures |order| == |order0| + 2 * m && Filled(t[..], m, n, Progress(m, m, i + 1, 0, 0), order)
  {
    order := order0;
    ghost var p := Progress(m, m, i, 0, 0);
    var j := 1;
    while j < m
      invariant 1 <= j <= m && p == Progress(m, m, i, j - 1, j - 1)
      invariant |order| == |order0| + 2 * (j - 1)
      invariant Filled(t[..], m, n, p, order)
    {
      var k1, k2 := (2 * i + 1) * m + j - 1, (2 * i + 2) * m + j - 1;
      SlotInRange(m, n, 2 * i + 1, j - 1);
      SlotInRange(m, n, 2 * i + 2, j - 1);
      ghost var ts0 := t[..];
      t[k1] := Triangle(i * m + j, i * m + j + 1, (i + 1) * m + j + 1);
      ghost var ts1 := t[..];
      t[k2] := Triangle(i * m + j, (i + 1) * m + j + 1, (i + 1) * m + j);
      BandColumn(ts0, ts1, t[..], m, n, i, j - 1, k1, k2, order);
      order, p := order + [k1, k2], Progress(m, m, i, j - 1 + 1, j - 1 + 1);
      j := j + 1;
    }
    order := CloseBand(t, m, n, i, order);
  }

  /** The last column m − 1 of band i, written after the inner loop; it completes the band. */
  method CloseBand(t: array<Triangle>, m: int, n: int, i: int, ghost order0: seq<int>) returns (ghost order: seq<int>)
    requires m >= 1 && 0 <= i < n - 1 && t.Length == 2 * m * n
    requires Filled(t[..], m, n, Progress(m, m, i, m - 1, m - 1), order0)
    modifies t
    ensures |order| == |order0| + 2 && Filled(t[..], m, n, Progress(m, m, i + 1, 0, 0), order)
  {
    var k1, k2 := (2 * i + 1) * m + m - 1, (2 * i + 2) * m + m - 1;
    SlotInRange(m, n, 2 * i + 1, m - 1);
    SlotInRange(m, n, 2 * i + 2, m - 1);
    ghost var ts0 := t[..];
    t[k1] := Triangle((i + 1) * m, i * m + 1, (i + 1) * m + 1);
    ghost var ts1 := t[..];
    t[k2] := Triangle((i + 1) * m, (i + 1) * m + 1, (i + 2) * m);
    BandColumn(ts0, ts1, t[..], m, n, i, m - 1, k1, k2, order0);
    order := order0 + [k1, k2];
    BandComplete(t[..], m, n, i, order);
  }

  /** CreateTriangles: fills the 2·m·n array, the two caps first and then band after band.
      `order` is the ghost log of the slots in the order they are written. The contract says only
      that it lists 2·m·n distinct slots; that each entry is the slot of one write, made while
      that slot was still unfilled, is established inside the body by Record's precondition.
      An array of negative length throws OverflowException; without a meridian or a parallel the
      first write is out of range. */
  method CreateTriangles(m: int, n: int) returns (res: Result<array<Triangle>>, ghost order: seq<int>)
    ensures res.Success? <==> m >= 1 && n >= 1
    ensures res.Failure? ==> res.error == if 2 * m * n < 0 then Overflow else IndexOutOfRange
    ensures res.Success? ==> fresh(res.value) && res.value.Length == 2 * m * n
    ensures res.Success? ==> forall q, c :: 0 <= q < 2 * n && 0 <= c < m ==>
      0 <= Slot(m, q, c) < res.value.Length && res.value[Slot(m, q, c)] == SlotTriangle(m, n, q, c)
    ensures res.Success? ==> forall k :: 0 <= k < res.value.Length ==> res.value[k] == SphereTriangle(m, n, k)
    ensures res.Success? ==> |order| == 2 * m * n
    ensures res.Success? ==> forall a :: 0 <= a < |order| ==> 0 <= order[a] < 2 * m * n
    ensures res.Success? ==> forall a, b :: 0 <= a < b < |order| ==> order[a] != order[b]
  {
    order := [];
    if 2 * m * n < 0 {
      return Failure(Overflow), order;
    }
    var t := new Triangle[2 * m * n];
    if m < 1 || n < 1 {
      // the first write (t[0] in the cap loop, or t[m - 1]) is outside the array
      return Failure(IndexOutOfRange), order;
    }
    order := FillCaps(t, m, n);
    var i := 0;
    while i < n - 1
      invariant 0 <= i <= n - 1
      invariant |order| == 2 * m + 2 * m * i
      invariant Filled(t[..], m, n, Progress(m, m, i, 0, 0), order)
    {
      order := FillBand(t, m, n, i, order);
      i := i + 1;
    }
    assert 2 * m * (n - 1) == 2 * m * n - 2 * m;
    ghost var full := Progress(m, m, n - 1, 0, 0);
    assert forall q, c :: 0 <= q < 2 * n && 0 <= c < m ==> Done(n, full, q, c);
    forall k | 0 <= k < t.Length
      ensures t[k] == SphereTriangle(m, n, k)
    {
      SlotOfIndex(m, n, k);
    }
    return Success(t), order;
  }
}
