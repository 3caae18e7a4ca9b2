# Stereoscopy and canvas view models, in Dafny

This project models the two drawing view models of the ComputerGraphics image editor.

**StereoscopyViewModel** draws a UV sphere as a wireframe. It does this in four steps:

1. It builds `m · n + 2` vertices: the north pole, `n` parallels of `m` meridian points, and the south pole.
2. It rotates them by `alphaX` and `alphaY` and projects them onto the 1000 × 1000 screen.
3. It joins them into `2 · m · n` triangles: a cap fan at each pole, and two triangles per quad of every band.
4. It outlines every triangle that faces the viewer, using Xiaolin Wu's anti-aliased line, into a BGRA pixel buffer. The buffer is then copied, row-major, into the bitmap.

**CanvasViewModel** is a simpler drawing pad, 780 pixels wide and 800 high, cleared to grey 245.
- Every click paints a black 6 × 6 square.
- Every second click also joins the two clicked points with a line of black 2 × 2 squares, one per column.

The model follows the C# code:
- `(int)` casts truncate toward zero (`Arith.Trunc`), and `(byte)` casts go through `Arith.ByteOf`.
- Integer division truncates.
- Exceptions are values: `Outcomes.Result` for functions that return, and `Outcomes.Outcome` for the view-model methods.
- The pixel buffers are `array3<Byte>`. Row, column and channel are in the order of `byte[,,]`.
- Every loop of the source is a loop here, with the invariants that tie it to a specification function.

Modules:
- `Outcomes`, `Arith`: faults, results and the numeric casts.
- `Framebuffer`: plots, the 2-D block walk of `DrawPoint`, clearing, and flattening into the bitmap array.
- `Matrices`: `MatrixMultiply` and the matrix product it computes.
- `SphereMesh`: vertex and triangle construction, with the reference topology `SphereTriangle`.
- `Raster`: the Wu line, triangle outlines and mesh outlines, as sequences of plots.
- `Stereoscopy`: the class `StereoscopyViewModel`.
- `Canvas`: the class `CanvasViewModel`.

### Behaviour of the code worth knowing

- **Wu line direction.** The code takes the starting coordinate from `p2` whenever the truncated coordinates of the two ends are equal, so the same segment drawn in the two directions can differ. `Raster.WuLineSymmetric` proves that the direction does not matter when the truncated coordinates differ. `Raster.WuLineAsymmetric` gives two points where the two directions paint different intensities.
- **Meridian and parallel counts.** The code does not validate `m` and `n`; `DrawSphere` completes only for `m ≥ 2` and `n ≥ 1`. The other counts fail as follows, and `Stereoscopy.StereoscopyViewModel.DrawSphere` states each fault:
  - a negative `m · n + 2` makes the vertex array allocation throw Overflow, and `m · n + 2 = 0` makes the write of the north pole throw IndexOutOfRange;
  - `m = 1` with `n ≥ 1` divides by zero in the texture coordinate `j / (m − 1)`;
  - with `m` and `n` both negative the grid loop writes nothing, so vertex 1 stays null and the projection loop throws NullReference on it (`SphereMesh.UnwrittenSlot`);
  - otherwise every vertex is written (`SphereMesh.VerticesWritten`), and the triangle construction throws: Overflow for a negative `2 · m · n`, and, when `m = 0` or `n = 0`, IndexOutOfRange at the first cap write: inside the cap loop at `t[0]`, whose vertex `_vertices[2]` is also out of range, when `m ≥ 2`, and at `t[m − 1]` otherwise.
  With `m = 2` the mesh is flat: every parallel is a line through the axis, and each cap triangle occurs twice, once in each winding (`SphereMesh.TwoMeridianCaps`).
- **Initial view matrix.** Before the first configuration change, the matrix `t` holds translation 2, not the zoom of 1.5.
- **Canvas clicks near the edge.** The canvas has no exception handler. A click whose square reaches past the buffer throws at the first out-of-range cell in walk order, which for a click within 3 pixels of the left or top edge is the very first cell, and the bitmap is not refreshed.
- **Gaps in steep canvas lines.** The canvas line paints one square per column. A steep line therefore has gaps (`Canvas.LineCentersColumns`).

## Model

| member | source | states |
|---|---|---|
| Arith.Trunc | ComputerGraphics/ViewModel/StereoscopyViewModel.cs:235-247 | `(int)d` is the integer between 0 and d that is nearest to d (within one unit), for both signs |
| Arith.ByteOf | ComputerGraphics/ViewModel/StereoscopyViewModel.cs:253-254 | `(byte)c` is a byte, and equals ⌊c⌋ when c is in [0, 256) |
| Framebuffer.PaintBlock | ComputerGraphics/ViewModel/StereoscopyViewModel.cs:296-299 | the block walk completes iff every cell of the 2·offset square lies in the buffer; exactly the cells reached before the first out-of-range one get the value in their three colour bytes, and nothing else changes |
| Framebuffer.StoppedWalk | ComputerGraphics/ViewModel/StereoscopyViewModel.cs:296-299 | a walk stopped at an out-of-range cell means the block does not fit, and the written cells are exactly those before it in walk order |
| Framebuffer.Fill | ComputerGraphics/ViewModel/StereoscopyViewModel.cs:314-329 | every colour byte gets the colour and every alpha byte 255 |
| Framebuffer.Flatten | ComputerGraphics/ViewModel/StereoscopyViewModel.cs:330-343 | the new array has height·width·4 bytes and holds pixel (r, c, k) at (r·width + c)·4 + k |
| Framebuffer.FlatIndexBelow | ComputerGraphics/ViewModel/StereoscopyViewModel.cs:336-343 | the running index of the copy grows strictly in row, column, channel order |
| Framebuffer.FlatIndexInRange | ComputerGraphics/ViewModel/StereoscopyViewModel.cs:335-343 | every running index of the copy lies inside the one-dimensional array |
| Framebuffer.AllFlatIndicesInRange | ComputerGraphics/ViewModel/StereoscopyViewModel.cs:335-343 | the same, for all pixels at once |
| Framebuffer.OverlaySnoc | ComputerGraphics/ViewModel/StereoscopyViewModel.cs:289-294 | one more single-pixel write decides that pixel and leaves every other pixel as before |
| Framebuffer.OverlayAppend | ComputerGraphics/ViewModel/StereoscopyViewModel.cs:289-294 | drawing two plot sequences one after the other is drawing their concatenation |
| Framebuffer.OverlayUntouched | ComputerGraphics/ViewModel/StereoscopyViewModel.cs:289-294 | a pixel no plot hits keeps its value; one that some plot hits no longer depends on its old value |
| Framebuffer.OverlaySnocAll | ComputerGraphics/ViewModel/StereoscopyViewModel.cs:289-294 | OverlaySnoc for every pixel at once |
| Framebuffer.OverlayPairAll | ComputerGraphics/ViewModel/StereoscopyViewModel.cs:253-254 | the two writes of one Wu step: the second wins where they coincide |
| Framebuffer.OverlayAppendAll | ComputerGraphics/ViewModel/StereoscopyViewModel.cs:289-294 | OverlayAppend for every pixel at once |
| Framebuffer.OverlayTwice | ComputerGraphics/ViewModel/StereoscopyViewModel.cs:289-294 | drawing the same plots twice paints what drawing them once does |
| Matrices.MatrixMultiply | ComputerGraphics/ViewModel/StereoscopyViewModel.cs:150-177 | succeeds iff both matrices are non-empty, a's column count equals b's row count, and (when b has a column) no row is shorter than its matrix's first row; the result is the product; the failure is DimensionMismatch for the checked mismatch, otherwise IndexOutOfRange |
| Matrices.Dot | ComputerGraphics/ViewModel/StereoscopyViewModel.cs:170-173 | the k loop's running sum a[i][0]·b[0][j] + … + a[i][n−1]·b[n−1][j], added in loop order (a definition; its properties are the Dot and Product lemmas) |
| Matrices.Product | ComputerGraphics/ViewModel/StereoscopyViewModel.cs:157-165 | the product has a's row count and b's column count |
| Matrices.Identity | ComputerGraphics/ViewModel/StereoscopyViewModel.cs:150-177 | the identity is n × n; ProductIdentityLeft and ProductIdentityRight show it is the unit of the product |
| Matrices.DotIdentityRight | ComputerGraphics/ViewModel/StereoscopyViewModel.cs:170-173 | the partial dot product with the identity on the right picks a[i][j] once k passes j |
| Matrices.DotIdentityLeft | ComputerGraphics/ViewModel/StereoscopyViewModel.cs:170-173 | the same with the identity on the left |
| Matrices.ProductIdentityRight | ComputerGraphics/ViewModel/StereoscopyViewModel.cs:150-177 | a · I = a |
| Matrices.ProductIdentityLeft | ComputerGraphics/ViewModel/StereoscopyViewModel.cs:150-177 | I · b = b |
| Matrices.SquareProduct | ComputerGraphics/ViewModel/StereoscopyViewModel.cs:142 | two n × n matrices multiply to an n × n matrix, as the 4 × 4 transform chain needs |
| Matrices.NestedZero | ComputerGraphics/ViewModel/StereoscopyViewModel.cs:150-177 | the double sum Σ_l a[i][l] · Σ_k b[l][k] · c[k][j] is 0 when no k is summed |
| Matrices.NestedStep | ComputerGraphics/ViewModel/StereoscopyViewModel.cs:150-177 | summing one more k adds (a · b)[i][k] · c[k][j], by distributivity |
| Matrices.ProductLeftNested | ComputerGraphics/ViewModel/StereoscopyViewModel.cs:150-177 | entry (i, j) of (a · b) · c is the double sum |
| Matrices.ProductRightNested | ComputerGraphics/ViewModel/StereoscopyViewModel.cs:150-177 | entry (i, j) of a · (b · c) is the same double sum |
| Matrices.ProductAssociative | ComputerGraphics/ViewModel/StereoscopyViewModel.cs:142-145 | (a · b) · c = a · (b · c) for conforming matrices, so the grouping of the chain P · T · v, with T = t · Rx · Ry, does not change the result |
| SphereMesh.NorthPole | ComputerGraphics/ViewModel/StereoscopyViewModel.cs:107-108 | the north pole lies on the sphere of radius r, at height r, with w = r |
| SphereMesh.SouthPole | ComputerGraphics/ViewModel/StereoscopyViewModel.cs:122-123 | the south pole lies on the sphere of radius r, at height −r, with w = r, and is the north pole mirrored through the origin |
| SphereMesh.GridVertex | ComputerGraphics/ViewModel/StereoscopyViewModel.cs:113-119 | a grid vertex carries radius r and the placed position; its texture u is the integer division j/(m−1) (1 only on the last meridian) and v is the integer division (i+1)/(n+1), always 0 |
| SphereMesh.GridIndexBelow | ComputerGraphics/ViewModel/StereoscopyViewModel.cs:116 | the index i·m + j + 1 grows with (i, j) in loop order |
| SphereMesh.GridIndexInRange | ComputerGraphics/ViewModel/StereoscopyViewModel.cs:105-116 | every grid index lies in 1 .. m·n, between the two poles |
| SphereMesh.GridIndexInjective | ComputerGraphics/ViewModel/StereoscopyViewModel.cs:116 | distinct grid positions get distinct indices |
| SphereMesh.UnwrittenSlot | ComputerGraphics/ViewModel/StereoscopyViewModel.cs:105-116 | with both counts negative the array has more than two slots and no grid index is slot 1, which therefore stays null |
| SphereMesh.VerticesWritten | ComputerGraphics/ViewModel/StereoscopyViewModel.cs:105-124 | when the allocation succeeds, m ≠ 1 (or n < 1) and not both counts are negative, every slot is a pole or the grid index of one (i, j) in range |
| SphereMesh.CreateVertices | ComputerGraphics/ViewModel/StereoscopyViewModel.cs:103-125 | succeeds iff m·n + 2 ≥ 1 and not (m = 1 and n ≥ 1); the fault is Overflow, IndexOutOfRange or DivideByZero accordingly; on success there are m·n + 2 vertices, the poles at both ends and each grid vertex at its index |
| SphereMesh.SlotTriangle | ComputerGraphics/ViewModel/StereoscopyViewModel.cs:181-198 | the reference topology by slot row and column: row 0 the north fan, row 2n − 1 the south fan, odd and even rows the two triangles of each band quad, the last column wrapping to column 0 (a definition; SphereTriangleVertices, SphereTriangleProper and the cap and band lemmas state its properties) |
| SphereMesh.SphereTriangle | ComputerGraphics/ViewModel/StereoscopyViewModel.cs:179-200 | slot k of the 2mn array holds SlotTriangle of row k / m and column k % m (a definition; CreateTriangles is proved to fill the array with it) |
| SphereMesh.SlotDecompose | ComputerGraphics/ViewModel/StereoscopyViewModel.cs:181-198 | the slot q·m + c of a triangle recovers its row q and column c |
| SphereMesh.AllSlotsDecompose | ComputerGraphics/ViewModel/StereoscopyViewModel.cs:181-198 | the same for all slots |
| SphereMesh.SlotInRange | ComputerGraphics/ViewModel/StereoscopyViewModel.cs:181 | every slot of the 2n rows lies inside the triangle array |
| SphereMesh.SouthSlot | ComputerGraphics/ViewModel/StereoscopyViewModel.cs:185 | the south-cap index 2(n−1)m + i + m is slot (2n−1, i) |
| SphereMesh.LastRows | ComputerGraphics/ViewModel/StereoscopyViewModel.cs:185-188 | the first indices of the last two slot rows, as the cap writes use them |
| SphereMesh.SlotOfIndex | ComputerGraphics/ViewModel/StereoscopyViewModel.cs:181-198 | every triangle index is the slot of exactly one row and column; the first and last rows are the caps |
| SphereMesh.SphereTriangleVertices | ComputerGraphics/ViewModel/StereoscopyViewModel.cs:184-197 | every triangle refers to existing vertices; it touches the north pole iff it is in the first m, and the south pole iff it is in the last m |
| SphereMesh.SphereTriangleProper | ComputerGraphics/ViewModel/StereoscopyViewModel.cs:184-197 | for m ≥ 2 the three vertices of every triangle are distinct |
| SphereMesh.NorthCapTriangle | ComputerGraphics/ViewModel/StereoscopyViewModel.cs:184-187 | the north-cap triangle of column c, including the seam column m − 1 |
| SphereMesh.SouthCapTriangle | ComputerGraphics/ViewModel/StereoscopyViewModel.cs:185-188 | the south-cap triangle of column c, including the seam |
| SphereMesh.BandTriangles | ComputerGraphics/ViewModel/StereoscopyViewModel.cs:193-197 | the upper and lower band triangles of band i and column c, including the seam |
| SphereMesh.TwoMeridianCaps | ComputerGraphics/ViewModel/StereoscopyViewModel.cs:184-188 | with m = 2 the two triangles of each cap are the same three vertices in opposite windings |
| SphereMesh.NorthStep | ComputerGraphics/ViewModel/StereoscopyViewModel.cs:182-187 | a north-cap write fills exactly one slot not filled before |
| SphereMesh.SouthStep | ComputerGraphics/ViewModel/StereoscopyViewModel.cs:182-188 | a south-cap write fills exactly one slot not filled before |
| SphereMesh.UpperStep | ComputerGraphics/ViewModel/StereoscopyViewModel.cs:193-196 | an upper band write fills exactly one slot not filled before |
| SphereMesh.LowerStep | ComputerGraphics/ViewModel/StereoscopyViewModel.cs:194-197 | a lower band write fills exactly one slot not filled before |
| SphereMesh.BandStep | ComputerGraphics/ViewModel/StereoscopyViewModel.cs:189-198 | a finished band is the start of the next one |
| SphereMesh.Record | ComputerGraphics/ViewModel/StereoscopyViewModel.cs:181-198 | writing the right triangle into an unfilled slot keeps the array filled as far as the loops have gone, and the written indices distinct |
| SphereMesh.RecordNorth | ComputerGraphics/ViewModel/StereoscopyViewModel.cs:184 | Record for a north-cap write |
| SphereMesh.RecordSouth | ComputerGraphics/ViewModel/StereoscopyViewModel.cs:185 | Record for a south-cap write |
| SphereMesh.RecordUpper | ComputerGraphics/ViewModel/StereoscopyViewModel.cs:193 | Record for an upper band write |
| SphereMesh.RecordLower | ComputerGraphics/ViewModel/StereoscopyViewModel.cs:194 | Record for a lower band write |
| SphereMesh.CapColumn | ComputerGraphics/ViewModel/StereoscopyViewModel.cs:182-188 | the two cap writes of one column extend the filled part by that column |
| SphereMesh.BandColumn | ComputerGraphics/ViewModel/StereoscopyViewModel.cs:191-197 | the two band writes of one column extend the filled part by that column |
| SphereMesh.BandComplete | ComputerGraphics/ViewModel/StereoscopyViewModel.cs:189-198 | a band whose columns are all written moves the progress to the next band |
| SphereMesh.FillCaps | ComputerGraphics/ViewModel/StereoscopyViewModel.cs:182-188 | the cap loop and the cap seams fill both caps, 2m distinct slots |
| SphereMesh.CloseCaps | ComputerGraphics/ViewModel/StereoscopyViewModel.cs:187-188 | the seam writes complete both caps |
| SphereMesh.FillBand | ComputerGraphics/ViewModel/StereoscopyViewModel.cs:191-197 | one band iteration fills that band's 2m slots |
| SphereMesh.CloseBand | ComputerGraphics/ViewModel/StereoscopyViewModel.cs:196-197 | the seam writes complete the band |
| SphereMesh.CreateTriangles | ComputerGraphics/ViewModel/StereoscopyViewModel.cs:179-200 | succeeds iff m ≥ 1 and n ≥ 1 (otherwise Overflow or IndexOutOfRange); on success every one of the 2mn slots holds the reference triangle SphereTriangle; the ghost write log is a repeat-free list of 2mn slots (that each write goes to a slot not yet filled is proved inside the body) |
| Raster.Frac | ComputerGraphics/ViewModel/StereoscopyViewModel.cs:251-252 | `y − (int)y` lies in (−1, 1), with the sign of y |
| Raster.Shade | ComputerGraphics/ViewModel/StereoscopyViewModel.cs:251-252 | the two intensities sum to L + B, and lie between L and B for a fraction in [0, 1) |
| Raster.ShadeBytes | ComputerGraphics/ViewModel/StereoscopyViewModel.cs:251-254 | after the byte casts the two intensities of a step still sum to 254 or 255, for every coordinate, including negative ones whose intensities wrap |
| Raster.ColumnPlots | ComputerGraphics/ViewModel/StereoscopyViewModel.cs:251-254 | a shallow step plots two pixels |
| Raster.RowPlots | ComputerGraphics/ViewModel/StereoscopyViewModel.cs:276-279 | a steep step plots two pixels |
| Raster.WuLine | ComputerGraphics/ViewModel/StereoscopyViewModel.cs:226-283 | the Wu line's plots: two per position along the walk axis, so 2·(|Δ| + 1) plots where Δ is the difference of the truncated end coordinates along x for a shallow line and along y otherwise |
| Raster.Walk | ComputerGraphics/ViewModel/StereoscopyViewModel.cs:249-256 | a walk from i to end plots two pixels per position |
| Raster.WalkStep | ComputerGraphics/ViewModel/StereoscopyViewModel.cs:249-256 | a walk is its first step followed by the rest |
| Raster.WalkAdvance | ComputerGraphics/ViewModel/StereoscopyViewModel.cs:249-256 | after one more iteration the drawn prefix and the remaining walk still make up the whole line |
| Raster.WalkAt | ComputerGraphics/ViewModel/StereoscopyViewModel.cs:249-256 | the q-th step of a walk is at position i + q with the coordinate advanced q times |
| Raster.ShallowWalk | ComputerGraphics/ViewModel/StereoscopyViewModel.cs:233-256 | the shallow branch's loop walks the Wu line from the start chosen by the truncated x |
| Raster.SteepWalk | ComputerGraphics/ViewModel/StereoscopyViewModel.cs:258-281 | the steep branch's loop walks the Wu line with step 1/m, which is 0 for a vertical line |
| Raster.SteepRise | ComputerGraphics/ViewModel/StereoscopyViewModel.cs:232-233 | a non-vertical line whose slope is not below 1 in size has dy ≠ 0, so 1/m is defined |
| Raster.NegDiv | ComputerGraphics/ViewModel/StereoscopyViewModel.cs:230-232 | swapping the ends negates dx and dy and keeps the slope |
| Raster.WuLineShallow | ComputerGraphics/ViewModel/StereoscopyViewModel.cs:233-256 | a shallow line plots two vertically adjacent pixels in every column from the smaller to the larger truncated x |
| Raster.WuLineSteep | ComputerGraphics/ViewModel/StereoscopyViewModel.cs:258-281 | a steep line plots two horizontally adjacent pixels in every row from the smaller to the larger truncated y |
| Raster.WuLineSymmetric | ComputerGraphics/ViewModel/StereoscopyViewModel.cs:226-283 | the line from p2 to p1 is the line from p1 to p2 whenever the truncated coordinates along the walk differ |
| Raster.WuLineAsymmetric | ComputerGraphics/ViewModel/StereoscopyViewModel.cs:235 | when they are equal the direction matters: a concrete pair of points painted with different intensities |
| Raster.Cross | ComputerGraphics/ViewModel/StereoscopyViewModel.cs:206-209 | the z component of (b − a) × (c − a), which is 0 when two of the three points coincide |
| Raster.FrontFacing | ComputerGraphics/ViewModel/StereoscopyViewModel.cs:206-209 | the culling test `cross > 0`: a triangle that passes it has three distinct screen points |
| Raster.FrontFacingWinding | ComputerGraphics/ViewModel/StereoscopyViewModel.cs:205-209 | the cross-product test is invariant under rotating the vertices, fails for the reversed winding, and fails for degenerate triangles |
| Raster.Parts | ComputerGraphics/ViewModel/StereoscopyViewModel.cs:204-213 | one plot sequence per triangle |
| Raster.TrianglePlotsAt | ComputerGraphics/ViewModel/StereoscopyViewModel.cs:206-211 | a triangle is outlined iff its screen cross product is positive |
| Raster.PartsStep | ComputerGraphics/ViewModel/StereoscopyViewModel.cs:204-213 | the plots of the first k + 1 triangles are those of the first k followed by those of triangle k |
| Raster.ConcatHits | ComputerGraphics/ViewModel/StereoscopyViewModel.cs:204-213 | a pixel is hit by the concatenation iff it is hit by one of the parts |
| Raster.TrianglePlotsHits | ComputerGraphics/ViewModel/StereoscopyViewModel.cs:206-223 | a pixel is hit by a triangle's plots iff the triangle faces the viewer and its outline hits the pixel |
| Raster.MeshPlotsHits | ComputerGraphics/ViewModel/StereoscopyViewModel.cs:202-214 | a pixel is hit by the mesh drawing iff some front-facing triangle's outline hits it |
| Raster.HitsAppend | ComputerGraphics/ViewModel/StereoscopyViewModel.cs:218-223 | a pixel is hit by two plot sequences together iff it is hit by one of them |
| Stereoscopy.RotationX | ComputerGraphics/ViewModel/StereoscopyViewModel.cs:130-135 | the rotation about the x axis, built from the cosine and sine of alphaX, is 4 × 4 |
| Stereoscopy.RotationY | ComputerGraphics/ViewModel/StereoscopyViewModel.cs:136-141 | the rotation about the y axis, built from the cosine and sine of alphaY, is 4 × 4 |
| Stereoscopy.RotationsAtRest | ComputerGraphics/ViewModel/StereoscopyViewModel.cs:130-142 | at the initial angles 0 (cos 1, sin 0) both rotations are the identity and T = t |
| Stereoscopy.View | ComputerGraphics/ViewModel/StereoscopyViewModel.cs:76-82 | the view matrix is the 4 × 4 identity with the translation zoom in row 2, column 3 |
| Stereoscopy.StereoscopyViewModel.constructor | ComputerGraphics/ViewModel/StereoscopyViewModel.cs:22-66 | the initial radius, zoom, counts and angles, the initial t with translation 2, and a cleared and shown buffer |
| Stereoscopy.StereoscopyViewModel.ChangeConfiguration | ComputerGraphics/ViewModel/StereoscopyViewModel.cs:68-83 | the new values are stored, the counts truncated, and t rebuilt from the zoom; nothing else changes |
| Stereoscopy.StereoscopyViewModel.DrawSphere | ComputerGraphics/ViewModel/StereoscopyViewModel.cs:85-101 | completes iff m ≥ 2 and n ≥ 1, with the fault chain of vertex construction, projection and triangle construction otherwise (the buffer is then cleared and shown); the counts, radius, zoom, angles and t are unchanged; on completion T = t · Rx(alphaX) · Ry(alphaY), the poles and every grid vertex (i, j) are projected under T at their indices, the triangles are the reference topology, and every colour byte is the canvas colour overlaid with the outlines of the front-facing triangles |
| Stereoscopy.StereoscopyViewModel.BuildMesh | ComputerGraphics/ViewModel/StereoscopyViewModel.cs:96-98 | vertex construction, projection and triangle construction, with the same outcomes, projected vertices and triangles as DrawSphere, and the bitmap untouched |
| Stereoscopy.StereoscopyViewModel.PlaceVertices | ComputerGraphics/ViewModel/StereoscopyViewModel.cs:96-97 | vertex construction then projection: completes iff the allocation succeeds, there is no division by zero and not both counts are negative (NullReference); on completion with m ≥ 2 and n ≥ 1 every vertex is projected under T at its index |
| Stereoscopy.StereoscopyViewModel.TransformAndProject | ComputerGraphics/ViewModel/StereoscopyViewModel.cs:127-148 | T is t · Rx · Ry; every vertex before the first null slot is replaced by its projection through P · T, and the loop throws NullReference at that slot if there is one |
| Stereoscopy.StereoscopyViewModel.DrawMesh | ComputerGraphics/ViewModel/StereoscopyViewModel.cs:202-214 | the buffer is overlaid with the outlines of the front-facing triangles, in array order |
| Stereoscopy.StereoscopyViewModel.DrawTriangle | ComputerGraphics/ViewModel/StereoscopyViewModel.cs:216-224 | the buffer is overlaid with the three Wu lines v1→v2, v2→v3, v3→v1 |
| Stereoscopy.StereoscopyViewModel.DrawWuLine | ComputerGraphics/ViewModel/StereoscopyViewModel.cs:226-283 | the buffer is overlaid with the Wu line from p1 to p2 |
| Stereoscopy.StereoscopyViewModel.DrawWalk | ComputerGraphics/ViewModel/StereoscopyViewModel.cs:249-256 | either loop of DrawWuLine overlays the buffer with its walk |
| Stereoscopy.StereoscopyViewModel.DrawPair | ComputerGraphics/ViewModel/StereoscopyViewModel.cs:253-254 | the two writes of one step overlay the buffer with both plots |
| Stereoscopy.StereoscopyViewModel.DrawPoint | ComputerGraphics/ViewModel/StereoscopyViewModel.cs:285-306 | offset 0 writes the one pixel if it is in range; otherwise the block walk writes the cells up to the first out-of-range one, and the exception is swallowed |
| Stereoscopy.StereoscopyViewModel.ResetBitmap | ComputerGraphics/ViewModel/StereoscopyViewModel.cs:309-313 | the buffer is cleared and the bitmap refreshed; nothing else changes |
| Stereoscopy.StereoscopyViewModel.SetPixelArray | ComputerGraphics/ViewModel/StereoscopyViewModel.cs:314-329 | every colour byte is the canvas colour 255 and every alpha byte 255 |
| Stereoscopy.StereoscopyViewModel.SetBitmap | ComputerGraphics/ViewModel/StereoscopyViewModel.cs:330-351 | the bitmap becomes the row-major copy of the buffer; nothing else changes |
| Canvas.Round | ComputerGraphics/ViewModel/CanvasViewModel.cs:89-92 | Round moves y by exactly one half, away from zero: the result differs from y by 0.5 and keeps y's sign |
| Canvas.LineCenters | ComputerGraphics/ViewModel/CanvasViewModel.cs:53-77 | the squares' centres of DrawLine: one per column between the truncated x of the ends, on the rounded y walked from the end with the smaller truncated x (a definition; LineCentersColumns, LineCentersSymmetric and LineCentersOneColumn state its properties) |
| Canvas.RoundNearest | ComputerGraphics/ViewModel/CanvasViewModel.cs:89-92 | `(int)Round(y)` is within one half of y, a tie going away from zero |
| Canvas.RoundOdd | ComputerGraphics/ViewModel/CanvasViewModel.cs:89-92 | rounding then truncating commutes with negation |
| Canvas.CentersAt | ComputerGraphics/ViewModel/CanvasViewModel.cs:73-77 | the loop paints one square per column, and the q-th square is at column begin + q, on the rounded y advanced q times |
| Canvas.LineCentersColumns | ComputerGraphics/ViewModel/CanvasViewModel.cs:53-77 | a line has one square in every column between the truncated x of its ends, and starts on the rounded y of the end with the smaller truncated x |
| Canvas.LineCentersSymmetric | ComputerGraphics/ViewModel/CanvasViewModel.cs:55-71 | with the ends in different columns, swapping them gives the same squares |
| Canvas.LineCentersOneColumn | ComputerGraphics/ViewModel/CanvasViewModel.cs:58 | with both ends in one column the single square is at the second end's row, so the direction matters |
| Canvas.CentersAdvance | ComputerGraphics/ViewModel/CanvasViewModel.cs:73-77 | after one iteration the painted squares and the remaining walk still make up the whole line |
| Canvas.AllFitSnoc | ComputerGraphics/ViewModel/CanvasViewModel.cs:73-77 | all squares fit after one more iff they fitted before and the new one fits |
| Canvas.StrokedSnoc | ComputerGraphics/ViewModel/CanvasViewModel.cs:73-77 | one more square paints its reached cells, provided every earlier square fitted |
| Canvas.StrokedStops | ComputerGraphics/ViewModel/CanvasViewModel.cs:73-77 | once a square has not fitted, nothing after it is painted |
| Canvas.StrokedSquares | ComputerGraphics/ViewModel/CanvasViewModel.cs:81-87 | when every square fits, a pixel is painted iff it lies in the 2 × 2 square of some centre |
| Canvas.CanvasViewModel.constructor | ComputerGraphics/ViewModel/CanvasViewModel.cs:32-36 | the buffer is 800 rows of 780 pixels, cleared to grey 245 with opaque alpha and shown; no point is pending |
| Canvas.CanvasViewModel.Click | ComputerGraphics/ViewModel/CanvasViewModel.cs:38-51 | completes iff the click's square fits and, when a point is pending, every square of the line fits; the painted pixels are those of ClickPaints; on completion the pending point toggles and the bitmap is refreshed, and when it throws the pending point and the bitmap are unchanged |
| Canvas.CanvasViewModel.DrawLine | ComputerGraphics/ViewModel/CanvasViewModel.cs:53-79 | completes iff every square of the line fits; the painted pixels are exactly those Stroked by the line's squares |
| Canvas.CanvasViewModel.DrawPoint | ComputerGraphics/ViewModel/CanvasViewModel.cs:81-87 | completes iff the square fits; the cells up to the first out-of-range one get black colour bytes, and nothing else changes |
| Canvas.CanvasViewModel.InitializeBitmap | ComputerGraphics/ViewModel/CanvasViewModel.cs:94-111 | every colour byte becomes 245 and every alpha byte 255, and the bitmap is refreshed |
| Canvas.CanvasViewModel.SetBitmap | ComputerGraphics/ViewModel/CanvasViewModel.cs:113-133 | the bitmap becomes the row-major copy of the buffer; nothing else changes |

## Left out

- Trigonometry and perspective. `Math.Cos`, `Math.Sin`, `Math.Tan` and the vertex helper's `GetP`/`SetXY` with its perspective divide are parameters of `DrawSphere`:
  - `place` gives a grid vertex's position;
  - `cos` and `sin` are the rotations' functions;
  - `project` is the screen projection through `P · T`.
  The matrix `P`, built from the field of view `theta`, is therefore not modelled. The Vertex and Triangle helper classes are not part of this model: a vertex is a value, and a triangle holds three vertex indices instead of three vertex references.
- Floating point. Coordinates are exact reals. Rounding in the Wu walk's `y += m`, NaN, and infinities other than the vertical-line case (dx = 0) are not modelled.
- Integer overflow. 32-bit overflow of `m * n` and `2 * m * n` is not modelled: the products are exact, and Overflow appears only as the fault of a negative array size. `(int)` casts of doubles outside the 32-bit range are not modelled either.
- Arith.ByteOf: an out-of-range `(byte)` cast is modelled as wrap-around modulo 256, which is what unchecked truncation gives on x86. C# leaves the result unspecified, and .NET 9 saturates instead. The Wu line reaches this case when a coordinate lies in (−1, 0): for y = −0.5 the pixel in row 0 gets 255 · 1.5 = 382.5, which becomes 126 here and 255 under saturation (its partner in row −1 lies outside the buffer). The contracts of DrawWuLine and DrawSphere carry the wrapped value.
- Null vertices. On a NullReference fault the vertices projected before the null slot are stated by `TransformAndProject`; the null slot itself is modelled as a default vertex that the projection never reaches.
- WPF plumbing is not modelled: `WriteableBitmap`, `Int32Rect`, the stride, `RaisePropertyChanged`, the relay commands and the mouse event. The bitmap is modelled as the flattened byte array it is written from, and the clicked point is a parameter of `Click`.
- Configuration lookup. The LINQ lookups of `ChangeConfiguration` in the `Configuration` list are not modelled; the six values are its parameters.
- `Console.WriteLine` in the Stereoscopy `DrawPoint` handler is not modelled.
- Stereoscopy.StereoscopyViewModel.DrawPoint: takes integer coordinates, so `Math.Round` is not modelled. All its callers pass integer-valued coordinates, for which `Math.Round` is the identity.
- Canvas.CanvasViewModel.Click: a click whose square does not fit is modelled as stopping at the out-of-range cell. What the application does with the exception after that is not modelled.
