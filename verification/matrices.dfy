/**
 * The matrix product of the stereoscopy view: jagged arrays of doubles, modelled as sequences
 * of rows of exact reals, multiplied by the textbook triple loop.
 */
module Matrices {
  import opened Outcomes

  type Matrix = seq<seq<real>>

  /** The first n terms of row i of a times column j of b: a[i][0]·b[0][j] + … + a[i][n−1]·b[n−1][j],
      added in that order. */
  function Dot(a: Matrix, b: Matrix, i: int, j: int, n: int): (d: real)
    requires 0 <= i < |a| && 0 <= j && 0 <= n <= |a[i]| && n <= |b|
    requires forall k :: 0 <= k < n ==> j < |b[k]|
  {
    if n == 0 then 0.0 else Dot(a, b, i, j, n - 1) + a[i][n - 1] * b[n - 1][j]
  }

  /** Can the loops of MatrixMultiply run to the end? Both matrices have a first row, a has as
      many columns as b has rows, and, when there is a column to compute, no row of a is
      shorter than its first row and no row of b shorter than its first row. */
  predicate Multipliable(a: Matrix, b: Matrix) {
    |a| > 0 && |b| > 0 && |a[0]| == |b| && (|b[0]| > 0 ==> RowsAtLeast(a, |b|) && RowsAtLeast(b, |b[0]|))
  }

  /** Does every row of m have at least `len` entries? */
  predicate RowsAtLeast(m: Matrix, len: int) {
    forall r :: 0 <= r < |m| ==> |m[r]| >= len
  }

  /** The product: |a| rows of |b[0]| entries, entry (i, j) the dot product of row i and column j. */
  function Product(a: Matrix, b: Matrix): (c: Matrix)
    requires Multipliable(a, b)
    ensures |c| == |a| && forall i :: 0 <= i < |c| ==> |c[i]| == |b[0]|
  {
    seq(|a|, i requires 0 <= i < |a| => seq(|b[0]|, j requires 0 <= j < |b[0]| => Dot(a, b, i, j, |b|)))
  }

  /** MatrixMultiply: reading a[0] or b[0] of an empty matrix throws IndexOutOfRangeException;
      a column count of a different from the row count of b throws ArgumentException; a row too
      short for the loops throws IndexOutOfRangeException when the loop reaches it. Otherwise the
      zero-initialised C accumulates C[i][j] += a[i][k]·b[k][j] and is the product. */
  method MatrixMultiply(a: Matrix, b: Matrix) returns (res: Result<Matrix>)
    ensures res.Success? <==> Multipliable(a, b)
    ensures res.Failure? ==>
      res.error == if |a| > 0 && |b| > 0 && |a[0]| != |b| then DimensionMismatch else IndexOutOfRange
    ensures res.Success? ==> res.value == Product(a, b)
  {
    if |a| == 0 {
      return Failure(IndexOutOfRange);
    }
    var aRows, aColumns := |a|, |a[0]|;
    if |b| == 0 {
      return Failure(IndexOutOfRange);
    }
    var bRows, bColumns := |b|, |b[0]|;
    if aColumns != bRows {
      return Failure(DimensionMismatch);
    }
    var c: Matrix := [];
    var i := 0;
    while i < aRows
      invariant 0 <= i <= aRows && |c| == i
      invariant forall i' :: 0 <= i' < i ==> c[i'] == seq(bColumns, _ => 0.0)
    {
      var row: seq<real> := [];
      var j := 0;
      while j < bColumns
        invariant 0 <= j <= bColumns && row == seq(j, _ => 0.0)
      {
        row := row + [0.0];
        j := j + 1;
      }
      c := c + [row];
      i := i + 1;
    }
    i := 0;
    while i < aRows
      invariant 0 <= i <= aRows && |c| == aRows
      invariant forall i' :: 0 <= i' < aRows ==> |c[i']| == bColumns
      invariant bColumns > 0 ==> forall i' :: 0 <= i' < i ==> |a[i']| >= bRows
      invariant bColumns > 0 && i > 0 ==> RowsAtLeast(b, bColumns)
      invariant forall i', j' :: 0 <= i' < i && 0 <= j' < bColumns ==> c[i'][j'] == Dot(a, b, i', j', bRows)
      invariant forall i', j' :: i <= i' < aRows && 0 <= j' < bColumns ==> c[i'][j'] == 0.0
    {
      var j := 0;
      while j < bColumns
        invariant 0 <= j <= bColumns && |c| == aRows
        invariant forall i' :: 0 <= i' < aRows ==> |c[i']| == bColumns
        invariant j > 0 ==> |a[i]| >= bRows
        invariant RowsAtLeast(b, j) || (i > 0 && RowsAtLeast(b, bColumns))
        invariant forall i', j' :: 0 <= i' < i && 0 <= j' < bColumns ==> c[i'][j'] == Dot(a, b, i', j', bRows)
        invariant forall j' :: 0 <= j' < j ==> c[i][j'] == Dot(a, b, i, j', bRows)
        invariant forall i', j' :: (i < i' < aRows || (i' == i && j <= j')) && 0 <= j' < bColumns ==> c[i'][j'] == 0.0
      {
        var k := 0;
        while k < aColumns
          invariant 0 <= k <= aColumns && |c| == aRows
          invariant forall i' :: 0 <= i' < aRows ==> |c[i']| == bColumns
          invariant k <= |a[i]| && forall k' :: 0 <= k' < k ==> j < |b[k']|
          invariant RowsAtLeast(b, j) || (i > 0 && RowsAtLeast(b, bColumns))
          invariant forall i', j' :: 0 <= i' < i && 0 <= j' < bColumns ==> c[i'][j'] == Dot(a, b, i', j', bRows)
          invariant forall j' :: 0 <= j' < j ==> c[i][j'] == Dot(a, b, i, j', bRows)
          invariant c[i][j] == Dot(a, b, i, j, k)
          invariant forall i', j' :: (i < i' < aRows || (i' == i && j < j')) && 0 <= j' < bColumns ==> c[i'][j'] == 0.0
        {
          if k >= |a[i]| {
            assert |a[i]| < bRows;
            return Failure(IndexOutOfRange);
          }
          if j >= |b[k]| {
            assert |b[k]| < bColumns;
            return Failure(IndexOutOfRange);
          }
          c := c[i := c[i][j := c[i][j] + a[i][k] * b[k][j]]];
          k := k + 1;
        }
        j := j + 1;
      }
      i := i + 1;
    }
    assert Multipliable(a, b);
    forall i' | 0 <= i' < aRows
      ensures c[i'] == Product(a, b)[i']
    {
      assert forall j' :: 0 <= j' < bColumns ==> c[i'][j'] == Product(a, b)[i'][j'];
    }
    return Success(c);
  }

  // ---------------------------------------------------------------------------
  // The identity matrix is neutral

  /** The n × n identity. */
  function Identity(n: nat): (id: Matrix)
    ensures |id| == n && forall i :: 0 <= i < n ==> |id[i]| == n
  {
    seq(n, i => seq(n, j => if i == j then 1.0 else 0.0))
  }

  /** Is m a rows × cols matrix? */
  predicate Shape(m: Matrix, rows: int, cols: int) {
    |m| == rows && forall i :: 0 <= i < rows ==> |m[i]| == cols
  }

  lemma {:induction false} DotIdentityRight(a: Matrix, n: nat, i: int, j: int, k: nat)
    requires Shape(a, |a|, n) && 0 <= i < |a| && 0 <= j < n && k <= n
    ensures Dot(a, Identity(n), i, j, k) == if j < k then a[i][j] else 0.0
  {
    if k > 0 {
      DotIdentityRight(a, n, i, j, k - 1);
    }
  }

  lemma {:induction false} DotIdentityLeft(b: Matrix, n: nat, cols: nat, i: int, j: int, k: nat)
    requires Shape(b, n, cols) && 0 <= i < n && 0 <= j < cols && k <= n
    ensures Dot(Identity(n), b, i, j, k) == if i < k then b[i][j] else 0.0
  {
    if k > 0 {
      DotIdentityLeft(b, n, cols, i, j, k - 1);
    }
  }

  /** a · I = a for every non-empty matrix a of n ≥ 1 columns. */
  lemma ProductIdentityRight(a: Matrix, n: nat)
    requires |a| > 0 && n > 0 && Shape(a, |a|, n)
    ensures Multipliable(a, Identity(n)) && Product(a, Identity(n)) == a
  {
    var p := Product(a, Identity(n));
    forall i | 0 <= i < |a|
      ensures p[i] == a[i]
    {
      forall j | 0 <= j < n
        ensures p[i][j] == a[i][j]
      {
        DotIdentityRight(a, n, i, j, n);
      }
    }
  }

  /** I · b = b for every matrix b of n ≥ 1 rows and at least one column. */
  lemma ProductIdentityLeft(b: Matrix, n: nat, cols: nat)
    requires n > 0 && cols > 0 && Shape(b, n, cols)
    ensures Multipliable(Identity(n), b) && Product(Identity(n), b) == b
  {
    var p := Product(Identity(n), b);
    forall i | 0 <= i < n
      ensures p[i] == b[i]
    {
      forall j | 0 <= j < cols
        ensures p[i][j] == b[i][j]
      {
        DotIdentityLeft(b, n, cols, i, j, n);
      }
    }
  }

  /** Two n × n matrices (n ≥ 1) always multiply, into an n × n matrix. */
  lemma SquareProduct(a: Matrix, b: Matrix, n: int)
    requires n > 0 && Shape(a, n, n) && Shape(b, n, n)
    ensures Multipliable(a, b) && Shape(Product(a, b), n, n)
  {
  }

  // ---------------------------------------------------------------------------
  // The product is associative

  /** Row i of a against the first K terms of the products of b with column j of c, over the
      first L columns of a: a[i][0]·(b·c)ₖ[0][j] + … + a[i][L−1]·(b·c)ₖ[L−1][j]. It is the
      double sum that both bracketings of a · b · c rearrange. */
  function Nested(a: Matrix, b: Matrix, c: Matrix, q: int, r: int, s: int, i: int, j: int, L: nat, K: nat): real
    requires Shape(a, |a|, q) && Shape(b, q, r) && Shape(c, r, s)
    requires 0 <= i < |a| && 0 <= j < s && L <= q && K <= r
  {
    if L == 0 then 0.0 else Nested(a, b, c, q, r, s, i, j, L - 1, K) + a[i][L - 1] * Dot(b, c, L - 1, j, K)
  }

  lemma {:induction false} NestedZero(a: Matrix, b: Matrix, c: Matrix, q: int, r: int, s: int, i: int, j: int, L: nat)
    requires Shape(a, |a|, q) && Shape(b, q, r) && Shape(c, r, s)
    requires 0 <= i < |a| && 0 <= j < s && L <= q
    ensures Nested(a, b, c, q, r, s, i, j, L, 0) == 0.0
  {
    if L > 0 {
      NestedZero(a, b, c, q, r, s, i, j, L - 1);
    }
  }

  /** One more term of the inner sums adds the matching term of row i of a · b times c[K][j]. */
  lemma {:induction false} NestedStep(a: Matrix, b: Matrix, c: Matrix, q: int, r: int, s: int, i: int, j: int, L: nat, K: nat)
    requires Shape(a, |a|, q) && Shape(b, q, r) && Shape(c, r, s)
    requires 0 <= i < |a| && 0 <= j < s && L <= q && K < r
    ensures Nested(a, b, c, q, r, s, i, j, L, K + 1) == Nested(a, b, c, q, r, s, i, j, L, K) + Dot(a, b, i, K, L) * c[K][j]
  {
    if L > 0 {
      NestedStep(a, b, c, q, r, s, i, j, L - 1, K);
      var x, y, z := a[i][L - 1], b[L - 1][K], c[K][j];
      var d, e := Dot(b, c, L - 1, j, K), Dot(a, b, i, K, L - 1);
      assert Dot(b, c, L - 1, j, K + 1) == d + y * z;
      assert Dot(a, b, i, K, L) == e + x * y;
      assert x * (d + y * z) == x * d + (x * y) * z;
      assert (e + x * y) * z == e * z + (x * y) * z;
    }
  }

  /** The first K terms of entry (i, j) of (a · b) · c are the nested sum over all of a's columns. */
  lemma {:induction false} ProductLeftNested(a: Matrix, b: Matrix, c: Matrix, p: int, q: int, r: int, s: int, i: int, j: int, K: nat)
    requires p > 0 && q > 0 && r > 0 && s > 0 && Shape(a, p, q) && Shape(b, q, r) && Shape(c, r, s)
    requires 0 <= i < p && 0 <= j < s && K <= r
    ensures Multipliable(a, b) && Shape(Product(a, b), p, r)
    ensures Dot(Product(a, b), c, i, j, K) == Nested(a, b, c, q, r, s, i, j, q, K)
  {
    if K == 0 {
      NestedZero(a, b, c, q, r, s, i, j, q);
    } else {
      ProductLeftNested(a, b, c, p, q, r, s, i, j, K - 1);
      NestedStep(a, b, c, q, r, s, i, j, q, K - 1);
    }
  }

  /** The first L terms of entry (i, j) of a · (b · c) are the nested sum over all of b's columns. */
  lemma {:induction false} ProductRightNested(a: Matrix, b: Matrix, c: Matrix, p: int, q: int, r: int, s: int, i: int, j: int, L: nat)
    requires p > 0 && q > 0 && r > 0 && s > 0 && Shape(a, p, q) && Shape(b, q, r) && Shape(c, r, s)
    requires 0 <= i < p && 0 <= j < s && L <= q
    ensures Multipliable(b, c) && Shape(Product(b, c), q, s)
    ensures Dot(a, Product(b, c), i, j, L) == Nested(a, b, c, q, r, s, i, j, L, r)
  {
    if L > 0 {
      ProductRightNested(a, b, c, p, q, r, s, i, j, L - 1);
    }
  }

  /** (a · b) · c = a · (b · c) for a p × q, b q × r and c r × s, all dimensions positive: the
      transform chain t · Rx · Ry may be bracketed either way. */
  lemma ProductAssociative(a: Matrix, b: Matrix, c: Matrix, p: int, q: int, r: int, s: int)
    requires p > 0 && q > 0 && r > 0 && s > 0 && Shape(a, p, q) && Shape(b, q, r) && Shape(c, r, s)
    ensures Multipliable(a, b) && Multipliable(Product(a, b), c)
    ensures Multipliable(b, c) && Multipliable(a, Product(b, c))
    ensures Product(Product(a, b), c) == Product(a, Product(b, c))
  {
    var left, right := Product(Product(a, b), c), Product(a, Product(b, c));
    forall i | 0 <= i < p
      ensures left[i] == right[i]
    {
      forall j | 0 <= j < s
        ensures left[i][j] == right[i][j]
      {
        ProductLeftNested(a, b, c, p, q, r, s, i, j, r);
        ProductRightNested(a, b, c, p, q, r, s, i, j, q);
      }
    }
  }
}
