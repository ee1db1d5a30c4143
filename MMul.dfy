// The sequential matrix multiplier: a triple loop that fills a freshly
// made result matrix, one accumulated sum per cell.

module MMul {

  // ---------------------------------------------------------------------
  // Reference definition of the matrix product on values

  /** A matrix as its rows. */
  type Matrix = seq<seq<real>>

  /** Every row of m has cols entries. */
  predicate IsMatrix(m: Matrix, cols: nat)
  {
    forall i :: 0 <= i < |m| ==> |m[i]| == cols
  }

  /** The sum over k < n of x[i][k] * y[k][j]. */
  function Dot(x: Matrix, y: Matrix, i: nat, j: nat, n: nat): real
    requires i < |x| && n <= |x[i]| && n <= |y|
    requires forall k :: 0 <= k < n ==> j < |y[k]|
  {
    if n == 0 then 0.0 else Dot(x, y, i, j, n - 1) + x[i][n - 1] * y[n - 1][j]
  }

  /** The product x·y of a matrix with q columns and one with q rows and
      s columns. */
  function Product(x: Matrix, y: Matrix, q: nat, s: nat): (z: Matrix)
    requires IsMatrix(x, q) && |y| == q && IsMatrix(y, s)
    ensures |z| == |x| && IsMatrix(z, s)
    ensures forall i, j :: 0 <= i < |x| && 0 <= j < s ==> z[i][j] == Dot(x, y, i, j, q)
  {
    seq(|x|, i requires 0 <= i < |x| => seq(s, j requires 0 <= j < s => Dot(x, y, i, j, q)))
  }

  /** The n-by-n identity matrix. */
  function Identity(n: nat): (m: Matrix)
    ensures |m| == n && IsMatrix(m, n)
    ensures forall i, j :: 0 <= i < n && 0 <= j < n ==> m[i][j] == (if i == j then 1.0 else 0.0)
  {
    seq(n, i requires 0 <= i < n => seq(n, j requires 0 <= j < n => if i == j then 1.0 else 0.0))
  }

  /** Summing against a row of the identity picks out one entry. */
  lemma {:induction false} DotIdentityLeft(y: Matrix, q: nat, s: nat, i: nat, j: nat, n: nat)
    requires |y| == q && IsMatrix(y, s) && i < q && j < s && n <= q
    ensures Dot(Identity(q), y, i, j, n) == if i < n then y[i][j] else 0.0
  {
    if n > 0 {
      DotIdentityLeft(y, q, s, i, j, n - 1);
    }
  }

  /** Summing against a column of the identity picks out one entry. */
  lemma {:induction false} DotIdentityRight(x: Matrix, q: nat, i: nat, j: nat, n: nat)
    requires IsMatrix(x, q) && i < |x| && j < q && n <= q
    ensures Dot(x, Identity(q), i, j, n) == if j < n then x[i][j] else 0.0
  {
    if n > 0 {
      DotIdentityRight(x, q, i, j, n - 1);
    }
  }

  /** I·y == y. */
  lemma {:induction false} IdentityLeft(y: Matrix, q: nat, s: nat)
    requires |y| == q && IsMatrix(y, s)
    ensures Product(Identity(q), y, q, s) == y
  {
    var z := Product(Identity(q), y, q, s);
    forall i | 0 <= i < q
      ensures z[i] == y[i]
    {
      forall j | 0 <= j < s
        ensures z[i][j] == y[i][j]
      {
        DotIdentityLeft(y, q, s, i, j, q);
      }
    }
  }

  /** x·I == x. */
  lemma {:induction false} IdentityRight(x: Matrix, q: nat)
    requires IsMatrix(x, q)
    ensures Product(x, Identity(q), q, q) == x
  {
    var z := Product(x, Identity(q), q, q);
    forall i | 0 <= i < |x|
      ensures z[i] == x[i]
    {
      forall j | 0 <= j < q
        ensures z[i][j] == x[i][j]
      {
        DotIdentityRight(x, q, i, j, q);
      }
    }
  }

  // ---------------------------------------------------------------------
  // The multiplier on two-dimensional arrays

  /** The rows of an array matrix (Length0 rows of Length1 columns). */
  ghost function Rows(m: array2<real>): (r: Matrix)
    reads m
    ensures |r| == m.Length0 && IsMatrix(r, m.Length1)
    ensures forall i, j :: 0 <= i < m.Length0 && 0 <= j < m.Length1 ==> r[i][j] == m[i, j]
  {
    seq(m.Length0, i requires 0 <= i < m.Length0 reads m =>
      seq(m.Length1, j requires 0 <= j < m.Length1 reads m => m[i, j]))
  }

  /** The value the multiplier accumulates for cell (r, c) after its first
      n terms: the sum over k < n of a[k, c] * b[r, k]. */
  ghost function Partial(a: array2<real>, b: array2<real>, r: nat, c: nat, n: nat): real
    reads a, b
    requires n <= a.Length0 && c < a.Length1 && r < b.Length0 && n <= b.Length1
  {
    if n == 0 then 0.0 else Partial(a, b, r, c, n - 1) + a[n - 1, c] * b[r, n - 1]
  }

  /** The reads a.get(k, c) and b.get(r, k) lie inside a and b. */
  predicate ReadsInBounds(aCols: nat, bRows: nat, bCols: nat, r: nat, c: nat, k: nat)
  {
    c < aCols && r < bRows && k < bCols
  }

  /** Every index the three loops read lies inside a and b: the loops run
      r < a.cols, c < b.rows and k < a.rows. */
  predicate AccessesInBounds(aRows: nat, aCols: nat, bRows: nat, bCols: nat)
  {
    forall r: nat, c: nat, k: nat :: r < aCols && c < bRows && k < aRows ==>
      ReadsInBounds(aCols, bRows, bCols, r, c, k)
  }

  /** For matrices with no empty dimension the reads stay inside exactly
      when a.cols == b.rows and a.rows <= b.cols. */
  lemma {:induction false} AccessesInBoundsIff(aRows: nat, aCols: nat, bRows: nat, bCols: nat)
    requires aRows > 0 && aCols > 0 && bRows > 0
    ensures AccessesInBounds(aRows, aCols, bRows, bCols) <==> aCols == bRows && aRows <= bCols
  {
    if AccessesInBounds(aRows, aCols, bRows, bCols) {
      assert ReadsInBounds(aCols, bRows, bCols, 0, bRows - 1, 0);
      assert ReadsInBounds(aCols, bRows, bCols, aCols - 1, 0, 0);
      assert ReadsInBounds(aCols, bRows, bCols, 0, 0, aRows - 1);
    }
  }

  /** SequentialMMul::multiply: result is made with a.cols rows and b.rows
      columns, and cell (r, c) gets the sum over k < a.rows of
      a[k, c] * b[r, k], accumulated from 0. */
  method Multiply(a: array2<real>, b: array2<real>) returns (result: array2<real>)
    requires a.Length1 == b.Length0 && a.Length0 <= b.Length1
    ensures fresh(result)
    ensures result.Length0 == a.Length1 && result.Length1 == b.Length0
    ensures forall r, c :: 0 <= r < result.Length0 && 0 <= c < result.Length1 ==>
      result[r, c] == Partial(a, b, r, c, a.Length0)
  {
    result := new real[a.Length1, b.Length0];
    var r := 0;
    while r < result.Length0
      invariant r <= result.Length0
      invariant forall r', c' :: 0 <= r' < r && 0 <= c' < result.Length1 ==>
        result[r', c'] == Partial(a, b, r', c', a.Length0)
    {
      var c := 0;
      while c < result.Length1
        invariant c <= result.Length1
        invariant forall r', c' :: 0 <= r' < r && 0 <= c' < result.Length1 ==>
          result[r', c'] == Partial(a, b, r', c', a.Length0)
        invariant forall c' :: 0 <= c' < c ==> result[r, c'] == Partial(a, b, r, c', a.Length0)
      {
        var sum := 0.0;
        var k := 0;
        while k < a.Length0
          invariant k <= a.Length0
          invariant sum == Partial(a, b, r, c, k)
        {
          sum := sum + a[k, c] * b[r, k];
          k := k + 1;
        }
        result[r, c] := sum;
        c := c + 1;
      }
      r := r + 1;
    }
  }

  /** The accumulated sums are the entries of the product B·A. */
  lemma {:induction false} PartialIsDot(a: array2<real>, b: array2<real>, r: nat, c: nat, n: nat)
    requires n <= a.Length0 && c < a.Length1 && r < b.Length0 && n <= b.Length1
    ensures Partial(a, b, r, c, n) == Dot(Rows(b), Rows(a), r, c, n)
  {
    if n > 0 {
      PartialIsDot(a, b, r, c, n - 1);
    }
  }

  /** When b has as many columns as a has rows, a result with the
      multiplier's cells is the product B·A; with a == b it is A². */
  lemma {:induction false} ResultIsProduct(a: array2<real>, b: array2<real>, result: array2<real>)
    requires a.Length1 == b.Length0 && a.Length0 == b.Length1
    requires result.Length0 == a.Length1 && result.Length1 == b.Length0
    requires forall r, c :: 0 <= r < result.Length0 && 0 <= c < result.Length1 ==>
      result[r, c] == Partial(a, b, r, c, a.Length0)
    ensures Rows(result) == Product(Rows(b), Rows(a), a.Length0, a.Length1)
  {
    var z := Product(Rows(b), Rows(a), a.Length0, a.Length1);
    var m := Rows(result);
    forall r | 0 <= r < result.Length0
      ensures m[r] == z[r]
    {
      forall c | 0 <= c < result.Length1
        ensures m[r][c] == z[r][c]
      {
        PartialIsDot(a, b, r, c, a.Length0);
      }
    }
  }
}
