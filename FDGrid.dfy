/** One worker's tile of the finite-difference grid (FDGridSegment): the
    block of the N-by-N domain it owns plus a one-cell halo on every side,
    stored row-major in a (rows x cols) matrix, with local cell (i, j)
    standing for absolute point (i + row0 - 1, j + col0 - 1). */
module FDGrid {
  import opened Failures
  import Arith
  import PG = ProcessorGrid
  import Partition
  import VL = VectorLayout

  /** The payload's update rule for a cell, given the current values of the
      cell and of its four neighbours: (centre, up, down, left, right). */
  type Stencil = (real, real, real, real, real) -> real

  function Abs(x: real): real
  {
    if x < 0.0 then -x else x
  }

  ghost predicate IsGrid(m: seq<seq<real>>, rows: int, cols: int)
  {
    |m| == rows && forall i :: 0 <= i < rows ==> |m[i]| == cols
  }

  predicate Interior(rows: int, cols: int, i: int, j: int)
  {
    1 <= i < rows - 1 && 1 <= j < cols - 1
  }

  /** `m` is what the sweep of execute leaves when it starts from `m0`:
      interior cells are visited in row-major order and each new value is
      stored at once, so a cell sees the new values of its upper and left
      neighbours and the old values of its lower and right ones; no other
      cell changes. */
  ghost predicate RowMajorSweep(m0: seq<seq<real>>, m: seq<seq<real>>, rows: int, cols: int, stencil: Stencil)
  {
    && IsGrid(m0, rows, cols) && IsGrid(m, rows, cols)
    && (forall i, j :: 0 <= i < rows && 0 <= j < cols && !Interior(rows, cols, i, j) ==> KeptCell(m0, m, i, j))
    && (forall i, j :: Interior(rows, cols, i, j) ==> SweptCell(m0, m, i, j, stencil))
  }

  /** Cell (i, j) is the same in `m0` and `m`. */
  ghost predicate KeptCell(m0: seq<seq<real>>, m: seq<seq<real>>, i: int, j: int)
    requires 0 <= i < |m0| && 0 <= i < |m| && 0 <= j < |m0[i]| && 0 <= j < |m[i]|
  {
    m[i][j] == m0[i][j]
  }

  /** Cell (i, j) of `m` is the stencil applied to the new values above and
      to the left and the old values at, below and to the right of it. */
  ghost predicate SweptCell(m0: seq<seq<real>>, m: seq<seq<real>>, i: int, j: int, stencil: Stencil)
    requires 1 <= i < |m0| - 1 && |m| == |m0|
    requires 1 <= j < |m0[i]| - 1 && |m0[i + 1]| == |m0[i]| && |m[i]| == |m0[i]| && |m[i - 1]| == |m0[i]|
  {
    m[i][j] == stencil(m0[i][j], m[i - 1][j], m0[i + 1][j], m[i][j - 1], m0[i][j + 1])
  }

  /** The sweep relation is a function of its start: whatever two tiles
      the row-major sweep from the same start can leave are the same. */
  lemma {:induction false} SweepDeterministic(m0: seq<seq<real>>, m: seq<seq<real>>, m': seq<seq<real>>,
                                             rows: int, cols: int, stencil: Stencil)
    requires RowMajorSweep(m0, m, rows, cols, stencil) && RowMajorSweep(m0, m', rows, cols, stencil)
    ensures m == m'
  {
    forall i | 0 <= i < rows
      ensures m[i] == m'[i]
    {
      forall j | 0 <= j < cols
        ensures m[i][j] == m'[i][j]
      {
        SweptCellDetermined(m0, m, m', rows, cols, stencil, i, j);
      }
    }
  }

  lemma {:induction false} SweptCellDetermined(m0: seq<seq<real>>, m: seq<seq<real>>, m': seq<seq<real>>,
                                              rows: int, cols: int, stencil: Stencil, i: int, j: int)
    requires RowMajorSweep(m0, m, rows, cols, stencil) && RowMajorSweep(m0, m', rows, cols, stencil)
    requires 0 <= i < rows && 0 <= j < cols
    ensures m[i][j] == m'[i][j]
    decreases i, j
  {
    if Interior(rows, cols, i, j) {
      SweptCellDetermined(m0, m, m', rows, cols, stencil, i - 1, j);
      SweptCellDetermined(m0, m, m', rows, cols, stencil, i, j - 1);
      assert SweptCell(m0, m, i, j, stencil);
      assert SweptCell(m0, m', i, j, stencil);
      assert m[i][j] == stencil(m0[i][j], m[i - 1][j], m0[i + 1][j], m[i][j - 1], m0[i][j + 1]);
      assert m'[i][j] == stencil(m0[i][j], m'[i - 1][j], m0[i + 1][j], m'[i][j - 1], m0[i][j + 1]);
      return;
    }
    assert KeptCell(m0, m, i, j) && KeptCell(m0, m', i, j);
  }

  /** Every interior update changed its cell by at most epsilon. */
  ghost predicate SweepWithin(m0: seq<seq<real>>, m: seq<seq<real>>, rows: int, cols: int, epsilon: real)
  {
    && IsGrid(m0, rows, cols) && IsGrid(m, rows, cols)
    && forall i, j :: Interior(rows, cols, i, j) ==> Abs(m0[i][j] - m[i][j]) <= epsilon
  }

  /** Cell (i, j) of tile `m` after the four halo receives of one cycle
      (from down into the last row, from up into row 0, from right into the
      last column, from left into column 0). None stands for an
      MPI_PROC_NULL partner, whose receive leaves the buffer untouched. */
  function HaloCell(m: seq<seq<real>>, i: int, j: int,
                    up: Option<seq<real>>, down: Option<seq<real>>,
                    left: Option<seq<real>>, right: Option<seq<real>>): real
    requires 0 <= i < |m| && 0 <= j < |m[i]|
  {
    var rows, cols := |m|, |m[i]|;
    if i == rows - 1 && 1 <= j <= cols - 2 && down.Some? && j - 1 < |down.value| then down.value[j - 1]
    else if i == 0 && 1 <= j <= cols - 2 && up.Some? && j - 1 < |up.value| then up.value[j - 1]
    else if j == cols - 1 && 1 <= i <= rows - 2 && right.Some? && i - 1 < |right.value| then right.value[i - 1]
    else if j == 0 && 1 <= i <= rows - 2 && left.Some? && i - 1 < |left.value| then left.value[i - 1]
    else m[i][j]
  }

  /** A halo cell that no receive ever writes: a corner, or a cell on a
      side whose neighbour is MPI_PROC_NULL. */
  predicate FixedHalo(q: nat, rank: nat, rows: int, cols: int, i: int, j: int)
    requires q > 0
  {
    && 0 <= i < rows && 0 <= j < cols && !Interior(rows, cols, i, j)
    && (|| ((i == 0 || i == rows - 1) && (j == 0 || j == cols - 1))
        || (i == 0 && PG.UpPid(q, rank).ProcNull?)
        || (i == rows - 1 && PG.DownPid(q, rank).ProcNull?)
        || (j == 0 && PG.LeftPid(q, rank).ProcNull?)
        || (j == cols - 1 && PG.RightPid(q, rank).ProcNull?))
  }

  class Segment {
    const n: nat
    const q: nat
    const rank: nat
    const row0: int
    const row1: int
    const col0: int
    const col1: int
    const matrix: array2<real>
    /** The strided type of one halo column (mColumnVectorType). */
    const columnType: VL.VectorType

    /** The geometry the constructor computes, which never changes. */
    ghost predicate Valid()
    {
      && q > 0 && rank < q * q
      && row0 == Partition.TileLo(n, q, PG.Row(q, rank))
      && row1 == Partition.TileHi(n, q, PG.Row(q, rank))
      && col0 == Partition.TileLo(n, q, PG.Column(q, rank))
      && col1 == Partition.TileHi(n, q, PG.Column(q, rank))
      && row0 <= row1 + 1 && col0 <= col1 + 1
      && matrix.Length0 == row1 - row0 + 3
      && matrix.Length1 == col1 - col0 + 3
      && columnType == VL.ColumnType(matrix.Length0, matrix.Length1)
    }

    /** FDGridSegment(N, mpi) for rank `rank` of `workers` processes, once
        the worker count has passed the perfect-square check (see Create). */
    constructor (n: nat, workers: nat, rank: nat)
      requires Partition.GridSide(workers).Ok? && rank < workers
      ensures Valid() && fresh(matrix)
      ensures this.n == n && this.rank == rank
      ensures q * q == workers
    {
      var q := Partition.IntSqrt(workers);
      assert q > 0;
      PG.InGridIffRow(q, rank);
      Partition.TilesSpanDomain(n, q, PG.Row(q, rank));
      Partition.TilesSpanDomain(n, q, PG.Column(q, rank));
      var r0 := Partition.TileLo(n, q, PG.Row(q, rank));
      var r1 := Partition.TileHi(n, q, PG.Row(q, rank));
      var c0 := Partition.TileLo(n, q, PG.Column(q, rank));
      var c1 := Partition.TileHi(n, q, PG.Column(q, rank));
      this.n, this.q, this.rank := n, q, rank;
      row0, row1, col0, col1 := r0, r1, c0, c1;
      matrix := new real[r1 - r0 + 1 + 2, c1 - c0 + 1 + 2];
      columnType := VL.VectorType(r1 - r0 + 1, 1, c1 - c0 + 1 + 2);
    }

    /** Construction for rank `rank` of `workers`: fails with NotSquareGrid
        unless the worker count is a perfect square. */
    static method Create(n: nat, workers: nat, rank: nat) returns (r: Result<Segment>)
      requires rank < workers
      ensures r.Ok? <==> Partition.GridSide(workers).Ok?
      ensures r.Err? ==> r.error == NotSquareGrid(workers)
      ensures r.Ok? ==> r.value.Valid() && fresh(r.value.matrix) && r.value.rank == rank
    {
      if Partition.GridSide(workers).Err? {
        return Err(NotSquareGrid(workers));
      }
      var s := new Segment(n, workers, rank);
      return Ok(s);
    }

    /** The tile's cells as a value. */
    ghost function Cells(): (m: seq<seq<real>>)
      reads matrix
      ensures IsGrid(m, matrix.Length0, matrix.Length1)
      ensures forall i, j :: 0 <= i < matrix.Length0 && 0 <= j < matrix.Length1 ==> m[i][j] == matrix[i, j]
    {
      seq(matrix.Length0, i requires 0 <= i < matrix.Length0 reads matrix =>
        seq(matrix.Length1, j requires 0 <= j < matrix.Length1 reads matrix => matrix[i, j]))
    }

    /** value(r, c): the value of absolute point (r, c), which must lie in
        the tile or its halo; any other point is an out-of-range access. */
    function Value(r: int, c: int): (v: Result<real>)
      requires Valid()
      reads matrix
      ensures v.Ok? <==> row0 - 1 <= r <= row1 + 1 && col0 - 1 <= c <= col1 + 1
      ensures v.Ok? ==> 0 <= r - row0 + 1 < matrix.Length0 && 0 <= c - col0 + 1 < matrix.Length1
                        && v.value == matrix[r - row0 + 1, c - col0 + 1]
      ensures v.Err? ==> v.error == OutOfRange(r, c)
    {
      if row0 - 1 <= r <= row1 + 1 && col0 - 1 <= c <= col1 + 1 then
        Ok(matrix[r - row0 + 1, c - col0 + 1])
      else
        Err(OutOfRange(r, c))
    }

    /** init: every cell, halo included, gets initPoint of its absolute
        coordinates. */
    method Init(initPoint: (int, int) -> real)
      requires Valid()
      modifies matrix
      ensures forall i, j :: 0 <= i < matrix.Length0 && 0 <= j < matrix.Length1 ==>
                matrix[i, j] == initPoint(i + row0 - 1, j + col0 - 1)
    {
      var i := 0;
      while i < matrix.Length0
        invariant 0 <= i <= matrix.Length0
        invariant forall a, b :: 0 <= a < i && 0 <= b < matrix.Length1 ==>
                    matrix[a, b] == initPoint(a + row0 - 1, b + col0 - 1)
      {
        var j := 0;
        while j < matrix.Length1
          invariant 0 <= j <= matrix.Length1
          invariant forall a, b :: 0 <= a < i && 0 <= b < matrix.Length1 ==>
                      matrix[a, b] == initPoint(a + row0 - 1, b + col0 - 1)
          invariant forall b :: 0 <= b < j ==> matrix[i, b] == initPoint(i + row0 - 1, b + col0 - 1)
        {
          matrix[i, j] := initPoint(i + row0 - 1, j + col0 - 1);
          j := j + 1;
        }
        i := i + 1;
      }
    }

    /** The update part of one cycle of execute: sweeps the interior in
        row-major order, storing each new value at once, and reports
        whether every change stayed within epsilon. */
    method Sweep(stencil: Stencil, epsilon: real) returns (mayTerminate: bool)
      requires Valid()
      modifies matrix
      ensures RowMajorSweep(old(Cells()), Cells(), matrix.Length0, matrix.Length1, stencil)
      ensures mayTerminate <==> SweepWithin(old(Cells()), Cells(), matrix.Length0, matrix.Length1, epsilon)
    {
      ghost var m0 := Cells();
      mayTerminate := true;
      var r := 1;
      while r < matrix.Length0 - 1
        invariant SweptAbove(m0, r, stencil, epsilon, mayTerminate)
        decreases matrix.Length0 - r
      {
        mayTerminate := SweepNextRow(r, stencil, epsilon, m0, mayTerminate);
        r := r + 1;
      }
      SweptAll(m0, r, stencil, epsilon, mayTerminate);
    }

    /** Interior cell (i, j) holds the stencil of its old value, its new
        upper and left neighbours and its old lower and right ones. */
    ghost predicate StencilAt(m0: seq<seq<real>>, i: int, j: int, stencil: Stencil)
      reads matrix
      requires IsGrid(m0, matrix.Length0, matrix.Length1) && Interior(matrix.Length0, matrix.Length1, i, j)
    {
      matrix[i, j] == stencil(m0[i][j], matrix[i - 1, j], m0[i + 1][j], matrix[i, j - 1], m0[i][j + 1])
    }

    /** Rows 1 .. r-1 of the tile are swept from `m0`, the others are as in
        `m0`, and `within` says whether every swept change stayed within
        epsilon. */
    ghost predicate SweptAbove(m0: seq<seq<real>>, r: int, stencil: Stencil, epsilon: real, within: bool)
      reads matrix
    {
      var rows, cols := matrix.Length0, matrix.Length1;
      && IsGrid(m0, rows, cols) && 1 <= r <= rows - 1
      && (forall i, j :: r <= i < rows && 0 <= j < cols ==> matrix[i, j] == m0[i][j])
      && (forall i, j :: 0 <= i < r && 0 <= j < cols && !Interior(rows, cols, i, j) ==> matrix[i, j] == m0[i][j])
      && (forall i, j :: 1 <= i < r && 1 <= j < cols - 1 ==> StencilAt(m0, i, j, stencil))
      && (within <==> forall i, j :: 1 <= i < r && 1 <= j < cols - 1 ==> Abs(m0[i][j] - matrix[i, j]) <= epsilon)
    }

    /** One more row of the sweep. */
    method SweepNextRow(r: int, stencil: Stencil, epsilon: real, ghost m0: seq<seq<real>>, within: bool)
      returns (within': bool)
      requires Valid() && r < matrix.Length0 - 1 && SweptAbove(m0, r, stencil, epsilon, within)
      modifies matrix
      ensures SweptAbove(m0, r + 1, stencil, epsilon, within')
    {
      var rowWithin := SweepRow(r, stencil, epsilon, m0);
      within' := within && rowWithin;
      forall i, j | 1 <= i < r && 1 <= j < matrix.Length1 - 1
        ensures StencilAt(m0, i, j, stencil)
      {
        assert old(StencilAt(m0, i, j, stencil));
      }
    }

    /** With every interior row swept, the tile is the row-major sweep of
        `m0`. */
    lemma SweptAll(m0: seq<seq<real>>, r: int, stencil: Stencil, epsilon: real, within: bool)
      requires Valid() && SweptAbove(m0, r, stencil, epsilon, within) && r >= matrix.Length0 - 1
      ensures RowMajorSweep(m0, Cells(), matrix.Length0, matrix.Length1, stencil)
      ensures within <==> SweepWithin(m0, Cells(), matrix.Length0, matrix.Length1, epsilon)
    {
      var m := Cells();
      forall i, j | Interior(matrix.Length0, matrix.Length1, i, j)
        ensures SweptCell(m0, m, i, j, stencil)
      {
        assert StencilAt(m0, i, j, stencil);
      }
    }

    /** Row r of the sweep. Rows below r are still as in `m0`. */
    method SweepRow(r: int, stencil: Stencil, epsilon: real, ghost m0: seq<seq<real>>) returns (within: bool)
      requires Valid() && 1 <= r < matrix.Length0 - 1
      requires IsGrid(m0, matrix.Length0, matrix.Length1)
      requires forall i, j :: r <= i < matrix.Length0 && 0 <= j < matrix.Length1 ==> matrix[i, j] == m0[i][j]
      modifies matrix
      ensures forall i, j :: 0 <= i < matrix.Length0 && 0 <= j < matrix.Length1 && (i != r || j == 0 || j == matrix.Length1 - 1) ==>
                matrix[i, j] == old(matrix[i, j])
      ensures forall j :: 1 <= j < matrix.Length1 - 1 ==> StencilAt(m0, r, j, stencil)
      ensures within <==> forall j :: 1 <= j < matrix.Length1 - 1 ==> Abs(m0[r][j] - matrix[r, j]) <= epsilon
    {
      var cols := matrix.Length1;
      within := true;
      var c := 1;
      while c < cols - 1
        invariant 1 <= c <= cols - 1
        invariant forall i, j :: 0 <= i < matrix.Length0 && 0 <= j < cols && (i != r || j == 0 || j >= c) ==>
                    matrix[i, j] == old(matrix[i, j])
        invariant forall j :: 1 <= j < c ==> StencilAt(m0, r, j, stencil)
        invariant within <==> forall j :: 1 <= j < c ==> Abs(m0[r][j] - matrix[r, j]) <= epsilon
      {
        var newValue := stencil(matrix[r, c], matrix[r - 1, c], matrix[r + 1, c], matrix[r, c - 1], matrix[r, c + 1]);
        if Abs(matrix[r, c] - newValue) > epsilon {
          within := false;
        }
        label before:
        matrix[r, c] := newValue;
        forall j | 1 <= j < c
          ensures StencilAt(m0, r, j, stencil)
        {
          assert old@before(StencilAt(m0, r, j, stencil));
        }
        c := c + 1;
      }
    }

    /** The cells (r, 1) .. (r, cols-2) that a row message carries. */
    function RowOut(r: nat): (msg: seq<real>)
      requires Valid() && r < matrix.Length0
      reads matrix
      ensures msg == Cells()[r][1 .. matrix.Length1 - 1]
    {
      seq(matrix.Length1 - 2, k requires 0 <= k < matrix.Length1 - 2 reads matrix => matrix[r, 1 + k])
    }

    /** The cells (1, c) .. (rows-2, c) that the column type carries. */
    function ColumnOut(c: nat): (msg: seq<real>)
      requires Valid() && c < matrix.Length1
      reads matrix
      ensures |msg| == matrix.Length0 - 2
      ensures forall k :: 0 <= k < |msg| ==> msg[k] == Cells()[1 + k][c]
    {
      seq(matrix.Length0 - 2, k requires 0 <= k < matrix.Length0 - 2 reads matrix => matrix[1 + k, c])
    }

    /** Receiving a row message into row r: cells (r, 1) .. (r, cols-2). */
    method ReceiveRow(r: nat, msg: seq<real>)
      requires Valid() && r < matrix.Length0 && |msg| == matrix.Length1 - 2
      modifies matrix
      ensures forall i, j :: 0 <= i < matrix.Length0 && 0 <= j < matrix.Length1 ==>
                matrix[i, j] == if i == r && 1 <= j <= matrix.Length1 - 2 then msg[j - 1] else old(matrix[i, j])
    {
      var k := 0;
      while k < |msg|
        invariant 0 <= k <= |msg|
        invariant forall i, j :: 0 <= i < matrix.Length0 && 0 <= j < matrix.Length1 ==>
                    matrix[i, j] == if i == r && 1 <= j <= k then msg[j - 1] else old(matrix[i, j])
      {
        matrix[r, 1 + k] := msg[k];
        k := k + 1;
      }
    }

    /** Receiving with the column type into column c: cells (1, c) ..
        (rows-2, c). */
    method ReceiveColumn(c: nat, msg: seq<real>)
      requires Valid() && c < matrix.Length1 && |msg| == columnType.Size()
      modifies matrix
      ensures forall i, j :: 0 <= i < matrix.Length0 && 0 <= j < matrix.Length1 ==>
                matrix[i, j] == if j == c && 1 <= i <= matrix.Length0 - 2 then msg[i - 1] else old(matrix[i, j])
    {
      var k := 0;
      while k < |msg|
        invariant 0 <= k <= |msg|
        invariant forall i, j :: 0 <= i < matrix.Length0 && 0 <= j < matrix.Length1 ==>
                    matrix[i, j] == if j == c && 1 <= i <= k then msg[i - 1] else old(matrix[i, j])
      {
        matrix[1 + k, c] := msg[k];
        k := k + 1;
      }
    }

    /** The four receives of one halo exchange. */
    method ReceiveHalos(up: Option<seq<real>>, down: Option<seq<real>>,
                        left: Option<seq<real>>, right: Option<seq<real>>)
      requires Valid()
      requires up.Some? ==> |up.value| == matrix.Length1 - 2
      requires down.Some? ==> |down.value| == matrix.Length1 - 2
      requires left.Some? ==> |left.value| == matrix.Length0 - 2
      requires right.Some? ==> |right.value| == matrix.Length0 - 2
      modifies matrix
      ensures forall i, j :: 0 <= i < matrix.Length0 && 0 <= j < matrix.Length1 ==>
                matrix[i, j] == HaloCell(old(Cells()), i, j, up, down, left, right)
    {
      ghost var m0 := Cells();
      var rows, cols := matrix.Length0, matrix.Length1;
      if down.Some? { ReceiveRow(rows - 1, down.value); }
      if up.Some? { ReceiveRow(0, up.value); }
      if right.Some? { ReceiveColumn(cols - 1, right.value); }
      if left.Some? { ReceiveColumn(0, left.value); }
      forall i, j | 0 <= i < rows && 0 <= j < cols
        ensures matrix[i, j] == HaloCell(m0, i, j, up, down, left, right)
      {
      }
    }
  }

  /** With at least as many cells as grid rows (N >= q), every tile has a
      non-empty interior. */
  lemma {:induction false} TileNonEmpty(s: Segment)
    requires s.Valid() && s.q <= s.n
    ensures s.matrix.Length0 >= 3 && s.matrix.Length1 >= 3
  {
    Partition.ExtentBalanced(s.n, s.q, PG.Row(s.q, s.rank));
    Partition.ExtentBalanced(s.n, s.q, PG.Column(s.q, s.rank));
    Arith.DivMonotone(s.q, s.n, s.q);
    Arith.DivModUnique(s.q, s.q, 1, 0);
  }
}
