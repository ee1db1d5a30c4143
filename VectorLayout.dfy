/** Derived MPI datatypes built with MPI_TYPE_VECTOR (section 4.1.2 of the
    MPI 3.1 standard): `count` blocks of `blockLength` consecutive elements,
    the starts of consecutive blocks `stride` elements apart. Buffers are
    modelled as flat sequences of elements, and a row-major matrix as the
    flat sequence of its rows. */
module VectorLayout {
  import Arith

  datatype VectorType = VectorType(count: nat, blockLength: nat, stride: nat)
  {
    /** Number of elements the type selects. */
    function Size(): nat { count * blockLength }

    /** Displacement, from the start of the buffer, of the t-th element the
        type selects (blocks in order, elements in order within a block). */
    function Offset(t: nat): nat
      requires blockLength > 0
    {
      (t / blockLength) * stride + t % blockLength
    }
  }

  /** The type, placed at `start`, lies inside a buffer of `len` elements. */
  predicate Fits(v: VectorType, start: nat, len: nat)
  {
    v.count == 0 || start + (v.count - 1) * v.stride + v.blockLength <= len
  }

  lemma OffsetBound(v: VectorType, t: nat)
    requires v.blockLength > 0 && t < v.Size()
    ensures v.Offset(t) <= (v.count - 1) * v.stride + v.blockLength - 1
  {
    var b := t / v.blockLength;
    if b >= v.count {
      Arith.MulMonotone(v.blockLength, v.count, b);
      assert false;
    }
    Arith.MulMonotone(v.stride, b, v.count - 1);
  }

  /** The elements a send with type `v` from position `start` transmits. */
  function Gather(buf: seq<real>, start: nat, v: VectorType): (msg: seq<real>)
    requires v.blockLength > 0 && Fits(v, start, |buf|)
    ensures |msg| == v.Size()
  {
    seq(v.Size(), t requires 0 <= t < v.Size() => OffsetBound(v, t); buf[start + v.Offset(t)])
  }

  /** Row-major storage of a rows-by-cols matrix. */
  function Flatten(m: seq<seq<real>>, cols: nat): (buf: seq<real>)
    requires cols > 0
    requires forall i :: 0 <= i < |m| ==> |m[i]| == cols
    ensures |buf| == |m| * cols
  {
    seq(|m| * cols, t requires 0 <= t < |m| * cols =>
      FlatRow(|m|, cols, t); m[t / cols][t % cols])
  }

  lemma FlatRow(rows: nat, cols: nat, t: nat)
    requires cols > 0 && t < rows * cols
    ensures t / cols < rows
  {
    if t / cols >= rows {
      Arith.MulMonotone(cols, rows, t / cols);
      assert false;
    }
  }

  lemma {:induction false} FlatIndex(rows: nat, cols: nat, i: nat, j: nat)
    requires j < cols && i < rows
    ensures i * cols + j < rows * cols
    ensures (i * cols + j) / cols == i && (i * cols + j) % cols == j
  {
    Arith.DivModUnique(i * cols + j, cols, i, j);
    Arith.MulMonotone(cols, i + 1, rows);
  }

  /** The column type of a tile with `rows` rows and `cols` columns:
      one element per interior row, consecutive elements one row apart. */
  function ColumnType(rows: nat, cols: nat): VectorType
    requires rows >= 2
  {
    VectorType(rows - 2, 1, cols)
  }

  /** Sent from the element at (1, c), the column type carries exactly the
      interior part of column c, top to bottom. */
  lemma {:induction false} ColumnTypeSelectsColumn(m: seq<seq<real>>, cols: nat, c: nat)
    requires 2 <= |m| && c < cols
    requires forall i :: 0 <= i < |m| ==> |m[i]| == cols
    ensures Fits(ColumnType(|m|, cols), cols + c, |m| * cols)
    ensures Gather(Flatten(m, cols), cols + c, ColumnType(|m|, cols))
            == seq(|m| - 2, k requires 0 <= k < |m| - 2 => m[1 + k][c])
  {
    ColumnTypeFits(|m|, cols, c);
    ColumnElements(m, cols, c);
    GatherElements(Flatten(m, cols), cols + c, ColumnType(|m|, cols),
                   seq(|m| - 2, k requires 0 <= k < |m| - 2 => m[1 + k][c]));
  }

  /** A gathered message is determined element by element. */
  lemma {:induction false} GatherElements(buf: seq<real>, start: nat, v: VectorType, s: seq<real>)
    requires v.blockLength > 0 && Fits(v, start, |buf|) && |s| == v.Size()
    requires forall t :: 0 <= t < |s| ==> start + v.Offset(t) < |buf| && buf[start + v.Offset(t)] == s[t]
    ensures Gather(buf, start, v) == s
  {
  }

  lemma {:induction false} ColumnElements(m: seq<seq<real>>, cols: nat, c: nat)
    requires 2 <= |m| && c < cols
    requires forall i :: 0 <= i < |m| ==> |m[i]| == cols
    ensures forall t :: 0 <= t < |m| - 2 ==>
      cols + c + ColumnType(|m|, cols).Offset(t) < |m| * cols &&
      Flatten(m, cols)[cols + c + ColumnType(|m|, cols).Offset(t)] == m[1 + t][c]
  {
    forall t | 0 <= t < |m| - 2
      ensures cols + c + ColumnType(|m|, cols).Offset(t) < |m| * cols
      ensures Flatten(m, cols)[cols + c + ColumnType(|m|, cols).Offset(t)] == m[1 + t][c]
    {
      ColumnElement(m, cols, c, t);
    }
  }

  lemma {:induction false} ColumnTypeFits(rows: nat, cols: nat, c: nat)
    requires 2 <= rows && c < cols
    ensures Fits(ColumnType(rows, cols), cols + c, rows * cols)
  {
    if rows > 2 {
      FlatIndex(rows, cols, rows - 2, c);
      assert cols + (rows - 3) * cols == (rows - 2) * cols;
    }
  }

  /** Element t of the column message is m[1 + t][c]. */
  lemma {:induction false} ColumnElement(m: seq<seq<real>>, cols: nat, c: nat, t: nat)
    requires 2 <= |m| && c < cols && t < |m| - 2
    requires forall i :: 0 <= i < |m| ==> |m[i]| == cols
    ensures cols + c + ColumnType(|m|, cols).Offset(t) < |m| * cols
    ensures Flatten(m, cols)[cols + c + ColumnType(|m|, cols).Offset(t)] == m[1 + t][c]
  {
    assert ColumnType(|m|, cols).Offset(t) == t * cols;
    assert cols + c + t * cols == (1 + t) * cols + c;
    FlatIndex(|m|, cols, 1 + t, c);
  }

  /** A contiguous run of n elements of the element type. */
  function Contiguous(n: nat): VectorType
  {
    VectorType(n, 1, 1)
  }

  /** Sent from the element at (r, 1) with count cols-2 of the element
      type, a row message carries exactly the interior part of row r. */
  lemma {:induction false} RowRunSelectsRow(m: seq<seq<real>>, cols: nat, r: nat)
    requires r < |m| && 2 <= cols
    requires forall i :: 0 <= i < |m| ==> |m[i]| == cols
    ensures Fits(Contiguous(cols - 2), r * cols + 1, |m| * cols)
    ensures Gather(Flatten(m, cols), r * cols + 1, Contiguous(cols - 2)) == m[r][1 .. cols - 1]
  {
    var v := Contiguous(cols - 2);
    var buf := Flatten(m, cols);
    FlatIndex(|m|, cols, r, cols - 1);
    forall t | 0 <= t < v.Size()
      ensures buf[r * cols + 1 + v.Offset(t)] == m[r][1 + t]
    {
      assert v.Offset(t) == t;
      FlatIndex(|m|, cols, r, 1 + t);
    }
  }
}
