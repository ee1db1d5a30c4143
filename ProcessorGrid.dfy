/** Processor topology of the finite-difference solver: the ranks
    0 .. q*q-1 laid out row by row on a q-by-q grid, and the rank of the
    neighbour on each side, or MPI_PROC_NULL at the edge of the grid. */
module ProcessorGrid {
  import Arith

  /** A send/receive partner: a rank, or MPI_PROC_NULL ("no neighbour"). */
  datatype Peer = ProcNull | Rank(id: nat)

  /** The grid row of a rank: the band of q consecutive ranks holding it. */
  function Row(q: nat, id: nat): (r: nat)
    requires q > 0
    ensures q * r <= id < q * r + q
  {
    id / q
  }

  /** The grid column of a rank: its offset within its row's band. */
  function Column(q: nat, id: nat): (c: nat)
    requires q > 0
    ensures c < q && q * Row(q, id) + c == id
  {
    id % q
  }

  function LeftPid(q: nat, id: nat): Peer
    requires q > 0
  {
    if id % q > 0 then Rank(id - 1) else ProcNull
  }

  function RightPid(q: nat, id: nat): Peer
    requires q > 0
  {
    if id % q < q - 1 then Rank(id + 1) else ProcNull
  }

  function UpPid(q: nat, id: nat): Peer
    requires q > 0
  {
    if id / q > 0 then Rank(id - q) else ProcNull
  }

  function DownPid(q: nat, id: nat): Peer
    requires q > 0
  {
    if id / q < q - 1 then Rank(id + q) else ProcNull
  }

  /** The rank at grid position (row, column): the inverse of Row/Column. */
  function RankAt(q: nat, row: nat, column: nat): (id: nat)
    requires column < q
    ensures Row(q, id) == row && Column(q, id) == column
  {
    Arith.DivModUnique(q * row + column, q, row, column);
    q * row + column
  }

  lemma RowColumnDecompose(q: nat, id: nat)
    requires q > 0
    ensures id == q * Row(q, id) + Column(q, id)
  {
  }

  /** A rank lies in the grid iff its row does. */
  lemma {:induction false} InGridIffRow(q: nat, id: nat)
    requires q > 0
    ensures id < q * q <==> Row(q, id) < q
  {
    var r, c := id / q, id % q;
    if r < q {
      Arith.MulMonotone(q, r, q - 1);
      assert q * (q - 1) + q == q * q;
    } else {
      Arith.MulMonotone(q, q, r);
    }
  }

  /** Left and right neighbours are the grid cells beside `id` in its row;
      the neighbour is MPI_PROC_NULL exactly when there is no such cell. */
  lemma {:induction false} HorizontalNeighbours(q: nat, id: nat)
    requires q > 0
    ensures LeftPid(q, id).Rank? <==> Column(q, id) > 0
    ensures RightPid(q, id).Rank? <==> Column(q, id) < q - 1
    ensures LeftPid(q, id).Rank? ==>
              Row(q, LeftPid(q, id).id) == Row(q, id) &&
              Column(q, LeftPid(q, id).id) == Column(q, id) - 1
    ensures RightPid(q, id).Rank? ==>
              Row(q, RightPid(q, id).id) == Row(q, id) &&
              Column(q, RightPid(q, id).id) == Column(q, id) + 1
  {
    var r, c := id / q, id % q;
    if c > 0 {
      Arith.DivModUnique(id - 1, q, r, c - 1);
    }
    if c < q - 1 {
      Arith.DivModUnique(id + 1, q, r, c + 1);
    }
  }

  /** Up and down neighbours are the grid cells above and below `id` in its
      column; the neighbour is MPI_PROC_NULL exactly when there is none. */
  lemma {:induction false} VerticalNeighbours(q: nat, id: nat)
    requires q > 0
    ensures UpPid(q, id).Rank? <==> Row(q, id) > 0
    ensures DownPid(q, id).Rank? <==> Row(q, id) < q - 1
    ensures UpPid(q, id).Rank? ==>
              Column(q, UpPid(q, id).id) == Column(q, id) &&
              Row(q, UpPid(q, id).id) == Row(q, id) - 1
    ensures DownPid(q, id).Rank? ==>
              Column(q, DownPid(q, id).id) == Column(q, id) &&
              Row(q, DownPid(q, id).id) == Row(q, id) + 1
  {
    var r, c := id / q, id % q;
    if r > 0 {
      Arith.DivModUnique(id - q, q, r - 1, c);
    }
    if r < q - 1 {
      Arith.DivModUnique(id + q, q, r + 1, c);
    }
  }

  /** Every neighbour of a rank in the grid is itself in the grid. */
  lemma {:induction false} NeighboursInGrid(q: nat, id: nat)
    requires q > 0 && id < q * q
    ensures LeftPid(q, id).Rank? ==> LeftPid(q, id).id < q * q
    ensures RightPid(q, id).Rank? ==> RightPid(q, id).id < q * q
    ensures UpPid(q, id).Rank? ==> UpPid(q, id).id < q * q
    ensures DownPid(q, id).Rank? ==> DownPid(q, id).id < q * q
  {
    InGridIffRow(q, id);
    HorizontalNeighbours(q, id);
    VerticalNeighbours(q, id);
    if LeftPid(q, id).Rank? { InGridIffRow(q, LeftPid(q, id).id); }
    if RightPid(q, id).Rank? { InGridIffRow(q, RightPid(q, id).id); }
    if UpPid(q, id).Rank? { InGridIffRow(q, UpPid(q, id).id); }
    if DownPid(q, id).Rank? { InGridIffRow(q, DownPid(q, id).id); }
  }

  /** Neighbour relations are mutual: the left neighbour of my right
      neighbour is me, and likewise for every other pair of directions. */
  lemma {:induction false} NeighboursMutual(q: nat, id: nat)
    requires q > 0 && id < q * q
    ensures RightPid(q, id).Rank? ==> LeftPid(q, RightPid(q, id).id) == Rank(id)
    ensures LeftPid(q, id).Rank? ==> RightPid(q, LeftPid(q, id).id) == Rank(id)
    ensures DownPid(q, id).Rank? ==> UpPid(q, DownPid(q, id).id) == Rank(id)
    ensures UpPid(q, id).Rank? ==> DownPid(q, UpPid(q, id).id) == Rank(id)
  {
    HorizontalNeighbours(q, id);
    VerticalNeighbours(q, id);
    InGridIffRow(q, id);
  }

  /** Conversely, two ranks side by side in the grid are each other's
      right and left neighbours, and two stacked ranks are each other's
      down and up neighbours. */
  lemma {:induction false} AdjacentAreNeighbours(q: nat, a: nat, b: nat)
    requires q > 0 && b < q * q
    ensures Row(q, a) == Row(q, b) && Column(q, b) == Column(q, a) + 1 ==>
              RightPid(q, a) == Rank(b) && LeftPid(q, b) == Rank(a)
    ensures Column(q, a) == Column(q, b) && Row(q, b) == Row(q, a) + 1 ==>
              DownPid(q, a) == Rank(b) && UpPid(q, b) == Rank(a)
  {
    RowColumnDecompose(q, a);
    RowColumnDecompose(q, b);
    if Column(q, a) == Column(q, b) && Row(q, b) == Row(q, a) + 1 {
      assert q * Row(q, b) == q * Row(q, a) + q;
      InGridIffRow(q, b);
    }
  }

  /** On a single processor (q = 1) every neighbour is MPI_PROC_NULL. */
  lemma SingleProcessorHasNoNeighbours(id: nat)
    requires id < 1
    ensures LeftPid(1, id) == ProcNull && RightPid(1, id) == ProcNull
    ensures UpPid(1, id) == ProcNull && DownPid(1, id) == ProcNull
  {
  }
}
