/** FDGridSegment::execute run by every rank of the q-by-q grid, simulated
    sequentially: in each cycle every rank sweeps its tile, then all ranks
    exchange halos with their four neighbours, and on every tenth cycle
    the ranks' termination flags are AND-reduced. A rank's sweep reads only
    its own tile, every message carries interior cells only and every
    receive writes halo cells only, so running the ranks one after another
    gives the same tiles as the concurrent processes. */
module FDEngine {
  import opened Failures
  import PG = ProcessorGrid
  import Partition
  import VL = VectorLayout
  import opened FDGrid

  /** The segments of all q*q ranks, rank p at index p, each with its own
      matrix. */
  ghost predicate WorldValid(world: seq<Segment>, n: nat, q: nat)
  {
    && q > 0 && |world| == q * q
    && (forall p :: 0 <= p < |world| ==>
          world[p].Valid() && world[p].n == n && world[p].q == q && world[p].rank == p)
    && (forall p, p' :: 0 <= p < |world| && 0 <= p' < |world| && p != p' ==>
          world[p].matrix != world[p'].matrix)
  }

  function Matrices(world: seq<Segment>): set<array2<real>>
  {
    set p | 0 <= p < |world| :: world[p].matrix
  }

  ghost function WorldCells(world: seq<Segment>): (w: seq<seq<seq<real>>>)
    reads Matrices(world)
    ensures |w| == |world|
    ensures forall p :: 0 <= p < |world| ==> w[p] == world[p].Cells()
  {
    seq(|world|, p requires 0 <= p < |world| reads Matrices(world) => world[p].Cells())
  }

  /** Every tile of a world snapshot is a grid of at least 2 x 2 cells
      (its halo), possibly with an empty interior. */
  ghost predicate Shaped(w: seq<seq<seq<real>>>)
  {
    forall p :: 0 <= p < |w| ==> |w[p]| >= 2 && IsGrid(w[p], |w[p]|, |w[p][0]|) && |w[p][0]| >= 2
  }

  /** The interior part of row r: what a row message carries. */
  ghost function InteriorRow(m: seq<seq<real>>, r: int): seq<real>
    requires 0 <= r < |m| && |m[r]| >= 2
  {
    m[r][1 .. |m[r]| - 1]
  }

  /** The interior part of column c: what the column type carries. */
  ghost function InteriorColumn(m: seq<seq<real>>, c: int): (col: seq<real>)
    requires |m| >= 2 && 0 <= c
    requires forall i :: 0 <= i < |m| ==> c < |m[i]|
    ensures |col| == |m| - 2
  {
    seq(|m| - 2, k requires 0 <= k < |m| - 2 => m[1 + k][c])
  }

  /** What rank p receives from up: the last interior row of its up
      neighbour, which that rank sends down. */
  ghost function FromUp(w: seq<seq<seq<real>>>, q: nat, p: nat): Option<seq<real>>
    requires q > 0 && Shaped(w)
  {
    match PG.UpPid(q, p)
    case ProcNull => None
    case Rank(u) => if u < |w| then Some(InteriorRow(w[u], |w[u]| - 2)) else None
  }

  /** What rank p receives from down: the first interior row of its down
      neighbour, sent up. */
  ghost function FromDown(w: seq<seq<seq<real>>>, q: nat, p: nat): Option<seq<real>>
    requires q > 0 && Shaped(w)
  {
    match PG.DownPid(q, p)
    case ProcNull => None
    case Rank(d) => if d < |w| then Some(InteriorRow(w[d], 1)) else None
  }

  /** What rank p receives from left: the last interior column of its left
      neighbour, sent right. */
  ghost function FromLeft(w: seq<seq<seq<real>>>, q: nat, p: nat): Option<seq<real>>
    requires q > 0 && Shaped(w)
  {
    match PG.LeftPid(q, p)
    case ProcNull => None
    case Rank(l) => if l < |w| then Some(InteriorColumn(w[l], |w[l][0]| - 2)) else None
  }

  /** What rank p receives from right: the first interior column of its
      right neighbour, sent left. */
  ghost function FromRight(w: seq<seq<seq<real>>>, q: nat, p: nat): Option<seq<real>>
    requires q > 0 && Shaped(w)
  {
    match PG.RightPid(q, p)
    case ProcNull => None
    case Rank(r) => if r < |w| then Some(InteriorColumn(w[r], 1)) else None
  }

  /** Cell (i, j) of rank p's tile after one halo exchange from snapshot w. */
  ghost function ExchangedCell(w: seq<seq<seq<real>>>, q: nat, p: nat, i: int, j: int): real
    requires q > 0 && Shaped(w) && p < |w| && 0 <= i < |w[p]| && 0 <= j < |w[p][i]|
  {
    HaloCell(w[p], i, j, FromUp(w, q, p), FromDown(w, q, p), FromLeft(w, q, p), FromRight(w, q, p))
  }

  /** Tiles in the same grid column have the same number of columns and
      tiles in the same grid row the same number of rows, so every message
      a rank receives is as long as its receive expects. */
  lemma {:induction false} NeighbourShapes(world: seq<Segment>, n: nat, q: nat, p: nat)
    requires WorldValid(world, n, q) && p < |world|
    ensures world[p].matrix.Length0 >= 2 && world[p].matrix.Length1 >= 2
    ensures PG.UpPid(q, p).Rank? ==>
              (PG.UpPid(q, p).id < |world| && world[PG.UpPid(q, p).id].matrix.Length1 == world[p].matrix.Length1)
    ensures PG.DownPid(q, p).Rank? ==>
              (PG.DownPid(q, p).id < |world| && world[PG.DownPid(q, p).id].matrix.Length1 == world[p].matrix.Length1)
    ensures PG.LeftPid(q, p).Rank? ==>
              (PG.LeftPid(q, p).id < |world| && world[PG.LeftPid(q, p).id].matrix.Length0 == world[p].matrix.Length0)
    ensures PG.RightPid(q, p).Rank? ==>
              (PG.RightPid(q, p).id < |world| && world[PG.RightPid(q, p).id].matrix.Length0 == world[p].matrix.Length0)
  {
    PG.NeighboursInGrid(q, p);
    PG.HorizontalNeighbours(q, p);
    PG.VerticalNeighbours(q, p);
  }

  /** The message rank p receives from up, read from its up neighbour's
      current cells. */
  method OutgoingUp(world: seq<Segment>, n: nat, q: nat, p: nat, ghost w: seq<seq<seq<real>>>)
    returns (msg: Option<seq<real>>)
    requires WorldValid(world, n, q) && p < |world|
    requires w == WorldCells(world) && Shaped(w)
    ensures msg == FromUp(w, q, p)
    ensures msg.Some? ==> |msg.value| == world[p].matrix.Length1 - 2
  {
    NeighbourShapes(world, n, q, p);
    match PG.UpPid(q, p) {
      case Rank(u) =>
        var s := world[u];
        msg := Some(s.RowOut(s.matrix.Length0 - 2));
      case ProcNull =>
        msg := None;
    }
  }

  /** The message rank p receives from down, read from its down
      neighbour's current cells. */
  method OutgoingDown(world: seq<Segment>, n: nat, q: nat, p: nat, ghost w: seq<seq<seq<real>>>)
    returns (msg: Option<seq<real>>)
    requires WorldValid(world, n, q) && p < |world|
    requires w == WorldCells(world) && Shaped(w)
    ensures msg == FromDown(w, q, p)
    ensures msg.Some? ==> |msg.value| == world[p].matrix.Length1 - 2
  {
    NeighbourShapes(world, n, q, p);
    match PG.DownPid(q, p) {
      case Rank(d) =>
        var s := world[d];
        msg := Some(s.RowOut(1));
      case ProcNull =>
        msg := None;
    }
  }

  /** The message rank p receives from left, read with the column type
      from its left neighbour's current cells. */
  method OutgoingLeft(world: seq<Segment>, n: nat, q: nat, p: nat, ghost w: seq<seq<seq<real>>>)
    returns (msg: Option<seq<real>>)
    requires WorldValid(world, n, q) && p < |world|
    requires w == WorldCells(world) && Shaped(w)
    ensures msg == FromLeft(w, q, p)
    ensures msg.Some? ==> |msg.value| == world[p].matrix.Length0 - 2
  {
    NeighbourShapes(world, n, q, p);
    match PG.LeftPid(q, p) {
      case Rank(l) =>
        var s := world[l];
        var col := s.ColumnOut(s.matrix.Length1 - 2);
        assert col == InteriorColumn(w[l], |w[l][0]| - 2);
        msg := Some(col);
      case ProcNull =>
        msg := None;
    }
  }

  /** The message rank p receives from right, read with the column type
      from its right neighbour's current cells. */
  method OutgoingRight(world: seq<Segment>, n: nat, q: nat, p: nat, ghost w: seq<seq<seq<real>>>)
    returns (msg: Option<seq<real>>)
    requires WorldValid(world, n, q) && p < |world|
    requires w == WorldCells(world) && Shaped(w)
    ensures msg == FromRight(w, q, p)
    ensures msg.Some? ==> |msg.value| == world[p].matrix.Length0 - 2
  {
    NeighbourShapes(world, n, q, p);
    match PG.RightPid(q, p) {
      case Rank(r) =>
        var s := world[r];
        var col := s.ColumnOut(1);
        assert col == InteriorColumn(w[r], 1);
        msg := Some(col);
      case ProcNull =>
        msg := None;
    }
  }

  /** Every tile of a valid world, as a snapshot, is at least 2 x 2. */
  lemma {:induction false} WorldShaped(world: seq<Segment>, n: nat, q: nat)
    requires WorldValid(world, n, q)
    ensures Shaped(WorldCells(world))
  {
    var w := WorldCells(world);
    forall p | 0 <= p < |w|
      ensures |w[p]| >= 2 && IsGrid(w[p], |w[p]|, |w[p][0]|) && |w[p][0]| >= 2
    {
      NeighbourShapes(world, n, q, p);
    }
  }

  /** The four messages rank p receives in one exchange. */
  method Incoming(world: seq<Segment>, n: nat, q: nat, p: nat, ghost w: seq<seq<seq<real>>>)
    returns (up: Option<seq<real>>, down: Option<seq<real>>, left: Option<seq<real>>, right: Option<seq<real>>)
    requires WorldValid(world, n, q) && p < |world|
    requires w == WorldCells(world) && Shaped(w)
    ensures up == FromUp(w, q, p) && down == FromDown(w, q, p)
    ensures left == FromLeft(w, q, p) && right == FromRight(w, q, p)
    ensures MessagesFit(world[p], up, down, left, right)
  {
    up := OutgoingUp(world, n, q, p, w);
    down := OutgoingDown(world, n, q, p, w);
    left := OutgoingLeft(world, n, q, p, w);
    right := OutgoingRight(world, n, q, p, w);
  }

  /** The send half of the exchange: the four messages each rank receives,
      all read before any rank receives. */
  method Gather(world: seq<Segment>, n: nat, q: nat, ghost w: seq<seq<seq<real>>>)
    returns (ups: seq<Option<seq<real>>>, downs: seq<Option<seq<real>>>,
             lefts: seq<Option<seq<real>>>, rights: seq<Option<seq<real>>>)
    requires WorldValid(world, n, q)
    requires w == WorldCells(world) && Shaped(w)
    ensures |ups| == |downs| == |lefts| == |rights| == |world|
    ensures forall k :: 0 <= k < |world| ==>
              ups[k] == FromUp(w, q, k) && downs[k] == FromDown(w, q, k) &&
              lefts[k] == FromLeft(w, q, k) && rights[k] == FromRight(w, q, k)
    ensures forall k :: 0 <= k < |world| ==> MessagesFit(world[k], ups[k], downs[k], lefts[k], rights[k])
  {
    ups, downs, lefts, rights := [], [], [], [];
    var p := 0;
    while p < |world|
      invariant 0 <= p <= |world|
      invariant |ups| == |downs| == |lefts| == |rights| == p
      invariant forall k :: 0 <= k < p ==>
                  ups[k] == FromUp(w, q, k) && downs[k] == FromDown(w, q, k) &&
                  lefts[k] == FromLeft(w, q, k) && rights[k] == FromRight(w, q, k)
      invariant forall k :: 0 <= k < p ==> MessagesFit(world[k], ups[k], downs[k], lefts[k], rights[k])
    {
      var up, down, left, right := Incoming(world, n, q, p, w);
      ups, downs, lefts, rights := ups + [up], downs + [down], lefts + [left], rights + [right];
      p := p + 1;
    }
  }

  /** The four messages have the lengths the receives of segment s expect. */
  predicate MessagesFit(s: Segment, up: Option<seq<real>>, down: Option<seq<real>>,
                        left: Option<seq<real>>, right: Option<seq<real>>)
  {
    && (up.Some? ==> |up.value| == s.matrix.Length1 - 2)
    && (down.Some? ==> |down.value| == s.matrix.Length1 - 2)
    && (left.Some? ==> |left.value| == s.matrix.Length0 - 2)
    && (right.Some? ==> |right.value| == s.matrix.Length0 - 2)
  }

  /** The exchange part of one cycle, for all ranks: every message is read
      from the tiles as the sweeps left them, then every rank receives. */
  method ExchangeHalos(world: seq<Segment>, n: nat, q: nat)
    requires WorldValid(world, n, q)
    modifies Matrices(world)
    ensures Shaped(old(WorldCells(world)))
    ensures forall p, i, j :: 0 <= p < |world| && 0 <= i < world[p].matrix.Length0 && 0 <= j < world[p].matrix.Length1 ==>
              world[p].matrix[i, j] == ExchangedCell(old(WorldCells(world)), q, p, i, j)
  {
    ghost var w := WorldCells(world);
    WorldShaped(world, n, q);
    var ups, downs, lefts, rights := Gather(world, n, q, w);
    var p := 0;
    while p < |world|
      invariant 0 <= p <= |world|
      invariant forall k :: p <= k < |world| ==> world[k].Cells() == w[k]
      invariant forall k, i, j :: 0 <= k < p && 0 <= i < world[k].matrix.Length0 && 0 <= j < world[k].matrix.Length1 ==>
                  world[k].matrix[i, j] == ExchangedCell(w, q, k, i, j)
    {
      world[p].ReceiveHalos(ups[p], downs[p], lefts[p], rights[p]);
      p := p + 1;
    }
  }

  /** init for every rank. */
  method InitAll(world: seq<Segment>, n: nat, q: nat, initPoint: (int, int) -> real)
    requires WorldValid(world, n, q)
    modifies Matrices(world)
    ensures InitialWorld(world, WorldCells(world), initPoint)
  {
    var p := 0;
    while p < |world|
      invariant 0 <= p <= |world|
      invariant forall k, i, j :: 0 <= k < p && 0 <= i < world[k].matrix.Length0 && 0 <= j < world[k].matrix.Length1 ==>
                  world[k].matrix[i, j] == initPoint(i + world[k].row0 - 1, j + world[k].col0 - 1)
    {
      world[p].Init(initPoint);
      p := p + 1;
    }
  }

  /** Every cell of every tile of `w`, halo included, holds initPoint of
      its absolute coordinates. */
  ghost predicate InitialWorld(world: seq<Segment>, w: seq<seq<seq<real>>>, initPoint: (int, int) -> real)
  {
    && |w| == |world|
    && (forall p :: 0 <= p < |w| ==> IsGrid(w[p], world[p].matrix.Length0, world[p].matrix.Length1))
    && (forall p, i, j :: 0 <= p < |w| && 0 <= i < world[p].matrix.Length0 && 0 <= j < world[p].matrix.Length1 ==>
          w[p][i][j] == initPoint(i + world[p].row0 - 1, j + world[p].col0 - 1))
  }

  /** The update part of one cycle for every rank; flags[p] is rank p's
      mayTerminate. */
  method SweepAll(world: seq<Segment>, n: nat, q: nat, stencil: Stencil, epsilon: real) returns (flags: seq<bool>)
    requires WorldValid(world, n, q)
    modifies Matrices(world)
    ensures |flags| == |world|
    ensures forall p :: 0 <= p < |world| ==>
              RowMajorSweep(old(WorldCells(world))[p], WorldCells(world)[p],
                            world[p].matrix.Length0, world[p].matrix.Length1, stencil)
    ensures forall p :: 0 <= p < |world| ==>
              (flags[p] <==> SweepWithin(old(WorldCells(world))[p], WorldCells(world)[p],
                                         world[p].matrix.Length0, world[p].matrix.Length1, epsilon))
  {
    ghost var w := WorldCells(world);
    flags := [];
    var p := 0;
    while p < |world|
      invariant SweptRanks(world, n, q, w, flags, p, stencil, epsilon)
      decreases |world| - p
    {
      flags := SweepRank(world, n, q, w, flags, p, stencil, epsilon);
      p := p + 1;
    }
  }

  /** Ranks below p have swept their tiles from `w` and flags holds their
      mayTerminate; the other tiles are still as in `w`. */
  ghost predicate SweptRanks(world: seq<Segment>, n: nat, q: nat, w: seq<seq<seq<real>>>, flags: seq<bool>,
                             p: nat, stencil: Stencil, epsilon: real)
    reads Matrices(world)
  {
    && WorldValid(world, n, q) && |w| == |world| && p <= |world| && |flags| == p
    && (forall k :: p <= k < |world| ==> world[k].Cells() == w[k])
    && (forall k :: 0 <= k < p ==>
          RowMajorSweep(w[k], world[k].Cells(), world[k].matrix.Length0, world[k].matrix.Length1, stencil))
    && (forall k :: 0 <= k < p ==>
          (flags[k] <==> SweepWithin(w[k], world[k].Cells(), world[k].matrix.Length0, world[k].matrix.Length1, epsilon)))
  }

  /** Rank p sweeps its tile. */
  method SweepRank(world: seq<Segment>, n: nat, q: nat, ghost w: seq<seq<seq<real>>>, flags: seq<bool>,
                   p: nat, stencil: Stencil, epsilon: real) returns (flags': seq<bool>)
    requires p < |world| && SweptRanks(world, n, q, w, flags, p, stencil, epsilon)
    modifies world[p].matrix
    ensures SweptRanks(world, n, q, w, flags', p + 1, stencil, epsilon)
  {
    var mayTerminate := world[p].Sweep(stencil, epsilon);
    flags' := flags + [mayTerminate];
  }

  /** The MPI_LAND all-reduce of the ranks' flags. */
  function LogicalAnd(flags: seq<bool>): (all: bool)
    ensures all <==> forall k :: 0 <= k < |flags| ==> flags[k]
  {
    if |flags| == 0 then true else flags[0] && LogicalAnd(flags[1..])
  }

  /** One cycle of the whole grid: every rank sweeps `w` into `mid`, then
      the halo exchange turns `mid` into `next`. */
  ghost predicate Cycle(w: seq<seq<seq<real>>>, mid: seq<seq<seq<real>>>, next: seq<seq<seq<real>>>,
                        q: nat, stencil: Stencil)
  {
    && q > 0 && Shaped(w) && |mid| == |w| && |next| == |w|
    && (forall p :: 0 <= p < |w| ==> RowMajorSweep(w[p], mid[p], |w[p]|, |w[p][0]|, stencil))
    && Shaped(mid)
    && (forall p :: 0 <= p < |w| ==> IsGrid(next[p], |w[p]|, |w[p][0]|))
    && (forall p, i, j :: 0 <= p < |w| && 0 <= i < |w[p]| && 0 <= j < |w[p][0]| ==>
          next[p][i][j] == ExchangedCell(mid, q, p, i, j))
  }

  /** Every rank's sweep from `w` to `mid` stayed within epsilon. */
  ghost predicate AllWithin(w: seq<seq<seq<real>>>, mid: seq<seq<seq<real>>>, epsilon: real)
  {
    |mid| == |w| && forall p :: 0 <= p < |w| ==> |w[p]| > 0 && SweepWithin(w[p], mid[p], |w[p]|, |w[p][0]|, epsilon)
  }

  /** One cycle of execute for all ranks, as a relation between world
      snapshots. */
  method RunCycle(world: seq<Segment>, n: nat, q: nat, stencil: Stencil, epsilon: real)
    returns (allTerminate: bool, ghost mid: seq<seq<seq<real>>>)
    requires WorldValid(world, n, q)
    modifies Matrices(world)
    ensures Cycle(old(WorldCells(world)), mid, WorldCells(world), q, stencil)
    ensures allTerminate <==> AllWithin(old(WorldCells(world)), mid, epsilon)
  {
    ghost var w := WorldCells(world);
    WorldShaped(world, n, q);
    var flags := SweepAll(world, n, q, stencil, epsilon);
    mid := WorldCells(world);
    WorldShaped(world, n, q);
    ExchangeHalos(world, n, q);
    ghost var next := WorldCells(world);
    forall p | 0 <= p < |w|
      ensures RowMajorSweep(w[p], mid[p], |w[p]|, |w[p][0]|, stencil)
      ensures IsGrid(next[p], |w[p]|, |w[p][0]|)
      ensures flags[p] <==> SweepWithin(w[p], mid[p], |w[p]|, |w[p][0]|, epsilon)
    {
      NeighbourShapes(world, n, q, p);
    }
    allTerminate := LogicalAnd(flags);
  }

  /** Appending one more cycle keeps a run of cycles a run of cycles, and
      keeps the record of which sampled cycles did not converge. */
  lemma ExtendHistory(states: seq<seq<seq<seq<real>>>>, swept: seq<seq<seq<seq<real>>>>,
                      mid: seq<seq<seq<real>>>, next: seq<seq<seq<real>>>,
                      q: nat, stencil: Stencil, epsilon: real, stops: bool)
    requires |states| == |swept| + 1
    requires forall c :: 0 <= c < |swept| ==> Cycle(states[c], swept[c], states[c + 1], q, stencil)
    requires forall c :: 0 <= c < |swept| && c % 10 == 0 ==> !AllWithin(states[c], swept[c], epsilon)
    requires Cycle(states[|swept|], mid, next, q, stencil)
    requires !stops ==> (|swept| % 10 == 0 ==> !AllWithin(states[|swept|], mid, epsilon))
    ensures forall c :: 0 <= c < |swept| + 1 ==>
              Cycle((states + [next])[c], (swept + [mid])[c], (states + [next])[c + 1], q, stencil)
    ensures !stops ==>
              forall c :: 0 <= c < |swept| + 1 && c % 10 == 0 ==> !AllWithin((states + [next])[c], (swept + [mid])[c], epsilon)
  {
  }

  /** FDGridSegment::execute on every rank: init, then up to maxcycles
      cycles, stopping after the exchange of the first cycle whose number
      is a multiple of 10 and in which every rank's sweep stayed within
      epsilon. `cycle` is the cycle counter when the loop ends; `states`
      are the world snapshots at the start of each cycle and after the
      last one, `swept` those after each cycle's sweeps. */
  method Execute(world: seq<Segment>, n: nat, q: nat, maxcycles: int, epsilon: real,
                 initPoint: (int, int) -> real, stencil: Stencil)
    returns (cycle: int, converged: bool,
             ghost states: seq<seq<seq<seq<real>>>>, ghost swept: seq<seq<seq<seq<real>>>>)
    requires WorldValid(world, n, q)
    modifies Matrices(world)
    ensures |states| == |swept| + 1
    ensures InitialWorld(world, states[0], initPoint)
    ensures forall c :: 0 <= c < |swept| ==> Cycle(states[c], swept[c], states[c + 1], q, stencil)
    ensures states[|swept|] == WorldCells(world)
    ensures converged ==>
              0 <= cycle < maxcycles && cycle % 10 == 0 && |swept| == cycle + 1 &&
              AllWithin(states[cycle], swept[cycle], epsilon)
    ensures !converged ==> cycle == (if maxcycles < 0 then 0 else maxcycles) && |swept| == cycle
    ensures forall c :: 0 <= c < cycle && c % 10 == 0 ==> !AllWithin(states[c], swept[c], epsilon)
    ensures forall p, i, j :: 0 <= p < |world| && FixedHalo(q, p, world[p].matrix.Length0, world[p].matrix.Length1, i, j) ==>
              world[p].matrix[i, j] == initPoint(i + world[p].row0 - 1, j + world[p].col0 - 1)
  {
    InitAll(world, n, q, initPoint);
    states, swept := [WorldCells(world)], [];
    cycle, converged := 0, false;
    while cycle < maxcycles
      invariant 0 <= cycle && cycle <= (if maxcycles < 0 then 0 else maxcycles)
      invariant |states| == cycle + 1 && |swept| == cycle
      invariant InitialWorld(world, states[0], initPoint)
      invariant forall c :: 0 <= c < cycle ==> Cycle(states[c], swept[c], states[c + 1], q, stencil)
      invariant states[cycle] == WorldCells(world)
      invariant forall c :: 0 <= c < cycle && c % 10 == 0 ==> !AllWithin(states[c], swept[c], epsilon)
    {
      var allTerminate, mid := RunCycle(world, n, q, stencil, epsilon);
      ExtendHistory(states, swept, mid, WorldCells(world), q, stencil, epsilon, cycle % 10 == 0 && allTerminate);
      states, swept := states + [WorldCells(world)], swept + [mid];
      if cycle % 10 == 0 && allTerminate {
        converged := true;
        break;
      }
      cycle := cycle + 1;
    }
    FixedHalosKept(world, n, q, initPoint, stencil, states, swept);
  }

  /** After any number of cycles the fixed halo cells still hold their
      initial values. */
  lemma {:induction false} FixedHalosKept(world: seq<Segment>, n: nat, q: nat, initPoint: (int, int) -> real,
                                          stencil: Stencil, states: seq<seq<seq<seq<real>>>>,
                                          swept: seq<seq<seq<seq<real>>>>)
    requires WorldValid(world, n, q)
    requires |states| == |swept| + 1
    requires InitialWorld(world, states[0], initPoint)
    requires forall c :: 0 <= c < |swept| ==> Cycle(states[c], swept[c], states[c + 1], q, stencil)
    requires states[|swept|] == WorldCells(world)
    ensures forall p, i, j :: 0 <= p < |world| && FixedHalo(q, p, world[p].matrix.Length0, world[p].matrix.Length1, i, j) ==>
              world[p].matrix[i, j] == initPoint(i + world[p].row0 - 1, j + world[p].col0 - 1)
  {
    forall p, i, j | 0 <= p < |world| && FixedHalo(q, p, world[p].matrix.Length0, world[p].matrix.Length1, i, j)
      ensures world[p].matrix[i, j] == initPoint(i + world[p].row0 - 1, j + world[p].col0 - 1)
    {
      NeighbourShapes(world, n, q, p);
      RunKeepsFixedHalos(states, swept, q, stencil, |swept|, p, i, j);
    }
  }

  /** Vertically neighbouring tiles abut: the up neighbour's last row is
      the row just above this tile and the down neighbour's first row the
      one just below, over the same columns. */
  lemma {:induction false} VerticalGeometry(world: seq<Segment>, n: nat, q: nat, p: nat)
    requires WorldValid(world, n, q) && p < |world|
    ensures PG.UpPid(q, p).Rank? ==>
              PG.UpPid(q, p).id < |world| &&
              world[PG.UpPid(q, p).id].row1 == world[p].row0 - 1 &&
              world[PG.UpPid(q, p).id].col0 == world[p].col0
    ensures PG.DownPid(q, p).Rank? ==>
              PG.DownPid(q, p).id < |world| &&
              world[PG.DownPid(q, p).id].row0 == world[p].row1 + 1 &&
              world[PG.DownPid(q, p).id].col0 == world[p].col0
  {
    PG.NeighboursInGrid(q, p);
    PG.VerticalNeighbours(q, p);
    PG.InGridIffRow(q, p);
    var row := PG.Row(q, p);
    if PG.UpPid(q, p).Rank? {
      Partition.TilesSpanDomain(n, q, row - 1);
    }
    if PG.DownPid(q, p).Rank? {
      Partition.TilesSpanDomain(n, q, row);
    }
  }

  /** Horizontally neighbouring tiles abut in the same way, over the same
      rows. */
  lemma {:induction false} HorizontalGeometry(world: seq<Segment>, n: nat, q: nat, p: nat)
    requires WorldValid(world, n, q) && p < |world|
    ensures PG.LeftPid(q, p).Rank? ==>
              PG.LeftPid(q, p).id < |world| &&
              world[PG.LeftPid(q, p).id].col1 == world[p].col0 - 1 &&
              world[PG.LeftPid(q, p).id].row0 == world[p].row0
    ensures PG.RightPid(q, p).Rank? ==>
              PG.RightPid(q, p).id < |world| &&
              world[PG.RightPid(q, p).id].col0 == world[p].col1 + 1 &&
              world[PG.RightPid(q, p).id].row0 == world[p].row0
  {
    PG.NeighboursInGrid(q, p);
    PG.HorizontalNeighbours(q, p);
    var col := PG.Column(q, p);
    assert world[p].Valid();
    if PG.LeftPid(q, p).Rank? {
      assert world[PG.LeftPid(q, p).id].Valid();
      Partition.TilesSpanDomain(n, q, col - 1);
    }
    if PG.RightPid(q, p).Rank? {
      assert world[PG.RightPid(q, p).id].Valid();
      Partition.TilesSpanDomain(n, q, col);
    }
  }

  /** With q <= N, a side has no neighbour exactly when the tile touches
      that edge of the domain. */
  lemma {:induction false} NullSideIsDomainEdge(world: seq<Segment>, n: nat, q: nat, p: nat)
    requires WorldValid(world, n, q) && q <= n && p < |world|
    ensures PG.UpPid(q, p).ProcNull? <==> world[p].row0 == 0
    ensures PG.DownPid(q, p).ProcNull? <==> world[p].row1 == n - 1
    ensures PG.LeftPid(q, p).ProcNull? <==> world[p].col0 == 0
    ensures PG.RightPid(q, p).ProcNull? <==> world[p].col1 == n - 1
  {
    PG.InGridIffRow(q, p);
    PG.HorizontalNeighbours(q, p);
    PG.VerticalNeighbours(q, p);
    Partition.TileAtEdge(n, q, PG.Row(q, p));
    Partition.TileAtEdge(n, q, PG.Column(q, p));
  }

  /** Snapshot `w` has the dimensions of the world's matrices. */
  ghost predicate Conforms(world: seq<Segment>, w: seq<seq<seq<real>>>)
  {
    |w| == |world| &&
    forall p :: 0 <= p < |w| ==> IsGrid(w[p], world[p].matrix.Length0, world[p].matrix.Length1)
  }

  /** After a cycle, the interior of every tile is what its sweep left. */
  lemma {:induction false} CycleKeepsInterior(w: seq<seq<seq<real>>>, mid: seq<seq<seq<real>>>,
                                             next: seq<seq<seq<real>>>, q: nat, stencil: Stencil,
                                             p: nat, i: int, j: int)
    requires Cycle(w, mid, next, q, stencil) && p < |w| && Interior(|w[p]|, |w[p][0]|, i, j)
    ensures next[p][i][j] == mid[p][i][j]
  {
  }

  /** After a cycle, a corner or a cell on a side without neighbour holds
      what it held before the cycle: neither the sweep nor any receive
      writes it. */
  lemma {:induction false} CycleKeepsFixedHalos(w: seq<seq<seq<real>>>, mid: seq<seq<seq<real>>>,
                                               next: seq<seq<seq<real>>>, q: nat, stencil: Stencil,
                                               p: nat, i: int, j: int)
    requires Cycle(w, mid, next, q, stencil) && p < |w| && FixedHalo(q, p, |w[p]|, |w[p][0]|, i, j)
    ensures next[p][i][j] == w[p][i][j]
  {
    assert KeptCell(w[p], mid[p], i, j);
  }

  /** After a cycle, every other halo cell holds the value that the rank
      owning the same absolute point gave it in its sweep. */
  lemma {:induction false} HaloHoldsOwnersValue(world: seq<Segment>, n: nat, q: nat,
                                               w: seq<seq<seq<real>>>, mid: seq<seq<seq<real>>>,
                                               next: seq<seq<seq<real>>>, stencil: Stencil,
                                               p: nat, i: int, j: int)
    returns (owner: nat, i': int, j': int)
    requires WorldValid(world, n, q) && q <= n
    requires Conforms(world, w) && Cycle(w, mid, next, q, stencil)
    requires p < |world| && 0 <= i < world[p].matrix.Length0 && 0 <= j < world[p].matrix.Length1
    requires !Interior(world[p].matrix.Length0, world[p].matrix.Length1, i, j)
    requires !FixedHalo(q, p, world[p].matrix.Length0, world[p].matrix.Length1, i, j)
    ensures owner < |world|
    ensures Interior(world[owner].matrix.Length0, world[owner].matrix.Length1, i', j')
    ensures i' + world[owner].row0 == i + world[p].row0 && j' + world[owner].col0 == j + world[p].col0
    ensures next[p][i][j] == mid[owner][i'][j']
  {
    var rows, cols := world[p].matrix.Length0, world[p].matrix.Length1;
    NeighbourShapes(world, n, q, p);
    VerticalGeometry(world, n, q, p);
    HorizontalGeometry(world, n, q, p);
    if i == rows - 1 {
      owner, i', j' := PG.DownPid(q, p).id, 1, j;
      TileNonEmpty(world[owner]);
      RowHaloValue(world, n, q, w, mid, next, stencil, p, i, j, owner, i');
    } else if i == 0 {
      owner := PG.UpPid(q, p).id;
      i', j' := world[owner].matrix.Length0 - 2, j;
      TileNonEmpty(world[owner]);
      RowHaloValue(world, n, q, w, mid, next, stencil, p, i, j, owner, i');
    } else if j == cols - 1 {
      owner, i', j' := PG.RightPid(q, p).id, i, 1;
      TileNonEmpty(world[owner]);
      ColumnHaloValue(world, n, q, w, mid, next, stencil, p, i, j, owner, j');
    } else {
      owner := PG.LeftPid(q, p).id;
      i', j' := i, world[owner].matrix.Length1 - 2;
      TileNonEmpty(world[owner]);
      ColumnHaloValue(world, n, q, w, mid, next, stencil, p, i, j, owner, j');
    }
  }

  /** A cell of the first or last row, other than a corner, whose side has
      a neighbour: it holds that neighbour's interior row i' after the
      cycle, at the same column. */
  lemma {:induction false} RowHaloValue(world: seq<Segment>, n: nat, q: nat,
                                       w: seq<seq<seq<real>>>, mid: seq<seq<seq<real>>>,
                                       next: seq<seq<seq<real>>>, stencil: Stencil,
                                       p: nat, i: int, j: int, owner: nat, i': int)
    requires WorldValid(world, n, q) && Conforms(world, w) && Cycle(w, mid, next, q, stencil)
    requires p < |world| && 1 <= j < world[p].matrix.Length1 - 1
    requires || (i == world[p].matrix.Length0 - 1 && PG.DownPid(q, p) == PG.Rank(owner) && i' == 1)
             || (i == 0 && PG.UpPid(q, p) == PG.Rank(owner) && owner < |world| &&
                 i' == world[owner].matrix.Length0 - 2)
    requires owner < |world| && world[owner].matrix.Length0 >= 3
    ensures 0 <= i < |next[p]| && 0 <= j < |next[p][i]| && 0 <= i' < |mid[owner]| && 0 <= j < |mid[owner][i']|
    ensures next[p][i][j] == mid[owner][i'][j]
  {
    NeighbourShapes(world, n, q, p);
    assert RowMajorSweep(w[owner], mid[owner], |w[owner]|, |w[owner][0]|, stencil);
    assert RowMajorSweep(w[p], mid[p], |w[p]|, |w[p][0]|, stencil);
    assert next[p][i][j] == ExchangedCell(mid, q, p, i, j);
  }

  /** A cell of the first or last column, other than a corner, whose side
      has a neighbour: it holds that neighbour's interior column j' after
      the cycle, at the same row. */
  lemma {:induction false} ColumnHaloValue(world: seq<Segment>, n: nat, q: nat,
                                          w: seq<seq<seq<real>>>, mid: seq<seq<seq<real>>>,
                                          next: seq<seq<seq<real>>>, stencil: Stencil,
                                          p: nat, i: int, j: int, owner: nat, j': int)
    requires WorldValid(world, n, q) && Conforms(world, w) && Cycle(w, mid, next, q, stencil)
    requires p < |world| && 1 <= i < world[p].matrix.Length0 - 1
    requires || (j == world[p].matrix.Length1 - 1 && PG.RightPid(q, p) == PG.Rank(owner) && j' == 1)
             || (j == 0 && PG.LeftPid(q, p) == PG.Rank(owner) && owner < |world| &&
                 j' == world[owner].matrix.Length1 - 2)
    requires owner < |world| && world[owner].matrix.Length1 >= 3
    ensures 0 <= i < |next[p]| && 0 <= j < |next[p][i]| && 0 <= i < |mid[owner]| && 0 <= j' < |mid[owner][i]|
    ensures next[p][i][j] == mid[owner][i][j']
  {
    NeighbourShapes(world, n, q, p);
    assert RowMajorSweep(w[owner], mid[owner], |w[owner]|, |w[owner][0]|, stencil);
    assert RowMajorSweep(w[p], mid[p], |w[p]|, |w[p][0]|, stencil);
    assert next[p][i][j] == ExchangedCell(mid, q, p, i, j);
    if j == 0 {
      assert FromLeft(mid, q, p) == Some(InteriorColumn(mid[owner], j'));
    } else {
      assert FromRight(mid, q, p) == Some(InteriorColumn(mid[owner], j'));
    }
  }

  /** Over a run of cycles, the corners and the sides without neighbour
      keep the values they started with. */
  lemma {:induction false} RunKeepsFixedHalos(states: seq<seq<seq<seq<real>>>>, swept: seq<seq<seq<seq<real>>>>,
                                             q: nat, stencil: Stencil, c: nat, p: nat, i: int, j: int)
    requires |states| == |swept| + 1 && c <= |swept| && q > 0
    requires forall k :: 0 <= k < |swept| ==> Cycle(states[k], swept[k], states[k + 1], q, stencil)
    requires Shaped(states[0]) && p < |states[0]|
    requires FixedHalo(q, p, |states[0][p]|, |states[0][p][0]|, i, j)
    ensures Shaped(states[c]) && |states[c]| == |states[0]|
    ensures |states[c][p]| == |states[0][p]| && |states[c][p][0]| == |states[0][p][0]|
    ensures states[c][p][i][j] == states[0][p][i][j]
  {
    if c > 0 {
      RunKeepsFixedHalos(states, swept, q, stencil, c - 1, p, i, j);
      CycleKeepsFixedHalos(states[c - 1], swept[c - 1], states[c], q, stencil, p, i, j);
    }
  }
}
