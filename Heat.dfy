/** The heat-distribution payload of the grid solver (HeatGridSegment):
    the fixed boundary temperatures, the over-relaxed update of a point
    from its four neighbours, and the colour scale of the plot. */
module Heat {
  import opened Failures
  import opened FDGrid
  import FDEngine

  const GridSize: nat := 150
  const Omega: real := 1.2
  const MaxCycles: int := 100000
  const Epsilon: real := 0.001
  const PaletteSize: nat := 64

  /** initPoint: the left, upper and right outer edges are at 100 degrees,
      everything else, the lower edge included, at 0. */
  function InitPoint(n: nat, row: int, col: int): (t: real)
    ensures 0 <= row && 0 <= col < n ==> t == 0.0
    ensures row < 0 || col < 0 || col >= n ==> t == 100.0
  {
    if row < 0 || col < 0 || col >= n then 100.0 else 0.0
  }

  /** The update rule of compute, over relaxed by omega: omega/4 times the
      sum of the four neighbours plus (1 - omega) times the point itself. */
  function Relax(omega: real, centre: real, up: real, down: real, left: real, right: real): (v: real)
    ensures v - centre == omega * ((up + down + left + right) / 4.0 - centre)
  {
    omega / 4.0 * (up + down + left + right) + (1.0 - omega) * centre
  }

  function HeatStencil(omega: real): Stencil
  {
    (centre, up, down, left, right) => Relax(omega, centre, up, down, left, right)
  }

  /** A point is left unchanged exactly when omega is 0 or the point is
      already the mean of its four neighbours (the discrete Laplace
      equation), so the fixed points of the iteration are the harmonic
      fields. */
  lemma RelaxFixedPoint(omega: real, centre: real, up: real, down: real, left: real, right: real)
    ensures Relax(omega, centre, up, down, left, right) == centre <==>
            omega == 0.0 || centre == (up + down + left + right) / 4.0
  {
    var s := up + down + left + right;
    assert Relax(omega, centre, up, down, left, right) - centre == omega * (s / 4.0 - centre);
  }

  /** With 0 <= omega <= 1 the new value is a weighted mean of the point
      and its neighbours, so it stays between their least and greatest
      value. (The program itself runs with omega = 1.2, where this does
      not hold.) */
  lemma RelaxBounded(omega: real, lo: real, hi: real, centre: real, up: real, down: real, left: real, right: real)
    requires 0.0 <= omega <= 1.0
    requires lo <= centre <= hi && lo <= up <= hi && lo <= down <= hi && lo <= left <= hi && lo <= right <= hi
    ensures lo <= Relax(omega, centre, up, down, left, right) <= hi
  {
    var s := up + down + left + right;
    assert 4.0 * lo <= s <= 4.0 * hi;
    assert omega / 4.0 * s <= omega * hi by {
      assert omega / 4.0 * s == omega * (s / 4.0);
      assert s / 4.0 <= hi;
    }
    assert omega * lo <= omega / 4.0 * s by {
      assert omega / 4.0 * s == omega * (s / 4.0);
      assert lo <= s / 4.0;
    }
    assert (1.0 - omega) * centre <= (1.0 - omega) * hi;
    assert (1.0 - omega) * lo <= (1.0 - omega) * centre;
    assert omega * hi + (1.0 - omega) * hi == hi;
    assert omega * lo + (1.0 - omega) * lo == lo;
    assert Relax(omega, centre, up, down, left, right) == omega / 4.0 * s + (1.0 - omega) * centre;
  }

  /** A tile at one uniform temperature is a fixed point of the whole
      sweep, and its sweep is within any epsilon >= 0, so a uniform field
      lets the rank terminate. */
  lemma {:induction false} UniformFieldIsStable(m: seq<seq<real>>, rows: int, cols: int, t: real, omega: real, epsilon: real)
    requires IsGrid(m, rows, cols) && epsilon >= 0.0
    requires forall i, j :: 0 <= i < rows && 0 <= j < cols ==> m[i][j] == t
    ensures RowMajorSweep(m, m, rows, cols, HeatStencil(omega))
    ensures SweepWithin(m, m, rows, cols, epsilon)
  {
    forall i, j | Interior(rows, cols, i, j)
      ensures SweptCell(m, m, i, j, HeatStencil(omega))
    {
      RelaxFixedPoint(omega, t, t, t, t, t);
    }
  }

  /** compute(r, c) as the program writes it: it reads the point and its
      four neighbours through value, any of which may be out of range. */
  function Compute(s: Segment, omega: real, r: int, c: int): (v: Result<real>)
    requires s.Valid()
    reads s.matrix
  {
    match (s.Value(r - 1, c), s.Value(r + 1, c), s.Value(r, c - 1), s.Value(r, c + 1), s.Value(r, c))
    case (Ok(up), Ok(down), Ok(left), Ok(right), Ok(centre)) => Ok(Relax(omega, centre, up, down, left, right))
    case (Err(e), _, _, _, _) => Err(e)
    case (_, Err(e), _, _, _) => Err(e)
    case (_, _, Err(e), _, _) => Err(e)
    case (_, _, _, Err(e), _) => Err(e)
    case (_, _, _, _, Err(e)) => Err(e)
  }

  /** For every interior cell the sweep visits, compute reads only cells of
      the tile and its halo and is the stencil applied to the cell's local
      neighbours, which is how the sweep of the model applies it. */
  lemma ComputeAtInteriorCell(s: Segment, omega: real, i: int, j: int)
    requires s.Valid() && Interior(s.matrix.Length0, s.matrix.Length1, i, j)
    ensures Compute(s, omega, i + s.row0 - 1, j + s.col0 - 1) ==
            Ok(HeatStencil(omega)(s.matrix[i, j], s.matrix[i - 1, j], s.matrix[i + 1, j],
                                  s.matrix[i, j - 1], s.matrix[i, j + 1]))
  {
  }

  /** compute succeeds exactly at the tile's own cells: at a halo cell or
      beyond, one of the points it reads is an out-of-range access. */
  lemma ComputeDefinedIff(s: Segment, omega: real, r: int, c: int)
    requires s.Valid()
    ensures Compute(s, omega, r, c).Ok? <==> s.row0 <= r <= s.row1 && s.col0 <= c <= s.col1
  {
  }

  /** The palette slot of a temperature: int(63 |x| / 100) mod 64, where
      the conversion truncates a non-negative value, i.e. floors it. */
  function ColorIndex(x: real): (k: int)
    ensures 0 <= k < PaletteSize
  {
    (63.0 * Abs(x) / 100.0).Floor % 64
  }

  /** Temperatures from 0 to 100 degrees in magnitude use the palette
      without wrapping, hotter points never getting a lower slot. */
  lemma ColorIndexMonotone(x: real, y: real)
    requires Abs(x) <= Abs(y) <= 100.0
    ensures ColorIndex(x) <= ColorIndex(y) <= 63
    ensures ColorIndex(x) == (63.0 * Abs(x) / 100.0).Floor
  {
    assert 63.0 * Abs(x) / 100.0 <= 63.0 * Abs(y) / 100.0 <= 63.0;
  }

  /** The palette of the plot: slot i gets the colour generated for slot
      63 - i, so blue is cold and red is hot. */
  method ReversePalette<C>(generated: array<C>) returns (colors: array<C>)
    requires generated.Length == PaletteSize
    ensures fresh(colors) && colors.Length == PaletteSize
    ensures forall i :: 0 <= i < PaletteSize ==> colors[i] == generated[PaletteSize - 1 - i]
  {
    colors := new C[PaletteSize](i requires 0 <= i < PaletteSize reads generated => generated[0]);
    var i := 0;
    while i < PaletteSize
      invariant 0 <= i <= PaletteSize
      invariant forall k :: 0 <= k < i ==> colors[k] == generated[PaletteSize - 1 - k]
    {
      colors[i] := generated[PaletteSize - 1 - i];
      i := i + 1;
    }
  }

  /** The program's run: a 150 x 150 plate, omega = 1.2, at most 100000
      cycles, epsilon = 0.001. The outer edges keep their temperatures. */
  method Run(world: seq<Segment>, q: nat) returns (cycle: int, converged: bool)
    requires FDEngine.WorldValid(world, GridSize, q)
    modifies FDEngine.Matrices(world)
    ensures converged ==> 0 <= cycle < MaxCycles && cycle % 10 == 0
    ensures !converged ==> cycle == MaxCycles
    ensures forall p, i, j :: 0 <= p < |world| && FixedHalo(q, p, world[p].matrix.Length0, world[p].matrix.Length1, i, j) ==>
              world[p].matrix[i, j] == InitPoint(GridSize, i + world[p].row0 - 1, j + world[p].col0 - 1)
  {
    ghost var states, swept;
    cycle, converged, states, swept :=
      FDEngine.Execute(world, GridSize, q, MaxCycles, Epsilon, (r, c) => InitPoint(GridSize, r, c), HeatStencil(Omega));
  }
}
