# libmpipp example programs, modelled in Dafny

libmpipp is a thin C++ wrapper over MPI. Its example programs hold the
logic modelled here, in four parts. Each part is simulated sequentially
over all ranks: every message becomes a copy between per-rank values or
arrays.

- **Finite-difference grid** (`FDGridSegment`, `ProcessorGrid`, and the
  heat payload `HeatGridSegment`):
  - `Partition` and `ProcessorGrid` cover the tiling of the N×N domain
    over a q×q processor grid and the four neighbours of a rank
    (`ProcNull` for `MPI_PROC_NULL`).
  - `VectorLayout` covers the strided column type built with
    MPI_TYPE_VECTOR (section 4.1.2 of MPI 3.1).
  - `FDGrid` covers one tile with its one-cell halo: `value`, `init`,
    the in-place interior sweep with its `mayTerminate` flag, and the
    halo receives.
  - `FDEngine` covers `execute` run by every rank. A cycle is all
    sweeps, then the halo exchange. The `MPI_LAND` reduction happens
    every tenth cycle.
  - `Heat` covers the boundary temperatures, the over-relaxed five-point
    update, the palette and the program's parameters.
- **N-body** (`Body`, `NBody`, `RingNBody`):
  - `NBody` covers the body record and its mutators. It also covers
    `calculateForces`, as an enumeration of body pairs, with exact
    closed forms for the resulting forces and conservation of the total
    force.
  - `Ring` covers the ring neighbours, the five-float body transfer, and
    the force phase of `RingNBody::run` across all ranks. That phase is
    proved to leave every body with a force given by an independent
    per-hop specification. On a ring of one it equals the sequential
    computation.
- **1-D wire and vibrating string** (`WireElement`, `CommElement`,
  `StaticElement`, `WireFragment`, `StringEquation`, `StringFragment`):
  - `Wire` covers:
    - the element kinds by position and rank;
    - linking;
    - the two-phase update (every `update`, then every `update2`) with
      the epsilon flag and the T/N report;
    - the stateful string equation;
    - the child's run loop, which ends at the first "terminate".
  - `WireMaster` covers the master loops of `wire.cc` and
    `wibstring.cc`, and the fragment length `childlen`.
- **Matrix multiply** (`SequentialMMul::multiply`): `MMul` covers the
  triple loop on two-dimensional arrays. It is proved to compute the
  product B·A, which is A² for the program's call.

All `double`/`float` values are exact `real`s. The force law, the
distance, the grid payload's stencil, `initPoint`, the values a
`CommElement` receives and the master's orders are parameters.

## Model

| member | source | states |
|---|---|---|
| `Partition.IntSqrt` | examples/fdgrid.cc:8 | the result r is the integer square root: r² ≤ n < (r+1)² |
| `Partition.GridSide` | examples/fdgrid.cc:8-10 | succeeds iff the worker count is a perfect square, with q² == workers; otherwise fails with NotSquareGrid |
| `Partition.TileLoMonotone` | examples/fdgrid.cc:16-19 | tile starts N·k/q never decrease with k |
| `Partition.TilesSpanDomain` | examples/fdgrid.cc:16-19 | consecutive tiles abut (hi_k + 1 == lo_{k+1}), extents are non-negative, the first tile starts at 0 and the last ends at N-1 |
| `Partition.TileContaining` | examples/fdgrid.cc:16-19 | every index of [0, N-1] lies in some tile k < q |
| `Partition.TilesDisjoint` | examples/fdgrid.cc:16-19 | no index lies in two tiles |
| `Partition.ExtentsSumToN` | examples/fdgrid.cc:16-19 | the q extents along a row or column add up to N |
| `Partition.ExtentBalanced` | examples/fdgrid.cc:16-19 | every tile has ⌊N/q⌋ or ⌊N/q⌋+1 cells |
| `Partition.TileAtEdge` | examples/fdgrid.cc:16-19 | with q ≤ N, only tile 0 starts at 0 and only tile q-1 ends at N-1 |
| `ProcessorGrid.Row` | examples/fdgrid.h:18 | the row of a rank is the band of q consecutive ranks that holds it: q·row ≤ id < q·row + q |
| `ProcessorGrid.Column` | examples/fdgrid.h:19 | the column is the rank's offset in its row: column < q and q·row + column == id |
| `ProcessorGrid.RankAt` | examples/fdgrid.h:18-19 | the rank at (row, column) has that row (id / q) and that column (id % q) |
| `ProcessorGrid.InGridIffRow` | examples/fdgrid.h:18 | a rank is below q² iff its row is below q |
| `ProcessorGrid.HorizontalNeighbours` | examples/fdgrid.h:21-22 | leftPid is a rank iff column > 0, and then it is id-1; rightPid is a rank iff column < q-1, and then it is id+1; both stay in the same row |
| `ProcessorGrid.VerticalNeighbours` | examples/fdgrid.h:23-24 | upPid is a rank iff row > 0, and then it is id-q; downPid is a rank iff row < q-1, and then it is id+q; both stay in the same column |
| `ProcessorGrid.NeighboursInGrid` | examples/fdgrid.h:21-24 | every neighbour of a rank in the grid is in the grid |
| `ProcessorGrid.NeighboursMutual` | examples/fdgrid.h:21-24 | leftPid(rightPid(id)) == id, rightPid(leftPid(id)) == id, and likewise up and down |
| `ProcessorGrid.AdjacentAreNeighbours` | examples/fdgrid.h:21-24 | ranks side by side in the grid are each other's right/left or down/up neighbours |
| `ProcessorGrid.SingleProcessorHasNoNeighbours` | examples/fdgrid.h:21-24 | with q == 1 all four neighbours are MPI_PROC_NULL |
| `VectorLayout.Gather` | examples/fdgrid.cc:79-83 | a send with a vector type transmits count·blocklength elements |
| `VectorLayout.ColumnTypeFits` | examples/fdgrid.cc:26 | the column type (interior rows, 1, cols), placed at (1, c), lies inside the matrix buffer |
| `VectorLayout.ColumnTypeSelectsColumn` | examples/fdgrid.cc:79-83 | sent from element (1, c), the column type carries exactly the interior of column c |
| `VectorLayout.RowRunSelectsRow` | examples/fdgrid.cc:73-77 | cols-2 contiguous elements sent from (r, 1) are exactly the interior of row r |
| `FDGrid.SweepDeterministic` | examples/fdgrid.cc:51-62 | the row-major sweep relation determines the swept tile uniquely from its start |
| `FDGrid.Segment.constructor` | examples/fdgrid.cc:4-27 | q² == workers, the tile bounds are those of the rank's grid row and column, the matrix has the tile's size plus a halo of one cell, and the column type is (rows-2, 1, cols) |
| `FDGrid.Segment.Create` | examples/fdgrid.cc:8-10 | construction succeeds iff the worker count is a perfect square, else fails with NotSquareGrid |
| `FDGrid.Segment.Value` | examples/fdgrid.h:76-82 | succeeds iff (r, c) lies in [row0-1, row1+1] × [col0-1, col1+1]; it then reads local cell (r-row0+1, c-col0+1), which lies inside the matrix; otherwise fails with OutOfRange |
| `FDGrid.Segment.Init` | examples/fdgrid.cc:29-37 | every cell, halo included, holds initPoint(i+row0-1, j+col0-1) |
| `FDGrid.Segment.Sweep` | examples/fdgrid.cc:51-62 | the tile becomes the row-major in-place sweep of the old tile (halo untouched, each cell computed from new upper/left and old lower/right values); mayTerminate iff every interior change is at most epsilon |
| `FDGrid.Segment.SweepRow` | examples/fdgrid.cc:52-62 | one row of the sweep: only interior cells of row r change, each to the stencil of its neighbours at that moment; the flag is true iff each change is at most epsilon |
| `FDGrid.Segment.RowOut` | examples/fdgrid.cc:73 | a row message is cells (r, 1) .. (r, cols-2) |
| `FDGrid.Segment.ColumnOut` | examples/fdgrid.cc:79 | a column message is cells (1, c) .. (rows-2, c) |
| `FDGrid.Segment.ReceiveRow` | examples/fdgrid.cc:74 | receiving into row r writes exactly (r, 1) .. (r, cols-2) with the message; every other cell is unchanged |
| `FDGrid.Segment.ReceiveColumn` | examples/fdgrid.cc:80 | receiving with the column type into column c writes exactly (1, c) .. (rows-2, c); every other cell is unchanged |
| `FDGrid.Segment.ReceiveHalos` | examples/fdgrid.cc:73-83 | the four receives of an exchange: each side with a message gets it, a MPI_PROC_NULL side and the corners are unchanged |
| `FDGrid.TileNonEmpty` | examples/fdgrid.cc:16-20 | with N ≥ q every tile has a non-empty interior |
| `FDEngine.NeighbourShapes` | examples/fdgrid.cc:73-83 | tiles in one grid column have the same width and in one grid row the same height, so every message matches its receive |
| `FDEngine.OutgoingUp` | examples/fdgrid.cc:76-77 | what a rank receives from up is the up neighbour's last interior row, or nothing at the top edge |
| `FDEngine.OutgoingDown` | examples/fdgrid.cc:73-74 | what a rank receives from down is the down neighbour's first interior row, or nothing at the bottom edge |
| `FDEngine.OutgoingLeft` | examples/fdgrid.cc:82-83 | what a rank receives from left is the left neighbour's last interior column, or nothing at the left edge |
| `FDEngine.OutgoingRight` | examples/fdgrid.cc:79-80 | what a rank receives from right is the right neighbour's first interior column, or nothing at the right edge |
| `FDEngine.Gather` | examples/fdgrid.cc:73-83 | every rank's four messages are read from the tiles as the sweeps left them |
| `FDEngine.ExchangeHalos` | examples/fdgrid.cc:69-83 | after the exchange each cell is its value after the four receives of the messages read before any receive |
| `FDEngine.InitAll` | examples/fdgrid.cc:29-37 | every rank's every cell holds initPoint of its absolute coordinates |
| `FDEngine.SweepAll` | examples/fdgrid.cc:44-62 | every rank's tile is its row-major sweep, and flags[p] is rank p's mayTerminate |
| `FDEngine.LogicalAnd` | examples/fdgrid.cc:88 | the MPI_LAND reduction is true iff every flag is true |
| `FDEngine.RunCycle` | examples/fdgrid.cc:44-88 | one cycle is all sweeps followed by the exchange; the reduced flag is true iff every rank's sweep stayed within epsilon |
| `FDEngine.Execute` | examples/fdgrid.cc:39-96 | init, then a chain of cycles; it stops early only at a cycle that is a multiple of 10 in which every sweep stayed within epsilon, otherwise after maxcycles cycles; no earlier sampled cycle converged; fixed halo cells keep their init values |
| `FDEngine.FixedHalosKept` | examples/fdgrid.cc:73-83 | after any run the corners and the sides facing MPI_PROC_NULL hold their init values |
| `FDEngine.VerticalGeometry` | examples/fdgrid.cc:16-17 | the up neighbour's last row is the row just above the tile, the down neighbour's first row the one just below, over the same columns |
| `FDEngine.HorizontalGeometry` | examples/fdgrid.cc:18-19 | the left neighbour's last column is the column just left of the tile, the right neighbour's first column the one just right, over the same rows |
| `FDEngine.NullSideIsDomainEdge` | examples/fdgrid.h:21-24 | with q ≤ N, a side faces MPI_PROC_NULL iff the tile touches that edge of the domain |
| `FDEngine.CycleKeepsInterior` | examples/fdgrid.cc:51-83 | the exchange does not touch interior cells |
| `FDEngine.CycleKeepsFixedHalos` | examples/fdgrid.cc:73-83 | neither sweep nor exchange writes a corner or a side facing MPI_PROC_NULL |
| `FDEngine.HaloHoldsOwnersValue` | examples/fdgrid.cc:73-83 | every other halo cell holds, after the cycle, the swept value of the same absolute point in the tile that owns it |
| `FDEngine.RowHaloValue` | examples/fdgrid.cc:73-77 | an upper/lower halo cell holds the neighbour's last/first interior row at the same column |
| `FDEngine.ColumnHaloValue` | examples/fdgrid.cc:79-83 | a left/right halo cell holds the neighbour's last/first interior column at the same row |
| `FDEngine.RunKeepsFixedHalos` | examples/fdgrid.cc:42-83 | over any number of cycles a fixed halo cell keeps its starting value |
| `Heat.InitPoint` | examples/heat.cc:24-30 | every point with row ≥ 0 and 0 ≤ col < N starts at 0 degrees, the lower outer edge included; every point left of, above or right of the domain starts at 100 degrees |
| `Heat.Relax` | examples/heat.cc:33-34 | the update moves the point by omega times its distance to the mean of its four neighbours (over-relaxation for omega > 1) |
| `Heat.RelaxFixedPoint` | examples/heat.cc:33-34 | the update leaves a point unchanged iff omega is 0 or the point is the mean of its four neighbours |
| `Heat.RelaxBounded` | examples/heat.cc:33-34 | for 0 ≤ omega ≤ 1 the new value lies between the bounds of the five inputs |
| `Heat.UniformFieldIsStable` | examples/heat.cc:33-34 | a tile at one temperature is its own sweep, for any omega, and the sweep stays within any epsilon ≥ 0 |
| `Heat.ComputeAtInteriorCell` | examples/heat.cc:32-34 | compute at an interior cell reads only the tile and its halo and is the stencil of the cell's local neighbours |
| `Heat.ComputeDefinedIff` | examples/heat.cc:32-34 | compute succeeds exactly at the tile's own cells; at a halo point or beyond, one of its five reads fails the range assertion of value |
| `Heat.ColorIndex` | examples/heat.cc:38 | the colour index int(63·\|x\|/100) % 64 lies in [0, 64) |
| `Heat.ColorIndexMonotone` | examples/heat.cc:38 | for \|x\| ≤ \|y\| ≤ 100 the index is ⌊63·\|x\|/100⌋, never wraps, and is monotone |
| `Heat.ReversePalette` | examples/heat.cc:14-18 | colour slot i gets generated colour 63-i |
| `Heat.Run` | examples/heat.cc:83-84 | the program's run (N = 150, omega = 1.2, 100000 cycles, epsilon = 0.001) stops at a multiple of 10 below 100000 or at 100000, with the hot left, upper and right edges and the cold lower edge kept |
| `NBody.Body.ResetForces` | examples/nbody.h:73 | the force becomes (0, 0); position, mass and velocity are unchanged |
| `NBody.Body.AddForce` | examples/nbody.h:76 | the force grows by f; position, mass and velocity are unchanged |
| `NBody.Body.SetMass` | examples/nbody.h:62 | only the mass changes, to m |
| `NBody.Body.SetPosition` | examples/nbody.h:63 | only the position changes |
| `NBody.Body.SetVelocity` | examples/nbody.h:64 | only the velocity changes |
| `NBody.PairsExact` | examples/nbody.cc:101-103 | the visited pairs are exactly those with i < n and j < m, and also i < j when diagonal; they come in strictly row-major order, so none is visited twice |
| `NBody.FoldKeepsParticles` | examples/nbody.cc:109-112 | visiting pairs changes only forces |
| `NBody.FoldForcesDistinct` | examples/nbody.cc:109-112 | on two arrays, a[k] gains the contributions of its row and b[k] loses those of its column |
| `NBody.FoldForcesSame` | examples/nbody.cc:109-112 | on one array, body k gains its row's contributions minus its column's |
| `NBody.FoldConservesForce` | examples/nbody.cc:109-112 | every visited pair adds f and -f, so the total force over both arrays, or over the one shared array, is unchanged |
| `NBody.ForcesClosedForm` | examples/nbody.cc:99-115 | closed form: a[k] gains the applying forces from b[j] for j from RowStart(k) up; b[k] loses those of a[i] for i below k (diagonal) or all i; one array gets both |
| `NBody.NBodySystem.constructor` | examples/nbody.cc:60-62 | a fresh array of n bodies and the given physics (minimum distance, force law and distance) |
| `NBody.NBodySystem.ResetForces` | examples/nbody.cc:94-97 | every body's force becomes (0, 0); nothing else changes |
| `NBody.NBodySystem.CalculateForces` | examples/nbody.cc:99-115 | the arrays become the fold of the pair visits over the enumeration, in order, with a and b possibly the same array |
| `NBody.NBodySystem.VisitRow` | examples/nbody.cc:103-113 | row i visits pairs (i, RowStart(i)) .. (i, m-1), extending the visited prefix by that row |
| `Ring.RingNeighbours` | examples/nbody.cc:165-166 | mNext and mPrev are ranks, (rank+1) and (rank-1) wrapping at the ends, and each undoes the other |
| `Ring.OriginFacts` | examples/nbody.cc:191-206 | the circulating buffer holds the rank's own bodies at hop 0 and after size hops; at hop i+1 it holds what the predecessor held at hop i; the bodies of hop i are at their i-th host |
| `Ring.OriginValue` | examples/nbody.cc:193-206 | at hop i rank p holds the bodies of rank (p - i) mod size |
| `Ring.HopsMeetEveryRank` | examples/nbody.cc:193-206 | over the size hops a rank meets every rank's bodies exactly once, and each copy visits every rank exactly once |
| `Ring.FlattenBodies` | examples/nbody.h:84-93 | a body array is seven floats per body, in member order |
| `Ring.Message` | examples/nbody.cc:170 | the body vector type transmits five floats per body |
| `Ring.MessageLayout` | examples/nbody.cc:170 | message float 5k+f is float f of body k |
| `Ring.TransferCarries` | examples/nbody.cc:170 | the transfer carries position, forces and mass, and keeps the receiver's velocity |
| `Ring.ReceiveBodies` | examples/nbody.cc:205 | each received body is the unpacked message, velocity kept |
| `Ring.RingNBody.constructor` | examples/nbody.cc:161-171 | an even number of bodies gives a valid ring process with the given rank, size and physics |
| `Ring.RingNBody.Create` | examples/nbody.cc:162 | construction succeeds iff the body count is even, else fails with OddBodyCount |
| `Ring.RingNBody.AddReturned` | examples/nbody.cc:210-211 | each resident body gains the force of the returned copy |
| `Ring.CirculateForces` | examples/nbody.cc:188-211 | the force phase leaves every body of every rank as it was except its force, which is RingForce: the row contributions it met as a resident plus the (negated) column contributions its copy met on the way round |
| `Ring.StartIteration` | examples/nbody.cc:188-191 | after resetForces and the copy, residents have zero force and buffer 0 holds the rank's own bodies |
| `Ring.Hop` | examples/nbody.cc:197-205 | one hop advances residents and circulating copies by one hop of the specification, the copies now in the other buffer |
| `Ring.ComputeHop` | examples/nbody.cc:197 | each rank runs calculateForces(resident, circulating, true) |
| `Ring.TransferHop` | examples/nbody.cc:200-205 | each rank's other buffer receives its predecessor's circulating bodies; the circulating and resident bodies are unchanged |
| `Ring.HopAdvance` | examples/nbody.cc:193-206 | the computation of hop i takes the specification's state of i hops to that of i+1 hops |
| `Ring.AddBack` | examples/nbody.cc:210-211 | each resident body gains the force of its returned copy |
| `Ring.FinishIteration` | examples/nbody.cc:210-211 | adding the returned forces after size hops gives RingResult |
| `Ring.IterationComplete` | examples/nbody.cc:210-211 | a resident after size hops plus its returned copy's force is the body with force RingForce |
| `Ring.RingOfOneIsSequential` | examples/nbody.cc:86-87 | on a ring of one, the force phase gives each body the force of the sequential resetForces plus calculateForces(mBodies, mBodies, true) |
| `Ring.SequentialFromReset` | examples/nbody.cc:86-87 | after resetForces, the sequential symmetric computation gives body k the forces from the bodies above it minus those on the bodies below it |
| `Ring.SameIndexNeverMeets` | examples/nbody.cc:197 | with diagonal = true on every hop, changing body k of another rank leaves body k's force unchanged |
| `Wire.StringStepReversible` | examples/wibstring.cc:14 | stepping from the new value with the same x and neighbours gives back the previous value |
| `Wire.StringRestIsSteady` | examples/wibstring.cc:14 | a point level with both neighbours and at rest stays where it is |
| `Wire.StringEquation.constructor` | examples/wibstring.cc:10 | the equation starts with the given previous value and tau |
| `Wire.StringEquation.Calc` | examples/wibstring.cc:11-17 | returns 2x - oldX + tau²(left - 2x + right), a missing side as 0, and remembers x as the previous value |
| `Wire.Commit` | examples/wireelement.h:105 | update2 makes the new value current; a static element (wireelement.h:83-85) is left unchanged |
| `Wire.Delta` | examples/wireelement.h:85 | delta is never negative, and 0 for a static element |
| `Wire.CommitZeroesDelta` | examples/wireelement.h:45-50 | after update2 delta is 0, and update2 is idempotent |
| `Wire.LinksMutual` | examples/wireelement.cc:105-110 | the right neighbour of i's left neighbour is i, and the other way round |
| `Wire.NewTemp` | examples/wireelement.cc:14-49 | a static element keeps its new value; an element with an equation, plain or communicating, steps from its linked neighbours alone (a missing side as 0), whatever it received, as line 46 is written |
| `Wire.UpdatedCells` | examples/wireelement.cc:14-49 | the update phase writes only each element's new value, to what its update (NewTemp, as written) computes from the previous cycle's temperatures |
| `Wire.Step` | examples/wireelement.cc:145-155 | a cycle keeps every element's kind, equation and links |
| `Wire.ReportMeansConverged` | examples/wireelement.cc:149-161 | a report starts with 'T' iff no element moved by more than epsilon, and lists the temperatures after the cycle |
| `Wire.StepKeepsStatic` | examples/wireelement.h:83-85 | a static element never changes, and after a cycle every delta is 0 |
| `Wire.LevelWireIsSteady` | examples/wireelement.cc:14-22 | a wire without equations, level at v with received values v, stays at v and reports 'T' |
| `Wire.StaticStaysFixed` | examples/wireelement.h:83-85 | the fixed ends keep their value for the whole run |
| `Wire.FirstTerminate` | examples/wireelement.cc:169-170 | the first "terminate" order, preceded only by "continue" orders |
| `Wire.StringKind` | examples/wibstring.cc:43-48 | a string fragment has no static element |
| `Wire.WireFragmentsFaceEachOther` | examples/wireelement.cc:86-100 | the last element of fragment r exchanges with r+1 and the first of r+1 with r; the wire is fixed at 0.0 on the first fragment and at 100.0 on the last |
| `Wire.StringFragmentsFaceEachOther` | examples/wibstring.cc:43-48 | adjacent string fragments exchange with each other, and the string's ends are ordinary elements |
| `Wire.SingleElementFragment` | examples/wireelement.cc:86-97 | a one-element fragment follows the first-element rule only |
| `Wire.CommAsWrittenIgnoresReceived` | examples/wireelement.cc:43-46 | as written, a string fragment's first element computes the same value whatever it received, as if its left neighbour were 0 |
| `Wire.CommStepUsesReceived` | examples/wireelement.cc:43-46 | as intended, the received value stands in for the missing neighbour, and different received values give different results |
| `Wire.WireFragment.Make` | examples/wireelement.cc:81-103 | len linked elements with the kinds and temperatures of make, without equations |
| `Wire.WireFragment.MakeString` | examples/wibstring.cc:29-52 | len linked elements with the string kinds, the initial values, and their own fresh equations with tau 0.3 |
| `Wire.WireFragment.Link` | examples/wireelement.cc:105-110 | element i gets left i-1 iff i > 0 and right i+1 iff it is not the last; nothing else changes |
| `Wire.WireFragment.UpdateElement` | examples/wireelement.cc:14-49 | update of one element writes only its new value, to NewTemp as written (a side without a link passed to calc as null), and its equation's previous value |
| `Wire.WireFragment.UpdateAll` | examples/wireelement.cc:145-146 | all updates read the previous cycle's temperatures: the elements become the update phase of the old elements, with the CommElement rule as written |
| `Wire.WireFragment.CommitAll` | examples/wireelement.cc:149-155 | every element is committed, and the flag is true iff every delta read before its update2 is at most epsilon |
| `Wire.WireFragment.Cycle` | examples/wireelement.cc:145-166 | the fragment takes one Step (the update phase as written, then the commit) and returns that cycle's report |
| `Wire.WireFragment.Run` | examples/wireelement.cc:138-172 | runs exactly up to and including the cycle whose order is the first "terminate"; the state and reports are those of that many cycles of Step, with the CommElement rule as written |
| `WireMaster.TruncDiv` | examples/wire.cc:24 | C++ integer division of a by a positive divisor truncates toward zero |
| `WireMaster.ChildLength` | examples/wire.cc:24 | childlen is wirelen / (size-1), truncated; with no child there is no divisor and the result is an error |
| `WireMaster.Broadcast` | examples/wire.cc:70-71 | every child gets the same order, "terminate" iff finished |
| `WireMaster.CollectRound` | examples/wire.cc:44-51 | finished iff no report of the round starts with 'N' |
| `WireMaster.SendOrders` | examples/wire.cc:70-71 | the orders sent are the broadcast |
| `WireMaster.WireMasterRounds` | examples/wire.cc:36-72 | the master stops after the first finished round (all under epsilon, or t ≥ maxcycles), so at most maxcycles+1 rounds and one round if the first is converged; every round broadcasts "continue" except the last, which broadcasts "terminate" |
| `WireMaster.StringMasterRounds` | examples/wibstring.cc:85-94 | the string master sends exactly maxcycles+1 rounds (one when maxcycles < 0), "terminate" only in the last |
| `WireMaster.NeverConvergedRunsToCap` | examples/wire.cc:44-67 | if some child reports 'N' in every round, the wire master runs the full maxcycles+1 rounds |
| `WireMaster.ChildStopsWithMaster` | examples/wireelement.cc:169-170 | under either master each child's run ends exactly at the master's last round |
| `MMul.Product` | examples/mmul.cc:20-26 | reference product: entry (i, j) is the sum over k of x[i][k]·y[k][j] |
| `MMul.IdentityLeft` | examples/mmul.cc:20-26 | I·y == y |
| `MMul.IdentityRight` | examples/mmul.cc:20-26 | x·I == x |
| `MMul.AccessesInBoundsIff` | examples/mmul.cc:19-25 | for matrices without an empty dimension, every read is in bounds iff a.cols == b.rows and a.rows ≤ b.cols |
| `MMul.Multiply` | examples/mmul.cc:18-27 | the result is a fresh array, has a.cols rows and b.rows columns, and cell (r, c) is the sum, from 0, over k < a.rows of a[k, c]·b[r, k] |
| `MMul.PartialIsDot` | examples/mmul.cc:22-24 | the accumulated sum is the dot product of row r of B with column c of A |
| `MMul.ResultIsProduct` | examples/mmul.cc:44 | when b has as many columns as a has rows, the result is the product B·A; with a == b it is A² |

## Left out

- MPI itself is left out: processes, concurrency, message buffering,
  deadlock freedom of the send/receive pairing, and `MPI_Allreduce`. All
  ranks are simulated together, one step at a time, and every message is
  a copy.
- MPE graphics are left out: drawing in `compute`, `endOfCycle` and
  `updatePositions`, mouse input, the gnuplot pipe, and every `printf`.
  Only the colour-index expression and the palette reversal are modelled.
- Floating point is left out. All values are exact reals and nothing is
  said about rounding.
- The tile bounds use the integer form N·k/q. The source's double
  arithmetic plus 0.0001 is meant to give the same values, but that is
  not modelled.
- The grid side q is the integer square root, not the rounded double
  square root.
- `Body::force`, the distance, `updateVelocity`, `updatePosition`, the
  leapfrog time stepping and the initialisers (`RandomIniter`,
  `PresetIniter`) are left out. The force law and the distance are
  parameters of `NBody.Physics`.
- The `sin` initial values of `StringFragment::make` are a parameter of
  `Wire.WireFragment.MakeString`.
- The ASCII-text exchange of `CommElement` (`send`, the receive in
  `update`, `initComm`) is left out. What an element receives in a cycle
  is a parameter. The text formatting of reports (`%g`) is also left
  out: a report is its first letter and the list of temperatures.
- The orders a child receives and the reports the master collects are
  parameters. So are the command-line parameters of the programs.
- `WireFragment::print` is left out, because it is output only.
- The mCycle field of `FDGridSegment` is left out. `FDEngine.Execute`
  returns the cycle at which the loop ended.
- `Wire.StringEquation.Calc`: the guard at examples/wibstring.cc:12-13
  compares instead of assigning, so it has no effect. It is modelled as
  written, as a no-op.
- `Ring.CirculateForces` is modelled as written: every hop passes
  diagonal = true, so resident body k never meets the circulating body k
  of another rank (`Ring.SameIndexNeverMeets`). The intended all-pairs
  force is not proved, because the code does not compute it.
- The sweep stores each new value as soon as it is computed
  (examples/fdgrid.cc:61), so later cells of the same sweep read it. The
  model's sweep is this in-place row-major (Gauss-Seidel) order, not a
  Jacobi update.
- The payload's `compute` is modelled as a five-point stencil of the
  point and its four neighbours. A payload whose `compute` reads
  diagonal cells or `cycle()` cannot be expressed. heat.cc's `compute`
  is exactly such a stencil (`Heat.ComputeAtInteriorCell`).
- `Ring.FlattenBodies` assumes that sizeof(Body)/sizeof(float) is 7,
  that is, a Body has no padding.
- The `RingNBody` and `NBody` constructors are modelled only as far as
  the bodies and the ring neighbours go. Parameter parsing and the MPE
  window are left out.
- `MMul.Multiply` requires a.cols == b.rows and a.rows ≤ b.cols. For
  non-empty matrices, that is exactly the condition under which every
  read is in bounds (`MMul.AccessesInBoundsIff`). The C++ code checks
  nothing and reads out of bounds otherwise. Unlike the source, which
  re-makes the caller's matrix, the result is a fresh array.
- `WireMaster.ChildLength` returns an error when there is no child
  (size 1), where the C++ code divides by zero.

## Findings

| source | as written | input that shows it | evidently intended | confidence | as-written member | corrected member |
|---|---|---|---|---|---|---|
| examples/wireelement.cc:43-46 | `CommElement::update` with an equation puts the received value into leftTemp or rightTemp, but passes NULL to `calc` for the side that has no link, so the received value is never used and the missing side counts as 0; the fragment model (`Wire.NewTemp`) runs it as written | the first element (x = 0, previous value 0) of string fragment 2, right neighbour 0, receiving 1.0 or 0.0: both give 0 | the received value stands in for the missing neighbour: receiving 1.0 gives 0.09 (tau² · 1.0), receiving 0.0 gives 0 | not executed | `Wire.CommAsWrittenIgnoresReceived` | `Wire.CommStepUsesReceived` |
