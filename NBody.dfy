/** The N-body system (NBody): bodies with position, accumulated force,
    mass and velocity, and the enumeration of body pairs whose forces are
    accumulated symmetrically. Forces are exact real vectors; the force
    law and the distance are parameters. */
module NBody {
  import VL = VectorLayout

  /** A 2-D coordinate (Coord2D). */
  datatype Vec = Vec(x: real, y: real)
  {
    function Plus(v: Vec): Vec reads {} { Vec(x + v.x, y + v.y) }
    function Minus(v: Vec): Vec reads {} { Vec(x - v.x, y - v.y) }
    function Neg(): Vec reads {} { Vec(-x, -y) }
  }

  const Zero: Vec := Vec(0.0, 0.0)

  /** A body, by value: PackArray<Body> holds the bodies themselves and
      MPI copies their raw floats. The accessors position(), mass() and
      totalForce() are the fields position, mass and forces. */
  datatype Body = Body(position: Vec, forces: Vec, mass: real, velocity: Vec)
  {
    /** resetForces: the force becomes (0, 0). */
    function ResetForces(): (b: Body)
      ensures b.forces == Zero && SameParticle(b, this)
    {
      this.(forces := Zero)
    }

    /** addForce: the force grows by f. */
    function AddForce(f: Vec): (b: Body)
      ensures b.forces == forces.Plus(f) && SameParticle(b, this)
    {
      this.(forces := forces.Plus(f))
    }

    function SetMass(m: real): (b: Body)
      ensures b.mass == m
      ensures b.position == position && b.forces == forces && b.velocity == velocity
    {
      this.(mass := m)
    }

    function SetPosition(p: Vec): (b: Body)
      ensures b.position == p
      ensures b.mass == mass && b.forces == forces && b.velocity == velocity
    {
      this.(position := p)
    }

    function SetVelocity(v: Vec): (b: Body)
      ensures b.velocity == v
      ensures b.mass == mass && b.forces == forces && b.position == position
    {
      this.(velocity := v)
    }
  }

  /** Everything but the accumulated force is the same. */
  predicate SameParticle(b: Body, c: Body)
  {
    b.position == c.position && b.mass == c.mass && b.velocity == c.velocity
  }

  /** The physics the enumeration is parametrised by: the minimum distance
      mMinR, the force on a body of given position and mass from another
      (Body::force), and the distance of two positions. */
  datatype Physics = Physics(minR: real, law: (Vec, real, Vec, real) -> Vec, dist: (Vec, Vec) -> real)

  /** A pair's force is accumulated only if the bodies are further apart
      than the minimum distance. */
  predicate Applies(x: Body, y: Body, ph: Physics)
  {
    ph.dist(x.position, y.position) > ph.minR
  }

  function Force(x: Body, y: Body, ph: Physics): Vec
  {
    ph.law(x.position, x.mass, y.position, y.mass)
  }

  /** What a visited pair adds to the first body's force (and subtracts
      from the second's). */
  function Contribution(x: Body, y: Body, ph: Physics): Vec
  {
    if Applies(x, y, ph) then Force(x, y, ph) else Zero
  }

  /** Sum of the accumulated forces of a sequence of bodies. */
  function TotalForce(s: seq<Body>): Vec
  {
    if |s| == 0 then Zero else TotalForce(s[..|s| - 1]).Plus(s[|s| - 1].forces)
  }

  /** Replacing one body changes the total by the change of its force. */
  lemma {:induction false} TotalForceUpdate(s: seq<Body>, k: nat, b: Body)
    requires k < |s|
    ensures TotalForce(s[k := b]) == TotalForce(s).Minus(s[k].forces).Plus(b.forces)
    decreases |s|
  {
    var t := s[k := b];
    assert t[..|t| - 1] == if k == |s| - 1 then s[..|s| - 1] else s[..|s| - 1][k := b];
    if k < |s| - 1 {
      TotalForceUpdate(s[..|s| - 1], k, b);
    }
  }

  // ---------------------------------------------------------------------
  // Pair enumeration of calculateForces

  /** Pair (i, j): resident body a[i] with body b[j]. */
  datatype Pair = Pair(i: nat, j: nat)

  /** The first j of row i: i+1 for the upper triangle (diagonal), else 0. */
  function RowStart(i: nat, diagonal: bool): nat
  {
    if diagonal then i + 1 else 0
  }

  /** The pairs (i, lo) .. (i, hi-1). */
  function RowPairs(i: nat, lo: nat, hi: nat): (r: seq<Pair>)
    ensures |r| == if lo <= hi then hi - lo else 0
    ensures forall k :: 0 <= k < |r| ==> r[k] == Pair(i, lo + k)
  {
    if lo < hi then seq(hi - lo, k requires 0 <= k < hi - lo => Pair(i, lo + k)) else []
  }

  /** The pairs visited in rows 0 .. i-1 against m bodies, row by row. */
  function PairsBefore(m: nat, diagonal: bool, i: nat): seq<Pair>
  {
    if i == 0 then [] else PairsBefore(m, diagonal, i - 1) + RowPairs(i - 1, RowStart(i - 1, diagonal), m)
  }

  /** The pairs calculateForces visits for n resident and m other bodies,
      in the order it visits them. */
  function Pairs(n: nat, m: nat, diagonal: bool): seq<Pair>
  {
    PairsBefore(m, diagonal, n)
  }

  /** Row-major order: strictly increasing by row, then by column. */
  predicate Before(p: Pair, r: Pair)
  {
    p.i < r.i || (p.i == r.i && p.j < r.j)
  }

  /** The pairs visited are exactly those with i < n and j < m, and with
      diagonal also i < j (the upper triangle); they come in row-major
      order, so none is visited twice. */
  lemma {:induction false} PairsExact(n: nat, m: nat, diagonal: bool)
    ensures forall p: Pair :: p in Pairs(n, m, diagonal) <==> p.i < n && p.j < m && (diagonal ==> p.i < p.j)
    ensures forall x, y :: 0 <= x < y < |Pairs(n, m, diagonal)| ==> Before(Pairs(n, m, diagonal)[x], Pairs(n, m, diagonal)[y])
  {
    if n > 0 {
      PairsExact(n - 1, m, diagonal);
      var prev, row := Pairs(n - 1, m, diagonal), RowPairs(n - 1, RowStart(n - 1, diagonal), m);
      assert Pairs(n, m, diagonal) == prev + row;
      forall p: Pair | p in prev + row
        ensures p.i < n && p.j < m && (diagonal ==> p.i < p.j)
      {
        if p in row {
          var k :| 0 <= k < |row| && row[k] == p;
        }
      }
      forall p: Pair | p.i < n && p.j < m && (diagonal ==> p.i < p.j)
        ensures p in prev + row
      {
        if p.i == n - 1 {
          assert row[p.j - RowStart(n - 1, diagonal)] == p;
        } else {
          assert p in prev;
        }
      }
      forall x, y | 0 <= x < y < |prev + row|
        ensures Before((prev + row)[x], (prev + row)[y])
      {
        if y >= |prev| && x < |prev| {
          assert prev[x] in prev;
        }
      }
    }
  }

  // ---------------------------------------------------------------------
  // calculateForces as a fold over the pairs

  /** The two body arrays calculateForces works on, as values. */
  datatype Buffers = Buffers(a: seq<Body>, b: seq<Body>)

  ghost predicate InRange(ps: seq<Pair>, n: nat, m: nat)
  {
    forall k :: 0 <= k < |ps| ==> ps[k].i < n && ps[k].j < m
  }

  /** Visiting one pair: if the bodies are far enough apart, a[i] gains the
      force f and b[j] gains -f. With `same`, a and b are one array, so the
      second update sees the first. */
  function Step(s: Buffers, same: bool, ph: Physics, p: Pair): Buffers
    requires p.i < |s.a| && p.j < |s.b| && (same ==> s.a == s.b)
  {
    if !Applies(s.a[p.i], s.b[p.j], ph) then s
    else
      var f := Force(s.a[p.i], s.b[p.j], ph);
      var a1 := s.a[p.i := s.a[p.i].AddForce(f)];
      if same then
        var a2 := a1[p.j := a1[p.j].AddForce(f.Neg())];
        Buffers(a2, a2)
      else
        Buffers(a1, s.b[p.j := s.b[p.j].AddForce(f.Neg())])
  }

  /** Visiting the pairs `ps` in order. */
  function Fold(s: Buffers, same: bool, ph: Physics, ps: seq<Pair>): (r: Buffers)
    requires InRange(ps, |s.a|, |s.b|) && (same ==> s.a == s.b)
    ensures |r.a| == |s.a| && |r.b| == |s.b| && (same ==> r.a == r.b)
    decreases |ps|
  {
    if ps == [] then s
    else Step(Fold(s, same, ph, ps[..|ps| - 1]), same, ph, ps[|ps| - 1])
  }

  /** Sum of the contributions of the pairs of `ps` in row k, from the
      bodies of `s`. */
  function RowSum(s: Buffers, ph: Physics, ps: seq<Pair>, k: nat): Vec
    decreases |ps|
  {
    if ps == [] then Zero
    else RowSum(s, ph, ps[..|ps| - 1], k).Plus(RowTerm(s, ph, ps[|ps| - 1], k))
  }

  /** What pair p contributes to row k. */
  function RowTerm(s: Buffers, ph: Physics, p: Pair, k: nat): Vec
  {
    if p.i == k && p.i < |s.a| && p.j < |s.b| then Contribution(s.a[p.i], s.b[p.j], ph) else Zero
  }

  /** Sum of the contributions of the pairs of `ps` in column k. */
  function ColumnSum(s: Buffers, ph: Physics, ps: seq<Pair>, k: nat): Vec
    decreases |ps|
  {
    if ps == [] then Zero
    else ColumnSum(s, ph, ps[..|ps| - 1], k).Plus(ColumnTerm(s, ph, ps[|ps| - 1], k))
  }

  /** What pair p contributes to column k. */
  function ColumnTerm(s: Buffers, ph: Physics, p: Pair, k: nat): Vec
  {
    if p.j == k && p.i < |s.a| && p.j < |s.b| then Contribution(s.a[p.i], s.b[p.j], ph) else Zero
  }

  /** Visiting pairs changes forces only: positions, masses and velocities
      stay as they were. */
  lemma {:induction false} FoldKeepsParticles(s: Buffers, same: bool, ph: Physics, ps: seq<Pair>)
    requires InRange(ps, |s.a|, |s.b|) && (same ==> s.a == s.b)
    ensures forall k :: 0 <= k < |s.a| ==> SameParticle(Fold(s, same, ph, ps).a[k], s.a[k])
    ensures forall k :: 0 <= k < |s.b| ==> SameParticle(Fold(s, same, ph, ps).b[k], s.b[k])
    decreases |ps|
  {
    if ps != [] {
      FoldKeepsParticles(s, same, ph, ps[..|ps| - 1]);
    }
  }

  /** For two distinct arrays, body a[k] ends with its force plus the
      contributions of its row, and body b[k] with its force minus those
      of its column. */
  lemma {:induction false} FoldForcesDistinct(s: Buffers, ph: Physics, ps: seq<Pair>)
    requires InRange(ps, |s.a|, |s.b|)
    ensures forall k :: 0 <= k < |s.a| ==> Fold(s, false, ph, ps).a[k].forces == s.a[k].forces.Plus(RowSum(s, ph, ps, k))
    ensures forall k :: 0 <= k < |s.b| ==> Fold(s, false, ph, ps).b[k].forces == s.b[k].forces.Minus(ColumnSum(s, ph, ps, k))
    decreases |ps|
  {
    if ps != [] {
      var init := ps[..|ps| - 1];
      FoldForcesDistinct(s, ph, init);
      FoldKeepsParticles(s, false, ph, init);
    }
  }

  /** When both arguments are the same array, body k ends with its force
      plus its row's contributions minus its column's. */
  lemma {:induction false} FoldForcesSame(s: Buffers, ph: Physics, ps: seq<Pair>)
    requires InRange(ps, |s.a|, |s.b|) && s.a == s.b
    ensures forall k :: 0 <= k < |s.a| ==>
              Fold(s, true, ph, ps).a[k].forces == s.a[k].forces.Plus(RowSum(s, ph, ps, k)).Minus(ColumnSum(s, ph, ps, k))
    decreases |ps|
  {
    if ps != [] {
      var init := ps[..|ps| - 1];
      FoldForcesSame(s, ph, init);
      FoldKeepsParticles(s, true, ph, init);
      forall k | 0 <= k < |s.a|
        ensures Fold(s, true, ph, ps).a[k].forces ==
                s.a[k].forces.Plus(RowSum(s, ph, ps, k)).Minus(ColumnSum(s, ph, ps, k))
      {
        StepForceSame(s, Fold(s, true, ph, init), ph, ps[|ps| - 1], k, RowSum(s, ph, init, k), ColumnSum(s, ph, init, k));
      }
    }
  }

  /** One visited pair, on a single array, adds its row term to body k
      and subtracts its column term. */
  lemma {:induction false} StepForceSame(s: Buffers, t: Buffers, ph: Physics, p: Pair, k: nat, r: Vec, c: Vec)
    requires s.a == s.b && t.a == t.b && |t.a| == |s.a| && p.i < |s.a| && p.j < |s.a| && k < |s.a|
    requires SameParticle(t.a[p.i], s.a[p.i]) && SameParticle(t.a[p.j], s.a[p.j])
    requires t.a[k].forces == s.a[k].forces.Plus(r).Minus(c)
    ensures Step(t, true, ph, p).a[k].forces ==
            s.a[k].forces.Plus(r.Plus(RowTerm(s, ph, p, k))).Minus(c.Plus(ColumnTerm(s, ph, p, k)))
  {
  }

  /** Every visited pair adds f to one body and -f to another, so the total
      force over both arrays is unchanged; when both are the same array,
      its own total is unchanged. */
  lemma {:induction false} FoldConservesForce(s: Buffers, same: bool, ph: Physics, ps: seq<Pair>)
    requires InRange(ps, |s.a|, |s.b|) && (same ==> s.a == s.b)
    ensures !same ==> TotalForce(Fold(s, same, ph, ps).a).Plus(TotalForce(Fold(s, same, ph, ps).b)) ==
                      TotalForce(s.a).Plus(TotalForce(s.b))
    ensures same ==> TotalForce(Fold(s, same, ph, ps).a) == TotalForce(s.a)
    decreases |ps|
  {
    if ps != [] {
      var init := ps[..|ps| - 1];
      FoldConservesForce(s, same, ph, init);
      StepConservesForce(Fold(s, same, ph, init), same, ph, ps[|ps| - 1]);
    }
  }

  /** One visited pair leaves the total force unchanged. */
  lemma {:induction false} StepConservesForce(t: Buffers, same: bool, ph: Physics, p: Pair)
    requires p.i < |t.a| && p.j < |t.b| && (same ==> t.a == t.b)
    ensures !same ==> TotalForce(Step(t, same, ph, p).a).Plus(TotalForce(Step(t, same, ph, p).b)) ==
                      TotalForce(t.a).Plus(TotalForce(t.b))
    ensures same ==> TotalForce(Step(t, same, ph, p).a) == TotalForce(t.a)
  {
    if Applies(t.a[p.i], t.b[p.j], ph) {
      var f := Force(t.a[p.i], t.b[p.j], ph);
      var a1 := t.a[p.i := t.a[p.i].AddForce(f)];
      TotalForceUpdate(t.a, p.i, t.a[p.i].AddForce(f));
      if same {
        TotalForceUpdate(a1, p.j, a1[p.j].AddForce(f.Neg()));
      } else {
        TotalForceUpdate(t.b, p.j, t.b[p.j].AddForce(f.Neg()));
      }
    }
  }

  // ---------------------------------------------------------------------
  // Closed forms of the row and column sums over the enumerated pairs

  /** The contributions to body x from bs[lo] .. bs[hi-1]. */
  function RowTotal(x: Body, bs: seq<Body>, lo: nat, hi: nat, ph: Physics): Vec
    requires hi <= |bs|
  {
    if hi <= lo then Zero else RowTotal(x, bs, lo, hi - 1, ph).Plus(Contribution(x, bs[hi - 1], ph))
  }

  /** The contributions of as[0] .. as[hi-1] against body y. */
  function ColumnTotal(xs: seq<Body>, y: Body, hi: nat, ph: Physics): Vec
    requires hi <= |xs|
  {
    if hi == 0 then Zero else ColumnTotal(xs, y, hi - 1, ph).Plus(Contribution(xs[hi - 1], y, ph))
  }

  /** Sums over a concatenation add up. */
  lemma {:induction false} RowSumAppend(s: Buffers, ph: Physics, ps: seq<Pair>, qs: seq<Pair>, k: nat)
    ensures RowSum(s, ph, ps + qs, k) == RowSum(s, ph, ps, k).Plus(RowSum(s, ph, qs, k))
    decreases |qs|
  {
    if qs == [] {
      assert ps + qs == ps;
    } else {
      var init, p := qs[..|qs| - 1], qs[|qs| - 1];
      var all := ps + qs;
      var t := RowTerm(s, ph, p, k);
      var u, v := RowSum(s, ph, ps, k), RowSum(s, ph, init, k);
      assert RowSum(s, ph, ps + init, k) == u.Plus(v) by {
        RowSumAppend(s, ph, ps, init, k);
      }
      assert RowSum(s, ph, all, k) == RowSum(s, ph, ps + init, k).Plus(t) by {
        assert all[..|all| - 1] == ps + init;
        assert all[|all| - 1] == p;
      }
      assert RowSum(s, ph, qs, k) == v.Plus(t);
      assert u.Plus(v).Plus(t) == u.Plus(v.Plus(t));
    }
  }

  lemma {:induction false} ColumnSumAppend(s: Buffers, ph: Physics, ps: seq<Pair>, qs: seq<Pair>, k: nat)
    ensures ColumnSum(s, ph, ps + qs, k) == ColumnSum(s, ph, ps, k).Plus(ColumnSum(s, ph, qs, k))
    decreases |qs|
  {
    if qs == [] {
      assert ps + qs == ps;
    } else {
      var init, p := qs[..|qs| - 1], qs[|qs| - 1];
      var all := ps + qs;
      var t := ColumnTerm(s, ph, p, k);
      var u, v := ColumnSum(s, ph, ps, k), ColumnSum(s, ph, init, k);
      assert ColumnSum(s, ph, ps + init, k) == u.Plus(v) by {
        ColumnSumAppend(s, ph, ps, init, k);
      }
      assert ColumnSum(s, ph, all, k) == ColumnSum(s, ph, ps + init, k).Plus(t) by {
        assert all[..|all| - 1] == ps + init;
        assert all[|all| - 1] == p;
      }
      assert ColumnSum(s, ph, qs, k) == v.Plus(t);
      assert u.Plus(v).Plus(t) == u.Plus(v.Plus(t));
    }
  }

  /** Row r of the enumeration contributes to row r only. */
  lemma {:induction false} RowSumOfRow(s: Buffers, ph: Physics, r: nat, lo: nat, hi: nat, k: nat)
    requires r < |s.a| && hi <= |s.b|
    ensures RowSum(s, ph, RowPairs(r, lo, hi), k) == if r == k then RowTotal(s.a[k], s.b, lo, hi, ph) else Zero
    decreases hi
  {
    var ps := RowPairs(r, lo, hi);
    if lo < hi {
      assert RowSum(s, ph, RowPairs(r, lo, hi - 1), k) == if r == k then RowTotal(s.a[k], s.b, lo, hi - 1, ph) else Zero by {
        RowSumOfRow(s, ph, r, lo, hi - 1, k);
      }
      assert RowSum(s, ph, ps, k) == RowSum(s, ph, RowPairs(r, lo, hi - 1), k).Plus(RowTerm(s, ph, Pair(r, hi - 1), k)) by {
        assert ps[..|ps| - 1] == RowPairs(r, lo, hi - 1);
        assert ps[|ps| - 1] == Pair(r, hi - 1);
      }
    }
  }

  /** Row r of the enumeration, from column lo to hi-1, meets column k
      once if lo <= k < hi and otherwise not at all. */
  lemma {:induction false} ColumnSumOfRow(s: Buffers, ph: Physics, r: nat, lo: nat, hi: nat, k: nat)
    requires r < |s.a| && hi <= |s.b|
    ensures ColumnSum(s, ph, RowPairs(r, lo, hi), k) == if lo <= k < hi then Contribution(s.a[r], s.b[k], ph) else Zero
    decreases hi
  {
    var ps := RowPairs(r, lo, hi);
    if lo < hi {
      assert ColumnSum(s, ph, RowPairs(r, lo, hi - 1), k) == if lo <= k < hi - 1 then Contribution(s.a[r], s.b[k], ph) else Zero by {
        ColumnSumOfRow(s, ph, r, lo, hi - 1, k);
      }
      assert ColumnSum(s, ph, ps, k) == ColumnSum(s, ph, RowPairs(r, lo, hi - 1), k).Plus(ColumnTerm(s, ph, Pair(r, hi - 1), k)) by {
        assert ps[..|ps| - 1] == RowPairs(r, lo, hi - 1);
        assert ps[|ps| - 1] == Pair(r, hi - 1);
      }
      if k == hi - 1 {
        assert ColumnTerm(s, ph, Pair(r, hi - 1), k) == Contribution(s.a[r], s.b[k], ph);
      } else {
        assert ColumnTerm(s, ph, Pair(r, hi - 1), k) == Zero;
      }
    }
  }

  /** Over all enumerated pairs, row k adds up the contributions to a[k]
      from b[RowStart(k)] .. b[m-1]. */
  lemma {:induction false} RowSumOfPairs(s: Buffers, ph: Physics, n: nat, diagonal: bool, k: nat)
    requires n <= |s.a| && k < n
    ensures RowSum(s, ph, Pairs(n, |s.b|, diagonal), k) == RowTotal(s.a[k], s.b, RowStart(k, diagonal), |s.b|, ph)
    decreases n
  {
    var t := RowTotal(s.a[k], s.b, RowStart(k, diagonal), |s.b|, ph);
    var before := RowSum(s, ph, Pairs(n - 1, |s.b|, diagonal), k);
    RowSumAddRow(s, ph, n, diagonal, k);
    if k < n - 1 {
      RowSumOfPairs(s, ph, n - 1, diagonal, k);
      assert RowSum(s, ph, Pairs(n, |s.b|, diagonal), k) == t.Plus(Zero);
    } else {
      RowSumBeyond(s, ph, n - 1, diagonal, k);
      assert RowSum(s, ph, Pairs(n, |s.b|, diagonal), k) == Zero.Plus(t);
    }
  }

  /** Adding row n-1 to the enumeration adds that row's sum. */
  lemma {:induction false} RowSumAddRow(s: Buffers, ph: Physics, n: nat, diagonal: bool, k: nat)
    requires 0 < n <= |s.a|
    ensures RowSum(s, ph, Pairs(n, |s.b|, diagonal), k) ==
            RowSum(s, ph, Pairs(n - 1, |s.b|, diagonal), k).Plus(if n - 1 == k then RowTotal(s.a[k], s.b, RowStart(k, diagonal), |s.b|, ph) else Zero)
  {
    var m := |s.b|;
    var prev, row := Pairs(n - 1, m, diagonal), RowPairs(n - 1, RowStart(n - 1, diagonal), m);
    var x := if n - 1 == k then RowTotal(s.a[k], s.b, RowStart(k, diagonal), m, ph) else Zero;
    assert RowSum(s, ph, row, k) == x by {
      RowSumOfRow(s, ph, n - 1, RowStart(n - 1, diagonal), m, k);
    }
    assert RowSum(s, ph, prev + row, k) == RowSum(s, ph, prev, k).Plus(RowSum(s, ph, row, k)) by {
      RowSumAppend(s, ph, prev, row, k);
    }
    assert Pairs(n, m, diagonal) == prev + row;
  }

  /** Rows at or past n get nothing from the first n rows. */
  lemma {:induction false} RowSumBeyond(s: Buffers, ph: Physics, n: nat, diagonal: bool, k: nat)
    requires n <= |s.a| && n <= k
    ensures RowSum(s, ph, Pairs(n, |s.b|, diagonal), k) == Zero
    decreases n
  {
    if n > 0 {
      RowSumAddRow(s, ph, n, diagonal, k);
      RowSumBeyond(s, ph, n - 1, diagonal, k);
      assert Zero.Plus(Zero) == Zero;
    }
  }

  /** Over all enumerated pairs, column k adds up the contributions of
      a[0] .. a[n-1] against b[k], or, for the upper triangle, of those
      a[i] with i < k. */
  lemma {:induction false} ColumnSumOfPairs(s: Buffers, ph: Physics, n: nat, diagonal: bool, k: nat)
    requires n <= |s.a| && k < |s.b|
    ensures ColumnSum(s, ph, Pairs(n, |s.b|, diagonal), k) ==
            ColumnTotal(s.a, s.b[k], if diagonal && k < n then k else n, ph)
  {
    ColumnSumByRows(s, ph, n, diagonal, k);
    ColumnRowsTotal(s, ph, n, diagonal, k);
  }

  /** Column k's sum over the enumeration, accumulated row by row. */
  ghost function ColumnRows(s: Buffers, ph: Physics, n: nat, diagonal: bool, k: nat): Vec
  {
    if n == 0 then Zero
    else ColumnRows(s, ph, n - 1, diagonal, k).Plus(ColumnSum(s, ph, RowPairs(n - 1, RowStart(n - 1, diagonal), |s.b|), k))
  }

  /** Summing column k over the enumeration is summing it row by row. */
  lemma {:induction false} ColumnSumByRows(s: Buffers, ph: Physics, n: nat, diagonal: bool, k: nat)
    ensures ColumnSum(s, ph, Pairs(n, |s.b|, diagonal), k) == ColumnRows(s, ph, n, diagonal, k)
  {
    if n > 0 {
      ColumnSumByRows(s, ph, n - 1, diagonal, k);
      ColumnSumAddRow(s, ph, n, diagonal, k);
      ColumnRowsStep(s, ph, n, diagonal, k);
    } else {
      ColumnRowsNone(s, ph, diagonal, k);
    }
  }

  /** One more row adds that row's column sum. */
  lemma ColumnRowsStep(s: Buffers, ph: Physics, n: nat, diagonal: bool, k: nat)
    requires n > 0
    ensures ColumnRows(s, ph, n, diagonal, k) ==
            ColumnRows(s, ph, n - 1, diagonal, k).Plus(ColumnSum(s, ph, RowPairs(n - 1, RowStart(n - 1, diagonal), |s.b|), k))
  {
  }

  /** With no rows the column sum is zero. */
  lemma ColumnRowsNone(s: Buffers, ph: Physics, diagonal: bool, k: nat)
    ensures ColumnSum(s, ph, Pairs(0, |s.b|, diagonal), k) == ColumnRows(s, ph, 0, diagonal, k)
  {
  }

  /** Row by row, column k collects the contributions of the rows that
      reach it. */
  lemma {:induction false} ColumnRowsTotal(s: Buffers, ph: Physics, n: nat, diagonal: bool, k: nat)
    requires n <= |s.a| && k < |s.b|
    ensures ColumnRows(s, ph, n, diagonal, k) == ColumnTotal(s.a, s.b[k], if diagonal && k < n then k else n, ph)
  {
    if n > 0 {
      ColumnRowsTotal(s, ph, n - 1, diagonal, k);
      ColumnSumOfRow(s, ph, n - 1, RowStart(n - 1, diagonal), |s.b|, k);
      ColumnTotalStep(s.a, s.b[k], n, diagonal, k, ph);
    }
  }

  /** Column k's total bound grows with row n-1 exactly when row n-1
      reaches column k. */
  lemma {:induction false} ColumnTotalStep(xs: seq<Body>, y: Body, n: nat, diagonal: bool, k: nat, ph: Physics)
    requires 0 < n <= |xs|
    ensures ColumnTotal(xs, y, if diagonal && k < n then k else n, ph) ==
            ColumnTotal(xs, y, if diagonal && k < n - 1 then k else n - 1, ph).Plus(
              if RowStart(n - 1, diagonal) <= k then Contribution(xs[n - 1], y, ph) else Zero)
  {
    if diagonal && k < n {
      var t := ColumnTotal(xs, y, k, ph);
      assert t.Plus(Zero) == t;
    }
  }

  /** The first n rows are the first n-1 rows followed by row n-1. */
  lemma {:induction false} PairsAddRow(n: nat, m: nat, diagonal: bool)
    requires 0 < n
    ensures Pairs(n, m, diagonal) == Pairs(n - 1, m, diagonal) + RowPairs(n - 1, RowStart(n - 1, diagonal), m)
  {
  }

  /** Adding row n-1 to the enumeration adds that row's column sum. */
  lemma {:induction false} ColumnSumAddRow(s: Buffers, ph: Physics, n: nat, diagonal: bool, k: nat)
    requires 0 < n
    ensures ColumnSum(s, ph, Pairs(n, |s.b|, diagonal), k) ==
            ColumnSum(s, ph, Pairs(n - 1, |s.b|, diagonal), k).Plus(
              ColumnSum(s, ph, RowPairs(n - 1, RowStart(n - 1, diagonal), |s.b|), k))
  {
    var m := |s.b|;
    PairsAddRow(n, m, diagonal);
    ColumnSumAppend(s, ph, Pairs(n - 1, m, diagonal), RowPairs(n - 1, RowStart(n - 1, diagonal), m), k);
  }

  lemma {:induction false} PairsInRange(s: Buffers, n: nat, diagonal: bool)
    requires n <= |s.a|
    ensures InRange(Pairs(n, |s.b|, diagonal), |s.a|, |s.b|)
  {
    PairsExact(n, |s.b|, diagonal);
    forall k | 0 <= k < |Pairs(n, |s.b|, diagonal)|
      ensures Pairs(n, |s.b|, diagonal)[k].i < |s.a| && Pairs(n, |s.b|, diagonal)[k].j < |s.b|
    {
      assert Pairs(n, |s.b|, diagonal)[k] in Pairs(n, |s.b|, diagonal);
    }
  }

  /** The pairs calculateForces has visited when it is about to visit
      (i, j). */
  ghost function RowPrefix(m: nat, diagonal: bool, i: nat, j: nat): seq<Pair>
  {
    PairsBefore(m, diagonal, i) + RowPairs(i, RowStart(i, diagonal), j)
  }

  /** The prefix starts as the rows before i, grows by one pair per step,
      ends as the rows up to i, and stays inside the arrays. */
  lemma {:induction false} RowPrefixFacts(s: Buffers, diagonal: bool, i: nat, j: nat)
    requires i < |s.a| && RowStart(i, diagonal) <= j && (j <= |s.b| || j == RowStart(i, diagonal))
    ensures j == RowStart(i, diagonal) ==> RowPrefix(|s.b|, diagonal, i, j) == PairsBefore(|s.b|, diagonal, i)
    ensures j < |s.b| ==> RowPrefix(|s.b|, diagonal, i, j + 1) == RowPrefix(|s.b|, diagonal, i, j) + [Pair(i, j)]
    ensures j >= |s.b| ==> RowPrefix(|s.b|, diagonal, i, j) == PairsBefore(|s.b|, diagonal, i + 1)
    ensures j <= |s.b| ==> InRange(RowPrefix(|s.b|, diagonal, i, j), |s.a|, |s.b|)
    ensures InRange(PairsBefore(|s.b|, diagonal, i), |s.a|, |s.b|)
    ensures InRange(PairsBefore(|s.b|, diagonal, i + 1), |s.a|, |s.b|)
  {
    var m := |s.b|;
    var lo := RowStart(i, diagonal);
    PairsInRange(s, i, diagonal);
    PairsInRange(s, i + 1, diagonal);
    if j == lo {
      assert RowPairs(i, lo, j) == [];
    }
    if j < m {
      assert RowPairs(i, lo, j + 1) == RowPairs(i, lo, j) + [Pair(i, j)];
    }
    if j >= m {
      assert RowPairs(i, lo, j) == RowPairs(i, lo, m);
    }
  }

  /** Forces in closed form: for two distinct arrays, a[k] gains the
      contributions of b[RowStart(k)] .. b[m-1] and b[k] loses those of
      a[0] .. a[n-1] (for the upper triangle only those a[i] with i < k);
      for one array, body k does both. */
  lemma {:induction false} ForcesClosedForm(s: Buffers, same: bool, ph: Physics, diagonal: bool)
    requires same ==> s.a == s.b
    ensures InRange(Pairs(|s.a|, |s.b|, diagonal), |s.a|, |s.b|)
    ensures !same ==> forall k :: 0 <= k < |s.a| ==>
              Fold(s, same, ph, Pairs(|s.a|, |s.b|, diagonal)).a[k].forces ==
              s.a[k].forces.Plus(RowTotal(s.a[k], s.b, RowStart(k, diagonal), |s.b|, ph))
    ensures !same ==> forall k :: 0 <= k < |s.b| ==>
              Fold(s, same, ph, Pairs(|s.a|, |s.b|, diagonal)).b[k].forces ==
              s.b[k].forces.Minus(ColumnTotal(s.a, s.b[k], if diagonal && k < |s.a| then k else |s.a|, ph))
    ensures same ==> forall k :: 0 <= k < |s.a| ==>
              Fold(s, same, ph, Pairs(|s.a|, |s.b|, diagonal)).a[k].forces ==
              s.a[k].forces.Plus(RowTotal(s.a[k], s.b, RowStart(k, diagonal), |s.b|, ph))
                           .Minus(ColumnTotal(s.a, s.b[k], if diagonal then k else |s.a|, ph))
  {
    var n, ps := |s.a|, Pairs(|s.a|, |s.b|, diagonal);
    PairsInRange(s, n, diagonal);
    if same {
      FoldForcesSame(s, ph, ps);
    } else {
      FoldForcesDistinct(s, ph, ps);
    }
    forall k | 0 <= k < n
      ensures RowSum(s, ph, ps, k) == RowTotal(s.a[k], s.b, RowStart(k, diagonal), |s.b|, ph)
    {
      RowSumOfPairs(s, ph, n, diagonal, k);
    }
    forall k | 0 <= k < |s.b|
      ensures ColumnSum(s, ph, ps, k) == ColumnTotal(s.a, s.b[k], if diagonal && k < n then k else n, ph)
    {
      ColumnSumOfPairs(s, ph, n, diagonal, k);
    }
  }

  // ---------------------------------------------------------------------
  // The sequential system

  /** NBody: the bodies and the physics (minimum distance mMinR, force law,
      distance). */
  class NBodySystem {
    const bodies: array<Body>
    const ph: Physics

    /** mBodies.make(n); the bodies start at rest at the origin with no
        mass until an initialiser sets them. */
    constructor (n: nat, ph: Physics)
      ensures fresh(bodies) && bodies.Length == n && this.ph == ph
    {
      bodies := new Body[n](_ => Body(Zero, Zero, 0.0, Zero));
      this.ph := ph;
    }

    /** resetForces: every force becomes (0, 0); nothing else changes. */
    method ResetForces()
      modifies bodies
      ensures forall k :: 0 <= k < bodies.Length ==> bodies[k] == old(bodies[k]).ResetForces()
    {
      var k := 0;
      while k < bodies.Length
        invariant 0 <= k <= bodies.Length
        invariant forall l :: 0 <= l < bodies.Length ==> bodies[l] == if l < k then old(bodies[l]).ResetForces() else old(bodies[l])
      {
        bodies[k] := bodies[k].ResetForces();
        k := k + 1;
      }
    }

    /** calculateForces(a, b, diagonal): visits the pairs of Pairs in
        order; a and b may be the same array. What the visit leaves is
        given in closed form by ForcesClosedForm and FoldKeepsParticles. */
    method CalculateForces(a: array<Body>, b: array<Body>, diagonal: bool)
      modifies a, b
      ensures InRange(Pairs(a.Length, b.Length, diagonal), a.Length, b.Length)
      ensures Buffers(a[..], b[..]) == Fold(Buffers(old(a[..]), old(b[..])), a == b, ph, Pairs(a.Length, b.Length, diagonal))
    {
      ghost var s0 := Buffers(a[..], b[..]);
      var n, m := a.Length, b.Length;
      var i := 0;
      PairsInRange(s0, 0, diagonal);
      while i < n
        invariant 0 <= i <= n
        invariant Visited(a, b, s0, PairsBefore(m, diagonal, i))
      {
        VisitRow(a, b, diagonal, i, s0);
        i := i + 1;
      }
    }

    /** The bodies in a and b are those of s0 after visiting `done`. */
    ghost predicate Visited(a: array<Body>, b: array<Body>, s0: Buffers, done: seq<Pair>)
      reads a, b
    {
      && |s0.a| == a.Length && |s0.b| == b.Length && (a == b ==> s0.a == s0.b)
      && InRange(done, a.Length, b.Length)
      && Buffers(a[..], b[..]) == Fold(s0, a == b, ph, done)
    }

    /** Row i of calculateForces is visited up to column j. */
    ghost predicate InRow(a: array<Body>, b: array<Body>, s0: Buffers, diagonal: bool, i: nat, j: nat)
      reads a, b
    {
      && i < a.Length && RowStart(i, diagonal) <= j && (j <= b.Length || j == RowStart(i, diagonal))
      && Visited(a, b, s0, RowPrefix(b.Length, diagonal, i, j))
    }

    /** Row i of calculateForces: the pairs (i, RowStart(i)) .. (i, m-1). */
    method VisitRow(a: array<Body>, b: array<Body>, diagonal: bool, i: nat, ghost s0: Buffers)
      requires i < a.Length && Visited(a, b, s0, PairsBefore(b.Length, diagonal, i))
      modifies a, b
      ensures Visited(a, b, s0, PairsBefore(b.Length, diagonal, i + 1))
    {
      var j := RowStart(i, diagonal);
      RowBegins(a, b, diagonal, i, s0);
      while j < b.Length
        invariant InRow(a, b, s0, diagonal, i, j)
        decreases b.Length - j
      {
        VisitNext(a, b, diagonal, i, j, s0);
        j := j + 1;
      }
      RowEnds(a, b, diagonal, i, j, s0);
    }

    /** Before row i is visited, its prefix is the rows before it. */
    lemma RowBegins(a: array<Body>, b: array<Body>, diagonal: bool, i: nat, s0: Buffers)
      requires i < a.Length && Visited(a, b, s0, PairsBefore(b.Length, diagonal, i))
      ensures InRow(a, b, s0, diagonal, i, RowStart(i, diagonal))
    {
      RowPrefixFacts(s0, diagonal, i, RowStart(i, diagonal));
    }

    /** Once j is past the last column, row i is complete. */
    lemma RowEnds(a: array<Body>, b: array<Body>, diagonal: bool, i: nat, j: nat, s0: Buffers)
      requires InRow(a, b, s0, diagonal, i, j) && b.Length <= j
      ensures Visited(a, b, s0, PairsBefore(b.Length, diagonal, i + 1))
    {
      RowPrefixFacts(s0, diagonal, i, j);
    }

    /** The next pair of row i extends the visited prefix by one. */
    method VisitNext(a: array<Body>, b: array<Body>, diagonal: bool, i: nat, j: nat, ghost s0: Buffers)
      requires InRow(a, b, s0, diagonal, i, j) && j < b.Length
      modifies a, b
      ensures InRow(a, b, s0, diagonal, i, j + 1)
    {
      RowPrefixFacts(s0, diagonal, i, j);
      VisitPair(a, b, i, j, s0, RowPrefix(b.Length, diagonal, i, j));
    }

    /** One pair: if r > mMinR, a[i] gains the force and b[j] its opposite. */
    method VisitPair(a: array<Body>, b: array<Body>, i: nat, j: nat, ghost s0: Buffers, ghost done: seq<Pair>)
      requires i < a.Length && j < b.Length && |s0.a| == a.Length && |s0.b| == b.Length && (a == b ==> s0.a == s0.b)
      requires InRange(done, a.Length, b.Length)
      requires Buffers(a[..], b[..]) == Fold(s0, a == b, ph, done)
      modifies a, b
      ensures InRange(done + [Pair(i, j)], a.Length, b.Length)
      ensures Buffers(a[..], b[..]) == Fold(s0, a == b, ph, done + [Pair(i, j)])
    {
      assert (done + [Pair(i, j)])[..|done|] == done;
      if Applies(a[i], b[j], ph) {
        var f := Force(a[i], b[j], ph);
        a[i] := a[i].AddForce(f);
        b[j] := b[j].AddForce(f.Neg());
      }
    }
  }
}
