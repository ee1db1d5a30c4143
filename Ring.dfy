/** The ring-parallel N-body system (RingNBody): every rank keeps its own
    bodies resident and passes a copy of them round the ring of ranks, one
    hop per step, through two alternating buffers; each hop accumulates
    the forces between the resident and the circulating bodies, and the
    copy, back home after `size` hops, hands its accumulated forces over.
    All ranks are simulated together, one hop at a time. */
module Ring {
  import opened Failures
  import opened NBody
  import VL = VectorLayout
  import Arith

  // ---------------------------------------------------------------------
  // Ring topology

  /** mNext: the rank the circulating bodies are sent to. */
  function Next(rank: nat, size: nat): nat
    requires size > 0
  {
    (rank + 1) % size
  }

  /** mPrev: the rank they are received from. */
  function Prev(rank: nat, size: nat): nat
    requires size > 0
  {
    (rank as int - 1 + size) % size
  }

  /** Both neighbours are ranks of the ring, they are the ranks after and
      before `rank` (wrapping at the ends), and each undoes the other. */
  lemma {:induction false} RingNeighbours(rank: nat, size: nat)
    requires rank < size
    ensures Next(rank, size) < size && Prev(rank, size) < size
    ensures Next(rank, size) == if rank == size - 1 then 0 else rank + 1
    ensures Prev(rank, size) == if rank == 0 then size - 1 else rank - 1
    ensures Prev(Next(rank, size), size) == rank && Next(Prev(rank, size), size) == rank
  {
    NextValue(rank, size);
    PrevValue(rank, size);
    NextValue(Prev(rank, size), size);
    PrevValue(Next(rank, size), size);
  }

  lemma {:induction false} NextValue(rank: nat, size: nat)
    requires rank < size
    ensures Next(rank, size) == if rank == size - 1 then 0 else rank + 1
  {
    if rank == size - 1 {
      Arith.DivModUnique(rank + 1, size, 1, 0);
    } else {
      Arith.DivModUnique(rank + 1, size, 0, rank + 1);
    }
  }

  lemma {:induction false} PrevValue(rank: nat, size: nat)
    requires rank < size
    ensures Prev(rank, size) == if rank == 0 then size - 1 else rank - 1
  {
    if rank == 0 {
      Arith.DivModUnique(size - 1, size, 0, size - 1);
    } else {
      Arith.DivModUnique(rank - 1 + size, size, 1, rank - 1);
    }
  }

  /** The rank whose bodies rank p holds in its circulating buffer at hop
      i: (p - i) mod size (see OriginValue). */
  function Origin(p: nat, i: nat, size: nat): nat
    requires p < size && i <= size
  {
    if i <= p then p - i else p + size - i
  }

  /** The rank a copy of the bodies of rank o visits at hop h:
      (o + h) mod size (see HostValue). */
  function Host(o: nat, h: nat, size: nat): nat
    requires o < size && h < size
  {
    if o + h < size then o + h else o + h - size
  }

  lemma {:induction false} OriginValue(p: nat, i: nat, size: nat)
    requires p < size && i <= size
    ensures Origin(p, i, size) == (p + size - i) % size
  {
    if i <= p {
      Arith.DivModUnique(p + size - i, size, 1, p - i);
    } else {
      Arith.DivModUnique(p + size - i, size, 0, p + size - i);
    }
  }

  lemma {:induction false} HostValue(o: nat, h: nat, size: nat)
    requires o < size && h < size
    ensures Host(o, h, size) == (o + h) % size
  {
    if o + h < size {
      Arith.DivModUnique(o + h, size, 0, o + h);
    } else {
      Arith.DivModUnique(o + h, size, 1, o + h - size);
    }
  }

  /** The circulating buffer holds the rank's own bodies before the first
      hop and again after `size` hops; the buffer a rank receives at hop i
      is the one its predecessor held; and the bodies held at hop i sit at
      their i-th host. */
  lemma {:induction false} OriginFacts(p: nat, i: nat, size: nat)
    requires p < size && i < size
    ensures Origin(p, 0, size) == p && Origin(p, size, size) == p
    ensures Origin(Prev(p, size), i, size) == Origin(p, i + 1, size)
    ensures Origin(p, i, size) < size && Host(Origin(p, i, size), i, size) == p
  {
    PrevValue(p, size);
  }

  /** Over the `size` hops a rank meets the bodies of every rank exactly
      once, and a copy visits every rank exactly once. */
  lemma {:induction false} HopsMeetEveryRank(p: nat, q: nat, size: nat)
    requires p < size && q < size
    ensures exists h :: 0 <= h < size && Origin(p, h, size) == q
    ensures forall h, h' :: 0 <= h < size && 0 <= h' < size && Origin(p, h, size) == q && Origin(p, h', size) == q ==> h == h'
    ensures exists h :: 0 <= h < size && Host(p, h, size) == q
    ensures forall h, h' :: 0 <= h < size && 0 <= h' < size && Host(p, h, size) == q && Host(p, h', size) == q ==> h == h'
  {
    var h := if q <= p then p - q else p + size - q;
    assert Origin(p, h, size) == q;
    var g := if p <= q then q - p else q + size - p;
    assert Host(p, g, size) == q;
  }

  // ---------------------------------------------------------------------
  // The strided transfer of bodies

  /** sizeof(Body)/sizeof(float): position (2), forces (2), mass (1) and
      velocity (2), with no padding. */
  const BodyFloats: nat := 7

  /** Float f of a body, in the order of Body's members. */
  function Field(b: Body, f: nat): real
    requires f < BodyFloats
  {
    if f == 0 then b.position.x
    else if f == 1 then b.position.y
    else if f == 2 then b.forces.x
    else if f == 3 then b.forces.y
    else if f == 4 then b.mass
    else if f == 5 then b.velocity.x
    else b.velocity.y
  }

  /** The raw floats of an array of bodies. */
  function FlattenBodies(bs: seq<Body>): (buf: seq<real>)
    ensures |buf| == |bs| * BodyFloats
  {
    seq(|bs| * BodyFloats, t requires 0 <= t < |bs| * BodyFloats =>
      VL.FlatRow(|bs|, BodyFloats, t); Field(bs[t / BodyFloats], t % BodyFloats))
  }

  /** mpBodyVectorType: one block of the first five floats per body. */
  function BodyType(count: nat): VL.VectorType
  {
    VL.VectorType(count, 5, BodyFloats)
  }

  /** What a send of an array of bodies with the body type transmits. */
  function Message(bs: seq<Body>): (msg: seq<real>)
    ensures |msg| == 5 * |bs|
  {
    VL.Gather(FlattenBodies(bs), 0, BodyType(|bs|))
  }

  /** Body k of a receive buffer once the message has been stored into it
      with the body type: the first five floats come from the message, the
      velocity stays as it was. */
  function Unpacked(b: Body, msg: seq<real>, k: nat): Body
    requires 5 * k + 5 <= |msg|
  {
    Body(Vec(msg[5 * k], msg[5 * k + 1]), Vec(msg[5 * k + 2], msg[5 * k + 3]), msg[5 * k + 4], b.velocity)
  }

  lemma {:induction false} MessageLayout(bs: seq<Body>, k: nat, f: nat)
    requires k < |bs| && f < 5
    ensures Message(bs)[5 * k + f] == Field(bs[k], f)
  {
    var t := 5 * k + f;
    Arith.DivModUnique(t, 5, k, f);
    assert BodyType(|bs|).Offset(t) == 7 * k + f;
    Arith.DivModUnique(7 * k + f, 7, k, f);
  }

  /** The transfer carries position, forces and mass, and not velocity. */
  lemma {:induction false} TransferCarries(dest: Body, src: seq<Body>, k: nat)
    requires k < |src|
    ensures Unpacked(dest, Message(src), k) == Body(src[k].position, src[k].forces, src[k].mass, dest.velocity)
  {
    MessageLayout(src, k, 0);
    MessageLayout(src, k, 1);
    MessageLayout(src, k, 2);
    MessageLayout(src, k, 3);
    MessageLayout(src, k, 4);
  }

  /** recv into a body array with the body type. */
  method ReceiveBodies(buf: array<Body>, msg: seq<real>)
    requires |msg| == 5 * buf.Length
    modifies buf
    ensures forall k :: 0 <= k < buf.Length ==> buf[k] == Unpacked(old(buf[k]), msg, k)
  {
    var k := 0;
    while k < buf.Length
      invariant 0 <= k <= buf.Length
      invariant forall l :: 0 <= l < buf.Length ==> buf[l] == if l < k then Unpacked(old(buf[l]), msg, l) else old(buf[l])
    {
      buf[k] := Unpacked(buf[k], msg, k);
      k := k + 1;
    }
  }

  // ---------------------------------------------------------------------
  // One process of the ring

  class RingNBody {
    /** The sequential system this one extends: the resident bodies. */
    const system: NBodySystem
    const rank: nat
    const size: nat
    const next: nat
    const prev: nat
    const bodyType: VL.VectorType

    predicate Valid()
    {
      && size > 0 && rank < size
      && next == Next(rank, size) && prev == Prev(rank, size)
      && system.bodies.Length % 2 == 0
      && bodyType == BodyType(system.bodies.Length)
    }

    /** RingNBody for rank `rank` of `size`, once the body count has passed
        the evenness check (see Create). */
    constructor (n: nat, ph: Physics, rank: nat, size: nat)
      requires n % 2 == 0 && rank < size
      ensures Valid() && fresh(system) && fresh(system.bodies)
      ensures system.bodies.Length == n && system.ph == ph && this.rank == rank && this.size == size
    {
      system := new NBodySystem(n, ph);
      this.rank, this.size := rank, size;
      next := (rank + 1) % size;
      prev := (rank as int - 1 + size) % size;
      bodyType := VL.VectorType(n, 5, BodyFloats);
    }

    /** Construction fails with OddBodyCount unless the body count is
        even. */
    static method Create(n: nat, ph: Physics, rank: nat, size: nat) returns (r: Result<RingNBody>)
      requires rank < size
      ensures r.Ok? <==> n % 2 == 0
      ensures r.Err? ==> r.error == OddBodyCount(n)
      ensures r.Ok? ==> r.value.Valid() && fresh(r.value.system.bodies) && r.value.system.bodies.Length == n
                        && r.value.system.ph == ph && r.value.rank == rank && r.value.size == size
    {
      if n % 2 != 0 {
        return Err(OddBodyCount(n));
      }
      var ring := new RingNBody(n, ph, rank, size);
      return Ok(ring);
    }

    /** The forces the returned copies gathered on their way round the
        ring are added to the resident bodies. */
    method AddReturned(back: array<Body>)
      requires back.Length == system.bodies.Length && back != system.bodies
      modifies system.bodies
      ensures forall k :: 0 <= k < back.Length ==> system.bodies[k] == old(system.bodies[k]).AddForce(back[k].forces)
    {
      var k := 0;
      while k < back.Length
        invariant 0 <= k <= back.Length
        invariant forall l :: 0 <= l < back.Length ==>
                    system.bodies[l] == if l < k then old(system.bodies[l]).AddForce(back[l].forces) else old(system.bodies[l])
      {
        system.bodies[k] := system.bodies[k].AddForce(back[k].forces);
        k := k + 1;
      }
    }
  }

  // ---------------------------------------------------------------------
  // The forces the ring accumulates, as functions of the bodies

  /** Same position and mass: the only things forces depend on. */
  predicate SamePoint(x: Body, y: Body)
  {
    x.position == y.position && x.mass == y.mass
  }

  lemma {:induction false} RowTotalCongruent(x: Body, x': Body, bs: seq<Body>, bs': seq<Body>, lo: nat, hi: nat, ph: Physics)
    requires SamePoint(x, x') && hi <= |bs| && hi <= |bs'|
    requires forall j :: lo <= j < hi ==> SamePoint(bs[j], bs'[j])
    ensures RowTotal(x, bs, lo, hi, ph) == RowTotal(x', bs', lo, hi, ph)
    decreases hi
  {
    if lo < hi {
      assert RowTotal(x, bs, lo, hi - 1, ph) == RowTotal(x', bs', lo, hi - 1, ph) by {
        RowTotalCongruent(x, x', bs, bs', lo, hi - 1, ph);
      }
      var y, y' := bs[hi - 1], bs'[hi - 1];
      assert SamePoint(y, y');
      assert Contribution(x, y, ph) == Contribution(x', y', ph);
    }
  }

  lemma {:induction false} ColumnTotalCongruent(xs: seq<Body>, xs': seq<Body>, y: Body, y': Body, hi: nat, ph: Physics)
    requires SamePoint(y, y') && hi <= |xs| && hi <= |xs'|
    requires forall j :: 0 <= j < hi ==> SamePoint(xs[j], xs'[j])
    ensures ColumnTotal(xs, y, hi, ph) == ColumnTotal(xs', y', hi, ph)
    decreases hi
  {
    if hi > 0 {
      assert ColumnTotal(xs, y, hi - 1, ph) == ColumnTotal(xs', y', hi - 1, ph) by {
        ColumnTotalCongruent(xs, xs', y, y', hi - 1, ph);
      }
      var x, x' := xs[hi - 1], xs'[hi - 1];
      assert SamePoint(x, x');
      assert Contribution(x, y, ph) == Contribution(x', y', ph);
    }
  }

  /** Every rank holds n bodies. */
  ghost predicate Uniform(w: seq<seq<Body>>, n: nat)
  {
    forall p :: 0 <= p < |w| ==> |w[p]| == n
  }

  /** The force resident body k of rank p has gathered after i hops: at
      hop h it met the bodies of rank Origin(p, h) above index k. */
  ghost function ResidentGain(w: seq<seq<Body>>, ph: Physics, n: nat, p: nat, k: nat, i: nat): Vec
    requires Uniform(w, n) && p < |w| && k < n && i <= |w|
  {
    if i == 0 then Zero
    else ResidentGain(w, ph, n, p, k, i - 1).Plus(RowTotal(w[p][k], w[Origin(p, i - 1, |w|)], k + 1, n, ph))
  }

  /** The force the circulating copy of body k of rank o has gathered
      after i hops: at hop h it met the resident bodies of rank Host(o, h)
      below index k. */
  ghost function VisitorForce(w: seq<seq<Body>>, ph: Physics, n: nat, o: nat, k: nat, i: nat): Vec
    requires Uniform(w, n) && o < |w| && k < n && i <= |w|
  {
    if i == 0 then Zero
    else VisitorForce(w, ph, n, o, k, i - 1).Minus(ColumnTotal(w[Host(o, i - 1, |w|)], w[o][k], k, ph))
  }

  /** The force body k of rank p ends an iteration with. */
  ghost function RingForce(w: seq<seq<Body>>, ph: Physics, n: nat, p: nat, k: nat): Vec
    requires Uniform(w, n) && p < |w| && k < n
  {
    ResidentGain(w, ph, n, p, k, |w|).Plus(VisitorForce(w, ph, n, p, k, |w|))
  }

  /** On a ring of one process the result is that of the sequential
      system's calculateForces(mBodies, mBodies, true) after resetForces. */
  lemma {:induction false} RingOfOneIsSequential(w: seq<seq<Body>>, ph: Physics, n: nat, k: nat)
    requires |w| == 1 && Uniform(w, n) && k < n
    ensures InRange(Pairs(n, n, true), n, n)
    ensures RingForce(w, ph, n, 0, k) ==
            Fold(Buffers(ResetAll(w[0]), ResetAll(w[0])), true, ph, Pairs(n, n, true)).a[k].forces
  {
    assert |w[0]| == n;
    var row := RowTotal(w[0][k], w[0], k + 1, n, ph);
    var column := ColumnTotal(w[0], w[0][k], k, ph);
    assert RingForce(w, ph, n, 0, k) == Zero.Plus(row).Plus(Zero.Minus(column)) by {
      OneRank(w, ph, n, k);
    }
    assert Fold(Buffers(ResetAll(w[0]), ResetAll(w[0])), true, ph, Pairs(n, n, true)).a[k].forces ==
           Zero.Plus(row).Minus(column) by {
      SequentialFromReset(w[0], ph, k);
    }
  }

  lemma {:induction false} OneRank(w: seq<seq<Body>>, ph: Physics, n: nat, k: nat)
    requires |w| == 1 && Uniform(w, n) && k < n
    ensures RingForce(w, ph, n, 0, k) ==
            Zero.Plus(RowTotal(w[0][k], w[0], k + 1, n, ph)).Plus(Zero.Minus(ColumnTotal(w[0], w[0][k], k, ph)))
  {
    assert ResidentGain(w, ph, n, 0, k, 1) == Zero.Plus(RowTotal(w[0][k], w[0], k + 1, n, ph)) by {
      assert Origin(0, 0, 1) == 0;
    }
    assert VisitorForce(w, ph, n, 0, k, 1) == Zero.Minus(ColumnTotal(w[0], w[0][k], k, ph)) by {
      assert Host(0, 0, 1) == 0;
    }
  }

  /** resetForces then calculateForces(mBodies, mBodies, true): body k
      gets the contributions from the bodies above it minus those of the
      bodies below it. */
  lemma {:induction false} SequentialFromReset(bs: seq<Body>, ph: Physics, k: nat)
    requires k < |bs|
    ensures InRange(Pairs(|bs|, |bs|, true), |bs|, |bs|)
    ensures Fold(Buffers(ResetAll(bs), ResetAll(bs)), true, ph, Pairs(|bs|, |bs|, true)).a[k].forces ==
            Zero.Plus(RowTotal(bs[k], bs, k + 1, |bs|, ph)).Minus(ColumnTotal(bs, bs[k], k, ph))
  {
    var z := ResetAll(bs);
    ForcesClosedForm(Buffers(z, z), true, ph, true);
    RowTotalCongruent(z[k], bs[k], z, bs, k + 1, |bs|, ph);
    ColumnTotalCongruent(z, bs, z[k], bs[k], k, ph);
  }

  /** The bodies with their forces reset. */
  function ResetAll(bs: seq<Body>): (r: seq<Body>)
    ensures |r| == |bs| && forall k :: 0 <= k < |bs| ==> r[k] == bs[k].ResetForces()
  {
    seq(|bs|, k requires 0 <= k < |bs| => bs[k].ResetForces())
  }

  /** As written, every hop passes diagonal = true, so resident body k
      never meets the circulating body k of another rank: changing that
      body leaves the force on body k of rank p as it was. */
  lemma {:induction false} SameIndexNeverMeets(w: seq<seq<Body>>, ph: Physics, n: nat, p: nat, q: nat, k: nat, b: Body)
    requires Uniform(w, n) && p < |w| && q < |w| && p != q && k < n
    ensures Uniform(w[q := w[q][k := b]], n)
    ensures RingForce(w[q := w[q][k := b]], ph, n, p, k) == RingForce(w, ph, n, p, k)
  {
    var w' := w[q := w[q][k := b]];
    SameIndexGain(w, w', ph, n, p, k, |w|);
    SameIndexVisitor(w, w', ph, n, p, k, |w|);
  }

  lemma {:induction false} SameIndexGain(w: seq<seq<Body>>, w': seq<seq<Body>>, ph: Physics, n: nat, p: nat, k: nat, i: nat)
    requires Uniform(w, n) && Uniform(w', n) && |w'| == |w| && p < |w| && k < n && i <= |w|
    requires w'[p] == w[p]
    requires forall r, j :: 0 <= r < |w| && 0 <= j < n && j != k ==> w'[r][j] == w[r][j]
    ensures ResidentGain(w', ph, n, p, k, i) == ResidentGain(w, ph, n, p, k, i)
    decreases i
  {
    if i > 0 {
      assert ResidentGain(w', ph, n, p, k, i - 1) == ResidentGain(w, ph, n, p, k, i - 1) by {
        SameIndexGain(w, w', ph, n, p, k, i - 1);
      }
      var o := Origin(p, i - 1, |w|);
      assert RowTotal(w[p][k], w[o], k + 1, n, ph) == RowTotal(w'[p][k], w'[o], k + 1, n, ph) by {
        forall j | k + 1 <= j < n
          ensures SamePoint(w[o][j], w'[o][j])
        {
          assert w'[o][j] == w[o][j];
        }
        RowTotalCongruent(w[p][k], w'[p][k], w[o], w'[o], k + 1, n, ph);
      }
    }
  }

  lemma {:induction false} SameIndexVisitor(w: seq<seq<Body>>, w': seq<seq<Body>>, ph: Physics, n: nat, p: nat, k: nat, i: nat)
    requires Uniform(w, n) && Uniform(w', n) && |w'| == |w| && p < |w| && k < n && i <= |w|
    requires w'[p] == w[p]
    requires forall r, j :: 0 <= r < |w| && 0 <= j < n && j != k ==> w'[r][j] == w[r][j]
    ensures VisitorForce(w', ph, n, p, k, i) == VisitorForce(w, ph, n, p, k, i)
    decreases i
  {
    if i > 0 {
      assert VisitorForce(w', ph, n, p, k, i - 1) == VisitorForce(w, ph, n, p, k, i - 1) by {
        SameIndexVisitor(w, w', ph, n, p, k, i - 1);
      }
      var d := Host(p, i - 1, |w|);
      assert ColumnTotal(w[d], w[p][k], k, ph) == ColumnTotal(w'[d], w'[p][k], k, ph) by {
        forall j | 0 <= j < k
          ensures SamePoint(w[d][j], w'[d][j])
        {
          assert w'[d][j] == w[d][j];
        }
        ColumnTotalCongruent(w[d], w'[d], w[p][k], w'[p][k], k, ph);
      }
    }
  }

  // ---------------------------------------------------------------------
  // One iteration of run, all ranks together

  /** The resident body arrays, rank by rank. */
  function Residents(ring: seq<RingNBody>): (r: seq<array<Body>>)
    ensures |r| == |ring| && forall p :: 0 <= p < |ring| ==> r[p] == ring[p].system.bodies
  {
    seq(|ring|, p requires 0 <= p < |ring| => ring[p].system.bodies)
  }

  function ArraySet(arrs: seq<array<Body>>): set<array<Body>>
  {
    set a | a in arrs
  }

  /** The contents of a sequence of arrays. */
  ghost function Snap(arrs: seq<array<Body>>): (w: seq<seq<Body>>)
    reads ArraySet(arrs)
    ensures |w| == |arrs| && forall p :: 0 <= p < |arrs| ==> w[p] == arrs[p][..]
  {
    seq(|arrs|, p requires 0 <= p < |arrs| reads ArraySet(arrs) => arrs[p][..])
  }

  ghost predicate Distinct(xs: seq<array<Body>>)
  {
    forall p, q :: 0 <= p < q < |xs| ==> xs[p] != xs[q]
  }

  ghost predicate Apart(xs: seq<array<Body>>, ys: seq<array<Body>>)
  {
    forall p, q :: 0 <= p < |xs| && 0 <= q < |ys| ==> xs[p] != ys[q]
  }

  ghost predicate Sized(xs: seq<array<Body>>, n: nat)
  {
    forall p :: 0 <= p < |xs| ==> xs[p].Length == n
  }

  /** The processes of one communicator: rank p at position p, all with
      the same body count and physics, each with its own bodies. */
  ghost predicate RingValid(ring: seq<RingNBody>)
  {
    && |ring| > 0
    && (forall p :: 0 <= p < |ring| ==>
          && ring[p].Valid() && ring[p].rank == p && ring[p].size == |ring|
          && ring[p].system.bodies.Length == ring[0].system.bodies.Length
          && ring[p].system.ph == ring[0].system.ph)
    && Distinct(Residents(ring))
  }

  /** The two circulating buffers of every rank, apart from each other and
      from the resident bodies. */
  ghost predicate BuffersFor(ring: seq<RingNBody>, buf0: seq<array<Body>>, buf1: seq<array<Body>>)
    requires |ring| > 0
  {
    && |buf0| == |ring| && |buf1| == |ring|
    && Sized(buf0, ring[0].system.bodies.Length) && Sized(buf1, ring[0].system.bodies.Length)
    && Distinct(buf0) && Distinct(buf1)
    && Apart(Residents(ring), buf0) && Apart(Residents(ring), buf1) && Apart(buf0, buf1)
  }

  /** b has x's position and mass, and the force f. */
  predicate Carries(b: Body, x: Body, f: Vec)
  {
    SamePoint(b, x) && b.forces == f
  }

  /** The resident bodies after i hops, starting from the bodies w. */
  ghost predicate ResidentsAt(w: seq<seq<Body>>, r: seq<seq<Body>>, ph: Physics, n: nat, i: nat)
  {
    && Uniform(w, n) && i <= |w| && |r| == |w| && Uniform(r, n)
    && forall p, k :: 0 <= p < |w| && 0 <= k < n ==> r[p][k] == w[p][k].(forces := ResidentGain(w, ph, n, p, k, i))
  }

  /** Circulating buffers that hold, at rank p, the bodies of rank
      Origin(p, h) with the forces of i hops of travel. After i complete
      hops h == i; after the computation of hop i, before the transfer,
      h == i and the forces are those of i + 1 hops. */
  ghost predicate Carrying(w: seq<seq<Body>>, c: seq<seq<Body>>, ph: Physics, n: nat, h: nat, i: nat)
  {
    && Uniform(w, n) && h <= |w| && i <= |w| && |c| == |w| && Uniform(c, n)
    && forall p, k :: 0 <= p < |w| && 0 <= k < n ==>
         Carries(c[p][k], w[Origin(p, h, |w|)][k], VisitorForce(w, ph, n, Origin(p, h, |w|), k, i))
  }

  lemma {:induction false} HopPairsInRange(n: nat)
    ensures InRange(Pairs(n, n, true), n, n)
  {
    var bs := seq(n, _ => Body(Zero, Zero, 0.0, Zero));
    PairsInRange(Buffers(bs, bs), n, true);
  }

  /** Every rank ran calculateForces(resident, circulating, true): r1 and
      c1 are what the visit left of r0 and c0. */
  ghost predicate Computed(r0: seq<seq<Body>>, c0: seq<seq<Body>>, r1: seq<seq<Body>>, c1: seq<seq<Body>>, ph: Physics, n: nat)
  {
    && |r0| == |c0| == |r1| == |c1| && Uniform(r0, n) && Uniform(c0, n)
    && InRange(Pairs(n, n, true), n, n)
    && forall p :: 0 <= p < |r0| ==> Buffers(r1[p], c1[p]) == Fold(Buffers(r0[p], c0[p]), false, ph, Pairs(n, n, true))
  }

  /** Every rank received, into its other buffer, the message its
      predecessor sent from its circulating one. */
  ghost predicate Transferred(c: seq<seq<Body>>, d0: seq<seq<Body>>, d1: seq<seq<Body>>, n: nat)
  {
    && |c| > 0 && |c| == |d0| == |d1| && Uniform(c, n) && Uniform(d0, n) && Uniform(d1, n)
    && forall p, k :: 0 <= p < |c| && 0 <= k < n ==> d1[p][k] == Unpacked(d0[p][k], Message(c[Prev(p, |c|)]), k)
  }

  /** The force phase of one iteration of run on every rank: resetForces,
      the copy of the resident bodies into buffer 0, `size` hops of
      calculateForces(mBodies, circulating, true) followed by the send to
      mNext and the receive from mPrev into the other buffer, and the
      forces of the returned copy added to the resident bodies. */
  method CirculateForces(ring: seq<RingNBody>, buf0: seq<array<Body>>, buf1: seq<array<Body>>)
    requires RingValid(ring) && BuffersFor(ring, buf0, buf1)
    modifies ArraySet(Residents(ring)), ArraySet(buf0), ArraySet(buf1)
    ensures RingResult(old(Snap(Residents(ring))), Snap(Residents(ring)), ring[0].system.ph, ring[0].system.bodies.Length)
  {
    ghost var w := Snap(Residents(ring));
    var n, ph := ring[0].system.bodies.Length, ring[0].system.ph;
    StartIteration(ring, buf0);
    // hop i computes on buffer i % 2 and receives into buffer (i + 1) % 2
    var cur, nxt := buf0, buf1;
    var i := 0;
    ghost var even := true;
    while i < |ring|
      invariant 0 <= i <= |ring|
      invariant even <==> i % 2 == 0
      invariant (even && cur == buf0 && nxt == buf1) || (!even && cur == buf1 && nxt == buf0)
      invariant BuffersFor(ring, cur, nxt)
      invariant ResidentsAt(w, Snap(Residents(ring)), ph, n, i)
      invariant Carrying(w, Snap(cur), ph, n, i, i)
    {
      i := Hop(ring, cur, nxt, w, i);
      cur, nxt := nxt, cur;
      even := !even;
    }
    // the returned copies are in buffer ringSize % 2
    assert cur == (if |ring| % 2 == 0 then buf0 else buf1);
    FinishIteration(ring, cur, w);
  }

  /** Every body of every rank ends the force phase as it began, with the
      force RingForce. */
  ghost predicate RingResult(w: seq<seq<Body>>, now: seq<seq<Body>>, ph: Physics, n: nat)
  {
    && Uniform(w, n) && |now| == |w|
    && forall p, k :: 0 <= p < |w| && 0 <= k < n ==> |now[p]| == n && now[p][k] == w[p][k].(forces := RingForce(w, ph, n, p, k))
  }

  /** resetForces and the shallowCopy into buffer 0 on every rank. */
  method StartIteration(ring: seq<RingNBody>, buf0: seq<array<Body>>)
    requires RingValid(ring) && |buf0| == |ring| && Sized(buf0, ring[0].system.bodies.Length)
    requires Distinct(buf0) && Apart(Residents(ring), buf0)
    modifies ArraySet(Residents(ring)), ArraySet(buf0)
    ensures ResidentsAt(old(Snap(Residents(ring))), Snap(Residents(ring)), ring[0].system.ph, ring[0].system.bodies.Length, 0)
    ensures Carrying(old(Snap(Residents(ring))), Snap(buf0), ring[0].system.ph, ring[0].system.bodies.Length, 0, 0)
  {
    var size, n, ph := |ring|, ring[0].system.bodies.Length, ring[0].system.ph;
    ghost var w := Snap(Residents(ring));
    ResetResidents(ring);
    CopyResidents(ring, buf0);
    forall p | 0 <= p < size
      ensures Origin(p, 0, size) == p
    {
      OriginFacts(p, 0, size);
    }
  }

  /** addForce of the returned copies' forces on every rank. */
  method FinishIteration(ring: seq<RingNBody>, back: seq<array<Body>>, ghost w: seq<seq<Body>>)
    requires RingValid(ring) && |back| == |ring| && Sized(back, ring[0].system.bodies.Length)
    requires Apart(Residents(ring), back) && |w| == |ring|
    requires ResidentsAt(w, Snap(Residents(ring)), ring[0].system.ph, ring[0].system.bodies.Length, |w|)
    requires Carrying(w, Snap(back), ring[0].system.ph, ring[0].system.bodies.Length, |w|, |w|)
    modifies ArraySet(Residents(ring))
    ensures RingResult(w, Snap(Residents(ring)), ring[0].system.ph, ring[0].system.bodies.Length)
  {
    ghost var r, c := Snap(Residents(ring)), Snap(back);
    AddBack(ring, back);
    IterationComplete(w, r, c, Snap(Residents(ring)), ring[0].system.ph, ring[0].system.bodies.Length);
  }

  /** Hop i on every rank: calculateForces on the circulating buffer, then
      the transfer into the other buffer. */
  method Hop(ring: seq<RingNBody>, cur: seq<array<Body>>, nxt: seq<array<Body>>, ghost w: seq<seq<Body>>, i: nat) returns (j: nat)
    requires RingValid(ring) && BuffersFor(ring, cur, nxt) && i < |w|
    requires ResidentsAt(w, Snap(Residents(ring)), ring[0].system.ph, ring[0].system.bodies.Length, i)
    requires Carrying(w, Snap(cur), ring[0].system.ph, ring[0].system.bodies.Length, i, i)
    modifies ArraySet(Residents(ring)), ArraySet(cur), ArraySet(nxt)
    ensures j == i + 1
    ensures ResidentsAt(w, Snap(Residents(ring)), ring[0].system.ph, ring[0].system.bodies.Length, j)
    ensures Carrying(w, Snap(nxt), ring[0].system.ph, ring[0].system.bodies.Length, j, j)
  {
    var n, ph := ring[0].system.bodies.Length, ring[0].system.ph;
    ghost var r0, c0 := Snap(Residents(ring)), Snap(cur);
    ComputeHop(ring, cur);
    ghost var r1, c1, d0 := Snap(Residents(ring)), Snap(cur), Snap(nxt);
    HopAdvance(w, r0, c0, r1, c1, ph, n, i);
    TransferHop(Residents(ring), cur, nxt, n);
    TransferAdvance(w, c1, d0, Snap(nxt), ph, n, i);
    j := i + 1;
  }

  /** After |w| hops every copy is back home, and adding its force to the
      resident body gives RingForce. */
  lemma {:induction false} IterationComplete(w: seq<seq<Body>>, r: seq<seq<Body>>, c: seq<seq<Body>>, now: seq<seq<Body>>, ph: Physics, n: nat)
    requires |w| > 0 && ResidentsAt(w, r, ph, n, |w|) && Carrying(w, c, ph, n, |w|, |w|)
    requires AddedBack(r, c, now, n)
    ensures RingResult(w, now, ph, n)
  {
    forall p, k | 0 <= p < |w| && 0 <= k < n
      ensures r[p][k].AddForce(c[p][k].forces) == w[p][k].(forces := RingForce(w, ph, n, p, k))
    {
      OriginFacts(p, 0, |w|);
    }
  }

  /** Each resident body of `now` is that of `r` plus the force of the
      returned copy in `c`. */
  ghost predicate AddedBack(r: seq<seq<Body>>, c: seq<seq<Body>>, now: seq<seq<Body>>, n: nat)
  {
    && |r| == |c| == |now| && Uniform(r, n) && Uniform(c, n) && Uniform(now, n)
    && forall p, k :: 0 <= p < |r| && 0 <= k < n ==> now[p][k] == r[p][k].AddForce(c[p][k].forces)
  }

  /** resetForces on every rank. */
  method ResetResidents(ring: seq<RingNBody>)
    requires RingValid(ring)
    modifies ArraySet(Residents(ring))
    ensures forall p, k :: 0 <= p < |ring| && 0 <= k < ring[p].system.bodies.Length ==>
              ring[p].system.bodies[k] == old(ring[p].system.bodies[k]).ResetForces()
  {
    var p := 0;
    while p < |ring|
      invariant 0 <= p <= |ring|
      invariant forall r, k :: 0 <= r < |ring| && 0 <= k < ring[r].system.bodies.Length ==>
                  ring[r].system.bodies[k] == if r < p then old(ring[r].system.bodies[k]).ResetForces() else old(ring[r].system.bodies[k])
    {
      ring[p].system.ResetForces();
      p := p + 1;
    }
  }

  /** shallowCopy of the resident bodies into buffer 0 on every rank. */
  method CopyResidents(ring: seq<RingNBody>, buf0: seq<array<Body>>)
    requires RingValid(ring) && |buf0| == |ring| && Sized(buf0, ring[0].system.bodies.Length)
    requires Distinct(buf0) && Apart(Residents(ring), buf0)
    modifies ArraySet(buf0)
    ensures forall p, k :: 0 <= p < |ring| && 0 <= k < buf0[p].Length ==> buf0[p][k] == ring[p].system.bodies[k]
  {
    var p := 0;
    while p < |ring|
      invariant 0 <= p <= |ring|
      invariant forall r, k :: 0 <= r < p && 0 <= k < buf0[r].Length ==> buf0[r][k] == ring[r].system.bodies[k]
    {
      CopyBodies(buf0[p], ring[p].system.bodies);
      p := p + 1;
    }
  }

  /** Element-by-element copy of one body array into another. */
  method CopyBodies(dst: array<Body>, src: array<Body>)
    requires dst.Length == src.Length && dst != src
    modifies dst
    ensures dst[..] == src[..]
  {
    var k := 0;
    while k < dst.Length
      invariant 0 <= k <= dst.Length
      invariant dst[..k] == src[..k]
    {
      dst[k] := src[k];
      k := k + 1;
    }
  }

  /** calculateForces(mBodies, circulating, true) on every rank. */
  method ComputeHop(ring: seq<RingNBody>, cur: seq<array<Body>>)
    requires RingValid(ring) && |cur| == |ring| && Sized(cur, ring[0].system.bodies.Length)
    requires Distinct(cur) && Apart(Residents(ring), cur)
    modifies ArraySet(Residents(ring)), ArraySet(cur)
    ensures Computed(old(Snap(Residents(ring))), old(Snap(cur)), Snap(Residents(ring)), Snap(cur),
                     ring[0].system.ph, ring[0].system.bodies.Length)
  {
    var n, ph := ring[0].system.bodies.Length, ring[0].system.ph;
    ghost var res := Residents(ring);
    HopPairsInRange(n);
    var p := 0;
    while p < |ring|
      invariant 0 <= p <= |ring|
      invariant forall r :: 0 <= r < p ==>
                  Buffers(res[r][..], cur[r][..]) == Fold(Buffers(old(res[r][..]), old(cur[r][..])), false, ph, Pairs(n, n, true))
      invariant forall r :: p <= r < |ring| ==> res[r][..] == old(res[r][..]) && cur[r][..] == old(cur[r][..])
    {
      ring[p].system.CalculateForces(ring[p].system.bodies, cur[p], true);
      p := p + 1;
    }
  }

  /** Every rank sends its circulating buffer to mNext and receives from
      mPrev into its other buffer (the sends are buffered, so all of them
      complete before any buffer is overwritten). */
  method TransferHop(res: seq<array<Body>>, cur: seq<array<Body>>, nxt: seq<array<Body>>, n: nat)
    requires |cur| > 0 && |res| == |cur| == |nxt| && Sized(cur, n) && Sized(nxt, n)
    requires Distinct(nxt) && Apart(cur, nxt) && Apart(res, nxt)
    modifies ArraySet(nxt)
    ensures Transferred(Snap(cur), old(Snap(nxt)), Snap(nxt), n)
    ensures Snap(cur) == old(Snap(cur)) && Snap(res) == old(Snap(res))
  {
    var size := |cur|;
    var msgs := seq(size, p requires 0 <= p < size reads ArraySet(cur) => Message(cur[p][..]));
    ghost var c0, d0, r0 := Snap(cur), Snap(nxt), Snap(res);
    var p := 0;
    while p < size
      invariant 0 <= p <= size
      invariant ReceivedUpTo(d0, Snap(nxt), msgs, n, p)
      invariant Snap(cur) == c0 && Snap(res) == r0
    {
      ReceiveFrom(res, cur, nxt, msgs, n, p, d0);
      p := p + 1;
    }
    ReceivedAll(c0, d0, Snap(nxt), msgs, n);
  }

  /** The receive buffers of ranks below p hold the message of their
      previous rank; the others are as they were. */
  ghost predicate ReceivedUpTo(d0: seq<seq<Body>>, d: seq<seq<Body>>, msgs: seq<seq<real>>, n: nat, p: nat)
  {
    && |d| == |d0| == |msgs| && p <= |d| && Uniform(d0, n) && Uniform(d, n)
    && (forall r :: 0 <= r < |msgs| ==> |msgs[r]| == 5 * n)
    && (forall r, k :: 0 <= r < p && 0 <= k < n ==> d[r][k] == Unpacked(d0[r][k], msgs[Prev(r, |d|)], k))
    && (forall r :: p <= r < |d| ==> d[r] == d0[r])
  }

  /** Rank p receives from mPrev into its receive buffer. */
  method ReceiveFrom(res: seq<array<Body>>, cur: seq<array<Body>>, nxt: seq<array<Body>>,
                     msgs: seq<seq<real>>, n: nat, p: nat, ghost d0: seq<seq<Body>>)
    requires |res| == |cur| == |nxt| && p < |nxt| && Sized(nxt, n)
    requires Distinct(nxt) && Apart(cur, nxt) && Apart(res, nxt)
    requires ReceivedUpTo(d0, Snap(nxt), msgs, n, p)
    modifies nxt[p]
    ensures ReceivedUpTo(d0, Snap(nxt), msgs, n, p + 1)
    ensures Snap(cur) == old(Snap(cur)) && Snap(res) == old(Snap(res))
  {
    RingNeighbours(p, |nxt|);
    ReceiveBodies(nxt[p], msgs[Prev(p, |nxt|)]);
  }

  /** All receives done: the buffers are transferred. */
  lemma {:induction false} ReceivedAll(c: seq<seq<Body>>, d0: seq<seq<Body>>, d1: seq<seq<Body>>, msgs: seq<seq<real>>, n: nat)
    requires |c| > 0 && |c| == |msgs| && Uniform(c, n)
    requires forall r :: 0 <= r < |c| ==> msgs[r] == Message(c[r])
    requires ReceivedUpTo(d0, d1, msgs, n, |d1|)
    ensures Transferred(c, d0, d1, n)
  {
  }

  /** addForce of the returned copy's force on every rank. */
  method AddBack(ring: seq<RingNBody>, back: seq<array<Body>>)
    requires RingValid(ring) && |back| == |ring| && Sized(back, ring[0].system.bodies.Length)
    requires Apart(Residents(ring), back)
    modifies ArraySet(Residents(ring))
    ensures AddedBack(old(Snap(Residents(ring))), Snap(back), Snap(Residents(ring)), ring[0].system.bodies.Length)
  {
    var p := 0;
    while p < |ring|
      invariant 0 <= p <= |ring|
      invariant forall r, k :: 0 <= r < |ring| && 0 <= k < ring[r].system.bodies.Length ==>
                  ring[r].system.bodies[k] == if r < p then old(ring[r].system.bodies[k]).AddForce(back[r][k].forces)
                                              else old(ring[r].system.bodies[k])
    {
      ring[p].AddReturned(back[p]);
      p := p + 1;
    }
  }

  /** One hop's computation on every rank advances the resident forces and
      the circulating copies by one hop of the specification. */
  lemma {:induction false} HopAdvance(w: seq<seq<Body>>, r0: seq<seq<Body>>, c0: seq<seq<Body>>,
                                       r1: seq<seq<Body>>, c1: seq<seq<Body>>, ph: Physics, n: nat, i: nat)
    requires i < |w| && ResidentsAt(w, r0, ph, n, i) && Carrying(w, c0, ph, n, i, i)
    requires Computed(r0, c0, r1, c1, ph, n)
    ensures ResidentsAt(w, r1, ph, n, i + 1) && Carrying(w, c1, ph, n, i, i + 1)
  {
    forall p | 0 <= p < |w|
      ensures |r1[p]| == n && |c1[p]| == n
      ensures forall k :: 0 <= k < n ==> r1[p][k] == w[p][k].(forces := ResidentGain(w, ph, n, p, k, i + 1))
      ensures forall k :: 0 <= k < n ==>
                Carries(c1[p][k], w[Origin(p, i, |w|)][k], VisitorForce(w, ph, n, Origin(p, i, |w|), k, i + 1))
    {
      assert Buffers(r1[p], c1[p]) == Fold(Buffers(r0[p], c0[p]), false, ph, Pairs(n, n, true));
      HopRank(w, ph, n, i, p, r0[p], c0[p]);
    }
  }

  /** HopAdvance at one rank p. */
  lemma {:induction false} HopRank(w: seq<seq<Body>>, ph: Physics, n: nat, i: nat, p: nat, r: seq<Body>, c: seq<Body>)
    requires Uniform(w, n) && i < |w| && p < |w| && |r| == n && |c| == n
    requires forall k :: 0 <= k < n ==> r[k] == w[p][k].(forces := ResidentGain(w, ph, n, p, k, i))
    requires forall k :: 0 <= k < n ==>
               Carries(c[k], w[Origin(p, i, |w|)][k], VisitorForce(w, ph, n, Origin(p, i, |w|), k, i))
    ensures InRange(Pairs(n, n, true), n, n)
    ensures forall k :: 0 <= k < n ==>
              Fold(Buffers(r, c), false, ph, Pairs(n, n, true)).a[k] == w[p][k].(forces := ResidentGain(w, ph, n, p, k, i + 1))
    ensures forall k :: 0 <= k < n ==>
              Carries(Fold(Buffers(r, c), false, ph, Pairs(n, n, true)).b[k], w[Origin(p, i, |w|)][k],
                      VisitorForce(w, ph, n, Origin(p, i, |w|), k, i + 1))
  {
    assert forall k :: 0 <= k < n ==> SamePoint(c[k], w[Origin(p, i, |w|)][k]);
    HopResidents(w, ph, n, i, p, r, c);
    HopVisitors(w, ph, n, i, p, r, c);
  }

  /** The resident half of HopRank. */
  lemma {:induction false} HopResidents(w: seq<seq<Body>>, ph: Physics, n: nat, i: nat, p: nat, r: seq<Body>, c: seq<Body>)
    requires Uniform(w, n) && i < |w| && p < |w| && |r| == n && |c| == n
    requires forall k :: 0 <= k < n ==> r[k] == w[p][k].(forces := ResidentGain(w, ph, n, p, k, i))
    requires forall k :: 0 <= k < n ==> SamePoint(c[k], w[Origin(p, i, |w|)][k])
    ensures InRange(Pairs(n, n, true), n, n)
    ensures forall k :: 0 <= k < n ==>
              Fold(Buffers(r, c), false, ph, Pairs(n, n, true)).a[k] == w[p][k].(forces := ResidentGain(w, ph, n, p, k, i + 1))
  {
    var s := Buffers(r, c);
    HopPairsInRange(n);
    var s1 := Fold(s, false, ph, Pairs(n, n, true));
    FoldKeepsParticles(s, false, ph, Pairs(n, n, true));
    ForcesClosedForm(s, false, ph, true);
    forall k | 0 <= k < n
      ensures s1.a[k] == w[p][k].(forces := ResidentGain(w, ph, n, p, k, i + 1))
    {
      ResidentStep(w, ph, n, i, p, k, r[k], c, s1.a[k]);
    }
  }

  /** One resident body after the hop: its force grew by its row total
      against the visiting copies, which are the bodies of Origin(p, i). */
  lemma {:induction false} ResidentStep(w: seq<seq<Body>>, ph: Physics, n: nat, i: nat, p: nat, k: nat, x: Body, c: seq<Body>, y: Body)
    requires Uniform(w, n) && i < |w| && p < |w| && k < n && |c| == n
    requires x == w[p][k].(forces := ResidentGain(w, ph, n, p, k, i))
    requires forall j :: 0 <= j < n ==> SamePoint(c[j], w[Origin(p, i, |w|)][j])
    requires SameParticle(y, x) && y.forces == x.forces.Plus(RowTotal(x, c, k + 1, n, ph))
    ensures y == w[p][k].(forces := ResidentGain(w, ph, n, p, k, i + 1))
  {
    OriginFacts(p, i, |w|);
    RowTotalCongruent(x, w[p][k], c, w[Origin(p, i, |w|)], k + 1, n, ph);
  }

  /** The circulating half of HopRank. */
  lemma {:induction false} HopVisitors(w: seq<seq<Body>>, ph: Physics, n: nat, i: nat, p: nat, r: seq<Body>, c: seq<Body>)
    requires Uniform(w, n) && i < |w| && p < |w| && |r| == n && |c| == n
    requires forall k :: 0 <= k < n ==> r[k] == w[p][k].(forces := ResidentGain(w, ph, n, p, k, i))
    requires forall k :: 0 <= k < n ==>
               Carries(c[k], w[Origin(p, i, |w|)][k], VisitorForce(w, ph, n, Origin(p, i, |w|), k, i))
    ensures InRange(Pairs(n, n, true), n, n)
    ensures forall k :: 0 <= k < n ==>
              Carries(Fold(Buffers(r, c), false, ph, Pairs(n, n, true)).b[k], w[Origin(p, i, |w|)][k],
                      VisitorForce(w, ph, n, Origin(p, i, |w|), k, i + 1))
  {
    var o := Origin(p, i, |w|);
    OriginFacts(p, i, |w|);
    assert Host(o, i, |w|) == p;
    var s := Buffers(r, c);
    HopPairsInRange(n);
    var s1 := Fold(s, false, ph, Pairs(n, n, true));
    FoldKeepsParticles(s, false, ph, Pairs(n, n, true));
    ForcesClosedForm(s, false, ph, true);
    forall k | 0 <= k < n
      ensures Carries(s1.b[k], w[o][k], VisitorForce(w, ph, n, o, k, i + 1))
    {
      assert s1.b[k].forces == c[k].forces.Minus(ColumnTotal(r, c[k], k, ph));
      ColumnTotalCongruent(r, w[p], c[k], w[o][k], k, ph);
    }
  }

  /** The transfer hands each rank its predecessor's circulating copies:
      after it, rank p holds the bodies of Origin(p, i + 1). */
  lemma {:induction false} TransferAdvance(w: seq<seq<Body>>, c: seq<seq<Body>>, d0: seq<seq<Body>>, d1: seq<seq<Body>>,
                                            ph: Physics, n: nat, i: nat)
    requires i < |w| && Carrying(w, c, ph, n, i, i + 1) && Transferred(c, d0, d1, n)
    ensures Carrying(w, d1, ph, n, i + 1, i + 1)
  {
    var size := |w|;
    forall p, k | 0 <= p < size && 0 <= k < n
      ensures Carries(d1[p][k], w[Origin(p, i + 1, size)][k], VisitorForce(w, ph, n, Origin(p, i + 1, size), k, i + 1))
    {
      var q := Prev(p, size);
      RingNeighbours(p, size);
      OriginFacts(p, i, size);
      TransferCarries(d0[p][k], c[q], k);
    }
  }
}
