/** The 1-D wire of the wire and vibrating-string programs: a fragment of
    consecutive elements per child process, each element holding a current
    and a new temperature (or displacement), linked to its neighbours in
    the fragment. A cycle first computes every new value from the current
    ones (update), then makes the new values current (update2) while
    checking whether every change stayed within epsilon, and reports to
    the master.

    Elements are held by value in the fragment; links are element indices.
    The values a CommElement receives from the neighbouring fragment are a
    parameter (one per element and cycle). */
module Wire {
  import opened Failures

  // ---------------------------------------------------------------------
  // Equations

  /** A missing neighbour reads as 0. */
  function Side(t: Option<real>): real
  {
    if t.Some? then t.value else 0.0
  }

  /** The explicit time step of the vibrating string: the value x, its
      previous value, and the neighbours (a missing one counted as 0). */
  function StringStep(oldX: real, tau: real, left: Option<real>, x: real, right: Option<real>): real
  {
    2.0 * x - oldX + tau * tau * (Side(left) - 2.0 * x + Side(right))
  }

  /** The step is reversible: stepping again from the new value, with the
      same x and neighbours, gives back the previous value. */
  lemma {:induction false} StringStepReversible(oldX: real, tau: real, left: Option<real>, x: real, right: Option<real>)
    ensures StringStep(StringStep(oldX, tau, left, x, right), tau, left, x, right) == oldX
  {
    var lap := tau * tau * (Side(left) - 2.0 * x + Side(right));
    assert StringStep(oldX, tau, left, x, right) == 2.0 * x - oldX + lap;
  }

  /** A string at rest, level with both neighbours, stays at rest. */
  lemma {:induction false} StringRestIsSteady(tau: real, x: real)
    ensures StringStep(x, tau, Some(x), x, Some(x)) == x
  {
    assert Side(Some(x)) - 2.0 * x + Side(Some(x)) == 0.0;
  }

  /** StringEquation: the previous value mOldX and the constant tau. */
  class StringEquation {
    var oldX: real
    const tau: real

    constructor (oldValue: real, tau: real)
      ensures oldX == oldValue && this.tau == tau
    {
      oldX := oldValue;
      this.tau := tau;
    }

    /** calc: the next value from the neighbours and x; remembers x as the
        previous value. The guard meant for a zero previous value compares
        instead of assigning, so it has no effect and is not modelled. */
    method Calc(left: Option<real>, x: real, right: Option<real>) returns (r: real)
      modifies this
      ensures r == StringStep(old(oldX), tau, left, x, right)
      ensures oldX == x
    {
      r := 2.0 * x - oldX + tau * tau * (Side(left) - 2.0 * x + Side(right));
      oldX := x;
    }
  }

  // ---------------------------------------------------------------------
  // Elements

  /** StaticElement, WireElement and CommElement (with the rank of the
      process it exchanges values with). */
  datatype Kind = Static | Plain | Comm(neighbour: int)

  /** An element: its kind, mTemp, mNewTemp, the links mLeft and mRight,
      and the equation, if any. */
  datatype Cell = Cell(kind: Kind, temp: real, newTemp: real, left: Option<nat>, right: Option<nat>,
                       eq: Option<StringEquation>)

  function Abs(x: real): real
  {
    if x < 0.0 then -x else x
  }

  /** delta: 0 for a static element, |mTemp - mNewTemp| otherwise. */
  function Delta(c: Cell): (d: real)
    ensures d >= 0.0
    ensures c.kind == Static ==> d == 0.0
  {
    if c.kind == Static then 0.0 else Abs(c.temp - c.newTemp)
  }

  /** update2: the new value becomes current; a static element does not
      change. */
  function Commit(c: Cell): (d: Cell)
    ensures c.kind == Static ==> d == c
    ensures c.kind != Static ==> d == c.(temp := c.newTemp)
  {
    if c.kind == Static then c else c.(temp := c.newTemp)
  }

  /** Once the new value is current, delta is 0 (which is why delta must be
      read before update2). */
  lemma {:induction false} CommitZeroesDelta(c: Cell)
    ensures Delta(Commit(c)) == 0.0
    ensures Commit(Commit(c)) == Commit(c)
  {
    if c.kind != Static {
      assert Commit(c).temp == Commit(c).newTemp;
    }
  }

  /** The temperature of a linked neighbour. */
  function Neighbour(es: seq<Cell>, link: Option<nat>): Option<real>
  {
    if link.Some? && link.value < |es| then Some(es[link.value].temp) else None
  }

  /** How many of the two neighbours exist (!!mLeft + !!mRight). */
  function Count(l: Option<real>, r: Option<real>): real
  {
    (if l.Some? then 1.0 else 0.0) + (if r.Some? then 1.0 else 0.0)
  }

  /** CommElement::update with an equation, as written: a missing side is
      passed to calc as null even though the received value was put in its
      place, so the received value is never used. */
  function CommStepAsWritten(oldX: real, tau: real, l: Option<real>, x: real, r: Option<real>, received: real): real
  {
    var leftTemp := if l.Some? then l.value else received;
    var rightTemp := if r.Some? then r.value else received;
    StringStep(oldX, tau, if l.Some? then Some(leftTemp) else None, x, if r.Some? then Some(rightTemp) else None)
  }

  /** CommElement::update with an equation, as evidently intended: the
      received value stands in for the missing neighbour. */
  function CommStep(oldX: real, tau: real, l: Option<real>, x: real, r: Option<real>, received: real): real
  {
    var leftTemp := if l.Some? then l.value else received;
    var rightTemp := if r.Some? then r.value else received;
    StringStep(oldX, tau, Some(leftTemp), x, Some(rightTemp))
  }

  /** As written, a string fragment's first element ignores what it
      receives: its new value is the same whatever the neighbouring
      fragment sent. */
  lemma {:induction false} CommAsWrittenIgnoresReceived(oldX: real, tau: real, x: real, r: Option<real>, a: real, b: real)
    ensures CommStepAsWritten(oldX, tau, None, x, r, a) == CommStepAsWritten(oldX, tau, None, x, r, b)
    ensures CommStepAsWritten(oldX, tau, None, x, r, a) == StringStep(oldX, tau, Some(0.0), x, r)
  {
  }

  /** As intended, the first element of a fragment steps exactly as an
      interior element would whose left neighbour had the received value,
      so with the string's tau different received values give different
      results. */
  lemma {:induction false} CommStepUsesReceived(oldX: real, x: real, rt: real, a: real, b: real)
    requires a != b
    ensures CommStep(oldX, StringTau, None, x, Some(rt), a) == StringStep(oldX, StringTau, Some(a), x, Some(rt))
    ensures CommStep(oldX, StringTau, None, x, Some(rt), a) != CommStep(oldX, StringTau, None, x, Some(rt), b)
  {
    assert CommStep(oldX, StringTau, None, x, Some(rt), a) - CommStep(oldX, StringTau, None, x, Some(rt), b) == 0.09 * (a - b);
  }

  /** link: element i is linked to i-1 iff i > 0 and to i+1 iff it is not
      the last one. */
  ghost predicate Linked(es: seq<Cell>)
  {
    forall i :: 0 <= i < |es| ==>
      && es[i].left == (if i > 0 then Some(i - 1) else None)
      && es[i].right == (if i + 1 < |es| then Some(i + 1) else None)
  }

  /** Links are mutual: the right neighbour of i's left neighbour is i,
      and the other way round. */
  lemma {:induction false} LinksMutual(es: seq<Cell>, i: nat)
    requires Linked(es) && i < |es|
    ensures es[i].left.Some? ==> es[i].left.value < |es| && es[es[i].left.value].right == Some(i)
    ensures es[i].right.Some? ==> es[i].right.value < |es| && es[es[i].right.value].left == Some(i)
  {
  }

  /** What an element can update from: a WireElement without an equation
      divides by its neighbour count, so it needs a neighbour; a static
      element has no equation. */
  ghost predicate Shaped(es: seq<Cell>)
  {
    && Linked(es)
    && forall i :: 0 <= i < |es| ==>
         && (es[i].kind == Plain && es[i].eq.None? ==> |es| > 1)
         && (es[i].kind == Static ==> es[i].eq.None?)
  }

  /** update of element i, given the previous values of the equations and
      the value a CommElement received. As the program is written, an
      element with an equation steps from its linked neighbours alone
      (a missing side as 0), whatever it received, and a static element
      keeps its new value. */
  function NewTemp(es: seq<Cell>, xs: seq<real>, i: nat, received: real): (t: real)
    requires Shaped(es) && i < |es| && |xs| == |es|
    ensures es[i].kind == Static ==> t == es[i].newTemp
    ensures es[i].eq.Some? ==>
              t == StringStep(xs[i], es[i].eq.value.tau, Neighbour(es, es[i].left), es[i].temp, Neighbour(es, es[i].right))
  {
    var c := es[i];
    var l, r := Neighbour(es, c.left), Neighbour(es, c.right);
    match c.kind
    case Static => c.newTemp
    case Plain =>
      if c.eq.Some? then StringStep(xs[i], c.eq.value.tau, l, c.temp, r)
      else (Side(l) + Side(r)) / Count(l, r)
    case Comm(_) =>
      if c.eq.Some? then CommStepAsWritten(xs[i], c.eq.value.tau, l, c.temp, r, received)
      else (Side(l) + Side(r) + received) / (Count(l, r) + 1.0)
  }

  /** The update phase: every element's new value, all computed from the
      current values (UpdatedCells states it element by element). */
  function Updated(es: seq<Cell>, xs: seq<real>, inbox: seq<real>): (r: seq<Cell>)
    requires Shaped(es) && |xs| == |es| && |inbox| == |es|
    ensures |r| == |es|
  {
    UpdatedUpTo(es, xs, inbox, |es|)
  }

  /** The first n elements after the update phase. */
  function UpdatedUpTo(es: seq<Cell>, xs: seq<real>, inbox: seq<real>, n: nat): (r: seq<Cell>)
    requires Shaped(es) && |xs| == |es| && |inbox| == |es| && n <= |es|
    ensures |r| == n
  {
    if n == 0 then []
    else UpdatedUpTo(es, xs, inbox, n - 1) + [es[n - 1].(newTemp := NewTemp(es, xs, n - 1, inbox[n - 1]))]
  }

  lemma {:induction false} UpdatedUpToAt(es: seq<Cell>, xs: seq<real>, inbox: seq<real>, n: nat, i: nat)
    requires Shaped(es) && |xs| == |es| && |inbox| == |es| && i < n <= |es|
    ensures UpdatedUpTo(es, xs, inbox, n)[i] == es[i].(newTemp := NewTemp(es, xs, i, inbox[i]))
  {
    if i < n - 1 {
      UpdatedUpToAt(es, xs, inbox, n - 1, i);
    }
  }

  /** The update phase changes only each element's new value, to what its
      update rule gives on the values before the phase. */
  lemma {:induction false} UpdatedCells(es: seq<Cell>, xs: seq<real>, inbox: seq<real>)
    requires Shaped(es) && |xs| == |es| && |inbox| == |es|
    ensures forall i {:trigger Updated(es, xs, inbox)[i]} :: 0 <= i < |es| ==>
              Updated(es, xs, inbox)[i] == es[i].(newTemp := NewTemp(es, xs, i, inbox[i]))
  {
    forall i | 0 <= i < |es|
      ensures Updated(es, xs, inbox)[i] == es[i].(newTemp := NewTemp(es, xs, i, inbox[i]))
    {
      UpdatedUpToAt(es, xs, inbox, |es|, i);
    }
  }

  /** The previous values the equations hold after the update phase: the
      value each element had. */
  function UpdatedXs(es: seq<Cell>, xs: seq<real>): (r: seq<real>)
    requires |xs| == |es|
    ensures |r| == |es|
    ensures forall i {:trigger r[i]} :: 0 <= i < |es| ==> r[i] == if es[i].eq.Some? then es[i].temp else xs[i]
  {
    seq(|es|, i requires 0 <= i < |es| => if es[i].eq.Some? then es[i].temp else xs[i])
  }

  /** The commit phase. */
  function Committed(es: seq<Cell>): (r: seq<Cell>)
    ensures |r| == |es| && forall i {:trigger r[i]} :: 0 <= i < |es| ==> r[i] == Commit(es[i])
  {
    seq(|es|, i requires 0 <= i < |es| => Commit(es[i]))
  }

  /** Every delta, read before the commit, is within epsilon. */
  predicate UnderEpsilon(es: seq<Cell>, epsilon: real)
  {
    forall i {:trigger Delta(es[i])} :: 0 <= i < |es| ==> Delta(es[i]) <= epsilon
  }

  function Temps(es: seq<Cell>): (r: seq<real>)
    ensures |r| == |es| && forall i {:trigger r[i]} :: 0 <= i < |es| ==> r[i] == es[i].temp
  {
    seq(|es|, i requires 0 <= i < |es| => es[i].temp)
  }

  // ---------------------------------------------------------------------
  // A fragment's state and cycle, as values

  /** The elements and the previous value held by each element's equation
      (0 where there is none). */
  datatype State = State(cells: seq<Cell>, xs: seq<real>)

  ghost predicate Sound(s: State)
  {
    Shaped(s.cells) && |s.xs| == |s.cells|
  }

  /** The report: 'T' or 'N', then the temperatures (the text formatting
      of each number is not modelled). */
  datatype Report = Report(head: char, temps: seq<real>)

  /** One cycle: update, then commit. */
  function Step(s: State, inbox: seq<real>): (r: State)
    requires Sound(s) && |inbox| == |s.cells|
    ensures Sound(r) && |r.cells| == |s.cells|
    ensures forall i {:trigger r.cells[i]} :: 0 <= i < |s.cells| ==>
              r.cells[i].kind == s.cells[i].kind && r.cells[i].eq == s.cells[i].eq
  {
    var r := State(Committed(Updated(s.cells, s.xs, inbox)), UpdatedXs(s.cells, s.xs));
    UpdatedCells(s.cells, s.xs, inbox);
    assert Shaped(r.cells) by {
      forall i | 0 <= i < |s.cells|
        ensures r.cells[i].kind == s.cells[i].kind && r.cells[i].eq == s.cells[i].eq
        ensures r.cells[i].left == s.cells[i].left && r.cells[i].right == s.cells[i].right
      {
      }
    }
    r
  }

  /** The report of one cycle. */
  function CycleReport(s: State, inbox: seq<real>, epsilon: real): Report
    requires Sound(s) && |inbox| == |s.cells|
  {
    Report(if UnderEpsilon(Updated(s.cells, s.xs, inbox), epsilon) then 'T' else 'N', Temps(Step(s, inbox).cells))
  }

  /** A 'T' report means that no element moved by more than epsilon in the
      cycle, and an 'N' report that some element did. */
  lemma {:induction false} ReportMeansConverged(s: State, inbox: seq<real>, epsilon: real)
    requires Sound(s) && |inbox| == |s.cells|
    ensures CycleReport(s, inbox, epsilon).head == 'T' <==>
            forall i :: 0 <= i < |s.cells| ==> Abs(Step(s, inbox).cells[i].temp - s.cells[i].temp) <= epsilon
  {
    var u := Updated(s.cells, s.xs, inbox);
    UpdatedCells(s.cells, s.xs, inbox);
    var t := Step(s, inbox);
    forall i | 0 <= i < |s.cells|
      ensures Delta(u[i]) == Abs(t.cells[i].temp - s.cells[i].temp)
    {
      assert t.cells[i] == Commit(u[i]);
      assert Abs(u[i].newTemp - u[i].temp) == Abs(u[i].temp - u[i].newTemp);
    }
  }

  /** Static elements keep their value, and after a cycle every delta is 0. */
  lemma {:induction false} StepKeepsStatic(s: State, inbox: seq<real>, i: nat)
    requires Sound(s) && |inbox| == |s.cells| && i < |s.cells|
    ensures s.cells[i].kind == Static ==> Step(s, inbox).cells[i] == s.cells[i]
    ensures Delta(Step(s, inbox).cells[i]) == 0.0
  {
    var u := Updated(s.cells, s.xs, inbox);
    UpdatedCells(s.cells, s.xs, inbox);
    assert Step(s, inbox).cells[i] == Commit(u[i]);
    CommitZeroesDelta(u[i]);
  }

  /** A wire without equations whose elements, and received values, all
      have the same temperature v is in equilibrium: nothing changes and
      the report is 'T' for any non-negative epsilon. */
  lemma {:induction false} LevelWireIsSteady(s: State, inbox: seq<real>, v: real, epsilon: real)
    requires Sound(s) && |inbox| == |s.cells| && epsilon >= 0.0
    requires forall i :: 0 <= i < |s.cells| ==> s.cells[i].eq.None? && s.cells[i].temp == v
    requires forall i :: 0 <= i < |inbox| ==> inbox[i] == v
    ensures Temps(Step(s, inbox).cells) == Temps(s.cells)
    ensures CycleReport(s, inbox, epsilon).head == 'T'
  {
    var u := Updated(s.cells, s.xs, inbox);
    UpdatedCells(s.cells, s.xs, inbox);
    forall i | 0 <= i < |s.cells|
      ensures Commit(u[i]).temp == v && Delta(u[i]) == 0.0
    {
      LevelCell(s.cells, s.xs, i, v);
    }
    assert Temps(Step(s, inbox).cells) == Temps(s.cells);
  }

  /** LevelWireIsSteady at one element. */
  lemma {:induction false} LevelCell(es: seq<Cell>, xs: seq<real>, i: nat, v: real)
    requires Shaped(es) && |xs| == |es| && i < |es|
    requires forall j :: 0 <= j < |es| ==> es[j].eq.None? && es[j].temp == v
    ensures es[i].kind != Static ==> NewTemp(es, xs, i, v) == v
  {
    var c := es[i];
    var l, r := Neighbour(es, c.left), Neighbour(es, c.right);
    assert l.Some? ==> l.value == v;
    assert r.Some? ==> r.value == v;
    if c.kind == Plain {
      assert Side(l) + Side(r) == Count(l, r) * v;
    } else if c.kind.Comm? {
      assert Side(l) + Side(r) + v == (Count(l, r) + 1.0) * v;
    }
  }

  /** The state after k cycles. */
  function Iterate(s: State, inboxes: seq<seq<real>>, k: nat): (r: State)
    requires Sound(s) && k <= |inboxes|
    requires forall c :: 0 <= c < |inboxes| ==> |inboxes[c]| == |s.cells|
    ensures Sound(r) && |r.cells| == |s.cells|
  {
    if k == 0 then s else Step(Iterate(s, inboxes, k - 1), inboxes[k - 1])
  }

  /** The fixed ends of the wire keep their value for the whole run. */
  lemma {:induction false} StaticStaysFixed(s: State, inboxes: seq<seq<real>>, k: nat, i: nat)
    requires Sound(s) && k <= |inboxes| && i < |s.cells| && s.cells[i].kind == Static
    requires forall c :: 0 <= c < |inboxes| ==> |inboxes[c]| == |s.cells|
    ensures Iterate(s, inboxes, k).cells[i] == s.cells[i]
  {
    if k > 0 {
      var prev := Iterate(s, inboxes, k - 1);
      StaticStaysFixed(s, inboxes, k - 1, i);
      assert prev.cells[i].kind == Static;
      StepKeepsStatic(prev, inboxes[k - 1], i);
      var next := Step(prev, inboxes[k - 1]);
      assert next.cells[i] == prev.cells[i];
      assert Iterate(s, inboxes, k) == next;
    }
  }

  /** The reports of the first k cycles. */
  function Reports(s: State, inboxes: seq<seq<real>>, epsilon: real, k: nat): (r: seq<Report>)
    requires Sound(s) && k <= |inboxes|
    requires forall c :: 0 <= c < |inboxes| ==> |inboxes[c]| == |s.cells|
    ensures |r| == k
  {
    if k == 0 then [] else Reports(s, inboxes, epsilon, k - 1) + [CycleReport(Iterate(s, inboxes, k - 1), inboxes[k - 1], epsilon)]
  }

  /** After `cycle` cycles from s0, the state is st and the reports are
      those of the cycles so far. */
  ghost predicate RunSoFar(s0: State, inboxes: seq<seq<real>>, epsilon: real, cycle: nat, st: State, reports: seq<Report>)
  {
    && Sound(s0) && cycle <= |inboxes|
    && (forall c :: 0 <= c < |inboxes| ==> |inboxes[c]| == |s0.cells|)
    && st == Iterate(s0, inboxes, cycle)
    && reports == Reports(s0, inboxes, epsilon, cycle)
  }

  datatype Order = Continue | Terminate

  /** The index of the first "terminate" order. */
  function FirstTerminate(orders: seq<Order>): (k: nat)
    requires Terminate in orders
    ensures k < |orders| && orders[k] == Terminate
    ensures forall c :: 0 <= c < k ==> orders[c] == Continue
  {
    if orders[0] == Terminate then 0 else 1 + FirstTerminate(orders[1..])
  }

  // ---------------------------------------------------------------------
  // Element kinds

  /** WireFragment::make: the first element is fixed at 0.0 on the first
      fragment and exchanges with the previous fragment elsewhere; the last
      one (when not also the first) is fixed at 100.0 on the last fragment
      and exchanges with the next fragment elsewhere; the rest are ordinary
      wire elements. */
  function WireKind(i: nat, len: nat, rank: nat, size: nat): Kind
  {
    if i == 0 then (if rank == 1 then Static else Comm(rank - 1))
    else if i == len - 1 then (if rank == size - 1 then Static else Comm(rank + 1))
    else Plain
  }

  function WireTemp(i: nat, len: nat, rank: nat, size: nat): real
  {
    if i == 0 && rank == 1 then 0.0
    else if i != 0 && i == len - 1 && rank == size - 1 then 100.0
    else 20.0
  }

  /** StringFragment::make: an exchanging element first (except on the
      first fragment) and last (except on the last fragment), ordinary
      elements elsewhere; never a static one. */
  function StringKind(i: nat, len: nat, rank: nat, size: nat): (k: Kind)
    ensures k != Static
  {
    if i == 0 && rank > 1 then Comm(rank - 1)
    else if i == len - 1 && rank + 1 < size then Comm(rank + 1)
    else Plain
  }

  /** Adjacent fragments of at least two elements face each other: the
      last element of fragment r exchanges with r + 1 exactly when the
      first element of fragment r + 1 exchanges with r; the wire is fixed
      at 0.0 on the left of the first fragment and at 100.0 on the right of
      the last one. */
  lemma {:induction false} WireFragmentsFaceEachOther(len: nat, r: nat, size: nat)
    requires 2 <= len && 1 <= r && r + 1 < size
    ensures WireKind(len - 1, len, r, size) == Comm(r + 1)
    ensures WireKind(0, len, r + 1, size) == Comm(r)
    ensures WireKind(0, len, 1, size) == Static && WireTemp(0, len, 1, size) == 0.0
    ensures WireKind(len - 1, len, size - 1, size) == Static && WireTemp(len - 1, len, size - 1, size) == 100.0
  {
  }

  /** The same pairing holds for string fragments. */
  lemma {:induction false} StringFragmentsFaceEachOther(len: nat, r: nat, size: nat)
    requires 2 <= len && 1 <= r && r + 1 < size
    ensures StringKind(len - 1, len, r, size) == Comm(r + 1)
    ensures StringKind(0, len, r + 1, size) == Comm(r)
    ensures StringKind(0, len, 1, size) == Plain && StringKind(len - 1, len, size - 1, size) == Plain
  {
  }

  /** A one-element fragment takes the first-element rule only: on any
      rank but the first it exchanges with the previous fragment and never
      with the next one. */
  lemma {:induction false} SingleElementFragment(r: nat, size: nat)
    requires 1 < r && r + 1 < size
    ensures WireKind(0, 1, r, size) == Comm(r - 1) && StringKind(0, 1, r, size) == Comm(r - 1)
  {
  }

  /** Every element has its own equation. */
  ghost predicate DistinctEquations(es: seq<Cell>)
  {
    forall i, j :: 0 <= i < j < |es| && es[i].eq.Some? && es[j].eq.Some? ==> es[i].eq.value != es[j].eq.value
  }

  /** a is b with (at most) other new values. */
  ghost predicate SameShape(a: seq<Cell>, b: seq<Cell>)
  {
    |a| == |b| && forall j :: 0 <= j < |a| ==> a[j] == b[j].(newTemp := a[j].newTemp)
  }

  lemma {:induction false} SameShapeKeepsValid(a: seq<Cell>, b: seq<Cell>)
    requires SameShape(a, b) && Shaped(b) && DistinctEquations(b)
    ensures Shaped(a) && DistinctEquations(a) && EquationsOf(a) == EquationsOf(b)
  {
    assert forall j :: 0 <= j < |a| ==> a[j].eq == b[j].eq && a[j].left == b[j].left && a[j].right == b[j].right && a[j].kind == b[j].kind;
    SameEquations(a, b);
  }

  /** Committing every element keeps the shape and the equations. */
  lemma {:induction false} CommittedKeepsValid(es: seq<Cell>)
    requires Shaped(es) && DistinctEquations(es)
    ensures Shaped(Committed(es)) && DistinctEquations(Committed(es)) && EquationsOf(Committed(es)) == EquationsOf(es)
  {
    var a := Committed(es);
    assert forall j :: 0 <= j < |a| ==> a[j].eq == es[j].eq && a[j].left == es[j].left && a[j].right == es[j].right && a[j].kind == es[j].kind;
    SameEquations(a, es);
  }

  /** The equation objects of a sequence of elements. */
  ghost function EquationsOf(es: seq<Cell>): set<StringEquation>
  {
    set i | 0 <= i < |es| && es[i].eq.Some? :: es[i].eq.value
  }

  lemma {:induction false} SameEquations(a: seq<Cell>, b: seq<Cell>)
    requires |a| == |b| && forall i :: 0 <= i < |a| ==> a[i].eq == b[i].eq
    ensures EquationsOf(a) == EquationsOf(b)
  {
    forall e | e in EquationsOf(a) ensures e in EquationsOf(b) {
      var i :| 0 <= i < |a| && a[i].eq.Some? && a[i].eq.value == e;
      assert b[i].eq.Some? && b[i].eq.value == e;
    }
    forall e | e in EquationsOf(b) ensures e in EquationsOf(a) {
      var i :| 0 <= i < |b| && b[i].eq.Some? && b[i].eq.value == e;
      assert a[i].eq.Some? && a[i].eq.value == e;
    }
  }

  /** tau of the string equations. */
  const StringTau: real := 0.3

  // ---------------------------------------------------------------------
  // The fragment

  class WireFragment {
    var elements: seq<Cell>

    /** The equation objects of the elements. */
    ghost function Equations(): set<StringEquation>
      reads this
    {
      EquationsOf(elements)
    }

    ghost predicate Valid()
      reads this
    {
      Shaped(elements) && DistinctEquations(elements)
    }

    /** The previous value of each element's equation. */
    ghost function OldXs(): (r: seq<real>)
      reads this, Equations()
      ensures |r| == |elements|
      ensures forall i :: 0 <= i < |elements| ==> r[i] == if elements[i].eq.Some? then elements[i].eq.value.oldX else 0.0
    {
      seq(|elements|, i requires 0 <= i < |elements| reads this, Equations() =>
        if elements[i].eq.Some? then elements[i].eq.value.oldX else 0.0)
    }

    ghost function CurrentState(): State
      reads this, Equations()
    {
      State(elements, OldXs())
    }

    /** WireFragment(len) with make(len): `len` elements laid out by
        WireKind and WireTemp, then linked. */
    constructor Make(len: nat, rank: nat, size: nat)
      ensures Valid() && |elements| == len
      ensures forall i :: 0 <= i < len ==>
                && elements[i].kind == WireKind(i, len, rank, size)
                && elements[i].temp == WireTemp(i, len, rank, size)
                && elements[i].eq.None?
    {
      elements := [];
      new;
      var i := 0;
      while i < len
        invariant 0 <= i <= len && |elements| == i
        invariant forall j :: 0 <= j < i ==>
                    elements[j] == Cell(WireKind(j, len, rank, size), WireTemp(j, len, rank, size),
                                        WireTemp(j, len, rank, size), None, None, None)
      {
        var t := WireTemp(i, len, rank, size);
        elements := elements + [Cell(WireKind(i, len, rank, size), t, t, None, None, None)];
        i := i + 1;
      }
      Link();
      assert Shaped(elements) by {
        forall j | 0 <= j < len && elements[j].kind == Plain
          ensures len > 1
        {
        }
      }
    }

    /** StringFragment(len) with its make: `len` elements laid out by
        StringKind, element i starting at initial[i] (the sine profile of
        the source) with its own equation, whose previous value is the same
        and whose tau is 0.3. */
    constructor MakeString(len: nat, rank: nat, size: nat, initial: seq<real>)
      requires |initial| == len
      ensures Valid() && |elements| == len
      ensures forall i :: 0 <= i < len ==>
                && elements[i].kind == StringKind(i, len, rank, size)
                && elements[i].temp == initial[i]
                && elements[i].eq.Some? && fresh(elements[i].eq.value)
                && elements[i].eq.value.oldX == initial[i] && elements[i].eq.value.tau == StringTau
    {
      elements := [];
      new;
      var i := 0;
      while i < len
        invariant 0 <= i <= len && |elements| == i
        invariant forall j :: 0 <= j < i ==>
                    && elements[j].kind == StringKind(j, len, rank, size) && elements[j].temp == initial[j]
                    && elements[j].left.None? && elements[j].right.None?
                    && elements[j].eq.Some? && fresh(elements[j].eq.value)
                    && elements[j].eq.value.oldX == initial[j] && elements[j].eq.value.tau == StringTau
        invariant forall j, k :: 0 <= j < k < i ==> elements[j].eq.value != elements[k].eq.value
      {
        var eq := new StringEquation(initial[i], StringTau);
        elements := elements + [Cell(StringKind(i, len, rank, size), initial[i], initial[i], None, None, Some(eq))];
        i := i + 1;
      }
      Link();
    }

    /** link: each element gets its neighbours in the fragment; nothing
        else changes. */
    method Link()
      modifies this
      ensures Linked(elements) && |elements| == old(|elements|)
      ensures forall i :: 0 <= i < |elements| ==>
                elements[i] == old(elements[i]).(left := elements[i].left, right := elements[i].right)
    {
      var i := 0;
      while i < |elements|
        invariant 0 <= i <= |elements| == old(|elements|)
        invariant forall j :: 0 <= j < |elements| ==>
                    elements[j] == old(elements[j]).(left := elements[j].left, right := elements[j].right)
        invariant forall j :: 0 <= j < i ==>
                    && elements[j].left == (if j > 0 then Some(j - 1) else None)
                    && elements[j].right == (if j + 1 < |elements| then Some(j + 1) else None)
      {
        var left := if i > 0 then Some(i - 1) else None;
        var right := if i + 1 < |elements| then Some(i + 1) else None;
        elements := elements[i := elements[i].(left := left, right := right)];
        i := i + 1;
      }
    }

    /** The update loop of run: every element's update, in order. The
        updates only write new values and equation state, so each one reads
        the previous cycle's values. */
    method UpdateAll(inbox: seq<real>)
      requires Valid() && |inbox| == |elements|
      modifies this, Equations()
      ensures Valid() && Equations() == old(Equations())
      ensures elements == Updated(old(elements), old(OldXs()), inbox)
      ensures OldXs() == UpdatedXs(old(elements), old(OldXs()))
    {
      ghost var es, xs := elements, OldXs();
      var i := 0;
      while i < |elements|
        invariant 0 <= i <= |elements| == |es| == |xs|
        invariant Shaped(es) && DistinctEquations(es) && EquationsOf(es) == old(Equations())
        invariant forall j :: 0 <= j < |es| ==> elements[j] == if j < i then es[j].(newTemp := NewTemp(es, xs, j, inbox[j])) else es[j]
        invariant forall j :: 0 <= j < |es| && es[j].eq.Some? ==> es[j].eq.value.oldX == if j < i then es[j].temp else xs[j]
      {
        assert es[i].eq.Some? ==> es[i].eq.value in EquationsOf(es);
        UpdateElement(i, inbox[i], es, xs);
        i := i + 1;
      }
      UpdatedCells(es, xs, inbox);
      assert elements == Updated(es, xs, inbox);
      SameShapeKeepsValid(elements, es);
    }

    /** The update2 loop of run: each element's delta is read before its
        own update2; the flag stays true iff every delta is within
        epsilon. */
    method CommitAll(epsilon: real) returns (underEpsilon: bool)
      requires Valid()
      modifies this
      ensures Valid() && Equations() == old(Equations())
      ensures elements == Committed(old(elements))
      ensures underEpsilon <==> UnderEpsilon(old(elements), epsilon)
    {
      ghost var es := elements;
      underEpsilon := true;
      var i := 0;
      while i < |elements|
        invariant 0 <= i <= |elements| == |es|
        invariant forall j :: 0 <= j < |es| ==> elements[j] == if j < i then Commit(es[j]) else es[j]
        invariant underEpsilon <==> forall j :: 0 <= j < i ==> Delta(es[j]) <= epsilon
      {
        if Delta(elements[i]) > epsilon {
          underEpsilon := false;
        }
        elements := elements[i := Commit(elements[i])];
        i := i + 1;
      }
      assert elements == Committed(es);
      CommittedKeepsValid(es);
    }

    /** One cycle of run: update, update2 with the epsilon flag, and the
        report. */
    method Cycle(epsilon: real, inbox: seq<real>, ghost st: State) returns (report: Report)
      requires Valid() && |inbox| == |elements| && CurrentState() == st
      modifies this, Equations()
      ensures Valid() && Equations() == old(Equations())
      ensures CurrentState() == Step(st, inbox)
      ensures report == CycleReport(st, inbox, epsilon)
    {
      UpdateAll(inbox);
      ghost var xs := OldXs();
      var underEpsilon := CommitAll(epsilon);
      assert OldXs() == xs;
      report := Report(if underEpsilon then 'T' else 'N', Temps(elements));
    }

    /** run: cycles until the master's order is "terminate"; inboxes[c]
        and orders[c] are what cycle c receives. */
    method Run(epsilon: real, inboxes: seq<seq<real>>, orders: seq<Order>) returns (reports: seq<Report>)
      requires Valid() && Terminate in orders && FirstTerminate(orders) < |inboxes|
      requires forall c :: 0 <= c < |inboxes| ==> |inboxes[c]| == |elements|
      modifies this, Equations()
      ensures Valid() && |reports| == FirstTerminate(orders) + 1
      ensures CurrentState() == Iterate(old(CurrentState()), inboxes, |reports|)
      ensures reports == Reports(old(CurrentState()), inboxes, epsilon, |reports|)
    {
      ghost var s0 := CurrentState();
      reports := [];
      var cycle := 0;
      while true
        invariant cycle <= FirstTerminate(orders) && |reports| == cycle
        invariant Valid() && Equations() == old(Equations())
        invariant RunSoFar(s0, inboxes, epsilon, cycle, CurrentState(), reports)
        decreases FirstTerminate(orders) - cycle
      {
        reports := CycleAndReport(epsilon, inboxes, cycle, reports, s0);
        if orders[cycle] == Terminate {
          assert cycle == FirstTerminate(orders);
          RunSoFarFacts(s0, inboxes, epsilon, cycle + 1, CurrentState(), reports);
          break;
        }
        cycle := cycle + 1;
      }
    }

    /** What RunSoFar says of the state and the reports. */
    static lemma RunSoFarFacts(s0: State, inboxes: seq<seq<real>>, epsilon: real, cycle: nat, st: State, reports: seq<Report>)
      requires RunSoFar(s0, inboxes, epsilon, cycle, st, reports)
      ensures |reports| == cycle
      ensures st == Iterate(s0, inboxes, |reports|)
      ensures reports == Reports(s0, inboxes, epsilon, |reports|)
    {
    }

    /** One more cycle of run, with its report appended. */
    method CycleAndReport(epsilon: real, inboxes: seq<seq<real>>, cycle: nat, reports: seq<Report>, ghost s0: State)
      returns (extended: seq<Report>)
      requires Valid() && cycle < |inboxes| && RunSoFar(s0, inboxes, epsilon, cycle, CurrentState(), reports)
      modifies this, Equations()
      ensures Valid() && Equations() == old(Equations())
      ensures RunSoFar(s0, inboxes, epsilon, cycle + 1, CurrentState(), extended)
    {
      var report := Cycle(epsilon, inboxes[cycle], Iterate(s0, inboxes, cycle));
      extended := reports + [report];
    }

    /** update of element i (received: what a CommElement got from its
        neighbouring fragment). Only its new value and its equation's
        previous value change. */
    method UpdateElement(i: nat, received: real, ghost es: seq<Cell>, ghost xs: seq<real>)
      requires Shaped(es) && SameShape(elements, es) && i < |es| == |xs|
      requires elements[i] == es[i]
      requires elements[i].eq.Some? ==> elements[i].eq.value.oldX == xs[i]
      modifies this, if elements[i].eq.Some? then {elements[i].eq.value} else {}
      ensures elements == old(elements)[i := old(elements[i]).(newTemp := NewTemp(es, xs, i, received))]
      ensures elements[i].eq.Some? ==> elements[i].eq.value.oldX == old(elements[i].temp)
    {
      var c := elements[i];
      var l, r := Neighbour(elements, c.left), Neighbour(elements, c.right);
      assert l == Neighbour(es, c.left) && r == Neighbour(es, c.right);
      var v: real;
      match c.kind {
        case Static =>
          v := c.newTemp;
        case Plain =>
          if c.eq.Some? {
            v := c.eq.value.Calc(l, c.temp, r);
          } else {
            v := (Side(l) + Side(r)) / Count(l, r);
          }
        case Comm(_) =>
          if c.eq.Some? {
            var leftTemp := if l.Some? then l.value else received;
            var rightTemp := if r.Some? then r.value else received;
            // a side without a link is passed as null, not as the received value
            v := c.eq.value.Calc(if l.Some? then Some(leftTemp) else None, c.temp, if r.Some? then Some(rightTemp) else None);
          } else {
            v := (Side(l) + Side(r) + received) / (Count(l, r) + 1.0);
          }
      }
      elements := elements[i := c.(newTemp := v)];
    }
  }
}
