// The master process (rank 0) of the wire and string programs: it splits
// the wire among the children, and each round it broadcasts one order,
// "continue" or "terminate", to every child.

module WireMaster {
  import opened Failures
  import opened Wire

  // ---------------------------------------------------------------------
  // Fragment length

  /** C++ integer division of a by a positive divisor: the quotient is
      truncated toward zero. */
  function TruncDiv(a: int, b: nat): (q: int)
    requires b > 0
    ensures 0 <= a ==> 0 <= q && q * b <= a < q * b + b
    ensures a < 0 ==> q <= 0 && q * b - b < a <= q * b
  {
    if a >= 0 then a / b else -((-a) / b)
  }

  /** childlen: the wire length divided among the size - 1 children.  With
      no child (size == 1) the division has no divisor. */
  function ChildLength(wirelen: int, size: nat): (r: Result<int>)
    requires size >= 1
    ensures r.Err? <==> size == 1
    ensures r.Err? ==> r.error == NoChildren
    ensures r.Ok? && wirelen >= 0 ==>
      0 <= r.value && r.value * (size - 1) <= wirelen < (r.value + 1) * (size - 1)
    ensures r.Ok? && wirelen < 0 ==>
      r.value <= 0 && (r.value - 1) * (size - 1) < wirelen <= r.value * (size - 1)
  {
    if size == 1 then Err(NoChildren) else Ok(TruncDiv(wirelen, size - 1))
  }

  // ---------------------------------------------------------------------
  // Rounds and orders

  /** The same order to each of the children. */
  function Broadcast(children: nat, finished: bool): (r: seq<Order>)
    ensures |r| == children
    ensures forall i :: 0 <= i < children ==> r[i] == (if finished then Terminate else Continue)
  {
    seq(children, _ => if finished then Terminate else Continue)
  }

  /** No child's report starts with 'N' (not yet under epsilon). */
  predicate AllUnderEpsilon(round: seq<Report>)
  {
    forall i :: 0 <= i < |round| ==> round[i].head != 'N'
  }

  /** Whether round t is the last one: every child has converged, or the
      cycle limit is reached. */
  predicate Finished(round: seq<Report>, t: int, maxcycles: int)
  {
    AllUnderEpsilon(round) || t >= maxcycles
  }

  /** The greatest number of rounds the cap allows: the loop index t runs
      from 0 and the round with t >= maxcycles is always the last. */
  function MaxRounds(maxcycles: int): nat
  {
    if maxcycles < 0 then 1 else maxcycles + 1
  }

  /** The master stops after exactly t rounds of these reports: the first
      t - 1 rounds were not finished and round t - 1 was. */
  ghost predicate StopsAfter(rounds: seq<seq<Report>>, maxcycles: int, t: nat)
  {
    && 1 <= t <= |rounds|
    && (forall u :: 0 <= u < t - 1 ==> !Finished(rounds[u], u, maxcycles))
    && Finished(rounds[t - 1], t - 1, maxcycles)
  }

  /** The orders a child receives, one per round. */
  function ChildOrders(sent: seq<seq<Order>>, i: nat): (r: seq<Order>)
    requires forall u :: 0 <= u < |sent| ==> i < |sent[u]|
    ensures |r| == |sent|
    ensures forall u :: 0 <= u < |sent| ==> r[u] == sent[u][i]
  {
    if sent == [] then [] else ChildOrders(sent[..|sent| - 1], i) + [sent[|sent| - 1][i]]
  }

  // ---------------------------------------------------------------------
  // The master loops

  /** Collecting a round of reports: finished starts true and any report
      headed 'N' clears it. */
  method CollectRound(round: seq<Report>) returns (finished: bool)
    ensures finished <==> AllUnderEpsilon(round)
  {
    finished := true;
    var i := 0;
    while i < |round|
      invariant i <= |round|
      invariant finished <==> forall j :: 0 <= j < i ==> round[j].head != 'N'
    {
      if round[i].head == 'N' {
        finished := false;
      }
      i := i + 1;
    }
  }

  /** Sending "terminate" or "continue" to each child in turn. */
  method SendOrders(children: nat, finished: bool) returns (orders: seq<Order>)
    ensures orders == Broadcast(children, finished)
  {
    orders := [];
    var i := 0;
    while i < children
      invariant i <= children && |orders| == i
      invariant forall j :: 0 <= j < i ==> orders[j] == (if finished then Terminate else Continue)
    {
      orders := orders + [if finished then Terminate else Continue];
      i := i + 1;
    }
  }

  /** The wire master: rounds[t] holds the children's reports in round t.
      It runs until a round is finished, never more than the cap allows,
      and in every round all children get the same order, "terminate" only
      in the last. */
  method WireMasterRounds(maxcycles: int, children: nat, rounds: seq<seq<Report>>)
    returns (t: nat, sent: seq<seq<Order>>)
    requires |rounds| >= MaxRounds(maxcycles)
    requires forall u :: 0 <= u < |rounds| ==> |rounds[u]| == children
    ensures StopsAfter(rounds, maxcycles, t) && t <= MaxRounds(maxcycles)
    ensures AllUnderEpsilon(rounds[0]) ==> t == 1
    ensures |sent| == t
    ensures forall u :: 0 <= u < t ==> sent[u] == Broadcast(children, u == t - 1)
  {
    t := 0;
    sent := [];
    var finished := false;
    while !finished
      invariant t <= MaxRounds(maxcycles) && |sent| == t
      invariant !finished ==> t < MaxRounds(maxcycles)
      invariant finished ==> 1 <= t
      invariant forall u :: 0 <= u < t ==> (Finished(rounds[u], u, maxcycles) <==> finished && u == t - 1)
      invariant forall u :: 0 <= u < t ==> sent[u] == Broadcast(children, finished && u == t - 1)
      decreases MaxRounds(maxcycles) - t
    {
      finished := CollectRound(rounds[t]);
      if t >= maxcycles {
        finished := true;
      }
      var orders := SendOrders(children, finished);
      sent := sent + [orders];
      t := t + 1;
    }
  }

  /** The string master collects no reports: it sends "continue" until the
      cycle limit and then "terminate". */
  method StringMasterRounds(maxcycles: int, children: nat) returns (t: nat, sent: seq<seq<Order>>)
    ensures t == MaxRounds(maxcycles) && |sent| == t
    ensures forall u :: 0 <= u < t ==> sent[u] == Broadcast(children, u == t - 1)
  {
    t := 0;
    sent := [];
    var finished := false;
    while !finished
      invariant t <= MaxRounds(maxcycles) && |sent| == t
      invariant !finished ==> t < MaxRounds(maxcycles)
      invariant finished ==> t == MaxRounds(maxcycles)
      invariant forall u :: 0 <= u < t ==> sent[u] == Broadcast(children, finished && u == t - 1)
      decreases MaxRounds(maxcycles) - t
    {
      if t >= maxcycles {
        finished := true;
      }
      var orders := SendOrders(children, finished);
      sent := sent + [orders];
      t := t + 1;
    }
  }

  // ---------------------------------------------------------------------
  // Properties

  /** When some child still reports 'N' in every round, the wire master
      runs as many rounds as the string master: the full cap. */
  lemma {:induction false} NeverConvergedRunsToCap(rounds: seq<seq<Report>>, maxcycles: int, t: nat)
    requires StopsAfter(rounds, maxcycles, t) && |rounds| >= MaxRounds(maxcycles)
    requires forall u :: 0 <= u < |rounds| ==> !AllUnderEpsilon(rounds[u])
    ensures t == MaxRounds(maxcycles)
  {
    var cap := MaxRounds(maxcycles);
    assert !AllUnderEpsilon(rounds[t - 1]);
    assert t - 1 >= maxcycles;
    assert Finished(rounds[cap - 1], cap - 1, maxcycles);
    assert !(cap - 1 < t - 1);
  }

  /** Under either master every child receives "continue" in each round
      but the last and "terminate" in the last, so a child's run stops at
      the master's last round. */
  lemma {:induction false} ChildStopsWithMaster(sent: seq<seq<Order>>, children: nat, i: nat)
    requires |sent| >= 1 && i < children
    requires forall u :: 0 <= u < |sent| ==> |sent[u]| == children
    requires forall u :: 0 <= u < |sent| ==> sent[u] == Broadcast(children, u == |sent| - 1)
    ensures Terminate in ChildOrders(sent, i)
    ensures FirstTerminate(ChildOrders(sent, i)) == |sent| - 1
  {
    var column := ChildOrders(sent, i);
    var last := |sent| - 1;
    assert column[last] == Terminate;
    var k := FirstTerminate(column);
  }
}
