/** The capped ready sets: two independent loops, one schedule. */
module Kahn {
  import opened Text
  import opened Graph

  const CAP: nat := 8

  /** Nodes none of whose predecessors is still waiting. */
  function Ready(g: Graph, remaining: set<Node>): (r: set<Node>)
  {
    set n | n in remaining && Deps(g, n) !! remaining
  }

  function FirstOf(ready: set<Node>): (batch: seq<Node>)
    ensures Elems(batch) <= ready && |Elems(batch)| == |batch|
    ensures |batch| == if |ready| < 8 then |ready| else 8
    ensures |ready| <= 8 ==> Elems(batch) == ready
  {
    var q := Sorted(ready);
    SortedAscending(ready);
    assert forall x | x in q :: x in Elems(q);
    var batch := if |q| <= CAP then q else q[..CAP];
    DistinctCount(batch);
    batch
  }

  /** A batch is in order and nothing smaller is left waiting. */
  lemma FirstOfIsLeast(ready: set<Node>)
    ensures Ascending(FirstOf(ready))
    ensures forall x, y | x in FirstOf(ready) && y in ready && y !in FirstOf(ready) :: Leq(x, y)
  {
    var q := Sorted(ready);
    SortedAscending(ready);
    assert forall y | y in ready :: y in Elems(q);
  }

  lemma {:induction false} DistinctCount(q: seq<Node>)
    requires Ascending(q)
    ensures |Elems(q)| == |q|
  {
    if q != [] {
      DistinctCount(q[1..]);
      assert Elems(q) == {q[0]} + Elems(q[1..]);
      assert q[0] !in q[1..];
    }
  }

  datatype Schedule = Schedule(batches: seq<seq<Node>>, residual: set<Node>)

  /** The batches from a set of waiting nodes on, and what can never be scheduled. */
  function Run(g: Graph, remaining: set<Node>): (r: Schedule)
    decreases |remaining|
  {
    var ready := Ready(g, remaining);
    if ready == {} then Schedule([], remaining)
    else
      var batch := FirstOf(ready);
      Shrinks(remaining, Elems(batch));
      var rest := Run(g, remaining - Elems(batch));
      Schedule([batch] + rest.batches, rest.residual)
  }

  lemma Shrinks(s: set<Node>, part: set<Node>)
    requires part <= s
    ensures |s - part| == |s| - |part|
  {
  }

  // ---------- what a run guarantees

  ghost predicate InBatch(batches: seq<seq<Node>>, i: int, n: Node)
  {
    0 <= i < |batches| && n in batches[i]
  }

  ghost predicate Emits(batches: seq<seq<Node>>, n: Node)
  {
    exists i :: InBatch(batches, i, n)
  }

  predicate Distinct(q: seq<Node>)
  {
    forall i, j | 0 <= i < j < |q| :: q[i] != q[j]
  }

  ghost predicate Capped(batches: seq<seq<Node>>)
  {
    forall i | 0 <= i < |batches| :: 0 < |batches[i]| <= 8 && Distinct(batches[i])
  }

  ghost predicate OnceEach(batches: seq<seq<Node>>)
  {
    forall i, j, n | InBatch(batches, i, n) && InBatch(batches, j, n) :: i == j
  }

  /** Every waiting predecessor of a scheduled node has an earlier batch. */
  ghost predicate PredecessorsFirst(g: Graph, waiting: set<Node>, batches: seq<seq<Node>>)
  {
    forall j, n, d | InBatch(batches, j, n) && d in Deps(g, n) && d in waiting ::
      EmittedBefore(batches, j, d)
  }

  ghost predicate EmittedBefore(batches: seq<seq<Node>>, j: int, d: Node)
  {
    exists i :: i < j && InBatch(batches, i, d)
  }

  lemma InBatchShift(batch: seq<Node>, rest: seq<seq<Node>>, i: int, n: Node)
    ensures InBatch([batch] + rest, i, n) <==> (i == 0 && n in batch) || InBatch(rest, i - 1, n)
  {
  }

  lemma FirstOfDistinct(ready: set<Node>)
    ensures Distinct(FirstOf(ready))
  {
    hide Leq;
    FirstOfIsLeast(ready);
  }

  lemma {:induction false} RunCapped(g: Graph, remaining: set<Node>)
    ensures Capped(Run(g, remaining).batches)
    decreases |remaining|
  {
    hide FirstOf;
    var ready := Ready(g, remaining);
    if ready != {} {
      var batch := FirstOf(ready);
      FirstOfDistinct(ready);
      Shrinks(remaining, Elems(batch));
      RunCapped(g, remaining - Elems(batch));
    }
  }

  lemma EmitsShift(batch: seq<Node>, rest: seq<seq<Node>>, n: Node)
    ensures Emits([batch] + rest, n) <==> n in batch || Emits(rest, n)
  {
    var all := [batch] + rest;
    if i :| InBatch(all, i, n) { InBatchShift(batch, rest, i, n); }
    if i :| InBatch(rest, i, n) { assert InBatch(all, i + 1, n); }
    if n in batch { assert InBatch(all, 0, n); }
  }

  lemma NothingEmitted()
    ensures forall n :: !Emits([], n)
  {
  }

  /** Nothing is lost: what a run does not emit is its residual, where nothing is ready. */
  lemma {:induction false} RunPartitions(g: Graph, remaining: set<Node>)
    ensures var r := Run(g, remaining);
      && r.residual <= remaining && Ready(g, r.residual) == {}
      && forall n :: Emits(r.batches, n) <==> n in remaining && n !in r.residual
    decreases |remaining|
  {
    hide Emits;
    var r := Run(g, remaining);
    var ready := Ready(g, remaining);
    if ready == {} {
      NothingEmitted();
    } else {
      var batch := FirstOf(ready);
      Shrinks(remaining, Elems(batch));
      var later := remaining - Elems(batch);
      var rest := Run(g, later).batches;
      RunPartitions(g, later);
      forall n ensures Emits(r.batches, n) <==> n in batch || Emits(rest, n) { EmitsShift(batch, rest, n); }
      assert forall n :: n in batch <==> n in Elems(batch);
    }
  }

  /** Nothing is repeated. */
  lemma {:induction false} RunOnce(g: Graph, remaining: set<Node>)
    ensures OnceEach(Run(g, remaining).batches)
    decreases |remaining|
  {
    var r := Run(g, remaining);
    var ready := Ready(g, remaining);
    if ready != {} {
      var batch := FirstOf(ready);
      Shrinks(remaining, Elems(batch));
      var later := remaining - Elems(batch);
      var rest := Run(g, later).batches;
      RunOnce(g, later);
      RunPartitions(g, later);
      forall i, j, n | InBatch(r.batches, i, n) && InBatch(r.batches, j, n) ensures i == j {
        InBatchShift(batch, rest, i, n);
        InBatchShift(batch, rest, j, n);
        if InBatch(rest, i - 1, n) || InBatch(rest, j - 1, n) {
          assert Emits(rest, n) && n !in Elems(batch);
        }
      }
    }
  }

  lemma {:induction false} RunOrders(g: Graph, remaining: set<Node>)
    ensures PredecessorsFirst(g, remaining, Run(g, remaining).batches)
    decreases |remaining|
  {
    var r := Run(g, remaining);
    var ready := Ready(g, remaining);
    if ready != {} {
      var batch := FirstOf(ready);
      Shrinks(remaining, Elems(batch));
      var later := remaining - Elems(batch);
      var rest := Run(g, later).batches;
      RunOrders(g, later);
      forall j, n, d | InBatch(r.batches, j, n) && d in Deps(g, n) && d in remaining
        ensures EmittedBefore(r.batches, j, d)
      {
        InBatchShift(batch, rest, j, n);
        assert n in batch ==> n in Elems(batch) && n in ready;
        if d in later {
          assert EmittedBefore(rest, j - 1, d);
          var i :| i < j - 1 && InBatch(rest, i, d);
          assert InBatch(r.batches, i + 1, d);
        } else if j > 0 {
          assert InBatch(r.batches, 0, d);
        }
      }
    }
  }

  /** Along a path the batch number strictly grows. */
  lemma {:induction false} PathClimbs(g: Graph, batches: seq<seq<Node>>, p: seq<Node>, j: int)
    requires PredecessorsFirst(g, g.Keys, batches) && OnceEach(batches)
    requires IsPath(g, p) && |p| >= 1 && p[0] in g && InBatch(batches, j, p[|p| - 1])
    ensures j >= |p| - 1
    ensures exists i :: InBatch(batches, i, p[0]) && i <= j - (|p| - 1)
  {
    if |p| > 1 {
      var q := p[..|p| - 1];
      var d := q[|q| - 1];
      assert p[|p| - 2] in Deps(g, p[|p| - 1]);
      if |p| > 2 { assert p[|p| - 3] in Deps(g, p[|p| - 2]); }
      assert EmittedBefore(batches, j, d);
      var k :| k < j && InBatch(batches, k, d);
      PathClimbs(g, batches, q, k);
    }
  }

  /** Transitive precedence between scheduled nodes is batch order. */
  lemma BatchOrder(g: Graph, a: Node, b: Node, i: int, j: int)
    requires Precedes(g, a, b)
    requires InBatch(Run(g, g.Keys).batches, i, a) && InBatch(Run(g, g.Keys).batches, j, b)
    ensures i < j
  {
    var batches := Run(g, g.Keys).batches;
    RunOrders(g, g.Keys);
    RunOnce(g, g.Keys);
    assert a in g by {
      assert Emits(batches, a);
      RunPartitions(g, g.Keys);
    }
    var p :| PathBetween(g, p, a, b);
    PathClimbs(g, batches, p, j);
  }

  lemma NotReadyWaits(g: Graph, s: set<Node>, n: Node)
    requires n in s && n !in Ready(g, s)
    ensures Waits(g, s, n)
  {
    assert !(Deps(g, n) !! s);
  }

  lemma StuckIsCyclic(g: Graph, s: set<Node>)
    requires s != {} && Ready(g, s) == {}
    ensures exists p :: IsCycleIn(g, s, p)
  {
    hide Ready, IsCycleIn, Waits;
    forall n | n in s ensures Waits(g, s, n) { NotReadyWaits(g, s, n); }
    StuckSetHasCycle(g, s);
  }

  /** An emitted node does not precede itself. */
  lemma NoSelfPrecedence(g: Graph, a: Node)
    requires a in g && a !in Run(g, g.Keys).residual
    ensures !Precedes(g, a, a)
  {
    RunPartitions(g, g.Keys);
    var i :| InBatch(Run(g, g.Keys).batches, i, a);
    if Precedes(g, a, a) { BatchOrder(g, a, a, i, i); }
  }

  lemma FullRunIsAcyclic(g: Graph)
    requires Run(g, g.Keys).residual == {}
    ensures Acyclic(g)
  {
    forall a ensures !Precedes(g, a, a) {
      if p :| PathBetween(g, p, a, a) {
        assert p[|p| - 2] in Deps(g, p[|p| - 1]);
        NoSelfPrecedence(g, a);
      }
    }
  }

  /** The loop runs dry exactly on acyclic graphs, and a residual holds a cycle. */
  lemma ResidualIffCycle(g: Graph)
    ensures Run(g, g.Keys).residual == {} <==> Acyclic(g)
    ensures var s := Run(g, g.Keys).residual; s != {} ==> exists p :: IsCycleIn(g, s, p)
  {
    var s := Run(g, g.Keys).residual;
    if s == {} {
      FullRunIsAcyclic(g);
    } else {
      RunPartitions(g, g.Keys);
      StuckIsCyclic(g, s);
      var p :| IsCycleIn(g, s, p);
      assert PathBetween(g, p, p[0], p[0]);
      assert Precedes(g, p[0], p[0]);
    }
  }

  // ---------- which nodes a run takes

  /** The nodes of the first batches. */
  function NodesIn(batches: seq<seq<Node>>): set<Node>
  {
    set i, a | 0 <= i < |batches| && 0 <= a < |batches[i]| :: batches[i][a]
  }

  /** The batch holds the least eight, in order, of the nodes that wait for none of the
      others, or all of them if there are fewer. */
  ghost predicate TakesLeast(g: Graph, waiting: set<Node>, batch: seq<Node>)
  {
    var ready := set n | n in waiting && forall d | d in Deps(g, n) :: d !in waiting;
    && Ascending(batch) && Elems(batch) <= ready && |batch| == (if |ready| < 8 then |ready| else 8)
    && forall x, y | x in batch && y in ready && y !in batch :: Leq(x, y)
  }

  lemma FirstOfTakesLeast(g: Graph, waiting: set<Node>)
    ensures TakesLeast(g, waiting, FirstOf(Ready(g, waiting)))
  {
    hide FirstOf, Leq, Ascending;
    FirstOfIsLeast(Ready(g, waiting));
    assert Ready(g, waiting) == set n | n in waiting && forall d | d in Deps(g, n) :: d !in waiting;
  }

  lemma NodesInShift(batch: seq<Node>, rest: seq<seq<Node>>, i: nat)
    requires i <= |rest|
    ensures NodesIn(([batch] + rest)[..i + 1]) == Elems(batch) + NodesIn(rest[..i])
  {
    var all := ([batch] + rest)[..i + 1];
    assert all == [batch] + rest[..i];
    forall n ensures n in NodesIn(all) <==> n in Elems(batch) || n in NodesIn(rest[..i]) {
      if n in NodesIn(rest[..i]) {
        var j, a :| 0 <= j < i && 0 <= a < |rest[..i][j]| && rest[..i][j][a] == n;
        assert all[j + 1][a] == n;
      }
      if n in Elems(batch) {
        var a :| 0 <= a < |batch| && batch[a] == n;
        assert all[0][a] == n;
      }
    }
  }

  /** Every batch of a run is the least of what is ready once the earlier ones are gone. */
  lemma {:induction false} RunTakesLeast(g: Graph, remaining: set<Node>, i: nat)
    requires i < |Run(g, remaining).batches|
    ensures var batches := Run(g, remaining).batches; TakesLeast(g, remaining - NodesIn(batches[..i]), batches[i])
    decreases |remaining|
  {
    hide FirstOf, TakesLeast, NodesIn;
    var ready := Ready(g, remaining);
    var batch := FirstOf(ready);
    var later := remaining - Elems(batch);
    Shrinks(remaining, Elems(batch));
    var rest := Run(g, later).batches;
    if i == 0 {
      FirstOfTakesLeast(g, remaining);
      NothingIn(Run(g, remaining).batches);
      assert remaining - {} == remaining;
    } else {
      RunTakesLeast(g, later, i - 1);
      NodesInShift(batch, rest, i - 1);
      assert remaining - NodesIn(([batch] + rest)[..i]) == later - NodesIn(rest[..i - 1]);
    }
  }

  lemma NothingIn(batches: seq<seq<Node>>)
    ensures NodesIn(batches[..0]) == {}
  {
  }

  // ---------- how long a run is

  ghost predicate ChainsWithin(g: Graph, s: set<Node>, bound: nat)
  {
    forall p | IsChain(g, s, p) :: |p| <= bound
  }

  /** A batch that takes everything ready shortens every chain that is left. */
  lemma ChainsShorten(g: Graph, remaining: set<Node>, bound: nat)
    requires ChainsWithin(g, remaining, bound) && Ready(g, remaining) != {}
    ensures bound >= 1 && ChainsWithin(g, remaining - Ready(g, remaining), bound - 1)
  {
    var n :| n in Ready(g, remaining);
    assert IsChain(g, remaining, [n]);
    forall p | IsChain(g, remaining - Ready(g, remaining), p) ensures |p| <= bound - 1 {
      if p != [] {
        NotReadyWaits(g, remaining, p[0]);
        var d :| d in remaining && d in Deps(g, p[0]);
        assert IsChain(g, remaining, [d] + p);
      }
    }
  }

  lemma ChainsRemain(g: Graph, remaining: set<Node>, later: set<Node>, bound: nat)
    requires ChainsWithin(g, remaining, bound) && later <= remaining
    ensures ChainsWithin(g, later, bound)
  {
  }

  /** List scheduling: a batch is full, or it takes everything that is ready, at least
      one node, and then every chain that is left was one node longer before. */
  lemma {:induction false} RunLength(g: Graph, remaining: set<Node>, bound: nat)
    requires ChainsWithin(g, remaining, bound)
    ensures 8 * |Run(g, remaining).batches| <= |remaining| + 7 * bound
    ensures |Run(g, remaining).batches| <= |remaining| / 8 + bound
    decreases |remaining|
  {
    hide ChainsWithin, FirstOf;
    var ready := Ready(g, remaining);
    if ready != {} {
      var batch := FirstOf(ready);
      Shrinks(remaining, Elems(batch));
      var later := remaining - Elems(batch);
      if |batch| == CAP {
        ChainsRemain(g, remaining, later, bound);
        RunLength(g, later, bound);
      } else {
        ChainsShorten(g, remaining, bound);
        RunLength(g, later, bound - 1);
      }
    }
  }

  /** Any way to fill numbered slots of at most 8 nodes that respects precedence. */
  ghost predicate CappedSchedule(g: Graph, slots: seq<set<Node>>)
  {
    && (forall i | 0 <= i < |slots| :: |slots[i]| <= 8)
    && (forall n | n in g :: exists i :: 0 <= i < |slots| && n in slots[i])
    && (forall i, j, n, d | 0 <= i < |slots| && 0 <= j < |slots|
          && n in slots[j] && d in slots[i] && d in Deps(g, n) :: i < j)
  }

  lemma {:induction false} SlotsHold(slots: seq<set<Node>>, s: set<Node>)
    requires forall i | 0 <= i < |slots| :: |slots[i]| <= CAP
    requires forall n | n in s :: exists i :: 0 <= i < |slots| && n in slots[i]
    ensures |s| <= CAP * |slots|
  {
    if slots == [] {
      assert s == {};
    } else {
      var last := |slots| - 1;
      var rest := s - slots[last];
      forall n | n in rest ensures exists i :: 0 <= i < last && n in slots[..last][i] {
        var i :| 0 <= i < |slots| && n in slots[i];
        assert slots[..last][i] == slots[i];
      }
      SlotsHold(slots[..last], rest);
      Shrinks(s, s * slots[last]);
      assert s - s * slots[last] == rest;
      Shrinks(slots[last], s * slots[last]);
    }
  }

  lemma {:induction false} SlotsClimb(g: Graph, slots: seq<set<Node>>, p: seq<Node>) returns (j: nat)
    requires CappedSchedule(g, slots) && IsChain(g, g.Keys, p) && |p| >= 1
    ensures |p| - 1 <= j < |slots| && p[|p| - 1] in slots[j]
  {
    var last := p[|p| - 1];
    assert last in g;
    j :| 0 <= j < |slots| && last in slots[j];
    if |p| > 1 {
      var q := p[..|p| - 1];
      assert forall i | 0 <= i < |q| :: q[i] == p[i];
      var i := SlotsClimb(g, slots, q);
      assert p[|p| - 2] in Deps(g, last) && q[|q| - 1] == p[|p| - 2];
    }
  }

  lemma ChainsFit(g: Graph, slots: seq<set<Node>>)
    requires CappedSchedule(g, slots)
    ensures ChainsWithin(g, g.Keys, |slots|)
  {
    hide CappedSchedule, IsChain;
    forall p | IsChain(g, g.Keys, p) ensures |p| <= |slots| {
      if p != [] { var j := SlotsClimb(g, slots, p); }
    }
  }

  /** Graham's bound, 2 - 1/m for m = 8: the greedy ready sets are never more than 15/8
      as many as any other capped schedule of the same graph needs. */
  lemma RunNearOptimal(g: Graph, slots: seq<set<Node>>)
    requires CappedSchedule(g, slots)
    ensures 8 * |Run(g, g.Keys).batches| <= 15 * |slots|
  {
    hide Run, ChainsWithin;
    SlotsHold(slots, g.Keys);
    ChainsFit(g, slots);
    RunLength(g, g.Keys, |slots|);
  }

  // ---------- the two loops

  /** The batches so far, and a run from the nodes still waiting, make up the whole run. */
  ghost predicate Continues(g: Graph, batches: seq<seq<Node>>, remaining: set<Node>, all: Schedule)
  {
    var r := Run(g, remaining);
    batches + r.batches == all.batches && r.residual == all.residual
  }

  lemma ReadyWaits(g: Graph, remaining: set<Node>)
    ensures Ready(g, remaining) <= remaining
  {
  }

  lemma StartContinues(g: Graph, remaining: set<Node>)
    ensures Continues(g, [], remaining, Run(g, remaining))
  {
  }

  lemma StepContinues(g: Graph, batches: seq<seq<Node>>, remaining: set<Node>, all: Schedule)
    requires Continues(g, batches, remaining, all)
    ensures Ready(g, remaining) == {} ==> Schedule(batches, remaining) == all
    ensures var batch := FirstOf(Ready(g, remaining));
      Ready(g, remaining) != {} ==>
        Continues(g, batches + [batch], remaining - Elems(batch), all) && |remaining - Elems(batch)| < |remaining|
  {
    hide FirstOf, Ready;
    ReadyWaits(g, remaining);
    var batch := FirstOf(Ready(g, remaining));
    Shrinks(remaining, Elems(batch));
    var rest := Run(g, remaining - Elems(batch)).batches;
    assert batches + ([batch] + rest) == batches + [batch] + rest;
  }

  /** What the emitted-set loop knows: every row is either emitted or still there, untouched. */
  ghost predicate Splits(rows: Rows, remaining: Graph, emitted: set<Node>)
  {
    && remaining.Keys !! emitted && remaining.Keys + emitted == rows.Keys
    && forall n | n in remaining :: remaining[n] == NodeGraph(rows)[n]
  }

  lemma SplitsStart(rows: Rows)
    ensures Splits(rows, NodeGraph(rows), {}) && NodeGraph(rows).Keys == rows.Keys
  {
  }

  lemma SplitsStep(rows: Rows, remaining: Graph, emitted: set<Node>, part: set<Node>)
    requires Splits(rows, remaining, emitted) && part <= remaining.Keys
    ensures Splits(rows, remaining - part, emitted + part)
    ensures (remaining - part).Keys == remaining.Keys - part
  {
  }

  lemma ReadyByEmitted(rows: Rows, remaining: Graph, emitted: set<Node>)
    requires Splits(rows, remaining, emitted)
    ensures (set n | n in remaining && remaining[n] <= emitted) == Ready(NodeGraph(rows), remaining.Keys)
    ensures emitted == rows.Keys - remaining.Keys
  {
  }

  /** wp-check.py: a node is ready when its predecessors have been emitted. */
  method ReadySetsByEmitted(rows: Rows) returns (batches: seq<seq<Node>>, emitted: set<Node>, residual: set<Node>)
    ensures Schedule(batches, residual) == Run(NodeGraph(rows), rows.Keys)
    ensures emitted == rows.Keys - residual
  {
    hide Continues, FirstOf, Run, Splits;
    var graph := NodeGraph(rows);
    ghost var all := Run(graph, rows.Keys);
    var remaining := graph;
    batches, emitted := [], {};
    SplitsStart(rows);
    StartContinues(graph, rows.Keys);
    while remaining.Keys != {}
      invariant Splits(rows, remaining, emitted)
      invariant Continues(graph, batches, remaining.Keys, all)
      decreases |remaining.Keys|
    {
      var ready := set n | n in remaining && remaining[n] <= emitted;
      ReadyByEmitted(rows, remaining, emitted);
      if ready == {} { break; }
      StepContinues(graph, batches, remaining.Keys, all);
      var batch := FirstOf(ready);
      SplitsStep(rows, remaining, emitted, Elems(batch));
      batches := batches + [batch];
      emitted := emitted + Elems(batch);
      remaining := remaining - Elems(batch);
    }
    residual := remaining.Keys;
    assert residual == {} ==> Ready(graph, residual) == {};
    ReadyByEmitted(rows, remaining, emitted);
    StepContinues(graph, batches, residual, all);
  }

  lemma DisjointIff(a: set<Node>, b: set<Node>)
    ensures a * b == {} <==> a !! b
  {
    if !(a !! b) {
      var x :| x in a && x in b;
      assert x in a * b;
    }
  }

  lemma ReadyByRemaining(rows: Rows, remaining: set<Node>)
    requires remaining <= rows.Keys
    ensures (set n | n in remaining && Elems(rows[n]) * remaining == {}) == Ready(TokenGraph(rows), remaining)
  {
    forall n | n in remaining ensures Elems(rows[n]) * remaining == {} <==> Deps(TokenGraph(rows), n) !! remaining {
      DisjointIff(Elems(rows[n]), remaining);
    }
  }

  /** au-check.py: a node is ready when no predecessor token is still waiting. */
  method ReadySetsByRemaining(rows: Rows) returns (batches: seq<seq<Node>>, residual: set<Node>)
    ensures Schedule(batches, residual) == Run(TokenGraph(rows), rows.Keys)
  {
    hide Continues, FirstOf, Run;
    ghost var graph := TokenGraph(rows);
    ghost var all := Run(graph, rows.Keys);
    var remaining := rows.Keys;
    batches := [];
    StartContinues(graph, rows.Keys);
    while remaining != {}
      invariant remaining <= rows.Keys
      invariant Continues(graph, batches, remaining, all)
      decreases |remaining|
    {
      var ready := set n | n in remaining && Elems(rows[n]) * remaining == {};
      ReadyByRemaining(rows, remaining);
      if ready == {} { break; }
      StepContinues(graph, batches, remaining, all);
      var batch := FirstOf(ready);
      batches := batches + [batch];
      remaining := remaining - Elems(batch);
    }
    residual := remaining;
    assert residual == {} ==> Ready(graph, residual) == {};
    StepContinues(graph, batches, residual, all);
  }

  /** External tokens change no batch and no residual, on cyclic tables too: the
      two loops always agree. */
  lemma {:induction false} SchedulersAgree(rows: Rows, remaining: set<Node>)
    requires remaining <= rows.Keys
    ensures Run(TokenGraph(rows), remaining) == Run(NodeGraph(rows), remaining)
    decreases |remaining|
  {
    var t, n := TokenGraph(rows), NodeGraph(rows);
    assert forall x | x in remaining :: Deps(t, x) * remaining == Deps(n, x) * remaining;
    assert Ready(t, remaining) == Ready(n, remaining);
    var ready := Ready(t, remaining);
    if ready != {} {
      var batch := FirstOf(ready);
      Shrinks(remaining, Elems(batch));
      SchedulersAgree(rows, remaining - Elems(batch));
    }
  }
}
