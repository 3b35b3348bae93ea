/** The dispatch DAG gate of docs/plan/wp-check.py and what an accepted table
    guarantees about the ready sets people are given to work from. */
module Dispatch {
  import opened Text
  import opened Glob
  import opened GlobTable
  import opened Graph
  import opened Kahn
  import opened Reach

  /** One row of the table: predecessor tokens, declared write scope and the evidence
      files it names. */
  datatype Package = Package(predecessors: seq<Node>, scope: Scope, artifacts: seq<string>)

  type Dag = map<Node, Package>

  /** The containment deployment every live probe must come after. */
  const CONTAINMENT: Node := "T3-W18"

  /** The package every probe names as a direct predecessor, and the one probe that
      leaves no evidence file. */
  const PROBE_GATE: Node := "T7-W4b"
  const SILENT_PROBE: Node := "T6-W14"

  function RowsOf(d: Dag): Rows
  {
    map n | n in d :: d[n].predecessors
  }

  function GraphOf(d: Dag): Graph
  {
    NodeGraph(RowsOf(d))
  }

  datatype DagError =
    | RepeatedPredecessor(node: Node)
    | UnknownPredecessor(node: Node, token: Node)
    | Residual(nodes: seq<Node>)
    | ParallelCollision(left: Node, right: Node, overlaps: seq<(string, string)>)
    | UncontainedProbe(node: Node)
    | UngatedProbe(node: Node)
    | ProbeWithoutArtifact(node: Node)
    | UnregisteredProbes(nodes: seq<Node>)
    | ReadySetsRepeat
    | ReadySetVertexMismatch
    | ReadySetOverCap
    | ReadySetsNotDeterministic

  // ---------- the gate's checks, stated on the table

  predicate TokensKnown(d: Dag, external: set<Node>, n: Node)
    requires n in d
  {
    Distinct(d[n].predecessors) && forall t | t in d[n].predecessors :: t in d || t in external
  }

  /** Two packages are ordered, or nothing in their scopes can meet. */
  ghost predicate Apart(d: Dag, left: Node, right: Node)
    requires left in d && right in d
  {
    || Precedes(GraphOf(d), left, right) || Precedes(GraphOf(d), right, left)
    || forall p :: !Clash(d[left].scope, d[right].scope, p)
  }

  ghost predicate NoParallelClash(d: Dag)
  {
    forall l, r | l in d && r in d && l != r :: Apart(d, l, r)
  }

  predicate AllTokensKnown(d: Dag, external: set<Node>)
  {
    forall n | n in d :: TokensKnown(d, external, n)
  }

  ghost predicate Contained(d: Dag, n: Node)
  {
    n == CONTAINMENT || Precedes(GraphOf(d), CONTAINMENT, n)
  }

  ghost predicate ProbeOk(d: Dag, n: Node)
    requires n in d
  {
    && Contained(d, n) && (n == PROBE_GATE || PROBE_GATE in d[n].predecessors)
    && (d[n].artifacts != [] || n == SILENT_PROBE)
  }

  ghost predicate ProbesOk(d: Dag, probes: set<Node>)
  {
    probes <= d.Keys && forall n | n in probes :: ProbeOk(d, n)
  }

  ghost predicate Accepted(d: Dag, external: set<Node>, probes: set<Node>, rendered: seq<seq<Node>>)
  {
    && AllTokensKnown(d, external)
    && Acyclic(GraphOf(d))
    && NoParallelClash(d)
    && ProbesOk(d, probes)
    && rendered == Run(GraphOf(d), d.Keys).batches
  }

  // ---------- the gate's loops

  method TokenErrorsAt(d: Dag, external: set<Node>, n: Node) returns (errors: seq<DagError>)
    requires n in d
    ensures errors == [] <==> TokensKnown(d, external, n)
  {
    hide Distinct;
    var tokens := d[n].predecessors;
    errors := if Distinct(tokens) then [] else [RepeatedPredecessor(n)];
    for k := 0 to |tokens|
      invariant errors == [] <==> Distinct(tokens) && forall i | 0 <= i < k :: tokens[i] in d || tokens[i] in external
    {
      if tokens[k] !in d && tokens[k] !in external {
        errors := errors + [UnknownPredecessor(n, tokens[k])];
      }
    }
  }

  method TokenErrors(d: Dag, external: set<Node>) returns (errors: seq<DagError>)
    ensures errors == [] <==> AllTokensKnown(d, external)
  {
    hide TokensKnown, Sorted;
    errors := [];
    var nodes := Sorted(d.Keys);
    assert forall n | n in d :: n in Elems(nodes);
    for i := 0 to |nodes|
      invariant forall a | 0 <= a < |nodes| :: nodes[a] in Elems(nodes)
      invariant errors == [] <==> forall a | 0 <= a < i :: TokensKnown(d, external, nodes[a])
    {
      var n := nodes[i];
      var more := TokenErrorsAt(d, external, n);
      errors := errors + more;
    }
  }

  method PairErrors(d: Dag, left: Node, right: Node) returns (errors: seq<DagError>)
    requires left in d && right in d
    ensures errors == [] <==> Apart(d, left, right)
  {
    errors := [];
    var forth := TransitivelyPrecedes(GraphOf(d), left, right);
    var back := TransitivelyPrecedes(GraphOf(d), right, left);
    if !forth && !back {
      var overlaps := ScopeOverlap(d[left].scope, d[right].scope);
      if overlaps != [] {
        assert overlaps[0] in overlaps;
        errors := [ParallelCollision(left, right, overlaps)];
      }
    }
  }

  ghost predicate Enumerates(d: Dag, nodes: seq<Node>)
  {
    Elems(nodes) == d.Keys && forall i | 0 <= i < |nodes| :: nodes[i] in d
  }

  ghost predicate ApartFromLater(d: Dag, nodes: seq<Node>, i: nat)
    requires i < |nodes| && Enumerates(d, nodes)
  {
    forall j | i < j < |nodes| :: Apart(d, nodes[i], nodes[j])
  }

  method CollisionErrorsOf(d: Dag, nodes: seq<Node>, i: nat) returns (errors: seq<DagError>)
    requires i < |nodes| && Enumerates(d, nodes)
    ensures errors == [] <==> ApartFromLater(d, nodes, i)
  {
    hide Apart;
    errors := [];
    for j := i + 1 to |nodes|
      invariant errors == [] <==> forall b | i < b < j :: Apart(d, nodes[i], nodes[b])
    {
      var more := PairErrors(d, nodes[i], nodes[j]);
      errors := errors + more;
    }
  }

  method CollisionErrors(d: Dag) returns (errors: seq<DagError>)
    ensures errors == [] <==> NoParallelClash(d)
  {
    hide ApartFromLater, NoParallelClash, Ascending;
    errors := [];
    var nodes := Sorted(d.Keys);
    SortedAscending(d.Keys);
    assert forall n | n in nodes :: n in Elems(nodes);
    for i := 0 to |nodes|
      invariant errors == [] <==> forall a | 0 <= a < i :: ApartFromLater(d, nodes, a)
    {
      var more := CollisionErrorsOf(d, nodes, i);
      errors := errors + more;
    }
    PairsCovered(d, nodes);
  }

  lemma ApartSymmetric(d: Dag, l: Node, r: Node)
    requires l in d && r in d && Apart(d, l, r)
    ensures Apart(d, r, l)
  {
    forall p: (string, string) ensures Clash(d[l].scope, d[r].scope, (p.1, p.0)) <==> Clash(d[r].scope, d[l].scope, p) {
      ClashSymmetric(d[r].scope, d[l].scope, p);
    }
  }

  /** Looking at each unordered pair once is looking at every pair. */
  lemma PairsCovered(d: Dag, nodes: seq<Node>)
    requires Enumerates(d, nodes) && Ascending(nodes)
    ensures NoParallelClash(d) <==> forall i | 0 <= i < |nodes| :: ApartFromLater(d, nodes, i)
  {
    hide Apart;
    if forall i | 0 <= i < |nodes| :: ApartFromLater(d, nodes, i) {
      forall l, r | l in d && r in d && l != r ensures Apart(d, l, r) {
        assert l in Elems(nodes) && r in Elems(nodes);
        var a :| 0 <= a < |nodes| && nodes[a] == l;
        var b :| 0 <= b < |nodes| && nodes[b] == r;
        assert ApartFromLater(d, nodes, a) && ApartFromLater(d, nodes, b);
        if b < a { ApartSymmetric(d, r, l); }
      }
    }
  }

  method ProbeErrorsAt(d: Dag, n: Node) returns (errors: seq<DagError>)
    requires n in d
    ensures errors == [] <==> ProbeOk(d, n)
  {
    hide Precedes;
    errors := [];
    if n != CONTAINMENT {
      var after := TransitivelyPrecedes(GraphOf(d), CONTAINMENT, n);
      if !after { errors := errors + [UncontainedProbe(n)]; }
    }
    if n != PROBE_GATE && PROBE_GATE !in d[n].predecessors { errors := errors + [UngatedProbe(n)]; }
    if d[n].artifacts == [] && n != SILENT_PROBE { errors := errors + [ProbeWithoutArtifact(n)]; }
  }

  method ProbeErrors(d: Dag, probes: set<Node>) returns (errors: seq<DagError>)
    ensures errors == [] <==> ProbesOk(d, probes)
  {
    hide ProbeOk, Sorted;
    errors := [];
    var nodes := Sorted(probes * d.Keys);
    assert forall n | n in probes * d.Keys :: n in Elems(nodes);
    for i := 0 to |nodes|
      invariant forall a | 0 <= a < |nodes| :: nodes[a] in Elems(nodes)
      invariant errors == [] <==> forall a | 0 <= a < i :: ProbeOk(d, nodes[a])
    {
      var more := ProbeErrorsAt(d, nodes[i]);
      errors := errors + more;
    }
    assert probes <= d.Keys ==> probes * d.Keys == probes;
    if !(probes <= d.Keys) { errors := errors + [UnregisteredProbes(Sorted(probes - d.Keys))]; }
  }

  predicate NodesOnce(batches: seq<seq<Node>>)
  {
    forall i, a, j, b | 0 <= i < |batches| && 0 <= a < |batches[i]| && 0 <= j < |batches| && 0 <= b < |batches[j]|
      && batches[i][a] == batches[j][b] :: i == j && a == b
  }

  function NodesOf(batches: seq<seq<Node>>): set<Node>
  {
    set i, a | 0 <= i < |batches| && 0 <= a < |batches[i]| :: batches[i][a]
  }

  predicate WithinCap(batches: seq<seq<Node>>)
  {
    forall i | 0 <= i < |batches| :: |batches[i]| <= CAP
  }

  lemma RunRendersOnce(g: Graph, s: set<Node>)
    ensures NodesOnce(Run(g, s).batches) && WithinCap(Run(g, s).batches)
  {
    var batches := Run(g, s).batches;
    RunOnce(g, s);
    RunCapped(g, s);
    forall i, a, j, b | 0 <= i < |batches| && 0 <= a < |batches[i]| && 0 <= j < |batches| && 0 <= b < |batches[j]|
      && batches[i][a] == batches[j][b]
      ensures i == j && a == b
    {
      assert InBatch(batches, i, batches[i][a]) && InBatch(batches, j, batches[j][b]);
    }
  }

  lemma NodesOfEmits(batches: seq<seq<Node>>, n: Node)
    ensures n in NodesOf(batches) <==> Emits(batches, n)
  {
    if n in NodesOf(batches) {
      var i, a :| 0 <= i < |batches| && 0 <= a < |batches[i]| && batches[i][a] == n;
      assert InBatch(batches, i, n);
    }
    if i :| InBatch(batches, i, n) {
      var a :| 0 <= a < |batches[i]| && batches[i][a] == n;
    }
  }

  lemma FullRunRendersAll(g: Graph)
    requires Run(g, g.Keys).residual == {}
    ensures NodesOf(Run(g, g.Keys).batches) == g.Keys
  {
    var batches := Run(g, g.Keys).batches;
    RunPartitions(g, g.Keys);
    forall n ensures n in NodesOf(batches) <==> n in g { NodesOfEmits(batches, n); }
  }

  method ReadySetErrors(nodes: set<Node>, emitted: set<Node>, batches: seq<seq<Node>>, rendered: seq<seq<Node>>)
    returns (errors: seq<DagError>)
    ensures emitted == nodes && NodesOnce(batches) && NodesOf(batches) == nodes && WithinCap(batches) ==>
              (errors == [] <==> rendered == batches)
  {
    errors := [];
    if !NodesOnce(rendered) { errors := errors + [ReadySetsRepeat]; }
    if NodesOf(rendered) != nodes { errors := errors + [ReadySetVertexMismatch]; }
    if !WithinCap(rendered) { errors := errors + [ReadySetOverCap]; }
    if emitted == nodes && rendered != batches { errors := errors + [ReadySetsNotDeterministic]; }
  }

  /** The gate passes exactly the tables whose graph is acyclic, whose unordered
      packages cannot meet, whose probes are in order, and whose rendered
      ready sets are the deterministic ones. */
  method ValidateDispatch(d: Dag, external: set<Node>, probes: set<Node>, rendered: seq<seq<Node>>)
    returns (errors: seq<DagError>)
    ensures errors == [] <==> Accepted(d, external, probes, rendered)
  {
    hide AllTokensKnown, NoParallelClash, ProbesOk, Acyclic, Run, NodesOnce, NodesOf, WithinCap;
    var tokens := TokenErrors(d, external);
    var batches, emitted, residual := ReadySetsByEmitted(RowsOf(d));
    ghost var g := GraphOf(d);
    assert g.Keys == d.Keys == RowsOf(d).Keys;
    ResidualIffCycle(g);
    var stuck := if residual != {} then [Residual(Sorted(residual))] else [];
    var collisions := CollisionErrors(d);
    var uncontained := ProbeErrors(d, probes);
    RunRendersOnce(g, g.Keys);
    if residual == {} { FullRunRendersAll(g); }
    var misrendered := ReadySetErrors(d.Keys, emitted, batches, rendered);
    errors := tokens + stuck + collisions + uncontained + misrendered;
  }

  // ---------- what acceptance guarantees

  /** All packages that may write a given path form a chain of transitive precedence. */
  lemma WritersFormAChain(d: Dag, external: set<Node>, probes: set<Node>, rendered: seq<seq<Node>>,
                          path: string, a: Node, b: Node)
    requires Accepted(d, external, probes, rendered)
    requires a in d && b in d && a != b && ScopesMeetOn(d[a].scope, d[b].scope, path)
    requires Writes(d[a].scope, path) && Writes(d[b].scope, path)
    ensures Precedes(GraphOf(d), a, b) || Precedes(GraphOf(d), b, a)
    ensures !(Precedes(GraphOf(d), a, b) && Precedes(GraphOf(d), b, a))
  {
    hide Precedes, Writes, Clash;
    SharedPathClashes(d[a].scope, d[b].scope, path);
    assert Apart(d, a, b);
    var g := GraphOf(d);
    assert g.Keys == d.Keys;
    if Precedes(g, a, b) && Precedes(g, b, a) { NotBothWays(g, a, b); }
  }

  /** Two unordered packages of an accepted table that share a path do not meet on it:
      whatever atoms they have it through, one of its segments matches two patterns that
      the tail comparison separates. */
  lemma UnorderedWritersAreSeparated(d: Dag, external: set<Node>, probes: set<Node>, rendered: seq<seq<Node>>,
                                     path: string, a: Node, b: Node, l: string, r: string)
    requires Accepted(d, external, probes, rendered) && a in d && b in d && a != b
    requires !Precedes(GraphOf(d), a, b) && !Precedes(GraphOf(d), b, a)
    requires Writes(d[a].scope, path) && Writes(d[b].scope, path)
    requires l in d[a].scope.atoms && r in d[b].scope.atoms && AtomMatches(path, l) && AtomMatches(path, r)
    ensures exists k, i, j :: SeparatedOn(Split(path), Split(l), Split(r), k, i, j)
  {
    hide Precedes, Writes, Clash, AtomMatches, SeparatedOn;
    assert Apart(d, a, b);
    if MeetOn(path, l, r) { SharedPathClashes(d[a].scope, d[b].scope, path); }
  }

  lemma NotBothWays(g: Graph, a: Node, b: Node)
    requires Acyclic(g) && a in g && b in g && Precedes(g, a, b)
    ensures !Precedes(g, b, a)
  {
    RankOf(g, a);
    RankOf(g, b);
    var i :| InBatch(Run(g, g.Keys).batches, i, a);
    var j :| InBatch(Run(g, g.Keys).batches, j, b);
    BatchOrder(g, a, b, i, j);
    if Precedes(g, b, a) { BatchOrder(g, b, a, j, i); }
  }

  lemma RankOf(g: Graph, n: Node)
    requires Acyclic(g) && n in g
    ensures Emits(Run(g, g.Keys).batches, n)
  {
    ResidualIffCycle(g);
    RunPartitions(g, g.Keys);
  }

  /** No rendered ready set holds two packages that can write the same path. */
  lemma ReadySetsAreWriteDisjoint(d: Dag, external: set<Node>, probes: set<Node>, rendered: seq<seq<Node>>,
                                  k: nat, a: Node, b: Node, path: string)
    requires Accepted(d, external, probes, rendered)
    requires k < |rendered| && a in rendered[k] && b in rendered[k] && a != b
    ensures a in d && b in d
    ensures Writes(d[a].scope, path) && Writes(d[b].scope, path) ==> !ScopesMeetOn(d[a].scope, d[b].scope, path)
    ensures ScopesTell(d[a].scope, d[b].scope) ==> !(Writes(d[a].scope, path) && Writes(d[b].scope, path))
  {
    var g := GraphOf(d);
    assert g.Keys == d.Keys;
    RunPartitions(g, g.Keys);
    assert InBatch(rendered, k, a) && InBatch(rendered, k, b);
    assert Emits(rendered, a) && Emits(rendered, b);
    if Writes(d[a].scope, path) && Writes(d[b].scope, path) {
      if ScopesTell(d[a].scope, d[b].scope) { TellingScopesMeet(d[a].scope, d[b].scope, path); }
      if ScopesMeetOn(d[a].scope, d[b].scope, path) {
        WritersFormAChain(d, external, probes, rendered, path, a, b);
        if Precedes(g, a, b) {
          BatchOrder(g, a, b, k, k);
        } else {
          BatchOrder(g, b, a, k, k);
        }
      }
    }
  }

  /** In an accepted table precedence is visible in the ready sets. */
  lemma PrecedenceRendered(d: Dag, external: set<Node>, probes: set<Node>, rendered: seq<seq<Node>>, a: Node, b: Node)
    requires Accepted(d, external, probes, rendered) && b in d && Precedes(GraphOf(d), a, b)
    ensures exists i, j :: i < j && InBatch(rendered, i, a) && InBatch(rendered, j, b)
  {
    var g := GraphOf(d);
    assert g.Keys == d.Keys;
    var p :| PathBetween(g, p, a, b);
    assert p[0] in Deps(g, p[1]);
    RankOf(g, a);
    RankOf(g, b);
    var i :| InBatch(rendered, i, a);
    var j :| InBatch(rendered, j, b);
    BatchOrder(g, a, b, i, j);
  }

  /** Every probe is handed out strictly after the containment deployment, and after
      the probe gate where that is a package of the table. */
  lemma ProbesAfterContainment(d: Dag, external: set<Node>, probes: set<Node>, rendered: seq<seq<Node>>, probe: Node)
    requires Accepted(d, external, probes, rendered) && probe in probes
    ensures probe != CONTAINMENT ==>
              exists i, j :: i < j && InBatch(rendered, i, CONTAINMENT) && InBatch(rendered, j, probe)
    ensures probe != PROBE_GATE && PROBE_GATE in d ==>
              exists i, j :: i < j && InBatch(rendered, i, PROBE_GATE) && InBatch(rendered, j, probe)
  {
    hide InBatch;
    assert ProbeOk(d, probe);
    if probe != CONTAINMENT { PrecedenceRendered(d, external, probes, rendered, CONTAINMENT, probe); }
    if probe != PROBE_GATE && PROBE_GATE in d {
      assert PathBetween(GraphOf(d), [PROBE_GATE, probe], PROBE_GATE, probe);
      PrecedenceRendered(d, external, probes, rendered, PROBE_GATE, probe);
    }
  }

  // ---------- and what it does not

  /** Two packages without predecessors and one atom each. */
  function TwoRows(l: string, r: string): Dag
  {
    map["T1-W1" := Package([], Scope([l], []), []), "T1-W2" := Package([], Scope([r], []), [])]
  }

  function ReadySets(d: Dag): seq<seq<Node>>
  {
    Run(GraphOf(d), d.Keys).batches
  }

  lemma NothingPrecedes(g: Graph, a: Node, b: Node)
    requires forall n :: Deps(g, n) == {}
    ensures !Precedes(g, a, b)
  {
    forall p ensures !PathBetween(g, p, a, b) {
      if |p| >= 2 { assert Deps(g, p[1]) == {}; }
    }
  }

  lemma TwoRowsUnordered(l: string, r: string, a: Node, b: Node)
    ensures !Precedes(GraphOf(TwoRows(l, r)), a, b)
  {
    var g := GraphOf(TwoRows(l, r));
    assert forall n :: Deps(g, n) == {};
    NothingPrecedes(g, a, b);
  }

  lemma OneAtomClash(l: string, r: string, p: (string, string))
    ensures Clash(Scope([l], []), Scope([r], []), p) <==> p == (l, r) && AtomsOverlap(l, r)
    ensures Clash(Scope([r], []), Scope([l], []), p) <==> p == (r, l) && AtomsOverlap(l, r)
  {
    hide AtomsOverlap;
    ClashSymmetric(Scope([r], []), Scope([l], []), p);
  }

  lemma TwoRowsAcceptedIff(l: string, r: string)
    ensures Accepted(TwoRows(l, r), {}, {}, ReadySets(TwoRows(l, r))) <==> !AtomsOverlap(l, r)
  {
    hide Clash, Precedes, Run, AtomsOverlap;
    var d := TwoRows(l, r);
    forall a, b ensures !Precedes(GraphOf(d), a, b) { TwoRowsUnordered(l, r, a, b); }
    OneAtomClash(l, r, (l, r));
    if !AtomsOverlap(l, r) {
      forall a, b | a in d && b in d && a != b ensures Apart(d, a, b) {
        forall p ensures !Clash(d[a].scope, d[b].scope, p) { OneAtomClash(l, r, p); }
      }
    } else {
      assert !Apart(d, "T1-W1", "T1-W2") by { assert Clash(d["T1-W1"].scope, d["T1-W2"].scope, (l, r)); }
    }
  }

  lemma FirstBatchTakesAll(g: Graph, s: set<Node>, n: Node)
    requires Ready(g, s) == s && |s| <= CAP && n in s
    ensures InBatch(Run(g, s).batches, 0, n)
  {
  }

  lemma TwoRowsTogether(l: string, r: string)
    ensures InBatch(ReadySets(TwoRows(l, r)), 0, "T1-W1") && InBatch(ReadySets(TwoRows(l, r)), 0, "T1-W2")
  {
    hide Run, InBatch;
    var d := TwoRows(l, r);
    var g := GraphOf(d);
    assert forall n :: Deps(g, n) == {};
    assert Ready(g, d.Keys) == d.Keys;
    assert d.Keys == {"T1-W1", "T1-W2"} && |d.Keys| <= 2;
    FirstBatchTakesAll(g, d.Keys, "T1-W1");
    FirstBatchTakesAll(g, d.Keys, "T1-W2");
  }

  /** How far the promise goes, for atoms without `**`: a table that hands out two
      packages with a common path in its first ready set is accepted exactly when
      the tail comparison separates the two atoms at some depth. */
  lemma CollisionAcceptedIffSeparated(l: string, r: string, path: string)
    requires FixedDepth(Split(l)) && FixedDepth(Split(r)) && AtomMatches(path, l) && AtomMatches(path, r)
    ensures |Split(l)| == |Split(r)|
    ensures var d := TwoRows(l, r);
      && Writes(d["T1-W1"].scope, path) && Writes(d["T1-W2"].scope, path)
      && InBatch(ReadySets(d), 0, "T1-W1") && InBatch(ReadySets(d), 0, "T1-W2")
      && (Accepted(d, {}, {}, ReadySets(d)) <==> !NowhereSeparated(Split(l), Split(r)))
  {
    hide Accepted, AtomMatches, Run, InBatch, AtomsOverlap, NowhereSeparated;
    OverlapIffNowhereSeparated(path, l, r);
    TwoRowsAcceptedIff(l, r);
    TwoRowsTogether(l, r);
    assert l in Scope([l], []).atoms && r in Scope([r], []).atoms;
  }

  /** In particular with a class at the end of a segment. */
  lemma TrailingClassBreaksDisjointness()
    ensures var d := TwoRows("a[b]", "*b");
      && Accepted(d, {}, {}, ReadySets(d)) && !ScopesMeetOn(d["T1-W1"].scope, d["T1-W2"].scope, "ab")
      && InBatch(ReadySets(d), 0, "T1-W1") && InBatch(ReadySets(d), 0, "T1-W2")
      && Writes(d["T1-W1"].scope, "ab") && Writes(d["T1-W2"].scope, "ab")
  {
    hide Accepted, AtomMatches, MeetOn, Run, InBatch, AtomsOverlap;
    OverlapMissesTrailingClass();
    TwoRowsAcceptedIff("a[b]", "*b");
    TwoRowsTogether("a[b]", "*b");
    assert "a[b]" in Scope(["a[b]"], []).atoms && "*b" in Scope(["*b"], []).atoms;
  }
}
