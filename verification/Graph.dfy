/** The predecessor graph of work packages, its paths and its cycles. */
module Graph {
  import opened Text

  type Node = string
  type Graph = map<Node, set<Node>>  // direct predecessors of each node
  type Rows = map<Node, seq<Node>>  // predecessor tokens as the table lists them

  function Deps(g: Graph, n: Node): set<Node>
  {
    if n in g then g[n] else {}
  }

  /** The graph au-check.py reads: every token, external owner actions included. */
  function TokenGraph(rows: Rows): (g: Graph)
  {
    map n | n in rows :: Elems(rows[n])
  }

  /** The graph wp-check.py builds: tokens that are rows of the table. */
  function NodeGraph(rows: Rows): (g: Graph)
  {
    map n | n in rows :: set t | t in rows[n] && t in rows
  }

  /** Each node is a direct predecessor of the next one. */
  ghost predicate IsPath(g: Graph, p: seq<Node>)
  {
    forall i | 0 < i < |p| :: p[i - 1] in Deps(g, p[i])
  }

  ghost predicate PathBetween(g: Graph, p: seq<Node>, a: Node, b: Node)
  {
    |p| >= 2 && IsPath(g, p) && p[0] == a && p[|p| - 1] == b
  }

  /** `a` is a direct or transitive predecessor of `b`. */
  ghost predicate Precedes(g: Graph, a: Node, b: Node)
  {
    exists p :: PathBetween(g, p, a, b)
  }

  ghost predicate Acyclic(g: Graph)
  {
    forall a :: !Precedes(g, a, a)
  }

  ghost predicate IsChain(g: Graph, within: set<Node>, p: seq<Node>)
  {
    IsPath(g, p) && forall i | 0 <= i < |p| :: p[i] in within
  }

  lemma PathExtend(g: Graph, p: seq<Node>, a: Node, b: Node, c: Node)
    requires PathBetween(g, p, a, b) && b in Deps(g, c)
    ensures PathBetween(g, p + [c], a, c)
  {
  }

  lemma PrecedesStep(g: Graph, a: Node, b: Node, c: Node)
    requires b in Deps(g, c) && (a == b || Precedes(g, a, b))
    ensures Precedes(g, a, c)
  {
    if a == b {
      assert PathBetween(g, [a, c], a, c);
    } else {
      var p :| PathBetween(g, p, a, b);
      PathExtend(g, p, a, b, c);
    }
  }

  lemma PrecedesPrepend(g: Graph, a: Node, b: Node, c: Node)
    requires a in Deps(g, b) && Precedes(g, b, c)
    ensures Precedes(g, a, c)
  {
    var p :| PathBetween(g, p, b, c);
    assert PathBetween(g, [a] + p, a, c);
  }

  lemma {:induction false} Pigeonhole(p: seq<Node>, s: set<Node>)
    requires |p| > |s| && forall i | 0 <= i < |p| :: p[i] in s
    ensures exists i, j :: 0 <= i < j < |p| && p[i] == p[j]
  {
    if p[0] in p[1..] {
      var j :| 0 <= j < |p[1..]| && p[1..][j] == p[0];
      assert p[0] == p[j + 1];
    } else {
      var q := p[1..];
      Pigeonhole(q, s - {p[0]});
      var i, j :| 0 <= i < j < |q| && q[i] == q[j];
      assert p[i + 1] == p[j + 1];
    }
  }

  /** The node has a predecessor in the set. */
  ghost predicate Waits(g: Graph, s: set<Node>, n: Node)
  {
    exists m :: m in s && m in Deps(g, n)
  }

  /** A walk of any length can be made backwards where everything has a predecessor. */
  lemma {:induction false} WalkBack(g: Graph, s: set<Node>, k: nat) returns (p: seq<Node>)
    requires s != {} && forall n {:trigger Waits(g, s, n)} | n in s :: Waits(g, s, n)
    ensures |p| == k + 1 && IsChain(g, s, p)
  {
    if k == 0 {
      var n :| n in s;
      p := [n];
    } else {
      var q := WalkBack(g, s, k - 1);
      assert q[0] in s;
      assert q[0] in s && Waits(g, s, q[0]);
      var m :| m in s && m in Deps(g, q[0]);
      p := [m] + q;
    }
  }

  ghost predicate IsCycleIn(g: Graph, s: set<Node>, p: seq<Node>)
  {
    IsChain(g, s, p) && |p| >= 2 && p[0] == p[|p| - 1]
  }

  /** A non-empty set in which every node waits for another holds a real cycle. */
  lemma StuckSetHasCycle(g: Graph, s: set<Node>)
    requires s != {} && forall n {:trigger Waits(g, s, n)} | n in s :: Waits(g, s, n)
    ensures exists p :: IsCycleIn(g, s, p)
  {
    var p := WalkBack(g, s, |s|);
    Pigeonhole(p, s);
    var i, j :| 0 <= i < j < |p| && p[i] == p[j];
    var c := p[i..j + 1];
    assert IsCycleIn(g, s, c);
  }

  /** External tokens carry no precedence between nodes of the table. */
  lemma TokensAddNoOrder(rows: Rows, a: Node, b: Node)
    requires a in rows
    ensures Precedes(TokenGraph(rows), a, b) <==> Precedes(NodeGraph(rows), a, b)
  {
    var t, n := TokenGraph(rows), NodeGraph(rows);
    if p :| PathBetween(t, p, a, b) {
      forall i | 0 < i < |p| ensures p[i - 1] in Deps(n, p[i]) {
        assert p[i - 1] in Deps(t, p[i]);
        if i > 1 { assert p[i - 2] in Deps(t, p[i - 1]); }
      }
      assert PathBetween(n, p, a, b);
    }
    if p :| PathBetween(n, p, a, b) {
      forall i | 0 < i < |p| ensures p[i - 1] in Deps(t, p[i]) {
        assert p[i - 1] in Deps(n, p[i]);
      }
      assert PathBetween(t, p, a, b);
    }
  }
}
