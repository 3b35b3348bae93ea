/** The two worklist searches for transitive precedence. */
module Reach {
  import opened Text
  import opened Graph

  /** `list(s)`: every element, in an order the caller may not rely on. */
  method ListOf(s: set<Node>) returns (l: seq<Node>)
    ensures forall x :: x in l <==> x in s
  {
    l := [];
    var rest := s;
    while rest != {}
      invariant rest <= s && forall x :: x in l <==> x in s && x !in rest
    {
      var x :| x in rest;
      l := l + [x];
      rest := rest - {x};
    }
  }

  ghost function Mentioned(g: Graph): set<Node>
  {
    set n, t | n in g && t in g[n] :: t
  }

  /** Everything on the list or already seen precedes `right`, the target has not
      been seen, and no predecessor of `right` or of a seen node has been dropped. */
  ghost predicate Searching(g: Graph, target: Node, right: Node, seen: set<Node>, pending: seq<Node>)
  {
    && target !in seen && seen <= Mentioned(g)
    && (forall x | x in pending :: x in Mentioned(g) && Precedes(g, x, right))
    && (forall x | x in seen :: Precedes(g, x, right))
    && (forall x | x in Deps(g, right) :: x in seen || x in pending)
    && (forall y, x | y in seen && x in Deps(g, y) :: x in seen || x in pending)
  }

  lemma SearchStarts(g: Graph, target: Node, right: Node, pending: seq<Node>)
    requires forall x :: x in pending <==> x in Deps(g, right)
    ensures Searching(g, target, right, {}, pending)
  {
    forall x | x in pending ensures Precedes(g, x, right) { PrecedesStep(g, x, x, right); }
  }

  /** Popping a node seen before drops nothing. */
  lemma SearchSkips(g: Graph, target: Node, right: Node, seen: set<Node>, pending: seq<Node>)
    requires Searching(g, target, right, seen, pending) && |pending| > 0 && pending[|pending| - 1] in seen
    ensures Searching(g, target, right, seen, pending[..|pending| - 1])
  {
  }

  /** Popping a new node and listing its predecessors. */
  lemma SearchGrows(g: Graph, target: Node, right: Node, seen: set<Node>, pending: seq<Node>, more: seq<Node>)
    requires Searching(g, target, right, seen, pending) && |pending| > 0
    requires var x := pending[|pending| - 1]; x != target && forall y :: y in more <==> y in Deps(g, x)
    ensures Searching(g, target, right, seen + {pending[|pending| - 1]}, pending[..|pending| - 1] + more)
  {
    var x := pending[|pending| - 1];
    assert pending == pending[..|pending| - 1] + [x];
    forall y | y in more ensures Precedes(g, y, right) { PrecedesPrepend(g, y, x, right); }
    assert forall y | y in pending :: y == x || y in pending[..|pending| - 1];
  }

  /** With nothing left to look at, everything that precedes `right` was seen. */
  lemma {:induction false} SearchExhausted(g: Graph, target: Node, right: Node, seen: set<Node>, p: seq<Node>, x: Node)
    requires Searching(g, target, right, seen, []) && PathBetween(g, p, x, right)
    ensures x in seen
    decreases |p|
  {
    assert p[0] in Deps(g, p[1]);
    if |p| > 2 {
      var q := p[1..];
      assert forall i | 0 < i < |q| :: q[i - 1] == p[i] && q[i] == p[i + 1];
      assert PathBetween(g, q, p[1], right);
      SearchExhausted(g, target, right, seen, q, p[1]);
    }
  }

  lemma SearchFails(g: Graph, target: Node, right: Node, seen: set<Node>)
    requires Searching(g, target, right, seen, [])
    ensures !Precedes(g, target, right)
  {
    if p :| PathBetween(g, p, target, right) {
      SearchExhausted(g, target, right, seen, p, target);
    }
  }

  /** wp-check.py `transitively_precedes`: ends on cyclic graphs too, and decides precedence. */
  method TransitivelyPrecedes(g: Graph, left: Node, right: Node) returns (found: bool)
    ensures found <==> Precedes(g, left, right)
  {
    var pending := ListOf(Deps(g, right));
    var seen: set<Node> := {};
    SearchStarts(g, left, right, pending);
    while pending != []
      invariant Searching(g, left, right, seen, pending)
      decreases Mentioned(g) - seen, |pending|
    {
      var predecessor := pending[|pending| - 1];
      if predecessor == left { return true; }
      if predecessor !in seen {
        var more := ListOf(Deps(g, predecessor));
        SearchGrows(g, left, right, seen, pending, more);
        seen := seen + {predecessor};
        pending := pending[..|pending| - 1] + more;
      } else {
        SearchSkips(g, left, right, seen, pending);
        pending := pending[..|pending| - 1];
      }
    }
    SearchFails(g, left, right, seen);
    return false;
  }

  function Listed(rows: Rows, n: Node): seq<Node>
  {
    if n in rows then rows[n] else []
  }

  /** au-check.py `dag_depends_on`: the same over the listed tokens. */
  method DependsOn(rows: Rows, node: Node, target: Node) returns (found: bool)
    ensures found <==> Precedes(TokenGraph(rows), target, node)
    ensures target in rows ==> (found <==> Precedes(NodeGraph(rows), target, node))
  {
    ghost var g := TokenGraph(rows);
    if target in rows { TokensAddNoOrder(rows, target, node); }
    var pending := Listed(rows, node);
    var seen: set<Node> := {};
    SearchStarts(g, target, node, pending);
    while pending != []
      invariant Searching(g, target, node, seen, pending)
      decreases Mentioned(g) - seen, |pending|
    {
      var current := pending[|pending| - 1];
      if current == target { return true; }
      if current in seen {
        SearchSkips(g, target, node, seen, pending);
        pending := pending[..|pending| - 1];
        continue;
      }
      SearchGrows(g, target, node, seen, pending, Listed(rows, current));
      seen := seen + {current};
      pending := pending[..|pending| - 1] + Listed(rows, current);
    }
    SearchFails(g, target, node, seen);
    return false;
  }
}
