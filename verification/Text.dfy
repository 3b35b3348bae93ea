/** Text primitives the plan checkers lean on: Python's `str.split("/")`,
    `sorted` over a set of identifiers, and relative `PurePosixPath`s. */
module Text {

  /** One more character in front of a text that splits into these parts. */
  function Prepend(c: char, parts: seq<string>): (more: seq<string>)
    requires |parts| >= 1
    ensures |more| >= 1
  {
    if c == '/' then [""] + parts else [[c] + parts[0]] + parts[1..]
  }

  /** `s.split("/")`: never empty, and the empty string gives one empty part. */
  function Split(s: string): (parts: seq<string>)
    ensures |parts| >= 1
  {
    if s == "" then [""] else Prepend(s[0], Split(s[1..]))
  }

  lemma PrependConcat(c: char, parts: seq<string>, rest: seq<string>)
    requires |parts| >= 1
    ensures Prepend(c, parts + rest) == Prepend(c, parts) + rest
  {
    assert (parts + rest)[1..] == parts[1..] + rest;
  }

  /** Splitting distributes over a separator. */
  lemma {:induction false} SplitConcat(a: string, b: string)
    ensures Split(a + "/" + b) == Split(a) + Split(b)
  {
    var s := a + "/" + b;
    if a == "" {
      assert s[1..] == b;
    } else {
      hide Prepend;
      assert s[1..] == a[1..] + "/" + b && s[0] == a[0];
      SplitConcat(a[1..], b);
      PrependConcat(a[0], Split(a[1..]), Split(b));
    }
  }

  lemma {:induction false} SplitOfOnePart(s: string)
    requires '/' !in s
    ensures Split(s) == [s]
  {
    if s != "" {
      SplitOfOnePart(s[1..]);
      assert [s[0]] + s[1..] == s;
    }
  }

  function Join(parts: seq<string>): string
    requires |parts| >= 1
  {
    if |parts| == 1 then parts[0] else parts[0] + "/" + Join(parts[1..])
  }

  lemma JoinPrepend(c: char, part: string, rest: seq<string>)
    ensures Join([[c] + part] + rest) == [c] + Join([part] + rest)
  {
  }

  lemma {:induction false} JoinSplit(s: string)
    ensures Join(Split(s)) == s
  {
    if s != "" {
      JoinSplit(s[1..]);
      assert s == [s[0]] + s[1..];
      if s[0] == '/' {
        assert ([""] + Split(s[1..]))[1..] == Split(s[1..]);
        assert "" + "/" + s[1..] == s;
      } else {
        var rest := Split(s[1..]);
        JoinPrepend(s[0], rest[0], rest[1..]);
        assert rest == [rest[0]] + rest[1..];
      }
    }
  }

  lemma SplitInjective(a: string, b: string)
    requires Split(a) == Split(b)
    ensures a == b
  {
    JoinSplit(a);
    JoinSplit(b);
  }

  lemma {:induction false} JoinConcat(a: seq<string>, b: seq<string>)
    requires |a| >= 1 && |b| >= 1
    ensures Join(a + b) == Join(a) + "/" + Join(b)
  {
    if |a| == 1 {
      assert (a + b)[1..] == b;
    } else {
      assert (a + b)[1..] == a[1..] + b;
      JoinConcat(a[1..], b);
    }
  }

  lemma {:induction false} SplitJoin(parts: seq<string>)
    requires |parts| >= 1 && forall p | p in parts :: '/' !in p
    ensures Split(Join(parts)) == parts
  {
    if |parts| == 1 {
      SplitOfOnePart(parts[0]);
    } else {
      SplitJoin(parts[1..]);
      SplitConcat(parts[0], Join(parts[1..]));
      SplitOfOnePart(parts[0]);
      assert parts == [parts[0]] + parts[1..];
    }
  }

  lemma SplitIsSlashFree(s: string)
    ensures forall p | p in Split(s) :: '/' !in p
  {
  }

  /** `s.endswith(t)` */
  predicate EndsWith(s: string, t: string)
  {
    |t| <= |s| && s[|s| - |t|..] == t
  }

  /** `t` occurs somewhere in `s`. */
  predicate Contains(s: string, t: string)
  {
    exists i | 0 <= i <= |s| :: t <= s[i..]
  }

  /** Python's order on strings, by code point. */
  predicate Leq(a: string, b: string)
  {
    a == "" || (b != "" && (a[0] < b[0] || (a[0] == b[0] && Leq(a[1..], b[1..]))))
  }

  /** The texts differ first at `k`, where `a` has the smaller character. */
  predicate SmallerAt(a: string, b: string, k: int)
  {
    0 <= k < |a| && k < |b| && a[..k] == b[..k] && a[k] < b[k]
  }

  /** The order is lexicographic by code point, a prefix coming first. */
  lemma {:induction false} LeqIff(a: string, b: string)
    ensures Leq(a, b) <==> a <= b || exists k :: SmallerAt(a, b, k)
  {
    if a != "" && b != "" {
      var x, y := a[1..], b[1..];
      assert a == [a[0]] + x && b == [b[0]] + y;
      LeqIff(x, y);
      if a[0] < b[0] { assert SmallerAt(a, b, 0); }
      if k :| SmallerAt(x, y, k) {
        if a[0] == b[0] {
          assert a[..k + 1] == [a[0]] + x[..k] && b[..k + 1] == [b[0]] + y[..k];
          assert SmallerAt(a, b, k + 1);
        }
      }
      if k :| SmallerAt(a, b, k) {
        if k > 0 {
          assert a[..k][0] == a[0] && b[..k][0] == b[0];
          assert x[..k - 1] == a[..k][1..] && y[..k - 1] == b[..k][1..];
          assert SmallerAt(x, y, k - 1);
        }
      }
    }
  }

  lemma LeqAntisymmetric(a: string, b: string)
    requires Leq(a, b) && Leq(b, a)
    ensures a == b
  {
  }

  lemma LeqTotal(a: string, b: string)
    ensures Leq(a, b) || Leq(b, a)
  {
  }

  lemma {:induction false} LeqTransitive(a: string, b: string, c: string)
    requires Leq(a, b) && Leq(b, c)
    ensures Leq(a, c)
  {
    if a != "" && a[0] == b[0] == c[0] {
      LeqTransitive(a[1..], b[1..], c[1..]);
    }
  }

  predicate IsLeast(x: string, s: set<string>)
  {
    x in s && forall y | y in s :: Leq(x, y)
  }

  lemma {:induction false} LeastExists(s: set<string>)
    requires s != {}
    ensures exists x :: IsLeast(x, s)
  {
    var x :| x in s;
    LeqTotal(x, x);
    if s == {x} {
      assert IsLeast(x, s);
    } else {
      LeastExists(s - {x});
      var y :| IsLeast(y, s - {x});
      LeqTotal(x, y);
      if Leq(x, y) {
        forall z | z in s ensures Leq(x, z) {
          if z != x { LeqTransitive(x, y, z); }
        }
        assert IsLeast(x, s);
      } else {
        assert IsLeast(y, s);
      }
    }
  }

  predicate Ascending(q: seq<string>)
  {
    forall i, j | 0 <= i < j < |q| :: Leq(q[i], q[j]) && q[i] != q[j]
  }

  function Elems(q: seq<string>): set<string>
  {
    set x | x in q
  }

  lemma LeastUnique(s: set<string>)
    ensures forall x, y | IsLeast(x, s) && IsLeast(y, s) :: x == y
  {
    forall x, y | IsLeast(x, s) && IsLeast(y, s) ensures x == y {
      LeqAntisymmetric(x, y);
    }
  }

  /** `sorted(s)` for a set: every element once. */
  function Sorted(s: set<string>): (q: seq<string>)
    ensures Elems(q) == s
    ensures |q| == |s|
  {
    if s == {} then []
    else
      LeastExists(s);
      LeastUnique(s);
      var x :| IsLeast(x, s);
      var rest := Sorted(s - {x});
      assert forall y :: y in [x] + rest <==> y == x || y in Elems(rest);
      [x] + rest
  }

  /** And in ascending order. */
  lemma {:induction false} SortedAscending(s: set<string>)
    ensures Ascending(Sorted(s))
  {
    if s != {} {
      LeastExists(s);
      LeastUnique(s);
      var x :| IsLeast(x, s);
      SortedAscending(s - {x});
      var rest := Sorted(s - {x});
      assert Sorted(s) == [x] + rest;
      LeastFirst(x, s, rest);
    }
  }

  lemma LeastFirst(x: string, s: set<string>, rest: seq<string>)
    requires IsLeast(x, s) && Elems(rest) == s - {x} && Ascending(rest)
    ensures Ascending([x] + rest)
  {
    hide Leq;
    forall j | 0 <= j < |rest| ensures Leq(x, rest[j]) && x != rest[j] { assert rest[j] in Elems(rest); }
  }

  /** Sorting is deterministic: only one ascending list has the given elements. */
  lemma {:induction false} SortedUnique(p: seq<string>, q: seq<string>)
    requires Ascending(p) && Ascending(q) && Elems(p) == Elems(q)
    ensures p == q
  {
    assert forall x :: x in p <==> x in Elems(p);
    assert forall x :: x in q <==> x in Elems(q);
    assert |p| > 0 ==> p[0] in q;
    assert |q| > 0 ==> q[0] in p;
    if |p| > 0 {
      var i :| 0 <= i < |q| && q[i] == p[0];
      var j :| 0 <= j < |p| && p[j] == q[0];
      if i > 0 && j > 0 {
        LeqAntisymmetric(p[0], q[0]);
      }
      assert p[0] == q[0];
      forall x ensures x in p[1..] <==> x in q[1..] {
        assert x in p[1..] <==> x in p && x != p[0];
        assert x in q[1..] <==> x in q && x != q[0];
      }
      assert Elems(p[1..]) == Elems(q[1..]);
      SortedUnique(p[1..], q[1..]);
      assert p == [p[0]] + p[1..] && q == [q[0]] + q[1..];
    }
  }

  // ---------- PurePosixPath

  predicate Visible(part: string)
  {
    part != "" && part != "."
  }

  function Filter(parts: seq<string>): (kept: seq<string>)
  {
    if parts == [] then []
    else if Visible(parts[0]) then [parts[0]] + Filter(parts[1..]) else Filter(parts[1..])
  }

  /** `PurePosixPath(path).parts` of a relative path. */
  function Parts(path: string): seq<string>
  {
    Filter(Split(path))
  }

  /** `str(PurePosixPath(*parts))` */
  function Render(parts: seq<string>): string
  {
    if parts == [] then "." else Join(parts)
  }

  lemma {:induction false} FilterConcat(a: seq<string>, b: seq<string>)
    ensures Filter(a + b) == Filter(a) + Filter(b)
  {
    if a == [] {
      assert a + b == b;
    } else {
      assert (a + b)[1..] == a[1..] + b;
      FilterConcat(a[1..], b);
    }
  }

  lemma FilterOne(part: string)
    ensures Filter([part]) == if part == "" || part == "." then [] else [part]
  {
  }

  lemma {:induction false} FilterIsIdentity(parts: seq<string>)
    requires forall p | p in parts :: Visible(p)
    ensures Filter(parts) == parts
  {
    if parts != [] {
      FilterIsIdentity(parts[1..]);
      assert parts == [parts[0]] + parts[1..];
    }
  }

  /** What is written below a path is in it. */
  lemma PartsBelow(path: string, rest: string)
    ensures Parts(path) <= Parts(path + "/" + rest)
  {
    hide Split, Filter;
    SplitConcat(path, rest);
    FilterConcat(Split(path), Split(rest));
  }

  lemma FilterKeeps(parts: seq<string>)
    ensures forall p | p in Filter(parts) :: p in parts && Visible(p)
  {
  }

  lemma PartsAreVisible(path: string)
    ensures forall p | p in Parts(path) :: '/' !in p && Visible(p)
  {
    hide Split, Filter;
    SplitIsSlashFree(path);
    FilterKeeps(Split(path));
  }
}
