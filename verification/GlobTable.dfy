/** The memo table of `intersects` in docs/plan/wp-check.py. */
module GlobTable {
  import opened Text
  import opened Glob

  class OverlapTable {
    const left: seq<string>
    const right: seq<string>
    var memo: map<(nat, nat), bool>
    ghost var computed: nat  // how often a result was worked out rather than looked up

    ghost predicate Right(k: (nat, nat), b: bool)
    {
      k.0 <= |left| && k.1 <= |right| && b == Intersects(left, right, k.0, k.1)
    }

    ghost predicate Valid()
      reads this
    {
      computed == |memo| && forall k | k in memo :: Right(k, memo[k])
    }

    constructor (left: seq<string>, right: seq<string>)
      ensures Valid() && memo == map[] && this.left == left && this.right == right
    {
      this.left, this.right, memo, computed := left, right, map[], 0;
    }

    /** The table agrees with the plain recursion, only ever grows, and only at
        positions from (i, j) on. */
    method Query(i: nat, j: nat) returns (result: bool)
      requires Valid() && i <= |left| && j <= |right|
      modifies this
      ensures Valid() && Right((i, j), result)
      ensures old(memo).Keys <= memo.Keys
      ensures forall k | k in memo && k !in old(memo) :: i <= k.0 && j <= k.1
      decreases |left| - i + |right| - j, 1
    {
      if (i, j) in memo {
        result := memo[(i, j)];
      } else {
        result := Compute(i, j);
        memo := memo[(i, j) := result];
        computed := computed + 1;
      }
    }

    method Compute(i: nat, j: nat) returns (result: bool)
      requires Valid() && i <= |left| && j <= |right| && (i, j) !in memo
      modifies this
      ensures Valid() && Right((i, j), result)
      ensures old(memo).Keys <= memo.Keys && (i, j) !in memo
      ensures forall k | k in memo && k !in old(memo) :: i <= k.0 && j <= k.1
      decreases |left| - i + |right| - j, 0
    {
      hide SegmentOverlap;
      if i == |left| && j == |right| {
        result := true;
      } else if i == |left| {
        result := AllStarStar(right[j..]);
      } else if j == |right| {
        result := AllStarStar(left[i..]);
      } else if left[i] == STARSTAR {
        result := Query(i + 1, j);
        if !result { result := Query(i, j + 1); }
      } else if right[j] == STARSTAR {
        result := Query(i, j + 1);
        if !result { result := Query(i + 1, j); }
      } else if SegmentOverlap(left[i], right[j]) {
        result := Query(i + 1, j + 1);
      } else {
        result := false;
      }
    }
  }

  lemma {:induction false} RowBound(keys: set<(nat, nat)>, n: nat, m: nat)
    requires forall k | k in keys :: k.0 == n && k.1 <= m
    ensures |keys| <= m + 1
  {
    var rest := keys - {(n, m)};
    if m == 0 {
      assert rest == {};
    } else {
      RowBound(rest, n, m - 1);
    }
  }

  /** Positions of an (n + 1) by (m + 1) grid. */
  lemma {:induction false} GridBound(keys: set<(nat, nat)>, n: nat, m: nat)
    requires forall k | k in keys :: k.0 <= n && k.1 <= m
    ensures |keys| <= (n + 1) * (m + 1)
  {
    var row := set k | k in keys && k.0 == n;
    RowBound(row, n, m);
    var rest := keys - row;
    assert keys == rest + row && |keys| == |rest| + |row|;
    assert (n + 1) * (m + 1) == n * (m + 1) + (m + 1);
    if n == 0 {
      assert rest == {};
    } else {
      GridBound(rest, n - 1, m);
    }
  }

  /** `path_atoms_overlap`: the answer of the plain recursion, for at most one
      evaluation per pair of positions. */
  method PathAtomsOverlap(left: string, right: string) returns (result: bool, ghost work: nat)
    ensures result == AtomsOverlap(left, right)
    ensures work <= (|Split(left)| + 1) * (|Split(right)| + 1)
  {
    var table := new OverlapTable(Split(left), Split(right));
    result := table.Query(0, 0);
    work := table.computed;
    GridBound(table.memo.Keys, |table.left|, |table.right|);
  }

  /** Every pair of atoms that can collide is reported, and no other pair. */
  method ScopeOverlap(left: Scope, right: Scope) returns (overlaps: seq<(string, string)>)
    ensures forall p :: p in overlaps <==> Clash(left, right, p)
  {
    hide AtomsOverlap, Excluded;
    overlaps := [];
    for i := 0 to |left.atoms|
      invariant forall p :: p in overlaps <==> Clash(left, right, p) && p.0 in left.atoms[..i]
    {
      var l := left.atoms[i];
      for j := 0 to |right.atoms|
        invariant forall p :: p in overlaps <==>
                    Clash(left, right, p) && (p.0 in left.atoms[..i] || (p.0 == l && p.1 in right.atoms[..j]))
      {
        var r := right.atoms[j];
        var meet, _ := PathAtomsOverlap(l, r);
        if meet && !Excluded(left.exclusions, r) && !Excluded(right.exclusions, l) {
          overlaps := overlaps + [(l, r)];
        }
      }
    }
  }
}
