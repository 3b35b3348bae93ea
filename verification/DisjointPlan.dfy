/** The execution plan gate of scripts/dev/disjoint-plan.py: exact file ownership,
    and why accepted candidates can be merged in any order. */
module DisjointPlan {
  import opened Common
  import opened Text
  import opened GitLog

  predicate ExactRelativeFile(path: string)
  {
    && !("/" <= path) && ".." !in Parts(path) && Render(Parts(path)) == path
    && '*' !in path && '?' !in path && '[' !in path
  }

  predicate PlainParts(path: string)
  {
    forall part | part in Split(path) :: part != "" && part != "." && part != ".."
  }

  /** Written without empty, `.` and `..` parts, or as `.` alone, and without wildcards. */
  lemma ExactIff(path: string)
    ensures ExactRelativeFile(path) <==>
            && (path == "." || PlainParts(path))
            && '*' !in path && '?' !in path && '[' !in path
  {
    if ExactRelativeFile(path) && path != "." { ExactIsPlain(path); }
    if path == "." {
      DotHasNoParts();
    } else if PlainParts(path) {
      PlainIsExact(path);
    }
  }

  lemma ExactIsPlain(path: string)
    requires ExactRelativeFile(path) && path != "."
    ensures PlainParts(path)
  {
    hide Split, Filter;
    PartsAreVisible(path);
    SplitJoin(Parts(path));
  }

  lemma PlainIsExact(path: string)
    requires PlainParts(path)
    ensures !("/" <= path) && ".." !in Parts(path) && Render(Parts(path)) == path
  {
    hide Split, Filter;
    FilterIsIdentity(Split(path));
    JoinSplit(path);
    SplitHead(path);
    assert Split(path)[0] in Split(path);
  }

  lemma SplitHead(path: string)
    ensures "/" <= path ==> Split(path)[0] == ""
  {
  }

  lemma DotHasNoParts()
    ensures Parts(".") == [] && !("/" <= ".")
  {
    SplitOfOnePart(".");
    FilterOne(".");
  }

  // ---------- the plan

  datatype Packet = Packet(id: string, owns: seq<string>, allowedWrites: seq<string>, dispatched: bool,
                           baseline: Option<string>)

  datatype Plan = Plan(controlOwns: seq<string>, packets: seq<Packet>)

  datatype PlanError =
    | NotAnExactFile(owner: string, path: string)
    | WriteConflict(path: string, first: string, second: string)
    | DirectoryOverlap(parent: string, path: string)
    | RepeatedPacket
    | WritesExceedOwnership(id: string)

  /** The write grants in the order the gate reads them. */
  function GrantsOf(packets: seq<Packet>): seq<(string, string)>
  {
    if packets == [] then [] else Label(packets[0].id, packets[0].owns) + GrantsOf(packets[1..])
  }

  function Label(owner: string, paths: seq<string>): (g: seq<(string, string)>)
    ensures |g| == |paths| && forall i | 0 <= i < |paths| :: g[i] == (owner, paths[i])
  {
    seq(|paths|, i requires 0 <= i < |paths| => (owner, paths[i]))
  }

  function Grants(plan: Plan): seq<(string, string)>
  {
    Label("I0", plan.controlOwns) + GrantsOf(plan.packets)
  }

  predicate GrantsDistinct(grants: seq<(string, string)>)
  {
    forall i, j | 0 <= i < j < |grants| :: grants[i].1 != grants[j].1
  }

  /** No granted path is a directory above another one. */
  predicate NoParentGranted(grants: seq<(string, string)>)
  {
    forall i, k | 0 <= i < |grants| && 0 <= k < |Parts(grants[i].1)| ::
      forall j | 0 <= j < |grants| :: grants[j].1 != Render(Parts(grants[i].1)[..k])
  }

  predicate PacketIdsDistinct(packets: seq<Packet>)
  {
    forall i, j | 0 <= i < j < |packets| :: packets[i].id != packets[j].id
  }

  predicate WritesOwned(p: Packet)
  {
    Elems(p.allowedWrites) <= Elems(p.owns)
  }

  predicate Accepted(plan: Plan)
  {
    var grants := Grants(plan);
    && PacketIdsDistinct(plan.packets)
    && (forall i | 0 <= i < |grants| :: ExactRelativeFile(grants[i].1))
    && GrantsDistinct(grants) && NoParentGranted(grants)
    && (forall i | 0 <= i < |plan.packets| :: WritesOwned(plan.packets[i]))
  }

  // ---------- the gate's loops

  ghost predicate Owned(owners: map<string, string>, grants: seq<(string, string)>)
  {
    forall path :: path in owners <==> exists i :: 0 <= i < |grants| && grants[i].1 == path
  }

  lemma OwnedStep(owners: map<string, string>, grants: seq<(string, string)>, i: nat)
    requires i < |grants| && Owned(owners, grants[..i])
    ensures Owned(owners[grants[i].1 := grants[i].0], grants[..i + 1])
    ensures GrantsDistinct(grants[..i + 1]) <==> GrantsDistinct(grants[..i]) && grants[i].1 !in owners
  {
  }

  method OwnershipErrors(grants: seq<(string, string)>) returns (errors: seq<PlanError>, owners: map<string, string>)
    ensures errors == [] <==> GrantsDistinct(grants) && forall i | 0 <= i < |grants| :: ExactRelativeFile(grants[i].1)
    ensures Owned(owners, grants)
  {
    hide ExactRelativeFile, GrantsDistinct, Owned;
    errors, owners := [], map[];
    NothingOwned();
    assert grants[..0] == [];
    for i := 0 to |grants|
      invariant Owned(owners, grants[..i])
      invariant errors == [] <==> GrantsDistinct(grants[..i]) && forall k | 0 <= k < i :: ExactRelativeFile(grants[k].1)
    {
      var (owner, path) := grants[i];
      OwnedStep(owners, grants, i);
      if !ExactRelativeFile(path) { errors := errors + [NotAnExactFile(owner, path)]; }
      if path in owners { errors := errors + [WriteConflict(path, owners[path], owner)]; }
      owners := owners[path := owner];
    }
    assert grants[..|grants|] == grants;
  }

  lemma NothingOwned()
    ensures Owned(map[], []) && GrantsDistinct([])
  {
  }

  predicate NoParentOwned(owners: map<string, string>, path: string)
  {
    forall k | 0 <= k < |Parts(path)| :: Render(Parts(path)[..k]) !in owners
  }

  method ParentErrors(owners: map<string, string>, path: string) returns (errors: seq<PlanError>)
    ensures errors == [] <==> NoParentOwned(owners, path)
  {
    hide Render;
    errors := [];
    var parts := Parts(path);
    for k := 0 to |parts|
      invariant errors == [] <==> forall j | 0 <= j < k :: Render(parts[..j]) !in owners
    {
      var parent := Render(parts[..k]);
      if parent in owners { errors := errors + [DirectoryOverlap(parent, path)]; }
    }
  }

  method PlanErrors(plan: Plan) returns (errors: seq<PlanError>)
    ensures errors == [] <==> Accepted(plan)
  {
    hide NoParentOwned, ExactRelativeFile, GrantsDistinct, Grants, Owned, WritesOwned, PacketIdsDistinct, NoParentGranted;
    var grants := Grants(plan);
    var owners;
    errors, owners := OwnershipErrors(grants);
    ghost var owned := errors;
    for i := 0 to |grants|
      invariant errors == [] <==> owned == [] && forall k | 0 <= k < i :: NoParentOwned(owners, grants[k].1)
    {
      var more := ParentErrors(owners, grants[i].1);
      errors := errors + more;
    }
    ParentsByOwner(owners, grants);
    if !PacketIdsDistinct(plan.packets) { errors := errors + [RepeatedPacket]; }
    ghost var before := errors;
    for i := 0 to |plan.packets|
      invariant errors == [] <==> before == [] && forall k | 0 <= k < i :: WritesOwned(plan.packets[k])
    {
      if !WritesOwned(plan.packets[i]) { errors := errors + [WritesExceedOwnership(plan.packets[i].id)]; }
    }
  }

  lemma ParentsByOwner(owners: map<string, string>, grants: seq<(string, string)>)
    requires Owned(owners, grants)
    ensures NoParentGranted(grants) <==> forall i | 0 <= i < |grants| :: NoParentOwned(owners, grants[i].1)
  {
  }

  // ---------- history

  /** A git tree: the content of each file, by path. */
  type Tree = map<string, string>

  /** A commit with its history. `movedFrom` holds the files git's rename detection
      takes from it: gone here, and shown under their new name only. */
  datatype Commit = Commit(sha: string, tree: Tree, parents: seq<Commit>, movedFrom: set<string>)

  predicate Same(a: Tree, b: Tree, path: string)
  {
    if path in a then path in b && a[path] == b[path] else path !in b
  }

  function Diff(a: Tree, b: Tree): set<string>
  {
    set path | path in a.Keys + b.Keys && !Same(a, b, path)
  }

  function Ancestors(c: Commit): set<Commit>
  {
    {c} + set i, a | 0 <= i < |c.parents| && a in Ancestors(c.parents[i]) :: a
  }

  /** The commits of `base..head`. */
  function Range(base: Commit, head: Commit): set<Commit>
  {
    Ancestors(head) - Ancestors(base)
  }

  /** What `git log --name-only` prints for one commit: nothing for a merge, and a
      rename by its new name. */
  function Listed(c: Commit): set<string>
  {
    if |c.parents| == 0 then c.tree.Keys
    else if |c.parents| == 1 then Diff(c.parents[0].tree, c.tree) - c.movedFrom
    else {}
  }

  function Changed(base: Commit, head: Commit): set<string>
  {
    set c, path | c in Range(base, head) && path in Listed(c) :: path
  }

  // ---------- candidates

  /** A returned branch: its base and head as stated, the commits git resolves these to,
      and what `git log` writes about it. */
  datatype Candidate = Candidate(wp: string, baseSha: string, headSha: string, base: Commit, head: Commit, output: string)

  /** Base and head are stated by their full names. */
  predicate ExactShas(c: Candidate)
  {
    c.base.sha == c.baseSha && c.head.sha == c.headSha
  }

  datatype Verdict = Unknown | NotDispatched | WrongBase | InexactShas | NotDescended | Unauthorized(paths: seq<string>) | Fine

  function FindPacket(packets: seq<Packet>, wp: string): (i: nat)
    ensures i <= |packets| && (i < |packets| ==> packets[i].id == wp)
    ensures forall k | 0 <= k < i :: packets[k].id != wp
  {
    if packets == [] || packets[0].id == wp then 0 else 1 + FindPacket(packets[1..], wp)
  }

  /** Every path the gate reads is one the packet may write. */
  ghost predicate Authorized(plan: Plan, i: int, c: Candidate)
  {
    && 0 <= i < |plan.packets| && plan.packets[i].id == c.wp
    && forall path | path in ReadNames(c.output) :: path in Elems(plan.packets[i].allowedWrites)
  }

  /** `candidate_errors`, first failing check. */
  function CandidateVerdict(plan: Plan, c: Candidate): (v: Verdict)
    ensures v == Fine ==> c.base in Ancestors(c.head) && exists i :: Authorized(plan, i, c)
  {
    var i := FindPacket(plan.packets, c.wp);
    if i == |plan.packets| then Unknown
    else
      var packet := plan.packets[i];
      if !packet.dispatched then NotDispatched
      else if packet.baseline != Some(c.baseSha) then WrongBase
      else if !ExactShas(c) then InexactShas
      else if c.base !in Ancestors(c.head) then NotDescended
      else
        var changed := ReadNames(c.output);
        var outside := Sorted(changed - Elems(packet.allowedWrites));
        if outside == [] then
          NothingOutside(changed, Elems(packet.allowedWrites));
          assert Authorized(plan, i, c);
          Fine
        else Unauthorized(outside)
  }

  /** A candidate passes exactly when its packet was dispatched from this base, git
      confirms the branch, and the gate reads no path outside the packet's allowed
      writes in its log. */
  lemma CandidateFineIff(plan: Plan, c: Candidate)
    requires PacketIdsDistinct(plan.packets)
    ensures CandidateVerdict(plan, c) == Fine <==>
            c.base.sha == c.baseSha && c.head.sha == c.headSha && c.base in Ancestors(c.head)
            && exists i :: Authorized(plan, i, c) && plan.packets[i].dispatched && plan.packets[i].baseline == Some(c.baseSha)
  {
    hide Sorted, FindPacket, Elems, Ancestors, ReadNames;
    var k := FindPacket(plan.packets, c.wp);
    forall i | Authorized(plan, i, c) ensures i == k {
      assert plan.packets[i].id == c.wp;
    }
    if k < |plan.packets| { NothingOutside(ReadNames(c.output), Elems(plan.packets[k].allowedWrites)); }
  }

  lemma NothingOutside(changed: set<string>, allowed: set<string>)
    ensures Sorted(changed - allowed) == [] <==> forall path | path in changed :: path in allowed
  {
    hide Sorted;
    var outside := changed - allowed;
    assert Sorted(outside) == [] ==> outside == {};
    if forall path | path in changed :: path in allowed {
      assert outside == {};
    } else {
      var path :| path in changed && path !in allowed;
      assert path in outside;
    }
  }

  // ---------- what a log can leave out

  /** Net changes of a branch that its log does not list. */
  function Unlisted(base: Commit, head: Commit): set<string>
  {
    Diff(base.tree, head.tree) - Changed(base, head)
  }

  /** A parent that descends from the base and has this content at the path. */
  predicate Keeps(base: Commit, parent: Commit, tree: Tree, path: string)
  {
    base in Ancestors(parent) && Same(parent.tree, tree, path)
  }

  function FirstKeeper(base: Commit, parents: seq<Commit>, tree: Tree, path: string): (i: nat)
    ensures i <= |parents| && (i < |parents| ==> Keeps(base, parents[i], tree, path))
    ensures forall k | 0 <= k < i :: !Keeps(base, parents[k], tree, path)
  {
    if parents == [] || Keeps(base, parents[0], tree, path) then 0 else 1 + FirstKeeper(base, parents[1..], tree, path)
  }

  /** The commit a path's content comes from: going back through parents that keep it,
      the first commit that has none, or the base. */
  function Origin(base: Commit, c: Commit, path: string): Commit
  {
    var i := FirstKeeper(base, c.parents, c.tree, path);
    if c == base || i == |c.parents| then c else Origin(base, c.parents[i], path)
  }

  ghost predicate Introduces(base: Commit, c: Commit, path: string)
  {
    forall parent | parent in c.parents :: !Keeps(base, parent, c.tree, path)
  }

  lemma {:induction false} AncestorIsOlder(a: Commit, c: Commit)
    requires a in Ancestors(c) && a != c
    ensures a < c
  {
    var i :| 0 <= i < |c.parents| && a in Ancestors(c.parents[i]);
    if a != c.parents[i] { AncestorIsOlder(a, c.parents[i]); }
  }

  /** A later commit is in the range of its own base. */
  lemma InOwnRange(base: Commit, c: Commit)
    requires base in Ancestors(c) && base != c
    ensures c in Range(base, c)
  {
    hide Ancestors;
    AncestorIsOlder(base, c);
    if c in Ancestors(base) { AncestorIsOlder(c, base); }
    assert c in Ancestors(c) by { SelfAncestor(c); }
  }

  lemma SelfAncestor(c: Commit)
    ensures c in Ancestors(c)
  {
  }

  lemma {:induction false} AncestorsReach(a: Commit, b: Commit, c: Commit)
    requires a in Ancestors(b) && b in Ancestors(c)
    ensures a in Ancestors(c)
  {
    if b != c {
      var i :| 0 <= i < |c.parents| && b in Ancestors(c.parents[i]);
      AncestorsReach(a, b, c.parents[i]);
    }
  }

  /** The path is as its origin left it, and the origin is the base or the commit that
      introduced that content. */
  lemma {:induction false} OriginOf(base: Commit, c: Commit, path: string)
    requires base in Ancestors(c)
    ensures var o := Origin(base, c, path);
      && Same(o.tree, c.tree, path) && base in Ancestors(o) && o in Ancestors(c)
      && (o == base || Introduces(base, o, path))
  {
    hide Ancestors;
    SelfAncestor(c);
    var i := FirstKeeper(base, c.parents, c.tree, path);
    if c != base && i < |c.parents| {
      var parent := c.parents[i];
      OriginOf(base, parent, path);
      ParentIsAncestor(c, i);
      AncestorsReach(Origin(base, parent, path), parent, c);
    }
  }

  lemma ParentIsAncestor(c: Commit, i: nat)
    requires i < |c.parents|
    ensures c.parents[i] in Ancestors(c)
  {
    SelfAncestor(c.parents[i]);
  }

  lemma OnlyParent(base: Commit, c: Commit)
    requires base in Ancestors(c) && base != c && |c.parents| <= 1
    ensures |c.parents| == 1 && base in Ancestors(c.parents[0])
  {
  }

  /** Content that the log does not list was introduced by a merge or by renaming the
      file away. */
  lemma UnlistedOrigin(base: Commit, head: Commit, path: string)
    requires base in Ancestors(head) && path !in Changed(base, head) && Origin(base, head, path) != base
    ensures var o := Origin(base, head, path);
      o in Range(base, head) && Introduces(base, o, path) && (|o.parents| > 1 || path in o.movedFrom)
  {
    hide Ancestors, Origin;
    OriginOf(base, head, path);
    var o := Origin(base, head, path);
    InOwnRange(base, o);
    assert o in Range(base, head) && path !in Listed(o);
    if |o.parents| <= 1 {
      OnlyParent(base, o);
      assert o.parents[0] in o.parents;
    }
  }

  /** Whatever was introduced unlisted is, in the end, what the base had. */
  ghost predicate Accountable(base: Commit, head: Commit)
  {
    forall path | path !in Changed(base, head) ::
      Origin(base, head, path) == base || Same(base.tree, Origin(base, head, path).tree, path)
  }

  /** Exactly when the log accounts for the whole branch: every unlisted path goes back to
      the base, or to a merge or rename that gave it the base's content again. */
  lemma NothingUnlistedIff(base: Commit, head: Commit)
    requires base in Ancestors(head)
    ensures Unlisted(base, head) == {} <==> Accountable(base, head)
  {
    hide Ancestors, Changed, Origin;
    forall path | path !in Changed(base, head)
      ensures path in Unlisted(base, head) <==>
              Origin(base, head, path) != base && !Same(base.tree, Origin(base, head, path).tree, path)
    {
      OriginOf(base, head, path);
    }
  }

  /** The commit renames away listed paths only, and as a merge takes every other
      path from a parent that descends from the base. */
  ghost predicate Clean(base: Commit, c: Commit, changed: set<string>)
  {
    && c.movedFrom <= changed
    && (|c.parents| > 1 ==> forall path | path !in changed :: !Introduces(base, c, path))
  }

  /** A branch of clean commits, one without merges and renames for example, leaves
      nothing out. */
  lemma CleanHistoryIsListed(base: Commit, head: Commit)
    requires base in Ancestors(head)
    requires forall x | x in Range(base, head) :: Clean(base, x, Changed(base, head))
    ensures Unlisted(base, head) == {} && Accountable(base, head)
  {
    hide Ancestors, Changed, Range, Origin, Introduces;
    forall path | path !in Changed(base, head) ensures Origin(base, head, path) == base {
      if Origin(base, head, path) != base { UnlistedOrigin(base, head, path); }
    }
    NothingUnlistedIff(base, head);
  }

  // ---------- applying branches to trees

  predicate Related(p: string, q: string)
  {
    Parts(p) <= Parts(q) || Parts(q) <= Parts(p)
  }

  /** No file stands where another one needs a directory. */
  predicate ProperTree(t: Tree)
  {
    forall p, q | p in t && q in t && p != q :: !Related(p, q)
  }

  datatype Patch = Patch(writes: Tree, deletes: set<string>)

  predicate ProperPatch(x: Patch)
  {
    ProperTree(x.writes) && x.writes.Keys !! x.deletes
  }

  /** The net edits from one tree to another. */
  function Net(a: Tree, b: Tree): Patch
  {
    Patch(map path | path in b && !Same(a, b, path) :: b[path], a.Keys - b.Keys)
  }

  predicate Undisturbed(path: string, x: Patch)
  {
    path !in x.deletes && forall w | w in x.writes :: !Related(path, w)
  }

  /** Writing a file removes whatever stands where it or its directories must be. */
  function Apply(t: Tree, x: Patch): Tree
  {
    (map path | path in t && Undisturbed(path, x) :: t[path]) + x.writes
  }

  lemma RelatedReflexive(p: string)
    ensures Related(p, p)
  {
  }

  /** The net edits of a branch are its whole effect: they turn the base into the head. */
  lemma NetRebuildsHead(a: Tree, b: Tree)
    requires ProperTree(b)
    ensures Apply(a, Net(a, b)) == b && ProperPatch(Net(a, b))
    ensures forall path :: path in Net(a, b).writes.Keys + Net(a, b).deletes <==> path in Diff(a, b)
  {
    hide Related;
    var x := Net(a, b);
    forall path | path in b && path !in x.writes ensures path in a && Undisturbed(path, x) {
    }
    forall path | path in a && path !in b ensures path in x.deletes {
    }
  }

  /** Both write where at most one file can stand, or one writes what the other deletes. */
  predicate Conflict(x: Patch, y: Patch, p: string, q: string)
  {
    || (p in x.writes && q in y.writes && Related(p, q) && !(p == q && x.writes[p] == y.writes[q]))
    || (p == q && p in x.writes && p in y.deletes)
    || (p == q && p in x.deletes && p in y.writes)
  }

  ghost predicate Commute(x: Patch, y: Patch)
  {
    forall t: Tree :: Apply(Apply(t, x), y) == Apply(Apply(t, y), x)
  }

  lemma RelatedSymmetric(p: string, q: string)
    ensures Related(p, q) <==> Related(q, p)
  {
  }

  lemma ConflictSymmetric(x: Patch, y: Patch, p: string, q: string)
    ensures Conflict(x, y, p, q) <==> Conflict(y, x, q, p)
  {
    RelatedSymmetric(p, q);
  }

  /** Where nothing conflicts, a file written by `x` survives `y` unchanged. */
  lemma WriteSurvives(x: Patch, y: Patch, p: string)
    requires p in x.writes && forall q :: !Conflict(x, y, p, q)
    ensures if p in y.writes then y.writes[p] == x.writes[p] else Undisturbed(p, y)
  {
    hide Related;
    RelatedReflexive(p);
    assert !Conflict(x, y, p, p);
    forall w | w in y.writes && p !in y.writes ensures !Related(p, w) {
      assert !Conflict(x, y, p, w);
    }
  }

  /** Everything `x` writes is written by `y` too, or left alone by it. */
  ghost predicate Survives(x: Patch, y: Patch)
  {
    forall p | p in x.writes :: if p in y.writes then y.writes[p] == x.writes[p] else Undisturbed(p, y)
  }

  lemma SurvivorsOf(x: Patch, y: Patch)
    requires forall p, q :: !Conflict(x, y, p, q)
    ensures Survives(x, y)
  {
    hide Conflict, Undisturbed;
    forall p | p in x.writes ensures if p in y.writes then y.writes[p] == x.writes[p] else Undisturbed(p, y) {
      WriteSurvives(x, y, p);
    }
  }

  /** What is where after both patches. */
  lemma AfterBoth(t: Tree, x: Patch, y: Patch, path: string)
    requires Survives(x, y) && Survives(y, x)
    ensures var u := Apply(Apply(t, x), y);
      && (path in u <==>
            path in x.writes || path in y.writes || (path in t && Undisturbed(path, x) && Undisturbed(path, y)))
      && (path in y.writes ==> u[path] == y.writes[path])
      && (path in u && path !in y.writes ==> u[path] == if path in x.writes then x.writes[path] else t[path])
  {
    hide Undisturbed;
  }

  lemma CommuteWithoutConflict(x: Patch, y: Patch, t: Tree)
    requires forall p, q :: !Conflict(x, y, p, q)
    ensures Apply(Apply(t, x), y) == Apply(Apply(t, y), x)
  {
    hide Conflict, Undisturbed, Apply;
    SurvivorsOf(x, y);
    forall p, q ensures !Conflict(y, x, p, q) { ConflictSymmetric(x, y, q, p); }
    SurvivorsOf(y, x);
    var a, b := Apply(Apply(t, x), y), Apply(Apply(t, y), x);
    forall path ensures (path in a <==> path in b) && (path in a ==> a[path] == b[path]) {
      AfterBoth(t, x, y, path);
      AfterBoth(t, y, x, path);
    }
  }

  /** Conflicting patches give different trees already on the empty tree. */
  lemma ConflictShows(x: Patch, y: Patch, p: string, q: string)
    requires ProperPatch(x) && ProperPatch(y) && Conflict(x, y, p, q)
    ensures Apply(Apply(map[], x), y) != Apply(Apply(map[], y), x)
  {
    hide Related;
    RelatedSymmetric(p, q);
    var a, b := Apply(Apply(map[], x), y), Apply(Apply(map[], y), x);
    if p in x.writes && q in y.writes {
      assert q in a && a[q] == y.writes[q] && p in b && b[p] == x.writes[p];
      if p != q { assert p !in a; }
    } else if p in x.writes {
      assert p in b && p !in a;
    } else {
      assert p in a && p !in b;
    }
  }

  /** Two branches can be merged in either order, whatever the tree, exactly when no
      two of their edits conflict. */
  lemma CommuteIff(x: Patch, y: Patch)
    requires ProperPatch(x) && ProperPatch(y)
    ensures Commute(x, y) <==> forall p, q :: !Conflict(x, y, p, q)
  {
    hide Conflict, Apply, ProperPatch;
    if p, q :| Conflict(x, y, p, q) {
      ConflictShows(x, y, p, q);
    } else {
      forall t: Tree ensures Apply(Apply(t, x), y) == Apply(Apply(t, y), x) { CommuteWithoutConflict(x, y, t); }
    }
  }

  // ---------- what acceptance implies

  lemma {:induction false} GrantOf(packets: seq<Packet>, i: nat, path: string) returns (g: nat)
    requires i < |packets| && path in packets[i].owns
    ensures g < |GrantsOf(packets)| && GrantsOf(packets)[g] == (packets[i].id, path)
  {
    var first := Label(packets[0].id, packets[0].owns);
    if i == 0 {
      g :| 0 <= g < |first| && first[g] == (packets[0].id, path);
    } else {
      var h := GrantOf(packets[1..], i - 1, path);
      g := |first| + h;
    }
  }

  lemma GrantInPlan(plan: Plan, i: nat, path: string) returns (g: nat)
    requires i < |plan.packets| && path in plan.packets[i].owns
    ensures g < |Grants(plan)| && Grants(plan)[g] == (plan.packets[i].id, path)
  {
    var h := GrantOf(plan.packets, i, path);
    g := |plan.controlOwns| + h;
  }

  lemma StrictPrefix(p: seq<string>, q: seq<string>)
    requires p != q
    ensures p <= q ==> |p| < |q| && q[..|p|] == p
  {
  }

  lemma DistinctGrantsUnrelated(grants: seq<(string, string)>, a: nat, b: nat)
    requires GrantsDistinct(grants) && NoParentGranted(grants) && a < |grants| && b < |grants| && a != b
    requires forall i | 0 <= i < |grants| :: ExactRelativeFile(grants[i].1)
    ensures !Related(grants[a].1, grants[b].1)
  {
    var p, q := Parts(grants[a].1), Parts(grants[b].1);
    assert Render(p) == grants[a].1 != grants[b].1 == Render(q);
    StrictPrefix(p, q);
    StrictPrefix(q, p);
  }

  /** Files two different packets may write are different; and of any two different
      files that packets may write, neither is a directory above the other. */
  lemma PacketsUnrelated(plan: Plan, i: nat, j: nat, p: string, q: string)
    requires Accepted(plan) && i < |plan.packets| && j < |plan.packets| && (i != j || p != q)
    requires p in Elems(plan.packets[i].allowedWrites) && q in Elems(plan.packets[j].allowedWrites)
    ensures p != q && !Related(p, q)
  {
    hide ExactRelativeFile, Grants, NoParentGranted, Parts;
    assert WritesOwned(plan.packets[i]) && WritesOwned(plan.packets[j]);
    assert p in Elems(plan.packets[i].owns) && q in Elems(plan.packets[j].owns);
    var a := GrantInPlan(plan, i, p);
    var b := GrantInPlan(plan, j, q);
    assert i != j ==> plan.packets[i].id != plan.packets[j].id;
    DistinctGrantsUnrelated(Grants(plan), a, b);
  }

  function NetOf(c: Candidate): Patch
  {
    Net(c.base.tree, c.head.tree)
  }

  /** Net changes of a branch whose paths the gate does not read in its log. */
  function Hidden(c: Candidate): set<string>
  {
    Diff(c.base.tree, c.head.tree) - ReadNames(c.output)
  }

  predicate HiddenOnASide(c: Candidate, d: Candidate, p: string, q: string)
  {
    p in Hidden(c) || q in Hidden(d)
  }

  /** Edits that the gate reads, of accepted candidates for different packets, never conflict. */
  lemma ReadEditsApart(plan: Plan, c: Candidate, d: Candidate, p: string, q: string)
    requires Accepted(plan) && c.wp != d.wp && ProperTree(c.head.tree) && ProperTree(d.head.tree)
    requires CandidateVerdict(plan, c) == Fine && CandidateVerdict(plan, d) == Fine
    requires Conflict(NetOf(c), NetOf(d), p, q)
    ensures HiddenOnASide(c, d, p, q)
  {
    hide Accepted, Parts, CandidateVerdict, ReadNames, ProperTree;
    var i :| Authorized(plan, i, c);
    var j :| Authorized(plan, j, d);
    NetRebuildsHead(c.base.tree, c.head.tree);
    NetRebuildsHead(d.base.tree, d.head.tree);
    assert p in Diff(c.base.tree, c.head.tree) && q in Diff(d.base.tree, d.head.tree);
    if p in ReadNames(c.output) && q in ReadNames(d.output) { PacketsUnrelated(plan, i, j, p, q); }
  }

  /** Accepted candidates for different packets can be merged in either order, on every
      tree, exactly when no edit whose path the gate does not read conflicts with an edit
      of the other. */
  lemma CandidatesCommuteIff(plan: Plan, c: Candidate, d: Candidate)
    requires Accepted(plan) && c.wp != d.wp && ProperTree(c.head.tree) && ProperTree(d.head.tree)
    requires CandidateVerdict(plan, c) == Fine && CandidateVerdict(plan, d) == Fine
    ensures Commute(NetOf(c), NetOf(d)) <==>
            forall p, q | HiddenOnASide(c, d, p, q) :: !Conflict(NetOf(c), NetOf(d), p, q)
  {
    hide Accepted, CandidateVerdict, Conflict, HiddenOnASide, Commute, Net;
    NetRebuildsHead(c.base.tree, c.head.tree);
    NetRebuildsHead(d.base.tree, d.head.tree);
    CommuteIff(NetOf(c), NetOf(d));
    forall p, q | Conflict(NetOf(c), NetOf(d), p, q) ensures HiddenOnASide(c, d, p, q) {
      ReadEditsApart(plan, c, d, p, q);
    }
  }

  /** The log was written by git, its names survive printing and stripping, and the
      history accounts for the whole branch. */
  ghost predicate Transparent(escape: char -> string, c: Candidate)
  {
    && Prints(escape, c.output, Changed(c.base, c.head)) && AllReadable(Changed(c.base, c.head))
    && Accountable(c.base, c.head)
  }

  lemma TransparentHidesNothing(escape: char -> string, c: Candidate)
    requires Escapes(escape) && c.base in Ancestors(c.head) && Transparent(escape, c)
    ensures ReadNames(c.output) == Changed(c.base, c.head) && Hidden(c) == {}
  {
    hide Escapes, Ancestors, Changed, ReadNames, Accountable, AllReadable, Prints;
    NothingUnlistedIff(c.base, c.head);
    assert "" !in Changed(c.base, c.head) by { NoEmptyName(Changed(c.base, c.head)); }
    ReadsNamesIff(escape, Changed(c.base, c.head));
  }

  lemma NoEmptyName(names: set<string>)
    requires AllReadable(names)
    ensures "" !in names
  {
  }

  /** So they commute, on every tree, and touch disjoint files when both are transparent. */
  lemma CandidatesCommute(plan: Plan, c: Candidate, d: Candidate, escape: char -> string)
    requires Accepted(plan) && c.wp != d.wp && ProperTree(c.head.tree) && ProperTree(d.head.tree)
    requires CandidateVerdict(plan, c) == Fine && CandidateVerdict(plan, d) == Fine
    requires Escapes(escape) && Transparent(escape, c) && Transparent(escape, d)
    ensures Changed(c.base, c.head) !! Changed(d.base, d.head)
    ensures Commute(NetOf(c), NetOf(d))
  {
    hide Accepted, CandidateVerdict, Conflict, Commute, NetOf, Hidden, Changed, Ancestors, Transparent, Related, ReadNames;
    TransparentHidesNothing(escape, c);
    TransparentHidesNothing(escape, d);
    CandidatesCommuteIff(plan, c, d);
    var i :| Authorized(plan, i, c);
    var j :| Authorized(plan, j, d);
    forall p | p in Changed(c.base, c.head) && p in Changed(d.base, d.head) ensures false {
      PacketsUnrelated(plan, i, j, p, p);
    }
  }

  // ---------- hidden edits matter

  lemma ChildChanges(base: Commit, c: Commit)
    requires c.parents == [base]
    ensures base in Ancestors(c) && Changed(base, c) == Listed(c)
  {
    hide Listed;
    SelfAncestor(base);
    assert base in Ancestors(c.parents[0]);
    InOwnRange(base, c);
    forall x | x in Range(base, c) ensures x == c {
    }
  }

  /** A commit name stands for one commit. */
  ghost predicate OneRepository(commits: set<Commit>)
  {
    forall x, y | x in commits && y in commits && x.sha == y.sha :: x == y
  }

  /** No other file of the tree stands where this one or its directories must be. */
  predicate Unobstructed(t: Tree, path: string)
  {
    forall q | q in t && q != path :: !Related(path, q)
  }

  /** A branch of one commit that only writes one file, and its log. */
  function OneWrite(packet: Packet, base: Commit, sha: string, path: string, content: string): Candidate
  {
    Candidate(packet.id, base.sha, sha, base, Commit(sha, base.tree[path := content], [base], {}), Unlines([path]))
  }

  lemma OneNameIsRead(escape: char -> string, path: string)
    requires Escapes(escape) && path != "" && ReadableName(path)
    ensures Prints(escape, Unlines([path]), {path}) && ReadNames(Unlines([path])) == {path}
  {
    hide Escapes, ReadNames, PlainName, Outer, Unlines;
    assert AllShown(escape, {path}) == {path} && Elems([path]) == {path};
    ReadsNamesIff(escape, {path});
  }

  lemma OneWriteIsLogged(packet: Packet, base: Commit, sha: string, path: string, content: string)
    requires path in base.tree ==> base.tree[path] != content
    ensures var d := OneWrite(packet, base, sha, path, content);
      && d.base in Ancestors(d.head) && Changed(d.base, d.head) == {path} == Diff(d.base.tree, d.head.tree)
      && NetOf(d) == Patch(map[path := content], {})
  {
    hide Ancestors, Changed, Unlines;
    var d := OneWrite(packet, base, sha, path, content);
    ChildChanges(d.base, d.head);
    assert Diff(d.base.tree, d.head.tree) == {path};
  }

  lemma OneWriteIsProper(t: Tree, path: string, content: string)
    requires ProperTree(t) && Unobstructed(t, path)
    ensures ProperTree(t[path := content])
  {
    hide Related;
    forall q ensures Related(path, q) <==> Related(q, path) { RelatedSymmetric(path, q); }
  }

  lemma OneWriteStaysInRepository(commits: set<Commit>, packet: Packet, base: Commit, sha: string, path: string,
                                  content: string)
    requires OneRepository(commits + Ancestors(base)) && forall x | x in commits + Ancestors(base) :: x.sha != sha
    ensures OneRepository(commits + Ancestors(OneWrite(packet, base, sha, path, content).head))
  {
    hide Unlines;
    var head := OneWrite(packet, base, sha, path, content).head;
    assert head.parents == [base];
    assert forall x | x in Ancestors(head) :: x == head || x in Ancestors(base);
  }

  ghost predicate FineFor(plan: Plan, c: Candidate, escape: char -> string)
  {
    CandidateVerdict(plan, c) == Fine && Prints(escape, c.output, Changed(c.base, c.head))
  }

  /** Accepted candidates of one repository, for different packets, whose order decides
      the tree. */
  ghost predicate BreaksOrder(plan: Plan, c: Candidate, d: Candidate, escape: char -> string)
  {
    && Accepted(plan) && c.wp != d.wp && FineFor(plan, c, escape) && FineFor(plan, d, escape)
    && OneRepository(Ancestors(c.head) + Ancestors(d.head))
    && !Commute(NetOf(c), NetOf(d))
  }

  /** Every hidden edit of a file that another dispatched packet may write, with no other
      file in its way at that packet's baseline, matters: from this baseline the packet has
      an accepted branch that writes only this file and hides nothing, with which order
      counts. The name of its commit is any unused one. */
  lemma HiddenEditBreaksOrder(plan: Plan, c: Candidate, j: nat, base: Commit, path: string, sha: string,
                              escape: char -> string) returns (d: Candidate)
    requires Accepted(plan) && Escapes(escape) && FineFor(plan, c, escape) && ProperTree(c.head.tree)
    requires j < |plan.packets| && plan.packets[j].id != c.wp
    requires plan.packets[j].dispatched && plan.packets[j].baseline == Some(base.sha)
    requires path in Elems(plan.packets[j].allowedWrites) && path in Hidden(c) && path != "" && ReadableName(path)
    requires ProperTree(base.tree) && Unobstructed(base.tree, path)
    requires OneRepository(Ancestors(c.head) + Ancestors(base))
    requires forall x | x in Ancestors(c.head) + Ancestors(base) :: x.sha != sha
    ensures d.wp == plan.packets[j].id && d.base == base && BreaksOrder(plan, c, d, escape)
    ensures NetOf(d).writes.Keys == {path} && Hidden(d) == {}
  {
    hide Accepted, Escapes, ProperTree, Changed, Ancestors, ReadNames, Commute, ReadableName, CandidateVerdict, Prints,
         Unobstructed, OneRepository, Unlines;
    var packet := plan.packets[j];
    var content := ContentAt(base.tree, path) + ContentAt(c.head.tree, path) + "x";
    d := OneWrite(packet, base, sha, path, content);
    OneNameIsRead(escape, path);
    OneWriteIsLogged(packet, base, sha, path, content);
    OneWriteStaysInRepository(Ancestors(c.head), packet, base, sha, path, content);
    assert Authorized(plan, j, d);
    AcceptedIds(plan);
    CandidateFineIff(plan, d);
    OneWriteIsProper(base.tree, path, content);
    CandidatesCommuteIff(plan, c, d);
    RelatedReflexive(path);
    assert HiddenOnASide(c, d, path, path) && Conflict(NetOf(c), NetOf(d), path, path);
  }

  function ContentAt(t: Tree, path: string): string
  {
    if path in t then t[path] else ""
  }

  /** With a file in the way there is no such branch: whatever accepted branch writes the
      path then hides an edit itself. */
  lemma ObstructedWriteHides(plan: Plan, d: Candidate, i: nat, path: string, q: string)
    requires Accepted(plan) && Authorized(plan, i, d) && ProperTree(d.head.tree)
    requires path in Elems(plan.packets[i].allowedWrites) && path in NetOf(d).writes
    requires q in d.base.tree && q != path && Related(path, q)
    ensures q in Hidden(d)
  {
    hide Accepted, Related, ReadNames;
    assert q !in d.head.tree;
    if q in ReadNames(d.output) { PacketsUnrelated(plan, i, i, path, q); }
  }

  lemma AcceptedIds(plan: Plan)
    requires Accepted(plan)
    ensures PacketIdsDistinct(plan.packets)
  {
  }

  // ---------- three ways to hide one

  /** Packets without directories, so that every path is one part. */
  function TwoPackets(first: seq<string>, second: seq<string>): Plan
  {
    Plan([], [Packet("P1", first, first, true, Some("0")), Packet("P2", second, second, true, Some("0"))])
  }

  function Start(): Commit { Commit("0", map["b" := "0"], [], {}) }

  /** P1 adds its file; the merge commit that brings it in also rewrites P2's. */
  function Addition(): Commit { Commit("2", map["a" := "2", "b" := "0"], [Start()], {}) }
  function Merge(): Commit { Commit("3", map["a" := "2", "b" := "3"], [Start(), Addition()], {}) }

  /** P1 renames P2's file to its own. */
  function Rename(): Commit { Commit("4", map["a" := "0"], [Start()], {"b"}) }

  lemma MergeChanges(base: Commit, side: Commit, c: Commit)
    requires side.parents == [base] && c.parents == [base, side]
    ensures base in Ancestors(c) && Changed(base, c) == Listed(side)
  {
    SelfAncestor(base);
    SelfAncestor(side);
    assert base in Ancestors(c.parents[0]) && side in Ancestors(c.parents[1]);
    ChildChanges(base, side);
    InOwnRange(base, side);
    forall x | x in Range(base, c) && x != c ensures x == side {
    }
    assert side in Range(base, c) && Listed(c) == {};
  }

  lemma OnePart(path: string)
    requires '/' !in path && Visible(path)
    ensures Parts(path) == [path] && Render(Parts(path)) == path
  {
    SplitOfOnePart(path);
    assert Filter([path]) == [path];
  }

  predicate FlatName(path: string)
  {
    '/' !in path && Visible(path) && path != ".." && '*' !in path && '?' !in path && '[' !in path
  }

  predicate FlatNames(paths: seq<string>)
  {
    (forall i | 0 <= i < |paths| :: FlatName(paths[i])) && forall i, j | 0 <= i < j < |paths| :: paths[i] != paths[j]
  }

  lemma TwoPacketsAccepted(first: seq<string>, second: seq<string>)
    requires FlatNames(first + second)
    ensures Accepted(TwoPackets(first, second))
  {
    hide Parts, Grants, Visible;
    var plan, paths := TwoPackets(first, second), first + second;
    TwoGrants(first, second);
    var grants := Grants(plan);
    assert forall i | 0 <= i < |paths| :: grants[i].1 == paths[i];
    forall i | 0 <= i < |paths| ensures Parts(paths[i]) == [paths[i]] && ExactRelativeFile(paths[i]) {
      assert FlatName(paths[i]);
      assert paths[i] != "" ==> paths[i][0] in paths[i];
      OnePart(paths[i]);
    }
    assert Render([]) == "." && forall i | 0 <= i < |paths| :: paths[i] != "." by { DotIsHidden(); }
  }

  lemma DotIsHidden()
    ensures !Visible(".")
  {
  }

  lemma TwoGrants(first: seq<string>, second: seq<string>)
    ensures var grants := Grants(TwoPackets(first, second)); var paths := first + second;
      |grants| == |paths| && forall i | 0 <= i < |paths| :: grants[i].1 == paths[i]
  {
    var packets := TwoPackets(first, second).packets;
    assert packets[1..] == [packets[1]];
    assert GrantsOf(packets[1..]) == Label("P2", second);
  }

  lemma FlatTreeIsProper(t: Tree)
    requires forall path | path in t :: '/' !in path && Visible(path)
    ensures ProperTree(t)
  {
    hide Parts;
    forall p, q | p in t && q in t && p != q ensures !Related(p, q) {
      OnePart(p);
      OnePart(q);
      assert [p][0] != [q][0];
    }
  }

  lemma VerdictFine(plan: Plan, c: Candidate, i: nat)
    requires PacketIdsDistinct(plan.packets) && i < |plan.packets| && c.wp == plan.packets[i].id
    requires plan.packets[i].dispatched && plan.packets[i].baseline == Some(c.baseSha)
    requires ExactShas(c) && c.base in Ancestors(c.head) && ReadNames(c.output) <= Elems(plan.packets[i].allowedWrites)
    ensures CandidateVerdict(plan, c) == Fine
  {
    hide Sorted, ReadNames, Ancestors;
    assert Authorized(plan, i, c);
    CandidateFineIff(plan, c);
  }

  function PlainPlan(): Plan { TwoPackets(["a"], ["b"]) }

  lemma PlainPlanAccepted()
    ensures Accepted(PlainPlan()) && PacketIdsDistinct(PlainPlan().packets)
  {
    hide Accepted;
    assert FlatName("a") && FlatName("b") && ["a"] + ["b"] == ["a", "b"];
    TwoPacketsAccepted(["a"], ["b"]);
    AcceptedIds(PlainPlan());
  }

  /** P1's branch, with a log that lists its own file. */
  function FromStart(head: Commit): Candidate
  {
    Candidate("P1", "0", head.sha, Start(), head, Unlines(["a"]))
  }

  lemma FromStartIsFine(head: Commit, escape: char -> string)
    requires Escapes(escape) && Start() in Ancestors(head) && Changed(Start(), head) == {"a"}
    ensures FineFor(PlainPlan(), FromStart(head), escape) && ReadNames(FromStart(head).output) == {"a"}
  {
    hide Escapes, Ancestors, Changed, ReadNames, CandidateVerdict, Unlines, Prints;
    PlainPlanAccepted();
    OneNameIsRead(escape, "a");
    VerdictFine(PlainPlan(), FromStart(head), 0);
  }

  /** P2's own change of its file, from the same start. */
  ghost predicate AnswersFromStart(d: Candidate)
  {
    d.wp == "P2" && d.base == Start() && NetOf(d).writes.Keys == {"b"} && Hidden(d) == {}
  }

  /** A branch for P1 whose log lists only its own file, though it changes P2's. */
  lemma UnlistedRewrite(head: Commit, escape: char -> string) returns (d: Candidate)
    requires Escapes(escape) && Start() in Ancestors(head) && Changed(Start(), head) == {"a"}
    requires head.tree.Keys <= {"a", "b"} && !Same(Start().tree, head.tree, "b")
    requires OneRepository(Ancestors(head)) && forall x | x in Ancestors(head) :: x.sha != "1"
    ensures BreaksOrder(PlainPlan(), FromStart(head), d, escape) && AnswersFromStart(d)
  {
    hide Accepted, Escapes, Changed, ReadNames, CandidateVerdict, Commute, Parts, ProperTree, Unlines, Prints,
         OneRepository, BreaksOrder, FineFor, Ancestors;
    PlainPlanAccepted();
    FromStartIsFine(head, escape);
    FlatTreeIsProper(head.tree);
    FlatTreeIsProper(Start().tree);
    assert Ancestors(head) + Ancestors(Start()) == Ancestors(head) by { RootAncestors(Start()); }
    assert "b" in Hidden(FromStart(head));
    d := HiddenEditBreaksOrder(PlainPlan(), FromStart(head), 1, Start(), "b", "1", escape);
  }

  lemma StartAncestors()
    ensures Ancestors(Start()) == {Start()} && Ancestors(Rename()) == {Rename(), Start()}
    ensures Ancestors(Merge()) == {Merge(), Addition(), Start()}
  {
    hide Ancestors;
    RootAncestors(Start());
    ChildAncestors(Start(), Rename());
    ChildAncestors(Start(), Addition());
    MergeAncestors(Start(), Addition(), Merge());
  }

  lemma RootAncestors(c: Commit)
    requires c.parents == []
    ensures Ancestors(c) == {c}
  {
  }

  lemma ChildAncestors(base: Commit, c: Commit)
    requires c.parents == [base]
    ensures Ancestors(c) == {c} + Ancestors(base)
  {
    assert c.parents[0] == base;
  }

  lemma MergeAncestors(base: Commit, side: Commit, c: Commit)
    requires c.parents == [base, side]
    ensures Ancestors(c) == {c} + Ancestors(base) + Ancestors(side)
  {
    assert c.parents[0] == base && c.parents[1] == side;
  }

  /** A log lists nothing for a merge commit. */
  lemma MergeHidesAnEdit(escape: char -> string) returns (d: Candidate)
    requires Escapes(escape)
    ensures BreaksOrder(PlainPlan(), FromStart(Merge()), d, escape) && AnswersFromStart(d)
  {
    hide BreaksOrder, AnswersFromStart, Changed, Escapes, Ancestors;
    MergeChanges(Start(), Addition(), Merge());
    StartAncestors();
    assert forall x | x in Ancestors(Merge()) :: x in {Start(), Addition(), Merge()};
    d := UnlistedRewrite(Merge(), escape);
  }

  /** A log lists a renamed file by its new name only. */
  lemma RenameHidesAnEdit(escape: char -> string) returns (d: Candidate)
    requires Escapes(escape)
    ensures BreaksOrder(PlainPlan(), FromStart(Rename()), d, escape) && AnswersFromStart(d)
  {
    hide BreaksOrder, AnswersFromStart, Changed, Escapes, Ancestors;
    ChildChanges(Start(), Rename());
    StartAncestors();
    assert forall x | x in Ancestors(Rename()) :: x in {Start(), Rename()};
    d := UnlistedRewrite(Rename(), escape);
  }

  function Empty(): Commit { Commit("0", map[], [], {}) }

  /** P1, who owns "b", writes "b " instead; P2 writes its files "b " and "c". */
  function Misnamed(): Candidate
  {
    Candidate("P1", "0", "1", Empty(), Commit("1", map["b " := "1"], [Empty()], {}), Unlines(["b "]))
  }

  function WellNamed(): Candidate
  {
    Candidate("P2", "0", "2", Empty(), Commit("2", map["b " := "2", "c" := "2"], [Empty()], {}), Unlines(["b ", "c"]))
  }

  lemma BlankLosesItsEnd()
    ensures ReadNames(Unlines(["b "])) == {"b"}
  {
    hide ReadNames, Unlines, DropLeft;
    ReadNamesOfLines(["b "]);
    KeepsFirst(["b "]);
    assert "b "[..1] == "b" && StripRight("b ") == "b" && !Blank("b "[0]);
    assert DropRight(["b "]) == ["b"];
  }

  lemma BlankKeepsItsEnd()
    ensures ReadNames(Unlines(["b ", "c"])) == {"b ", "c"}
  {
    hide ReadNames, Unlines, DropLeft, DropRight;
    ReadNamesOfLines(["b ", "c"]);
    KeepsFirst(["b ", "c"]);
    KeepsLast(["b ", "c"]);
  }

  function BlankPlan(): Plan { TwoPackets(["b"], ["b ", "c"]) }

  lemma BlankPlanAccepted()
    ensures Accepted(BlankPlan()) && PacketIdsDistinct(BlankPlan().packets)
  {
    hide Accepted;
    assert FlatName("b") && FlatName("b ") && FlatName("c") && ["b"] + ["b ", "c"] == ["b", "b ", "c"];
    TwoPacketsAccepted(["b"], ["b ", "c"]);
    AcceptedIds(BlankPlan());
  }

  lemma MisnamedIsFine(escape: char -> string)
    ensures FineFor(BlankPlan(), Misnamed(), escape) && ProperTree(Misnamed().head.tree)
    ensures Unlisted(Misnamed().base, Misnamed().head) == {} && Hidden(Misnamed()) == {"b "}
  {
    hide Ancestors, Changed, ReadNames, CandidateVerdict, Parts, Prints, ProperTree, Unlines;
    var c := Misnamed();
    BlankPlanAccepted();
    BlankLosesItsEnd();
    ChildChanges(c.base, c.head);
    assert Diff(c.base.tree, c.head.tree) == {"b "} == Changed(c.base, c.head);
    VerdictFine(BlankPlan(), c, 0);
    BlankNamesPrint(escape);
    FlatTreeIsProper(c.head.tree);
  }

  lemma WellNamedIsFine(escape: char -> string)
    ensures FineFor(BlankPlan(), WellNamed(), escape) && ProperTree(WellNamed().head.tree)
  {
    hide Ancestors, Changed, ReadNames, CandidateVerdict, Parts, Prints, ProperTree, Unlines;
    var d := WellNamed();
    BlankPlanAccepted();
    BlankKeepsItsEnd();
    ChildChanges(d.base, d.head);
    assert Diff(d.base.tree, d.head.tree) == {"b ", "c"} == Changed(d.base, d.head);
    VerdictFine(BlankPlan(), d, 1);
    BlankNamesPrint(escape);
    FlatTreeIsProper(d.head.tree);
  }

  /** Stripping the output takes the blank off a name at its end, so P1's write is read
      as one of its own file, while P2's log is read as it is. */
  lemma BlankHidesAnEdit(escape: char -> string)
    ensures BreaksOrder(BlankPlan(), Misnamed(), WellNamed(), escape)
    ensures Unlisted(Misnamed().base, Misnamed().head) == {} && Hidden(Misnamed()) == {"b "}
  {
    hide Accepted, FineFor, Commute, Parts, ProperTree, Hidden, Unlisted, CandidateVerdict, Prints, Ancestors, OneRepository;
    var c, d := Misnamed(), WellNamed();
    BlankPlanAccepted();
    MisnamedIsFine(escape);
    WellNamedIsFine(escape);
    FineForIsFine(BlankPlan(), c, escape);
    FineForIsFine(BlankPlan(), d, escape);
    CandidatesCommuteIff(BlankPlan(), c, d);
    BlankRepository();
    RelatedReflexive("b ");
    assert HiddenOnASide(c, d, "b ", "b ") && Conflict(NetOf(c), NetOf(d), "b ", "b ");
  }

  lemma BlankRepository()
    ensures OneRepository(Ancestors(Misnamed().head) + Ancestors(WellNamed().head))
  {
    hide Unlines, Ancestors;
    RootAncestors(Empty());
    ChildAncestors(Empty(), Misnamed().head);
    ChildAncestors(Empty(), WellNamed().head);
  }

  lemma FineForIsFine(plan: Plan, c: Candidate, escape: char -> string)
    requires FineFor(plan, c, escape)
    ensures CandidateVerdict(plan, c) == Fine
  {
  }

  lemma BlankNamesPrint(escape: char -> string)
    ensures Prints(escape, Unlines(["b "]), {"b "}) && Prints(escape, Unlines(["b ", "c"]), {"b ", "c"})
  {
    hide Prints, Unlines;
    PlainNamesPrint(escape, ["b "]);
    PlainNamesPrint(escape, ["b ", "c"]);
    assert Elems(["b "]) == {"b "} && Elems(["b ", "c"]) == {"b ", "c"};
  }
}
