/** The delivery ledger gate of scripts/dev/delivery-ledger.py: what it checks about
    items, sprints and active tasks, and what an accepted ledger therefore implies. */
module Ledger {
  import opened Common
  import opened Text
  import opened Graph

  type Commit = string

  datatype ItemState = RecordedDelivered | Backlog | Active | Prepared | Ready | Delivered | OtherState
  datatype Implementation = Complete | Incomplete | OtherImplementation
  datatype ReviewStatus = Approved | NotApproved | OtherReview
  datatype Review = Review(status: ReviewStatus, commit: Option<Commit>, hasEvidence: bool)

  datatype Item = Item(id: string, sprint: int, historicalSprint: int, state: ItemState, implementation: Implementation,
                       owner: string, nextAction: string, dependencies: seq<string>, blockers: seq<string>,
                       commits: seq<Commit>, review: Review)

  datatype CiStatus = NotRun | CiRunning | Passed | CiFailed | OtherCi
  datatype Ci = Ci(status: CiStatus, commit: Option<Commit>, hasEvidence: bool)
  datatype AcceptanceStatus = AcceptancePassed | AcceptanceOpen | OtherAcceptance
  datatype Acceptance = Acceptance(status: AcceptanceStatus, hasEvidence: bool)
  datatype SprintState = Underway | Merged | OtherSprintState

  /** `Merged` is the state the ledger calls delivered. */
  datatype Sprint = Sprint(id: int, state: SprintState, tip: Option<Commit>, merge: Option<Commit>, ci: Ci, acceptance: Acceptance)
  datatype Finding = Finding(sprint: int, unresolved: bool, blocksDelivery: bool)
  datatype Task = Task(name: string, active: bool, timestamped: bool, scope: seq<string>)

  datatype Ledger = Ledger(items: seq<Item>, sprints: seq<Sprint>, findings: seq<Finding>, tasks: seq<Task>)

  /** The canonical registry's dependency tokens, and what git answers. */
  datatype Repo = Repo(registry: Rows, has: Commit -> bool, ancestor: (Commit, Commit) -> bool)

  datatype Problem =
    | DuplicateItem(id: string) | BadItem(id: string) | DependencyLater(id: string) | CoverageMismatch
    | BadBaseline(id: string) | BadSprintTable | DeliveredTooEarly(id: string) | BadDeliveredSprint(sprint: int)
    | CiTooEarly(sprint: int) | NotReady(sprint: int) | UnboundCi(sprint: int) | ScopesOverlap(task: string, other: string)
    | BadTask(task: string)

  class Errors {
    var items: seq<Problem>

    constructor ()
      ensures items == []
    {
      items := [];
    }

    predicate Clean()
      reads this
    {
      items == []
    }

    method Require(condition: bool, problem: Problem)
      modifies this
      ensures Clean() <==> old(Clean()) && condition
    {
      if !condition { items := items + [problem]; }
    }
  }

  // ---------- single rows

  predicate IsHex(s: string)
  {
    forall c | c in s :: '0' <= c <= '9' || 'a' <= c <= 'f'
  }

  predicate IsSha(s: string)
  {
    |s| == 40 && IsHex(s)
  }

  /** A full or abbreviated commit name. */
  predicate IsCommitRef(s: string)
  {
    7 <= |s| <= 64 && IsHex(s)
  }

  predicate Gated(state: ItemState)
  {
    state == Ready || state == Delivered
  }

  predicate ItemOk(repo: Repo, it: Item)
  {
    && it.id in repo.registry && Elems(it.dependencies) == Elems(repo.registry[it.id])
    && 0 <= it.sprint <= 3 && 0 <= it.historicalSprint <= 4
    && it.state != OtherState && it.implementation != OtherImplementation
    && (Gated(it.state) ==> it.implementation == Complete)
    && it.owner != "" && it.nextAction != "" && (forall c | c in it.commits :: IsCommitRef(c))
    && it.review.status != OtherReview && (it.review.commit.Some? ==> IsCommitRef(it.review.commit.value))
    && (it.review.status == Approved ==> it.review.hasEvidence)
  }

  type ItemMap = map<string, Item>
  type SprintMap = map<int, Sprint>

  predicate SprintDelivered(rows: SprintMap, sprint: int)
  {
    sprint in rows && rows[sprint].state == Merged
  }

  predicate PriorDelivered(rows: SprintMap, sprint: int)
  {
    forall prior | 1 <= prior < sprint :: SprintDelivered(rows, prior)
  }

  predicate IsCommit(repo: Repo, c: Option<Commit>)
  {
    c.Some? && IsSha(c.value) && repo.has(c.value)
  }

  predicate Descends(repo: Repo, tip: Option<Commit>, merge: Option<Commit>)
  {
    IsCommit(repo, tip) && IsCommit(repo, merge) && repo.ancestor(tip.value, merge.value)
  }

  /** CI and acceptance evidence for the exact tip. */
  predicate Evidenced(s: Sprint)
  {
    && s.ci.status == Passed && s.ci.commit == s.tip && s.ci.hasEvidence
    && s.acceptance.status == AcceptancePassed && s.acceptance.hasEvidence
  }

  predicate DeliveredRowOk(repo: Repo, s: Sprint)
  {
    s.state == Merged ==> Evidenced(s) && Descends(repo, s.tip, s.merge)
  }

  function GateSize(sprint: int): int
  {
    if sprint == 1 then 12 else if sprint == 2 then 14 else if sprint == 3 then 28 else -1
  }

  function Selected(m: ItemMap, sprint: int): set<string>
  {
    set id | id in m && m[id].sprint == sprint
  }

  predicate DependencyReady(m: ItemMap, dep: string)
  {
    dep in m ==> if m[dep].sprint == 0 then m[dep].state == RecordedDelivered else Gated(m[dep].state)
  }

  predicate ItemReady(m: ItemMap, it: Item)
  {
    && it.implementation == Complete && Gated(it.state) && it.blockers == []
    && it.review.status == Approved && it.review.commit.Some? && IsSha(it.review.commit.value)
    && it.review.commit.value in it.commits
    && forall d | d in it.dependencies :: DependencyReady(m, d)
  }

  predicate CommitsContained(repo: Repo, tip: Option<Commit>, it: Item)
  {
    forall c | c in it.commits :: Descends(repo, Some(c), tip)
  }

  /** What delivery asks again of an item: dependencies inside the sprint ready, earlier
      ones ready or recorded, and a delivered item only in a delivered sprint. */
  predicate ItemDeliverable(m: ItemMap, s: Sprint, sprint: int, it: Item)
  {
    && (forall d | d in it.dependencies && d in m ::
          Gated(m[d].state) || (m[d].sprint != sprint && m[d].state == RecordedDelivered))
    && (it.state == Delivered ==> s.state == Merged)
  }

  predicate Unblocked(findings: seq<Finding>, sprint: int)
  {
    forall f | f in findings :: !(f.sprint == sprint && f.unresolved && f.blocksDelivery)
  }

  predicate DeliveryGate(repo: Repo, m: ItemMap, s: Sprint, findings: seq<Finding>, sprint: int)
  {
    && Evidenced(s) && Unblocked(findings, sprint)
    && (forall id | id in Selected(m, sprint) :: ItemDeliverable(m, s, sprint, m[id]))
    && (s.state == Merged ==> Descends(repo, s.tip, s.merge))
  }

  predicate ReadyGate(repo: Repo, m: ItemMap, rows: SprintMap, findings: seq<Finding>, sprint: int, delivery: bool)
  {
    && PriorDelivered(rows, sprint) && |Selected(m, sprint)| == GateSize(sprint)
    && (forall id | id in Selected(m, sprint) :: ItemReady(m, m[id]))
    && sprint in rows && IsCommit(repo, rows[sprint].tip)
    && (forall id | id in Selected(m, sprint) :: CommitsContained(repo, rows[sprint].tip, m[id]))
    && (delivery ==> DeliveryGate(repo, m, rows[sprint], findings, sprint))
  }

  /** The gate a sprint's own row puts it through. */
  predicate OwnGate(repo: Repo, m: ItemMap, rows: SprintMap, findings: seq<Finding>, sprint: int)
    requires sprint in rows
  {
    var s := rows[sprint];
    if s.state == Merged then ReadyGate(repo, m, rows, findings, sprint, true)
    else s.ci.status in {CiRunning, Passed, CiFailed} ==>
      && ReadyGate(repo, m, rows, findings, sprint, false)
      && s.ci.commit == s.tip && (s.ci.status != CiRunning ==> s.ci.hasEvidence)
  }

  predicate ItemBuilt(it: Item)
  {
    it.implementation == Complete && Gated(it.state) && it.blockers == []
  }

  predicate CiInOrder(m: ItemMap, rows: SprintMap, sprint: int)
    requires sprint in rows
  {
    rows[sprint].ci.status in {CiRunning, Passed} ==>
      && PriorDelivered(rows, sprint)
      && forall id | id in Selected(m, sprint) :: ItemBuilt(m[id])
  }

  // ---------- the whole ledger

  function ItemMapOf(items: seq<Item>): ItemMap
  {
    if items == [] then map[] else ItemMapOf(items[..|items| - 1])[items[|items| - 1].id := items[|items| - 1]]
  }

  function SprintMapOf(sprints: seq<Sprint>): SprintMap
  {
    if sprints == [] then map[] else SprintMapOf(sprints[..|sprints| - 1])[sprints[|sprints| - 1].id := sprints[|sprints| - 1]]
  }

  predicate DistinctIds(items: seq<Item>)
  {
    forall i, j | 0 <= i < j < |items| :: items[i].id != items[j].id
  }

  predicate ItemsOk(repo: Repo, items: seq<Item>)
  {
    DistinctIds(items) && forall i | 0 <= i < |items| :: ItemOk(repo, items[i])
  }

  /** An item's dependencies are in no later sprint, a baseline item was delivered
      before the ledger, and a delivered item is in a delivered sprint. */
  predicate ItemPlaced(m: ItemMap, rows: SprintMap, id: string)
    requires id in m
  {
    && (forall d | d in m[id].dependencies && d in m :: m[d].sprint <= m[id].sprint)
    && (m[id].sprint == 0 ==> m[id].state == RecordedDelivered && m[id].historicalSprint == 0)
    && (m[id].state == Delivered ==> SprintDelivered(rows, m[id].sprint))
  }

  predicate SprintOk(repo: Repo, m: ItemMap, rows: SprintMap, findings: seq<Finding>, sprint: int)
    requires sprint in rows
  {
    && rows[sprint].state != OtherSprintState && rows[sprint].ci.status != OtherCi
    && rows[sprint].acceptance.status != OtherAcceptance
    && DeliveredRowOk(repo, rows[sprint]) && CiInOrder(m, rows, sprint)
    && OwnGate(repo, m, rows, findings, sprint)
  }

  predicate Accepted(repo: Repo, ledger: Ledger)
  {
    var m, rows := ItemMapOf(ledger.items), SprintMapOf(ledger.sprints);
    && ItemsOk(repo, ledger.items) && m.Keys == repo.registry.Keys
    && (forall id | id in m :: ItemPlaced(m, rows, id))
    && rows.Keys == {1, 2, 3} && |ledger.sprints| == 3
    && (forall sprint | sprint in rows :: SprintOk(repo, m, rows, ledger.findings, sprint))
    && TasksOk(ledger.tasks) && ScopesApart(ledger.tasks)
  }

  // ---------- active scopes

  function StripSlashes(path: string): string
  {
    if EndsWith(path, "/") then StripSlashes(path[..|path| - 1]) else path
  }

  predicate SimplePath(path: string)
  {
    forall c | c in "*?[]{}" :: c !in path
  }

  predicate TaskOk(t: Task)
  {
    t.timestamped && forall p | p in t.scope :: SimplePath(p)
  }

  predicate TasksOk(tasks: seq<Task>)
  {
    forall t | t in tasks :: TaskOk(t)
  }

  predicate Overlap(a: string, b: string)
  {
    a == b || b + "/" <= a || a + "/" <= b
  }

  /** The (task, path) pairs of the active rows. */
  function ActivePaths(tasks: seq<Task>): set<(string, string)>
  {
    set t, p | t in tasks && t.active && p in t.scope :: (t.name, StripSlashes(p))
  }

  predicate ScopesApart(tasks: seq<Task>)
  {
    forall x, y | x in ActivePaths(tasks) && y in ActivePaths(tasks) && x.0 != y.0 :: !Overlap(x.1, y.1)
  }

  // ---------- the gate's loops

  method CheckItem(e: Errors, repo: Repo, it: Item)
    modifies e
    ensures e.Clean() <==> old(e.Clean()) && ItemOk(repo, it)
  {
    hide IsCommitRef, Elems;
    e.Require(it.id in repo.registry, BadItem(it.id));
    e.Require(0 <= it.sprint <= 3, BadItem(it.id));
    e.Require(0 <= it.historicalSprint <= 4, BadItem(it.id));
    e.Require(it.state != OtherState && it.implementation != OtherImplementation, BadItem(it.id));
    if Gated(it.state) { e.Require(it.implementation == Complete, BadItem(it.id)); }
    e.Require(it.owner != "" && it.nextAction != "", BadItem(it.id));
    if it.id in repo.registry {
      e.Require(Elems(it.dependencies) == Elems(repo.registry[it.id]), BadItem(it.id));
    }
    e.Require(forall c | c in it.commits :: IsCommitRef(c), BadItem(it.id));
    e.Require(it.review.status != OtherReview, BadItem(it.id));
    if it.review.commit.Some? { e.Require(IsCommitRef(it.review.commit.value), BadItem(it.id)); }
    if it.review.status == Approved { e.Require(it.review.hasEvidence, BadItem(it.id)); }
  }

  ghost predicate IdsOf(m: ItemMap, items: seq<Item>)
  {
    && (forall i | 0 <= i < |items| :: items[i].id in m)
    && forall id | id in m :: exists i :: 0 <= i < |items| && items[i].id == id
  }

  lemma MapStep(items: seq<Item>, i: nat)
    requires i < |items| && IdsOf(ItemMapOf(items[..i]), items[..i])
    ensures ItemMapOf(items[..i + 1]) == ItemMapOf(items[..i])[items[i].id := items[i]]
    ensures IdsOf(ItemMapOf(items[..i + 1]), items[..i + 1])
    ensures DistinctIds(items[..i + 1]) <==> DistinctIds(items[..i]) && items[i].id !in ItemMapOf(items[..i])
  {
    hide DistinctIds;
    assert items[..i + 1][..i] == items[..i];
    assert items[..i + 1] == items[..i] + [items[i]];
    IdsStep(ItemMapOf(items[..i]), items[..i], items[i]);
  }

  lemma IdsStep(m: ItemMap, before: seq<Item>, it: Item)
    requires IdsOf(m, before)
    ensures IdsOf(m[it.id := it], before + [it])
    ensures DistinctIds(before + [it]) <==> DistinctIds(before) && it.id !in m
  {
    var n, after := |before|, before + [it];
    assert after[n].id == it.id && forall k | 0 <= k < n :: after[k] == before[k];
    var m' := m[it.id := it];
    forall id | id in m' ensures exists k :: 0 <= k < |after| && after[k].id == id {
      if id != it.id {
        var k :| 0 <= k < n && before[k].id == id;
        assert after[k].id == id;
      }
    }
    if it.id in m {
      var k :| 0 <= k < n && before[k].id == it.id;
      assert after[k].id == after[n].id;
    }
    if DistinctIds(after) {
      forall a, b | 0 <= a < b < n ensures before[a].id != before[b].id { assert after[a].id != after[b].id; }
    }
  }

  method MapItems(e: Errors, repo: Repo, items: seq<Item>) returns (m: ItemMap)
    modifies e
    ensures m == ItemMapOf(items)
    ensures e.Clean() <==> old(e.Clean()) && ItemsOk(repo, items)
  {
    hide ItemOk, ItemMapOf, DistinctIds, IdsOf;
    m := map[];
    StartMap();
    assert items[..0] == [];
    for i := 0 to |items|
      invariant m == ItemMapOf(items[..i]) && IdsOf(m, items[..i])
      invariant e.Clean() <==>
        old(e.Clean()) && DistinctIds(items[..i]) && forall k | 0 <= k < i :: ItemOk(repo, items[k])
    {
      MapStep(items, i);
      e.Require(items[i].id !in m, DuplicateItem(items[i].id));
      m := m[items[i].id := items[i]];
      CheckItem(e, repo, items[i]);
    }
    assert items[..|items|] == items;
  }

  lemma StartMap()
    ensures ItemMapOf([]) == map[] && IdsOf(map[], []) && DistinctIds([])
  {
  }

  method PlaceItem(e: Errors, m: ItemMap, rows: SprintMap, id: string)
    requires id in m
    modifies e
    ensures e.Clean() <==> old(e.Clean()) && ItemPlaced(m, rows, id)
  {
    var deps := m[id].dependencies;
    for i := 0 to |deps|
      invariant e.Clean() <==>
        old(e.Clean()) && forall k | 0 <= k < i && deps[k] in m :: m[deps[k]].sprint <= m[id].sprint
    {
      if deps[i] in m { e.Require(m[deps[i]].sprint <= m[id].sprint, DependencyLater(id)); }
    }
    if m[id].sprint == 0 {
      e.Require(m[id].state == RecordedDelivered, BadBaseline(id));
      e.Require(m[id].historicalSprint == 0, BadBaseline(id));
    }
    if m[id].state == Delivered { e.Require(SprintDelivered(rows, m[id].sprint), DeliveredTooEarly(id)); }
  }

  method PlaceItems(e: Errors, m: ItemMap, rows: SprintMap)
    modifies e
    ensures e.Clean() <==> old(e.Clean()) && forall id | id in m :: ItemPlaced(m, rows, id)
  {
    hide ItemPlaced;
    var ids := Sorted(m.Keys);
    assert forall id :: id in m <==> id in Elems(ids);
    for i := 0 to |ids|
      invariant forall k | 0 <= k < |ids| :: ids[k] in Elems(ids)
      invariant e.Clean() <==> old(e.Clean()) && forall k | 0 <= k < i :: ItemPlaced(m, rows, ids[k])
    {
      PlaceItem(e, m, rows, ids[i]);
    }
  }

  method CheckPrior(e: Errors, rows: SprintMap, sprint: int, problem: Problem)
    modifies e
    ensures e.Clean() <==> old(e.Clean()) && PriorDelivered(rows, sprint)
  {
    hide SprintDelivered;
    var prior := 1;
    while prior < sprint
      invariant e.Clean() <==> old(e.Clean()) && forall k | 1 <= k < prior && k < sprint :: SprintDelivered(rows, k)
    {
      e.Require(SprintDelivered(rows, prior), problem);
      prior := prior + 1;
    }
  }

  method CheckReady(e: Errors, m: ItemMap, it: Item, problem: Problem)
    modifies e
    ensures e.Clean() <==> old(e.Clean()) && ItemReady(m, it)
  {
    hide IsSha, DependencyReady;
    e.Require(it.implementation == Complete, problem);
    e.Require(Gated(it.state), problem);
    e.Require(it.blockers == [], problem);
    var review := it.review;
    e.Require(review.status == Approved && review.commit.Some? && IsSha(review.commit.value)
              && review.commit.value in it.commits, problem);
    ghost var before := e.Clean();
    for i := 0 to |it.dependencies|
      invariant e.Clean() <==> before && forall k | 0 <= k < i :: DependencyReady(m, it.dependencies[k])
    {
      e.Require(DependencyReady(m, it.dependencies[i]), problem);
    }
  }

  method CheckContained(e: Errors, repo: Repo, tip: Option<Commit>, it: Item, problem: Problem)
    modifies e
    ensures e.Clean() <==> old(e.Clean()) && CommitsContained(repo, tip, it)
  {
    hide Descends;
    for i := 0 to |it.commits|
      invariant e.Clean() <==> old(e.Clean()) && forall k | 0 <= k < i :: Descends(repo, Some(it.commits[k]), tip)
    {
      e.Require(Descends(repo, Some(it.commits[i]), tip), problem);
    }
  }

  /** The selected items, in a fixed order. */
  ghost predicate Selects(m: ItemMap, sprint: int, selected: seq<string>)
  {
    && (forall i | 0 <= i < |selected| :: selected[i] in Selected(m, sprint))
    && forall id | id in Selected(m, sprint) :: exists i :: 0 <= i < |selected| && selected[i] == id
  }

  method SelectItems(m: ItemMap, sprint: int) returns (selected: seq<string>)
    ensures Selects(m, sprint, selected) && |selected| == |Selected(m, sprint)|
  {
    hide Selected, Sorted;
    selected := Sorted(Selected(m, sprint));
    forall i | 0 <= i < |selected| ensures selected[i] in Selected(m, sprint) { assert selected[i] in Elems(selected); }
    forall id | id in Selected(m, sprint) ensures exists i :: 0 <= i < |selected| && selected[i] == id {
      assert id in Elems(selected);
    }
  }

  method CheckAllReady(e: Errors, m: ItemMap, sprint: int, selected: seq<string>)
    requires Selects(m, sprint, selected)
    modifies e
    ensures e.Clean() <==> old(e.Clean()) && forall id | id in Selected(m, sprint) :: ItemReady(m, m[id])
  {
    hide ItemReady;
    for i := 0 to |selected|
      invariant e.Clean() <==> old(e.Clean()) && forall k | 0 <= k < i :: ItemReady(m, m[selected[k]])
    {
      CheckReady(e, m, m[selected[i]], NotReady(sprint));
    }
  }

  method CheckAllContained(e: Errors, repo: Repo, m: ItemMap, tip: Option<Commit>, sprint: int, selected: seq<string>)
    requires Selects(m, sprint, selected)
    modifies e
    ensures e.Clean() <==> old(e.Clean()) && forall id | id in Selected(m, sprint) :: CommitsContained(repo, tip, m[id])
  {
    hide CommitsContained;
    for i := 0 to |selected|
      invariant e.Clean() <==> old(e.Clean()) && forall k | 0 <= k < i :: CommitsContained(repo, tip, m[selected[k]])
    {
      CheckContained(e, repo, tip, m[selected[i]], NotReady(sprint));
    }
  }

  method CheckDeliverable(e: Errors, m: ItemMap, s: Sprint, sprint: int, it: Item, problem: Problem)
    modifies e
    ensures e.Clean() <==> old(e.Clean()) && ItemDeliverable(m, s, sprint, it)
  {
    var deps := it.dependencies;
    e.Require(forall d | d in deps && d in m && m[d].sprint == sprint :: Gated(m[d].state), problem);
    e.Require(forall d | d in deps && d in m && m[d].sprint != sprint ::
                Gated(m[d].state) || m[d].state == RecordedDelivered, problem);
    if it.state == Delivered { e.Require(s.state == Merged, problem); }
  }

  method CheckDelivery(e: Errors, repo: Repo, m: ItemMap, s: Sprint, findings: seq<Finding>, sprint: int, selected: seq<string>)
    requires Selects(m, sprint, selected)
    modifies e
    ensures e.Clean() <==> old(e.Clean()) && DeliveryGate(repo, m, s, findings, sprint)
  {
    hide ItemDeliverable, Descends;
    e.Require(s.ci.status == Passed && s.ci.commit == s.tip && s.ci.hasEvidence, NotReady(sprint));
    e.Require(s.acceptance.status == AcceptancePassed && s.acceptance.hasEvidence, NotReady(sprint));
    e.Require(Unblocked(findings, sprint), NotReady(sprint));
    ghost var before := e.Clean();
    for i := 0 to |selected|
      invariant e.Clean() <==> before && forall k | 0 <= k < i :: ItemDeliverable(m, s, sprint, m[selected[k]])
    {
      CheckDeliverable(e, m, s, sprint, m[selected[i]], NotReady(sprint));
    }
    if s.state == Merged { e.Require(Descends(repo, s.tip, s.merge), NotReady(sprint)); }
  }

  /** `ready_check` */
  method ReadyCheck(e: Errors, repo: Repo, m: ItemMap, rows: SprintMap, findings: seq<Finding>, sprint: int, delivery: bool)
    modifies e
    ensures e.Clean() <==> old(e.Clean()) && ReadyGate(repo, m, rows, findings, sprint, delivery)
  {
    hide ItemReady, CommitsContained, IsCommit, DeliveryGate, Selected, PriorDelivered, Selects;
    CheckPrior(e, rows, sprint, NotReady(sprint));
    var selected := SelectItems(m, sprint);
    e.Require(|selected| == GateSize(sprint), NotReady(sprint));
    CheckAllReady(e, m, sprint, selected);
    e.Require(sprint in rows && IsCommit(repo, rows[sprint].tip), NotReady(sprint));
    if sprint in rows {
      CheckAllContained(e, repo, m, rows[sprint].tip, sprint, selected);
      if delivery { CheckDelivery(e, repo, m, rows[sprint], findings, sprint, selected); }
    }
  }

  method CheckDeliveredRow(e: Errors, repo: Repo, s: Sprint)
    modifies e
    ensures e.Clean() <==> old(e.Clean()) && DeliveredRowOk(repo, s)
  {
    hide IsCommit;
    if s.state == Merged {
      e.Require(IsCommit(repo, s.tip), BadDeliveredSprint(s.id));
      e.Require(s.ci.status == Passed && s.ci.commit == s.tip && s.ci.hasEvidence, BadDeliveredSprint(s.id));
      e.Require(s.acceptance.status == AcceptancePassed && s.acceptance.hasEvidence, BadDeliveredSprint(s.id));
      e.Require(Descends(repo, s.tip, s.merge), BadDeliveredSprint(s.id));
    }
  }

  method CheckCiOrder(e: Errors, m: ItemMap, rows: SprintMap, sprint: int)
    requires sprint in rows
    modifies e
    ensures e.Clean() <==> old(e.Clean()) && CiInOrder(m, rows, sprint)
  {
    hide PriorDelivered, ItemBuilt;
    if rows[sprint].ci.status in {CiRunning, Passed} {
      CheckPrior(e, rows, sprint, CiTooEarly(sprint));
      var selected := SelectItems(m, sprint);
      ghost var before := e.Clean();
      for i := 0 to |selected|
        invariant e.Clean() <==> before && forall k | 0 <= k < i :: ItemBuilt(m[selected[k]])
      {
        e.Require(ItemBuilt(m[selected[i]]), CiTooEarly(sprint));
      }
    }
  }

  method CheckSprint(e: Errors, repo: Repo, m: ItemMap, rows: SprintMap, findings: seq<Finding>, sprint: int)
    requires sprint in rows
    modifies e
    ensures e.Clean() <==> old(e.Clean()) && SprintOk(repo, m, rows, findings, sprint)
  {
    hide ReadyGate, DeliveredRowOk, CiInOrder;
    var s := rows[sprint];
    e.Require(s.state != OtherSprintState, BadDeliveredSprint(sprint));
    e.Require(s.ci.status != OtherCi, BadDeliveredSprint(sprint));
    e.Require(s.acceptance.status != OtherAcceptance, BadDeliveredSprint(sprint));
    CheckDeliveredRow(e, repo, s);
    CheckCiOrder(e, m, rows, sprint);
    if s.state == Merged {
      ReadyCheck(e, repo, m, rows, findings, sprint, true);
    } else if s.ci.status in {CiRunning, Passed, CiFailed} {
      ReadyCheck(e, repo, m, rows, findings, sprint, false);
      e.Require(s.ci.commit == s.tip, UnboundCi(sprint));
      if s.ci.status in {Passed, CiFailed} { e.Require(s.ci.hasEvidence, UnboundCi(sprint)); }
    }
  }

  ghost predicate RowIds(rows: SprintMap, sprints: seq<Sprint>)
  {
    && (forall i | 0 <= i < |sprints| :: sprints[i].id in rows)
    && forall id | id in rows :: exists i :: 0 <= i < |sprints| && sprints[i].id == id
  }

  lemma {:induction false} SprintMapIds(sprints: seq<Sprint>)
    ensures RowIds(SprintMapOf(sprints), sprints)
  {
    if sprints != [] {
      var n := |sprints| - 1;
      SprintMapIds(sprints[..n]);
      forall id | id in SprintMapOf(sprints) ensures exists i :: 0 <= i < |sprints| && sprints[i].id == id {
        if id == sprints[n].id {
        } else {
          var i :| 0 <= i < n && sprints[..n][i].id == id;
          assert sprints[i].id == id;
        }
      }
      forall i | 0 <= i < |sprints| ensures sprints[i].id in SprintMapOf(sprints) {
        if i < n { assert sprints[..n][i].id in SprintMapOf(sprints[..n]); }
      }
    }
  }

  method CheckSprints(e: Errors, repo: Repo, m: ItemMap, sprints: seq<Sprint>, findings: seq<Finding>) returns (rows: SprintMap)
    modifies e
    ensures rows == SprintMapOf(sprints)
    ensures e.Clean() <==>
            old(e.Clean()) && rows.Keys == {1, 2, 3} && |sprints| == 3
            && forall sprint | sprint in rows :: SprintOk(repo, m, rows, findings, sprint)
  {
    hide SprintOk, SprintMapOf;
    rows := SprintMapOf(sprints);
    SprintMapIds(sprints);
    e.Require(rows.Keys == {1, 2, 3} && |sprints| == 3, BadSprintTable);
    ghost var before := e.Clean();
    for i := 0 to |sprints|
      invariant e.Clean() <==> before && forall k | 0 <= k < i :: SprintOk(repo, m, rows, findings, sprints[k].id)
    {
      CheckSprint(e, repo, m, rows, findings, sprints[i].id);
    }
  }

  /** This row puts this (task, path) pair on the active list. */
  ghost predicate Lists(t: Task, x: (string, string))
  {
    t.active && exists p :: p in t.scope && x == (t.name, StripSlashes(p))
  }

  method ListTask(e: Errors, t: Task) returns (active: seq<(string, string)>)
    modifies e
    ensures forall x :: x in active <==> Lists(t, x)
    ensures e.Clean() <==> old(e.Clean()) && TaskOk(t)
  {
    hide StripSlashes, SimplePath;
    active := [];
    e.Require(t.timestamped, BadTask(t.name));
    ghost var before := e.Clean();
    for j := 0 to |t.scope|
      invariant forall x :: x in active <==>
        t.active && exists k :: 0 <= k < j && x == (t.name, StripSlashes(t.scope[k]))
      invariant e.Clean() <==> before && forall k | 0 <= k < j :: SimplePath(t.scope[k])
    {
      e.Require(SimplePath(t.scope[j]), BadTask(t.name));
      if t.active { active := active + [(t.name, StripSlashes(t.scope[j]))]; }
    }
  }

  /** The active (task, path) pairs, in ledger order, as the gate lists them. */
  method ListActive(e: Errors, tasks: seq<Task>) returns (active: seq<(string, string)>)
    modifies e
    ensures forall x :: x in active <==> x in ActivePaths(tasks)
    ensures e.Clean() <==> old(e.Clean()) && TasksOk(tasks)
  {
    hide Lists, TaskOk;
    active := [];
    for i := 0 to |tasks|
      invariant forall x :: x in active <==> exists k :: 0 <= k < i && Lists(tasks[k], x)
      invariant e.Clean() <==> old(e.Clean()) && forall k | 0 <= k < i :: TaskOk(tasks[k])
    {
      var more := ListTask(e, tasks[i]);
      active := active + more;
    }
    forall x ensures x in ActivePaths(tasks) <==> exists k :: 0 <= k < |tasks| && Lists(tasks[k], x) {
      ActiveIffListed(tasks, x);
    }
  }

  lemma ActiveIffListed(tasks: seq<Task>, x: (string, string))
    ensures x in ActivePaths(tasks) <==> exists k :: 0 <= k < |tasks| && Lists(tasks[k], x)
  {
  }

  predicate PairApart(x: (string, string), y: (string, string))
  {
    x.0 != y.0 ==> !Overlap(x.1, y.1)
  }

  method CheckScopes(e: Errors, tasks: seq<Task>)
    modifies e
    ensures e.Clean() <==> old(e.Clean()) && TasksOk(tasks) && ScopesApart(tasks)
  {
    hide PairApart, ActivePaths, TasksOk;
    var active := ListActive(e, tasks);
    ghost var listed := e.Clean();
    for i := 0 to |active|
      invariant e.Clean() <==>
        listed && forall a, b | 0 <= a < i && a < b < |active| :: PairApart(active[a], active[b])
    {
      ghost var before := e.Clean();
      for j := i + 1 to |active|
        invariant e.Clean() <==> before && forall b | i < b < j :: PairApart(active[i], active[b])
      {
        e.Require(PairApart(active[i], active[j]), ScopesOverlap(active[i].0, active[j].0));
      }
    }
    PairsOnce(tasks, active);
  }

  lemma PairsOnce(tasks: seq<Task>, active: seq<(string, string)>)
    requires forall x :: x in active <==> x in ActivePaths(tasks)
    ensures ScopesApart(tasks) <==> forall a, b | 0 <= a < b < |active| :: PairApart(active[a], active[b])
  {
  }

  /** `validate`: no problems exactly when the ledger is accepted and, in a readiness
      mode, the targeted sprint passes its gate too. */
  method Validate(repo: Repo, ledger: Ledger, target: Option<(int, bool)>) returns (problems: seq<Problem>)
    ensures problems == [] <==>
            Accepted(repo, ledger)
            && (target.Some? ==> ReadyGate(repo, ItemMapOf(ledger.items), SprintMapOf(ledger.sprints),
                                           ledger.findings, target.value.0, target.value.1))
  {
    hide ItemMapOf, ItemsOk, ItemPlaced, SprintOk, SprintMapOf, ScopesApart, TasksOk, ReadyGate;
    var e := new Errors();
    var m := MapItems(e, repo, ledger.items);
    e.Require(m.Keys == repo.registry.Keys, CoverageMismatch);
    CheckScopes(e, ledger.tasks);
    var rows := CheckSprints(e, repo, m, ledger.sprints, ledger.findings);
    PlaceItems(e, m, rows);
    if target.Some? { ReadyCheck(e, repo, m, rows, ledger.findings, target.value.0, target.value.1); }
    problems := e.items;
  }

  // ---------- what acceptance implies

  /** Delivered sprints form a prefix. */
  lemma DeliveredPrefix(repo: Repo, ledger: Ledger, sprint: int, prior: int)
    requires Accepted(repo, ledger) && 1 <= prior <= sprint && SprintDelivered(SprintMapOf(ledger.sprints), sprint)
    ensures SprintDelivered(SprintMapOf(ledger.sprints), prior)
  {
    hide ItemsOk, ItemPlaced, ScopesApart, ItemReady;
    var m, rows := ItemMapOf(ledger.items), SprintMapOf(ledger.sprints);
    assert SprintOk(repo, m, rows, ledger.findings, sprint);
  }

  /** A delivered sprint has all its items, passed CI and acceptance for its exact tip with
      evidence, and no unresolved finding that blocks delivery. */
  lemma DeliveredSprintIsWhole(repo: Repo, ledger: Ledger, sprint: int)
    requires Accepted(repo, ledger) && SprintDelivered(SprintMapOf(ledger.sprints), sprint)
    ensures var m, s := ItemMapOf(ledger.items), SprintMapOf(ledger.sprints)[sprint];
      && |set id | id in m && m[id].sprint == sprint| == (if sprint == 1 then 12 else if sprint == 2 then 14 else 28)
      && s.ci.status == Passed && s.ci.commit == s.tip && s.ci.hasEvidence
      && s.acceptance.status == AcceptancePassed && s.acceptance.hasEvidence
    ensures forall f | f in ledger.findings && f.sprint == sprint :: !f.unresolved || !f.blocksDelivery
  {
    hide ItemsOk, ItemPlaced, ScopesApart, ItemReady, ItemMapOf, SprintMapOf, TasksOk;
    var m, rows := ItemMapOf(ledger.items), SprintMapOf(ledger.sprints);
    assert SprintOk(repo, m, rows, ledger.findings, sprint);
    assert ReadyGate(repo, m, rows, ledger.findings, sprint, true);
  }

  /** A sprint that passes its gate rests on ready work: every dependency in the ledger is
      ready or delivered, or recorded as delivered before it. */
  lemma GatedDependenciesReady(repo: Repo, m: ItemMap, rows: SprintMap, findings: seq<Finding>, sprint: int, delivery: bool,
                               id: string, dep: string)
    requires ReadyGate(repo, m, rows, findings, sprint, delivery)
    requires id in m && m[id].sprint == sprint && dep in m[id].dependencies && dep in m
    ensures if m[dep].sprint == 0 then m[dep].state == RecordedDelivered else m[dep].state in {Ready, Delivered}
  {
    hide CommitsContained, DeliveryGate, PriorDelivered;
    assert id in Selected(m, sprint) && ItemReady(m, m[id]);
  }

  /** CI runs for a sprint only after the earlier ones are delivered and with every item
      of it complete, ready and unblocked. */
  lemma CiRunsInOrder(repo: Repo, ledger: Ledger, sprint: int)
    requires Accepted(repo, ledger) && sprint in SprintMapOf(ledger.sprints)
    requires SprintMapOf(ledger.sprints)[sprint].ci.status in {CiRunning, Passed}
    ensures forall prior | 1 <= prior < sprint :: SprintDelivered(SprintMapOf(ledger.sprints), prior)
    ensures var m := ItemMapOf(ledger.items);
      forall id | id in m && m[id].sprint == sprint ::
        m[id].implementation == Complete && m[id].state in {Ready, Delivered} && m[id].blockers == []
  {
    hide ItemsOk, ItemPlaced, ScopesApart, ItemReady, ItemMapOf, SprintMapOf, TasksOk;
    var m, rows := ItemMapOf(ledger.items), SprintMapOf(ledger.sprints);
    assert SprintOk(repo, m, rows, ledger.findings, sprint);
    forall id | id in m && m[id].sprint == sprint ensures ItemBuilt(m[id]) { assert id in Selected(m, sprint); }
  }

  /** The dependency graph of the canonical registry, external tokens left aside. */
  function Registry(repo: Repo): Graph
  {
    NodeGraph(repo.registry)
  }

  lemma {:induction false} ItemsInMap(repo: Repo, items: seq<Item>, id: string)
    requires (forall i | 0 <= i < |items| :: ItemOk(repo, items[i])) && id in ItemMapOf(items)
    ensures ItemMapOf(items)[id].id == id && ItemOk(repo, ItemMapOf(items)[id])
  {
    hide ItemOk;
    var n := |items| - 1;
    if id != items[n].id {
      assert forall i | 0 <= i < n :: items[..n][i] == items[i];
      ItemsInMap(repo, items[..n], id);
    }
  }

  /** What the ledger owes for every item a delivered sprint rests on. */
  ghost predicate Settled(repo: Repo, m: ItemMap, rows: SprintMap, id: string, sprint: int)
  {
    && id in m && 0 <= m[id].sprint <= sprint
    && if m[id].sprint == 0 then m[id].state == RecordedDelivered
       else
         && SprintDelivered(rows, m[id].sprint)
         && m[id].implementation == Complete && m[id].state in {Ready, Delivered} && m[id].blockers == []
         && m[id].review.status == Approved && m[id].review.commit.Some? && m[id].review.commit.value in m[id].commits
         && rows[m[id].sprint].tip.Some? && rows[m[id].sprint].merge.Some?
         && forall c | c in m[id].commits ::
              && |c| == 40 && repo.has(c) && repo.ancestor(c, rows[m[id].sprint].tip.value)
              && repo.ancestor(c, rows[m[id].sprint].merge.value)
  }

  ghost predicate Transitive(repo: Repo)
  {
    forall a, b, c | repo.ancestor(a, b) && repo.ancestor(b, c) :: repo.ancestor(a, c)
  }

  /** Any item of a delivered sprint, or of the baseline before it, is settled. */
  lemma DeliveredItemSettled(repo: Repo, ledger: Ledger, id: string, sprint: int)
    requires Accepted(repo, ledger) && Transitive(repo)
    requires var m, rows := ItemMapOf(ledger.items), SprintMapOf(ledger.sprints);
      SprintDelivered(rows, sprint) && id in m && m[id].sprint <= sprint
    ensures Settled(repo, ItemMapOf(ledger.items), SprintMapOf(ledger.sprints), id, sprint)
  {
    hide ItemMapOf, SprintMapOf, ScopesApart, CiInOrder;
    var m, rows := ItemMapOf(ledger.items), SprintMapOf(ledger.sprints);
    ItemsInMap(repo, ledger.items, id);
    assert ItemPlaced(m, rows, id);
    var own := m[id].sprint;
    if own > 0 {
      DeliveredPrefix(repo, ledger, sprint, own);
      assert SprintOk(repo, m, rows, ledger.findings, own);
      assert id in Selected(m, own) && ItemReady(m, m[id]) && CommitsContained(repo, rows[own].tip, m[id]);
      forall c | c in m[id].commits ensures |c| == 40 && repo.has(c) && repo.ancestor(c, rows[own].tip.value) {
        assert Descends(repo, Some(c), rows[own].tip);
      }
    }
  }

  /** Everything a delivered sprint's item transitively depends on, by the canonical
      registry, is in no later sprint and is either recorded as delivered before the
      ledger or complete, unblocked, reviewed, in a delivered sprint, with every one of
      its commits contained in that sprint's tip and in its merge. */
  lemma DeliveredRestsOnSettled(repo: Repo, ledger: Ledger, item: string, dep: string)
    requires Accepted(repo, ledger) && Transitive(repo)
    requires var m := ItemMapOf(ledger.items); item in m && SprintDelivered(SprintMapOf(ledger.sprints), m[item].sprint)
    requires dep == item || Precedes(Registry(repo), dep, item)
    ensures Settled(repo, ItemMapOf(ledger.items), SprintMapOf(ledger.sprints), dep, ItemMapOf(ledger.items)[item].sprint)
  {
    hide Settled, Accepted;
    var m := ItemMapOf(ledger.items);
    if dep != item {
      var p :| PathBetween(Registry(repo), p, dep, item);
      PathDescends(repo, ledger, p, item);
    }
    DeliveredItemSettled(repo, ledger, dep, m[item].sprint);
  }

  lemma DependencyNotLater(repo: Repo, ledger: Ledger, dep: string, item: string)
    requires Accepted(repo, ledger) && item in ItemMapOf(ledger.items) && dep in Deps(Registry(repo), item)
    ensures var m := ItemMapOf(ledger.items); dep in m && m[dep].sprint <= m[item].sprint
  {
    hide ItemMapOf, SprintMapOf, SprintOk, ScopesApart, DistinctIds;
    ItemsInMap(repo, ledger.items, item);
    assert dep in Elems(repo.registry[item]);
    assert ItemPlaced(ItemMapOf(ledger.items), SprintMapOf(ledger.sprints), item);
  }

  /** Sprints do not grow from an item to its dependencies. */
  lemma {:induction false} PathDescends(repo: Repo, ledger: Ledger, p: seq<string>, item: string)
    requires Accepted(repo, ledger) && |p| >= 1 && IsPath(Registry(repo), p) && p[|p| - 1] == item
    requires item in ItemMapOf(ledger.items)
    ensures var m := ItemMapOf(ledger.items); p[0] in m && m[p[0]].sprint <= m[item].sprint
    decreases |p|
  {
    hide Accepted, Registry, ItemMapOf;
    if |p| > 1 {
      var q := p[1..];
      forall i | 0 < i < |q| ensures q[i - 1] in Deps(Registry(repo), q[i]) {
        assert p[i] in Deps(Registry(repo), p[i + 1]);
      }
      PathDescends(repo, ledger, q, item);
      assert p[0] in Deps(Registry(repo), p[1]);
      DependencyNotLater(repo, ledger, p[0], p[1]);
    }
  }

  /** A relative path without empty, `.` and `..` parts, other than the root itself. */
  predicate NormalPath(path: string)
  {
    Parts(path) != [] && ".." !in Parts(path) && Join(Parts(path)) == path
  }

  /** A file lies in a scope path when it is that path or below it, however spelled. */
  predicate Within(file: string, path: string)
  {
    Parts(path) <= Parts(file)
  }

  lemma NormalSplit(path: string)
    requires NormalPath(path)
    ensures Split(path) == Parts(path)
  {
    hide Parts;
    PartsAreVisible(path);
    SplitJoin(Parts(path));
  }

  /** Between normal paths a written prefix is a directory above. */
  lemma PrefixIffAbove(a: string, b: string)
    requires NormalPath(a) && NormalPath(b)
    ensures a + "/" <= b <==> Parts(a) < Parts(b)
  {
    hide Parts, Split;
    NormalSplit(a);
    NormalSplit(b);
    var p, q := Parts(a), Parts(b);
    if a + "/" <= b {
      var rest := b[|a| + 1..];
      assert b == a + "/" + rest;
      SplitConcat(a, rest);
    }
    if p < q {
      assert q == p + q[|p|..];
      JoinConcat(p, q[|p|..]);
      assert a + "/" <= a + "/" + Join(q[|p|..]);
    }
  }

  /** Between normal paths the gate's comparison of spellings is that one place is, or
      is above, the other. */
  lemma OverlapIffNested(a: string, b: string)
    requires NormalPath(a) && NormalPath(b)
    ensures Overlap(a, b) <==> Parts(a) <= Parts(b) || Parts(b) <= Parts(a)
  {
    hide Parts;
    PrefixIffAbove(a, b);
    PrefixIffAbove(b, a);
    var p, q := Parts(a), Parts(b);
    assert (p <= q <==> p == q || p < q) && (q <= p <==> p == q || q < p);
    assert p == q ==> a == b;
  }

  /** However they are spelled, one of two overlapping scopes lies within the other. */
  lemma OverlapIsNested(a: string, b: string)
    requires Overlap(a, b)
    ensures Within(a, b) || Within(b, a)
  {
    hide Parts;
    if b + "/" <= a {
      PartsBelow(b, a[|b| + 1..]);
      assert a == b + "/" + a[|b| + 1..];
    } else if a + "/" <= b {
      PartsBelow(a, b[|a| + 1..]);
      assert b == a + "/" + b[|a| + 1..];
    }
  }

  lemma EndsInSlash(path: string)
    ensures EndsWith(path, "/") <==> path != "" && path[|path| - 1] == '/'
  {
    if path != "" { assert path[|path| - 1..] == [path[|path| - 1]]; }
  }

  /** Only slashes at the end are taken off, and all of them. */
  lemma {:induction false} StripSlashesIs(path: string)
    ensures |StripSlashes(path)| <= |path| && StripSlashes(path) == path[..|StripSlashes(path)|]
    ensures var n := |StripSlashes(path)|; n > 0 ==> path[n - 1] != '/'
    ensures forall i | |StripSlashes(path)| <= i < |path| :: path[i] == '/'
  {
    hide EndsWith;
    EndsInSlash(path);
    if EndsWith(path, "/") {
      var init := path[..|path| - 1];
      StripSlashesIs(init);
      assert StripSlashes(path) == StripSlashes(init);
      assert init[..|StripSlashes(init)|] == path[..|StripSlashes(init)|];
    } else {
      assert StripSlashes(path) == path == path[..|path|];
    }
  }

  /** The gate reports no overlap that is not there: scopes without a common file pass,
      whatever their spelling. */
  lemma NoFalseOverlap(tasks: seq<Task>)
    requires NoSharedFile(tasks)
    ensures ScopesApart(tasks)
  {
    hide ActivePaths, Overlap, Parts;
    forall x, y | x in ActivePaths(tasks) && y in ActivePaths(tasks) && Overlap(x.1, y.1) ensures x.0 == y.0 {
      OverlapIsNested(x.1, y.1);
      assert Within(x.1, x.1) && Within(y.1, y.1);
    }
  }

  predicate ScopesNormal(tasks: seq<Task>)
  {
    forall x | x in ActivePaths(tasks) :: NormalPath(x.1)
  }

  ghost predicate NoSharedFile(tasks: seq<Task>)
  {
    forall x, y, file | x in ActivePaths(tasks) && y in ActivePaths(tasks) && Within(file, x.1) && Within(file, y.1) :: x.0 == y.0
  }

  /** For active scopes in normal form the gate passes exactly when no file lies in the
      scopes of two differently named tasks. */
  lemma ScopesApartIff(tasks: seq<Task>)
    requires ScopesNormal(tasks)
    ensures ScopesApart(tasks) <==> NoSharedFile(tasks)
  {
    hide ActivePaths, Overlap, Parts, NormalPath;
    forall x, y | x in ActivePaths(tasks) && y in ActivePaths(tasks)
      ensures Overlap(x.1, y.1) <==> Parts(x.1) <= Parts(y.1) || Parts(y.1) <= Parts(x.1)
    {
      OverlapIffNested(x.1, y.1);
    }
    if NoSharedFile(tasks) { NoFalseOverlap(tasks); }
  }

  /** No file lies in the active scopes of two differently named tasks. */
  lemma ActiveTasksDisjoint(repo: Repo, ledger: Ledger)
    requires Accepted(repo, ledger) && ScopesNormal(ledger.tasks)
    ensures NoSharedFile(ledger.tasks)
  {
    hide ItemsOk, ItemPlaced, SprintOk, ScopesApart, ScopesNormal, NoSharedFile;
    ScopesApartIff(ledger.tasks);
  }

  function TwoSpellings(): seq<Task>
  {
    [Task("A", true, true, ["src"]), Task("B", true, true, ["./src"])]
  }

  lemma TwoSpellingsActive()
    ensures ActivePaths(TwoSpellings()) == {("A", "src"), ("B", "./src")}
  {
    var tasks := TwoSpellings();
    assert StripSlashes("src") == "src" && StripSlashes("./src") == "./src";
    assert tasks[0].scope == ["src"] && tasks[1].scope == ["./src"];
    assert "src" in tasks[0].scope && "./src" in tasks[1].scope;
    assert tasks[0] in tasks && tasks[1] in tasks;
  }

  /** Another spelling of a scope is not recognised: the gate's activity checks pass two
      tasks that work on the same file. */
  lemma SpellingHidesOverlap()
    ensures TasksOk(TwoSpellings()) && ScopesApart(TwoSpellings()) && !NoSharedFile(TwoSpellings())
  {
    hide Parts, ActivePaths;
    TwoSpellingsActive();
    SpellingsOfOnePlace();
    var x, y := ("A", "src"), ("B", "./src");
    assert x in ActivePaths(TwoSpellings()) && y in ActivePaths(TwoSpellings());
    assert Within("src", x.1) && Within("src", y.1);
    assert !Overlap(x.1, y.1) && !Overlap(y.1, x.1) by {
      assert |"src"| < |"./src"| && ("src" + "/")[0] == 's' && "./src"[0] == '.';
    }
  }

  lemma SpellingsOfOnePlace()
    ensures Parts("src") == ["src"] && Parts("./src") == ["src"] && Join(["src"]) == "src"
  {
    SplitOfOnePart("src");
    SplitOfOnePart(".");
    SplitConcat(".", "src");
    assert "." + "/" + "src" == "./src";
    assert Filter(["src"]) == ["src"];
    assert [".", "src"][1..] == ["src"];
  }
}
