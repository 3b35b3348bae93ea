/** The Northflank job-run protocol: set the command, trigger a run, poll it, and
    never report a success the provider did not unambiguously report. */
module RunProtocol {
  import opened Common
  import opened Text
  import ShellJoin

  // ---------- provider answers

  datatype Json =
    | Null
    | Bool(b: bool)
    | Number(n: real)
    | String(s: string)
    | Array(items: seq<Json>)
    | Object(fields: seq<Field>)

  datatype Field = Field(key: string, value: Json)

  /** A response body and what it parses to. */
  datatype Body = Body(raw: string, json: Option<Json>)

  datatype Reply = TransportError | Reply(status: nat, body: Body)

  datatype Verb = Get | Post | Patch

  datatype Request = Request(verb: Verb, url: string, command: Option<string>)

  datatype Fault = Transport | Capacity | Fatal | BadRunId | Stuck

  datatype Outcome = Exit(code: int) | Failed(fault: Fault)

  datatype Answer = Accepted(body: Body) | Refused(fault: Fault)

  const QUOTA_PHRASE: string := "exceeds your project resource allowance"

  predicate IsCapacityError(status: nat, raw: string)
  {
    status == 429 || status == 503 || (status == 400 && Contains(raw, QUOTA_PHRASE))
  }

  /** What `send_2xx` makes of a reply. */
  function Checked(reply: Reply): Answer
  {
    match reply
    case TransportError => Refused(Transport)
    case Reply(status, body) =>
      if 200 <= status < 300 then Accepted(body)
      else if IsCapacityError(status, body.raw) then Refused(Capacity)
      else Refused(Fatal)
  }

  /** The reply is there and its status is a success. */
  predicate Ok(reply: Reply)
  {
    reply.Reply? && 200 <= reply.status <= 299
  }

  /** What is wrong with a reply, if anything is. */
  predicate HasFault(reply: Reply, fault: Fault)
  {
    match reply
    case TransportError => fault == Transport
    case Reply(status, body) =>
      && !(200 <= status <= 299)
      && fault == if status == 429 || status == 503
                     || (status == 400 && Contains(body.raw, "exceeds your project resource allowance"))
                  then Capacity else Fatal
  }

  lemma CheckedIff(reply: Reply)
    ensures forall body :: Checked(reply) == Accepted(body) <==> Ok(reply) && reply.body == body
    ensures forall fault :: Checked(reply) == Refused(fault) <==> HasFault(reply, fault)
  {
  }

  // ---------- status classification

  function UpperChar(c: char): char
  {
    if 'a' <= c <= 'z' then c - 'a' + 'A' else c
  }

  function Upper(s: string): (u: string)
    ensures |u| == |s|
    ensures forall i | 0 <= i < |s| :: u[i] == if 'a' <= s[i] <= 'z' then (s[i] as int - 32) as char else s[i]
  {
    seq(|s|, i requires 0 <= i < |s| => UpperChar(s[i]))
  }

  const SUCCESS_STATUS: string := "SUCCESS"
  const FAIL_TOKENS: seq<string> := ["FAILED", "FAILURE", "ERROR", "CRASHED", "CANCELLED"]

  /** Some string value of the tree, at any depth, upper-cases to `t`; keys, numbers
      and truth values say nothing. */
  ghost predicate Says(v: Json, t: string)
  {
    match v
    case String(s) => Upper(s) == t
    case Array(items) => exists i :: 0 <= i < |items| && Says(items[i], t)
    case Object(fields) => exists i :: 0 <= i < |fields| && Says(fields[i].value, t)
    case _ => false
  }

  /** The value at the end of a path of positions. */
  function At(v: Json, path: seq<nat>): Option<Json>
    decreases path
  {
    if path == [] then Some(v)
    else match v
      case Array(items) => if path[0] < |items| then At(items[path[0]], path[1..]) else None
      case Object(fields) => if path[0] < |fields| then At(fields[path[0]].value, path[1..]) else None
      case _ => None
  }

  ghost predicate SaysAt(v: Json, path: seq<nat>, t: string)
  {
    var x := At(v, path);
    x.Some? && x.value.String? && Upper(x.value.s) == t
  }

  lemma {:induction false} SaysSomewhere(v: Json, t: string) returns (path: seq<nat>)
    requires Says(v, t)
    ensures SaysAt(v, path, t)
  {
    match v
    case String(s) => path := [];
    case Array(items) =>
      var i :| 0 <= i < |items| && Says(items[i], t);
      var rest := SaysSomewhere(items[i], t);
      path := [i] + rest;
      assert path[1..] == rest;
    case Object(fields) =>
      var i :| 0 <= i < |fields| && Says(fields[i].value, t);
      var rest := SaysSomewhere(fields[i].value, t);
      path := [i] + rest;
      assert path[1..] == rest;
  }

  lemma {:induction false} SomewhereSays(v: Json, path: seq<nat>, t: string)
    requires SaysAt(v, path, t)
    ensures Says(v, t)
    decreases path
  {
    if path != [] {
      match v
      case Array(items) => SomewhereSays(items[path[0]], path[1..], t);
      case Object(fields) => SomewhereSays(fields[path[0]].value, path[1..], t);
      case _ =>
    }
  }

  /** A tree says a text when some path leads to a string that upper-cases to it. */
  lemma SaysIff(v: Json, t: string)
    ensures Says(v, t) <==> exists path :: SaysAt(v, path, t)
  {
    hide Says, SaysAt;
    if Says(v, t) { var path := SaysSomewhere(v, t); }
    if path :| SaysAt(v, path, t) { SomewhereSays(v, path, t); }
  }

  ghost predicate SaysFailure(v: Json)
  {
    exists t :: t in FAIL_TOKENS && Says(v, t)
  }

  datatype RunState = Running | Succeeded | Failure

  /** Success takes an exact success value and no failure value anywhere; whatever
      is neither is still running. */
  ghost function StateOf(body: Body): RunState
  {
    match body.json
    case None => Running
    case Some(v) =>
      if SaysFailure(v) then Failure else if Says(v, SUCCESS_STATUS) then Succeeded else Running
  }

  method StringValues(v: Json, out: seq<string>) returns (values: seq<string>)
    ensures forall t :: t in values <==> t in out || Says(v, t)
    decreases v
  {
    values := out;
    match v
    case String(s) => values := values + [Upper(s)];
    case Array(items) =>
      for i := 0 to |items|
        invariant forall t :: t in values <==> t in out || exists k :: 0 <= k < i && Says(items[k], t)
      {
        values := StringValues(items[i], values);
      }
    case Object(fields) =>
      for i := 0 to |fields|
        invariant forall t :: t in values <==> t in out || exists k :: 0 <= k < i && Says(fields[k].value, t)
      {
        values := StringValues(fields[i].value, values);
      }
    case _ =>
  }

  method ClassifyRunStatus(body: Body) returns (state: RunState)
    ensures state == StateOf(body)
  {
    if body.json.None? { return Running; }
    var values := StringValues(body.json.value, []);
    if exists t | t in values :: t in FAIL_TOKENS {
      state := Failure;
    } else if SUCCESS_STATUS in values {
      state := Succeeded;
    } else {
      state := Running;
    }
  }

  // ---------- run ids

  predicate PathSafe(id: string)
  {
    id != "" && forall c | c in id :: 'a' <= c <= 'z' || 'A' <= c <= 'Z' || '0' <= c <= '9' || c == '-' || c == '_'
  }

  /** A parsed object has one field per key. */
  function Lookup(v: Json, key: string): Option<Json>
  {
    if v.Object? then LookupField(v.fields, key) else None
  }

  function LookupField(fields: seq<Field>, key: string): Option<Json>
  {
    if fields == [] then None
    else
      var last := fields[|fields| - 1];
      if last.key == key then Some(last.value) else LookupField(fields[..|fields| - 1], key)
  }

  function ParseId(body: Body): (id: Option<string>)
    ensures id.Some? ==> PathSafe(id.value)
  {
    if body.json.None? then None
    else
      var data := Lookup(body.json.value, "data");
      if data.None? then None
      else
        var id := Lookup(data.value, "id");
        if id.Some? && id.value.String? && PathSafe(id.value.s) then Some(id.value.s) else None
  }

  /** The object has this value under the key; of repeated keys the last counts. */
  ghost predicate HasField(v: Json, key: string, x: Json)
  {
    v.Object? && exists i :: 0 <= i < |v.fields| && v.fields[i] == Field(key, x) && LastWithKey(v.fields, i, key)
  }

  predicate LastWithKey(fields: seq<Field>, i: int, key: string)
  {
    forall k | 0 <= k < |fields| && i < k :: fields[k].key != key
  }

  lemma {:induction false} LookupFieldIff(fields: seq<Field>, key: string, x: Json)
    ensures LookupField(fields, key) == Some(x) <==>
            exists i :: 0 <= i < |fields| && fields[i] == Field(key, x) && LastWithKey(fields, i, key)
  {
    if fields != [] {
      var n := |fields| - 1;
      var init := fields[..n];
      LookupFieldIff(init, key, x);
      if i :| 0 <= i < n && init[i] == Field(key, x) && LastWithKey(init, i, key) {
        if fields[n].key != key {
          forall k | 0 <= k < |fields| && i < k ensures fields[k].key != key { assert k < n ==> init[k] == fields[k]; }
          assert fields[i] == Field(key, x) && LastWithKey(fields, i, key);
        }
      }
      if i :| 0 <= i < |fields| && fields[i] == Field(key, x) && LastWithKey(fields, i, key) {
        if i < n {
          assert fields[n].key != key;
          assert init[i] == Field(key, x) && LastWithKey(init, i, key);
        } else {
          assert fields[n] == Field(key, x);
        }
      }
      if LookupField(fields, key) == Some(x) && fields[n].key == key {
        assert fields[n] == Field(key, x) && LastWithKey(fields, n, key);
      }
    }
  }

  lemma LookupIff(v: Json, key: string, x: Json)
    ensures Lookup(v, key) == Some(x) <==> HasField(v, key, x)
  {
    if v.Object? { LookupFieldIff(v.fields, key, x); }
  }

  /** The run id is the string under `id` of the value under `data`, if it is path-safe. */
  lemma ParseIdIff(body: Body, id: string)
    ensures ParseId(body) == Some(id) <==>
            && body.json.Some? && PathSafe(id)
            && exists data :: HasField(body.json.value, "data", data) && HasField(data, "id", String(id))
  {
    hide HasField, PathSafe, Lookup;
    if body.json.Some? {
      var v := body.json.value;
      forall x ensures Lookup(v, "data") == Some(x) <==> HasField(v, "data", x) { LookupIff(v, "data", x); }
      var data := Lookup(v, "data");
      if data.Some? {
        forall x ensures Lookup(data.value, "id") == Some(x) <==> HasField(data.value, "id", x) {
          LookupIff(data.value, "id", x);
        }
      }
    }
  }

  /** An accepted run id adds exactly one segment, with nothing that could end the
      path early: a poll cannot be steered to another resource. */
  lemma PollStaysUnderRuns(runsUrl: string, id: string)
    requires PathSafe(id)
    ensures Split(runsUrl + "/" + id) == Split(runsUrl) + [id]
    ensures '?' !in id && '#' !in id && '%' !in id && '.' !in id
  {
    SplitConcat(runsUrl, id);
    SplitOfOnePart(id);
  }

  // ---------- the protocol

  /** A provider that may answer anything: the n-th request gets the n-th reply. */
  class Provider {
    const replies: nat -> Reply
    var sent: seq<Request>

    constructor (replies: nat -> Reply)
      ensures this.replies == replies && sent == []
    {
      this.replies, sent := replies, [];
    }

    method Send(request: Request) returns (answer: Answer)
      modifies this
      ensures sent == old(sent) + [request]
      ensures answer == Checked(replies(|old(sent)|))
    {
      answer := Checked(replies(|sent|));
      sent := sent + [request];
    }
  }

  /** Polls up to a budget, starting with reply `k`. */
  ghost function PollOutcome(replies: nat -> Reply, k: nat, budget: nat): Outcome
    decreases budget
  {
    if budget == 0 then Failed(Stuck)
    else match Checked(replies(k))
      case Refused(fault) => Failed(fault)
      case Accepted(body) =>
        match StateOf(body)
        case Running => PollOutcome(replies, k + 1, budget - 1)
        case Succeeded => Exit(0)
        case Failure => Exit(1)
  }

  ghost function RunOutcome(replies: nat -> Reply, k: nat, budget: nat): Outcome
  {
    match Checked(replies(k))
    case Refused(fault) => Failed(fault)
    case Accepted(body) =>
      if ParseId(body).None? then Failed(BadRunId) else PollOutcome(replies, k + 1, budget)
  }

  ghost predicate StillRunning(replies: nat -> Reply, k: nat)
  {
    Ok(replies(k)) && StateOf(replies(k).body) == Running
  }

  /** How many polls that takes. */
  ghost function PollCount(replies: nat -> Reply, k: nat, budget: nat): (n: nat)
    ensures n <= budget
    decreases budget
  {
    if budget == 0 then 0
    else 1 + if StillRunning(replies, k) then PollCount(replies, k + 1, budget - 1) else 0
  }

  /** Polling goes on exactly while it is answered "still running" and the budget lasts. */
  lemma {:induction false} PollCountIs(replies: nat -> Reply, k: nat, budget: nat)
    ensures var n := PollCount(replies, k, budget);
      && (budget > 0 ==> n > 0) && (forall i | k <= i < k + n - 1 :: StillRunning(replies, i))
      && (n == budget || !StillRunning(replies, k + n - 1))
    decreases budget
  {
    hide StillRunning;
    if budget > 0 { PollCountIs(replies, k + 1, budget - 1); }
  }

  method Poll(p: Provider, request: Request, maxPolls: nat) returns (outcome: Outcome)
    modifies p
    ensures outcome == PollOutcome(p.replies, |old(p.sent)|, maxPolls)
    ensures p.sent == old(p.sent) + Repeat(request, PollCount(p.replies, |old(p.sent)|, maxPolls))
  {
    hide StateOf, Checked;
    ghost var start := |p.sent|;
    for i := 0 to maxPolls
      invariant p.sent == old(p.sent) + Repeat(request, i)
      invariant PollOutcome(p.replies, start + i, maxPolls - i) == PollOutcome(p.replies, start, maxPolls)
      invariant i + PollCount(p.replies, start + i, maxPolls - i) == PollCount(p.replies, start, maxPolls)
    {
      var answer := p.Send(request);
      CheckedIff(p.replies(start + i));
      assert Repeat(request, i) + [request] == Repeat(request, i + 1);
      if answer.Refused? { return Failed(answer.fault); }
      var state := ClassifyRunStatus(answer.body);
      match state
      case Running =>
      case Succeeded => return Exit(0);
      case Failure => return Exit(1);
    }
    return Failed(Stuck);
  }

  function Repeat(request: Request, n: nat): (trace: seq<Request>)
    ensures |trace| == n && forall i | 0 <= i < n :: trace[i] == request
  {
    if n == 0 then [] else Repeat(request, n - 1) + [request]
  }

  /** One trigger, then the polls of the run it started, if it started one. */
  ghost function RunTrace(replies: nat -> Reply, k: nat, runsUrl: string, maxPolls: nat): seq<Request>
  {
    var answer := Checked(replies(k));
    [Request(Post, runsUrl, None)] +
    if answer.Accepted? && ParseId(answer.body).Some? then
      Repeat(Request(Get, runsUrl + "/" + ParseId(answer.body).value, None), PollCount(replies, k + 1, maxPolls))
    else []
  }

  method RunToCompletion(p: Provider, jobUrl: string, maxPolls: nat) returns (outcome: Outcome)
    modifies p
    ensures outcome == RunOutcome(p.replies, |old(p.sent)|, maxPolls)
    ensures p.sent == old(p.sent) + RunTrace(p.replies, |old(p.sent)|, jobUrl + "/runs", maxPolls)
  {
    hide StateOf, ParseId, PathSafe, Repeat, PollCount, PollOutcome;
    var runsUrl := jobUrl + "/runs";
    var started := p.Send(Request(Post, runsUrl, None));
    if started.Refused? { return Failed(started.fault); }
    var runId := ParseId(started.body);
    if runId.None? { return Failed(BadRunId); }
    outcome := Poll(p, Request(Get, runsUrl + "/" + runId.value, None), maxPolls);
  }

  /** `exec`: the command first, which the shell reads back as `argv`, and the run
      only if it was accepted. */
  method Exec(p: Provider, jobUrl: string, argv: seq<string>, maxPolls: nat) returns (outcome: Outcome)
    modifies p
    ensures ShellJoin.Words(ShellJoin.Join(argv)) == Some(argv)
    ensures var start := |old(p.sent)|;
      var command := Request(Patch, jobUrl, Some(ShellJoin.Join(argv)));
      match Checked(p.replies(start)) {
        case Refused(fault) => outcome == Failed(fault) && p.sent == old(p.sent) + [command]
        case Accepted(_) =>
          && outcome == RunOutcome(p.replies, start + 1, maxPolls)
          && p.sent == old(p.sent) + [command] + RunTrace(p.replies, start + 1, jobUrl + "/runs", maxPolls)
      }
  {
    hide RunTrace, RunOutcome;
    ShellJoin.ShellRoundTrip(argv);
    var stored := p.Send(Request(Patch, jobUrl, Some(ShellJoin.Join(argv))));
    if stored.Refused? { return Failed(stored.fault); }
    outcome := RunToCompletion(p, jobUrl, maxPolls);
  }

  // ---------- fail-closed

  /** Reply `m` is the first from `k` on that is not "still running", and it has this state. */
  ghost predicate FirstTerminal(replies: nat -> Reply, k: nat, m: nat, state: RunState)
  {
    && k <= m && (forall i | k <= i < m :: StillRunning(replies, i))
    && Ok(replies(m)) && StateOf(replies(m).body) == state
  }

  ghost predicate TerminatesWithin(replies: nat -> Reply, k: nat, budget: nat, state: RunState)
  {
    exists m: nat :: m < k + budget && FirstTerminal(replies, k, m, state)
  }

  lemma {:induction false} PollExit(replies: nat -> Reply, k: nat, budget: nat, state: RunState, code: int)
    requires (state == Succeeded && code == 0) || (state == Failure && code == 1)
    ensures PollOutcome(replies, k, budget) == Exit(code) <==> TerminatesWithin(replies, k, budget, state)
    decreases budget
  {
    if budget > 0 {
      PollExit(replies, k + 1, budget - 1, state, code);
      if m: nat :| m < k + budget && FirstTerminal(replies, k, m, state) {
        if m > k { assert StillRunning(replies, k) && FirstTerminal(replies, k + 1, m, state); }
      }
      if StillRunning(replies, k) {
        var next := k + 1;
        if m: nat :| m < next + (budget - 1) && FirstTerminal(replies, next, m, state) {
          assert FirstTerminal(replies, k, m, state);
        }
      } else if PollOutcome(replies, k, budget) == Exit(code) {
        assert FirstTerminal(replies, k, k, state);
      }
    }
  }

  /** Reply `m` is the first from `k` on that is not "still running", and it has this fault. */
  ghost predicate FirstFault(replies: nat -> Reply, k: nat, m: nat, fault: Fault)
  {
    k <= m && (forall i | k <= i < m :: StillRunning(replies, i)) && HasFault(replies(m), fault)
  }

  ghost predicate FaultsWithin(replies: nat -> Reply, k: nat, budget: nat, fault: Fault)
  {
    exists m: nat :: m < k + budget && FirstFault(replies, k, m, fault)
  }

  /** Polling fails with the fault of the first reply that is no success, if no terminal
      state came before it, and is stuck exactly when the whole budget is still running. */
  lemma {:induction false} PollFault(replies: nat -> Reply, k: nat, budget: nat, fault: Fault)
    ensures fault != Stuck ==> (PollOutcome(replies, k, budget) == Failed(fault) <==> FaultsWithin(replies, k, budget, fault))
    ensures PollOutcome(replies, k, budget) == Failed(Stuck) <==> forall i | k <= i < k + budget :: StillRunning(replies, i)
    decreases budget
  {
    hide StateOf, IsCapacityError;
    if budget > 0 {
      PollFault(replies, k + 1, budget - 1, fault);
      CheckedIff(replies(k));
      if m: nat :| m < k + budget && FirstFault(replies, k, m, fault) {
        if m > k { assert StillRunning(replies, k) && FirstFault(replies, k + 1, m, fault); }
      }
      if StillRunning(replies, k) {
        var next := k + 1;
        if m: nat :| m < next + (budget - 1) && FirstFault(replies, next, m, fault) {
          assert FirstFault(replies, k, m, fault);
        }
      } else if fault != Stuck && PollOutcome(replies, k, budget) == Failed(fault) {
        assert FirstFault(replies, k, k, fault);
      }
    }
  }

  /** Whatever the provider sends, a run exits 0 exactly when the trigger was answered
      with a success and a safe id, and of the polls within the budget the first that was
      not "still running" was a success whose JSON held an exact SUCCESS value and no
      failure value anywhere. Otherwise it exits 1 or fails. */
  lemma RunFailsClosed(replies: nat -> Reply, k: nat, budget: nat)
    ensures RunOutcome(replies, k, budget) == Exit(0) <==>
            Ok(replies(k)) && ParseId(replies(k).body).Some? && TerminatesWithin(replies, k + 1, budget, Succeeded)
    ensures RunOutcome(replies, k, budget).Exit? ==> RunOutcome(replies, k, budget).code in {0, 1}
    ensures forall body :: StateOf(body) == Succeeded <==>
              && body.json.Some? && Says(body.json.value, "SUCCESS")
              && forall t | t in ["FAILED", "FAILURE", "ERROR", "CRASHED", "CANCELLED"] :: !Says(body.json.value, t)
  {
    CheckedIff(replies(k));
    PollExit(replies, k + 1, budget, Succeeded, 0);
    PollCodes(replies, k + 1, budget);
  }

  lemma {:induction false} PollCodes(replies: nat -> Reply, k: nat, budget: nat)
    ensures PollOutcome(replies, k, budget).Exit? ==> PollOutcome(replies, k, budget).code in {0, 1}
    decreases budget
  {
    if budget > 0 { PollCodes(replies, k + 1, budget - 1); }
  }
}
