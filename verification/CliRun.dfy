/** `corelink run` as the requests it sends and the exit code it returns, against a
    fabric that may answer anything. */
module CliRun {
  import opened Common
  import opened Text

  datatype Request =
    | Acquire(image: string)
    | Execute(lease: string)
    | FetchKeys
    | Close(lease: string, succeeded: bool)
    | Cancel(lease: string)

  datatype Reply = TransportError | Response(status: nat, body: string)

  /** How response bodies are read, and the signature check. */
  datatype Codec = Codec(lease: string -> Option<string>, exit: string -> Option<int>,
                         keys: string -> Option<seq<string>>, verify: (string, string) -> Option<bool>)

  predicate IsPinned(image: string)
  {
    Contains(image, "@sha256:")
  }

  // ---------- what the replies say

  function OkBody(reply: Reply): Option<string>
  {
    if reply.Response? && reply.status == 200 then Some(reply.body) else None
  }

  function LeaseIn(c: Codec, reply: Reply): Option<string>
  {
    if OkBody(reply).Some? then c.lease(OkBody(reply).value) else None
  }

  function ExitIn(c: Codec, reply: Reply): Option<int>
  {
    if OkBody(reply).Some? then c.exit(OkBody(reply).value) else None
  }

  /** The attestation of an exec body under the first published key; None when the
      key set or the signature cannot be read. */
  function Attested(c: Codec, exec: Reply, keys: Reply): Option<bool>
    requires exec.Response?
  {
    if OkBody(keys).None? then None
    else match c.keys(OkBody(keys).value)
      case None => None
      case Some(list) => if list == [] then None else c.verify(exec.body, list[0])
  }

  // ---------- the command

  class Fabric {
    const replies: nat -> Reply
    var sent: seq<Request>

    constructor (replies: nat -> Reply)
      ensures this.replies == replies && sent == []
    {
      this.replies, sent := replies, [];
    }

    method Send(request: Request) returns (reply: Reply)
      modifies this
      ensures sent == old(sent) + [request] && reply == replies(|old(sent)|)
    {
      reply := replies(|sent|);
      sent := sent + [request];
    }
  }

  datatype Outcome = Outcome(exit: int, verified: bool)

  /** The steps after the acquire, as the replies from the `k`-th on decide them. */
  function AfterAcquire(c: Codec, replies: nat -> Reply, k: nat, noVerify: bool): Option<Outcome>
  {
    var exit := ExitIn(c, replies(k));
    if exit.None? then None
    else if noVerify then Some(Outcome(exit.value, false))
    else
      var verdict := Attested(c, replies(k), replies(k + 1));
      if verdict.None? then None else Some(Outcome(exit.value, verdict.value))
  }

  /** The requests they send, up to the close. */
  function StepsAfterAcquire(c: Codec, replies: nat -> Reply, k: nat, noVerify: bool, lease: string): seq<Request>
  {
    var outcome := AfterAcquire(c, replies, k, noVerify);
    [Execute(lease)]
    + (if ExitIn(c, replies(k)).Some? && !noVerify then [FetchKeys] else [])
    + (if outcome.Some? then [Close(lease, outcome.value.exit == 0)] else [])
  }

  method RunAfterAcquire(f: Fabric, c: Codec, lease: string, noVerify: bool) returns (r: Option<Outcome>)
    modifies f
    ensures r == AfterAcquire(c, f.replies, |old(f.sent)|, noVerify)
    ensures f.sent == old(f.sent) + StepsAfterAcquire(c, f.replies, |old(f.sent)|, noVerify, lease)
  {
    var exec := f.Send(Execute(lease));
    if exec.TransportError? || exec.status != 200 { return None; }
    var exit := c.exit(exec.body);
    if exit.None? { return None; }
    var verified := false;
    if !noVerify {
      var reply := f.Send(FetchKeys);
      if reply.TransportError? || reply.status != 200 { return None; }
      var keys := c.keys(reply.body);
      if keys.None? || keys.value == [] { return None; }
      var verdict := c.verify(exec.body, keys.value[0]);
      if verdict.None? { return None; }
      verified := verdict.value;
    }
    var closed := f.Send(Close(lease, exit.value == 0));
    return Some(Outcome(exit.value, verified));
  }

  function ExitCode(outcome: Option<Outcome>, noVerify: bool): int
  {
    if outcome.None? || (!noVerify && !outcome.value.verified) then 2
    else if outcome.value.exit != 0 then 1 else 0
  }

  /** Everything `run` sends for a pinned image when its first request is the `k`-th. */
  function Trace(c: Codec, replies: nat -> Reply, k: nat, image: string, noVerify: bool): seq<Request>
  {
    [Acquire(image)] +
    match LeaseIn(c, replies(k))
    case None => []
    case Some(lease) =>
      StepsAfterAcquire(c, replies, k + 1, noVerify, lease)
      + if AfterAcquire(c, replies, k + 1, noVerify).None? then [Cancel(lease)] else []
  }

  function Code(c: Codec, replies: nat -> Reply, k: nat, noVerify: bool): int
  {
    if LeaseIn(c, replies(k)).None? then 2 else ExitCode(AfterAcquire(c, replies, k + 1, noVerify), noVerify)
  }

  /** The process exit code; an error out of `run` exits with 2. */
  method CmdRun(f: Fabric, c: Codec, image: string, noVerify: bool) returns (code: int)
    modifies f
    ensures !Contains(image, "@sha256:") ==> code == 2 && f.sent == old(f.sent)
    ensures Contains(image, "@sha256:") ==> f.sent == old(f.sent) + Trace(c, f.replies, |old(f.sent)|, image, noVerify)
    ensures Contains(image, "@sha256:") ==> code == Code(c, f.replies, |old(f.sent)|, noVerify)
  {
    if !IsPinned(image) { return 2; }
    var reply := f.Send(Acquire(image));
    if reply.TransportError? || reply.status != 200 { return 2; }
    var lease := c.lease(reply.body);
    if lease.None? { return 2; }
    var outcome := RunAfterAcquire(f, c, lease.value, noVerify);
    match outcome
    case Some(o) =>
      code := if !noVerify && !o.verified then 2 else if o.exit != 0 then 1 else 0;
    case None =>
      var cancelled := f.Send(Cancel(lease.value));
      code := 2;
  }

  // ---------- what holds of every run

  /** A request to end the lease; what the fabric makes of it, the client does not look at. */
  predicate AsksToEnd(r: Request, lease: string)
  {
    r == Cancel(lease) || r == Close(lease, true) || r == Close(lease, false)
  }

  /** A run that read a lease id sends one exec for it and, last of all, asks once to
      close or cancel it; a close reports the check's own result. */
  lemma LeaseEndRequested(c: Codec, replies: nat -> Reply, k: nat, image: string, noVerify: bool, lease: string)
    requires LeaseIn(c, replies(k)) == Some(lease)
    ensures var t := Trace(c, replies, k, image, noVerify);
      && 3 <= |t| <= 4 && t[0] == Acquire(image) && t[1] == Execute(lease)
      && (forall i | 0 <= i < |t| :: AsksToEnd(t[i], lease) <==> i == |t| - 1)
      && (forall i | 0 <= i < |t| :: t[i].Execute? <==> i == 1)
      && (forall i | 0 < i < |t| && !t[i].FetchKeys? :: t[i].lease == lease)
      && (|t| == 4 <==> ExitIn(c, replies(k + 1)).Some? && !noVerify) && (|t| == 4 ==> t[2] == FetchKeys)
      && (t[|t| - 1].Close? <==>
            ExitIn(c, replies(k + 1)).Some? && (noVerify || Attested(c, replies(k + 1), replies(k + 2)).Some?))
      && (t[|t| - 1].Close? ==> (t[|t| - 1].succeeded <==> ExitIn(c, replies(k + 1)) == Some(0)))
  {
  }

  /** An acquire is followed by a close or cancel request exactly when its answer was a
      200 whose body holds a lease id; no request ever names a grant in another answer. */
  lemma EndRequestedIffLeaseRead(c: Codec, replies: nat -> Reply, k: nat, image: string, noVerify: bool)
    ensures var t := Trace(c, replies, k, image, noVerify);
      (exists i, lease :: 0 <= i < |t| && AsksToEnd(t[i], lease)) <==> LeaseIn(c, replies(k)).Some?
  {
    var t := Trace(c, replies, k, image, noVerify);
    match LeaseIn(c, replies(k))
    case None => assert t == [Acquire(image)];
    case Some(lease) =>
      LeaseEndRequested(c, replies, k, image, noVerify, lease);
      assert AsksToEnd(t[|t| - 1], lease);
  }

  /** The acquire and the exec were answered with status 200 and readable bodies, the
      check ran with this result, and the first published key verifies it, unless
      verification was waived. */
  ghost predicate Ran(c: Codec, replies: nat -> Reply, k: nat, noVerify: bool, exit: int)
  {
    var acquire, exec, keys := replies(k), replies(k + 1), replies(k + 2);
    && acquire.Response? && acquire.status == 200 && c.lease(acquire.body).Some?
    && exec.Response? && exec.status == 200 && c.exit(exec.body) == Some(exit)
    && (noVerify ||
        (&& keys.Response? && keys.status == 200 && c.keys(keys.body).Some? && c.keys(keys.body).value != []
         && c.verify(exec.body, c.keys(keys.body).value[0]) == Some(true)))
  }

  /** The exit-code law: 0 and 1 report the check's result and need a verified
      signature unless verification was waived; everything else is 2. */
  lemma ExitCodeLaw(c: Codec, replies: nat -> Reply, k: nat, noVerify: bool)
    ensures var code := Code(c, replies, k, noVerify);
      && (code == 0 <==> Ran(c, replies, k, noVerify, 0))
      && (code == 1 <==> exists exit :: exit != 0 && Ran(c, replies, k, noVerify, exit))
      && (code == 2 <==> forall exit :: !Ran(c, replies, k, noVerify, exit))
  {
    var exit := ExitIn(c, replies(k + 1));
    assert forall x | Ran(c, replies, k, noVerify, x) :: exit == Some(x);
    if Code(c, replies, k, noVerify) != 2 { assert Ran(c, replies, k, noVerify, exit.value); }
  }

  /** A lease is read from an answer with status 200, and from no other. */
  lemma LeaseReadIff(c: Codec, reply: Reply, lease: string)
    ensures LeaseIn(c, reply) == Some(lease) <==> reply.Response? && reply.status == 200 && c.lease(reply.body) == Some(lease)
  {
  }
}
