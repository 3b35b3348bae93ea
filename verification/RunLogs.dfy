/** The output of a Northflank run: `fetch_logs` sorts the provider's log lines into
    two streams, and `exec_captured` hands them out only after a finished run. */
module RunLogs {
  import opened Common
  import opened RunProtocol
  import ShellJoin

  // ---------- one log line

  datatype Stream = Stdout | Stderr

  datatype Line = Line(stream: Stream, text: string)

  function StreamName(stream: Stream): string
  {
    match stream
    case Stdout => "stdout"
    case Stderr => "stderr"
  }

  function FirstSpace(s: string): (i: nat)
    ensures i <= |s| && ' ' !in s[..i] && (i < |s| ==> s[i] == ' ')
  {
    if s == "" || s[0] == ' ' then 0
    else
      var i := 1 + FirstSpace(s[1..]);
      assert s[..i] == [s[0]] + s[1..][..i - 1];
      i
  }

  /** `s.splitn(n, ' ')` */
  function SplitN(s: string, n: nat): (parts: seq<string>)
    requires n >= 1
    ensures 1 <= |parts| <= n
  {
    var i := FirstSpace(s);
    if n == 1 || i == |s| then [s] else [s[..i]] + SplitN(s[i + 1..], n - 1)
  }

  /** Where a line goes: the message of a container log line to its stream, anything
      else, whole, to standard output. */
  function Route(log: string): Line
  {
    var parts := SplitN(log, 4);
    if |parts| == 4 && parts[1] == "stdout" then Line(Stdout, parts[3])
    else if |parts| == 4 && parts[1] == "stderr" then Line(Stderr, parts[3])
    else Line(Stdout, log)
  }

  /** The container runtime's format: time, stream, flag and message. */
  function Format(ts: string, stream: Stream, flag: string, message: string): string
  {
    ts + " " + (StreamName(stream) + " " + (flag + " " + message))
  }

  ghost predicate IsFormatted(log: string, line: Line)
  {
    exists ts, flag :: ' ' !in ts && ' ' !in flag && log == Format(ts, line.stream, flag, line.text)
  }

  lemma {:induction false} FirstSpaceAt(head: string, rest: string)
    requires ' ' !in head
    ensures FirstSpace(head + " " + rest) == |head|
  {
    var s := head + " " + rest;
    if head != "" {
      assert s[1..] == head[1..] + " " + rest;
      FirstSpaceAt(head[1..], rest);
    }
  }

  lemma CutFirst(head: string, rest: string, n: nat)
    requires ' ' !in head && n >= 2
    ensures SplitN(head + " " + rest, n) == [head] + SplitN(rest, n - 1)
  {
    FirstSpaceAt(head, rest);
    var s := head + " " + rest;
    assert s[..|head|] == head && s[|head| + 1..] == rest;
  }

  lemma FormattedSplits(ts: string, stream: Stream, flag: string, message: string)
    requires ' ' !in ts && ' ' !in flag
    ensures SplitN(Format(ts, stream, flag, message), 4) == [ts, StreamName(stream), flag, message]
  {
    hide SplitN;
    var name := StreamName(stream);
    CutFirst(ts, name + " " + (flag + " " + message), 4);
    CutFirst(name, flag + " " + message, 3);
    CutFirst(flag, message, 2);
    OnePart(message);
  }

  lemma OnePart(s: string)
    ensures SplitN(s, 1) == [s]
  {
  }

  lemma CutBack(s: string, n: nat) returns (head: string, rest: string)
    requires n >= 2 && |SplitN(s, n)| >= 2
    ensures ' ' !in head && s == head + " " + rest && SplitN(s, n) == [head] + SplitN(rest, n - 1)
  {
    var i := FirstSpace(s);
    head, rest := s[..i], s[i + 1..];
    assert s == s[..i] + [s[i]] + s[i + 1..];
  }

  lemma SplitsFormatted(log: string)
    requires |SplitN(log, 4)| == 4
    ensures var p := SplitN(log, 4); ' ' !in p[0] && ' ' !in p[2] && log == p[0] + " " + (p[1] + " " + (p[2] + " " + p[3]))
  {
    hide SplitN;
    var ts, rest := CutBack(log, 4);
    var name, last := CutBack(rest, 3);
    var flag, message := CutBack(last, 2);
    OnePart(message);
    assert SplitN(log, 4) == [ts, name, flag, message];
  }

  /** A formatted line, whatever its message, gives that message on that stream; any
      other line goes to standard output as it is. */
  lemma RouteReadsFormat(log: string)
    ensures forall line | IsFormatted(log, line) :: Route(log) == line
    ensures (forall line :: !IsFormatted(log, line)) ==> Route(log) == Line(Stdout, log)
  {
    hide SplitN;
    forall line | IsFormatted(log, line) ensures Route(log) == line {
      var ts, flag :| ' ' !in ts && ' ' !in flag && log == Format(ts, line.stream, flag, line.text);
      FormattedSplits(ts, line.stream, flag, line.text);
    }
    var p := SplitN(log, 4);
    if |p| == 4 && (p[1] == "stdout" || p[1] == "stderr") {
      SplitsFormatted(log);
      assert log == Format(p[0], Route(log).stream, p[2], p[3]);
      assert IsFormatted(log, Route(log));
    }
  }

  // ---------- the two streams

  function LogOf(entry: Json): Option<string>
  {
    var log := Lookup(entry, "log");
    if log.Some? && log.value.String? then Some(log.value.s) else None
  }

  /** The lines of the entries that hold a text, in order. */
  function Lines(entries: seq<Json>): seq<Line>
  {
    if entries == [] then []
    else
      var last := LogOf(entries[|entries| - 1]);
      Lines(entries[..|entries| - 1]) + if last.Some? then [Route(last.value)] else []
  }

  /** What one stream gets of them. */
  function On(lines: seq<Line>, stream: Stream): seq<string>
  {
    if lines == [] then []
    else
      var last := lines[|lines| - 1];
      On(lines[..|lines| - 1], stream) + if last.stream == stream then [last.text] else []
  }

  lemma OnStep(lines: seq<Line>, line: Line, stream: Stream)
    ensures On(lines + [line], stream) == On(lines, stream) + if line.stream == stream then [line.text] else []
  {
    assert (lines + [line])[..|lines|] == lines;
  }

  lemma LinesStep(entries: seq<Json>, i: nat)
    requires i < |entries|
    ensures var before := Lines(entries[..i]); var log := LogOf(entries[i]);
      Lines(entries[..i + 1]) == if log.Some? then before + [Route(log.value)] else before
  {
    assert entries[..i + 1][..i] == entries[..i];
  }

  lemma NoLines()
    ensures Lines([]) == [] && forall stream :: On([], stream) == []
  {
  }

  method SortLines(entries: seq<Json>) returns (stdout: seq<string>, stderr: seq<string>)
    ensures stdout == On(Lines(entries), Stdout) && stderr == On(Lines(entries), Stderr)
  {
    hide SplitN, LogOf, Lines, On;
    NoLines();
    assert entries[..0] == [];
    stdout, stderr := [], [];
    for i := 0 to |entries|
      invariant stdout == On(Lines(entries[..i]), Stdout) && stderr == On(Lines(entries[..i]), Stderr)
    {
      var log := LogOf(entries[i]);
      LinesStep(entries, i);
      if log.None? { continue; }
      var parts := SplitN(log.value, 4);
      OnStep(Lines(entries[..i]), Route(log.value), Stdout);
      OnStep(Lines(entries[..i]), Route(log.value), Stderr);
      if |parts| == 4 && parts[1] == "stdout" {
        stdout := stdout + [parts[3]];
      } else if |parts| == 4 && parts[1] == "stderr" {
        stderr := stderr + [parts[3]];
      } else {
        stdout := stdout + [log.value];
      }
    }
    assert entries[..|entries|] == entries;
  }

  /** Nothing is lost, doubled or reordered: the streams together have as many lines as
      there were, and line `i` stands on its stream right after the earlier ones of
      that stream. */
  lemma {:induction false} EveryLineOnce(lines: seq<Line>, i: nat)
    requires i < |lines|
    ensures |On(lines, Stdout)| + |On(lines, Stderr)| == |lines|
    ensures var own := On(lines, lines[i].stream); var before := On(lines[..i], lines[i].stream);
      before + [lines[i].text] <= own
  {
    var n := |lines| - 1;
    if i < n {
      EveryLineOnce(lines[..n], i);
      assert lines[..n][..i] == lines[..i];
    } else if n > 0 {
      EveryLineOnce(lines[..n], 0);
    }
  }

  // ---------- fetching them

  function JoinLines(lines: seq<string>): string
  {
    if lines == [] then "" else if |lines| == 1 then lines[0] else lines[0] + "\n" + JoinLines(lines[1..])
  }

  function Entries(body: Body): Option<seq<Json>>
  {
    if body.json.None? then None
    else
      var data := Lookup(body.json.value, "data");
      if data.Some? && data.value.Array? then Some(data.value.items) else None
  }

  datatype Logs = Logs(stdout: string, stderr: string)

  /** What a log answer means; a body of another shape is standard output, verbatim. */
  function LogsIn(body: Body): Logs
  {
    match Entries(body)
    case None => Logs(body.raw, "")
    case Some(entries) => Logs(JoinLines(On(Lines(entries), Stdout)), JoinLines(On(Lines(entries), Stderr)))
  }

  /** The logs of an object with a list of entries under `data` are the lines of each
      stream; any other body is standard output. */
  lemma LogsInIff(body: Body)
    ensures forall entries | body.json.Some? && HasField(body.json.value, "data", Array(entries)) ::
              LogsIn(body) == Logs(JoinLines(On(Lines(entries), Stdout)), JoinLines(On(Lines(entries), Stderr)))
    ensures (forall entries :: !(body.json.Some? && HasField(body.json.value, "data", Array(entries)))) ==>
              LogsIn(body) == Logs(body.raw, "")
  {
    hide HasField, Lookup, Lines, On;
    if body.json.Some? {
      forall x ensures Lookup(body.json.value, "data") == Some(x) <==> HasField(body.json.value, "data", x) {
        LookupIff(body.json.value, "data", x);
      }
    }
  }

  /** Only an entry with a text under `log` has a line. */
  lemma LogOfIff(entry: Json, log: string)
    ensures LogOf(entry) == Some(log) <==> HasField(entry, "log", String(log))
  {
    LookupIff(entry, "log", String(log));
  }

  /** Lines are joined by newlines, in order. */
  lemma {:induction false} JoinLinesConcat(a: seq<string>, b: seq<string>)
    requires a != [] && b != []
    ensures JoinLines(a + b) == JoinLines(a) + "\n" + JoinLines(b)
    ensures |a| == 1 ==> JoinLines(a) == a[0]
  {
    assert (a + b)[0] == a[0];
    if |a| == 1 {
      assert (a + b)[1..] == b;
    } else {
      assert (a + b)[1..] == a[1..] + b;
      JoinLinesConcat(a[1..], b);
    }
  }

  datatype Fetched = Fetched(logs: Logs) | Unavailable(fault: Fault)

  function FetchedFrom(reply: Reply): Fetched
  {
    match Checked(reply)
    case Refused(fault) => Unavailable(fault)
    case Accepted(body) => Fetched(LogsIn(body))
  }

  method FetchLogs(p: Provider, jobUrl: string) returns (r: Fetched)
    modifies p
    ensures p.sent == old(p.sent) + [Request(Get, jobUrl + "/logs", None)]
    ensures r == FetchedFrom(p.replies(|old(p.sent)|))
  {
    var answer := p.Send(Request(Get, jobUrl + "/logs", None));
    if answer.Refused? { return Unavailable(answer.fault); }
    var entries := Entries(answer.body);
    if entries.None? { return Fetched(Logs(answer.body.raw, "")); }
    var stdout, stderr := SortLines(entries.value);
    return Fetched(Logs(JoinLines(stdout), JoinLines(stderr)));
  }

  // ---------- captured execution

  datatype Captured = Output(code: int, logs: Logs) | NoOutput(fault: Fault)

  /** The requests of `exec` when its first one gets reply `k`. */
  ghost function ExecTrace(replies: nat -> Reply, k: nat, jobUrl: string, argv: seq<string>, maxPolls: nat): seq<Request>
  {
    [Request(Patch, jobUrl, Some(ShellJoin.Join(argv)))]
    + if Checked(replies(k)).Accepted? then RunTrace(replies, k + 1, jobUrl + "/runs", maxPolls) else []
  }

  ghost function ExecOutcome(replies: nat -> Reply, k: nat, maxPolls: nat): Outcome
  {
    match Checked(replies(k))
    case Refused(fault) => Failed(fault)
    case Accepted(_) => RunOutcome(replies, k + 1, maxPolls)
  }

  /** The captured output: none unless the run exited and its logs were served. */
  ghost function CapturedFrom(replies: nat -> Reply, k: nat, jobUrl: string, argv: seq<string>, maxPolls: nat): Captured
  {
    match ExecOutcome(replies, k, maxPolls)
    case Failed(fault) => NoOutput(fault)
    case Exit(code) =>
      match FetchedFrom(replies(k + |ExecTrace(replies, k, jobUrl, argv, maxPolls)|))
      case Fetched(logs) => Output(code, logs)
      case Unavailable(fault) => NoOutput(fault)
  }

  method ExecCaptured(p: Provider, jobUrl: string, argv: seq<string>, maxPolls: nat) returns (r: Captured)
    modifies p
    ensures r == CapturedFrom(p.replies, |old(p.sent)|, jobUrl, argv, maxPolls)
    ensures p.sent == old(p.sent) + ExecTrace(p.replies, |old(p.sent)|, jobUrl, argv, maxPolls)
                      + if ExecOutcome(p.replies, |old(p.sent)|, maxPolls).Exit? then [Request(Get, jobUrl + "/logs", None)] else []
  {
    hide RunTrace, RunOutcome, FetchedFrom, Checked;
    ghost var before := p.sent;
    var outcome := Exec(p, jobUrl, argv, maxPolls);
    assert p.sent == before + ExecTrace(p.replies, |before|, jobUrl, argv, maxPolls);
    if outcome.Failed? { return NoOutput(outcome.fault); }
    var fetched := FetchLogs(p, jobUrl);
    match fetched
    case Fetched(logs) => r := Output(outcome.code, logs);
    case Unavailable(fault) => r := NoOutput(fault);
  }

  /** For every provider, output with exit code 0 means the command was accepted, the
      run started under a safe id, its first terminal answer was an unambiguous success
      within the budget, and the logs were served; and then it is given. */
  lemma OutputFailsClosed(replies: nat -> Reply, k: nat, jobUrl: string, argv: seq<string>, maxPolls: nat)
    ensures var r := CapturedFrom(replies, k, jobUrl, argv, maxPolls);
      var logs := replies(k + |ExecTrace(replies, k, jobUrl, argv, maxPolls)|);
      && (r.Output? ==> r.code in {0, 1} && Ok(logs) && r.logs == LogsIn(logs.body))
      && (r.Output? && r.code == 0 <==>
            && Ok(replies(k)) && Ok(replies(k + 1)) && ParseId(replies(k + 1).body).Some?
            && TerminatesWithin(replies, k + 2, maxPolls, Succeeded) && Ok(logs))
  {
    hide ExecTrace, TerminatesWithin, StateOf, ParseId, LogsIn;
    RunFailsClosed(replies, k + 1, maxPolls);
    CheckedIff(replies(k));
    CheckedIff(replies(k + |ExecTrace(replies, k, jobUrl, argv, maxPolls)|));
  }
}
