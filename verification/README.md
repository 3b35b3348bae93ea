# Verified model of corelink-runners' gates, encoders and run protocols

A Dafny 4.11 model of the parts of corelink-runners where a wrong answer is costly, with proofs of what
each of them promises. `dafny verify dfyconfig.toml` checks everything.

| file | models |
|---|---|
| `Text.dfy`, `Common.dfy` | `str.split("/")`, `sorted` over a set, relative `PurePosixPath`s, shared value types |
| `Glob.dfy` | `fnmatch` with character classes, the two-glob overlap test, carve-outs, write scopes |
| `GlobMeaning.dfy` | what patterns, atoms and the overlap test mean, by cutting and aligning |
| `GlobTable.dfy` | the memo table of the overlap test and `scope_overlap` |
| `Graph.dfy`, `Kahn.dfy`, `Reach.dfy` | predecessor graphs, the two capped schedulers, the two worklist searches |
| `Dispatch.dfy` | the dispatch-table gate and what an accepted table guarantees |
| `Binding.dfy` | the v2 result-binding pre-image and its decoder |
| `ShellJoin.dfy`, `JobName.dfy` | the shell rendering of an argument list, the job-name derivation |
| `RunProtocol.dfy`, `RunLogs.dfy` | trigger, bounded poll and classification of a Northflank run, and its captured output |
| `Oci.dfy` | the OCI archive verifier |
| `Ledger.dfy`, `DisjointPlan.dfy` | the delivery ledger gate, the disjoint execution plan gate |
| `GitLog.dfy` | how a printed list of file names is read back |
| `CliRun.dfy` | the requests and exit code of `corelink run` |
| `CheckExec.dfy` | the token comparison and bounded capture of the check-exec server |

The main results:

- **Parallel work cannot collide.** In an accepted dispatch table all packages that may write one path form a
  chain of transitive precedence, so no ready set holds two of them (`Dispatch.WritersFormAChain`,
  `Dispatch.ReadySetsAreWriteDisjoint`). This rests on the overlap test never missing a shared path
  (`Glob.OverlapConservative`), sound carve-outs, exact reachability and batch order.
- **That promise has a limit.** The overlap test compares the text after the last `*`, `?` or `[`, which is wrong
  when a character class reaches into it: `Dispatch.TrailingClassBreaksDisjointness` is an accepted table that
  collides. A shared path that is missed always has a segment matched by two different globs, one of each side,
  with tails neither of which ends the other; the theorems ask for two atoms without such a segment
  (`Glob.MeetOn`), which holds of every path if no class reaches into a tail (`Glob.TellingAtomsMeet`). For atoms
  without `**` that is exact: a shared path is missed if and only if such globs stand at the same depth
  (`Glob.OverlapIffNowhereSeparated`, and for whole tables `Dispatch.CollisionAcceptedIffSeparated`). What a path
  matches and what the test reports are also given without any recursion over patterns (`GlobMeaning.FnMatchIff`,
  `GlobMeaning.AtomMatchesIff`, `GlobMeaning.AtomsOverlapIff`).
- **The schedule is good.** 8 times the batches is at most n + 7L for a longest chain of L nodes, hence never more
  than 15/8 of what any capped schedule needs, which is Graham's bound; a stuck residual is a real cycle; both
  schedulers agree on every table.
- **Encodings are faithful.** The pre-image has every byte at its stated offset, is prefix-free, and only encodings
  decode; the POSIX shell reads
  `shell_join` back as the very argument list; two containers share a job name exactly when readable part and
  64 hash bits agree, and for every hash and every readable part two names of at most 97 characters do.
- **Protocols fail closed.** For every provider, a run exits 0 only on the first terminal answer being an
  unambiguous success, and output is handed out only after a run that exited and logs that were served, with no
  line lost, doubled or reordered. For every fabric, a `corelink run` that read a lease asks to end it with its last
  request.
- **Gates mean something.** A delivered sprint rests, transitively by the canonical registry, on settled work
  whose commits its own sprint's tip and merge contain; a reported OCI digest names hashed bytes of a closed graph.
- **Accepted candidates commute, as far as their logs can be read.** Candidates of different packets give the same
  tree in either order, on every tree, exactly when no edit whose path the gate does not read in the log conflicts
  with an edit of the other (`DisjointPlan.CandidatesCommuteIff`). Three things keep an edit out of sight: a log
  lists nothing for a merge commit, it lists a renamed file by its new name only, and the gate strips the whole
  output, which takes blanks off a name at its ends. `DisjointPlan.MergeHidesAnEdit`,
  `DisjointPlan.RenameHidesAnEdit` and `DisjointPlan.BlankHidesAnEdit` are accepted pairs, each from one base commit,
  whose order matters. `DisjointPlan.HiddenEditBreaksOrder` finds one, from the other packet's own baseline, for
  every hidden edit of a readable path that another dispatched packet may write with no file in its way.
  `DisjointPlan.NothingUnlistedIff` says exactly which histories are listed in full, and `GitLog.ReadsNamesIff`
  exactly which names are read as they are in every order of the lines, quoted ones not among them.

Where the code and its own documentation differ, the model follows the code. `northflank_job_name` is documented as
injective; `JobName.NeverInjective` shows that it is not for any hash, and `JobName.SameNameIff` gives the exact
collisions. `candidate_errors` is commented to inspect every commit; the last result above says what it does not see.
The ledger compares scopes by spelling; `Ledger.SpellingHidesOverlap` shows two tasks on one file, and
`Ledger.ScopesApartIff` that normal paths are compared exactly. `corelink run` is documented never to leak a lease;
`CliRun.EndRequestedIffLeaseRead` shows that it asks to end exactly the leases whose id it could read, and it ignores
the answer. `ct_eq` is documented as byte equality; `CheckExec.AcceptsIsEqualityIff` gives the exact inputs on which
it is.

Inputs the model takes as given: parsed table rows, ledgers, plans and JSON values; SHA-256, gzip and signature
checks as arbitrary functions; commits with their trees, parents and the renames git detects, git's escapes for
unusual characters and its settings at their defaults; Python 3.12's `fnmatch`; ancestry in the ledger as a
predicate, assumed transitive where that is used; and the replies of a provider or fabric as an arbitrary sequence.
Node ids are strings under Python's order.

## Model

| member | source | states |
|---|---|---|
| `Text.Sorted` | docs/plan/wp-check.py:2785-2787 | every element of the set once |
| `Text.SortedAscending` | docs/plan/wp-check.py:2785-2787 | in ascending order |
| `Text.SortedUnique` | docs/plan/wp-check.py:2785-2787 | only one ascending list has given elements: sorting is deterministic |
| `Text.LeqIff` | docs/plan/wp-check.py:2785-2787 | one text is before another iff it is a prefix of it or has the smaller code point where they first differ |
| `GlobMeaning.FnMatchIff` | docs/plan/wp-check.py:1811-1814 | a text matches a pattern iff it can be cut into one piece per token: any text for `*`, one character for `?`, one of its characters for a class, itself for any other |
| `GlobMeaning.TokensReadAs` | docs/plan/wp-check.py:1811-1814 | the tokens are written one after the other in the pattern, a bracket being itself only where no class closes |
| `GlobMeaning.ReadAsUnique` | docs/plan/wp-check.py:1811-1814 | and only one list of tokens is |
| `GlobMeaning.InClassIff` | docs/plan/wp-check.py:1811-1814 | a class holds the characters of its ranges, both ends included, or with `!` in front the others |
| `GlobMeaning.EmptyRangeIsDropped` | docs/plan/wp-check.py:1811-1814 | a range out of order in front is dropped before the negation is looked for |
| `GlobMeaning.AtomMatchesIff` | docs/plan/wp-check.py:1829-1852 | a path matches an atom iff its segments can be cut into one stretch per segment of the atom, any number for `**` and one that it matches for any other |
| `GlobMeaning.AtomsOverlapIff` | docs/plan/wp-check.py:1829-1854 | two atoms are reported iff their segments can be aligned, `**` standing for any number of places, with every pair reported by the segment test |
| `Glob.SegmentOverlapOfCommonText` | docs/plan/wp-check.py:1806-1823 | two segment patterns with a common text are reported to overlap iff the tail comparison does not separate them; always when no class reaches into a tail |
| `Glob.SegmentOverlapOfLiteral` | docs/plan/wp-check.py:1807-1814 | against a literal segment the test is `fnmatch`, on either side |
| `Glob.SegmentOverlapSymmetric` | docs/plan/wp-check.py:1806-1823 | the segment test does not depend on the order of its arguments |
| `Glob.GlobsOverlapIff` | docs/plan/wp-check.py:1816-1823 | two different globs are reported iff of their longest literal prefixes one starts the other and of their longest literal suffixes one ends the other |
| `Glob.PrefixesApart` | docs/plan/wp-check.py:1816-1823 | segments that start with texts neither of which starts the other are told apart, whatever follows |
| `Glob.SuffixesApart` | docs/plan/wp-check.py:1816-1823 | globs that end with texts neither of which ends the other are told apart, whatever comes before |
| `Glob.OverlapConservative` | docs/plan/wp-check.py:1803-1854 | if a path matches both atoms the test says so, for all lengths and `**` on both sides, unless a segment of that path matches two patterns that the tail comparison separates |
| `Glob.TellingAtomsMeet` | docs/plan/wp-check.py:1816-1823 | there is no such segment, on any path, if of every two segments of the atoms no class reaches into a tail or the tails are not separated |
| `Glob.OverlapIffNowhereSeparated` | docs/plan/wp-check.py:1803-1854 | two atoms without `**` that share a path are reported iff the tail comparison separates them at no depth |
| `Glob.OverlapMissesTrailingClass` | docs/plan/wp-check.py:1817-1823 | concrete atoms ending in a class share a path that the test misses |
| `Glob.IntersectsSymmetric` | docs/plan/wp-check.py:1829-1852 | the whole test is symmetric although it tries `**` on the left first |
| `Glob.OverlapExactOnPaths` | docs/plan/wp-check.py:1829-1854 | against an exact path the test holds iff the atom matches that path, for every atom |
| `Glob.CoversExactOnPaths` | docs/plan/wp-check.py:1857-1864 | an exact path is covered iff it is matched |
| `Glob.CoversGlobIff` | docs/plan/wp-check.py:1865-1871 | a glob is covered iff by itself or by a plain directory it is written under, followed by a recursive wildcard |
| `Glob.CoversSound` | docs/plan/wp-check.py:1857-1871 | a covering carve-out matches every path of the covered atom, the directory-prefix case included |
| `Glob.SharedPathClashes` | docs/plan/wp-check.py:1874-1885 | a path two effective scopes share through two atoms with no such segment yields a reported pair of atoms |
| `Glob.ClashIffNowhereSeparated` | docs/plan/wp-check.py:1874-1885 | a pair of atoms without `**` through which two effective scopes share a path is reported iff it is separated at no depth |
| `Glob.ClashExactOnFiles` | docs/plan/wp-check.py:1874-1885 | for scopes listing exact files a pair is reported iff some file is in both effective scopes |
| `GlobTable.OverlapTable.Query` | docs/plan/wp-check.py:1829-1852 | looked-up and stored answers equal the plain recursion; the table only grows, at positions from the query on |
| `GlobTable.OverlapTable.Compute` | docs/plan/wp-check.py:1833-1850 | the branches compute the plain recursion's answer without storing their own position |
| `GlobTable.PathAtomsOverlap` | docs/plan/wp-check.py:1825-1854 | the memoised test equals the plain one with at most one evaluation per pair of positions |
| `GlobTable.ScopeOverlap` | docs/plan/wp-check.py:1874-1885 | reports exactly the overlapping pairs that neither side's carve-outs cover |
| `Graph.StuckSetHasCycle` | docs/plan/wp-check.py:2788-2790 | a set in which every node waits for another contains a cycle |
| `Graph.TokensAddNoOrder` | docs/plan/wp-check.py:2771-2777 | dropping external tokens changes no precedence between table nodes |
| `Kahn.FirstOf` | docs/plan/wp-check.py:2785-2791 | a batch is distinct ready nodes, all of them or exactly 8 |
| `Kahn.FirstOfIsLeast` | docs/plan/wp-check.py:2785-2791 | a batch is ascending and nothing smaller that was ready is left out |
| `Kahn.RunTakesLeast` | docs/plan/wp-check.py:2784-2795 | every batch of a run is, in order, the least 8 of the nodes ready once the earlier batches are gone, or all of them |
| `Kahn.RunCapped` | docs/plan/wp-check.py:2784-2795 | every batch has 1 to 8 distinct nodes |
| `Kahn.RunPartitions` | docs/plan/wp-check.py:2784-2795 | a node is emitted iff it is not in the residual, and nothing in the residual is ready |
| `Kahn.RunOnce` | docs/plan/wp-check.py:2784-2795 | no node is in two batches |
| `Kahn.RunOrders` | docs/plan/wp-check.py:2784-2795 | every waiting predecessor of an emitted node is in a strictly earlier batch |
| `Kahn.BatchOrder` | docs/plan/wp-check.py:2797-2807 | transitive precedence between emitted nodes implies a strictly earlier batch |
| `Kahn.ResidualIffCycle` | docs/plan/wp-check.py:2784-2790 | the residual is empty iff the graph is acyclic, and otherwise contains a cycle |
| `Kahn.RunLength` | docs/plan/wp-check.py:2784-2795 | 8 times the batches is at most n + 7L when no chain has more than L nodes, so at most n/8 + L batches |
| `Kahn.RunNearOptimal` | docs/plan/wp-check.py:2784-2795 | at most 15/8 of the slots of any capped schedule that respects precedence |
| `Kahn.ReadySetsByEmitted` | docs/plan/wp-check.py:2759-2795 | the emitted-set loop terminates with the specified batches, emitted set and residual |
| `Kahn.ReadySetsByRemaining` | docs/plan/au-check.py:3215-3228 | the remaining-set loop over all tokens terminates with its specified batches and residual |
| `Kahn.SchedulersAgree` | docs/plan/au-check.py:3215-3233 | both loops give the same batches and residual on every table, cyclic ones included |
| `Reach.TransitivelyPrecedes` | docs/plan/wp-check.py:2797-2807 | terminates on cyclic graphs and is true iff a predecessor path of at least one step exists |
| `Reach.DependsOn` | docs/plan/au-check.py:3304-3319 | the same over listed tokens, and equal to the node graph's precedence for table nodes |
| `Dispatch.TokenErrors` | docs/plan/wp-check.py:2759-2777 | no error iff every row's tokens are distinct and known |
| `Dispatch.PairErrors` | docs/plan/wp-check.py:2934-2946 | no error iff the two packages are ordered or no pair of their atoms clashes |
| `Dispatch.CollisionErrors` | docs/plan/wp-check.py:2931-2946 | no error iff every two different packages are ordered or cannot clash |
| `Dispatch.ProbeErrors` | docs/plan/wp-check.py:2948-2972 | no error iff all probes are in the table, follow containment, name the probe gate and an evidence file, with the source's exemptions |
| `Dispatch.ReadySetErrors` | docs/plan/wp-check.py:2985-3007 | for a fully emitted table, no error iff the rendered ready sets are the computed ones |
| `Dispatch.ValidateDispatch` | docs/plan/wp-check.py:2759-3007 | no error iff tokens known, acyclic, no parallel clash, probes in order, ready sets rendered as computed |
| `Dispatch.WritersFormAChain` | docs/plan/wp-check.py:2931-2946 | in an accepted table, two packages that may write one path through two atoms with no such segment are ordered, in one direction only |
| `Dispatch.UnorderedWritersAreSeparated` | docs/plan/wp-check.py:2931-2946 | whatever atoms two unordered packages of an accepted table share a path through, one of its segments matches two patterns that the tail comparison separates |
| `Dispatch.ReadySetsAreWriteDisjoint` | docs/plan/wp-check.py:2781-2946 | no rendered ready set of an accepted table holds two packages that may write the same path through two atoms with no such segment; none at all if their tails tell |
| `Dispatch.ProbesAfterContainment` | docs/plan/wp-check.py:2948-2963 | every probe is in a strictly later ready set than the containment deployment and than the probe gate, where that is in the table |
| `Dispatch.CollisionAcceptedIffSeparated` | docs/plan/wp-check.py:1817-1823 | for every two atoms without `**` that share a path, the table of two such packages, handed out together, is accepted iff the tails are separated at some depth |
| `Dispatch.TrailingClassBreaksDisjointness` | docs/plan/wp-check.py:1817-1823 | an accepted table with a trailing class whose first ready set can collide |
| `Binding.AppendLp` | crates/corelink-cli/src/binding.rs:24-30 | appends the framed field, or fails and leaves the buffer, iff the length exceeds 32 bits |
| `Binding.AppendArtifacts` | crates/corelink-cli/src/binding.rs:50-53 | appends every artifact in order, or fails iff a field is too long |
| `Binding.PreimageV2` | crates/corelink-cli/src/binding.rs:39-55 | yields the pre-image, every byte where the layout has it; fails iff a length or the count exceeds 32 bits |
| `Binding.LayoutIff` | crates/corelink-cli/src/binding.rs:32-55 | the pre-image is the one byte string with memo key, stdout ref, stderr ref, exit code, count and each artifact's path and digest at their offsets, every word most significant byte first |
| `Binding.DecodePreimage` | crates/corelink-cli/src/binding.rs:32-55 | a decoder recovers all five fields and the rest from any encoding with any suffix |
| `Binding.DecodeCanonical` | crates/corelink-cli/src/binding.rs:32-55 | nothing but an encoding decodes |
| `Binding.PreimagePrefixFree` | crates/corelink-cli/src/binding.rs:32-55 | an encoding that is a prefix of another is of the same outcome |
| `ShellJoin.QuoteRestores` | crates/corelink-cloud-engine/src/northflank.rs:530 | the shell reads one quoted argument back as one word |
| `ShellJoin.EscapeConcat` | crates/corelink-cloud-engine/src/northflank.rs:530 | characters are rendered one by one |
| `ShellJoin.EscapeOne` | crates/corelink-cloud-engine/src/northflank.rs:530 | a single quote by closing, escaping and reopening the quotes, any other by itself |
| `ShellJoin.JoinConcat` | crates/corelink-cloud-engine/src/northflank.rs:528-533 | arguments stand between single quotes with one blank between two of them |
| `ShellJoin.ShellRoundTrip` | crates/corelink-cloud-engine/src/northflank.rs:528-533 | tokenising the rendered command by sections 2.2.1, 2.2.2 and 2.3 of the POSIX Shell Command Language gives exactly the argument list |
| `JobName.DeriveJobName` | crates/corelink-cloud-engine/src/northflank.rs:472-523 | the loops build the specified name |
| `JobName.NameIsLegal` | crates/corelink-cloud-engine/src/northflank.rs:509-523 | 19 or 21 to 52 characters of [a-z0-9-], first a letter, no doubled or trailing dash |
| `JobName.SameNameIff` | crates/corelink-cloud-engine/src/northflank.rs:465-523 | names are equal iff readable parts and first 64 hash bits are |
| `JobName.NeverInjective` | crates/corelink-cloud-engine/src/northflank.rs:465-523 | for every hash function and every legal readable part, two different container names of at most 97 characters with that readable part get one job name |
| `JobName.ReadableKeepsFragments` | crates/corelink-cloud-engine/src/northflank.rs:483-516 | a legal name of at most 32 characters passes unchanged |
| `JobName.ReadableContent` | crates/corelink-cloud-engine/src/northflank.rs:483-516 | the readable part shows a prefix of the name's letters and digits, in order |
| `JobName.ReadableIs` | crates/corelink-cloud-engine/src/northflank.rs:483-516 | the readable part is the lower-cased runs of letters and digits with dashes between them, cut after 32 characters or before a dash there |
| `JobName.NameIs` | crates/corelink-cloud-engine/src/northflank.rs:472-523 | a name is `nf-`, the readable part and a dash, and eight hash bytes in hexadecimal, high digit first |
| `RunProtocol.StringValues` | crates/corelink-cloud-engine/src/northflank.rs:345-361 | collects exactly the upper-cased string values at any depth, never keys or numbers |
| `RunProtocol.SaysIff` | crates/corelink-cloud-engine/src/northflank.rs:345-361 | a tree says a text iff a path of positions leads to a string that upper-cases to it |
| `RunProtocol.ClassifyRunStatus` | crates/corelink-cloud-engine/src/northflank.rs:403-428 | failure iff some fail token occurs, else success iff the exact status occurs, else running |
| `RunProtocol.ParseIdIff` | crates/corelink-cloud-engine/src/northflank.rs:431-452 | the run id is the path-safe string under `id` of the value under `data`, and nothing else is accepted |
| `RunProtocol.PollStaysUnderRuns` | crates/corelink-cloud-engine/src/northflank.rs:439-451 | an accepted id adds exactly one segment below the runs URL |
| `RunProtocol.CheckedIff` | crates/corelink-cloud-engine/src/northflank.rs:653-687 | a reply is accepted iff its status is 200 to 299; otherwise the fault is the transport's, capacity iff 429, 503 or 400 with the quota phrase, else fatal |
| `RunProtocol.PollCountIs` | crates/corelink-cloud-engine/src/northflank.rs:792-810 | polling goes on exactly while it is answered still running and the budget lasts |
| `RunProtocol.Poll` | crates/corelink-cloud-engine/src/northflank.rs:792-810 | sends exactly the polls needed, never over budget, with the specified outcome |
| `RunProtocol.RunToCompletion` | crates/corelink-cloud-engine/src/northflank.rs:786-811 | one trigger, then polls of the run it started, with the specified outcome |
| `RunProtocol.Exec` | crates/corelink-cloud-engine/src/northflank.rs:975-978 | stores a command the shell reads back as the argument list, and runs only if that was accepted |
| `RunProtocol.PollExit` | crates/corelink-cloud-engine/src/northflank.rs:792-810 | exit 0 or 1 iff the first reply that is not a success still running is a success in that terminal state, within budget |
| `RunProtocol.PollFault` | crates/corelink-cloud-engine/src/northflank.rs:792-810 | a fault iff that first reply has it, and stuck iff the whole budget is still running |
| `RunProtocol.RunFailsClosed` | crates/corelink-cloud-engine/src/northflank.rs:786-811 | for every reply sequence, exit 0 iff the trigger has a status of 200 to 299 and a safe id and the first poll that is not a success still running is one saying SUCCESS and no failure, within budget; otherwise 1 or an error |
| `RunLogs.RouteReadsFormat` | crates/corelink-cloud-engine/src/northflank.rs:854-869 | a line in the container format gives its message, whatever it holds, on its stream; any other line goes whole to standard output |
| `RunLogs.SortLines` | crates/corelink-cloud-engine/src/northflank.rs:846-870 | the two buffers are the lines of each stream, in order |
| `RunLogs.EveryLineOnce` | crates/corelink-cloud-engine/src/northflank.rs:846-870 | the streams together have every line once, each right after the earlier ones of its stream |
| `RunLogs.LogsInIff` | crates/corelink-cloud-engine/src/northflank.rs:838-872 | the output is the joined lines of each stream of the entries under `data`, or the raw body if there is no such list |
| `RunLogs.LogOfIff` | crates/corelink-cloud-engine/src/northflank.rs:850-853 | an entry has a line iff it has a text under `log` |
| `RunLogs.JoinLinesConcat` | crates/corelink-cloud-engine/src/northflank.rs:872 | lines are joined by newlines, in order |
| `RunLogs.FetchLogs` | crates/corelink-cloud-engine/src/northflank.rs:830-873 | one request; a refusal is an error, another body shape is standard output verbatim |
| `RunLogs.ExecCaptured` | crates/corelink-cloud-engine/src/northflank.rs:980-992 | logs are requested iff the run exited; output is returned iff they were served |
| `RunLogs.OutputFailsClosed` | crates/corelink-cloud-engine/src/northflank.rs:980-992 | for every reply sequence, output with code 0 iff command, trigger and logs have a status of 200 to 299, safe id and unambiguous first terminal success within budget |
| `Oci.VerifyMember` | scripts/ci/verify_runner_devenv_oci.py:57-76 | accepts iff the descriptor is well formed and the blob's size and hash agree, and returns its bytes |
| `Oci.ReadDocument` | scripts/ci/verify_runner_devenv_oci.py:189-213 | on success schema, config and layers are verified; succeeds on every sound document, and fails on values that make the reading raise |
| `Oci.Visit` | scripts/ci/verify_runner_devenv_oci.py:185-213 | on success the blob is authentic and recorded; succeeds on every sound descriptor |
| `Oci.Walk` | scripts/ci/verify_runner_devenv_oci.py:174-213 | terminates on cyclic graphs; success means roots visited, closed under children, all blobs authentic; succeeds if nothing reachable is wrong |
| `Oci.ClosedUnderChildren` | scripts/ci/verify_runner_devenv_oci.py:189-213 | what was visited under a manifest or index type has a document of schema 2 with visited, authentic children and authentic config and layers |
| `Oci.FindProvenance` | scripts/ci/verify_runner_devenv_oci.py:236-242 | a statement is found iff, in visiting order, a descriptor has one before anything raises; none iff nothing raises and none has one |
| `Oci.FoundIffProvenance` | scripts/ci/verify_runner_devenv_oci.py:236-242 | where nothing raises, one is found iff a visited attestation of the manifest has an authentic layer binding it, whatever the order |
| `Oci.LayerProvenance` | scripts/ci/verify_runner_devenv_oci.py:102-127 | true iff some authentic layer, unpacked by its media type, is a provenance statement about the manifest and no earlier one raises; false iff every layer is authentic, readable and something else |
| `Oci.ReadLayerIff` | scripts/ci/verify_runner_devenv_oci.py:102-127 | a layer binds the manifest iff its bytes, gunzipped iff the media type ends in +gzip, are a statement of an SLSA provenance type with the manifest's hash among its subjects; it raises iff it cannot be unpacked, its type is no text, or such a statement's subjects cannot be iterated |
| `Oci.AttestationAt` | scripts/ci/verify_runner_devenv_oci.py:96-127 | true iff the descriptor is an attestation of the manifest with such a layer; false iff it is none, or its layers are all something else, and nothing raises |
| `Oci.Reconcile` | scripts/ci/verify_runner_devenv_oci.py:247-287 | succeeds iff the metadata agrees with the graph; the output is the named root or the manifest |
| `Oci.Judge` | scripts/ci/verify_runner_devenv_oci.py:224-287 | a report is given iff labels, provenance search and metadata agree, and is trustworthy |
| `Oci.VerifyArchive` | scripts/ci/verify_runner_devenv_oci.py:136-302 | output, manifest and config digests name authentic blobs of a closed graph, the manifest the only runnable one; an archive whose walk finds nothing wrong is reported iff scan, labels, provenance search and metadata approve |
| `Ledger.CheckItem` | scripts/dev/delivery-ledger.py:241-265 | adds no problem iff the item is well formed and matches the registry |
| `Ledger.MapItems` | scripts/dev/delivery-ledger.py:229-265 | builds the item map and adds no problem iff ids are distinct and all items well formed |
| `Ledger.PlaceItems` | scripts/dev/delivery-ledger.py:266-269 | adds no problem iff dependencies are no later, baseline items recorded, delivered items in delivered sprints |
| `Ledger.CheckReady` | scripts/dev/delivery-ledger.py:404-416 | adds no problem iff the item is complete, unblocked, reviewed at one of its commits, and every dependency is ready |
| `Ledger.CheckContained` | scripts/dev/delivery-ledger.py:420-422 | adds no problem iff every commit of the item is an ancestor of the tip |
| `Ledger.ReadyCheck` | scripts/dev/delivery-ledger.py:398-437 | adds no problem iff the sprint passes its readiness or delivery gate |
| `Ledger.CheckSprint` | scripts/dev/delivery-ledger.py:373-448 | adds no problem iff the row's evidence, CI order and own gate hold |
| `Ledger.CheckSprints` | scripts/dev/delivery-ledger.py:366-448 | adds no problem iff exactly sprints 1 to 3 exist and all hold |
| `Ledger.CheckScopes` | scripts/dev/delivery-ledger.py:347-364 | adds no problem iff rows are timestamped with simple paths and no two differently named active tasks overlap |
| `Ledger.Validate` | scripts/dev/delivery-ledger.py:198-461 | no problems iff the ledger is accepted and a targeted sprint passes its gate |
| `Ledger.DeliveredPrefix` | scripts/dev/delivery-ledger.py:398-401 | delivered sprints form a prefix |
| `Ledger.DeliveredSprintIsWhole` | scripts/dev/delivery-ledger.py:402-428 | a delivered sprint has its 12, 14 or 28 items, CI and acceptance passed for its tip with evidence, and no unresolved blocking finding |
| `Ledger.GatedDependenciesReady` | scripts/dev/delivery-ledger.py:411-416 | in a sprint that passes its gate every dependency in the ledger is ready, delivered or recorded |
| `Ledger.CiRunsInOrder` | scripts/dev/delivery-ledger.py:390-397 | CI runs only after earlier sprints are delivered, with every item complete, ready and unblocked |
| `Ledger.DeliveredItemSettled` | scripts/dev/delivery-ledger.py:402-437 | items up to a delivered sprint are settled, commits contained in their sprint's tip and merge |
| `Ledger.DeliveredRestsOnSettled` | scripts/dev/delivery-ledger.py:379-442 | every transitive dependency of a delivered sprint's item, by the canonical registry, is settled in a sprint no later |
| `Ledger.OverlapIffNested` | scripts/dev/delivery-ledger.py:360-362 | between paths in normal form the comparison of spellings holds iff one place is, or is above, the other |
| `Ledger.NoFalseOverlap` | scripts/dev/delivery-ledger.py:356-364 | scopes without a common file pass, however they are spelled |
| `Ledger.ScopesApartIff` | scripts/dev/delivery-ledger.py:356-364 | for scopes in normal form the comparison passes iff no file lies in the active scopes of two differently named tasks |
| `Ledger.ActiveTasksDisjoint` | scripts/dev/delivery-ledger.py:356-364 | so none does in an accepted ledger with scopes in normal form |
| `Ledger.SpellingHidesOverlap` | scripts/dev/delivery-ledger.py:356-364 | two tasks with the scopes src and ./src pass |
| `Ledger.StripSlashesIs` | scripts/dev/delivery-ledger.py:359 | only slashes at the end of a scope are taken off, and all of them |
| `DisjointPlan.OwnershipErrors` | scripts/dev/disjoint-plan.py:18-28 | no error iff every grant is an exact relative file and no path is granted twice |
| `DisjointPlan.ExactIff` | scripts/dev/disjoint-plan.py:24-26 | a grant is exact iff written without empty, `.` and `..` parts, or as `.` alone, and without wildcards |
| `DisjointPlan.ParentErrors` | scripts/dev/disjoint-plan.py:29-32 | no error iff no directory above the path is owned |
| `DisjointPlan.PlanErrors` | scripts/dev/disjoint-plan.py:15-35 | no error iff packet ids and grants are distinct and exact, no grant is above another, writes within ownership |
| `GitLog.ReadNamesOfLines` | scripts/dev/disjoint-plan.py:53-54 | the names read from printed lines are these lines after blank ones at the ends are dropped and the outermost are stripped |
| `GitLog.ReadsNamesIff` | scripts/dev/disjoint-plan.py:53-61 | exactly the names are read in every order of the lines iff each is printed unquoted and neither begins nor ends with a blank |
| `DisjointPlan.CandidateFineIff` | scripts/dev/disjoint-plan.py:48-63 | a candidate passes iff dispatched from this base, confirmed by git, and only allowed paths are read in its log |
| `DisjointPlan.OriginOf` | scripts/dev/disjoint-plan.py:60-61 | a path is as its origin left it, and the origin is the base or the commit that introduced that content |
| `DisjointPlan.UnlistedOrigin` | scripts/dev/disjoint-plan.py:60-61 | content the log does not list was introduced by a merge or by renaming the file away |
| `DisjointPlan.NothingUnlistedIff` | scripts/dev/disjoint-plan.py:60-61 | the log lists every net change of a branch iff each unlisted path goes back to the base, or to a merge or rename that gave it the base's content again |
| `DisjointPlan.CleanHistoryIsListed` | scripts/dev/disjoint-plan.py:60-61 | so for branches that rename away only listed paths and whose merges take every other path from a parent descending from the base |
| `DisjointPlan.NetRebuildsHead` | scripts/dev/disjoint-plan.py:60-61 | the net edits turn the base into the head and touch exactly the paths that differ |
| `DisjointPlan.CommuteIff` | scripts/dev/disjoint-plan.py:18-35 | two sets of edits give the same tree in either order, on every tree, iff no two of them conflict |
| `DisjointPlan.PacketsUnrelated` | scripts/dev/disjoint-plan.py:18-35 | writable files of different packets differ, and of two different writable files neither is above the other |
| `DisjointPlan.CandidatesCommuteIff` | scripts/dev/disjoint-plan.py:48-63 | accepted candidates of different packets commute on every tree, whatever git printed, iff no edit whose path is not read conflicts with an edit of the other |
| `DisjointPlan.CandidatesCommute` | scripts/dev/disjoint-plan.py:48-63 | so they commute, with disjoint lists, when their histories are listed in full and their names are read as they are |
| `DisjointPlan.HiddenEditBreaksOrder` | scripts/dev/disjoint-plan.py:48-63 | in every accepted plan, for each hidden edit of a readable path that another dispatched packet may write, with no file in its way at that packet's baseline, the packet has an accepted branch from this baseline, in the same repository, that hides nothing and with which order matters |
| `DisjointPlan.ObstructedWriteHides` | scripts/dev/disjoint-plan.py:18-63 | with a file in the way, every accepted branch that writes the path hides an edit itself |
| `DisjointPlan.MergeHidesAnEdit` | scripts/dev/disjoint-plan.py:60-63 | a merge commit hides an edit of another packet's file from the gate, which passes it; both branches start from one commit |
| `DisjointPlan.RenameHidesAnEdit` | scripts/dev/disjoint-plan.py:60-63 | a rename does so, again from one commit |
| `DisjointPlan.BlankHidesAnEdit` | scripts/dev/disjoint-plan.py:53-63 | a name that ends with a blank does so, with a log that leaves nothing out |
| `CliRun.RunAfterAcquire` | crates/corelink-cli/src/run.rs:210-304 | the requests and outcome after the acquire, for every reply sequence |
| `CliRun.CmdRun` | crates/corelink-cli/src/run.rs:127-206 | an unpinned image sends nothing and exits 2; otherwise the specified trace and code |
| `CliRun.LeaseEndRequested` | crates/corelink-cli/src/run.rs:154-206 | a run that read a lease sends one exec, fetches keys iff that ran and verification is wanted, and last sends exactly one close or cancel request for that lease, a close iff nothing failed |
| `CliRun.LeaseReadIff` | crates/corelink-cli/src/run.rs:138-151 | a lease is read from an answer with status 200 and a readable body, and from no other |
| `CliRun.EndRequestedIffLeaseRead` | crates/corelink-cli/src/run.rs:138-151 | a close or cancel request is sent iff the acquire answer held a readable lease id |
| `CliRun.ExitCodeLaw` | crates/corelink-cli/src/run.rs:190-205 | 0 and 1 iff acquire and exec were answered with status 200 and readable bodies with that result, and the first key of a status 200 answer verifies it or verification was waived; 2 otherwise |
| `CheckExec.CtEq` | crates/corelink-check-exec-server/src/lib.rs:439-448 | accepts iff lengths agree modulo 256 and zero-padded contents are equal |
| `CheckExec.AcceptsIsEqualityIff` | crates/corelink-check-exec-server/src/lib.rs:439-448 | that is equality iff neither input is the other plus a multiple of 256 zero bytes |
| `CheckExec.AcceptsIsEqualityWithoutZeros` | crates/corelink-check-exec-server/src/lib.rs:439-448 | on inputs without zero bytes it is equality |
| `CheckExec.ZerosPassForEmpty` | crates/corelink-check-exec-server/src/lib.rs:440 | the empty input and 256 zero bytes are accepted as equal |
| `CheckExec.ReadCapped` | crates/corelink-check-exec-server/src/lib.rs:559-577 | for every chunking, the first bytes up to the cap, with the pipe drained to its end or error |
| `CheckExec.StreamIs` | crates/corelink-check-exec-server/src/lib.rs:559-577 | the stream is everything read before the first empty read or error |

## Left out

- Dispatch.ValidateDispatch: checks the graph, scopes, probes and ready sets only; prose clauses, phases, named required edges and the other fixed registries of the checker are fixed-text matching.
- Ledger.Validate: starts after the shape check; leaves out the frozen sprint memberships and counts, bundles, baseline commits and finding fields, which compare against constants.
- DisjointPlan.PlanErrors: leaves out coverage of the ledger's packages, dispatch fields and waves, which are single membership or size tests.
- Oci.VerifyArchive: starts at the parsed index; layout version, index schema and the tag spelling of the image reference are single comparisons.
- JobName.DeriveJobName: takes the SHA-256 digest as an input, so how rarely two hashes agree in 64 bits is not modelled.
- CliRun.LeaseEndRequested: is about the request; whether the fabric ends the lease, the client ignores.
- Markdown and scope-cell parsing, and au-check.py's own witness-based overlap heuristic.
- `spawn`'s floors, probing and deletion in northflank.rs, and cloudflare.rs: single branches around one request.
- Base64, Ed25519 verification, gzip, tar and JSON text parsing.
- Process spawning, timeouts, process-group kill, HTTP routing and environment reading.
- Timing: that `ct_eq` takes constant time is not expressible here; only its result is modelled.
