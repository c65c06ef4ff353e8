/** Remote execution (internal/ssh/executor.go): alias resolution against the
    executor's inventory, the ordered steps of an SSH session, comma-list
    fan-out and the inventory status table. The network is a parameter
    `net` giving how the machine at each address answers each command. */
module Executor {
  import opened Store
  import opened Text

  datatype HostEntry = HostEntry(name: string, ip: string)

  /** The orchestrator's private key file: absent, present but not a key, or usable. */
  datatype KeyFile = Missing | Unparsable | Usable

  /** How the machine at one address answers: whether the TCP dial and public-key
      authentication succeed, whether each session step succeeds, whether the
      remote command exits 0, and what it writes to stdout and stderr. */
  datatype Peer = Peer(reachable: bool, sessionOk: bool, stdinOk: bool, startOk: bool,
                       exitOk: bool, stdout: seq<string>, stderr: seq<string>)

  /** How the machine at each address answers when a given command is run there. */
  type Network = (string, string) -> Peer

  /** The steps of a remote invocation, each of which can end it with an error. */
  datatype Step = ReadKey | ParseKey | Dial | OpenSession | OpenStdin | Start | Wait

  predicate Succeeds(step: Step, key: KeyFile, peer: Peer) {
    match step
    case ReadKey => key != Missing
    case ParseKey => key == Usable
    case Dial => key == Usable && peer.reachable
    case OpenSession => peer.sessionOk
    case OpenStdin => peer.stdinOk
    case Start => peer.startOk
    case Wait => peer.exitOk
  }

  /** The checked steps of ExecuteRemote, in order (the wait status is not checked). */
  const RunSteps: seq<Step> := [ReadKey, ParseKey, Dial, OpenSession, Start]

  /** The checked steps of ExecuteRemoteWithInput, in order (the key parse is not checked). */
  const PushSteps: seq<Step> := [ReadKey, Dial, OpenSession, OpenStdin, Start, Wait]

  /** Index of the first step that fails, or |steps| when none does. */
  function FailingIndex(steps: seq<Step>, key: KeyFile, peer: Peer): (k: nat)
    ensures k <= |steps|
    ensures forall j :: 0 <= j < k ==> Succeeds(steps[j], key, peer)
    ensures k < |steps| ==> !Succeeds(steps[k], key, peer)
  {
    if steps == [] || !Succeeds(steps[0], key, peer) then 0
    else 1 + FailingIndex(steps[1..], key, peer)
  }

  /** The error an early-return step sequence reports: that of its first failing step. */
  function FirstFailure(steps: seq<Step>, key: KeyFile, peer: Peer): Option<Step>
  {
    var k := FailingIndex(steps, key, peer);
    if k == |steps| then None else Some(steps[k])
  }

  /** No error exactly when every step succeeds; otherwise the error is that of
      a failing step that only successes precede. */
  lemma FirstFailureSpec(steps: seq<Step>, key: KeyFile, peer: Peer)
    ensures var f := FirstFailure(steps, key, peer);
            && (f.None? <==> forall j :: 0 <= j < |steps| ==> Succeeds(steps[j], key, peer))
            && (f.Some? ==> exists k :: 0 <= k < |steps| && steps[k] == f.value
                              && !Succeeds(steps[k], key, peer)
                              && forall j :: 0 <= j < k ==> Succeeds(steps[j], key, peer))
  {
    var k := FailingIndex(steps, key, peer);
    if k < |steps| {
      assert steps[k] == FirstFailure(steps, key, peer).value;
    }
  }

  /** The first failure is pinned down by the step where it happens. */
  lemma FirstFailureAt(steps: seq<Step>, key: KeyFile, peer: Peer, k: nat)
    requires k <= |steps|
    requires forall j :: 0 <= j < k ==> Succeeds(steps[j], key, peer)
    requires k < |steps| ==> !Succeeds(steps[k], key, peer)
    ensures FailingIndex(steps, key, peer) == k
    ensures FirstFailure(steps, key, peer) == if k == |steps| then None else Some(steps[k])
  {
  }

  // ---------------------------------------------------------------------------
  // Target resolution

  /** The inventory the executor reads; an unreadable document is an empty one. */
  function LoadInventory(doc: Document<HostEntry>): (inv: seq<HostEntry>)
    ensures doc.Unreadable? ==> inv == []
    ensures doc.Stored? ==> inv == doc.hosts
  {
    Load(doc)
  }

  /** An alias resolves to the address of the first entry carrying that name;
      anything else (a raw address included) passes through unchanged. */
  function ResolveTarget(inv: seq<HostEntry>, target: string): (ip: string)
    ensures forall i :: (0 <= i < |inv| && inv[i].name == target
                         && forall j :: 0 <= j < i ==> inv[j].name != target) ==> ip == inv[i].ip
    ensures (forall i :: 0 <= i < |inv| ==> inv[i].name != target) ==> ip == target
  {
    if inv == [] then target
    else if inv[0].name == target then inv[0].ip
    else
      var r := ResolveTarget(inv[1..], target);
      assert forall i :: 1 <= i < |inv| ==> inv[1..][i - 1] == inv[i];
      r
  }

  // ---------------------------------------------------------------------------
  // One remote command

  /** The tag put in front of every line a target prints. */
  function Label(target: string): string {
    "[" + target + "] "
  }

  predicate Tagged(printed: seq<string>, target: string, lines: seq<string>) {
    |printed| == |lines| && forall i :: 0 <= i < |lines| ==> printed[i] == Label(target) + lines[i]
  }

  /** streamOutput: every line read from the remote stream, prefixed with the target. */
  method StreamOutput(target: string, lines: seq<string>) returns (printed: seq<string>)
    ensures Tagged(printed, target, lines)
  {
    printed := [];
    var i := 0;
    while i < |lines|
      invariant 0 <= i <= |lines|
      invariant Tagged(printed, target, lines[..i])
    {
      printed := printed + [Label(target) + lines[i]];
      i := i + 1;
    }
    assert lines[..i] == lines;
  }

  /** What running a command on a target reports. Connection-level failures
      carry the label the operator typed, not the resolved address. */
  datatype RunOutcome =
    | KeyNotFound
    | KeyParseError
    | Failed(tag: string, step: Step)
    | Completed(tag: string, stdout: seq<string>, stderr: seq<string>)

  /** The checks of ExecuteRemote, in the order it makes them. */
  function RunOutcomeOf(key: KeyFile, peer: Peer, target: string): RunOutcome
  {
    if key == Missing then KeyNotFound
    else if key == Unparsable then KeyParseError
    else if !peer.reachable then Failed(target, Dial)
    else if !peer.sessionOk then Failed(target, OpenSession)
    else if !peer.startOk then Failed(target, Start)
    else Completed(target, peer.stdout, peer.stderr)
  }

  /** What ExecuteRemote reports is the first failure of its checked steps: the
      key is checked before anything else, a later failure is reported under
      the target as typed, and the command completes when every step succeeds. */
  lemma RunOutcomeSpec(key: KeyFile, peer: Peer, target: string)
    ensures var r := RunOutcomeOf(key, peer, target);
            var f := FirstFailure(RunSteps, key, peer);
            && (r.KeyNotFound? <==> f == Some(ReadKey))
            && (r.KeyParseError? <==> f == Some(ParseKey))
            && (r.Failed? <==> f.Some? && f.value != ReadKey && f.value != ParseKey)
            && (r.Failed? ==> r.tag == target && r.step == f.value)
            && (r.Completed? <==> f.None?)
            && (r.Completed? ==> r.tag == target && r.stdout == peer.stdout && r.stderr == peer.stderr)
  {
    var k := if key == Missing then 0
             else if key == Unparsable then 1
             else if !peer.reachable then 2
             else if !peer.sessionOk then 3
             else if !peer.startOk then 4
             else 5;
    FirstFailureAt(RunSteps, key, peer, k);
  }

  /** ExecuteRemote: resolve, read and parse the key, dial the resolved address,
      open a session, start the command, then stream both outputs. Returns what
      it reports, the address it dialled (if it got that far) and the lines it
      printed from the remote stdout and stderr (each stream keeps its own line
      order; how the two interleave is not modelled). */
  method ExecuteRemote(inv: seq<HostEntry>, key: KeyFile, net: Network,
                       target: string, command: string)
    returns (outcome: RunOutcome, dialled: Option<string>, printedOut: seq<string>, printedErr: seq<string>)
    ensures outcome == RunOutcomeOf(key, net(ResolveTarget(inv, target), command), target)
    ensures dialled == (if key == Usable then Some(ResolveTarget(inv, target)) else None)
    ensures outcome.Completed? ==>
              Tagged(printedOut, target, outcome.stdout) && Tagged(printedErr, target, outcome.stderr)
    ensures !outcome.Completed? ==> printedOut == [] && printedErr == []
  {
    var targetIP := ResolveTarget(inv, target);
    var peer := net(targetIP, command);
    printedOut, printedErr := [], [];
    dialled := None;
    if key == Missing {
      outcome := KeyNotFound;
      return;
    }
    if key == Unparsable {
      outcome := KeyParseError;
      return;
    }
    dialled := Some(targetIP);
    if !peer.reachable {
      outcome := Failed(target, Dial);
      return;
    }
    if !peer.sessionOk {
      outcome := Failed(target, OpenSession);
      return;
    }
    if !peer.startOk {
      outcome := Failed(target, Start);
      return;
    }
    printedOut := StreamOutput(target, peer.stdout);
    printedErr := StreamOutput(target, peer.stderr);
    outcome := Completed(target, peer.stdout, peer.stderr);
  }

  /** What the remote side received from ExecuteRemoteWithInput: the command
      started on an address, with the payload written to its stdin and closed. */
  datatype Delivery = Delivery(ip: string, command: string, payload: Bytes)

  /** ExecuteRemoteWithInput: key read, dial, session, stdin pipe, start, each
      returning its error; then the payload is written, stdin closed, and the
      result is the remote command's wait status. */
  method ExecuteRemoteWithInput(key: KeyFile, net: Network, targetIP: string,
                                command: string, input: Bytes)
    returns (err: Option<Step>, delivered: Option<Delivery>)
    ensures err == FirstFailure(PushSteps, key, net(targetIP, command))
    ensures delivered.Some? <==> err.None? || err == Some(Wait)
    ensures delivered.Some? ==> delivered.value == Delivery(targetIP, command, input)
  {
    var peer := net(targetIP, command);
    delivered := None;
    if key == Missing {
      FirstFailureAt(PushSteps, key, peer, 0);
      return Some(ReadKey), None;
    }
    if !(key == Usable && peer.reachable) {
      FirstFailureAt(PushSteps, key, peer, 1);
      return Some(Dial), None;
    }
    if !peer.sessionOk {
      FirstFailureAt(PushSteps, key, peer, 2);
      return Some(OpenSession), None;
    }
    if !peer.stdinOk {
      FirstFailureAt(PushSteps, key, peer, 3);
      return Some(OpenStdin), None;
    }
    if !peer.startOk {
      FirstFailureAt(PushSteps, key, peer, 4);
      return Some(Start), None;
    }
    // stdin.Write(input); stdin.Close(); then the wait status is the result
    delivered := Some(Delivery(targetIP, command, input));
    FirstFailureAt(PushSteps, key, peer, if peer.exitOk then 6 else 5);
    err := if peer.exitOk then None else Some(Wait);
  }

  // ---------------------------------------------------------------------------
  // Fan-out over a comma list

  /** The jobs a target list yields: each target trimmed, blank ones skipped,
      duplicates kept, order kept. */
  function Jobs(targets: seq<string>): seq<string>
  {
    if targets == [] then []
    else Jobs(targets[..|targets| - 1]) + Job(targets[|targets| - 1])
  }

  /** The job one target yields: none when it trims to nothing. */
  function Job(target: string): seq<string>
  {
    var t := TrimSpace(target);
    if t == "" then [] else [t]
  }

  lemma JobsSnoc(targets: seq<string>, i: nat)
    requires i < |targets|
    ensures Jobs(targets[..i + 1]) == Jobs(targets[..i]) + Job(targets[i])
  {
    assert targets[..i + 1][..i] == targets[..i];
  }

  lemma JobsStep(targets: seq<string>, i: nat, trimmed: string)
    requires i < |targets| && trimmed == TrimSpace(targets[i])
    ensures Jobs(targets[..i + 1]) == Jobs(targets[..i]) + (if trimmed == "" then [] else [trimmed])
  {
    JobsSnoc(targets, i);
  }

  /** Every job is the non-empty trimmed form of some target. */
  lemma {:induction false} JobsComeFromTargets(targets: seq<string>)
    ensures forall x :: x in Jobs(targets) ==>
              x != "" && exists i :: 0 <= i < |targets| && TrimSpace(targets[i]) == x
  {
    if targets != [] {
      var n := |targets| - 1;
      var pre := targets[..n];
      JobsComeFromTargets(pre);
      JobsSnoc(targets, n);
      assert targets[..n + 1] == targets;
      forall x | x in Jobs(targets)
        ensures x != "" && exists i :: 0 <= i < |targets| && TrimSpace(targets[i]) == x
      {
        if x in Jobs(pre) {
          var i :| 0 <= i < n && TrimSpace(pre[i]) == x;
          assert targets[i] == pre[i];
        } else {
          assert x in Job(targets[n]);
        }
      }
    }
  }

  /** Every target that is not blank after trimming becomes a job. */
  lemma {:induction false} EveryTargetBecomesJob(targets: seq<string>)
    ensures forall i :: 0 <= i < |targets| && TrimSpace(targets[i]) != "" ==>
              TrimSpace(targets[i]) in Jobs(targets)
  {
    if targets != [] {
      var n := |targets| - 1;
      var pre := targets[..n];
      EveryTargetBecomesJob(pre);
      JobsSnoc(targets, n);
      assert targets[..n + 1] == targets;
      forall i | 0 <= i < |targets| && TrimSpace(targets[i]) != ""
        ensures TrimSpace(targets[i]) in Jobs(targets)
      {
        if i < n {
          assert pre[i] == targets[i];
          assert TrimSpace(pre[i]) in Jobs(pre);
        } else {
          assert TrimSpace(targets[n]) in Job(targets[n]);
        }
      }
    }
  }

  /** With no blank targets there is one job per target, in order, duplicates included. */
  lemma {:induction false} JobsKeepEveryTarget(targets: seq<string>)
    requires forall i :: 0 <= i < |targets| ==> TrimSpace(targets[i]) != ""
    ensures |Jobs(targets)| == |targets|
    ensures forall i :: 0 <= i < |targets| ==> Jobs(targets)[i] == TrimSpace(targets[i])
  {
    if targets != [] {
      var n := |targets| - 1;
      var pre := targets[..n];
      forall i | 0 <= i < n ensures TrimSpace(pre[i]) != "" {
        assert pre[i] == targets[i];
      }
      JobsKeepEveryTarget(pre);
      JobsSnoc(targets, n);
      assert targets[..n + 1] == targets;
      assert Job(targets[n]) == [TrimSpace(targets[n])];
      forall i | 0 <= i < |targets| ensures Jobs(targets)[i] == TrimSpace(targets[i]) {
        if i < n {
          assert pre[i] == targets[i];
        }
      }
    }
  }

  /** There are never more jobs than targets. */
  lemma {:induction false} JobsAtMostTargets(targets: seq<string>)
    ensures |Jobs(targets)| <= |targets|
  {
    if targets != [] {
      JobsAtMostTargets(targets[..|targets| - 1]);
    }
  }

  /** The outcome of running `command` for each job, in job order. */
  function Outcomes(inv: seq<HostEntry>, key: KeyFile, net: Network, command: string, jobs: seq<string>): seq<RunOutcome>
  {
    if jobs == [] then []
    else
      var last := jobs[|jobs| - 1];
      Outcomes(inv, key, net, command, jobs[..|jobs| - 1]) + [RunOutcomeOf(key, net(ResolveTarget(inv, last), command), last)]
  }

  /** Running one more job appends its outcome and leaves the earlier ones. */
  lemma OutcomesSnoc(inv: seq<HostEntry>, key: KeyFile, net: Network, command: string, jobs: seq<string>, job: string)
    ensures Outcomes(inv, key, net, command, jobs + [job])
            == Outcomes(inv, key, net, command, jobs) + [RunOutcomeOf(key, net(ResolveTarget(inv, job), command), job)]
  {
    assert (jobs + [job])[..|jobs|] == jobs;
  }

  /** Each job's outcome is that of running it alone. */
  lemma {:induction false} OutcomesAt(inv: seq<HostEntry>, key: KeyFile, net: Network, command: string, jobs: seq<string>)
    ensures |Outcomes(inv, key, net, command, jobs)| == |jobs|
    ensures forall i :: 0 <= i < |jobs| ==>
              Outcomes(inv, key, net, command, jobs)[i] == RunOutcomeOf(key, net(ResolveTarget(inv, jobs[i]), command), jobs[i])
  {
    if jobs != [] {
      var n := |jobs| - 1;
      OutcomesAt(inv, key, net, command, jobs[..n]);
      forall i | 0 <= i < n
        ensures Outcomes(inv, key, net, command, jobs)[i] == RunOutcomeOf(key, net(ResolveTarget(inv, jobs[i]), command), jobs[i])
      {
        assert jobs[..n][i] == jobs[i];
      }
    }
  }

  /** ExecuteRemoteMulti: announces the raw target count, then runs one job per
      non-blank trimmed target; each job's outcome is the one ExecuteRemote gives
      for that target alone, running the same `command`. */
  method ExecuteRemoteMulti(inv: seq<HostEntry>, key: KeyFile, net: Network,
                            targets: seq<string>, command: string)
    returns (announced: nat, jobs: seq<string>, outcomes: seq<RunOutcome>)
    ensures announced == |targets|
    ensures jobs == Jobs(targets)
    ensures |outcomes| == |jobs|
    ensures forall i :: 0 <= i < |jobs| ==>
              outcomes[i] == RunOutcomeOf(key, net(ResolveTarget(inv, jobs[i]), command), jobs[i])
  {
    announced := |targets|;
    jobs := [];
    outcomes := [];
    var i := 0;
    while i < |targets|
      invariant 0 <= i <= |targets|
      invariant jobs == Jobs(targets[..i])
      invariant outcomes == Outcomes(inv, key, net, command, jobs)
    {
      var target := TrimSpace(targets[i]);
      JobsStep(targets, i, target);
      if target != "" {
        var outcome, _, _, _ := ExecuteRemote(inv, key, net, target, command);
        OutcomesSnoc(inv, key, net, command, jobs, target);
        jobs := jobs + [target];
        outcomes := outcomes + [outcome];
      }
      i := i + 1;
    }
    assert targets[..i] == targets;
    OutcomesAt(inv, key, net, command, jobs);
  }

  // ---------------------------------------------------------------------------
  // Status table

  datatype Status = Connected | Disconnected

  /** checkStatus: a host is Connected exactly when a TCP dial to its SSH port succeeds. */
  function StatusOf(portOpen: bool): (s: Status)
    ensures s == Connected <==> portOpen
  {
    if portOpen then Connected else Disconnected
  }

  datatype Row = Row(alias: string, ip: string, status: Status)

  datatype Listing = NoHosts | Table(rows: seq<Row>)

  /** What the status probe started for entry `i` finds when it dials address
      `ip` (probes of one address may answer differently). */
  type Probe = (nat, string) -> bool

  /** The last of the first `n` entries carrying address `ip`, or -1 when none does. */
  function LastWith(inv: seq<HostEntry>, ip: string, n: nat): (j: int)
    requires n <= |inv|
    ensures -1 <= j < n
    ensures j >= 0 ==> inv[j].ip == ip
    ensures forall k :: j < k < n ==> inv[k].ip != ip
  {
    if n == 0 then -1
    else if inv[n - 1].ip == ip then n - 1
    else LastWith(inv, ip, n - 1)
  }

  lemma LastWithStep(inv: seq<HostEntry>, ip: string, n: nat)
    requires n < |inv|
    ensures LastWith(inv, ip, n + 1) == if inv[n].ip == ip then n else LastWith(inv, ip, n)
  {
  }

  /** The status map after the probes of the first `n` entries: every address
      among them holds what its latest probe found. */
  predicate Recorded(status: map<string, Status>, inv: seq<HostEntry>, probe: Probe, n: nat)
    requires n <= |inv|
  {
    forall k :: 0 <= k < n ==>
      inv[k].ip in status && LastWith(inv, inv[k].ip, n) >= 0
      && status[inv[k].ip] == StatusOf(probe(LastWith(inv, inv[k].ip, n), inv[k].ip))
  }

  /** Recording the next probe keeps the map up to date. */
  lemma RecordStep(status: map<string, Status>, inv: seq<HostEntry>, probe: Probe, n: nat)
    requires n < |inv| && Recorded(status, inv, probe, n)
    ensures Recorded(status[inv[n].ip := StatusOf(probe(n, inv[n].ip))], inv, probe, n + 1)
  {
    var status' := status[inv[n].ip := StatusOf(probe(n, inv[n].ip))];
    forall k | 0 <= k < n + 1
      ensures inv[k].ip in status' && LastWith(inv, inv[k].ip, n + 1) >= 0
              && status'[inv[k].ip] == StatusOf(probe(LastWith(inv, inv[k].ip, n + 1), inv[k].ip))
    {
      LastWithStep(inv, inv[k].ip, n);
    }
  }

  /** The entry whose probe decides the status shown for entry `i`: the last one
      sharing its address, since every probe of an address overwrites the
      status map's slot for it. */
  function Decisive(inv: seq<HostEntry>, i: nat): (j: nat)
    requires i < |inv|
    ensures i <= j < |inv| && inv[j].ip == inv[i].ip
    ensures forall k :: j < k < |inv| ==> inv[k].ip != inv[i].ip
  {
    LastWith(inv, inv[i].ip, |inv|)
  }

  /** Once every probe is recorded, an entry's slot holds what the decisive
      probe of its address found. */
  lemma RecordedAll(status: map<string, Status>, inv: seq<HostEntry>, probe: Probe)
    requires Recorded(status, inv, probe, |inv|)
    ensures forall i :: 0 <= i < |inv| ==>
              inv[i].ip in status && status[inv[i].ip] == StatusOf(probe(Decisive(inv, i), inv[i].ip))
  {
  }

  /** The probe phase of ListHosts: one probe per entry, dialling that entry's
      address, each answer written into the status map under the address, in
      inventory order. Every address ends up holding its decisive probe's answer. */
  method ProbeAll(inv: seq<HostEntry>, probe: Probe) returns (status: map<string, Status>)
    ensures forall i :: 0 <= i < |inv| ==>
              inv[i].ip in status && status[inv[i].ip] == StatusOf(probe(Decisive(inv, i), inv[i].ip))
  {
    status := map[];
    var i := 0;
    while i < |inv|
      invariant 0 <= i <= |inv|
      invariant Recorded(status, inv, probe, i)
    {
      var ip := inv[i].ip;
      RecordStep(status, inv, probe, i);
      status := status[ip := StatusOf(probe(i, ip))];
      i := i + 1;
    }
    RecordedAll(status, inv, probe);
  }

  /** ListHosts: start one probe per entry, dialling that entry's address, record each answer in a status map keyed by address,
      then print one row per entry in inventory order, its status looked up in
      the map. */
  method ListHosts(inv: seq<HostEntry>, probe: Probe) returns (listing: Listing)
    ensures inv == [] <==> listing == NoHosts
    ensures listing.Table? ==>
              && |listing.rows| == |inv|
              && (forall i :: 0 <= i < |inv| ==>
                    listing.rows[i] == Row(inv[i].name, inv[i].ip, StatusOf(probe(Decisive(inv, i), inv[i].ip))))
    ensures listing.Table? ==>
              forall i, j :: 0 <= i < |inv| && 0 <= j < |inv| && inv[i].ip == inv[j].ip ==>
                listing.rows[i].status == listing.rows[j].status
  {
    if |inv| == 0 {
      return NoHosts;
    }
    var status := ProbeAll(inv, probe);
    var rows: seq<Row> := [];
    var i := 0;
    while i < |inv|
      invariant 0 <= i <= |inv|
      invariant |rows| == i
      invariant forall k :: 0 <= k < i ==>
                  rows[k] == Row(inv[k].name, inv[k].ip, StatusOf(probe(Decisive(inv, k), inv[k].ip)))
    {
      rows := rows + [Row(inv[i].name, inv[i].ip, status[inv[i].ip])];
      i := i + 1;
    }
    listing := Table(rows);
  }
}
