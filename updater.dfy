/** Cascading update (internal/ssh/updater.go): push the orchestrator's own
    binary to every host of the executor's inventory, through the agent-side
    shell pipeline that stages, installs and restarts it. */
module Updater {
  import opened Store
  import opened Text
  import opened Executor

  /** The local binary that is read and pushed. */
  const BinaryPath := "/usr/local/bin/neurader"

  /** The stages of the agent-side pipeline, in order. */
  const UpdateStages: seq<string> := [
    "cat > /tmp/neurader.new",
    "sudo mv /tmp/neurader.new /usr/local/bin/neurader",
    "sudo chmod +x /usr/local/bin/neurader",
    "sudo systemctl restart neurader"
  ]

  /** The remote command every push runs. */
  const UpdateCommand := "cat > /tmp/neurader.new && "
                       + "sudo mv /tmp/neurader.new /usr/local/bin/neurader && "
                       + "sudo chmod +x /usr/local/bin/neurader && "
                       + "sudo systemctl restart neurader"

  /** The command is the four stages chained with `&&`. */
  lemma UpdateCommandChainsStages()
    ensures UpdateCommand == Join(UpdateStages, " && ")
  {
    assert UpdateStages[1..][1..][1..] == ["sudo systemctl restart neurader"];
  }

  /** Every stage of a prefix of `ok` succeeded. */
  predicate AllSucceeded(ok: seq<bool>, k: nat)
    requires k <= |ok|
  {
    forall j :: 0 <= j < k ==> ok[j]
  }

  /** How many stages of an `&&` chain the shell runs, given which stages would
      succeed: it runs the first, and each next one only while the last one run
      succeeded. */
  function StagesRun(ok: seq<bool>): (n: nat)
    ensures n <= |ok|
    ensures forall k :: 0 <= k < |ok| ==> (k < n <==> AllSucceeded(ok, k))
  {
    if ok == [] then 0
    else if !ok[0] then 1
    else
      var m := StagesRun(ok[1..]);
      assert forall k :: 1 <= k <= |ok| ==> (AllSucceeded(ok, k) <==> AllSucceeded(ok[1..], k - 1)) by {
        forall k | 1 <= k <= |ok| ensures AllSucceeded(ok, k) <==> AllSucceeded(ok[1..], k - 1) {
          assert forall j :: 1 <= j < k ==> ok[1..][j - 1] == ok[j];
        }
      }
      1 + m
  }

  /** The exit status of an `&&` chain is that of the last stage it ran. */
  function ChainExitOk(ok: seq<bool>): bool
    requires |ok| > 0
  {
    assert AllSucceeded(ok, 0);
    ok[StagesRun(ok) - 1]
  }

  /** The chain exits 0 exactly when every stage succeeds. */
  lemma {:induction false} ChainExitStatus(ok: seq<bool>)
    requires |ok| > 0
    ensures ChainExitOk(ok) <==> AllSucceeded(ok, |ok|)
  {
    assert AllSucceeded(ok, 0);
    var n := StagesRun(ok);
    var last := |ok| - 1;
    if AllSucceeded(ok, |ok|) {
      assert AllSucceeded(ok, last);
      assert n == |ok|;
    }
    if ok[n - 1] {
      assert AllSucceeded(ok, n - 1);
      assert AllSucceeded(ok, n);
    }
  }

  /** Which of the four stages of the update command would succeed on an agent. */
  datatype Stages = Stages(staged: bool, installed: bool, madeExecutable: bool, restarted: bool)

  /** The stage outcomes in the order of UpdateStages. */
  function StageResults(s: Stages): (ok: seq<bool>)
    ensures |ok| == |UpdateStages|
  {
    [s.staged, s.installed, s.madeExecutable, s.restarted]
  }

  /** How an agent answers an update push: its SSH connection, and how each stage
      of the update command would go there. */
  datatype Agent = Agent(link: Peer, stages: Stages)

  /** The agent as the remote executor sees it while it runs UpdateCommand: the
      command's exit status is the `&&` chain's. */
  function PushPeer(a: Agent): Peer {
    a.link.(exitOk := ChainExitOk(StageResults(a.stages)))
  }

  /** The connection steps of a push (every step before the wait) succeed. */
  predicate Connects(key: KeyFile, link: Peer) {
    forall j :: 0 <= j < |PushSteps| - 1 ==> Succeeds(PushSteps[j], key, link)
  }

  /** A push reports success exactly when the agent is reached and all four
      stages (stage, install, chmod, restart) succeed; it reports the wait's
      failure exactly when the agent is reached but some stage fails. */
  lemma PushSucceedsIff(key: KeyFile, a: Agent)
    ensures FirstFailure(PushSteps, key, PushPeer(a)).None?
            <==> Connects(key, a.link) && AllSucceeded(StageResults(a.stages), |UpdateStages|)
    ensures FirstFailure(PushSteps, key, PushPeer(a)) == Some(Wait)
            <==> Connects(key, a.link) && !AllSucceeded(StageResults(a.stages), |UpdateStages|)
  {
    var p := PushPeer(a);
    ChainExitStatus(StageResults(a.stages));
    assert forall j :: 0 <= j < |PushSteps| - 1 ==> (Succeeds(PushSteps[j], key, p) <==> Succeeds(PushSteps[j], key, a.link));
    var k := FailingIndex(PushSteps, key, p);
    assert PushSteps[5] == Wait;
    assert forall j :: 0 <= j < 5 ==> PushSteps[j] != Wait;
  }

  /** A host's outcome, reported under its name: the failing step, if any. */
  datatype HostReport = HostReport(name: string, failure: Option<Step>)

  /** How an update ended: stopped before any push, or with, per inventory entry,
      what that push delivered (if the remote command was started) and the
      host's report. */
  datatype UpdateRun =
    | EmptyInventory
    | BinaryUnreadable
    | Pushed(deliveries: seq<Option<Delivery>>, reports: seq<HostReport>)

  /** A report list built from the pushes' first failures says, host by host,
      whether the agent was reached and all four stages succeeded. */
  lemma ReportsMeanStages(inv: seq<HostEntry>, key: KeyFile, agents: string -> Agent, reports: seq<HostReport>)
    requires |reports| == |inv|
    requires forall k :: 0 <= k < |inv| ==>
               reports[k] == HostReport(inv[k].name, FirstFailure(PushSteps, key, PushPeer(agents(inv[k].ip))))
    ensures forall k :: 0 <= k < |inv| ==>
              (reports[k].failure.None? <==>
                 Connects(key, agents(inv[k].ip).link)
                 && AllSucceeded(StageResults(agents(inv[k].ip).stages), |UpdateStages|))
  {
    forall k | 0 <= k < |inv|
      ensures reports[k].failure.None? <==>
                Connects(key, agents(inv[k].ip).link)
                && AllSucceeded(StageResults(agents(inv[k].ip).stages), |UpdateStages|)
    {
      PushSucceedsIff(key, agents(inv[k].ip));
    }
  }

  /** What one host's push ends in: its report under the host's name carries the
      push's first failing step, and it delivered exactly when the remote command
      was started, `data` under UpdateCommand to the host's address. */
  predicate HostPushed(host: HostEntry, data: Bytes, key: KeyFile, agents: string -> Agent,
                       delivered: Option<Delivery>, report: HostReport)
  {
    && report == HostReport(host.name, FirstFailure(PushSteps, key, PushPeer(agents(host.ip))))
    && (delivered.Some? <==> report.failure.None? || report.failure == Some(Wait))
    && (delivered.Some? ==> delivered.value == Delivery(host.ip, UpdateCommand, data))
  }

  /** One host's push: the update command run at the host's address with `data`
      on its stdin, reported under the host's name. It delivers exactly when the
      remote command was started, and then delivers `data` under UpdateCommand
      to that address. */
  method PushHost(host: HostEntry, data: Bytes, key: KeyFile, agents: string -> Agent)
    returns (delivered: Option<Delivery>, report: HostReport)
    ensures report == HostReport(host.name, FirstFailure(PushSteps, key, PushPeer(agents(host.ip))))
    ensures delivered.Some? <==> report.failure.None? || report.failure == Some(Wait)
    ensures delivered.Some? ==> delivered.value == Delivery(host.ip, UpdateCommand, data)
  {
    var net := (ip: string, command: string) => PushPeer(agents(ip));
    var err;
    err, delivered := ExecuteRemoteWithInput(key, net, host.ip, UpdateCommand, data);
    assert err == FirstFailure(PushSteps, key, PushPeer(agents(host.ip))) by {
      assert net(host.ip, UpdateCommand) == PushPeer(agents(host.ip));
    }
    report := HostReport(host.name, err);
  }

  /** The fan-out of UpdateAllChildren: one push of `data` per inventory entry,
      to the entry's address, each host's report under its name. A push
      delivers exactly when the remote command was started, and what it
      delivers is `data` under UpdateCommand to that address. */
  method PushToAll(inv: seq<HostEntry>, data: Bytes, key: KeyFile, agents: string -> Agent)
    returns (deliveries: seq<Option<Delivery>>, reports: seq<HostReport>)
    ensures |deliveries| == |inv| && |reports| == |inv|
    ensures forall i :: 0 <= i < |inv| ==> HostPushed(inv[i], data, key, agents, deliveries[i], reports[i])
  {
    deliveries := [];
    reports := [];
    var i := 0;
    while i < |inv|
      invariant 0 <= i <= |inv|
      invariant |deliveries| == i && |reports| == i
      invariant forall k :: 0 <= k < i ==> HostPushed(inv[k], data, key, agents, deliveries[k], reports[k])
    {
      var delivered, report := PushHost(inv[i], data, key, agents);
      deliveries := deliveries + [delivered];
      reports := reports + [report];
      i := i + 1;
    }
  }

  /** UpdateAllChildren: no hosts or an unreadable local binary stop it before
      any push; otherwise one push per inventory entry (duplicates included), to
      the entry's address, all with the same payload and command. Each host's
      outcome is reported under its name, independently of the others, and it
      is a success exactly when the agent was reached and all four stages of
      the update succeeded there. */
  method UpdateAllChildren(fleetDoc: Document<HostEntry>, binary: Option<Bytes>, key: KeyFile,
                           agents: string -> Agent)
    returns (run: UpdateRun)
    ensures var inv := LoadInventory(fleetDoc);
            && (inv == [] ==> run == EmptyInventory)
            && (inv != [] && binary.None? ==> run == BinaryUnreadable)
            && (inv != [] && binary.Some? ==>
              && run.Pushed?
              && |run.deliveries| == |inv| && |run.reports| == |inv|
              && (forall i :: 0 <= i < |inv| ==>
                    (run.deliveries[i].Some? <==> run.reports[i].failure.None? || run.reports[i].failure == Some(Wait)))
              && (forall i :: 0 <= i < |inv| ==>
                    run.deliveries[i].Some? ==> run.deliveries[i].value == Delivery(inv[i].ip, UpdateCommand, binary.value))
              && (forall i :: 0 <= i < |inv| ==>
                    run.reports[i] == HostReport(inv[i].name, FirstFailure(PushSteps, key, PushPeer(agents(inv[i].ip)))))
              && (forall i :: 0 <= i < |inv| ==>
                    (run.reports[i].failure.None? <==>
                       Connects(key, agents(inv[i].ip).link)
                       && AllSucceeded(StageResults(agents(inv[i].ip).stages), |UpdateStages|))))
  {
    var inv := LoadInventory(fleetDoc);
    if |inv| == 0 {
      return EmptyInventory;
    }
    if binary.None? {
      return BinaryUnreadable;
    }
    var deliveries, reports := PushToAll(inv, binary.value, key, agents);
    ReportsMeanStages(inv, key, agents, reports);
    run := Pushed(deliveries, reports);
  }
}
