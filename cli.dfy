/** The orchestrator's command line (cmd/neurader/main.go): argument guards,
    command selection, and the commands that drive the registry, the remote
    executor and the upgrade. */
module Cli {
  import opened Store
  import opened Text
  import Api
  import Executor
  import Updater
  import SelfUpdate

  /** What the arguments select. The `...Usage` commands are the guarded
      commands given too few arguments. */
  datatype Command =
    | Help
    | ShowVersion
    | Install
    | Init
    | Upgrade
    | Daemon
    | ListPending
    | AcceptUsage
    | Accept(ip: string)
    | ListFleet
    | GkeDaemon
    | GkeInstall
    | AddUsage
    | Add(alias: string, ip: string)
    | RunUsage
    | Run(targets: seq<string>, command: string)
    | UnknownCommand(name: string)

  /** Command selection over the whole argument vector (`args[0]` is the
      program name). */
  function Parse(args: seq<string>): (c: Command)
    ensures c == Help <==> |args| < 2
    ensures |args| >= 2 && args[1] == "accept" ==>
              (|args| < 3 ==> c == AcceptUsage) && (|args| >= 3 ==> c == Accept(args[2]))
    ensures |args| >= 2 && args[1] == "add" ==>
              (|args| < 4 ==> c == AddUsage) && (|args| >= 4 ==> c == Add(args[2], args[3]))
    ensures |args| >= 2 && args[1] == "run" ==>
              (|args| < 4 ==> c == RunUsage)
              && (|args| >= 4 ==> c.Run? && c.command == args[3]
                                  && |c.targets| >= 1
                                  && Join(c.targets, [',']) == args[2]
                                  && forall t :: t in c.targets ==> ',' !in t)
    ensures |args| >= 2 && args[1] == "upgrade" ==> c == Upgrade
    ensures c.UnknownCommand? ==> |args| >= 2 && c.name == args[1]
  {
    if |args| < 2 then Help
    else
      match args[1]
      case "version" => ShowVersion
      case "install" => Install
      case "init" => Init
      case "upgrade" => Upgrade
      case "daemon" => Daemon
      case "pending" => ListPending
      case "accept" => if |args| < 3 then AcceptUsage else Accept(args[2])
      case "list" => ListFleet
      case "gke-daemon" => GkeDaemon
      case "gke-install" => GkeInstall
      case "add" => if |args| < 4 then AddUsage else Add(args[2], args[3])
      case "run" =>
        if |args| < 4 then RunUsage
        else
          var targets := Split(args[2], ',');
          JoinSplit(args[2], ',');
          Run(targets, args[3])
      case _ => UnknownCommand(args[1])
  }

  /** The outside world one invocation sees: the executor's inventory document
      and private key, how the machine at each address answers a command run
      there, how the agent at each address answers an update push, what the
      status probe started for each inventory entry finds, the
      master public key and the agents' answers to it, the alias typed at the
      `accept` prompt, the self-upgrade's conditions, and whether the
      configuration directory can be created. */
  datatype Environment = Environment(
    fleetDoc: Document<Executor.HostEntry>,
    sshKey: Executor.KeyFile,
    shell: Executor.Network,
    agents: string -> Updater.Agent,
    probe: Executor.Probe,
    pubKey: Option<Bytes>,
    finalize: (string, Bytes) -> Api.PostResult,
    typedAlias: string,
    upgrade: SelfUpdate.Conditions,
    configDirOk: bool)

  /** What an invocation did, as far as the model observes it. */
  datatype Effect =
    | Printed
    | Handshake(pass: Api.HandshakePass)
    | UpgradeDone(selfErr: Option<SelfUpdate.UpgradeError>, fleet: Option<Updater.UpdateRun>)
    | PendingReset
    | PendingShown(entries: seq<Api.HostEntry>)
    | AcceptDone(outcome: Api.AcceptOutcome)
    | Listed(listing: Executor.Listing)
    | AddDone(written: bool)
    | RunDone(announced: nat, jobs: seq<string>, outcomes: seq<Executor.RunOutcome>)
    | NotModelled

  /** The `add` case: unless the configuration directory cannot be created,
      one entry is appended to the active inventory, with no duplicate check. */
  method AddHost(reg: Api.Registry, alias: string, ip: string, configDirOk: bool) returns (written: bool)
    modifies reg
    ensures written == configDirOk
    ensures reg.pendingDoc == old(reg.pendingDoc)
    ensures !written ==> reg.activeDoc == old(reg.activeDoc)
    ensures written ==> reg.activeDoc == Stored(old(reg.Active()) + [Api.HostEntry(alias, ip, false)])
  {
    if !configDirOk {
      return false;
    }
    var inventory := reg.Active();
    inventory := inventory + [Api.HostEntry(alias, ip, false)];
    reg.activeDoc := Stored(inventory);
    written := true;
  }

  /** What the fleet push of `body` over inventory `inv`, with the executor's
      key and the agents as they answer, ends in: an empty inventory pushes
      nothing; otherwise each host is reported under its name with the first
      failing step of its push, which is none exactly when the agent was
      reached and all four stages succeeded, and each push that started the
      remote command delivered exactly `body` under the update command to the
      entry's address. */
  predicate FleetPushed(run: Updater.UpdateRun, inv: seq<Executor.HostEntry>, body: Bytes,
                        key: Executor.KeyFile, agents: string -> Updater.Agent)
  {
    && (inv == [] ==> run == Updater.EmptyInventory)
    && (inv != [] ==>
          && run.Pushed?
          && |run.deliveries| == |inv| && |run.reports| == |inv|
          && (forall i :: 0 <= i < |inv| ==>
                run.reports[i]
                == Updater.HostReport(inv[i].name,
                                      Executor.FirstFailure(Executor.PushSteps, key, Updater.PushPeer(agents(inv[i].ip)))))
          && (forall i :: 0 <= i < |inv| ==>
                (run.reports[i].failure.None? <==>
                   Updater.Connects(key, agents(inv[i].ip).link)
                   && Updater.AllSucceeded(Updater.StageResults(agents(inv[i].ip).stages), |Updater.UpdateStages|)))
          && (forall i :: 0 <= i < |inv| ==>
                (run.deliveries[i].Some? <==>
                   run.reports[i].failure.None? || run.reports[i].failure == Some(Executor.Wait)))
          && (forall i :: 0 <= i < |inv| ==>
                run.deliveries[i].Some? ==>
                  run.deliveries[i].value == Executor.Delivery(inv[i].ip, Updater.UpdateCommand, body)))
  }

  /** The `upgrade` case: the fleet push reads the freshly installed binary and
      runs only when the self-upgrade succeeded. */
  method GlobalUpgrade(fs: SelfUpdate.FileSystem, env: Environment) returns (effect: Effect)
    modifies fs
    ensures effect.UpgradeDone?
    ensures SelfUpdate.Upgrade(effect.selfErr, fs.files) == SelfUpdate.Upgraded(old(fs.files), env.upgrade)
    ensures effect.fleet.Some? <==> effect.selfErr.None?
    ensures effect.fleet.Some? ==>
              FleetPushed(effect.fleet.value, Executor.LoadInventory(env.fleetDoc), env.upgrade.download.body,
                          env.sshKey, env.agents)
  {
    var err := fs.FetchAndUpgrade(env.upgrade);
    if err.Some? {
      return UpgradeDone(err, None);
    }
    var binary: Option<Bytes> := None;
    if Updater.BinaryPath in fs.files {
      binary := Some(fs.files[Updater.BinaryPath]);
    }
    var run := Updater.UpdateAllChildren(env.fleetDoc, binary, env.sshKey, env.agents);
    effect := UpgradeDone(err, Some(run));
  }

  /** One invocation of the program, after argument parsing. */
  method Execute(cmd: Command, reg: Api.Registry, fs: SelfUpdate.FileSystem, env: Environment)
    returns (effect: Effect)
    modifies reg, fs
    ensures !cmd.Upgrade? ==> fs.files == old(fs.files)
    ensures !(cmd.Daemon? || cmd.Accept? || cmd.Add?) ==>
              reg.pendingDoc == old(reg.pendingDoc) && reg.activeDoc == old(reg.activeDoc)
    ensures (|| cmd.Help? || cmd.ShowVersion? || cmd.UnknownCommand?
             || cmd.AcceptUsage? || cmd.AddUsage? || cmd.RunUsage?) ==> effect == Printed
    ensures cmd.Init? ==>
              && effect.Handshake?
              && var active := reg.Active();
                 && (active == [] ==> effect.pass == Api.EmptyInventory)
                 && (active != [] && env.pubKey.None? ==> effect.pass == Api.KeyUnreadable)
                 && (active != [] && env.pubKey.Some? ==>
                       && effect.pass.Attempted?
                       && |effect.pass.attempts| == |active|
                       && forall i :: 0 <= i < |active| ==>
                            effect.pass.attempts[i]
                            == Api.Attempt(active[i].name, active[i].ip, env.finalize(active[i].ip, env.pubKey.value)))
    ensures cmd.Upgrade? ==> effect.UpgradeDone?
                             && SelfUpdate.Upgrade(effect.selfErr, fs.files) == SelfUpdate.Upgraded(old(fs.files), env.upgrade)
                             && (effect.fleet.Some? <==> effect.selfErr.None?)
                             && (effect.fleet.Some? ==>
                                   FleetPushed(effect.fleet.value, Executor.LoadInventory(env.fleetDoc),
                                               env.upgrade.download.body, env.sshKey, env.agents))
    ensures cmd.Daemon? ==> effect == PendingReset && reg.Pending() == []
                            && reg.activeDoc == old(reg.activeDoc)
    ensures cmd.ListPending? ==> effect == PendingShown(reg.Pending())
    ensures cmd.Accept? ==>
              && effect.AcceptDone?
              && var pending, active, ip, outcome := old(reg.Pending()), old(reg.Active()), cmd.ip, effect.outcome;
                 && (!Api.HasIP(pending, ip) ==> outcome == Api.NotPending)
                 && (Api.HasIP(pending, ip) && env.pubKey.None? ==> outcome == Api.PublicKeyMissing)
                 && ((Api.HasIP(pending, ip) && env.pubKey.Some? && env.finalize(ip, env.pubKey.value) != Api.Status(200))
                       ==> outcome == Api.HandshakeFailed)
                 && (outcome.Accepted? <==>
                       Api.HasIP(pending, ip) && env.pubKey.Some? && env.finalize(ip, env.pubKey.value) == Api.Status(200))
                 && (!outcome.Accepted? ==> reg.pendingDoc == old(reg.pendingDoc) && reg.activeDoc == old(reg.activeDoc))
                 && (outcome.Accepted? ==>
                       && outcome.alias == (if env.typedAlias == "" then Api.LastWithIP(pending, ip).name else env.typedAlias)
                       && reg.activeDoc == Stored(active + [Api.HostEntry(outcome.alias, ip, false)])
                       && reg.pendingDoc == Stored(Api.WithoutIP(pending, ip)))
    ensures cmd.ListFleet? ==>
              && effect.Listed?
              && var inv := Executor.LoadInventory(env.fleetDoc);
                 && (inv == [] <==> effect.listing == Executor.NoHosts)
                 && (effect.listing.Table? ==>
                       && |effect.listing.rows| == |inv|
                       && forall i :: 0 <= i < |inv| ==>
                            effect.listing.rows[i]
                            == Executor.Row(inv[i].name, inv[i].ip, Executor.StatusOf(env.probe(Executor.Decisive(inv, i), inv[i].ip))))
    ensures cmd.Add? ==>
              && effect == AddDone(env.configDirOk)
              && reg.pendingDoc == old(reg.pendingDoc)
              && (env.configDirOk ==> reg.activeDoc == Stored(old(reg.Active()) + [Api.HostEntry(cmd.alias, cmd.ip, false)]))
              && (!env.configDirOk ==> reg.activeDoc == old(reg.activeDoc))
    ensures cmd.Run? ==> effect.RunDone? && effect.announced == |cmd.targets|
                         && effect.jobs == Executor.Jobs(cmd.targets)
                         && |effect.outcomes| == |effect.jobs|
                         && var inv := Executor.LoadInventory(env.fleetDoc);
                            forall i :: 0 <= i < |effect.jobs| ==>
                              effect.outcomes[i]
                              == Executor.RunOutcomeOf(env.sshKey,
                                                       env.shell(Executor.ResolveTarget(inv, effect.jobs[i]), cmd.command),
                                                       effect.jobs[i])
    ensures cmd.Install? || cmd.GkeDaemon? || cmd.GkeInstall? ==> effect == NotModelled
  {
    match cmd
    case Help => effect := Printed;
    case ShowVersion => effect := Printed;
    case UnknownCommand(_) => effect := Printed;
    case AcceptUsage => effect := Printed;
    case AddUsage => effect := Printed;
    case RunUsage => effect := Printed;
    case Install => effect := NotModelled;
    case GkeDaemon => effect := NotModelled;
    case GkeInstall => effect := NotModelled;
    case Init =>
      var pass := reg.ProactiveHandshake(env.pubKey, env.finalize);
      effect := Handshake(pass);
    case Upgrade =>
      effect := GlobalUpgrade(fs, env);
    case Daemon =>
      reg.ResetPending();
      effect := PendingReset;
    case ListPending =>
      effect := PendingShown(reg.Pending());
    case Accept(ip) =>
      var outcome := reg.AcceptHost(ip, env.typedAlias, env.pubKey, env.finalize);
      effect := AcceptDone(outcome);
    case ListFleet =>
      var listing := Executor.ListHosts(Executor.LoadInventory(env.fleetDoc), env.probe);
      effect := Listed(listing);
    case Add(alias, ip) =>
      var written := AddHost(reg, alias, ip, env.configDirOk);
      effect := AddDone(written);
    case Run(targets, command) =>
      var announced, jobs, outcomes :=
        Executor.ExecuteRemoteMulti(Executor.LoadInventory(env.fleetDoc), env.sshKey, env.shell, targets, command);
      effect := RunDone(announced, jobs, outcomes);
  }
}
