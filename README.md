# neurader — a Dafny model of the orchestrator's core

neurader is a jump-box orchestrator. Agents announce themselves to it over
HTTP, an operator accepts them into an active inventory (which pushes the
master public key to the agent), commands are fanned out to hosts over SSH,
and the jump box upgrades itself and then pushes its new binary to the fleet.
This project models the decision logic of that core and proves what it
promises:

- `Store`: the YAML documents as abstract values. A document that cannot be
  read loads as an empty host list.
- `Text`: the parts of Go's `strings` package the core relies on (`Split`
  with a one-character separator, and `TrimSpace` with Unicode white space),
  with their properties. `Join` is not called by the core. It is defined here
  only to state that the split loses nothing.
- `Api` (internal/api/server.go): the pending and active registry as a class
  over two documents. It covers the daemon's pending reset, the registrant
  address, idempotent announcement, acceptance, and the
  read-only re-handshake pass. The per-address state machine Unknown →
  Pending → Active is stated as lemmas. Acceptance waits for the agent to
  answer 200. It then drops every pending entry of the address and appends ONE
  entry to active, named after the typed alias or, when none is typed, the
  last pending entry of the address.
- `Executor` (internal/ssh/executor.go): the executor's own inventory, alias
  resolution, the early-return step order of `ExecuteRemote` and
  `ExecuteRemoteWithInput`, line tagging, the comma-list fan-out (trim, skip
  blanks, keep duplicates), and the `ListHosts` join of rows with a status map
  keyed by address.
- `Updater` (internal/ssh/updater.go): the cascading push, with one push per
  inventory entry, the same payload and command for all, and a report per
  host. Also the `&&` semantics of the remote command.
- `SelfUpdate` (internal/system/update.go): download to `dest + ".tmp"`, then
  rename over `dest`, on a map from paths to contents. The installed binary
  changes only when every step succeeds.
- `Cli` (cmd/neurader/main.go): argument guards, command selection, the `add`
  append, and the rule that the fleet push runs only after a successful
  self-upgrade.

Network and disk outcomes are parameters:
- the finalize POST answer per address;
- how the machine at each address answers a given command over SSH, as a `Peer` record;
- how the agent at each address answers an update push;
- which of the four stages of the update command would succeed on each agent;
- what the status probe started for each inventory entry finds when it dials that entry's address;
- whether the private key is readable and parsable;
- the download, create, copy and rename outcomes;
- the alias typed at the prompt.

Fan-out that the source runs in goroutines is modelled as a sequential loop
that records one result per host. The executor reads `/etc/sentinex/hosts.yml`
while the registry writes `/etc/neurader/hosts.yml`, so the model keeps the
executor's inventory (`Environment.fleetDoc`) separate from the registry's
active document.

Two behaviours of the code are modelled as written, although one might expect otherwise:
- The daemon start rewrites the pending document empty (server.go:39), so an
  address can go back from Pending to Unknown.
- `ListHosts` shows two statuses, Connected and Disconnected.

## Model

| member | source | states |
|---|---|---|
| Store.Load | internal/api/server.go:175-181 | an unreadable document loads as the empty host list; a readable one as its hosts |
| Text.Split | internal/api/server.go:43 | at least one piece; no piece contains the separator; the first piece is the input's prefix up to the first separator (the whole input when there is none) |
| Text.JoinSplit | cmd/neurader/main.go:117 | joining the pieces of a split with the separator gives back the input |
| Text.SplitJoin | cmd/neurader/main.go:117 | splitting a join of separator-free pieces gives back exactly those pieces |
| Text.TrimLeftSpec | internal/ssh/executor.go:124 | trimming on the left drops a suffix-preserving prefix of white space only, and the result does not start with white space |
| Text.TrimRightSpec | internal/ssh/executor.go:124 | trimming on the right keeps a prefix, drops only white space, and the result does not end with white space |
| Text.TrimSpaceSpec | internal/ssh/executor.go:124 | the trimmed string is a contiguous piece of the input with only white space around it, and it neither starts nor ends with white space |
| Text.TrimSpaceEmptyIffBlank | internal/ssh/executor.go:124-127 | a target trims to "" exactly when it is all white space |
| Text.TrimSpaceIdempotent | internal/ssh/executor.go:124 | trimming twice is trimming once |
| Api.RegistrantIP | internal/api/server.go:43 | the registrant address has no ':', is a prefix of the remote address, and is followed by ':' when shorter (the whole address when it has no ':') |
| Api.LastWithIP | internal/api/server.go:72-76 | the entry the acceptance scan keeps is one with that address, and no later entry has it |
| Api.ScanStep | internal/api/server.go:72-79 | each entry the acceptance scan visits is either a match, which becomes its target and is dropped, or an entry kept at the end of the rebuilt pending list |
| Api.AdmitIdempotent | internal/api/server.go:55-62 | announcing an address a second time, under any name, leaves the pending list as after the first |
| Api.AdmitKeepsUnique | internal/api/server.go:55-62 | announcements keep every address pending at most once, and the announced address is pending afterwards |
| Api.WithoutIPMembers | internal/api/server.go:72-79 | removal keeps exactly the entries whose address differs |
| Api.WithoutIPAppend | internal/api/server.go:72-79 | removal distributes over concatenation, so the survivors keep their relative order |
| Api.WithoutAbsentIP | internal/api/server.go:72-79 | removing an address that is not pending changes nothing |
| Api.AcceptTransition | internal/api/server.go:108-110 | after acceptance the address is Active and no longer pending, and every other address keeps its state |
| Api.AnnounceTransition | internal/api/server.go:42-45 | announcing an Unknown address makes it Pending, and every other address keeps its state |
| Api.Registry.ResetPending | internal/api/server.go:39 | daemon start: the pending document is rewritten empty, and the active one is untouched |
| Api.Registry.SavePending | internal/api/server.go:55-62 | a pending address leaves the document unwritten; a new one is appended as one entry at the end; the active document is untouched |
| Api.Registry.Register | internal/api/server.go:41-46 | the `/register` handler admits the registrant address under the given name, and that address is pending afterwards |
| Api.Registry.AcceptHost | internal/api/server.go:64-113 | an address that is not pending, a missing public key, or a non-200/failed POST writes nothing; otherwise the alias (typed, or the pending name when empty) is appended to active with no duplicate check, and pending loses every entry of that address, order kept; accepted iff pending, key present and 200 |
| Api.Registry.ProactiveHandshake | internal/api/server.go:192-226 | writes nothing; an empty inventory or a missing key makes no POST; otherwise one POST per active entry, in order, past failures |
| Executor.FailingIndex | internal/ssh/executor.go:188-228 | the index of the first failing step: every step before it succeeds and the step at it fails |
| Executor.FirstFailureSpec | internal/ssh/executor.go:188-228 | no error iff every step succeeds; an error is that of the first failing step |
| Executor.FirstFailureAt | internal/ssh/executor.go:188-228 | a step that fails after only successes is the reported failure |
| Executor.LoadInventory | internal/ssh/executor.go:289-297 | an unreadable inventory is empty; a readable one gives its hosts |
| Executor.ResolveTarget | internal/ssh/executor.go:279-287 | the address of the first entry whose name equals the target; the target itself when no name matches, even if it equals some entry's address |
| Executor.StreamOutput | internal/ssh/executor.go:272-277 | one printed line per line read, each prefixed with "[target] ", in order |
| Executor.RunOutcomeSpec | internal/ssh/executor.go:69-117 | the outcome ExecuteRemote reports is the first failure of its checked steps (key read, key parse, dial, session, start): a key problem is reported before any dial, a connection failure under the typed target and not the resolved address, and completion iff every step succeeds |
| Executor.OutcomesAt | internal/ssh/executor.go:123-135 | the fan-out's outcome list has one entry per job, each the outcome of running that job alone |
| Executor.ExecuteRemote | internal/ssh/executor.go:69-117 | the outcome is RunOutcomeOf for how the resolved address answers the given command; it dials the resolved address exactly when the key is usable; on completion both streams are printed tagged with the typed target, otherwise nothing |
| Executor.ExecuteRemoteWithInput | internal/ssh/executor.go:188-228 | the error is the first failing step in the order key read, dial, session, stdin pipe, start, wait; the payload is delivered to the address exactly when start succeeded, and the result is then the wait's |
| Executor.JobsComeFromTargets | internal/ssh/executor.go:123-135 | every job is the non-empty trimmed form of some target |
| Executor.EveryTargetBecomesJob | internal/ssh/executor.go:123-135 | every target that does not trim to "" becomes a job |
| Executor.JobsKeepEveryTarget | internal/ssh/executor.go:123-135 | with no blank targets, there is one job per target, in order, duplicates included |
| Executor.JobsAtMostTargets | internal/ssh/executor.go:123-135 | never more jobs than targets |
| Executor.ExecuteRemoteMulti | internal/ssh/executor.go:119-138 | the announced count is the raw target count; the jobs are Jobs(targets); each job's outcome is what ExecuteRemote reports for it when the given command runs at the job's resolved address |
| Executor.StatusOf | internal/ssh/executor.go:263-270 | a host shows Connected exactly when the dial to its SSH port succeeds, Disconnected otherwise |
| Executor.LastWith | internal/ssh/executor.go:250-251 | the last of the first n entries that carries the address, every later one carrying another (-1 when none does) |
| Executor.Decisive | internal/ssh/executor.go:245-258 | the probe whose answer entry i shows is that of the last entry sharing its address |
| Executor.RecordStep | internal/ssh/executor.go:245-255 | writing the next probe's answer into the status map keeps every recorded address at its latest probe's answer |
| Executor.ProbeAll | internal/ssh/executor.go:241-255 | after one probe per entry, each dialling the entry's own address and writing its answer under that address, every address holds the answer of its decisive probe |
| Executor.ListHosts | internal/ssh/executor.go:230-261 | an empty inventory probes nothing; otherwise one probe per entry, dialling the entry's address, fills a status map keyed by address, and one row per entry is listed, in order, showing the answer of the last probe of its address, so entries sharing an address show the same status |
| Updater.UpdateCommandChainsStages | internal/ssh/updater.go:40-43 | the remote command is the four stages (stage, install, chmod, restart) joined with " && " |
| Updater.StagesRun | internal/ssh/updater.go:40-43 | under `&&`, a stage runs exactly when every earlier stage succeeded |
| Updater.ChainExitStatus | internal/ssh/updater.go:40-43 | the chain's exit status, that of the last stage it ran, is 0 exactly when every stage succeeds |
| Updater.PushSucceedsIff | internal/ssh/updater.go:40-51 | a push of the update command reports success exactly when the agent is reached and all four stages succeed there, and the wait's failure exactly when it is reached but some stage fails |
| Updater.ReportsMeanStages | internal/ssh/updater.go:46-51 | host by host, a report of no error means the agent was reached and all four stages succeeded there |
| Updater.PushHost | internal/ssh/updater.go:36-52 | one host's push runs the update command at the host's address with the binary on stdin; the report, under the host's name, carries the push's first failing step; it delivers exactly when the report is success or the wait's failure, and then delivers the binary under the update command to that address |
| Updater.PushToAll | internal/ssh/updater.go:34-53 | one push per entry, each ending as PushHost promises for that entry: report under the entry's name with its first failing step, and delivery of the given payload under the update command to the entry's own address exactly when the remote command started |
| Updater.UpdateAllChildren | internal/ssh/updater.go:15-57 | an empty inventory or an unreadable binary stops before any push; otherwise one push per entry, duplicates included; every push that starts the remote command delivers the binary under the update command to the entry's own address; each host is reported under its name, independently of the others, as a success exactly when it was reached and all four stages succeeded |
| SelfUpdate.Streamed | internal/system/update.go:47-51 | a broken copy leaves a prefix of the body; a complete one the whole body |
| SelfUpdate.Upgraded | internal/system/update.go:21-63 | only the destination and temp paths change; success iff 200, create, complete copy and rename all succeed; on failure the destination is unchanged; on success it holds exactly the body and the temp path is gone; connect or status errors change nothing |
| SelfUpdate.FailureLeavesTemp | internal/system/update.go:41-59 | a broken stream or a failed rename leaves a prefix of the body (the whole body after a complete copy) in the temp file |
| SelfUpdate.UpgradeIndependentOfInstalled | internal/system/update.go:56 | whether the upgrade succeeds, and what it installs, do not depend on the binary previously installed |
| SelfUpdate.FileSystem.FetchAndUpgrade | internal/system/update.go:21-63 | the step-by-step upgrade ends in the error and file system that Upgraded gives |
| Cli.Parse | cmd/neurader/main.go:18-124 | fewer than two arguments is help; `accept` needs 3 arguments, `add` and `run` need 4; the run targets are argv[2] split on ',' (they join back to it, and none contains ',') |
| Cli.AddHost | cmd/neurader/main.go:88-110 | unless the configuration directory cannot be created, exactly one {alias, ip} is appended at the end of the active inventory, with no duplicate check; pending is untouched |
| Cli.GlobalUpgrade | cmd/neurader/main.go:35-44 | the fleet push runs iff the self-upgrade returned no error; it then ends as UpdateAllChildren promises for the executor's inventory, the executor's key, the agents and the downloaded body: an empty inventory pushes nothing; otherwise each host is reported under its name with its first failing step, as a success exactly when the agent was reached and all four stages succeeded, and every push that starts the remote command delivers exactly the downloaded body under the update command to its entry's address |
| Cli.Execute | cmd/neurader/main.go:18-124 | each command touches only its own state. Usage and help cases change nothing. `init` gives the re-handshake pass over the active inventory. `upgrade` gives the self-upgrade's result and, only after success, the fleet push's result as GlobalUpgrade states it. `daemon` empties pending. `accept <ip>` gives AcceptHost's outcome (not pending, key missing, handshake failed, accepted) and new registry for that address and the typed alias. `list` gives the status table. `add` appends one entry. `run` announces the raw count and gives each job's outcome for argv[3] at the job's resolved address |

## Left out

- Network I/O (SSH dialling and sessions, HTTP GET/POST, TCP probes, timeouts) is not modelled. Its outcomes are parameters.
- The HTTP server loop of `StartRegistrationServer` is not modelled. Its start (the pending reset) and its handler (`Register`) are.
- Key material is not modelled: RSA generation and PEM/authorized-key encoding in `GenerateMasterKeys` are crypto library calls.
- The public key is an opaque byte string.
- YAML encoding is not modelled. A document is either unreadable or a host list.
- Failures of `writeData` are not modelled. They are printed and ignored, so the model treats every write as taking effect.
- Goroutines, the `WaitGroup`, the `ListHosts` mutex and the interleaving of output lines are not modelled.
  - Fan-out is a sequential loop, so the per-host results are in inventory order.
  - Executor.ListHosts: the probes of entries that share an address run concurrently, so whichever answer reaches the status map last is shown. The model writes the answers in inventory order, so the last entry's probe wins.
  - Each output stream keeps its own order.
- Executor.ExecuteRemote: the source starts the two `streamOutput` goroutines and returns after `session.Wait` without waiting for them (internal/ssh/executor.go:113-116), so the last lines of a job can be lost when `run` exits. The model prints every line of both streams.
- Executor.StreamOutput: the source reads with a `bufio.Scanner` and ignores its error (internal/ssh/executor.go:272-277), so a line longer than 64 KiB stops the stream and the rest is not printed. The model prints every line. Both points come from reading the code.
- Executor.ExecuteRemoteWithInput: the source ignores the private-key parse error (internal/ssh/executor.go:194), so a nil signer reaches `ssh.PublicKeys`. By a reading of the SSH library, not an execution, a reachable host would then make the process panic instead of returning an error. The model reports a failed dial instead.
- Executor.ExecuteRemoteWithInput: the result of writing the payload to stdin is ignored by the source and not modelled.
- The child-side `SendRequest` and its `/finalize` handler are not modelled. They write `authorized_keys` and sudoers and run `chown`, which are OS side effects on another machine.
- `ListPending` output formatting is not modelled. `Cli.Execute` returns the pending list it shows.
- Prompts, colours, tabwriter layout and printed messages are not modelled. The typed alias is a parameter.
- The second definition of `UpdateAllChildren` in internal/ssh/executor.go:144-182 is not modelled; it duplicates internal/ssh/updater.go in the same package.
- The `install` wizard, `gke-daemon` and `gke-install` commands are not modelled: they are systemd, `useradd`, Kubernetes and cloud-storage plumbing. `Cli.Execute` returns `NotModelled` for them and changes no modelled state.
- internal/system/service.go, cmd/sentinex/main.go, internal/k8s, internal/cloud and the GKE files are not part of this model.
- The `Synced` field is carried but never set or read, as in the source.
- Api.RegistrantIP splits at the first ':' exactly as the source does. A bracketed IPv6 remote address therefore yields "[" and its leading hex digits, not the address.
- `main.go` calls `api.LoadFile` and `api.WriteData`, but only lower-case versions exist. The model takes them to be `loadFile` and `writeData` on the active inventory path.
- server.go lacks the closing brace of `writeData`, so `ProactiveHandshake` is nested inside it. The model gives each function the meaning of its own body.
