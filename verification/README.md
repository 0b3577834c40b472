# Omahab: verified models of its recovery, streaming and lifecycle cores

Omahab runs a self-hosted server: it installs applications, backs the server up, restores
and upgrades it, and streams events to its clients. This project models the parts of it
that must stay correct when something stops, fails or interleaves in the middle, and
proves what they promise over whole runs. Nothing was executed; every claim below is a
contract that Dafny verifies.

`dafny verify dfyconfig.toml` checks the whole project.

| file | what it models |
|---|---|
| `SwapModel.dfy`, `SwapMachine.dfy`, `SwapRuns.dfy` | the crash-safe swap of the server configuration and its rollback, one system call at a time |
| `SseFormat.dfy`, `SseStream.dfy` | the event stream: the server loops that print it and the client loop that parses it |
| `AppCatalog.dfy`, `AppStore.dfy`, `AppService.dfy`, `AppRuns.dfy` | the application lifecycle controller over its stored rows and a runner that may fail at any call |
| `KeyedLocks.dfy` | the per-key locks, as a state machine over threads |
| `Upgrade.dfy` | the system upgrade with its health gate, rollback and promotion |
| `EnvFile.dfy` | the env file of a bundle: parse, merge, render |
| `Retention.dfy`, `BackupRuns.dfy` | snapshot retention, and the life of a backup run through failures and restarts |
| `ShellQuote.dfy` | the quoting of the ssh command of sftp repositories |
| `Text.dfy`, `Faults.dfy`, `Wrappers.dfy` | byte strings and lines, faults of single calls, optional values |

## How it is modelled

**Faults.** A call to the outside consumes one entry of a fault schedule: it proceeds, it
fails, or the machine stops before it. A method that returns `Crashed` has been cut off at
that point, so what it ensures holds at every point where the power can fail. `Quiet(n)`
says that from call `n` on nothing fails. All schedules are covered.

**The swap.** The disk is a map from owned paths to files and trees, and a rollback
directory with an index (absent, torn or complete) and preserved copies. The centre is
`RecoveredAt`: what a complete rollback would leave at a path, read off the disk alone.
`Recovers(fs, pre)` says that this is the state `pre` at every path. It is kept by every
step of every attempt and rollback, interrupted anywhere: inside a tree copy, inside the
backwards loop, inside the removal of the rollback directory.

**The controller.** The rows are maps in a class; a ghost log records the runner calls that
succeeded. The invariant starts from any store that satisfies it, not only from an empty one.

**The upgrade.** A host has generations, the tree each was built from, and a canonical
source tree. `Agrees` says that the running generation was built from the canonical tree.

## What was found

- An lstat before a destination is replaced treats every error as "nothing there"
  (`internal/backups/recovery_apply.go:383` and `:425`). If it errs on a path that exists, the
  staged tree is copied over an original that is not preserved. Anywhere in a swap the
  original survives every later fault if the overlay of the two trees is the original, and
  when nothing fails later only then (`SwapRuns.OverlookedOriginal`, `SwapRuns.OverlookedKey`). The theorems about the
  swap assume `Sighted`, that it never errs on a path that exists.
- Where a rename does not work and the original is a nonempty directory, a fallback copy
  that stops after its first call, by a power cut or by a plain I/O error, leaves an empty
  copy, anywhere in a swap (`SwapRuns.InterruptedFallback`); the rollback that follows trusts
  the copy and destroys the original (`SwapRuns.RollbackOfHalfKept`). The theorems assume
  `PreservableAt`: renames work, or each original is a file or an empty directory.
- A torn index makes every later attempt and rollback fail, for good; the comment at
  `internal/backups/recovery_apply.go:316-320` speaks only of a missing one. Nothing live has
  moved in that case.
- Keep names do collide across directories (`SwapModel.KeepNamesCollideAcrossDirectories`),
  against the comment at `internal/backups/recovery_apply.go:447-449`; within one directory,
  which is all the planner produces, they do not.
- A failed application rollback can leave an app running whose desired state is stopped,
  by two routes: the previous release deploys and the stop after it fails (recorded as
  running), or that deploy fails, the current release deploys again and the stop after that
  fails (recorded as failed). `AppService.Controller.Rollback` gives the exact condition on
  the answers of the outside, `LeftDeployed`, or neither deploy succeeds and it ran before.
- Uninstall does not respect a row that is being installed, except that it refuses a
  native bundle. A catalog swap while the install runs (a custom bundle removed or disabled
  by an apply, `internal/controlplane/bundles_ops.go:95-108`) takes that refusal away: an
  uninstall that then fails frees the row, a stop may follow, and the install's last write
  records as running what was stopped. Native in every catalog the install sees is the
  exact condition: with it an install ends as if alone under all interleavings
  (`AppRuns.InstallAmong`), without it there is a run that ends with a false row
  (`AppRuns.UninstallDuringInstall`).
- Retention and verification take different locks. A verification whose mark falls
  between the plan of a pass and its end loses the newest verified snapshot exactly when
  it restores a planned snapshot other than the newest verified one and the pass removes
  it without unlisting it: the forget succeeds and no deletion of its row, whose errors
  are ignored, does; or the forget fails and removes it all the same
  (`Retention.Repository.EnforceAroundVerify`).
- An env file that exists but cannot be read counts as empty, so its other keys are lost,
  although the comment at `internal/apps/systemd.go:57-60` says they are preserved
  (`EnvFile.KeysKept`).
- The agreement of running generation and canonical tree needs a rollback to reactivate the
  generation that was active before the switch. With a rollback to the one numbered just
  below, a rejected upgrade keeps the agreement exactly if the newest generation before it
  was built from the canonical tree (`Upgrade.RejectedOnce`, `Upgrade.SteppingBackAgrees`):
  after another rejected one, just when that had staged the canonical tree
  (`Upgrade.PrecedingGenerationIsNotEnough`).

## Model

| member | source | states |
|---|---|---|
| SwapModel.KeepNameInjective | internal/backups/recovery_apply.go:447-452 | within one directory, two destinations share a keep name only if they are the same path |
| SwapModel.KeepNameIsNotIndex | internal/backups/recovery_apply.go:450-452 | a preserved copy never overwrites index.json |
| SwapModel.CopyBesideIndex | internal/backups/recovery_apply.go:450-452 | in the one directory that holds both, writing a preserved copy is the model's step and leaves the index readable |
| SwapModel.OverPlain | internal/backups/recovery_apply.go:501-554 | over a file or an empty directory a fitting tree arrives as it is |
| SwapModel.FitsIs | internal/backups/recovery_apply.go:501-554 | two trees fit when no path is a file in one and a directory in the other |
| SwapModel.OverlaidIs | internal/backups/recovery_apply.go:501-554 | the overlay, path by path: every file and directory of the copied tree, and what stood there wherever it has nothing |
| SwapModel.LessIs | internal/backups/recovery_apply.go:513-517 | the order of a directory listing is decided at the first different byte, or by the shorter name |
| SwapModel.KeepNamesCollideAcrossDirectories | internal/backups/recovery_apply.go:447-452 | destinations in different directories with one keep name, by an ambiguous dash and by parents of one name |
| SwapModel.NothingMovedBeforeIndex | internal/backups/recovery_apply.go:348-369 | while the index is absent or torn, the live state is the state before the swap |
| SwapModel.RecoveryIsDetermined | internal/backups/recovery_apply.go:454-492 | one disk cannot stand for two different states before the swap |
| SwapModel.StepAt | internal/backups/recovery_apply.go:421-445 | a step confined to one destination and its keep copy, which leaves that destination recoverable, keeps the whole invariant |
| SwapModel.SettledStep | internal/backups/recovery_apply.go:491 | once everything is restored, the index and the copies may go in any order |
| SwapMachine.Machine.RemoveTree | internal/backups/recovery_apply.go:477 | a removal of a tree is complete when it succeeds; an interrupted one leaves part of it |
| SwapMachine.Machine.CopyTree | internal/backups/recovery_apply.go:501-554 | a copy that nothing interrupts leaves exactly the overlay of the two trees, entries in byte order up to the first that does not fit, and succeeds exactly where they fit; even interrupted it changes nothing where the overlay is what stood there; an interrupted copy of a file changes nothing |
| SwapMachine.Machine.CopyEntries | internal/backups/recovery_apply.go:513-522 | the same for the entries of a directory |
| SwapMachine.Machine.MoveAside | internal/backups/recovery_apply.go:494-499 | the keep copy equals the original and only that path and that copy changed, whether this rename works or the copy fallback runs |
| SwapMachine.Machine.MoveBack | internal/backups/recovery_apply.go:480-482 | the live path equals the keep copy, which is gone only if the move succeeded |
| SwapMachine.Machine.Preserve | internal/backups/recovery_apply.go:425-433 | an existing original that lstat reports is preserved; an lstat that errs leaves it where it is |
| SwapMachine.Machine.PromoteAt | internal/backups/recovery_apply.go:436-438 | an interrupted promotion keeps the state before the swap recoverable; a completed one equals the staged tree |
| SwapMachine.Machine.SwapOneFile | internal/backups/recovery_apply.go:418-445 | one more destination of the plan in place, every other path as it was, recoverable at every interruption |
| SwapMachine.Machine.WriteMasterKey | internal/backups/recovery_apply.go:556-571 | exactly 32 bytes arrive as a whole, or nothing changes |
| SwapMachine.Machine.InstallKey | internal/backups/recovery_apply.go:380-391 | master.key holds the supplied 32 bytes, the old one preserved first |
| SwapMachine.Machine.WriteIndex | internal/backups/recovery_apply.go:348-369 | until the sync has returned a stop may leave the index whole, torn or missing, and no live path has moved; after it the index is complete |
| SwapMachine.Machine.RecordOriginals | internal/backups/recovery_apply.go:333-347 | the index says of every destination whether it existed |
| SwapMachine.Machine.Prepare | internal/backups/recovery_apply.go:314-369 | an earlier attempt is undone first, so the swap starts from the state before all attempts |
| SwapMachine.Machine.Apply | internal/backups/recovery_apply.go:310-394 | recoverable wherever it stops; when it succeeds every destination equals its staged tree, the key is in place and nothing else changed; it succeeds when nothing fails and either renames work or every staged tree fits over what it replaces |
| SwapMachine.Machine.RollbackEntryAt | internal/backups/recovery_apply.go:469-490 | one entry restored, recoverable at every interruption |
| SwapMachine.Machine.RollbackEntries | internal/backups/recovery_apply.go:465-490 | the backwards loop restores the whole state, or stops with it still recoverable; a destination outside the state directory is refused |
| SwapMachine.Machine.RemoveRollbackDir | internal/backups/recovery_apply.go:491 | an interrupted removal, in any order, never makes a later rollback undo the restored state |
| SwapMachine.Machine.Rollback | internal/backups/recovery_apply.go:454-492 | restartable: interrupted anywhere it keeps the state recoverable, and a run that completes gives exactly that state and no rollback directory; a second one changes nothing; a torn index fails and changes nothing |
| SwapMachine.AllRestored | internal/backups/recovery_apply.go:469-491 | every indexed path restored means the whole state restored |
| SwapRuns.PlanSwap | internal/backups/recovery_apply.go:241-285 | refused exactly without a database or a recovery kit; otherwise distinct children of the state directory, and name by name: a checkpoint file exactly if it is staged, a captured subtree exactly if it is staged with something in it |
| SwapRuns.PlannedByName | internal/backups/recovery_apply.go:254-271 | the same for the plan, and nothing else is planned, each file from its own source |
| SwapRuns.Recover | internal/backups/recovery_apply.go:241-394 | plan and swap together: on success every staged checkpoint file and every nonempty captured subtree stands under its name in the state directory, master.key is the supplied key, and every other path is as it was |
| SwapRuns.RunSession | internal/backups/recovery_apply.go:310-492 | any sequence of attempts and rollbacks, each cut off anywhere, keeps the state before the first one recoverable; a last action that completes does its whole job |
| SwapRuns.SessionThenRollback | internal/backups/recovery_apply.go:454-492 | after any session one undisturbed rollback gives back the state before it, or fails on a torn index with every live path untouched |
| SwapRuns.OverlookedOriginal | internal/backups/recovery_apply.go:421-438 | an lstat that errs on an existing destination, anywhere in a swap: the old state stays recoverable under every later fault if the overlay of the staged tree over the original is the original, and without later faults only then |
| SwapRuns.OverlookedKey | internal/backups/recovery_apply.go:380-391 | the same for master.key: safe under every later fault if the key is refused, a directory stands there or the same key does, and without later faults only then |
| SwapRuns.HalfCopiedDirectoryIsLost | internal/backups/recovery_apply.go:494-523 | a half-made keep copy of a nonempty directory stands for a wrong state |
| SwapRuns.InterruptedFallback | internal/backups/recovery_apply.go:494-523 | anywhere in a swap, where the assumption on preserving fails, a power cut or a plain error after the first call of the fallback copy leaves a state that stands for a wrong one |
| SwapRuns.RollbackOfHalfKept | internal/backups/recovery_apply.go:475-482 | the rollback of that entry then destroys the original, with nothing failing |
| SseFormat.CutStreamGivesPrefix | internal/apiclient/client.go:700-755 | a connection cut at any byte delivers a prefix of the payloads |
| SseFormat.HeartbeatParses | internal/api/sse.go:77-80 | a heartbeat between events changes nothing for the parser |
| SseFormat.EventParses | internal/api/sse.go:140-159 | one printed event is parsed as its payload and nothing else |
| SseFormat.RoundTrip | internal/api/sse.go:65-159 | any events with heartbeats anywhere between them, printed and parsed, give the payloads in order |
| SseFormat.StandardReads | internal/api/sse.go:140-159 | a parser of section 9.2.6 of the HTML Living Standard reads what the server prints, heartbeats and all, as exactly the events: identifier, type and data |
| SseFormat.DataLinesAreOnePayload | internal/apiclient/client.go:722-740 | an event sent over several data lines is one payload, those lines joined |
| SseFormat.JoinSplits | internal/apiclient/client.go:725 | and splitting that payload at its line feeds gives the lines back |
| SseFormat.CarriageReturnsIgnored | internal/apiclient/client.go:720 | any number of carriage returns before a line feed makes no difference |
| SseStream.ProcessLines | internal/apiclient/client.go:715-742 | the inner loop consumes exactly the complete lines and leaves the unfinished one |
| SseStream.ParseSSE | internal/apiclient/client.go:700-755 | however the stream is cut into reads, the events are those of the whole stream; a cancelled parse gives the first of them |
| Text.LinesOfConcat | internal/apiclient/client.go:713-721 | splitting a byte stream anywhere and carrying the tail over finds the same lines |
| Text.TrimAround | internal/apiclient/client.go:740 | trimming takes away exactly the white space, ASCII or not, around a trimmed string |
| SseStream.DecodedByParts | internal/apiclient/client.go:726-735 | each payload that decodes is sent, in order, and no other |
| SseStream.AllDecoded | internal/apiclient/client.go:726-735 | when every payload decodes none is lost |
| SseStream.DeviceRelevantIs | internal/api/sse.go:14-23 | the ten kinds and the workspace prefix, and no others |
| SseStream.RelevantIs | internal/api/sse.go:116-136 | what is delivered, signal by signal |
| SseStream.Response.WriteEvent | internal/api/sse.go:140-159 | the bytes of one event, or the part of them that could be written |
| SseStream.Response.Send | internal/api/sse.go:65-84 | one turn of the select loop writes what the signal owes |
| SseStream.Response.Stream | internal/api/sse.go:87-138 | the wire carries exactly what the signals before the end owe, on the companion stream the device-relevant part, or its beginning when a write fails; an event that cannot be encoded ends the stream unless it is skipped first |
| SseStream.OwedPayloads | internal/api/sse.go:116-136 | what a stream owes carries the payloads of exactly the events it should deliver, in order |
| SseStream.DeliveredPrefix | internal/api/sse.go:65-84 | a response that breaks off delivers a prefix of those payloads |
| SseStream.ServeAndParse | internal/apiclient/client.go:700-755 | server to client, through heartbeats, broken connections and any chunking: a prefix of the events, all of them when everything was written |
| AppStore.AtMostTwoReleases | internal/apps/store.go:223-249 | under the release invariant an app has at most two releases, and a removed one none |
| AppStore.RowUpdateKeeps | internal/apps/store.go:193-221 | state, health and error updates keep the release invariant and the uniqueness of names |
| AppStore.CreateKeeps | internal/apps/store.go:158-191 | so does claiming a new name |
| AppStore.DeleteKeeps | internal/apps/store.go:251-268 | so does a removal; no release outlives its app |
| AppStore.RolledBackKeeps | internal/apps/store.go:223-249 | so does a rollback, which prunes nothing that is still needed |
| AppStore.RollbackTwiceRestores | internal/apps/store.go:226-249 | two rollbacks restore both pointers, the digest and every release |
| AppService.Controller.StartApp | internal/apps/service.go:250-287 | a start keeps the record truthful and the release invariant under every answer of the outside; once past its gates it leaves the app wanted running, and on success recorded running, with name, bundle, digest and releases as they were |
| AppService.Controller.StopApp | internal/apps/service.go:289-333 | the same for a stop, wanted stopped and on success recorded stopped, which needs no runner when already stopped |
| AppService.Controller.Quiesce | internal/apps/service.go:335-369 | a maintenance stop keeps the record truthful and, whatever happens, the desired state, name, bundle, digest and releases of the row |
| AppService.Controller.CheckHealth | internal/apps/service.go:496-537 | only the health of a running, unpaused app can change |
| AppService.Controller.Uninstall | internal/apps/service.go:462-494 | the row and its releases go only after the runner removed the stack; refused exactly for a bundle that is native in the current catalog |
| AppService.Controller.Pause | internal/apps/maintenance.go:138-154 | an unknown bundle or reason is refused; a known one replaces the pause |
| AppService.Controller.Resume | internal/apps/maintenance.go:111-132 | a pause owned by a restore or a storage move is not cleared |
| AppService.Controller.ClaimInstall | internal/apps/service.go:158-220 | claimed exactly for a bundle of the catalog that is not paused, a request whose name, exposure and hostname are allowed, and a free name; then a provisioning row with its first release |
| AppCatalog.WellFormedIs | internal/apps/service.go:169-192 | which exposures each ceiling allows, and when a hostname is needed |
| AppCatalog.SlugIs | internal/apps/catalog.go:27-28 | a name is allowed exactly if the regular expression spells it, in at most 63 characters |
| AppCatalog.HostnameIs | internal/apps/catalog.go:27-28 | a hostname is allowed exactly if every label between its dots is |
| AppCatalog.NativeIs | internal/apps/service.go:473 | native exactly if it has units and its identifier nowhere has the stem that marks the others |
| AppService.Controller.DeployInstall | internal/apps/service.go:222-231 | a deploy that failed is never reported as deployed, and is followed by the removal of what it left |
| AppService.Controller.FinishInstall | internal/apps/service.go:232-247 | running with the probed health, or failed with the deploy's error |
| AppService.Controller.Install | internal/apps/service.go:156-248 | a refused install changes nothing; a claimed one ends running or failed and touches no other row |
| AppService.Controller.RedeployCurrent | internal/apps/service.go:700-713 | success means the runner's last verb matches the desired state; what it is after every failure |
| AppService.Controller.ReconcileStopped | internal/apps/service.go:685-698 | stopped when it should be, or recorded as running when the stop failed |
| AppService.Controller.RollbackCalls | internal/apps/service.go:420-452 | which outside answers lead to which outcome, what the row records and what the runner did last |
| AppService.Controller.Rollback | internal/apps/service.go:394-460 | pointers move only on success; a failed one keeps both releases, is never left provisioning, and records the desired state or failed unless exactly the stop after a good deploy failed; what the runner did last for every outcome, and when exactly an app that should be stopped runs |
| AppRuns.RunStart | internal/apps/service.go:257-259 | on a provisioning row a start changes neither rows nor runner |
| AppRuns.RunStop | internal/apps/service.go:296-298 | so does a stop |
| AppRuns.RunQuiesce | internal/apps/service.go:345-347 | so does a quiesce |
| AppRuns.RunOp | internal/apps/service.go:760-768 | every operation keeps the invariant and every provisioning row but one it uninstalls, which a native bundle refuses |
| AppRuns.RunOps | internal/apps/service.go:17-20 | over any run of whole operations from any valid state, the empty one included: the record claims running or stopped only as the runner last reported, the release invariant holds, spared rows are left alone; and since no update ever succeeds (`:371-392`), without a stored previous release no rollback ever passes its checks |
| AppRuns.RunTurns | internal/apps/service.go:193-248 | any number of installs overlapping each other and any other operations, step by step: the record is truthful for every row except that of an install uninstalled midway without being native, and every other install that settles ends in one of its own ways |
| AppRuns.TurnGo | internal/apps/service.go:222-247 | one step of one install leaves every other install in progress as it stands |
| AppRuns.InstallAmong | internal/apps/service.go:193-248 | with any operations between its steps an install keeps every other row truthful; its own is false at the end exactly if it claims success over a later stop, which never happens to a bundle that stays native or is not uninstalled: that install ends as if alone |
| AppRuns.UninstallDuringInstall | internal/apps/service.go:462-494 | for every bundle that a catalog swap makes removable, a run of an install that ends with an app recorded as running which the runner stopped |
| AppRuns.RollbackTwice | internal/apps/service.go:394-460 | two successful rollbacks leave pointers, digest and releases as they were |
| KeyedLocks.StepKeepsInv | internal/apps/service.go:806-819 | every step of every thread keeps the lock invariant |
| KeyedLocks.MutualExclusion | internal/apps/service.go:799-819 | under every schedule at most one thread holds a key, also when several race to create its mutex |
| KeyedLocks.MutexIsPermanent | internal/apps/service.go:811-815 | the mutex of a key never changes |
| KeyedLocks.AcquireHolds | internal/apps/service.go:806-819 | in every reachable state where the table is free and no thread holds the key, a thread that asks for it holds it, and the table's mutex of it, after its own five or six steps |
| KeyedLocks.HoldingLocks | internal/apps/service.go:806-819 | a holder has the mutex locked, every other thread at that key waits, and its release frees exactly that mutex |
| KeyedLocks.KeyIsKept | internal/apps/service.go:806-819 | a thread keeps the key it asked for until it holds it and releases it; a step of one thread moves no other |
| KeyedLocks.SomeoneCanMove | internal/apps/service.go:806-819 | a thread that waits always waits for one that can move |
| Upgrade.WaitPanelHealthy | cmd/omahab/system.go:269-280 | healthy exactly when some probe that starts before the deadline succeeds; it stops at the first one, or after the deadline with none; at most 24 probes |
| Upgrade.ProbesAdvance | cmd/omahab/system.go:271-280 | later probes start later, by at least the interval each |
| Upgrade.ProbeTimes | cmd/omahab/system.go:271-280 | when probes of equal length start |
| Upgrade.Host.RollbackToPrior | cmd/omahab/system.go:282-347 | every reported outcome is true: no rollback and an unchanged generation for a failed switch, exactly one rollback and the captured generation for a rollback; mismatch and failure exactly when they happen |
| Upgrade.Host.UndoSwitch | cmd/omahab/system.go:509-512 | after a failed switch the generation before it runs, unless the result says otherwise |
| Upgrade.Host.Stage | cmd/omahab/system.go:480-498 | the staged tree is, path by path, the resolved one with exactly the two machine modules of the canonical one |
| Upgrade.OverlayHolds | cmd/omahab/system.go:484-498 | the overlay, path by path |
| Upgrade.Host.GateAndPromote | cmd/omahab/system.go:514-553 | the canonical tree changes only behind a healthy panel and a completed exchange; otherwise one rollback |
| Upgrade.Host.SwitchAndPromote | cmd/omahab/system.go:500-553 | which results keep the running generation and the canonical tree in agreement |
| Upgrade.Host.SwitchOrUndo | cmd/omahab/system.go:505-512 | which generation runs after the switch, and after a failed one |
| Upgrade.Host.UpgradeTo | cmd/omahab/system.go:469-553 | the canonical tree is wholly old or wholly new, no staging directory remains that could be removed, and where the active generation lands |
| Upgrade.Host.UpgradeStanding | cmd/omahab/system.go:456-553 | what a run makes of the canonical tree and of its agreement with the newest and the running generation, from the inputs alone |
| Upgrade.Host.UpgradePending | cmd/omahab/system.go:417-563 | the markers go only after a healthy upgrade |
| Upgrade.Host.UpgradeRef | cmd/omahab/system.go:564-670 | the same outcome for an explicit reference, without the markers |
| Upgrade.RunUpgrade | cmd/omahab/system.go:417-670 | agreement is kept by every run that reports no failed or mismatched rollback |
| Upgrade.RunUpgrades | cmd/omahab/system.go:417-670 | over any sequence: the machine modules stay byte-identical, the tree is the initial one or, path by path, a whole release with those modules, no leftovers, markers, and agreement |
| Upgrade.RunPredictably | cmd/omahab/system.go:417-670 | over any sequence from any host, with rollbacks to the generation before, to the one numbered just below, or failing: agreement at the end is a function of the inputs and of the standing at the start |
| Upgrade.SteppingBackAgrees | cmd/omahab/system.go:509-553 | with a rollback that steps one back, a rejected upgrade at the end of any sequence keeps agreement exactly if the newest generation before it agreed; after another rejected one, exactly if that had staged the canonical tree |
| Upgrade.RejectedOnce | cmd/omahab/system.go:509-553 | the same for one run from any host, whichever gate rejects it |
| Upgrade.PrecedingGenerationIsNotEnough | cmd/omahab/system.go:509-553 | two rejected upgrades from any host agree at the end just when the first one staged the canonical tree |
| EnvFile.EnvStore.ReadMap | internal/apps/systemd.go:67-85 | the loop over the lines computes the parsed map; an unreadable file counts as empty |
| EnvFile.EnvStore.MergeSpec | internal/apps/systemd.go:86-100 | the loop over the spec computes the merged map |
| EnvFile.GivenEntry | internal/apps/systemd.go:70-99 | NAME=VALUE with any white space around it is that entry, in the spec and in the file |
| EnvFile.NothingGiven | internal/apps/systemd.go:86-95 | a string without an equals sign, or without a name before it, gives nothing |
| EnvFile.CommentLine | internal/apps/systemd.go:70-74 | neither do comments and blank lines of the file |
| EnvFile.WriteSpec | internal/apps/systemd.go:63-130 | a stored write, read back: every name given in the text of the spec has the value given last, every other key its old value, in the old order |
| EnvFile.EnvStore.Write | internal/apps/systemd.go:63-130 | the file is the rendered merge, or as it was |
| EnvFile.ParsedIsStorable | internal/apps/systemd.go:70-84 | whatever text is parsed, every entry is one that a line can carry |
| EnvFile.RenderParseRoundTrip | internal/apps/systemd.go:101-107 | rendering then parsing gives the same ordered map exactly when every entry can be carried by a line |
| EnvFile.PutAllOverrides | internal/apps/systemd.go:86-100 | the last entry for a name wins, other keys keep value and place |
| EnvFile.MergeIdempotent | internal/apps/systemd.go:86-100 | merging the same spec again changes neither values nor order |
| EnvFile.WriteReadsBack | internal/apps/systemd.go:63-107 | the written file parses to the old map overridden by the spec, old keys first, exactly when that map is storable |
| EnvFile.StorableSpecSuffices | internal/apps/systemd.go:86-100 | a spec whose own entries are storable always gives such a map |
| EnvFile.SecondWriteIsIdentical | internal/apps/systemd.go:63-107 | a second write of the same spec is byte-identical |
| EnvFile.KeysKept | internal/apps/systemd.go:55-69 | no old key is lost exactly when the file could be read or the spec names them all |
| ShellQuote.QuoteRoundTrip | internal/backups/runner.go:179-182 | any strings, quoted and joined by spaces, are split back into exactly themselves |
| ShellQuote.CommandRoundTrip | internal/backups/runner.go:158-160 | so is any command of literal words and quoted fragments |
| ShellQuote.SftpText | internal/backups/runner.go:158-159 | the quoted words, spelled out by the source's format string, are the command |
| ShellQuote.SftpCommandArguments | internal/backups/runner.go:158-160 | that command has exactly the intended arguments, whatever port, key path, known-hosts path and target contain |
| Retention.RemovalIs | internal/backups/retention.go:173-184 | a pass removes exactly the planned ids minus the protected one |
| Retention.WithoutDropsOne | internal/backups/retention.go:176-182 | of a group every id is removed once and in order, but for the protected one |
| Retention.RemovalConcat | internal/backups/retention.go:174-184 | and of the plan, group after group |
| Retention.PlannedIs | internal/backups/retention.go:173-184 | planned is what some group removes |
| Retention.RemovalSpares | internal/backups/retention.go:164-184 | the newest verified snapshot is spared, and nothing else of the plan |
| Retention.NewestUnmoved | internal/backups/retention.go:198-202 | unlisting other snapshots, all or some, leaves the newest verified one the newest |
| Retention.Repository.Verify | internal/backups/store.go:357-374 | only a snapshot that is still there becomes verified, and then it is the newest verified one |
| Retention.Repository.NewestVerified | internal/backups/store.go:376-390 | the newest verified snapshot of the listing, or none if there is none |
| Retention.Repository.ProtectVerified | internal/backups/retention.go:232-252 | that snapshot exactly when the plan would remove it |
| Retention.Repository.CollectRemoval | internal/backups/retention.go:173-184 | the removal in plan order, and group counts that add up to it |
| Retention.Repository.Enforce | internal/backups/retention.go:164-202 | forgotten and unlisted are exactly the planned snapshots other than the newest verified one, whichever deletions fail |
| Retention.Repository.ApplyRetention | internal/backups/retention.go:127-222 | when a pass is refused, skipped, fails or applies, and that the newest verified snapshot survives each |
| Retention.Repository.EnforceAroundVerify | internal/backups/retention.go:164-202 | a pass that a verification overlaps, marked before the forget, before the unlisting or after it: when exactly the newest verified snapshot is lost, in terms of the plan, the listing and the answers of the outside |
| Retention.RunOps | internal/backups/retention.go:164-202 | over any run of backups, verifications and passes from any valid repository the newest verified snapshot is in the repository, and so is every snapshot no pass planned to remove |
| BackupRuns.Service.InsertRun | internal/backups/store.go:183-191 | a second running row is refused, exactly when there is one |
| BackupRuns.Service.UpdateRun | internal/backups/store.go:193-198 | an update of the active run leaves terminal runs alone |
| BackupRuns.Service.FailRun | internal/backups/run.go:109-130 | the failed status, or an unchanged row when even that cannot be stored |
| BackupRuns.Service.Preflight | internal/backups/service.go:115-152 | when exactly the repository is reached; a missing one is made, exactly once, unless it is attached |
| BackupRuns.Service.RunBackup | internal/backups/run.go:20-96 | nothing is inserted before the repository is reached; acknowledged only with the row of restic's snapshot stored; refused while another run is active; terminal runs untouched, wherever it stops |
| BackupRuns.Service.Enter | internal/backups/run.go:21-37 | a run is inserted only while none is active; a call that comes meanwhile is refused |
| BackupRuns.Service.Advance | internal/backups/run.go:98-107 | the snapshot stage, or a failure to record |
| BackupRuns.Service.TakeSnapshot | internal/backups/run.go:42-59 | exactly with paths and scopes and a backup that succeeds, and then restic's own snapshot |
| BackupRuns.Service.RecordSnapshot | internal/backups/run.go:61-74 | the snapshot row, with its run, or a failure to record |
| BackupRuns.Service.Complete | internal/backups/run.go:76-84 | the completed status only for a stored snapshot row |
| BackupRuns.Service.Capture | internal/backups/run.go:39-95 | completed only after the snapshot row, failed otherwise, running only if cut off |
| BackupRuns.Service.ListRunning | internal/backups/store.go:208-240 | distinct running rows, all of them unless the limit was reached |
| BackupRuns.Service.Reconcile | internal/backups/service.go:320-338 | an undisturbed restart leaves no run running; the bounded listing is enough because at most one is |
| BackupRuns.RunOps | internal/backups/run.go:20-130 | over any run of whole calls with crashes and restarts: one active run at most, what was acknowledged stays so, and a final restart frees the next backup |
| BackupRuns.Step | internal/backups/run.go:20-130 | one step of one of many calls keeps what all others rely on |
| BackupRuns.RunTurns | internal/backups/run.go:20-130 | any number of overlapping calls under every schedule, with crashes and restarts: at most one owns a run, terminal runs are untouched, every call was told the truth, and a final undisturbed restart leaves no run running |

## Left out

- SwapMachine.Machine.Apply: requires `Sighted` and `PreservableAt`, because without them the code loses originals; SwapRuns.OverlookedOriginal, SwapRuns.OverlookedKey and SwapRuns.InterruptedFallback give the failing runs.
- SwapMachine.Machine.CopyTree: does not model file modes, symbolic links or leftover `.recovery-swap` files, nor a power cut that reorders renames which were not synced.
- SwapRuns.PlanSwap: the stat calls of the planner are taken as right, and the escape check of the staging tree is not part of this model.
- The `cleanup` closure of the swap: a removal of the rollback directory while the swap is still in place is not modelled.
- Nested destinations: live paths are separate slots, as the planner produces them.
- SseStream.ParseSSE: JSON decoding is a partial function of the payload; bytes are one `char` each, white space as in its UTF-8 encoding.
- SseStream.Response.Stream: the replay cursor, headers and flushing are not modelled.
- AppRuns.RunOps: database errors, a daemon that stops between a runner call and its row write, events and redaction are left out.
- The per-bundle release update: it is gone from the source, so a previous release comes only from stores that already have one.
- RefreshHealth: its concurrent probes are single CheckHealth calls here.
- KeyedLocks.SomeoneCanMove: no fairness of the mutexes is claimed.
- Upgrade.RunUpgrade: agreement needs readable profiles and a rollback that reactivates the generation before the switch or fails; Upgrade.RunPredictably says what else happens.
- Upgrade.Host.GateAndPromote: the JSON report of a health gate whose rollback fails still says rolled back; no truthfulness is claimed for it.
- Upgrade.Host.Stage: the directory copy is complete or reported as failed; its handling of links is not modelled.
- EnvFile.EnvStore.Write: the temporary file and the rename are one step; modes are left out.
- ShellQuote.CommandRoundTrip: the tokenizer covers plain words, backslashes and single quotes, which is all the command uses; double quotes and expansions are refused by it.
- The check of user and host fragments in `internal/backups/runner.go:163-177`: settled by reading its one loop.
- Retention.RunOps: operations one at a time and verification times that increase; Retention.Repository.EnforceAroundVerify covers the overlap of a pass and a verification. Errors of the listing queries end a pass early and are not modelled.
- The policy restic applies to pick snapshots: the dry run may answer any groups.
- BackupRuns.Service.Reconcile: an update that fails leaves its run running, as in the source; the reconciliation of verification rows is left out.
- BackupRuns.RunTurns: verification and restore runs share the same rows and index and are left out; a retention pass may later drop the snapshot row of a completed run, which the invariant takes as permanent; a preflight is one step.
- HTTP handlers, commands, console rendering, catalog validation and cryptography: no invariant spans them.
