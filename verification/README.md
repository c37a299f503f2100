# DynaStub, modelled and proved in Dafny

DynaStub puts user scripts in front of a container's commands. A webhook rewrites each
matching pod: it adds a sidecar, a shared directory and a PATH that starts with that
directory. The sidecar copies scripts into the directory while the workload may be
executing them. A controller counts the injected pods and writes a status back.

This project models that behaviour and proves what it guarantees. It verifies with
`dafny verify dfyconfig.toml`.

| file | what it models |
|---|---|
| `Fs.dfy` | one directory of names bound to inodes, and the system calls the copier uses |
| `Publish.dfy` | the copier as a state machine: system calls one at a time, failures, crashes, readers, user edits |
| `Residue.dfy` | the temporary files of copies that stopped half way |
| `Environment.dfy` | what readers, users and crashes do to that machine, and which edits tear a copy |
| `Attempts.dfy` | what a sequence of copies does to a directory, as a fold over outcomes |
| `Copier.dfy`, `CopyRuns.dfy` | atomic copy and copy-all as methods, and copies, one or many, as runs of the machine |
| `Watcher.dfy`, `WatcherRuns.dfy`, `WatcherPasses.dfy` | the incremental pass as a method, the watcher as a process among users and readers, and the method as a run of that process |
| `CommandNames.dfy`, `Sidecar.dfy` | command names, the behaviour-list synchronisation, the fallback and the event loops |
| `Events.dfy` | from watch events and ticks to the scripts in the directory, for one event and for whole traces |
| `Clashes.dfy` | behaviour lists in which one command is another one's temporary name |
| `PathLookup.dfy`, `Pods.dfy`, `Webhook.dfy` | command lookup through PATH (section 8.3 of POSIX.1-2017 Base Definitions), pods, the injection |
| `Wiring.dfy` | which volumes, mounts and variables connect the sidecar with the business containers |
| `Stubbing.dfy` | injection and synchronisation together: what a command runs |
| `Status.dfy`, `Controller.dfy` | conditions, counting, phases, and the retry loop over a versioned store |
| `Agreement.dfy` | webhook and controller over whole runs of a cluster |
| `DeepCopy.dfy` | deep copy of specifications, statuses, stubs and lists of stubs |
| `Uncomment.dfy` | uncommenting a block of a file |
| `Options.dfy`, `Sequences.dfy` | optional values and facts about sequences |

Failures of system calls and of the API, the order and size of reads, other writers,
stale reads, clocks and selector evaluation are parameters, so every theorem holds for
all of them. Modification times are numbers; each edit takes a fresh one.

## What the proofs show to fail

Some properties that the code suggests hold only under a condition. The code is modelled
as it is, and the exact condition is proved.

* A pass of the incremental watcher does not always leave what copy-all would leave.
  Copying a changed `n` consumes the published `n.tmp`, and the cache keeps an unchanged
  `n.tmp` from being copied again. A failure-free pass is right exactly when the cache is
  coherent and no changed `n` has an unchanged companion `n.tmp`
  (`IncrementalMatchesFull`, `CompanionIsLost`); an edit that keeps the modification time
  makes the cache incoherent (`SameTimeEditIsMissed`). Copy-all is right in every case,
  because a listing puts `n` before `n.tmp`.
* A behaviour list may be in any order, so there a clash can lose a script: `/bin/ls` after
  `/bin/ls.tmp.sh` does (`ClashLosesScript`). A list whose copies all succeed leaves every
  command with its last listed script exactly when no command of a later target, with
  `.tmp` added, is such a command (`ListIsKeptExactly`). Targets without a dot never clash.
* "Executable implies complete" is true of published names. A temporary name is executable
  while it is being written exactly when an executable one was left behind before the copy
  began (`TmpIsExecutableExactly`, `TmpIsExecutableWhilePartial`), which takes a copy that
  stopped after its chmod (`ExecutableTmpIsComplete`).
* The PATH rewriting takes the first PATH entry of a container, and only its literal
  value. With a second PATH entry, or one that is a reference, commands are looked up as
  before. Without an entry, the image's own PATH is replaced by a fixed default
  (`PathAfterInjection`, `RewritingIsFaithfulExactly`, `RewritingMisses`). A reference
  entry also becomes inadmissible (`AdmissibleAfterExactly`).
* Pod counts are converted to 32 bits. The reported phase is right for a list without an
  injected pod; otherwise exactly when the total counts as positive after the conversion
  and, if some pods are not injected, the injected ones do too and do not look like all of
  them (`ReportIsRightExactly`, `RightBelow`, `CountWraps`).
* Uncommenting restores a block exactly when every commented line fits the scanner's
  buffer and loses no carriage return (`UncommentUndoesComment`, `ReturnIsLost`).

`docs/architecture.md` describes one subPath mount per command and an absolute
`scriptPath`; the code mounts the whole directory, rewrites PATH and joins `scriptPath`
under the mount path, and so does the model.

## Model

| member | source | states |
|---|---|---|
| Publish.Step | internal/sidecar/copier.go:29-70 | every system call of a copy, every failure, crash, read and edit leads from a valid state to a valid one |
| Publish.StepKeepsInv | internal/sidecar/copier.go:29-70 | each single step keeps: temporary names share no inode with any other name, published names hold their newest version with mode 0755, open readers hold inodes that nothing writes to |
| Publish.RunKeepsInv | internal/sidecar/copier.go:29-70 | the same over every run of copies to destinations that do not clash, with failures, crashes and restarts over left-over temporary files |
| Publish.VersionHasOrigin | internal/sidecar/copier.go:31-35 | every version that a run adds to a name's history has as its original what a source file held when a copy of that run to that name opened it |
| Publish.ReaderSeesOneVersion | internal/sidecar/copier.go:29-70 | a reader that opens a published name at any moment gets a prefix of the one version newest at that moment, all of it at end of file, whatever runs while it reads; unless the source was edited in place during the copy, the version is the whole of what the source held when the copy opened it |
| Publish.ReadsNewest | internal/sidecar/copier.go:29-70 | the same for a reader, from any state that keeps the invariant |
| Publish.ReplacingNeverTears | internal/sidecar/copier.go:44-49 | when users replace sources instead of editing in place, every version that a run publishes is the whole of what a source file held when it was opened for that name |
| Residue.TmpIsExecutableExactly | internal/sidecar/copier.go:37-60 | while a copy is being written, whatever happens around it, its temporary name is executable exactly when an executable one was left before the copy |
| Residue.ExecutableTmpIsComplete | internal/sidecar/copier.go:37-66 | over any run, an executable temporary name is complete unless an earlier copy to it stopped after its chmod, by a crash or a failed removal |
| Residue.TmpIsExecutableWhilePartial | internal/sidecar/copier.go:37-60 | a concrete run: after a crash following chmod, the next copy's temporary file is executable and holds one byte |
| Residue.TmpReaderSeesNextCopy | internal/sidecar/copier.go:37-49 | only published names are safe to read: a reader of a left-over temporary file sees it truncated by the next copy, and then the bytes of that copy |
| Environment.ReaderFinishes | internal/sidecar/copier.go:29-70 | a reader can open every published name at any moment and gets its whole newest version with one read of that size |
| Environment.ReadContinues | internal/sidecar/copier.go:29-70 | each read extends what a reader has by the next bytes of its file, up to the size asked for |
| Environment.EditsTakeEffect | internal/sidecar/copier.go:31-49 | an edit in place changes the one file that copies may have open, a replacement and a deletion change the name only |
| Environment.OthersTakeEffect | cmd/sidecar/main.go:571-577 | a crash ends the copy in progress and leaves directory and readers; a cleanup between copies removes one name |
| Environment.TornVersionWasEdited | internal/sidecar/copier.go:44-49 | over any run, a published version is torn only if a user edited in place, during the copy, the very file it was reading |
| Attempts.FoldIsOverride | cmd/sidecar/main.go:353-369 | temporary names aside, a sequence of copies to destinations that do not clash overrides the directory with the last success of each name |
| Attempts.OverrideHoldsLastSuccess | cmd/sidecar/main.go:353-369 | the override of a name is what its last successful copy wrote |
| Attempts.LastSuccessExists | cmd/sidecar/main.go:353-369 | a name with a successful copy has a last one |
| Attempts.OverrideNeedsSuccess | cmd/sidecar/main.go:353-369 | a name is overridden only if some copy to it succeeded |
| Attempts.SuccessSurvivesExactly | internal/sidecar/copier.go:38-66 | with clashing names, the last success of a name is there at the end exactly when no later copy disturbed it through its temporary name |
| Attempts.UndisturbedExactly | internal/sidecar/copier.go:38-66 | where later copies leave no temporary file behind, undisturbed means that none of them made one |
| Attempts.SortedSuccessSurvives | internal/sidecar/copier.go:73-91 | in the order of a sorted listing every success survives, clash or not |
| Attempts.LessExactly | internal/sidecar/copier.go:73-91 | the order of a listing: at the first difference the smaller byte comes first, or the shorter name |
| Copier.CopyContent | internal/sidecar/copier.go:45-49 | the copy loop, for every chunk size, leaves the whole content or fails with exactly the prefix written before the error |
| Copier.AtomicCopy | internal/sidecar/copier.go:29-70 | succeeds exactly when every call does and then the destination holds the source with mode 0755 and no temporary file; on any failure destination and other names are unchanged and the temporary file is gone if its removal succeeds |
| Copier.CopyMeans | internal/sidecar/copier.go:29-70 | success and effect in terms of the single calls: source bytes, mode 0755 and no `.tmp` after a success, nothing but `.tmp` changed after a failure |
| Copier.CopyStepsView | internal/sidecar/copier.go:37-69 | the effect on every name of each way in which a copy can end, over whatever temporary file was left behind |
| Copier.ScriptCopier.Copy | internal/sidecar/copier.go:23-26 | one copy into the output directory, reported with its outcome |
| Copier.ScriptCopier.CopyAll | internal/sidecar/copier.go:73-91 | copies every non-directory in listing order up to the first error; after a success every file is intact |
| Copier.CopyAllIsIntact | internal/sidecar/copier.go:73-91 | a successful copy-all ends with every regular file published intact, even for names `n` and `n.tmp` |
| Copier.CopyAllStops | internal/sidecar/copier.go:73-91 | it ends with the first file whose copy fails: earlier files are published intact, later ones keep what they had |
| Copier.CopyAllFrame | internal/sidecar/copier.go:73-91 | successful or not, it leaves alone every name that is neither a file nor a file's temporary name |
| CopyRuns.CopyIsRun | internal/sidecar/copier.go:29-70 | from any idle state, with any history and readers, and for every fate of its calls, an atomic copy is a run of the state machine that ends in exactly the state its contract gives |
| CopyRuns.CopiesAreRun | internal/sidecar/copier.go:73-91 | any number of copies, so those of copy-all, of a pass and of a synchronisation, are a run that ends in the directory their contracts give |
| CopyRuns.CopiesServeReaders | internal/sidecar/copier.go:29-91 | a reader that opens a published name between any two system calls of those copies reads one version, and the copies keep the invariant |
| CopyRuns.CopyRecovers | internal/sidecar/copier.go:37-69 | after any run, stopped anywhere, a later successful copy leaves the new content with mode 0755, no temporary residue, and all else as it was |
| Watcher.FileWatcher.SyncEntry | internal/sidecar/watcher.go:58-80 | one entry is copied exactly when it is a file that can be statted and whose time is not the recorded one; the time is recorded exactly on success |
| Watcher.FileWatcher.Sync | internal/sidecar/watcher.go:52-83 | a pass copies the changed files in listing order, goes on after errors, and its directory and cache are the fold of its copies |
| Watcher.PassGoesOn | internal/sidecar/watcher.go:58-80 | whatever becomes of the other files, a listed file with a time other than the recorded one is published and recorded if its copy succeeds, and keeps its record if not |
| Watcher.IncrementalMatchesFull | internal/sidecar/watcher.go:58-80 | on a quiet source, a failure-free pass leaves every file as copy-all would, exactly when the cache is coherent and no changed `n` has an unchanged `n.tmp` |
| Watcher.CompanionIsLost | internal/sidecar/watcher.go:68-78 | a changed `ls` beside an unchanged `ls.tmp`: the pass loses `ls.tmp` |
| Watcher.SecondPassIsIdle | internal/sidecar/watcher.go:68-78 | a pass right after a failure-free pass attempts no copy |
| Watcher.PassKeepsCoherent | internal/sidecar/watcher.go:58-80 | a pass keeps the cache coherent whatever fails in it, when names do not clash |
| Watcher.SameTimeEditIsMissed | internal/sidecar/watcher.go:86-88 | after an edit that keeps the modification time, the pass is right exactly when the edit changed nothing, stale companions aside |
| WatcherRuns.WRunKeepsWInv | internal/sidecar/watcher.go:30-83 | the invariant of the watcher as a process, over every interleaving of its system calls with edits, readers, failures and restarts |
| WatcherRuns.CacheStaysCoherent | internal/sidecar/watcher.go:63-79 | at every moment of every run, a recorded time that is still current stands for a publication equal to the source, even after torn copies, because stat comes before the copy and the record after it |
| WatcherRuns.WRunIsRun | internal/sidecar/watcher.go:30-83 | every run of the watcher moves the directory by copying steps only |
| WatcherRuns.OthersAct | internal/sidecar/watcher.go:20-49 | readers and edits act at any moment without moving the watcher, and a restart forgets the cache |
| WatcherPasses.SyncIsRun | internal/sidecar/watcher.go:52-83 | from any state at rest and for every fate of its calls, a pass is a run of the process that ends at rest with the directory and the cache that `Sync` promises |
| WatcherPasses.QuietPassConverges | internal/sidecar/watcher.go:52-83 | from any reachable state at rest, once edits stop, the next failure-free pass of the process publishes every source file and records its time |
| CommandNames.BaseShape | cmd/sidecar/main.go:382 | a base name is the last element of its path, with no slash, unless the path is all slashes |
| CommandNames.ExtShape | cmd/sidecar/main.go:384 | the extension is the shortest suffix that starts with a dot |
| CommandNames.CommandNameOf | cmd/sidecar/main.go:382-384 | the command of a directory, a stem and an extension is the stem |
| CommandNames.CommandNameAgrees | cmd/sidecar/main.go:382-385 | the sidecar's name is the webhook's base name less its last extension, equal to it exactly when that has no dot, and without slash unless the base name is the root |
| Sidecar.SidecarManager.SyncBehaviorScript | cmd/sidecar/main.go:373-418 | one behaviour: its script under its command name exactly when that is a file name and every call succeeds, or an error that changes no published script |
| Sidecar.SidecarManager.SyncAllFromDirectory | cmd/sidecar/main.go:421-453 | the fallback copies every non-directory in listing order and goes on after errors |
| Sidecar.SidecarManager.SyncAllScripts | cmd/sidecar/main.go:320-370 | the behaviours in order, failures skipped, or the fallback when the stub cannot be fetched; which error is returned, what is stored, and that the count is the number of behaviours that succeed |
| Sidecar.SidecarManager.CleanupScripts | cmd/sidecar/main.go:571-577 | removes everything but what cannot be removed |
| Sidecar.SidecarManager.HandleEvent | cmd/sidecar/main.go:543-567 | one event or tick: its effect on the directory, which the rows of `Events` give in terms of the event |
| Sidecar.SidecarManager.Watch | cmd/sidecar/main.go:543-596 | any sequence of events and ticks leaves the directory that replaying their effects gives, which the rows of `Events` give in terms of the events |
| Sidecar.CommandHoldsLastListed | cmd/sidecar/main.go:353-369 | after a list synchronisation each command holds the source of the last listed behaviour whose copy succeeded |
| Sidecar.UnpublishedNameKept | cmd/sidecar/main.go:353-369 | a name for which no behaviour succeeded keeps what it had |
| Sidecar.CountIsSuccesses | cmd/sidecar/main.go:355-364 | the success count is the number of behaviours whose copy succeeds |
| Sidecar.DotFreeNeverClashes | cmd/sidecar/main.go:382-385 | targets whose base names have no dot never clash |
| Clashes.CommandSurvivesExactly | cmd/sidecar/main.go:353-369 | a command keeps the script of its last listed success exactly when no later behaviour, with that command as its temporary name, gets as far as making its temporary file |
| Clashes.ListIsKeptExactly | cmd/sidecar/main.go:353-369 | a list whose copies all succeed leaves every command with its last listed script exactly when no later command plus `.tmp` is such a command |
| Clashes.ClashLosesScript | cmd/sidecar/main.go:353-385 | with targets `/bin/ls.tmp.sh` and `/bin/ls`, in this order, no `ls.tmp` is left |
| Sidecar.ReplayIsFold | cmd/sidecar/main.go:543-577 | an event trace is one fold over the copies since the last deletion |
| Sidecar.TraceIsOverride | cmd/sidecar/main.go:543-577 | after any event trace without clash and with successful cleanups, the directory is the override of all synchronisations since the last deletion, on an empty start if there was one |
| Sidecar.NothingOutlivesDeletion | cmd/sidecar/main.go:558-577 | right after a deletion the directory is empty, and later every published name comes from a later synchronisation |
| Events.SyncEventPublishes | cmd/sidecar/main.go:551-553 | after an added or a modified event and after a tick, with the stub fetched and no clash among its commands, each command holds the script of the last listed behaviour for it whose copy succeeds |
| Events.FallbackPublishes | cmd/sidecar/main.go:325-331 | the same events without the stub: each file whose copy succeeds is there under its own name, clash or not |
| Events.OtherEvents | cmd/sidecar/main.go:558-577 | a deletion leaves exactly what cannot be removed, unchanged; errors, unknown events and a synchronisation without its directory change nothing |
| Events.EventPublishes | cmd/sidecar/main.go:543-567 | without a clash, what an event publishes, by list or by fallback, is there after it |
| Events.EventKeeps | cmd/sidecar/main.go:543-567 | and a name that it publishes nothing under keeps what it had |
| Events.TraceHoldsLast | cmd/sidecar/main.go:543-596 | after any trace of events whose names do not clash, a command holds the script that the last event to publish one published, if no deletion came after it |
| Events.TraceKeeps | cmd/sidecar/main.go:543-596 | in such a trace, a command that nothing was published for since the last deletion is not there after it, and is as before the trace if there was none |
| PathLookup.PrefixesOfPrepended | internal/webhook/pod_webhook.go:223 | prepending a directory to a PATH string prepends one prefix and keeps the others, empty ones included |
| PathLookup.LookupWalks | internal/webhook/pod_webhook.go:216-245 | how a command is found, for every PATH: the first element with an executable file of that name, empty elements included |
| PathLookup.PrependKeepsMeaning | internal/webhook/pod_webhook.go:216-245 | for every PATH string and file system, lookup after prepending finds the shared directory's file if it is executable, and otherwise what it found before |
| PathLookup.PrependAgainIsIdle | internal/webhook/pod_webhook.go:216-245 | prepending any number of times looks up like prepending once |
| Webhook.FirstMatching | internal/webhook/pod_webhook.go:88-99 | the first stub with a valid and matching selector, and none exactly when no selector matches |
| Webhook.FindMatchingBehaviorStub | internal/webhook/pod_webhook.go:81-100 | the search loop finds that stub: it matches and none before it does, or none at all matches |
| Webhook.PrependPath | internal/webhook/pod_webhook.go:216-245 | only the first PATH entry changes, or one is appended |
| Webhook.InjectSidecar | internal/webhook/pod_webhook.go:103-263 | an exact additive edit: two volumes and one init container appended, each container not named like the sidecar gains one mount and its PATH edit, all else keeps value and order; the rows of `Wiring` say what is connected |
| Wiring.SidecarIsWired | internal/webhook/pod_webhook.go:112-190 | in the injected pod the sidecar can write to the volume at its SHARED_DIR, reads the stub's host directory at its SCRIPT_MOUNT_PATH, knows its stub, and has the stub's image and resources or the defaults |
| Wiring.ContainersAreWired | internal/webhook/pod_webhook.go:192-245 | each business container mounts that volume read-only at the directory that leads its first PATH entry, or the one it is given, and nothing else of it changes |
| Webhook.Handle | internal/webhook/pod_webhook.go:31-78 | an undecodable pod is answered 400, a failing list or encoding 500, no match leaves the pod alone, and a match yields the exact edit, which the controller recognises |
| Webhook.InjectedIsSeen | internal/controller/behavior_stub_controller.go:105-118 | every injected pod counts as injected |
| Webhook.InjectSpec | internal/webhook/pod_webhook.go:103-263 | the exact edit has a result for every pod |
| Webhook.InjectionIsDetermined | internal/webhook/pod_webhook.go:103-263 | it has only one: the description leaves nothing open |
| Webhook.PathAfterInjection | internal/webhook/pod_webhook.go:216-245 | the PATH that a container runs with after the edit, for any number of entries, literal or referenced |
| Webhook.RewritingIsFaithfulExactly | internal/webhook/pod_webhook.go:216-245 | the edit is a plain prepend exactly with one literal PATH entry, or none and an image with the default PATH |
| Webhook.RewritingMisses | internal/webhook/pod_webhook.go:216-245 | two concrete containers where it is not |
| Webhook.AdmissibleAfterExactly | internal/webhook/pod_webhook.go:220-233 | the edited container is admissible exactly when its first PATH entry is not a reference |
| Stubbing.InjectedLookup | README.md:407-412 | in an injected container a command runs the shared directory's file if that is executable, and else resolves on the rest of the PATH |
| Stubbing.LookupOutsideShared | internal/webhook/pod_webhook.go:205-213 | the mount hides nothing of the image outside the shared directory: on a PATH that does not lead below it, every command resolves as in the image |
| Stubbing.StubbedCommandRunsScript | README.md:407-412 | end to end: in a container with at most one PATH entry, literal, a command runs, with mode 0755, the script of the last listed behaviour whose copy succeeded |
| Stubbing.DotFreeTargetIsStubbed | README.md:407-412 | with dot-free targets that holds without further condition, for the target's base name |
| Stubbing.UnstubbedCommandUnchanged | README.md:407-412 | a command that no behaviour publishes resolves as in the image, on the PATH that the container sets or the default one |
| Status.UpsertInPlace | internal/controller/behavior_stub_controller.go:148-160 | the update loop replaces the first condition of that kind and keeps the others, or appends |
| Status.UpsertKeeps | internal/controller/behavior_stub_controller.go:148-160 | one upsert leaves the other conditions in value and order, keeps kinds unique and makes one Ready condition |
| Status.ConditionsOverRuns | internal/controller/behavior_stub_controller.go:129-160 | over any run of updates, other conditions keep value and order, unique kinds stay unique, and the one Ready condition is true exactly if the last phase was Running |
| Controller.Store.UpdateStatus | internal/controller/behavior_stub_controller.go:162 | the optimistic commit: only against the newest version, whose status alone it replaces |
| Controller.UpdateStatus | internal/controller/behavior_stub_controller.go:121-163 | the object in memory gets the new status, and the store one version more exactly on nil |
| Controller.TryUpdate | internal/controller/behavior_stub_controller.go:168-179 | one turn of the loop, with other writers before and after a possibly stale read: it asks for another exactly when the update met a conflict |
| Controller.UpdateStatusWithRetry | internal/controller/behavior_stub_controller.go:165-182 | the loop: it ends at its first turn without a conflict or gives up after three; the rows below say which turns those are |
| Controller.HistoryAfterRetry | internal/controller/behavior_stub_controller.go:165-182 | the history afterwards is everything others committed, plus one own version exactly on nil |
| Controller.NoLostUpdate | internal/controller/behavior_stub_controller.go:121-182 | at most three attempts, one commit on nil and none otherwise, and the commit differs from the version just before it only in phase, counts, time and the Ready condition, which is spelled out |
| Controller.ConflictsExactly | internal/controller/behavior_stub_controller.go:172-178 | which turns are tried again: those that read a version and whose update is answered with a conflict or comes too late for it |
| Controller.OtherErrorsEnd | internal/controller/behavior_stub_controller.go:168-179 | a failing read, or an answer other than nil and conflict, in the first turn or after conflicts, is the result, after that many attempts and without a commit |
| Controller.CommitsExactly | internal/controller/behavior_stub_controller.go:165-182 | nil is returned exactly when in the last turn nothing failed and nobody committed after the version read, and all turns before it met a conflict |
| Controller.GivesUpExactly | internal/controller/behavior_stub_controller.go:165-182 | the loop gives up exactly when all three turns met a conflict |
| Controller.FirstErrorIsFinal | internal/controller/behavior_stub_controller.go:172-178 | an error of another kind in the first turn is returned after one attempt, and only others have committed |
| Controller.IsPodInjected | internal/controller/behavior_stub_controller.go:105-118 | both searches together decide whether any container or init container is named `dynastub-sidecar` |
| Controller.Classify | internal/controller/behavior_stub_controller.go:65-84 | the counting loop counts each injected pod once, with 32-bit wrap-around, and derives the phase |
| Controller.CountIsCardinality | internal/controller/behavior_stub_controller.go:65-74 | the count is the number of positions with an injected pod |
| Controller.ReportIsRightExactly | internal/controller/behavior_stub_controller.go:65-84 | for every list, exactly when the reported total and phase are right |
| Controller.RightBelow | internal/controller/behavior_stub_controller.go:65-84 | below two to the 32 pods that is: shorter than two to the 31, or no injected pod |
| Controller.CountWraps | internal/controller/behavior_stub_controller.go:65-84 | two to the 31 injected pods are reported as Pending |
| Controller.Reconcile | internal/controller/behavior_stub_controller.go:36-102 | every exit: missing stub, read error, invalid selector, list error, and the update with the number of injected pods and the phase, requeued exactly on nil |
| Agreement.RunKeepsAgreement | internal/webhook/pod_webhook.go:81-100 | over all runs, every pod younger than a stub that targets it is injected, whichever stub won |
| Agreement.EarlyStubIsNeverPartial | internal/controller/behavior_stub_controller.go:65-84 | a stub created before all its pods is never reported Partial, and is Pending exactly when it has none |
| Agreement.StepsTakeEffect | internal/webhook/pod_webhook.go:31-100 | a created pod is there, injected exactly if it was before or some stub of the list accepts it, whichever namespace the webhook lists; the other actions change their object alone |
| Agreement.LateStubIsPartial | internal/controller/behavior_stub_controller.go:65-84 | a stub created between two of its pods is reported Partial: the condition of the theorem above is needed |
| DeepCopy.BehaviorStubSpec.DeepCopyInto | api/v1/behavior_stub_types.go:19-38 | the copy equals the original and every map, slice and pointer target it reaches is new memory, whatever the original shares |
| DeepCopy.BehaviorStubSpec.DeepCopy | api/v1/behavior_stub_types.go:41-48 | an equal specification in entirely new memory |
| DeepCopy.BehaviorStubStatus.DeepCopyInto | api/v1/behavior_stub_types.go:86-99 | the same for a status, its time and its conditions |
| DeepCopy.BehaviorStubStatus.DeepCopy | api/v1/behavior_stub_types.go:102-109 | an equal status in entirely new memory |
| DeepCopy.BehaviorStub.DeepCopyInto | api/v1/zz_generated.deepcopy.go:12-18 | the same for a stub, the maps of its metadata included |
| DeepCopy.BehaviorStub.DeepCopy | api/v1/zz_generated.deepcopy.go:21-28 | an equal stub in entirely new memory |
| DeepCopy.CopyItems | api/v1/zz_generated.deepcopy.go:43-49 | for any number of stubs, whatever they share with each other, equal copies in new memory, no two of which overlap |
| DeepCopy.BehaviorStubList.DeepCopyInto | api/v1/zz_generated.deepcopy.go:39-50 | the same for a list, with or without items |
| DeepCopy.BehaviorStubList.DeepCopy | api/v1/zz_generated.deepcopy.go:53-60 | an equal list in entirely new memory |
| DeepCopy.SpecIsWhole | api/v1/behavior_stub_types.go:19-38 | what a copy of a specification has to equal and to own takes in every field, and all the memory that the fields lead to |
| DeepCopy.StatusIsWhole | api/v1/behavior_stub_types.go:86-99 | the same for a status |
| DeepCopy.StubIsWhole | api/v1/zz_generated.deepcopy.go:12-18 | the same for a stub |
| DeepCopy.HoldEach | api/v1/zz_generated.deepcopy.go:43-49 | each copy of a list equals its original and lies in the memory of the list |
| DeepCopy.HoldApart | api/v1/zz_generated.deepcopy.go:43-49 | no two copies of a list share memory |
| Uncomment.Index | test/utils/utils.go:215-218 | the first occurrence, and none exactly if there is no occurrence |
| Uncomment.IndexIsFirst | test/utils/utils.go:215-218 | the position found holds the text and comes no later than any other that does |
| Uncomment.WriteLines | test/utils/utils.go:220-246 | the scanner loop writes the scanned lines less the prefix, joined by newlines, between what comes before and after them |
| Uncomment.Disk.UncommentCode | test/utils/utils.go:206-254 | every exit: unreadable file, target not found, nothing to scan, write failure, and the rewritten file |
| Uncomment.TokensOfJoin | test/utils/utils.go:226-242 | scanning joined lines returns them, less one trailing carriage return each, less an empty last line, up to the first that is too long |
| Uncomment.ScanReads | test/utils/utils.go:226-242 | one scan reads up to the newline and drops one carriage return, unless the line is longer than 65535 characters |
| Uncomment.BlockLineByLine | test/utils/utils.go:230-242 | a block whose lines fit is written back line by line: lines with the prefix lose it and the others stay |
| Uncomment.SurvivesExactly | test/utils/utils.go:226-242 | which lines come through the scanner: those of at most 65535 characters that do not end in a carriage return, or are nothing else |
| Uncomment.UncommentUndoesComment | test/utils/utils.go:206-254 | uncommenting a commented block restores it and keeps the surrounding bytes, exactly when every commented line fits the scanner and loses no carriage return |
| Uncomment.ReturnIsLost | test/utils/utils.go:226-242 | a concrete line that loses its carriage return |

## Left out

- Kubernetes clients, admission decoding, JSON encoding and patches, manager and flag setup: calls into other code; lists are sequences, answers are parameters.
- Certificates: the keys, the certificates and the secret of `internal/certgen` are not modelled.
- Selector evaluation: an arbitrary function of selector and labels that may report an invalid selector.
- Logging, signals, environment loading and the webhook's log-only command list.
- Time: ticks are events that may come at any moment, and stamps are numbers; nothing is said about intervals.
- Closing of the watch channel: the loop does not test for it, so nothing is claimed about liveness or about falling back from an established watch.
- Repeated injection of one pod, as on its update: the handler does not look for an earlier injection and adds duplicates. Only the lookup through PATH is shown to be insensitive to repetition.
- Removal of scripts whose source or behaviour has disappeared: neither pass does it, and no theorem says that the directory equals the latest list.
- `ObservedGeneration`: it comes from the object that was read again, and nothing is claimed about the specification that was evaluated.
- `atomicCopy` exists twice, in `internal/sidecar/copier.go` and `cmd/sidecar/main.go`; one model serves both. `GetBehaviorStubByPod` repeats the webhook's search and is not modelled a second time.
- File names: sources are keyed by their path below the mount point, so the cleaning that `filepath.Join` does is not modelled; the source directory is not the output directory. Names that are empty, `.`, `..` or `/` after the extension is dropped denote a directory; renaming over it always fails, and the temporary file, which then lies elsewhere, is not tracked.
- Files with several names: the directory starts without hard links, and the umask is 022.
- Users' edits always take a fresh modification time; SameTimeEditIsMissed shows what happens otherwise.
- Two writers at once: one process copies at a time, as in the sidecar, whose initial synchronisation, event loop and polling loop follow one another.
- Sidecar.SidecarManager.Watch: one event is one step; that readers and edits interleave with its copies is covered by the state machine of `Publish.dfy`, not by this method.
- Deep copy: maps, slices and pointers are references, a structure is a value that holds them. What library types hold beyond their maps is a value too: the value lists of match expressions, owner references, and the inside of times, quantities and conditions. Copies of independent parts are made in a different order than in the code, and nil receivers are not modelled.
- PATH: an empty string is read as one zero-length prefix, and later changes of PATH by a container's own processes are not modelled.
- `GetNonEmptyLines`, Helm charts, manifests, shell scripts and end-to-end tests are not modelled.
