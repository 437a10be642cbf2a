# Verified model of the node agent, the release tools and the backup worker

This project models, in Dafny, the parts of the repository whose correctness depends on state kept on disk or in caches
across failures, and proves what those parts are for.

| File | What it models |
|---|---|
| `AgentProtocol.dfy`, `AgentHost.dfy` | The agent's job and report protocol on the atomic file layer. `AgentProtocol` is a state machine over single file operations and control-plane calls, with a crash possible between any two of them; `AgentHost.Host` is the code, and its ghost field `run` is the behaviour of that machine that it has performed. |
| `FileTree.dfy`, `ReleasePlan.dfy`, `PlanRelocation.dfy`, `Cutover.dfy`, `ReleaseEngine.dfy` | The release engine: a file system with directories, files and symbolic links, the four step kinds, the plans, the relocation of a plan to another root, cutover and rollback, and the class `Disk` that runs them step by step. |
| `Promotion.dfy`, `PromotionDisk.dfy` | Packing, activation, promotion, apply and their history in the sandbox, the shadow and the release-root variant, with the points at which they stop; and the proof that the apply is the release plan run on disk. |
| `Cron.dfy`, `BackupSchedule.dfy`, `Retention.dfy`, `BackupStore.dfy`, `ShellQuote.dfy` | The backup runner: cron matching, the once-per-minute rule and the cycle, retention (local and remote), the life of run directories, and the quoting of the remote command. |
| `StorageMaintenance.dfy`, `MaintenanceRun.dfy` | Selection of removable releases, the watermark, the guarded removal loop, and what it leaves of a root that cutover and rollback work on. |
| `AuthGate.dfy`, `MailboxUsage.dfy` | Two caches that must agree with what they cache. |
| `Fstab.dfy`, `EnvFile.dfy`, `Text.dfy` | Small text formats and the string operations they use. |

Code that changes state is a class whose methods are proved against functions or a state machine; the theorems are about
those. Choices that come from outside (a failing call, how many operations a process lives for, a clock reading, a `du`
result, an `mtime`) are nondeterministic or parameters; a method states what it does for each of them. `while` loops
stand where the source loops.

## What the proofs found

- **Re-cutting can break `current`.** A cutover without cleaning removes the version's directory before it copies. When
  the promoted tree is missing and the version is the active one, or the one a rollback would return to, the failed run
  leaves a dangling link. `Cutover.CutoverKeepsSound` says this is the only case. Afterwards an unclean cutover succeeds
  exactly when it brings the missing version back (`Cutover.BrokenRootNeedsTheMissingVersion`), because the helper at
  `release-root-cutover-target.ts:57-63` follows the link and does not remove it; unclean cutovers of other versions keep
  failing, however many are tried (`Cutover.BrokenRootBlocksOtherVersions`). A clean cutover, the default, repairs the root
  (`Cutover.CleanCutoverRepairs`); a rollback does exactly if its candidate is still there
  (`Cutover.RollbackOfABrokenRoot`).
- **Cleaning forgets history.** The history and apply files lie inside the root that `--clean` removes.
- **A rollback's `previousVersion` is the version of the last cutover**, not the one that was active. It is the version
  of the record before exactly when that record has the version of the last cutover
  (`Cutover.RollbackNamesItsPredecessorExactly`); a second rollback in a row repeats the record of the first
  (`Cutover.SecondRollbackRepeatsTheFirst`).
- **Local and remote retention can keep different directories**, because names break a tie at the newest time in opposite
  directions. The remote script removes nothing that the runner keeps if and only if both keep the same directory or the
  runner's is not yet old enough for the script (`Retention.RemoteIsSubsetExactly`).
- **Day-of-week ranges that end in 7** are read with each end normalised alone. They mean what they say only for `7-7` and
  for `0-7` with a step of at least 7 (`Cron.SegmentIsExact`); a field that holds another one is still matched as meant
  exactly when other items select what such ranges miss (`Cron.FieldIsExact`), and a schedule exactly then or when its
  day-of-month field is restricted and yet means every day (`Cron.MatcherIsExact`).
- **Half-done directories can cost every complete run**, because one can be the newest and so the one that retention
  keeps: the directory of a run beside which a pass works (`BackupStore.InterleavedRetentionCanLoseEverything`), one left
  by a `chmod` that threw, which stands outside the `try`, or by a cleanup that threw, and an expired directory whose
  recursive removal stopped half-way and made it new again (`BackupStore.TwoPassesCanLoseEverything`). Up to the first
  such directory nothing is lost (`BackupStore.StorageLocation.Operate`), and beyond it a complete run is lost only in an
  operation whose retention has no reason to keep one (`BackupStore.NothingIsLostWithoutExpiry`).
- **A minute can repeat after the clock went back**: in a minute with a run in it, a policy is due again if and only if a
  run of a later minute is on record (`BackupSchedule.MinuteRepeatsExactly`).
- **A slow backup takes away a minute**: runs are stamped when they are recorded, so a run that ends in a later minute
  uses up that minute of its schedule (`BackupSchedule.SlowRunTakesTheMinuteItEndsIn`).
- **An apply that stops half-way can leave link, manifests and history in disagreement**: one without cleaning takes away
  the active version when its staged tree is gone, and one that has copied the staged promotion manifest and does not
  come to the end leaves a manifest that no record backs. `Promotion.CommandKeepsConsistent` has the exact condition for
  all commands, `Promotion.SecondApplyCanBreak` two inputs. The history itself stays linked whatever happens
  (`Promotion.EveryHistoryHolds`), and the next promotion that comes to the end repairs the rest
  (`Promotion.FinishedPromotionRepairs`), but as long as the manifest is foreign it names no predecessor
  (`Promotion.NextRecord`).
- **The auth gate is wrong only without a token**: a required session caches its rejection as the resolved session. A
  refused token is harmless, because resolving and requiring then fail alike (`AuthGate.AnswersWithoutToken`).
- **A repeated mailbox target hides an entry**: an accepted cache is a permutation of the targets, for every cache, if and
  only if no place is repeated or two targets share an address with different paths, in which case nothing is ever
  accepted (`MailboxUsage.AcceptsOnlyPermutationsExactly`).
- **The prefix test of staging accepts siblings** such as `release-old` for the root `release`, and maps them outside the
  destination (`PlanRelocation.MapTargetStaysInsideExactlyBelowRoot`).
- **Maintenance cannot break a rollback**: the version a rollback would return to is named in a metadata file and therefore
  protected (`MaintenanceRun.SoundRootProtects`), and a removal that stops half-way does no harm either
  (`MaintenanceRun.RemovalKeepsSoundExactly`).

## Model

| member | source | states |
|---|---|---|
| AgentProtocol.EveryReachableStateIsSafe | apps/agent/src/index.ts:3839-3963 | In every state of every behaviour, crashes, failing calls and restarts included: each job id's latest buffered result waits in the buffer or has been accepted; a buffered report is readable and has a spool entry; an executed spool entry without a buffered report implies acceptance |
| AgentProtocol.StepKeepsInvariant | apps/agent/src/index.ts:3839-4052 | Every single file operation, control-plane call and crash keeps that invariant |
| AgentProtocol.OnlyBufferedResultsAreAccepted | apps/agent/src/index.ts:3839-3862 | The control plane only takes in results that were once the latest result of some job |
| AgentProtocol.AcceptanceIsPermanent | apps/agent/src/index.ts:3839-3862 | What was accepted stays accepted in every later state |
| AgentProtocol.RecordedJobsStay | apps/agent/src/index.ts:3889-3963 | A job that once had a result buffered has one in every later state |
| AgentProtocol.RenameKeepsSafety | packages/agent-runtime-config/src/index.ts:378-386 | The rename of an atomic write is the one moment a file changes, and it keeps the safety of all job ids |
| AgentProtocol.UnfinishedWriteKeepsInvariant | packages/agent-runtime-config/src/index.ts:378-386 | A write cut off before its rename changes nothing that anybody reads |
| AgentProtocol.ListingShowsExactlyFinishedFiles | packages/agent-runtime-config/src/index.ts:397-408 | The `.json` filter of the listing shows exactly the finished files and no temporary one |
| AgentProtocol.FileNamesAreDistinct | packages/agent-runtime-config/src/index.ts:378-408 | Spool, report, state and temporary files never collide, for any job ids |
| AgentHost.Host.WriteJsonFileAtomic | packages/agent-runtime-config/src/index.ts:378-386 | An atomic write either puts the content in place or is cut off with at most a temporary file changed; either is a stretch of the machine's behaviour |
| AgentHost.Host.DeliverBufferedReport | apps/agent/src/index.ts:3839-3862 | A delivery posts the report once and, if that does not throw, removes it; with no exception the result is accepted and the report gone, with one the report waits with one more attempt and its result is the latest; other jobs are untouched |
| AgentHost.Host.FlushBufferedReports | apps/agent/src/index.ts:3864-3887 | With a token every report of the buffer is posted, delivered and failed add up to their number and failed is how many are left; a pass without failures empties the buffer, and then every job's latest result is accepted. Without a token nothing is called |
| AgentHost.Host.ExecuteClaimedJob | apps/agent/src/index.ts:3890-3963 | A job that was run is on record as the last applied state; with a token its result has been posted, and it is settled with both its files gone, or its report waits with one attempt and its spool entry says executed; without one it waits with none. An agent that stops has used up its operations |
| AgentHost.Host.RunCycle | apps/agent/src/index.ts:3972-4052 | A whole agent cycle is a behaviour of the machine, so all of the above holds at every point of it. A completed one with a token has posted every report that waited at its start and counts them as delivered or failed; with none failed every latest result from before is accepted unless its job was claimed again, and no report of it is left; every claimed job has been run, and its latest result was accepted or waits in the buffer, with an attempt in it. Only an agent without operations left stops |
| AgentHost.Host.RunCycles | apps/agent/src/index.ts:3972-4052 | Over any number of cycles, each cut off after any number of operations, every state is safe, and of each cycle the above holds where it began and ended |
| AgentHost.SuccessfulCycleEmptiesTheBuffer | apps/agent/src/index.ts:4026-4052 | After a cycle of such a run that claimed nothing and whose deliveries all succeeded no report is left, and what any job had waiting before it is accepted, then and ever after |
| FileTree.CopyDirectoryEffect | apps/control/src/release-tree-copy.ts:3-12 | A copied tree is the source tree without entries under a `.tmp` component; nothing else changes |
| FileTree.ExistsIsMonotone | apps/control/src/release-root-cutover-target.ts:57-63 | Links keep resolving when a change takes nothing away: the basis for `existsSync` following them |
| ReleasePlan.PlanEffect | apps/control/src/release-root-cutover-target.ts:162-200 | A run completes exactly when all five sources are there and `current` does not dangle when it is replaced; then every path of the disk holds what the plan says; otherwise it stops, at the link with `EEXIST` if only the link was in the way |
| ReleasePlan.RunStopsExactly | apps/control/src/release-root-promotion.ts:417-455 | Wherever a run stops: the version's directory is there exactly if its source is, each manifest is its source if that and all before it were there and what it was otherwise, `current` is relinked only by a complete run, and other versions stay |
| ReleasePlan.CompleteRun | apps/control/src/release-root-cutover.ts:135-202 | After a complete run the root, its releases and the four directories under `shared` are there, `current` links to the version, its tree is the source tree without `.tmp`, the four metadata files equal their sources, and other versions and the rest of the disk are untouched; all with their paths written out |
| ReleasePlan.SecondRunChangesNothing | apps/control/src/release-root-promotion.ts:417-455 | Running the same plan again without cleaning succeeds and changes nothing |
| ReleasePlan.VersionLinksCanBeReplaced | apps/control/src/release-root-cutover-target.ts:57-63 | A link to a version that is there, or to the one being reinstalled, never blocks the link step, although reinstalling makes it dangle for a while |
| ReleasePlan.OtherVersionsAreUntouched | apps/control/src/release-root-cutover.ts:135-202 | No run, complete or not, changes another version's directory |
| PlanRelocation.RelocatedRunMirrorsRun | apps/control/src/release-root-staging.ts:245-282 | For any list of steps, interpreting the relocated steps equals relocating the interpretation, failures included |
| PlanRelocation.HandoffPlanRelocates | apps/control/src/release-target-apply.ts:144-186 | The steps of the hand-off plan, run under another root, build there exactly what they would build under their own, and change nothing outside the destination and what lies above it |
| PlanRelocation.CleanedRunRelocates | apps/control/src/release-target-apply.ts:139-186 | The same with the cleaning of a directory that holds the destination: the steps build what they would build on the cleaned disk, and nothing changes outside the cleaned directory and what lies above it |
| PlanRelocation.RelocatedPlanIsPlanOfRelocatedLayout | apps/control/src/release-shadow-handoff.ts:118-185 | Relocating the twelve steps of the hand-off gives the plan of the relocated layout |
| PlanRelocation.RunStaysInside | apps/control/src/release-root-staging.ts:245-282 | A run never touches what is neither below nor above the root its targets lie under |
| PlanRelocation.MapTargetAcceptsExactly | apps/control/src/release-root-staging.ts:86-95 | A target is accepted exactly when it starts with the root string, and then only that start is replaced |
| PlanRelocation.MapTargetOfPathBelowRoot | apps/control/src/release-root-staging.ts:86-95 | On path strings the mapping accepts every path below the root and moves it below the destination |
| PlanRelocation.MapTargetStaysInsideExactlyBelowRoot | apps/control/src/release-root-staging.ts:86-95 | An accepted path lands inside the destination exactly when it lay below the root as a path, not merely as a string |
| PlanRelocation.MapStepIsRelocation | apps/control/src/release-root-staging.ts:152-161 | The string mapping of a manifest step is the relocation of the step if and only if it is no copy, or its source does not start with the root string, or the replacement gives the same string |
| PlanRelocation.MapSourceKeepsExactly | apps/control/src/release-root-staging.ts:97-108 | The mapped source is the source if and only if it does not start with the root string or both roots are the same string |
| ReleaseEngine.Disk.ApplySteps | apps/control/src/release-root-cutover-target.ts:162-200 | The step loop runs the steps in order up to the first that throws; its records are the steps that were applied, none of which threw, and the step after them is the one that did |
| ReleaseEngine.Disk.ApplyRelocated | apps/control/src/release-root-staging.ts:225-282 | Cleaning a directory that holds the destination and running the relocated plan there is the relocated run on the cleaned disk; nothing else changes, and the records are the relocated steps |
| ReleaseEngine.Disk.Cutover | apps/control/src/release-root-cutover-target.ts:138-267 | The command leaves the disk that the cutover function describes, error included |
| ReleaseEngine.Disk.Rollback | apps/control/src/release-root-cutover-target-rollback.ts:53-131 | The command leaves the disk that the rollback function describes; without a candidate nothing changes |
| Cutover.CutoverSucceeds | apps/control/src/release-root-cutover-target.ts:138-267 | From a sound root with its sources present a cutover succeeds, keeps the root sound, activates its version, and records the version that was active before |
| Cutover.CutoverByPath | apps/control/src/release-root-cutover-target.ts:138-267 | The same for a successful cutover with every path from the workspace on, and the apply manifest and the new history record, with the version that was active |
| Cutover.CutoverFails | apps/control/src/release-root-cutover-target.ts:138-200 | A cutover without its sources throws and keeps the history and the link `current`; the root stays sound exactly unless it took away a version somebody points at |
| Cutover.CutoverNeedsPromotion | apps/control/src/release-root-cutover-target.ts:138-161 | If the promotion's `promotion.json`, `deploy.json` or `apply.json` cannot be read, a cutover throws and the disk stays as it was |
| Cutover.CleaningComesFirst | apps/control/src/release-root-cutover-target.ts:138-161 | A clean cutover is an unclean one on the disk without the directory of the target, whatever comes of it |
| Cutover.CurrentByTarget | apps/control/src/release-root-cutover.ts:69-99 | A link `current` to a directory stands for the version whose directory it is, and for none outside the releases |
| Cutover.CutoverKeepsSound | apps/control/src/release-root-cutover-target.ts:138-267 | A cutover, clean or not, successful or not, keeps a root sound exactly when it is clean or takes nothing away |
| Cutover.RollbackSucceeds | apps/control/src/release-root-cutover-target-rollback.ts:53-131 | From a sound root with a candidate a rollback succeeds, keeps the root sound, and activates and records the version that the last cutover replaced |
| Cutover.RollbackByPath | apps/control/src/release-root-cutover-target-rollback.ts:53-131 | With every path written out: the link, the one new record, and nothing else |
| Cutover.RollbackNamesItsPredecessorExactly | apps/control/src/release-root-cutover-target-rollback.ts:90-106 | The previous version in a rollback's record is the version of the record before it if and only if that record has the version of the last cutover |
| Cutover.SecondRollbackRepeatsTheFirst | apps/control/src/release-root-cutover-target-rollback.ts:53-106 | A second rollback in a row writes the record of the first again, whose previous version is not the one that was active unless the cutover undone was a re-cut |
| Cutover.RollbackWithoutCandidate | apps/control/src/release-root-cutover-target-rollback.ts:62-76 | Without a recorded candidate a rollback throws and changes nothing |
| Cutover.EveryStateIsSound | apps/control/src/release-root-cutover-target.ts:138-267 | Over any sequence of cutovers, rollbacks and changes elsewhere that take nothing away, every state in between is sound |
| Cutover.SoundStateResolves | apps/control/src/release-root-cutover.ts:69-99 | In a sound root `current` never dangles, and with a history it resolves to the version of the last record |
| Cutover.FailedRecutBreaks | apps/control/src/release-root-cutover-target.ts:57-63 | Re-cutting the active version, unclean and without its promoted tree, throws and leaves `current` dangling |
| Cutover.FailedRecutIsPossible | apps/control/src/release-root-cutover-target.ts:138-267 | For every site and version there is a disk on which that happens: a first cutover, and then the promoted tree goes |
| Cutover.BrokenRootNeedsTheMissingVersion | apps/control/src/release-root-cutover-target.ts:138-200 | With `current` dangling an unclean cutover succeeds if and only if it is of the missing version and its sources are there; one of another version with its sources stops with `EEXIST` and leaves `current` as it is |
| Cutover.BrokenRootBlocksOtherVersions | apps/control/src/release-root-cutover-target.ts:138-200 | In any sequence of unclean cutovers of other versions and changes elsewhere, every one of these cutovers fails and `current` keeps dangling |
| Cutover.RollbackOfABrokenRoot | apps/control/src/release-root-cutover-target-rollback.ts:53-131 | With `current` dangling a rollback relinks it to the candidate and records that; it resolves afterwards if and only if the candidate is there |
| Cutover.CleanCutoverRepairs | apps/control/src/release-root-cutover-target.ts:138-267 | From any well-shaped root, broken or not, a clean cutover whose sources are there succeeds and leaves a sound root with its version active and one record |
| Cutover.FirstCutoverIsPossible | apps/control/src/release-root-cutover-target.ts:138-161 | For every site and version there is a disk, with manifests that can be read, from which a first cutover succeeds, so the premises of the theorems can be met |
| Cutover.FreshRootIsSound | apps/control/src/release-root-cutover.ts:69-99 | A root without bookkeeping whose `current` is absent or leads to a version is sound, so the theorems start there |
| Cutover.CleanRootIsSound | apps/control/src/release-root-cutover-target.ts:138-161 | A cleaned root is sound, without `current` and without history |
| Promotion.EverySequenceIsConsistent | apps/control/src/release-root-promotion.ts:417-507 | After any commands of which none meets that condition, the promotion, deploy and rollback manifests agree with the last history record, the history is linked, and `current` points at the version activated last, which is there |
| Promotion.CommandKeepsConsistent | apps/control/src/release-root-promotion.ts:408-507 | A command, wherever it stops, keeps link, manifests and history in agreement if and only if it does not take away the active version's tree and throw, does not relink to a listed version without a tree, and is no apply that copied the staged promotion manifest and did not come to the end |
| Promotion.SecondApplyCanBreak | apps/control/src/release-root-promotion.ts:423-439 | Two inputs on which an apply breaks what the same apply had set up: its staged tree is gone, or its staged hand-off manifest |
| Promotion.FinishedPromotionRepairs | apps/control/src/release-root-promotion-promotion.ts:156-234 | After any commands, those that broke something included, a promotion or apply that comes to the end leaves everything in agreement |
| Promotion.EveryHistoryHolds | apps/control/src/release-root-promotion-promotion.ts:166-213 | After any commands, wherever they stopped, each record names the one before it or, in the release-root variant only, none; and the promotion on file is that of the last record or, in that variant only, a copied foreign one |
| Promotion.SandboxAndShadowHistoriesAreChains | apps/control/src/release-sandbox-promotion.ts:138-216 | In the sandbox and the shadow every record's previous version is the version of the record before it, for any commands |
| Promotion.NextRecord | apps/control/src/release-root-promotion-promotion.ts:166-213 | After any commands, wherever they stopped, a direct promotion names its predecessor if and only if the promotion file is not a copied foreign one or there is no predecessor; one made inside apply names none |
| Promotion.ActivationNamesThePrevious | apps/control/src/release-sandbox-activation.ts:143-207 | After any commands the activation file names the version activated last and, as its previous one, the version activated before it |
| Promotion.SandboxHoldsWhatWasPacked | apps/control/src/release-sandbox-activation.ts:77-110 | After any commands the sandbox lists exactly the versions packed to the end since the last reset or cleaning, and holds the tree of every version packed since then |
| Promotion.Target.PromoteVersion | apps/control/src/release-shadow-promotion.ts:147-227 | The file-by-file promotion leaves the files that the specification describes: all of them for a version that is there, none for an unknown one, and only link and activation when what is read after the activation throws |
| Promotion.Target.ActivateVersion | apps/control/src/release-sandbox-activation.ts:143-207 | Activation relinks and records the previous active version; it throws for an unknown version before it changes anything, and for a listed one without a tree once the link has been replaced |
| Promotion.Target.ApplyStaged | apps/control/src/release-root-promotion.ts:401-507 | The apply needs the staging's apply manifest, cleans, runs its steps up to the first that throws, and promotes: the files are then those of the specification |
| Promotion.Target.PackReleases | apps/control/src/release-shadow-pack.ts:100-188 | The shadow pack takes over the sandbox's releases one by one up to the first whose tree is missing, relinks, writes the inventory and promotes: the files are then those of the specification |
| PromotionDisk.StepsAreCopySteps | apps/control/src/release-root-promotion.ts:417-455 | Running the twelve steps on any disk, seen as the files of the stage, is the step specification of the apply, wherever it stops |
| Cron.MatcherMatchesMeaning | apps/worker/src/backup-runner.ts:333-380 | For every valid schedule tree whose day-of-week ranges are read as meant, matching its printed text against any time equals its meaning as sets: lists, ranges, steps counted from the range start or the field minimum, 7 as Sunday, and the OR of day-of-month and day-of-week |
| Cron.MatcherIsExact | apps/worker/src/backup-runner.ts:333-380 | Every valid schedule tree is matched as meant at every time if and only if other items of its day-of-week field select what that field's misread ranges miss, or its day-of-month field is restricted and yet means every day |
| Cron.FieldMatchesMeaning | apps/worker/src/backup-runner.ts:285-331 | For one field whose ranges are all read as meant, the matcher equals the union of its items' meanings |
| Cron.FieldIsExact | apps/worker/src/backup-runner.ts:277-331 | Any valid field is matched as meant on every value if and only if each value that a misread range misses is selected by another item |
| Cron.SegmentIsExact | apps/worker/src/backup-runner.ts:277-331 | A list item matches its meaning for all values if and only if it is no day-of-week range ending in 7, or is one of the ranges for which normalising each end alone does no harm |
| Cron.WeekdayByNumber | apps/worker/src/backup-runner.ts:277-283 | A number in the day-of-week field means its day, and 7 Sunday like 0 |
| Cron.OnlyFiveFieldsMatch | apps/worker/src/backup-runner.ts:333-340 | Text of any number of words other than five matches at no time |
| BackupSchedule.DueExactly | apps/worker/src/backup-runner.ts:386-401 | Whatever the clock did, an unforced policy is due exactly when its schedule matches and no run of it was stamped in this minute or one was stamped in a later one; without any run, minute 0 of 1970 counts as taken |
| BackupSchedule.DuePolicyHasANewMinute | apps/worker/src/backup-runner.ts:382-401 | An attempt comes in a later minute than every recorded attempt before it, although stamps are taken after the run |
| BackupSchedule.TakenMinuteIsNotDue | apps/worker/src/backup-runner.ts:386-401 | With a clock that has not gone back, a policy is not due in a minute in which a run of it was stamped |
| BackupSchedule.MinuteRepeatsExactly | apps/worker/src/backup-runner.ts:386-401 | In a minute with a run in it a policy whose schedule matches is due again if and only if a run of it was stamped in a later minute |
| BackupSchedule.ClockGoingBackRepeatsAMinute | apps/worker/src/backup-runner.ts:386-401 | An input on which it does: a run in this minute and one in the next |
| BackupSchedule.SlowRunTakesTheMinuteItEndsIn | apps/worker/src/backup-runner.ts:386-401 | A policy is not due in the minute in which a run of it was recorded, whenever that run began |
| BackupSchedule.MinuteIsSixtySeconds | apps/worker/src/backup-runner.ts:382-384 | Two instants count as one minute if and only if both lie in the same sixty seconds of the clock |
| BackupSchedule.SelectionIsAsAsked | apps/worker/src/backup-runner.ts:1806-1813 | A policy takes part if and only if it is for this node and asked for, or nothing but blanks is asked for |
| BackupSchedule.SelectionKeepsOrder | apps/worker/src/backup-runner.ts:1806-1813 | The policies that take part come in the order of the policies |
| BackupSchedule.PickPlaces | apps/worker/src/backup-runner.ts:1831-1879 | Each selected policy lands in the attempted or in the skipped list, at the place the earlier ones of that list leave it |
| BackupSchedule.PickSplits | apps/worker/src/backup-runner.ts:1831-1879 | The attempted and the skipped policies add up to the selected ones |
| BackupSchedule.ForcedSkipsNone | apps/worker/src/backup-runner.ts:386-394 | With `force` every policy that takes part is attempted and none is skipped |
| BackupSchedule.ListedAreAsked | apps/worker/src/backup-runner.ts:1806-1879 | Every policy of this node that was asked for is listed as attempted if it is due and as skipped if not |
| BackupSchedule.Runner.RunBackupCycle | apps/worker/src/backup-runner.ts:1801-1885 | An unknown slug throws before anything runs; otherwise the due policies are attempted in order up to the first whose run cannot be stored, where the cycle throws; every one before it has its run stored, which says whether it succeeded; a completed cycle lists every policy that takes part as attempted or as skipped, in order; attempts are of policies of this node that were asked for; and the history of all attempts keeps at most one recorded attempt per policy and minute |
| BackupSchedule.Runner.RunBackupCycles | apps/worker/src/backup-runner.ts:1801-1885 | Over any cycles, each as above on what the one before it left, no sixty-second minute holds an unforced attempt and an earlier attempt of its policy whose run was recorded, failed runs included, and an unforced attempt comes only when its schedule matches |
| BackupSchedule.ScheduledTimeIsMeant | apps/worker/src/backup-runner.ts:333-402 | In such a history an unforced attempt of a policy with a printed schedule that is matched as meant comes at a time that the schedule means |
| Retention.SelectionIsExact | apps/worker/src/backup-runner.ts:783-792 | Exactly the directories older than the cutoff are selected, except the newest by time and then by name |
| Retention.LocalSelectionInMilliseconds | apps/worker/src/backup-runner.ts:783-799 | The runner removes exactly the directories that are more than `retentionDays` times 86,400,000 milliseconds old and have one that is newer, or as new with a name before theirs |
| Retention.SelectionIgnoresListingOrder | apps/worker/src/backup-runner.ts:783-792 | With distinct names the order in which the directory was read does not matter |
| Retention.SelectionGrowsWithCutoff | apps/worker/src/backup-runner.ts:783-792 | A later cutoff selects at least as much |
| Retention.SelectionIsIdempotent | apps/worker/src/backup-runner.ts:783-792 | On the survivors the same cutoff selects nothing more |
| Retention.RemoteSelectionIsExact | apps/worker/src/backup-runner.ts:630-638 | The remote script removes exactly the directories older in whole seconds than its cutoff, except the newest by time and then the last by name |
| Retention.RemoteSelectionInSeconds | apps/worker/src/backup-runner.ts:630-638 | In whole seconds, the script removes exactly the directories that are more than `retentionDays` times 86,400 old and have one that is newer, or as new with a name after theirs |
| Retention.RemoteAgainstLocal | apps/worker/src/backup-runner.ts:630-638 | On any inventory with distinct names the script removes what the runner removes or keeps as its newest, as far as it is before the floored cutoff, except the directory that the script keeps |
| Retention.RemoteIsSubsetExactly | apps/worker/src/backup-runner.ts:630-638 | On any inventory with distinct names the script removes nothing that the runner keeps if and only if both keep the same directory or the runner's is not older than the remote cutoff |
| Retention.RemoteRemovesASubset | apps/worker/src/backup-runner.ts:630-638 | Where both places keep the same directory, the remote script removes a directory exactly when the local selection does and its time is before the cutoff floored to a second |
| Retention.SingleNewestRemovesASubset | apps/worker/src/backup-runner.ts:630-638 | The same for every inventory in which no two directories share the newest time |
| Retention.CutoffsDiffer | apps/worker/src/backup-runner.ts:630-638 | The remote cutoff is the local one floored to a second, for all clocks |
| Retention.TiesAreBrokenInOppositeWays | apps/worker/src/backup-runner.ts:630-638 | An input on which they differ: of two expired directories of the same time each place removes the one the other keeps |
| BackupStore.RetentionLeavesACompleteRunExactly | apps/worker/src/backup-runner.ts:794-827 | A pass leaves a complete run if and only if one is unlisted, unexpired or the newest of all |
| BackupStore.RetentionKeepsACompleteRun | apps/worker/src/backup-runner.ts:794-827 | Without half-done directories no pass takes the last complete run |
| BackupStore.SelectionIsExpired | apps/worker/src/backup-runner.ts:783-820 | What is selected from the readable part of a location is exactly its expired directories, each once |
| BackupStore.ExpirableInDays | apps/worker/src/backup-runner.ts:783-820 | A run directory may go exactly when it is readable, more than that many days of 86,400,000 milliseconds old, and not the newest |
| BackupStore.PartOfAPassKeepsMore | apps/worker/src/backup-runner.ts:822-824 | A pass cut short by a throwing removal, whatever that leaves of its directory, has kept a complete run whenever the whole pass would |
| BackupStore.InterleavedRetentionCanLoseEverything | apps/worker/src/backup-runner.ts:1887-1905 | A pass beside a run in progress, or beside a directory left half done, removes the complete run for every cutoff after it |
| BackupStore.TwoPassesCanLoseEverything | apps/worker/src/backup-runner.ts:822-824 | Of two passes in a row the first, throwing half-way through an expired directory, can make it the newest, and the second then removes the last complete run |
| BackupStore.StorageLocation.ApplyRetention | apps/worker/src/backup-runner.ts:794-827 | A pass removes exactly the expired run directories (older than that many days in milliseconds, readable, and not the newest), or some of them and then, where a removal throws, leaves that directory whole, gone or half done, and reports nothing; only a half-done one ends the promise that the last complete run stays |
| BackupStore.StorageLocation.ExecutePolicy | apps/worker/src/backup-runner.ts:1529-1749 | A run succeeds exactly when neither retention nor any later step throws; the location is then the one retention left plus the complete directory; a failed run is cleaned up unless its manifest was written; a half-done directory stays exactly when a removal stopped half-way, `chmod` threw, or the cleanup did |
| BackupStore.StorageLocation.Operate | apps/worker/src/backup-runner.ts:1529-1955 | Through any mix of runs, failures, failed replications and passes, one after the other, once a complete run is there one is there in every later state up to and including the first with a half-done directory left behind; and every operation, before or after that, does to the location what the operation relation says |
| BackupStore.NothingIsLostWithoutExpiry | apps/worker/src/backup-runner.ts:783-827 | In any sequence of operations, half-done directories left behind included, a complete run stays unless some operation finds every complete run readable, old and not the newest and completes none itself |
| BackupStore.OperationLeavesACompleteRun | apps/worker/src/backup-runner.ts:1529-1749 | An operation leaves a complete run if retention has a reason to keep one or the run completes one, and where its retention runs to its end only then |
| ShellQuote.LexUndoesQuoting | apps/worker/src/backup-runner.ts:597-599 | A POSIX shell (Shell Command Language, sections 2.2.1 and 2.2.2) reads any words, quoted one by one, back as those words |
| ShellQuote.OuterShellReadsTheScript | apps/worker/src/backup-runner.ts:622-641 | For every storage location the remote shell reads the command as exactly `/usr/bin/bash`, `-c` and the script |
| ShellQuote.InnerShellAssignsTheLocation | apps/worker/src/backup-runner.ts:622-641 | Bash then assigns `root` exactly the original storage location |
| ShellQuote.ScriptInFull | apps/worker/src/backup-runner.ts:622-641 | After the assignment the script ends where there is no root, computes its cutoff from a number that reads as the retention days, lists newest first, and deletes what is older from the second on |
| StorageMaintenance.ReleaseSelectionIsExact | apps/worker/src/storage-maintenance.ts:287-341 | Exactly the releases that are not active, pinned, named in metadata, among the `keep` newest or too young are candidates; protected and candidate lists partition the inventory, newest first, with the reasons of each |
| StorageMaintenance.SelectReleaseCandidates | apps/worker/src/storage-maintenance.ts:287-341 | The loop computes that selection |
| StorageMaintenance.RankIsPlace | apps/worker/src/storage-maintenance.ts:298-301 | A release's place in the sorted inventory is the number of releases that come before it, which is what "among the newest" means |
| MaintenanceRun.WatermarkIsExact | apps/worker/src/storage-maintenance.ts:418-434 | The truncated percentage reaches a whole threshold exactly when used * 100 >= threshold * (used + available) |
| MaintenanceRun.SoundRootProtects | apps/worker/src/storage-maintenance.ts:517-570 | In a sound root the active release is found, and the version a rollback would return to is among the metadata names |
| MaintenanceRun.MetadataNamesAreExact | apps/worker/src/storage-maintenance.ts:517-552 | The protected metadata names are exactly the inventory's releases that a manifest, a history record as version or previous version, or an apply manifest in `shared/meta` names |
| MaintenanceRun.RemovableNamesAreExact | apps/worker/src/storage-maintenance.ts:287-341 | In paths and numbers: a release may go exactly when it is not active, not pinned, not so named, has `keep` newer ones, and is at least `minAgeDays` times 86,400,000 milliseconds old |
| MaintenanceRun.ActiveReleaseIsAChild | apps/worker/src/storage-maintenance.ts:554-570 | A link `current` to a directory names the active release exactly when that directory is a child of `releases` |
| MaintenanceRun.RemovalKeepsSoundExactly | apps/worker/src/storage-maintenance.ts:605-629 | A removal of a release, complete or stopped at any point, keeps the invariant of cutover and rollback if and only if the release's directory is still there or it is neither the active version nor the rollback candidate |
| MaintenanceRun.RemovalsTakeOnlyReleases | apps/worker/src/storage-maintenance.ts:605-629 | Removals, some of them stopped at any point, take nothing but what lies in the releases they name, and those that do not throw take their release entirely |
| MaintenanceRun.MaintainedRootStaysSound | apps/worker/src/storage-maintenance.ts:721-775 | Cutovers, rollbacks and maintenance runs in any order, removals that stop half-way included, leave every state in between sound |
| MaintenanceRun.Maintenance.RemoveReleaseCandidate | apps/worker/src/storage-maintenance.ts:605-629 | A release is removed exactly when it is a real directory, not the active one, and its removal does not throw; one that throws leaves any part of the release, and nothing else changes |
| MaintenanceRun.Maintenance.RunStorageMaintenance | apps/worker/src/storage-maintenance.ts:721-775 | Nothing is removed or pruned unless applying is allowed; then of every release in the inventory each path stays if it may not go, and is gone if it may and its removal does not throw; the sizes of the removed add up, the removals that throw and a failing prune are counted, pruning follows the second measurement, skip reasons and status are exact, and a sound root stays sound with the same active version and candidate |
| Fstab.FourPassesAreOne | apps/agent/src/index.ts:1881-1887 | On every string the four global replacements equal one left-to-right decode |
| Fstab.DecodeUndoesEscape | apps/agent/src/index.ts:1881-1887 | Decoding undoes escaping for every string, also for paths that contain `\040` literally |
| Fstab.BackslashFirstIsWrong | apps/agent/src/index.ts:1881-1887 | With the backslash replaced first, an escaped `\040` would decode to a space |
| Fstab.CodesInPlainText | apps/agent/src/index.ts:1881-1887 | `\040`, `\011`, `\012` and `\134` stand for space, tab, newline and backslash, in front of any text |
| EnvFile.RoundTripExactly | apps/control/src/release-sandbox-runner.ts:35-55 | Printed pairs with distinct keys are parsed back to the same map if and only if each key and value is free of line feeds, keys start properly and hold no `=`, and values do not end in white space |
| EnvFile.ParsedEntriesSurvive | apps/control/src/release-sandbox-runner.ts:35-55 | Whatever the file, every parsed entry satisfies that condition |
| EnvFile.LineIsReadExactly | apps/control/src/release-sandbox-runner.ts:38-52 | A line gives a key a value if and only if, trimmed, it is the key, the first `=` and the value, and neither a comment nor without a key |
| EnvFile.LastLineWins | apps/control/src/release-sandbox-runner.ts:35-55 | The result has exactly the keys that some line gives, each with the value of the last such line |
| EnvFile.SandboxEnvironmentRoundTrips | apps/control/src/release-sandbox-pack.ts:48-58 | The sandbox runner reads the packed environment back exactly when no configured text has a line feed or ends in white space |
| EnvFile.SandboxEnvironmentByName | apps/control/src/release-sandbox-pack.ts:48-58 | The runner reads seven keys, each with its configured value |
| EnvFile.ParseEnvFile | apps/control/src/release-sandbox-runner.ts:35-55 | The loop computes the map of the lines, later lines winning |
| AuthGate.GateAnswersLikeTheOperations | apps/control/src/auth-gate.ts:30-69 | With a token, valid or refused, every interleaving of the calls and of the delayed dashboard callback gives the uncached answers |
| AuthGate.OperationsAreCalledOnce | apps/control/src/auth-gate.ts:30-69 | Each underlying operation is called at most once, whatever the token |
| AuthGate.AnswersWithoutToken | apps/control/src/auth-gate.ts:35-45 | Without a token an answer is the uncached one if and only if no required session came before a resolve, or before the first question whether the request is authenticated |
| AuthGate.OperationsByToken | apps/control/src/auth-gate.ts:30-69 | What the uncached operations answer for an absent or empty token and for one the control plane takes or refuses |
| AuthGate.SettledGateCallsNothing | apps/control/src/auth-gate.ts:30-69 | Once a dashboard was loaded and its callback has run, no operation is called any more |
| AuthGate.Gate.RequireSession | apps/control/src/auth-gate.ts:38-45 | The closure answers and changes the caches as the machine of events says |
| AuthGate.Gate.CheckAuthenticated | apps/control/src/auth-gate.ts:66-69 | The same for the question whether the request is authenticated |
| MailboxUsage.FreshExactly | apps/agent/src/index.ts:2686-2710 | With distinct target addresses a cache is accepted if and only if it is of this schema, at most five minutes old (or from the future), and its entries are a permutation of the targets on address and path |
| MailboxUsage.CoveringIsPermutation | apps/agent/src/index.ts:2700-2709 | Equal lengths and a one-way lookup already make a permutation |
| MailboxUsage.AcceptedIsPermutation | apps/agent/src/index.ts:2686-2710 | Without repeated places an accepted cache is a permutation, also where addresses repeat |
| MailboxUsage.ConflictAcceptsNothing | apps/agent/src/index.ts:2700-2709 | For targets that share an address with different paths no cache is accepted |
| MailboxUsage.RepeatedTargetHidesAnEntry | apps/agent/src/index.ts:2700-2709 | For every target list in which a place is repeated and no two targets conflict there is a cache that is accepted although it is no permutation |
| MailboxUsage.AcceptsOnlyPermutationsExactly | apps/agent/src/index.ts:2686-2710 | For any target list, acceptance implies a permutation if and only if no place is repeated or two targets share an address with different paths |
| MailboxUsage.UsageCache.CollectMailboxUsageSnapshot | apps/agent/src/index.ts:2765-2808 | For any target list: a hit returns what the miss that wrote the file computed, a miss measures all targets, each entry having its target's address, domain, local part and path and the size found there; the entries are as many as the targets and at most 5 * 60 * 1000 milliseconds old, and a permutation of them after a miss and, on a hit, for every list on which acceptance implies one |

## Left out

- Agent: the contents of desired state, the drivers and the control plane are oracles; `createNodeSnapshot` and the inspectors only read.
- Agent: transient read errors. With them a flush would delete a good report. The state directory starts empty.
- Agent: job ids that contain a slash, and two processes on one state directory.
- JSON text: a manifest is its value, and a file outside the agent's atomic layer is whole when a command ends.
- Release engine: symbolic links in the middle of a path, permissions, times, and a removal or copy of a cutover, staging or apply step that stops half-way.
- Release engine: summaries, the plan file and the rollback manifest are written and never read back by these commands; the `$` patterns of `String.replace` in a destination; version names that are not plain components.
- Release engine: `ready`, `parity`, `handoff`, `gate`, `rehearsal` and `diff` reports, which are conjunctions of checks over the engine.
- `PlanRelocation.HandoffPlanRelocates`: assumes that no copy source lies in or above the roots, that links elsewhere do not lead into them, and that the way to both roots is clear.
- `ReleaseEngine.Disk.ApplyRelocated`: the run with cleaning, which is the default; without it the destination may hold anything, of which `PlanRelocation.RelocatedRunMirrorsRun` speaks if both sides agree at the start.
- `ReleasePlan.SecondRunChangesNothing`: for a source tree that is a directory.
- `Promotion.Target.PromoteVersion`: the startup manifest and the inventory records are reduced to the set of known versions and to whether what is read after the activation can be read. As everywhere outside the agent's atomic layer, a write does not fail and a copy or removal of one tree does not stop inside it.
- Cron: steps on single numbers, names of months and days, and fields that the printer does not produce are covered by the matcher but not by the meaning; the calendar is a parameter.
- Backup runner: archives, dumps and replication are single steps that succeed or throw; SSH and `find` stand for their effect.
- `BackupStore.StorageLocation.Operate`: operations on one location are serialised and run directories have fresh names; after a half-done directory was left behind only `BackupStore.NothingIsLostWithoutExpiry` speaks of sequences. A run that throws before retention changes nothing and is not a step.
- `BackupSchedule.Runner.RunBackupCycles`: one worker at a time, a clock that does not go back, years of four digits; an attempt whose run could not be recorded is not counted.
- `MaintenanceRun.MaintainedRootStaysSound`: about a configuration in which maintenance is pointed at the root that cutover and rollback emulate in the workspace; by default it works on `/opt/simplehostman/release`.
- Retention: real collation and `mtime` precision; name orders are arbitrary total orders and times are reals.
- `ShellQuote.InnerShellAssignsTheLocation`: the lexer covers quoting, blanks and `;`, which is all that the command's beginning uses; expansion in the rest of the script is not modelled, and tokens do not record quoting, so that `root=` stands unquoted is read off the script and not off the token.
- Storage maintenance: `du`, `podman`, the process list, mount counts and report writing; `MaintenanceRun.Maintenance.RunStorageMaintenance` takes sizes, usage and the number of blockers as parameters.
- `AuthGate.GateAnswersLikeTheOperations`: a backend that answers the same question alike during one request.
- Mailbox usage: `du` output parsing; the domain and local part of a cached entry are not compared with the target.
- Env files: a key called `__proto__`, which a JavaScript object treats specially.
- HTTP servers, routes, CLI parsing, the control-plane database and the job drivers.
