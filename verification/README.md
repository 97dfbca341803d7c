# Container plugin: verified model

A Dafny model of the stateful parts of `workflow-plugin-compute-container`, with proofs of the
properties the plugin relies on. Verify with `dafny verify dfyconfig.toml` (Dafny 4.11).

| file | models |
|---|---|
| `OutputCapture.dfy`, `DrainProtocol.dfy`, `Errors.dfy`, `SandboxRun.dfy` | bounded output capture: rolling tails, the split of one byte budget over two streams, bounding a second time, the drains with their timer, and the assembly of a run's result from error trees |
| `CleanPath.dfy`, `ArchivePaths.dfy`, `FileTree.dfy`, `Extraction.dfy` | archive extraction: path cleaning as a stack machine, the entry and symlink checks, the file-system calls on a tree, path resolution, and containment |
| `Digests.dfy`, `ManagedRuntime.dfy`, `LifecycleProtocol.dfy` | install, doctor, uninstall and reinstall: leaf digests, the manifest, staging and promotion, one process at a time with arbitrary faults and then any number of processes interleaved call by call |
| `OwnedRemoval.dfy` | removing a container only on proof of ownership, against an engine other actors use too |
| `UndoLog.dfy`, `Preparation.dfy`, `EnvFile.dfy`, `PathMapping.dfy`, `RawPaths.dfy`, `Admission.dfy`, `Artifacts.dfy`, `ArtifactStream.dfy` | workspace preparation: the permission undo log, error returns and cleanup, the env file, container and host paths, size admission and accounting, artifact paths and the artifact digest stream |

How the source is rendered:

- Code that updates fields or loops over variables is imperative here (`ProcessCapture`, `Installer`, `Host`, and the
  methods with loops), each proved against a specification that the lemmas are about. Protocols with more than one
  actor are state machines (`DrainProtocol`, `LifecycleProtocol`, `OwnedRemoval`) whose theorems speak of every run.
- Calls that can fail take the outcome as data (`Faults`, `Stop`, `Request`, the boolean of a rename), so a contract
  holds for every pattern of failures. A crash is a process that is never scheduled again.
- SHA-256 (FIPS 180-4) and the manifest's JSON form are function values; `Codec.Faithful` says the first is
  injective and the second reads back. Digest keys are component paths instead of their printed form.
- A path is a sequence of components; the strings the source tests are the printed forms, and `SplitOfJoin` and
  `ShowReadsBack` say that nothing is lost.

Where the code does less than its description suggests, the model follows the code and the exact condition is proved:

- A symlink in the workspace is logged with its own mode and not changed, and the undo then changes what it leads to:
  `UndoLog.ReplayRestores` gives the exact condition, `UndoLog.SymlinkBreaksUndo` an instance.
- An unsupported network is refused after the permission walk, and the cleanup is handed back unrun and dropped by `Run`:
  `Preparation.Host.PrepareRun` says the permissions are then as before exactly when the walk had nothing to do.
- "Other bundles are untouched" fails when a bundle's name is another's backup name, `<id>.previous`.
  `LifecycleProtocol.OtherBundlesUntouched` says exactly when: a bundle nobody works on survives every run unless an
  install whose backup name it is can get past validation, which is read off the start; `LifecycleProtocol.CollidingBackup`
  is the run that removes it. The crash-safety theorems ask of the one process they speak of that its names are apart
  from the others' (`Apart`). Ids `.staging` and `.locks` are excluded by the model's separate maps for stages and locks.
- "The old tree is kept" fails on a retry: after a failed rollback the one copy is the backup, which a retry clears before it
  renames anything. Exactly when the copy stays: for one call, when the install does not get as far as promotion, or the
  removal there takes nothing (`ManagedRuntime.Installer.Install`); read off the start of all runs, when there is no install
  to come or a stale lock keeps it out (`LifecycleProtocol.BackupIsKept`); at each point of a run,
  `LifecycleProtocol.BackupSurvivesRetry`. `LifecycleProtocol.RetryLosesTheBackup` is a run from any claimed root that
  leaves the tree nowhere.
- An archive entry named like the install manifest installs but is never diagnosed ok: `ManagedRuntime.InstallThenDoctor`,
  with the archive in `ManagedRuntime.NamedArchiveIsNeverOk`.
- A name that cleans to white space is taken as a file or directory and refused as a symlink, because the target check
  looks at the cleaned name again: `Extraction.DecodeAccepts`, `Extraction.BlankNameIsNoSymlink`. A target that cleans to
  white space passes extraction and fails the digest walk: `ManagedRuntime.WalkRefusesOnlyBlanks`,
  with such a link in `ManagedRuntime.BlankTargetIsRefused`.
- An empty digest in a manifest agrees with an absent file. `Digests.AgreementIsEquality` says that agreement means equality
  exactly for manifests without one, `ManagedRuntime.DiagnosisMeans` what ok says with one, and
  `ManagedRuntime.EmptyDigestIsDiagnosedOk` is a root diagnosed ok whatever its command holds.
- A file may spell a symlink's encoding (`Digests.EncodingsDetermineLeaves`); what that does to containment is exact in
  `ManagedRuntime.DoctorOkIsContained`.
- The container side trims a working directory and the host side does not: `RawPaths.RawAgreement` gives the exact values on
  which both still name the same place, `RawPaths.TrailingBlankParts` one on which they part.
- The host side accepts trimmed values that climb out and come back in by name: `PathMapping.HostAlsoAcceptsReentry`, with
  the values "../c" below "/c" in `PathMapping.ReentryOnHostOnly`.
- A control process's exit code can be reported as the run's: `SandboxRun.AssembleRun`, `SandboxRun.RemovalExitCode`.
- The artifact digest stream does not mark where one file ends and the next begins, so every list of two or more files
  streams like a shorter one: `ArtifactStream.StreamIdentifies` gives, for any set of possible names, exactly the lists
  that no other list streams like, and `ArtifactStream.IdentifiedByCount` the same by counting NUL bytes.

## Model

| member | source | states |
|---|---|---|
| OutputCapture.ProcessCapture.Write | container/process_output.go:84-99 | whichever branch runs, a locked write appends its chunk to the history, sets its stream's tail to the end of old tail and chunk, counts the chunk, and leaves the other stream alone; the object stays the fold of its history |
| OutputCapture.ProcessCapture.Result | container/process_output.go:100-118 | the step-by-step rebalance returns the suffixes of everything written whose lengths the split formula gives, with the original sizes and a truncation flag exactly where bytes were lost |
| OutputCapture.TailsOfWrites | container/process_output.go:73-99 | for every interleaving and chunking a tail is the last min(limit, n) of the n bytes written to its stream, and the counter is n |
| OutputCapture.InterleavingIndependence | container/process_output.go:71-99 | schedules delivering the same bytes to each stream leave the same capture |
| OutputCapture.SplitSpendsTheBudget | container/process_output.go:104-114 | exactly min(L, p+q) bytes are kept, each stream keeps at least its half of L or everything, and nothing is cut when all fits |
| OutputCapture.SplitOfTails | container/process_output.go:89-114 | splitting the rolling tails is splitting the whole streams |
| OutputCapture.SplitComposes | container/process_output.go:104-114 | splitting at one limit then another is splitting at the smaller, for all lengths and odd limits too |
| OutputCapture.BoundRunnerOutput | container/process_output.go:191-216 | the bounded result is the specification's: incomplete captures withheld, prior sizes authoritative, over-limit error exactly past the limit |
| OutputCapture.SizesSurvive | container/process_output.go:206-214 | a bounding reports the sizes an earlier capture reported, and a capture error exactly when they exceed the limit |
| OutputCapture.BoundTwiceKeepsFinds | container/process_output.go:191-216 | bounding, once or twice, hides no exit code, cancellation, deadline or other error from a search |
| OutputCapture.BoundComposes | container/process_output.go:191-216 | bounding at L1 then L2 gives the bytes, sizes, flags, verdict, exit code and cancellation of bounding once at the smaller effective limit, for every error tree |
| Errors.FindInJoin | container/process_output.go:49-62 | a search of a joined error is the first match among its parts in order |
| Errors.CauseAnswers | container/process_output.go:23-62 | a search that an error does not answer itself is answered by its cause, for every kind of error |
| Errors.ControlErrorsCarryNoCapture | container/process_output.go:47-62 | the filter removes all capture metadata, and keeps cancellation, deadline and nil-ness both ways |
| DrainProtocol.CollectDrains | container/process_output.go:165-180 | the loop stops exactly at the second verdict; complete iff nothing it consumed was a failure or the timer and the wait was clean; then the wait error is untouched; the error is the collected one of the arrivals consumed |
| DrainProtocol.CollectedFinds | container/process_output.go:166-180 | any search of the collected error finds the first match among the wait error and the arrivals in order, so nothing that went wrong is lost |
| DrainProtocol.StepKeepsInv | container/process_output.go:153-180 | every read, store, end of file, error, collection, timer and child step keeps tails, counters and verdicts truthful |
| DrainProtocol.RunsTerminate | container/process_output.go:166-180 | in every run, timer or not, the capturing process takes at most five steps plus two per byte there was to read |
| DrainProtocol.SixStepsAfterTheTimer | container/process_output.go:163-180 | once the timer has fired the capturing process takes at most six more steps in any run, however much a descendant holding the pipe goes on writing |
| DrainProtocol.AlwaysAStep | container/process_output.go:163-180 | while a verdict is outstanding the capturing process always has a step of its own |
| DrainProtocol.NoWriterIsLive | container/process_output.go:166-181 | once both verdicts are collected no step changes the capture any more |
| DrainProtocol.CompleteMeansEverything | container/process_output.go:165-188 | a complete capture saw both ends of file and returns the bound of all bytes produced; an incomplete one withholds its bytes and says so |
| DrainProtocol.RunConservesBytes | container/process_output.go:153-180 | in every run stored, in-flight and unread bytes of a pipe are, in order, exactly those produced |
| DrainProtocol.CompleteRunsCountEveryByte | container/process_output.go:120-189 | for every schedule a complete capture returns the bound of exactly the bytes the child produced |
| DrainProtocol.CompleteRunExists | container/process_output.go:120-189 | with a clean wait, whatever is in the pipes, some run ends complete and returns the bound of exactly those bytes |
| DrainProtocol.RunCompletes | container/process_output.go:163-180 | in every run the capture is complete exactly while the wait was clean, the context alive, and only clean drains arrived |
| DrainProtocol.IncompleteReportsStored | container/process_output.go:181-184 | an incomplete capture withholds its bytes and reports how many had been stored |
| DrainProtocol.RunFinds | container/process_output.go:163-184 | in every run a search of the result's error finds the first match among the wait error, the arrivals, and for an incomplete capture the context's error |
| DrainProtocol.RunReportsItsErrors | container/process_output.go:163-184 | so the child's exit code is the one found, a fired timer is found as the wait delay, and so are a cancellation and a deadline |
| SandboxRun.RemovalCarriesNoCapture | container/sandbox_ownership.go:37-48 | no removal error, whatever the control commands reported, looks like a workload capture |
| SandboxRun.RemovalExitCode | container/sandbox_ownership.go:37-48 | a removal error has an exit code exactly when the failed control process had one and its error carries no capture |
| SandboxRun.RemovalKeepsCancellation | container/sandbox_ownership.go:37-48 | a removal error shows a cancellation or deadline exactly when its control process had it, and is nil exactly for a removal that worked |
| SandboxRun.OutcomeMeans | container/docker_compatible_runtime.go:87-96 | an expired context withholds exactly the results without a capture that are within the limit; the others are the runner's, bounded |
| SandboxRun.AssembleError | container/docker_compatible_runtime.go:97-113 | what the error shows, capture, exit code, cancellation, deadline and nil-ness, is in order what the workload's error, the context with an attempted removal, and the measurement show |
| SandboxRun.AssembleRun | container/docker_compatible_runtime.go:88-125 | an expired context withholds a result without a capture within the limit, bytes, usage and all; otherwise the result is the runner's, bounded; usage counts original bytes, of an honest runner those really produced; LimitHit exactly for a complete capture; exit code, cancellation and deadline come from the four sources, in order, and from nowhere else |
| SandboxRun.HonestRunnerIsCountedExactly | container/docker_compatible_runtime.go:84-125 | with a runner that is a bounded process, a complete report carries exactly the sizes produced and the truncation that happened, for any two limits |
| CleanPath.SplitOfJoin | container/managed_runtime_installer.go:917-929 | splitting what was printed gives the components back, for every list of slash-free components |
| CleanPath.PushAllKeepsClean | container/managed_runtime_installer.go:921-927 | a cleaned path is leading ".." and then ordinary names, or names only when rooted |
| CleanPath.CleanOver | container/managed_runtime_installer.go:955-962 | a cleaned target over a directory takes away one name per ".." and climbs out exactly when it has more ".." than names |
| CleanPath.CleanIsIdempotent | container/managed_runtime_installer.go:944-963 | cleaning a cleaned path changes nothing |
| CleanPath.ShowReadsBack | container/managed_runtime_installer.go:921-928 | a cleaned path prints and reads back as itself |
| ArchivePaths.LocalPathAccepts | container/managed_runtime_installer.go:917-929 | accepted entry names are exactly the non-blank relative ones without backslash that end strictly below the root, and clean to ordinary names |
| ArchivePaths.LocalPathIsIdempotent | container/managed_runtime_installer.go:917-929 | the check repeated on the cleaned name gives the same components, unless the name prints as blanks |
| ArchivePaths.LinkTargetAccepts | container/managed_runtime_installer.go:947-964 | accepted targets are exactly those that climb no further than their directory is deep and do not end at the root |
| ArchivePaths.LinkTargetOfCleanName | container/managed_runtime_installer.go:899-953 | the target check on the cleaned name is the check on the header's name, except that names printing as blanks are refused |
| ArchivePaths.LinkTargetIsIdempotent | container/managed_runtime_installer.go:940-964 | the check repeated on the stored target accepts it again exactly unless that target prints as blanks |
| FileTree.MkdirAllEffect | container/managed_runtime_installer.go:873-878 | directories are made along a path exactly when everything already on it is a directory, and nothing else changes |
| FileTree.ResolutionStaysInside | container/managed_runtime_installer.go:839-964 | in a tree whose links are safe, resolution keeps a real directory and no more pending ".." than its depth, for every number of steps |
| FileTree.ResolvesToWritten | container/managed_runtime_installer.go:970-989 | a file written where a path resolved is what the path resolves to afterwards |
| Extraction.DecodeAccepts | container/managed_runtime_installer.go:861-964 | which entries are acceptable by themselves, on the name, type and target text; and each becomes its own node: a directory, its content, or a link to its cleaned target |
| Extraction.BlankNameIsNoSymlink | container/managed_runtime_installer.go:898-953 | the name "./ " is taken as a file or directory and refused as a symlink with any target |
| Extraction.HasSymlinkAncestor | container/managed_runtime_installer.go:931-938 | the walk up finds a symlink entry exactly when one is a proper ancestor |
| Extraction.NeverFollows | container/managed_runtime_installer.go:865-910 | after the duplicate and ancestor checks no file-system call of an entry meets a symlink |
| Extraction.AddItemSucceeds | container/managed_runtime_installer.go:871-913 | an entry's calls succeed exactly when it is compatible with all entries before it |
| Extraction.AddItemTree | container/managed_runtime_installer.go:871-913 | and then leave the tree of the entries with this one added |
| Extraction.ExtractEntry | container/managed_runtime_installer.go:861-913 | one turn of the loop takes an entry exactly when it is acceptable by itself and compatible with those before |
| Extraction.Extract | container/managed_runtime_installer.go:839-915 | extraction succeeds exactly when every entry is acceptable, names are distinct and no file or symlink is above another entry, said on names and types; the tree has each entry's node under its cleaned name, directories above them, and nothing else |
| Extraction.OrderIndependence | container/managed_runtime_installer.go:851-914 | success and the resulting tree are the same for every order of the entries |
| Extraction.ExtractedIsContained | container/managed_runtime_installer.go:898-964 | the tree of an accepted archive is well formed and its links lead no higher than the root |
| Extraction.ExtractionContainment | container/managed_runtime_installer.go:839-964 | after extraction no path of ordinary names resolves above the root, through any symlinks, for any number of steps |
| Digests.FileDigests | container/managed_runtime_installer.go:739-788 | the walk, in any order, succeeds exactly without special files and refused links, and then holds each leaf's digest |
| Digests.NodeAcceptedMeans | container/managed_runtime_installer.go:763-776 | what the walk accepts: no special file, and of symlinks those with a printable path and a relative target that stays strictly inside |
| Digests.VerifyInstalled | container/managed_runtime_installer.go:790-807 | verification holds exactly when the walk accepts and sizes and every wanted digest agree |
| Digests.AgreesMeansEqual | container/managed_runtime_installer.go:798-806 | equal size and inclusion force equal maps when no wanted digest is empty |
| Digests.AgreementIsEquality | container/managed_runtime_installer.go:798-806 | everything that agrees with a manifest's digests is equal to them if and only if none of them is empty |
| Digests.AgreesMeans | container/managed_runtime_installer.go:798-806 | what agreement says of any manifest: as many leaves as digests, each digest that is not empty on its leaf, no leaf where it is empty |
| Digests.AgreesWithInstall | container/managed_runtime_installer.go:790-807 | against digests computed at install, agreement is equality of leaf encodings |
| Digests.EncodingsDetermineLeaves | container/managed_runtime_installer.go:763-781 | equal encodings are equal leaves unless a file's content spells a symlink's encoding |
| ManagedRuntime.BuildStage | container/managed_runtime_installer.go:232-281 | a stage is built exactly when extraction, the command check, the digest walk and the manifest write succeed |
| ManagedRuntime.StagesExactly | container/managed_runtime_installer.go:232-281 | which archives stage, on their trees, and that the stage is the tree with a file written where the manifest's name leads |
| ManagedRuntime.StageRecords | container/managed_runtime_installer.go:243-279 | the stage's manifest has the bundle's pins and version, this root and command path, and the digest of every leaf |
| ManagedRuntime.StagedIsClaimed | container/managed_runtime_installer.go:436-459 | a staged tree is claimed under one id and one install root only |
| ManagedRuntime.WrittenIsClaimed | container/managed_runtime_installer.go:436-443 | a tree is claimed exactly if the manifest written into it names the bundle, the root and the command path |
| ManagedRuntime.DiagnosisMeans | container/managed_runtime_installer.go:289-361 | when the diagnosis is an error, not installed, or ok, exactly; ok is a manifest pinning bundle, root and policies, a plain command file, checked links, and leaves as recorded; the recorded digests are then those on disk if and only if none is empty |
| ManagedRuntime.MissingOrUnreadable | container/managed_runtime_installer.go:300-313 | on the tree: a missing manifest is a name that, followed through symlinks, ends at a free name; an error is one that is there and no readable file |
| ManagedRuntime.EmptyDigestIsDiagnosedOk | container/managed_runtime_installer.go:796-807 | a manifest recording one empty digest of an absent file is diagnosed ok, whatever the command file holds |
| ManagedRuntime.WrittenIsRead | container/managed_runtime_installer.go:970-989 | the manifest just written is the one read back, through whatever symlinks |
| ManagedRuntime.WalkRefusesOnlyBlanks | container/managed_runtime_installer.go:763-770 | the digest walk refuses what extraction accepted exactly when some stored link target prints as blanks |
| ManagedRuntime.BlankTargetIsRefused | container/managed_runtime_installer.go:898-964 | a link to "./ " is extracted and refused by the walk |
| ManagedRuntime.InstallThenDoctor | container/managed_runtime_installer.go:232-360 | a built stage is diagnosed ok exactly when both store flags are set and no entry is named like the manifest |
| ManagedRuntime.NamedArchiveIsNeverOk | container/managed_runtime_installer.go:232-281 | the archive of a command file and a file named like the manifest is staged and not diagnosed ok |
| ManagedRuntime.DoctorSoundness | container/managed_runtime_installer.go:328-360 | with the install's manifest, ok is equivalent to the flags, the command, the link checks and leaf encodings equal to the archive's |
| ManagedRuntime.DoctorOkIsContained | container/managed_runtime_installer.go:346-360 | a root diagnosed ok has no link leading above it, exactly unless the manifest is one, or a link on disk that a file of the archive spells |
| ManagedRuntime.Installer.PromoteStage | container/managed_runtime_installer.go:665-687 | when it succeeds, exactly; success puts the whole stage at the root; failure leaves the root as it was, or after a failed rollback the old tree whole at the backup; what is at the backup name afterwards in each case, and when what was there before survives; other names untouched |
| ManagedRuntime.Installer.InstallLocked | container/managed_runtime_installer.go:201-286 | when it succeeds, exactly; an unmanaged or unreadable root refuses before any change; every failure keeps the root as above, and one before promotion changes no root or backup; over an empty root the backup survives exactly without a promotion that clears anything; the stage directory is removed |
| ManagedRuntime.Installer.Install | container/managed_runtime_installer.go:183-287 | when it succeeds, exactly; a lock that is held or cannot be made changes nothing; the lock is released on every return; success installs exactly the staged tree; over an empty root, exactly when the backup survives; a root staged for another bundle refuses and changes nothing; with no failing call it succeeds over a free or own root |
| ManagedRuntime.Installer.Uninstall | container/managed_runtime_installer.go:363-397 | when it succeeds, exactly; only a root whose manifest claims it is removed, so one staged for this id and not one staged for another; a failing removal leaves part of that tree; other names untouched |
| ManagedRuntime.Installer.InstallThenUninstall | container/managed_runtime_installer.go:183-397 | what a working install puts at a root a working uninstall removes |
| ManagedRuntime.Installer.Reinstall | container/managed_runtime_installer.go:399-433 | fails exactly when the first stat or the install does, and then as an install fails; reports whether a root was replaced; the diagnosis returned is ok exactly under the install-then-doctor conditions; other names untouched |
| LifecycleProtocol.ActFrame | container/managed_runtime_installer.go:645-687 | a call touches its own root, backup name, stage and lock and nothing else |
| LifecycleProtocol.ActKeepsOwn | container/managed_runtime_installer.go:196-286 | each call carries a process from what it may rely on to what it relies on next |
| LifecycleProtocol.StepKeepsInv | container/managed_runtime_installer.go:196-286 | every call of every process keeps exclusion and stage ownership, for all names, and what each process with names apart relies on |
| LifecycleProtocol.MutualExclusion | container/managed_runtime_installer.go:645-663 | in every interleaving, and for all ids, two processes between lock and unlock work on different bundles |
| LifecycleProtocol.PromotionIsCrashSafe | container/managed_runtime_installer.go:201-286 | at every point of every run, for an install whose names are apart from the others', the validated tree is whole at root or backup, or the finished stage is whole at the root; error returns with a working rollback restored the root |
| LifecycleProtocol.InstallGoesThrough | container/managed_runtime_installer.go:183-287 | from every state in which the lock is free and the root free or claimed, for every tree, an install's own calls end with it returning ok, that tree at the root, nothing at the backup name, stages and locks as before |
| LifecycleProtocol.UninstallGoesThrough | container/managed_runtime_installer.go:363-397 | an uninstall's own calls over a claimed or empty root end with it returning ok and the root gone |
| LifecycleProtocol.RollbackGoesThrough | container/managed_runtime_installer.go:677-681 | an install whose rename fails and whose rollback works returns an error with the root as it was |
| LifecycleProtocol.FailedFetch | container/managed_runtime_installer.go:201-220 | an install that fails before it has a stage returns an error with nothing changed |
| LifecycleProtocol.FailedStaging | container/managed_runtime_installer.go:221-270 | an install that fails while staging returns an error with no root changed, and no stage unless its removal fails |
| LifecycleProtocol.FailedFirstRename | container/managed_runtime_installer.go:669-673 | an install whose old root cannot be renamed away returns an error with the root as it was |
| LifecycleProtocol.FailedRemoval | container/managed_runtime_installer.go:383-385 | an uninstall whose removal fails returns an error and leaves what was left of the tree |
| LifecycleProtocol.ForeignRootRefuses | container/managed_runtime_installer.go:436-459 | over a root of another bundle a process that holds the lock can only refuse |
| LifecycleProtocol.WorkingRollbackRestores | container/managed_runtime_installer.go:677-681 | a rollback rename that works puts the validated tree back |
| LifecycleProtocol.OnlyTheValidatedTreeGoes | container/managed_runtime_installer.go:377-386 | what is renamed away or removed at a root is the tree this process validated under the lock |
| LifecycleProtocol.WhoTouches | container/managed_runtime_installer.go:665-687 | a name changes only by a process of that id past validation, or by an install whose backup name it is |
| LifecycleProtocol.ClearingTakesTheNamesake | container/managed_runtime_installer.go:666-667 | clearing a backup name leaves another bundle as it is exactly when it has another name or the removal takes nothing of it |
| LifecycleProtocol.OtherBundlesUntouched | container/managed_runtime_installer.go:645-687 | a bundle no process works on is untouched in every run if and only if its name is not the backup name of a bundle with an install that can get past validation |
| LifecycleProtocol.CollidingBackup | container/managed_runtime_installer.go:666-667 | for every id and tree, one install alone removes, in a run from a fresh start, the bundle that has its backup name |
| LifecycleProtocol.BackupSurvivesRetry | container/managed_runtime_installer.go:196-687 | from the moment a retry over an empty root takes its lock, in any run in which its names are apart from the others', the copy at the backup name is whole if and only if the retry has not come to the promotion or clearing the backup removed nothing; once the clearing worked it is gone; the program counter tells which |
| LifecycleProtocol.BackupIsKept | container/managed_runtime_installer.go:645-687 | with the copy at the backup name of an empty root, no run takes it if and only if the bundle has no install to come or a stale lock is held |
| LifecycleProtocol.RetryLosesTheBackup | container/managed_runtime_installer.go:666-682 | from any claimed root, a failed rename and rollback and then a failed retry are a run that leaves the old tree nowhere |
| OwnedRemoval.OwnedSandboxId | container/sandbox_ownership.go:52-94 | the token loop computes the specification's acceptance and identity |
| OwnedRemoval.ReadProofAccepts | container/sandbox_ownership.go:52-94 | accepted are exactly one object with both keys once, in either order, this owner and a full lower-case ID |
| OwnedRemoval.InspectionProves | container/sandbox_ownership.go:35-44 | an inspected container proves ownership to exactly the token on its label |
| OwnedRemoval.StepKeepsInv | container/sandbox_ownership.go:27-50 | no step of any actor makes an authorisation or issued removal wrongful |
| OwnedRemoval.OwnedRemovalOnly | container/sandbox_ownership.go:25-50 | in every run each issued removal names a full ID labelled with the issuing attempt's own token |
| OwnedRemoval.OwnContainerIsRemoved | container/sandbox_ownership.go:36-49 | an attempt that inspects its own container and is not stopped removes it |
| OwnedRemoval.ForeignContainerIsLeft | container/sandbox_ownership.go:36-50 | an attempt that finds a container without its own label ends there, with nothing issued or changed |
| UndoLog.ReplayLeavesFirst | container/docker_compatible_runtime.go:342-346 | reverse replay leaves each inode the mode of the earliest record acting on it |
| UndoLog.ReplayRestores | container/docker_compatible_runtime.go:337-425 | replay restores every inode exactly when no symlink is the first name to act on an inode of another mode |
| UndoLog.PlainTreesRestore | container/docker_compatible_runtime.go:366-425 | trees of directories and regular files, hard links included, are always restored, as is everything by the writable walk |
| UndoLog.SymlinkBreaksUndo | container/docker_compatible_runtime.go:376-393 | one symlink to a private file: the walk changes nothing and the undo does |
| UndoLog.WalkAddsBits | container/docker_compatible_runtime.go:427-440 | a walk changes nothing exactly when no name needs another mode |
| UndoLog.WalkGives | container/docker_compatible_runtime.go:366-440 | the mode of every inode after either walk, whatever names it has: its own bits and 0755, 0644 or 0003 for what it is named as |
| UndoLog.WalkGrants | container/docker_compatible_runtime.go:427-440 | after the walk every directory and file has the bits its kind is to be given |
| UndoLog.WalkGrantsNoMore | container/docker_compatible_runtime.go:427-440 | and none beyond those, by either walk, nor any where no name of a changing kind is |
| Preparation.Host.Undo | container/docker_compatible_runtime.go:342-358 | the loop is the reverse replay |
| Preparation.Host.ChmodTree | container/docker_compatible_runtime.go:366-425 | whether the walk completes, exactly; a completed walk returns its log; one stopped at any name undoes itself, and has restored everything exactly when the symlinks it passed are harmless |
| Preparation.Host.RunCleanup | container/docker_compatible_runtime.go:442-447 | the joined cleanup removes the env file and replays the log |
| Preparation.Host.PrepareRun | container/docker_compatible_runtime.go:139-283 | which requests succeed, exactly; every error return restores the env files, and the permissions if and only if the symlinks the walk passed are harmless or, after a network refusal, the walk had nothing to do; the cleanup of a success restores both if and only if the symlinks are harmless; a success as root has granted read access to every name, with a writable nerdctl workspace write access to every directory, and nothing otherwise |
| EnvFile.AscendingIsUnique | container/docker_compatible_runtime.go:492-501 | a set of keys has one sorted order |
| EnvFile.BeforeMeans | container/docker_compatible_runtime.go:492-501 | the order is that of the first difference, and a name before its continuations |
| EnvFile.NamesGrow | container/docker_compatible_runtime.go:516-538 | accepted names, letter by letter |
| EnvFile.RoundTrip | container/docker_compatible_runtime.go:502-514 | whatever the key order, the printed file parses by lines and first "=" to exactly the map |
| EnvFile.WriteEnvFile | container/docker_compatible_runtime.go:475-538 | writing succeeds exactly on accepted maps, independent of iteration order, and reads back |
| PathMapping.CleanBelow | container/adapters.go:884-884 | cleaning a value below an absolute directory is cleaning it alone and laying it over |
| PathMapping.ResolveInsideAccepts | container/adapters.go:877-896 | with an absolute base a relative value is accepted exactly when the cleaned base is a component prefix of the cleaned join |
| PathMapping.ResolveInsideRelative | container/adapters.go:877-896 | the same with a relative base, where the join must not go on with ".." |
| PathMapping.ResolveWithoutBase | container/adapters.go:877-886 | without a base a relative value is only cleaned |
| PathMapping.SandboxWorkingDirAccepts | container/docker_compatible_runtime.go:704-720 | accepted are exactly the relative values without NUL or line breaks that never climb out, with their names kept |
| PathMapping.PathAgreement | container/docker_compatible_runtime.go:704-720 | of a trimmed value, what the container side accepts the host side accepts, with the same suffix below both workspaces |
| PathMapping.HostAlsoAcceptsReentry | container/adapters.go:884-895 | of trimmed values, the host side accepts more by exactly those that climb out and come back in by name |
| PathMapping.ReentryOnHostOnly | container/adapters.go:884-895 | below "/c" the value "../c" names the workspace itself on the host and is refused by the container side |
| RawPaths.RawAgreement | container/adapters.go:395-420 | of the value as given to both, the host path has the container path's suffix if and only if the value has no white space around it, or only in front, in a name that a later ".." pops |
| RawPaths.TrailingBlankParts | container/adapters.go:777-792 | "a " is workspace/a in the container and a directory named "a " on the host |
| Admission.AdmitWorkspace | container/readonly_workspace.go:106-132 | accepts exactly complete walks of directories and regular files whose true total is within the limit, with no 64-bit overflow |
| Admission.DirectorySize | container/adapters.go:730-759 | returns the wrapped total, and nothing partial on cancellation or failure |
| Admission.TotalPermutes | container/readonly_workspace.go:106-132 | the total is the same in every order of the walk |
| Admission.TotalOfOne | container/adapters.go:741-755 | an entry adds exactly its size, symlinks and special files included, and a directory nothing |
| Admission.AdmitThenAccount | container/readonly_workspace.go:106-132 | on an unchanged admitted tree accounting returns the true total, within the limit |
| Artifacts.RejectSymlinkComponents | container/adapters.go:898-939 | clears a path exactly when the root is there and no symlink, the path does not leave it, and the way down is plain; the root "." clears anything |
| Artifacts.RejectBelow | container/adapters.go:922-937 | the way down is cleared exactly when, as far as it exists, it has no symlink and no file in the way |
| Artifacts.ClearPathsResolveToThemselves | container/adapters.go:898-939 | a cleared path resolves to itself and nowhere else, for every number of steps |
| Artifacts.ClearedStaysFromAbove | container/adapters.go:898-939 | from the directory above the root, the kernel's resolution of a cleared path stays on it for every number of steps and ends nowhere else |
| Artifacts.EndsThereMeansCleared | container/adapters.go:898-939 | conversely, below an existing root, a path the kernel resolves from above to itself is cleared |
| ArtifactStream.HashInput | container/adapters.go:840-875 | the digest input is name, NUL, content, NUL for each file in order |
| ArtifactStream.StreamIdentifies | container/adapters.go:855-874 | for any set of possible NUL-free names, no other list of artifacts has a list's stream if and only if the list is empty, or one file whose content has no possible name between two NULs |
| ArtifactStream.IdentifiedByCount | container/adapters.go:855-874 | with all NUL-free names possible: if and only if the list is empty, or one file with at most one NUL in its content |
| ArtifactStream.StreamDetermines | container/adapters.go:855-874 | among NUL-free artifacts equal streams are equal names and contents in order |

## Left out

- OutputCapture.ProcessCapture.Write: counters are unbounded, because 2^63 bytes of one process are out of reach.
- ManagedRuntime.DoctorSoundness: a manifest reached through a link that leaves the root reads as unreadable, because what lies outside the root is not part of this model.
- LifecycleProtocol.PromotionIsCrashSafe: does not speak of an install whose root is another install's backup name, or whose backup name is another's id, because clearing that backup removes the tree (LifecycleProtocol.ClearingTakesTheNamesake).
- LifecycleProtocol.MutualExclusion: ids that are unsafe path parts or equal `.staging` or `.locks` are excluded, because stages and locks are maps of their own.
- OwnedRemoval.OwnedRemovalOnly: the engine prints what it holds and resolves a full ID to that ID only, because its name and prefix lookup is not part of this model.
- Preparation.Host.PrepareRun: the argument list, capability, tmpfs, mount and scope tests are booleans, because each is settled by reading its branch.
- EnvFile.WriteEnvFile: file creation, chmod, flush and close failures are not modelled; each removes the file and returns an error.
- Admission.AdmitWorkspace: image, limit, override and mount tests before the walk are not modelled.
- ManagedRuntime.Installer.Reinstall: the context test and catalog lookup that open install and doctor are not modelled; a context or bundle that expires between the two makes it return an error after the install took place.
- HTTP fetching, digest pinning of fetched objects, the checksum file, OpenPGP verification, gzip, tar and JSON bytes: an archive is a list of decoded entries, or absent.
- Catalog lookup and validation, the install-root symlink check, version and time fields.
- Invalid UTF-8 in entry names, which `fs.ValidPath` refuses: every Dafny string is valid.
- Umask, setuid and sticky bits, directory modes from extraction, search permission on the way to a chmod, case-insensitive file systems.
- Real processes, pipes, clocks and context deadlines: only their events are kept.
- The runtime probes, the bundle catalog, adapter contracts, invocation builders, the command line and the packaging script.
