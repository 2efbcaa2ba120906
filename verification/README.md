# A verified model of the Azure Blob CSI driver

The Azure Blob CSI driver creates blob containers as Kubernetes volumes, clones them with azcopy, and mounts them with
blobfuse or NFS. This project models its protocols, its shared state and its string codecs in Dafny, and proves what
they keep, what they undo and what they lose.

Azure, Kubernetes, azcopy, the kernel and the clock are inputs: what each of their calls answers is a parameter, and may
depend in any way on the calls made before. Concurrent callers are state machines, one step for each atomic action, and
the theorems hold over every finite interleaving. A Go loop over a map takes the order of the visit as one more input.
Code that updates fields or loops over variables is a class or a method that is proved against a specification function.

`dafny verify dfyconfig.toml` checks everything.

| file | contents |
|---|---|
| `wrappers.dfy`, `text.dfy`, `visits.dfy` | optional values, Go's string functions, loops over Go maps |
| `lock_map.dfy` | the two-level lock that waits |
| `operation_runs.dfy` | the try-lock set, and which account concurrent `CreateVolume` calls pick |
| `azcopy_jobs.dfy`, `azcopy_filter.dfy` | reading azcopy's job listing, and whose jobs it shows |
| `wait_timeout.dfy` | waiting for a goroutine with a timer |
| `credentials.dfy` | SAS tokens from a timed cache, or an identity |
| `provisioning.dfy`, `create_runs.dfy` | creating, cloning and rolling back a container, in one call and in several |
| `naming.dfy` | volume IDs and container names |
| `mount_options.dfy`, `token_laws.dfy`, `option_checks.dfy` | cutting up and checking the mount options of inline volumes |
| `cache_fallback.dfy`, `mount_defaults.dfy`, `pipeline.dfy`, `default_laws.dfy` | rewriting the options before the mount |
| `mount_argv.dfy`, `telemetry.dfy` | from options to the argument vector, in the driver and in the proxy |
| `attributes.dfy`, `auth_env.dfy`, `auth_env_source.dfy`, `auth_env_names.dfy` | volume attributes without regard to case |
| `subnets.dfy`, `subnet_runs.dfy` | storage endpoints of subnets, one call and many |
| `mount_table.dfy`, `mount_runs.dfy` | staging and publishing over the mount table, one call and many |

## Where the code falls short of its own comments

The model follows the code. The members named below show each failure on a concrete input or run, or say exactly when the
code does what its comment promises.

- A piece that the tokenizer returns early, to be refused later, passes the checks if it is `-o`, more than one space, and
  a value: the options after it are lost (`TokenLaws.WiderGapLosesTheRest`, `TokenLaws.LosslessExactly`). The comment is
  in `pkg/blob/blob.go` at line 1459.
- A single pass that turns two dashes into one leaves two of three (`ContainerName.TripleDashIsInvalid`,
  `ContainerName.SqueezeExactly`, `ContainerName.ContainerNameValidExactly`).
- A job that is cancelled while it is waited for counts as a successful copy (`Provisioning.CancelledCopyCountsAsSuccess`,
  `CreateRuns.VanishedJobIsReported`, `Provisioning.SuccessWithoutCompletionExactly`).
- An account taken from the search cache is not recorded for the volume, so that a retry may pick another
  (`OperationRuns.SearchCachePickHappens`, `OperationRuns.RetryElsewhere`, `OperationRuns.PickIsBindingExactly`).
- A failure to fetch or store the account key after the container was made leaves the container behind
  (`CreateRuns.KeyFailureLeavesContainer`, `CreateRuns.LeftBehindExactly`).
- The call that creates a container succeeds when it is there already, so that a roll-back may hit a volume that an earlier
  call for the same name reported (`CreateRuns.RepeatedCallLosesVolume`, `CreateRuns.ReportedIsLostExactly`).
- The listing is filtered by the container's name alone: a finished copy into a container whose name contains this one's
  counts as this one's, and the call reports an empty volume (`CreateRuns.ForeignJobIsReported`,
  `CreateRuns.FinishedJobMakesVolume`, `AzcopyFilter.ReportedIsOwnExactly`, `CreateRuns.CopiesNothingExactly`).
- A copy that failed and left a job with errors is kept by the roll-back and reported as a volume by the next call
  (`CreateRuns.RetryReportsFailedCopy`, `CreateRuns.RetryTakesOverExactly`).
- After it unmounted a stale mount, `ensureMountPoint` returns the error of the probe, where its comment promises none:
  staging succeeds only when retried (`MountTable.StaleMountNeedsRetry`). That it returns `true` with the error of a failed
  probe when it must not unmount, as the comment also says, cannot happen: the mount is reported as sound whatever the probe
  would say (`MountTable.HealthIsNotReported`, `MountTable.MountedWithErrorExactly`), so that a publish may succeed with a
  dead target (`MountTable.PublishLeavesDeadExactly`), which restaging the volume does not revive
  (`MountRuns.RestagedVolumeLeavesDeadTarget`, `MountRuns.RestagingDoesNotRevive`).
- Publishing does not unmount stale mounts, by its comment; publishing an inline volume stages it, which does
  (`MountTable.StageUnmountsExactly`).
- A mount call that timed out goes on after its lock is released, so that a retry can stack a second mount; so can two
  publishes of one target, which take no lock (`MountRuns.RetryStacksSecondMount`, `MountRuns.OverlappingPublishesStack`,
  `MountRuns.SecondMountExactly`).
- The key of the subnet cache runs three names together without a mark between them, so that a call may get the subnets of
  another network for its own (`SubnetRuns.WrongNetworkAnswers`, `SubnetRuns.AnswersOwnNetworkExactly`,
  `Subnets.KeysCollide`).
- An attribute that spells the field of the service account token differently and is empty passes validation, and in some
  order `GetAuthEnv` reads it instead of the token that was added (`AuthEnvSource.TokenMayBeLost`,
  `AuthEnvSource.TokenIsReadExactly`).
- White space that Unicode knows but the regular expression `\s` does not survives the last collapse, and splits nothing
  (`MountArgv.ArgvExactly`).

## Model

| member | source | states |
|---|---|---|
| LockMap.MutualExclusion | pkg/util/util.go:126-136 | over every interleaving an entry has at most one holder, a held entry's mutex is locked, and nobody who waits for an entry holds the outer mutex |
| LockMap.MutexIsFixed | pkg/util/util.go:130-132 | the mutex of an entry never changes once the entry was added, over any later run |
| LockMap.StuckExactly | pkg/util/util.go:126-147 | a goroutine inside an operation is stuck exactly when another owns the outer mutex, and that owner can go on, or when somebody holds its entry |
| LockMap.UnlockCanProceed | pkg/util/util.go:138-147 | whatever the others do, a holder's unlock can be carried through in at most six steps, and then the next waiter can take the mutex |
| LockMap.FinishedCallsAchieve | pkg/util/util.go:126-147 | over every run, a goroutine whose last call was a `LockEntry` that has returned holds the entry, and one whose last call was an `UnlockEntry` that has returned does not |
| LockMap.LockCanProceed | pkg/util/util.go:126-136 | from every reachable state an idle goroutine can get an entry that nobody holds, in at most eight steps |
| LockMap.LockWaits | pkg/util/util.go:126-136 | while another goroutine holds the entry, a `LockEntry` does not return before that one acts |
| LockMap.RunsKeepInv | pkg/util/util.go:113-159 | every run keeps the correspondence of outer owner, table, locked mutexes, holders and program counters |
| VolumeLock.VolumeLocks.TryAcquire | pkg/blob/volume_lock.go:45-53 | acquires exactly a key that is not in the set, and leaves the key in the set either way |
| VolumeLock.VolumeLocks.Release | pkg/blob/volume_lock.go:55-59 | takes exactly this key out of the set |
| OperationRuns.LockSetIsExact | pkg/blob/controllerserver.go:401-409 | over every run of create, delete, stage and unstage calls the lock set is exactly the keys of the calls in progress, one owner each |
| OperationRuns.OperationsExclude | pkg/blob/nodeserver.go:365-369 | over every run, no two calls in progress stage or unstage one volume at one target, create one name, or delete one volume |
| OperationRuns.StagesConflictExactly | pkg/blob/nodeserver.go:365 | calls that stage or unstage and have one key are about the same volume and target exactly when the volume IDs have the same length; two that are not, and exclude each other |
| OperationRuns.AccountIsStable | pkg/blob/controllerserver.go:418-465 | once an account was ensured for a volume name, it stays recorded, and every later call without account and secrets that picks, picks it |
| OperationRuns.PickIsBindingExactly | pkg/blob/controllerserver.go:433-463 | a pick binds all later picks for the name exactly when it was recorded, which is exactly when it does not come from the search cache |
| OperationRuns.GivenIsChosenExactly | pkg/blob/controllerserver.go:418-420 | over every run, a call that has its account has the one it brought exactly when it brought an account or secrets |
| OperationRuns.RetryElsewhere | pkg/blob/controllerserver.go:438-439 | after an unrecorded pick there is a run in which the same request, made again, ends up with any given other account |
| OperationRuns.SearchCachePickHappens | pkg/blob/controllerserver.go:433-439 | from the start, a run of two requests with one search key in which the second picks from the search cache, unrecorded |
| OperationRuns.StepKeepsVolMap | pkg/blob/controllerserver.go:421-462 | no step changes or drops what is recorded for a volume name |
| AzcopyJobs.ParseJobList | pkg/util/util.go:289-323 | the loop over the sections computes the declarative meaning: the first record that settles the answer, or the last job in progress |
| AzcopyJobs.ParseSections | pkg/util/util.go:299-322 | the loop alone, on records |
| AzcopyJobs.RunningExactly | pkg/util/util.go:289-323 | Running exactly when nothing settles the answer and the last job in progress has an id; Error exactly when a malformed record comes before every finished one |
| AzcopyJobs.ReadListing | pkg/util/util.go:294-309 | a listing as azcopy prints it reads back to one record for each job, in order |
| AzcopyJobs.CancelledReadsAsNotFound | pkg/util/util.go:310-323 | a listing of jobs with statuses unknown to the driver reads as if there were none |
| AzcopyJobs.GetAzcopyJob | pkg/util/util.go:239-282 | the state is Error exactly when an error is returned; NotFound, completion and Running only come from a listing that says so |
| AzcopyJobs.CancelledReport | pkg/util/util.go:239-282 | a listing of cancelled jobs is reported as NotFound without an error |
| AzcopyFilter.StateByName | pkg/util/util.go:289-323 | of a printed listing, by the four literal names of finished statuses and the one of running: which states come of which |
| AzcopyFilter.FirstDoneDecides | pkg/util/util.go:299-317 | the first of the jobs with one of the four names gives the state of its own name |
| AzcopyFilter.SingleReport | pkg/util/util.go:239-282 | one printed job with one of the four names is reported with that state at 100 percent, without an error |
| AzcopyFilter.RunningShows | pkg/util/util.go:267-332 | one printed job in progress is reported as Running with what azcopy shows after its first mark |
| AzcopyFilter.StateExactly | pkg/util/util.go:289-323 | of a printed listing: completed exactly when a job is finished, Running exactly when none is and one is in progress, NotFound exactly when neither |
| AzcopyFilter.ReportedIsOwnExactly | pkg/util/util.go:240 | a container is reported the state of its own jobs exactly if: with one of them finished, the first finished job that mentions it has the state of the first of its own; with none finished, no other job that mentions it is, and one is in progress only with one of its own |
| AzcopyFilter.NotFoundIsOwn | pkg/util/util.go:240 | whatever other jobs the filter lets through, a report of NotFound is true of the container's own |
| AzcopyFilter.FirstFinishedDecides | pkg/util/util.go:299-317 | of a printed listing, the first finished job gives the state |
| AzcopyFilter.ForeignJobDecides | pkg/util/util.go:240 | for any two names of which one contains the other, a finished job of the longer is reported for the shorter, which has none |
| WaitTimeout.WaitIsSound | pkg/util/util.go:408-426 | over every interleaving the work's result is returned only if the work produced it and its completion was received, a timeout only after the timer fired, and the sender is never blocked |
| WaitTimeout.AnswerIsFinal | pkg/util/util.go:408-426 | no later step changes what was returned, although the error variable is shared |
| WaitTimeout.TimedOutWorkGoesOn | pkg/util/util.go:408-426 | there is a run in which the caller returned a timeout and the work succeeds afterwards |
| Credentials.AuthorizeWithIdentity | pkg/blob/controllerserver.go:1014-1040 | succeeds exactly with a managed identity or a complete service principal, and then with a nonempty environment |
| Credentials.ManagedIdentityEnvironment | pkg/blob/controllerserver.go:1018-1027 | the variables and values for a managed identity, with or without a user-assigned one |
| Credentials.ServicePrincipalEnvironment | pkg/blob/controllerserver.go:1028-1040 | the variables and values for a service principal, which must be complete and comes after a managed identity |
| Credentials.SasTokens.GenerateSasToken | pkg/blob/controllerserver.go:1103-1140 | serves a cached token unchanged while it is fresh, otherwise signs one and caches it, and caches nothing when signing fails |
| Credentials.SasTokens.GetAzcopyAuth | pkg/blob/controllerserver.go:1048-1075 | success yields exactly one of a token and an environment; a token is accepted for more than the expiration less 15 minutes; when each is used and when the call fails |
| Credentials.SasTokens.AuthOutlivesCopy | pkg/blob/controllerserver.go:1048-1075 | a token handed out outlives the wait for the copy if the expiration is at least 15 minutes plus the wait |
| Credentials.TokenExpiresDuringCopy | pkg/blob/blob.go:470 | with any shorter expiration there is a run that hands out a token which expires during the wait |
| Provisioning.CopyBlobContainer | pkg/blob/controllerserver.go:912-983 | succeeds exactly when a completed job was seen, or a copy that it started finished in time, or a running job was later seen not running without an error; touches no container; cleans jobs exactly after a success that did not begin with a completed job |
| Provisioning.PollJob | pkg/blob/controllerserver.go:948-959 | succeeds exactly when the first look that sees something else than a running job comes in time and without an error |
| Provisioning.SuccessWithoutCompletionExactly | pkg/blob/controllerserver.go:943-982 | a reported success rests on an observed completion exactly unless a running job vanished from the listing |
| Provisioning.CancelledCopyCountsAsSuccess | pkg/blob/controllerserver.go:948-959 | a job that is cancelled while it is waited for is reported as a successful copy |
| Provisioning.CleanupContainerOnFailure | pkg/blob/controllerserver.go:587-618 | issues a deletion exactly when asked to and the look shows NotFound; every other state, errors included, keeps the container |
| Provisioning.CloneVolume | pkg/blob/controllerserver.go:496-518 | at most two tries; the second, with fresh credentials, exactly after a refusal for lack of permission; each result justified, the last decides |
| Provisioning.CloneOrRollBack | pkg/blob/controllerserver.go:496-519 | rolls back exactly when the clone failed, the name is the driver's and the look shows no job; which containers are there afterwards, whatever was there before |
| Provisioning.FetchDataPlaneKey | pkg/blob/controllerserver.go:478-485 | asks for the key exactly when the data-plane API is used without secrets and without a key, and fails exactly when that fails |
| Provisioning.StoreKey | pkg/blob/controllerserver.go:521-535 | fails exactly when the key is wanted and cannot be fetched or stored; the account becomes that of a fetched key, and of no other |
| Provisioning.CreateVolume | pkg/blob/controllerserver.go:477-562 | succeeds exactly when the container could be ensured, the clone, if asked for, was made, and the key, if wanted, was stored; exactly which step a failure belongs to; every deletion directly follows a look that found no job and no error, and hits the auto-generated container that this call ensured; and the ID |
| Provisioning.AzcopyIsSound | pkg/util/util.go:239-282 | whatever azcopy prints, the states that the driver derives are Error exactly with an error, which the roll-back rests on |
| Provisioning.RolledBackTrace | pkg/blob/controllerserver.go:587-618 | a call that ensures, copies, looks and deletes is safe, and leaves the container exactly when the deletion fails |
| CreateRuns.LeftBehindExactly | pkg/blob/controllerserver.go:493-535 | a failed call leaves its container behind exactly when only the key could not be stored, or the clone failed and the roll-back did not delete |
| CreateRuns.KeyFailureLeavesContainer | pkg/blob/controllerserver.go:521-531 | an environment in which a container of the driver's own naming is left behind |
| CreateRuns.StepEffect | pkg/blob/controllerserver.go:493-519 | a call touches no container but its own, and takes that away exactly when it failed to clone into it and deleted it |
| CreateRuns.ReportedIsLostExactly | pkg/blob/controllerserver.go:823-866 | over every run of calls, a container that one of them reported is gone in the end exactly when a later call for it fails to clone, sees no job and deletes it, and none after that ensures it again |
| CreateRuns.RepeatedCallLosesVolume | pkg/blob/controllerserver.go:840 | two calls with one request, of which the first reports the volume and the second deletes it |
| CreateRuns.CopiesNothingExactly | pkg/blob/controllerserver.go:943-947 | a clone is reported with nothing copied in the call exactly when its first look shows a finished job |
| CreateRuns.FinishedJobMakesVolume | pkg/blob/controllerserver.go:945-947 | for every such report, a call that creates the container, copies nothing and reports the volume |
| CreateRuns.ForeignJobIsReported | pkg/util/util.go:240-264 | such a report comes of another container's finished job alone, if that name contains this one's |
| CreateRuns.FailedCopyIsKept | pkg/blob/controllerserver.go:587-618 | a call whose copy fails and leaves a finished job with errors keeps its container |
| CreateRuns.RetryReportsFailedCopy | pkg/blob/controllerserver.go:945-947 | two calls with one request, of which the first fails in the copy and the second reports the volume with nothing more copied |
| CreateRuns.RetryTakesOverExactly | pkg/blob/controllerserver.go:587-618 | a failed clone is kept and then reported with nothing copied exactly when the roll-back cannot delete and the later call finds a finished job |
| CreateRuns.VanishedJobIsReported | pkg/blob/controllerserver.go:948-959 | a call that reports the volume though the job it waited for vanished and no completion was seen |
| CreateRuns.CancellationIsReported | pkg/util/util.go:239-282 | a job listed as in progress and then as cancelled is reported as Running and then as NotFound |
| CreateRuns.SameIdExactly | pkg/blob/controllerserver.go:390-398 | two successful calls for one request return the same ID exactly when they came to the same account, and the container's name did not have to be replaced, or was by the same UUID |
| CreateRuns.CreatedIdParts | pkg/blob/controllerserver.go:537-543 | the six parts of the ID of a reported volume; the volume's name is one of them exactly where the user named the container |
| CreateRuns.SharedContainerDiffers | pkg/blob/controllerserver.go:537-543 | reported volumes with different names in containers that users named have different IDs, on one account or several |
| CreateRuns.CreatedMeans | pkg/blob/controllerserver.go:477-562 | of a volume that is reported the container was ensured, the source copied, the key stored if wanted, and no container of the user's was rolled back |
| CreateRuns.WorksIfAllWorks | pkg/blob/controllerserver.go:477-562 | where every answer is good and no job is known yet, the volume is reported |
| CreateRuns.DeletionMeans | pkg/blob/controllerserver.go:587-618 | only the call's own container is ever deleted, only where the user did not name it, right after a look that found no job, and the call fails |
| CreateRuns.RefusalMeans | pkg/blob/controllerserver.go:496-513 | what makes a second try: no token, and a message with Azure's word for lack of permission |
| VolumeId.DecodesAccountAndContainer | pkg/blob/blob.go:582-599 | for all fields, decoding an encoded ID gives back resource group, account and container exactly when these three hold no mark |
| VolumeId.DecodesNamespaceAndSubscription | pkg/blob/blob.go:588-598 | without marks the namespace comes back, and the subscription exactly when it is empty or a valid one, else empty |
| VolumeId.EncodeInjective | pkg/blob/controllerserver.go:537-543 | IDs of different volumes differ if no field holds a mark |
| VolumeId.EncodeNotInjectiveWithMarks | pkg/blob/controllerserver.go:537-543 | with a mark in a field they may not |
| VolumeId.Decode | pkg/blob/blob.go:582-599 | fails exactly below three segments; a subscription that is returned is valid |
| VolumeId.GroupsAreValidExactly | pkg/blob/blob.go:189 | five groups of 8, 4, 4, 4 and 12 characters are a valid subscription ID exactly when all are hexadecimal digits |
| VolumeId.ValidHasGroups | pkg/blob/blob.go:189 | every valid subscription ID consists of such groups |
| ContainerName.SqueezeRun | pkg/blob/blob.go:619 | in any text a run of n dashes shrinks to half of n, rounded up, and the text around it is squeezed on its own |
| ContainerName.SqueezeExactly | pkg/blob/blob.go:619 | two dashes in a row are left exactly when there were three; the ends stay; no character is new |
| ContainerName.GenerateVolumeName | pkg/blob/blob.go:1846-1855 | never longer than the limit, keeps the whole suffix after a dash, and only cuts the prefix |
| ContainerName.RegeneratedIsValid | pkg/blob/blob.go:614-619 | a replacement name is valid for every supported protocol and every UUID |
| ContainerName.RegeneratedDiffers | pkg/blob/blob.go:614-619 | replacement names with different UUIDs differ |
| ContainerName.ContainerNameValidExactly | pkg/blob/blob.go:608-620 | for every name the result passes validation exactly when it was replaced, or the truncated lower-case name has only letters, digits and dashes and no three dashes in a row; it depends on the UUID exactly when replaced |
| ContainerName.TripleDashIsInvalid | pkg/blob/blob.go:603-619 | a name with three dashes yields one that breaks the rule |
| ContainerName.BaseExactly | pkg/blob/blob.go:608-618 | the name used is the first 63 characters in lower case, character by character; it is replaced exactly when it is shorter than three characters or its ends are no letters or digits |
| ContainerName.ResultIsLower | pkg/blob/blob.go:608-620 | no capital letter is left in the result |
| ContainerName.ValidIsKept | pkg/blob/blob.go:608-620 | a name that meets the naming rules is kept as it is |
| ContainerName.ValidatesByRule | pkg/blob/blob.go:1280-1296 | the validation, character by character |
| MountOptions.Tokenize | pkg/blob/blob.go:1442-1486 | the loops compute the declarative token list, with the first bad piece returned alone |
| MountOptions.TokenizeCommas | pkg/blob/blob.go:1447-1470 | the pieces between commas, trimmed and nonempty, or the first bad one |
| MountOptions.TokenizeFields | pkg/blob/blob.go:1472-1485 | the fields, with every `-o` joined to its value |
| MountOptions.Sanitize | pkg/blob/blob.go:1492-1594 | accepts exactly the lists whose every trimmed token is accepted, and returns them; otherwise names the first refused one |
| OptionChecks.FuseOptionExactly | pkg/blob/blob.go:1500-1525 | `-o` with a value is accepted exactly when the value is one word that does not begin with a dash; a bare `-o` never |
| OptionChecks.FlagAfterFuseIsRefused | pkg/blob/blob.go:1511-1525 | no flag and no second word gets through behind `-o` |
| OptionChecks.BareFlagExactly | pkg/blob/blob.go:1528-1548 | which flags are accepted without a value |
| OptionChecks.FlagWithValueExactly | pkg/blob/blob.go:1528-1590 | which flags are accepted with which values: log levels, log types, parallelism, directories and filters, each spelled out |
| OptionChecks.ParallelismExactly | pkg/blob/blob.go:1561-1570 | a degree of parallelism, printed in decimal, is accepted exactly from 1 to 128 |
| OptionChecks.NumberOfDecimal | pkg/blob/blob.go:1562 | reading a printed number gives it back |
| TokenLaws.PrintedWithSpaces | pkg/blob/blob.go:1472-1485 | options joined with spaces read back as they were |
| TokenLaws.PrintedWithCommas | pkg/blob/blob.go:1447-1470 | options joined with commas read back as they were |
| TokenLaws.LosslessExactly | pkg/blob/blob.go:1455-1470 | an accepted comma-separated string loses nothing exactly when no piece was bad or there was only one; a bad piece that passes is an `-o` option |
| TokenLaws.WiderGapLosesTheRest | pkg/blob/blob.go:1459-1467 | for every wider gap, every value and every option after it, the string is accepted and that option lost |
| TokenLaws.InlineOptionsReachArgv | pkg/blob/blob.go:1442-1594 | the tokens of an accepted string reach the argument vector as themselves exactly when their spaces are plain, which they are if no piece was bad |
| TokenLaws.LastCheckNeverFires | pkg/blob/blob.go:1266-1277 | the check after sanitizing refuses nothing that sanitizing accepted |
| MountArgv.SanitizedIsShaped | pkg/blob/blob.go:1503-1590 | every accepted option is one word, or `-o` and one word |
| MountArgv.BuildArgs | pkg/blob/nodeserver.go:668-671 | the loop joins target and options with single spaces |
| MountArgv.ArgvExactly | pkg/blob/nodeserver.go:292-314 | joining, collapsing and splitting gives the target, one argument for a flag and two for an `-o` option, in order and nothing else, exactly when the spaces in the options are plain |
| MountArgv.MountCommand | pkg/blob/nodeserver.go:300-308 | for blobfuse2 the same with the mount command in front |
| MountArgv.FieldsOfJoin | pkg/blob/nodeserver.go:668-671 | the fields of the joined string are the arguments, plain or not |
| CacheFallback.FallbackToLocalBlockCache | pkg/blob/blob.go:1675-1712 | the two passes over the strings compute the option-by-option rewriting, and the new strings read back to it |
| CacheFallback.LocalFlags | pkg/blob/blob.go:1676-1682 | the first pass collects exactly the flags that are not distributed |
| CacheFallback.RewriteOptions | pkg/blob/blob.go:1684-1706 | the second pass, with a set that grows, drops and translates what the rules say |
| CacheFallback.FallbackKeepsMeaning | pkg/blob/blob.go:1675-1712 | for each flag: nothing distributed, block cache on once, a local option as the user wrote it wherever it stands or else the first translation; all other options untouched and in order |
| CacheFallback.FallbackLeavesLocal | pkg/blob/blob.go:1675-1712 | no distributed option survives, and exactly one block-cache option is there, which says true |
| CacheFallback.BlockCacheIsOn | pkg/blob/blob.go:1684-1711 | exactly one string of the result has the block-cache flag, and it is the flag with `=true` |
| CacheFallback.TranslatedText | pkg/blob/blob.go:1694-1704 | the first option of a distributed flag with a value is the only one for its local flag afterwards, as that flag with this value, unless the user gave the local flag |
| CacheFallback.OtherTextStays | pkg/blob/blob.go:1691-1693 | every option for another flag stays as the user wrote it |
| CacheFallback.FallbackIdempotent | pkg/blob/blob.go:1675-1712 | falling back twice is falling back once |
| CacheFallback.Fallback | pkg/blob/blob.go:1684-1711 | the list grows by at most one option |
| CacheFallback.SourceFlagsValid | pkg/blob/blob.go:1658-1663 | the source's translation table meets the assumptions of these theorems |
| CacheFallback.SourceFlagsAre | pkg/blob/blob.go:1658-1663 | prefix, block-cache flag and the four translations, as literal strings |
| MountDefaults.AppendDefaults | pkg/blob/blob.go:1597-1656 | for every order of the visit the result is the list followed by the missing nonempty defaults in that order |
| MountDefaults.Scan | pkg/blob/blob.go:1609-1627 | what the first loop notes: defaults that some option begins with, and the two distributed flags |
| MountDefaults.AddedPermutes | pkg/blob/blob.go:1639-1653 | any two orders add the same options, as often |
| MountDefaults.AddedOnce | pkg/blob/blob.go:1639-1653 | no default is added twice |
| MountDefaults.SecondApplicationAddsNothing | pkg/blob/blob.go:1597-1656 | whatever the two orders, a second application to the resulting strings adds nothing |
| MountDefaults.DefaultsAfterFallback | pkg/blob/nodeserver.go:654-666 | after the fallback the cache path and the empty-directory check are set again and no DNS server is added |
| MountDefaults.SourceDefaultsValid | pkg/blob/blob.go:1598-1607 | the source's defaults meet the assumptions of these theorems |
| DefaultLaws.DefaultExactly | pkg/blob/blob.go:1622-1653 | a default that is not about the cache directory is added exactly when it has a value and no option begins with its name |
| DefaultLaws.CacheDefaultExactly | pkg/blob/blob.go:1628-1653 | the cache directory and its check are added exactly when, further, distributed cache is not asked for |
| DefaultLaws.DnsExactly | pkg/blob/blob.go:1628-1653 | the DNS server is added exactly when distributed cache is asked for and the user gives none |
| DefaultLaws.OnlyDefaults | pkg/blob/blob.go:1639-1653 | nothing but defaults with their values is added |
| DefaultLaws.SourceDefaultsAre | pkg/blob/blob.go:1598-1607 | the source's defaults and flags as literal strings |
| DefaultLaws.SourceCacheDefaults | pkg/blob/blob.go:1597-1656 | with the source's defaults: cache path and directory check without distributed cache, `--distributed-cache-dns-server=10.0.0.10` with it |
| DefaultLaws.SourceOtherDefaults | pkg/blob/blob.go:1597-1656 | with the source's defaults: container name, https, validation and the listing delay, unless an option begins with their flags |
| MountPipeline.HasDistributedCacheMountOptions | pkg/blob/blob.go:1665-1673 | true exactly when some option has a distributed flag |
| MountPipeline.StageArgs | pkg/blob/nodeserver.go:654-671 | fallback if unsupported, then defaults, then the join with the target |
| MountPipeline.StagedArgv | pkg/blob/nodeserver.go:654-671 | through the whole pipeline the argument vector is the target, the arguments of the user's rewritten options, and one for each added default, exactly when the spaces in the user's options are plain |
| MountPipeline.NeverAsksForUnsupported | pkg/blob/nodeserver.go:654-660 | a blobfuse2 without distributed cache is never asked for it, not even by a default |
| DefaultLaws.KeptExactly | pkg/blob/nodeserver.go:654-660 | the user's options go into the mount unchanged exactly when distributed cache is supported or not asked for |
| DefaultLaws.SupportedIsServed | pkg/blob/nodeserver.go:654-666 | where it is supported and asked for: the options in front as they are, a DNS server, and no cache path of the driver's |
| DefaultLaws.BlockCacheInstead | pkg/blob/nodeserver.go:654-660 | where it is not supported, one distributed option is enough for local block cache to be switched on |
| DefaultLaws.TranslationIsMounted | pkg/blob/nodeserver.go:654-660 | there the first value of a distributed option is mounted with under its local flag, unless the user gave that |
| MountPipeline.SourceIsPlain | pkg/blob/blob.go:1598-1607 | the source's defaults split into single arguments exactly when cache path and container name have no white space |
| Telemetry.AddTelemetryTag | pkg/blobfuse-proxy/server/server.go:209-239 | the search loop and its checks compute the declarative tagging |
| Telemetry.InnerCheckNeverBlocks | pkg/blobfuse-proxy/server/server.go:217-234 | where the prefix is nowhere in the string, the inner check for a duplicate never blocks the rewrite |
| Telemetry.TaggingIsIdempotent | pkg/blobfuse-proxy/server/server.go:209-239 | on every string and for every version, tagging twice is tagging once |
| Telemetry.TaggedFields | pkg/blobfuse-proxy/server/server.go:209-239 | the fields are unchanged but for one tag at the end, or the tag in front of the user's first telemetry value |
| Telemetry.UsersValueIsKept | pkg/blobfuse-proxy/server/server.go:217-235 | the user's first telemetry value stays in its place behind the tag and a comma, and all other fields are as before |
| Telemetry.TagIsAppendedExactly | pkg/blobfuse-proxy/server/server.go:211-239 | the tag comes last exactly when the flag is nowhere; with the flag and no value to extend nothing changes |
| Telemetry.SourceTagIsAppended | pkg/blobfuse-proxy/server/server.go:210-213 | with the source's constants the new field is `--telemetry=blobpartner-csi/` and the version |
| Telemetry.ProxyArgv | pkg/blobfuse-proxy/server/server.go:87-107 | the proxy calls blobfuse2 with the arguments of the driver's options in order, the two flags where they are missing, and the tag |
| Telemetry.ProxyArgvOfPlainOptions | pkg/blobfuse-proxy/server/server.go:87-107 | the whole argument vector for options that mention none of the three flags: `mount`, the options' arguments, both flags switched on, and the tag |
| Telemetry.MissingFlagIsOn | pkg/blobfuse-proxy/server/server.go:95-102 | a flag is switched on by one more field exactly when its name is nowhere in the arguments |
| Attributes.AttributeMap.ValidateKeys | pkg/blob/blob.go:1746-1762 | for every order, succeeds exactly when all keys that differ only in case hold the same value |
| Attributes.SameExactly | pkg/blob/blob.go:1752-1758 | keys count as the same exactly when they have the same letters, large or small, and the same everything else |
| Attributes.AttributeMap.SetKeyValue | pkg/blob/blob.go:1784-1795 | overwrites the first spelling in the order, or adds the key |
| Attributes.AttributeMap.GetValue | pkg/blob/blob.go:1799-1809 | returns what the first spelling in the order holds, or nothing |
| Attributes.AttributeMap.RestrictInline | pkg/blob/nodeserver.go:124-132 | in every order, afterwards some spelling of each restricted field holds the forced value, and unrelated keys are untouched |
| Attributes.LookupIndependentExactly | pkg/blob/blob.go:1799-1809 | all orders find the same value exactly when all spellings of the key agree |
| Attributes.PutThenLookup | pkg/blob/blob.go:1784-1809 | if the result passes validation, every lookup finds the value that was set |
| Attributes.PutStaysCoherentExactly | pkg/blob/blob.go:1784-1795 | valid attributes stay valid exactly when no second spelling with another value is left behind |
| Attributes.PutKeeps | pkg/blob/blob.go:1784-1795 | the value is set under some spelling, and all other keys keep theirs |
| Attributes.TokenStaysCoherentExactly | pkg/blob/nodeserver.go:402-409 | adding the token keeps the attributes unambiguous exactly when no other spelling of the field is there |
| AuthEnv.ReadAttributes | pkg/blob/blob.go:671-729 | for every order, fails exactly when some value cannot be parsed, and otherwise fills variables and environment as specified |
| AuthEnv.SlotsIndependentExactly | pkg/blob/blob.go:671-729 | all orders fill the variables alike exactly when the attributes written to one variable store the same there |
| AuthEnv.EnvironmentPermutes | pkg/blob/blob.go:697-713 | all orders export the same entries, as often, coherent or not |
| AuthEnv.LastWriterStays | pkg/blob/blob.go:671-729 | a variable holds what the last attribute written to it stores |
| AuthEnv.HeldIsRead | pkg/blob/blob.go:671-729 | a value that some spelling of a key holds ends up in the variable of the key |
| AuthEnvSource.ValidatedAgree | pkg/blob/blob.go:671-729 | with the source's switch statement, validated attributes whose two account names agree are read alike in every order |
| AuthEnvSource.RestrictedIsRead | pkg/blob/nodeserver.go:124-132 | a restricted inline volume that passes validation is read with the pod's namespace, the key from the secret and no account, in every order |
| AuthEnvSource.ReadInline | pkg/blob/nodeserver.go:124-143 | the same end to end: restrict, validate, read, with arbitrary orders throughout |
| AuthEnvSource.SourceReached | pkg/blob/blob.go:64-112 | the source's field names meet the assumptions of these theorems |
| AuthEnvNames.PlacesAreRead | pkg/blob/blob.go:672-684 | the attributes for subscription, resource group, container and key vault, by their literal names, fill their own variables |
| AuthEnvNames.AccountsAreRead | pkg/blob/blob.go:685-696 | so do those for account, secret and namespaces |
| AuthEnvNames.IdentitiesAreExported | pkg/blob/blob.go:697-705 | each identity attribute, by its literal name, is exported under its literal variable |
| AuthEnvNames.EndpointsAreExported | pkg/blob/blob.go:706-713 | so are the endpoints |
| AuthEnvNames.ServicePrincipalsAreRead | pkg/blob/blob.go:708-711 | the attributes of a service principal, by their literal names, fill their own variables |
| AuthEnvNames.TokensAreRead | pkg/blob/blob.go:714-728 | the attributes for tokens and switches, by their literal names |
| AuthEnvNames.OthersAreIgnored | pkg/blob/blob.go:671-729 | every other attribute changes nothing |
| AuthEnvNames.RefusedExactly | pkg/blob/blob.go:714-724 | the loop fails for two attributes and no other, exactly for a value that is none of the twelve that are parsed |
| AuthEnvNames.TrueInAnyCase | pkg/blob/blob.go:696 | the switch for the key from the secret is on exactly for `true` in any case |
| AuthEnvNames.EnvironmentExactly | pkg/blob/blob.go:697-713 | the environment holds an entry exactly if some attribute in any spelling is one of six and the entry is its variable, an equals sign and its value |
| AuthEnvNames.PlaceIsRead | pkg/blob/blob.go:672-687 | validated attributes are read with the container and the account that they name, in whatever spelling and order |
| AuthEnvSource.TokenIsReadExactly | pkg/blob/nodeserver.go:402-409 | once the token is added, the loop of `GetAuthEnv` reads it in every order exactly when no other spelling of its field is there |
| AuthEnvSource.TokenMayBeLost | pkg/blob/nodeserver.go:402-409 | valid attributes with the driver's own field in lower case, and an order in which the loop does not read the token |
| Subnets.SubnetUpdater.UpdateEndpoints | pkg/blob/azure.go:177-277 | a hit changes nothing and returns the cached IDs; a miss updates the subnets up to the first that fails and caches exactly on full success; any earlier failure changes nothing |
| Subnets.SubnetUpdater.Fetch | pkg/blob/azure.go:214-232 | reads all requested subnets as they are, or fails exactly when one of them cannot be read |
| Subnets.SubnetUpdater.AddEndpoints | pkg/blob/azure.go:234-273 | the loop gives each subnet without a storage endpoint one at the end, until one has no name or cannot be updated |
| Subnets.AfterConserves | pkg/blob/azure.go:234-273 | successful or not, a call keeps every endpoint in front and adds at most one; the subnets it got to have a storage endpoint |
| Subnets.NothingLeftToUpdate | pkg/blob/azure.go:256-271 | once all requested subnets have the endpoint, a call updates nothing |
| Subnets.WithStorageKeeps | pkg/blob/azure.go:256-266 | the new endpoint goes behind the others, and only where none was |
| Subnets.StorageIsByName | pkg/blob/azure.go:256-262 | a subnet counts as done exactly when some endpoint's service is named and begins with `Microsoft.Storage` |
| Subnets.ReachesAllExactly | pkg/blob/azure.go:234-273 | among named subnets a call gets to all exactly when each one whose update would fail needs none |
| Subnets.ConfiguredWhereEmpty | pkg/blob/azure.go:183-195 | which configured value stands in for an empty argument, and that none replaces one that is given |
| Subnets.NamesAreRead | pkg/blob/azure.go:215-219 | a list of names with white space around each names just these subnets, in order |
| Subnets.SameKeyExactly | pkg/blob/azure.go:200 | calls with one key are about the same subnets exactly when resource group and network have the same lengths |
| Subnets.KeysCollide | pkg/blob/azure.go:200 | calls about different networks with one key |
| SubnetRuns.EndpointsAreConserved | pkg/blob/azure.go:200-276 | over every interleaving of any calls, with writes based on outdated reads, each subnet keeps all endpoints in front and gains at most one, none if it had one |
| SubnetRuns.ReturnedHaveStorage | pkg/blob/azure.go:200-276 | whatever a call returned, from the cache or not, has an endpoint with a service that begins with `Microsoft.Storage` from then on and was returned by an earlier full success with the same key |
| SubnetRuns.ReturnsWhatWasNamed | pkg/blob/azure.go:200-208 | if equal keys mean equal arguments, a call returns exactly the subnets it named |
| SubnetRuns.AnswersOwnNetworkExactly | pkg/blob/azure.go:200-232 | over every interleaving, a call that answers with what another call left, whether they name subnets or list their network, answers with subnets of its own network exactly when the names of resource group and network have the same lengths in both; and if both name subnets, with just those it named |
| SubnetRuns.WrongNetworkAnswers | pkg/blob/azure.go:200-208 | a run of two calls of which the second returns the subnet of another network and leaves its own without the endpoint |
| SubnetRuns.CallsWithOneKeyTakeTurns | pkg/blob/azure.go:211-212 | no two calls with one key read or write at the same time |
| SubnetRuns.WriteGrows | pkg/blob/azure.go:263-271 | a write based on an outdated read never takes a storage endpoint away |
| MountTable.NodeServer.EnsureMountPoint | pkg/blob/nodeserver.go:910-993 | what the looks and the list deduce step by step is the truth about the mount table; both results, table and directory in every case |
| MountTable.NodeServer.Stage | pkg/blob/nodeserver.go:389-738 | the mount table and the outcome of staging, for fuse and NFS, with every failure on the way, and of a call that is deferred for want of a token |
| MountTable.RefusalLeavesMountExactly | pkg/blob/nodeserver.go:697-727 | a refused fuse mount leaves something mounted exactly when it was half made and then could not be seen or unmounted |
| MountTable.NodeServer.Publish | pkg/blob/nodeserver.go:171-202 | the mount table and the outcome of a bind mount |
| MountTable.NodeServer.PublishInline | pkg/blob/nodeserver.go:104-143 | skips only what is mounted, and otherwise stages at the target |
| MountTable.NodeServer.Clean | vendor/k8s.io/mount-utils/mount_helper_common.go:31-121 | the mount table and the outcome of a cleanup, as unstaging and unpublishing call it |
| MountTable.EnsureMeans | pkg/blob/nodeserver.go:894-993 | no error and mounted means mounted, and healthy if it was probed; no error and not mounted means a directory with nothing on it; only a mount that failed the probe is unmounted, only if asked to, and never without an error |
| MountTable.EnsureSucceedsExactly | pkg/blob/nodeserver.go:910-993 | no error exactly when all looks can be read and the directory can be made or, if it may unmount, the mount answers; then the first result says whether the list shows the target |
| MountTable.StageSucceedsExactly | pkg/blob/nodeserver.go:389-738 | for a new target: every step before the mount, the mount and what follows it; for a mounted one: looks and probe alone |
| MountTable.PublishSucceedsExactly | pkg/blob/nodeserver.go:171-202 | for a new target, its directory there before or not: looks, directory and bind mount; for a mounted one: the looks alone; what is left when only the bind mount fails |
| MountTable.CleanSucceedsExactly | vendor/k8s.io/mount-utils/mount_helper_common.go:31-121 | which steps must succeed for a cleanup to succeed, in each of its branches |
| MountTable.CleanUnmountsExactly | vendor/k8s.io/mount-utils/mount_helper_common.go:31-121 | a cleanup, successful or not, takes a mount away exactly when there is one that can be looked at, checked and unmounted |
| MountTable.MountedWithErrorExactly | pkg/blob/nodeserver.go:900-906 | the first result is true with an error exactly when a look saw a mount and the rest could not be read, or a mount failed the probe and could not be unmounted |
| MountTable.HealthIsNotReported | pkg/blob/nodeserver.go:940-953 | without unmounting, what is mounted is reported as mounted without an error, and the probe makes no difference |
| MountTable.PublishLeavesDeadExactly | pkg/blob/nodeserver.go:171-202 | a publish that succeeds leaves a dead target exactly when the target was dead before, or is new and the volume was staged and is dead |
| MountTable.PublishBinds | pkg/blob/nodeserver.go:193-202 | what a new target shows: the volume's own process, or the plain directory of a volume that was not staged |
| MountTable.StaleMountNeedsRetry | pkg/blob/nodeserver.go:971-982 | a stale mount that is found and unmounted still fails the call; the next one succeeds exactly when its own mount does |
| MountTable.StageMeans | pkg/blob/nodeserver.go:389-738 | staging that succeeds leaves a healthy mount unless it was deferred, which changes nothing; what was mounted it leaves alone |
| MountTable.StageTouches | pkg/blob/nodeserver.go:389-738 | staging, successful or not, touches no other path, kills no process and never stacks one mount on another |
| MountTable.StageUnmountsExactly | pkg/blob/nodeserver.go:964-982 | staging lowers the stack of a path exactly when it is not deferred and a mount fails the probe and can be unmounted |
| MountTable.PublishMeans | pkg/blob/nodeserver.go:171-202 | publishing a staged volume never unmounts, never stacks, touches no other path, and succeeds only with the target mounted |
| MountTable.CleanMeans | pkg/blob/nodeserver.go:323-348 | a cleanup that succeeds leaves the target unmounted and removed; any cleanup takes at most one mount |
| MountTable.CleanAgain | pkg/blob/nodeserver.go:741-773 | a cleanup after a successful one changes nothing |
| MountRuns.AtMostOneMount | pkg/blob/nodeserver.go:910-993 | over every run of stage, publish and cleanup, of publishes that others overtake, dying processes and late mounts, a path carries at most one mount plus the late ones |
| MountRuns.ArrivalsWereGivenUp | pkg/blob/nodeserver.go:561-569 | late mounts arrive at most as often as mount calls were left behind |
| MountRuns.OneMountUnlessGivenUp | pkg/blob/nodeserver.go:561-569 | without a mount call that was left behind there is never more than one mount on a path |
| MountRuns.SecondMountExactly | pkg/blob/nodeserver.go:561-569 | from a path with at most one mount, some run that leaves no further call behind there reaches two exactly when a mount call is pending |
| MountRuns.OverlappingPublishesStack | pkg/blob/nodeserver.go:171-196 | two publishes of one target, one overtaken by the other, end with two mounts |
| MountRuns.RetryStacksSecondMount | pkg/blob/nodeserver.go:561-569 | for every path a run of two stage calls and a late mount that ends with two mounts |
| MountRuns.MountsStay | pkg/blob/nodeserver.go:169-202 | as long as nobody cleans up or restages a path, no run takes a mount of it away |
| MountRuns.HealthyUntilDies | pkg/blob/nodeserver.go:910-993 | through every run without a cleanup, a failed probe or a late mount at the path, its mounts stay, and the upper one is healthy exactly until its own process dies |
| MountRuns.StagedUntilDies | pkg/blob/nodeserver.go:389-738 | after a successful stage and any such run, the target is healthy, and the call can be repeated without effect, exactly when the process behind it did not die |
| MountRuns.PublishedUntilDies | pkg/blob/nodeserver.go:169-202 | after a successful publish and any such run, the call can always be repeated without effect, and the target is healthy exactly when it was and the process behind it, the volume's own, did not die |
| MountRuns.VolumeAndTargetDieTogether | pkg/blob/nodeserver.go:193-202 | a staged volume and its target are healthy together, over every run that is quiet for both, and until the one process dies |
| MountRuns.RestagingDoesNotRevive | pkg/blob/nodeserver.go:940-953 | once its process died, a target is dead in every run that is quiet for it, whatever is done to the volume |
| MountRuns.RestagedVolumeLeavesDeadTarget | pkg/blob/nodeserver.go:964-982 | from every state with a volume and its target in one process, a run that ends with the volume staged anew and healthy, and the target dead |
| MountRuns.RepeatedStageExactly | pkg/blob/nodeserver.go:954-981 | in any state, a stage call with a truthful probe succeeds without effect exactly when the target is mounted and healthy |
| MountRuns.RepeatedPublishExactly | pkg/blob/nodeserver.go:940-953 | in any state, a publish succeeds without effect exactly when the target is mounted, healthy or not |

## Left out

- The allowlist of `SanitizeMountOptions`: any set of names without white space stands for its 80 flags.
- Bytes of UTF-8 and case folding beyond ASCII: strings are sequences of characters, and attribute keys are ASCII, as inline volumes' must be.
- A nil attribute map, on which each of the functions returns at once.
- `JoinMountOptions`, which sorts and merges the lists: the theorems on the argument vector hold for any list in any order.
- Retries with back-off inside one call to Azure: one call stands for all of them.
- Reading the parameters of `CreateVolume` (`pkg/blob/controllerserver.go`, lines 114 to 387), its metrics and its validation of capabilities.
- The body of `DeleteVolume` after its lock: a single call to Azure. What `azcopy jobs clean` deletes is up to the environment, so roll-back safety is stated for the moment of the look. In runs of calls, one call for a volume ends before the next begins, as the lock on its name sees to.
- The account key that signs a SAS token, and the URL around it: a signature is a string or an error. Signing and storing a token are one instant, and time counts in minutes.
- LockMap.MutualExclusion: assumes that `lockEntry` reads the map atomically; the source reads it after it released the outer mutex.
- A container that Azure makes although the call that asked for it returned an error: such a call counts as having made none.
- Lines of azcopy's listing other than the command that contain a container's name, which grep would also select.
- Changes to a subnet by others than the driver between its reading and its writing, and names that Azure returns in another case than they were asked for with.
- The text of a subnet's resource ID: its three names stand for it.
- Mock mounts, mode and owner of files, the proxy's connection, Windows, and the blobfuse version 1 command of the proxy, which only lacks the added flags.
- MountRuns.AtMostOneMount: of calls on one path, only a publish is overtaken by others; staging and unstaging lock the volume and the path, and a cleanup for unpublishing is taken as one step.
- Which mount a look at a path overlooks: a look may miss a mount, but the mount list, if it can be read, is complete.
- The body of `GetAuthEnv` after its loop: key vaults, secrets and account keys are calls to other systems.
- `normalizeInlineVolumeServer`, snapshots, statistics, identity service and command-line flags.
