# A verified model of the sandbox platform

The platform runs user containers on top of Apptainer: a web API keeps rows about containers,
snapshots, overlays and workspaces, and drives a fallible executor that starts, stops, copies and
restores them. This project models the parts where behaviour depends on the order of steps, on
failures in the middle of an operation, or on an algorithm with a simple meaning behind it, and
proves what those parts keep and where they stop keeping it.

`dafny verify dfyconfig.toml` checks everything.

| module | what it models |
|---|---|
| `ContainerLock` | the promise-chain mutex, as a machine over the jobs a JavaScript scheduler may run in any order |
| `Runtime`, `Platform` | executor effects with outcomes; the tables; every locked section, the unlocked steps of create, of a restore into a new container and of snapshot deletion, the sweeps, uploads |
| `ContainerService` | the lifecycle methods as a class over the rows, each proved equal to its section in `Platform` |
| `SectionEffects`, `Renewal` | what each call does to its own container: when it succeeds, what it then leaves, what a refusal or failure leaves |
| `Lifecycle`, `SnapshotIntegrity`, `Reaper`, `DiskAccounting` | what the machine keeps over every run |
| `Witnesses` | short runs from the empty platform that reach each failure of the machine |
| `RefreshRotation` | login, refresh, logout and password change, one SQL statement a step |
| `Glob`, `WalkFiles` | the glob-to-regexp pipeline against ECMA-262; the bounded breadth-first walk and `find` |
| `PathResolution`, `TreePaging`, `Upload` | path containment and move, the cursor-paged tree walk, chunked uploads |
| `OverlaySwap`, `ShellQuote`, `OutputCap` | the file swap of a restore under failures and crashes; quoting against the POSIX shell's token rules; the shared output budget |
| `AuditChain`, `PtyBudget`, `Truncate` | the hash chain and its purge; terminal input windows and session counters; line and byte truncation over UTF-8 |
| `Common` | Option, Result, text helpers |

Code that updates rows, files, maps or counters is a class whose methods are proved equal to a
specification function of the old state; the properties are then proved of that function. In the
machines (`Platform`, `RefreshRotation`, `ContainerLock`) everything the code cannot control, such as
executor outcomes, the clock, quota values and fresh identifiers, is a parameter of an event, so a
statement over every run is a statement over every such choice.

## Where the plain claims fail

Each of these has a lemma that exhibits the failure and a condition that is exact, unless the table or
the last section says otherwise.

- A row marked running loses its instance in exactly four steps: the sweep's own snapshot hits a
  container that was started between release and snapshot; `create` marks a row that a call reached
  before it returned; the unlocked restore into a new container quiesces the instance of a row that stays
  marked running until it is through; and that restore marks a row that a call reached after its executor
  had brought the instance up (`Lifecycle`, with runs in `Witnesses`).
- A replayed refresh token kills its family only if no rotation of the family is between its UPDATE
  and its INSERT. A password change leaves the user no session, now or later without another login,
  exactly when no login of the user has read the stored hash and not yet inserted, even if its password
  check is still to come, and no rotation of the user is in flight (`RefreshRotation`).
- A manual restore keeps the reaper's marker, so the next stop and start roll back to the old auto
  snapshot. A destroyed container becomes running again by a restore of its own snapshot, and changes
  status by the late mark of its `create` or of the unlocked restore that made it (`Reaper`).
- A reaped container whose sweep recorded no snapshot that `start` looks for, because of a limit, the quota,
  a name taken by another of the user's containers, a failed copy, or a configured tier other than `auto`,
  is rolled back at its next start exactly when an older auto-named snapshot with other content exists
  (`Reaper`).
- The reaper promises to spare a container restarted after it read the row. The stamp it compares has
  whole seconds, so this holds for good exactly when the clock second has moved on since the run it saw
  began (`Reaper`).
- Two overlapping deletions of one snapshot can delete the file of a later snapshot with the same
  name (`SnapshotIntegrity`).
- The aggregate disk check counts a snapshot's copy but not the overlay row it is about to raise, and
  restores are not checked at all (`DiskAccounting`).
- Pages of the tree lose or repeat entries exactly when some listing, in its display order, puts a
  name after one it does not follow by code units, or puts it after a non-empty directory whose name it
  extends by a character before `/`; the comment on `walkTree` says the list is sorted by path, which
  the code does not do (`TreePaging`).
- A second restore after a crash between the two renames deletes the only copy of the old content, and
  the SSH shell line reports success with the old overlay still in place when moving it aside fails
  (`OverlaySwap`).
- A file written directly under `/` through the SSH executor fails, because its parent is the empty
  word (`ShellQuote`).
- A glob pattern that spells NUL, GLOBSTAR and then NUL or `**` meets the translation's own sentinel and
  acts as if `**` stood there. The translation preserves the meaning of exactly the other patterns (`Glob`).
- The purge comment promises a chain that stays reconstructable. The next row after a purge of every
  row starts a new chain with an empty previous hash, so the last hash pins the rows of a
  run exactly when no record after the first found every earlier row purged (`AuditChain`).

## Model

| member | source | states |
|---|---|---|
| ContainerLock.LockTable.WithContainerLock | src/services/container-lock.ts:14-25 | a call chains its section on the container's current tail and becomes the tail, and changes nothing else |
| ContainerLock.LockTable.Advance | src/services/container-lock.ts:15-20 | one enabled promise job of a section, as one step of the machine |
| ContainerLock.LockTable.CleanUp | src/services/container-lock.ts:22-24 | the entry is deleted only if this tail is still the current one |
| ContainerLock.MutualExclusion | src/services/container-lock.ts:12-26 | in every reachable state, two sections of one container are never inside their body together |
| ContainerLock.StartsExactlyInCallOrder | src/services/container-lock.ts:15-21 | a queued section may start if and only if every earlier section of its container has settled, resolved or rejected |
| ContainerLock.NeverStuck | src/services/container-lock.ts:12-26 | while a section is unsettled, the first unsettled section of its container can move |
| ContainerLock.DrainsWithoutNewCalls | src/services/container-lock.ts:12-26 | with no further calls each job lowers a fixed amount of remaining work by one |
| ContainerLock.EntryGoneExactlyWhenDrained | src/services/container-lock.ts:21-24 | a container's entry is gone exactly when its last section has been cleaned up, and then none is queued |
| ContainerLock.QuiescentMeansEmpty | src/services/container-lock.ts:12-26 | when no job is left, every section finished and the map is empty |
| ContainerLock.NestingDeadlocks | src/services/container-lock.ts:12-26 | a running section that awaits a later section of its own container never returns, in any continuation |
| RefreshRotation.AuthService.IssueTokenPair | src/services/auth.service.ts:57-84 | the INSERT of a login or of a rotation: one live row, in a new family or the rotation's own |
| RefreshRotation.AuthService.RefreshSelect | src/services/auth.service.ts:128-142 | the SELECT of a refresh or a logout, and what the request remembers of it |
| RefreshRotation.AuthService.RefreshRotate | src/services/auth.service.ts:156-160 | the conditional UPDATE: one change for the winner, none for a loser, who goes on to the family revoke |
| RefreshRotation.AuthService.RevokeWholeFamily | src/services/auth.service.ts:133-166 | the loser's revoke of every row of the family |
| RefreshRotation.AuthService.Logout | src/services/auth.service.ts:170-178 | exactly the presented token's row is revoked |
| RefreshRotation.AuthService.RevokeUserTokens | src/services/auth.service.ts:192-207 | every row of the user is revoked |
| RefreshRotation.FamilyHoldsAtMostOne | src/services/auth.service.ts:57-84 | in every interleaving, a family's live tokens plus its rotations won but not yet inserted are at most one |
| RefreshRotation.EachTokenExchangedAtMostOnce | src/services/auth.service.ts:119-168 | over every run, at most one conditional revoke succeeds for a token |
| RefreshRotation.DeadForever | src/services/auth.service.ts:119-168 | a family with neither live token nor rotation in flight stays so in every continuation |
| RefreshRotation.NeverLiveAgainExactlyWhenDead | src/services/auth.service.ts:119-168 | some continuation brings a family back if and only if it has a live token or a rotation in flight |
| RefreshRotation.ReplayKillsFamilyExactlyWhenNoRotation | src/services/auth.service.ts:133-168 | a replay's family revoke ends the family for good exactly when no rotation of it is in flight |
| RefreshRotation.ReplayCanMissAWinner | src/services/auth.service.ts:156-167 | the gap is reachable from the empty database: the family survives a detected replay |
| RefreshRotation.PresentedTokenDecides | src/services/auth.service.ts:128-168 | presenting a revoked token makes the family revoke the request's next step, after which the family has no live row and no other family changed; presenting a live one makes the exchange of exactly that row the next step, and its winner may insert |
| RefreshRotation.ReusedTokenEndsFamilyExactlyWhenNoRotation | src/services/auth.service.ts:133-142 | so a reused token ends its session for good exactly when no rotation of the family is in flight |
| RefreshRotation.UnknownTokenChangesNothing | src/services/auth.service.ts:128-132 | a token no row has changes nothing |
| RefreshRotation.LosingRotationRevokesFamily | src/services/auth.service.ts:156-166 | a rotation that finds its row revoked meanwhile goes on to revoke that row's family, and nothing else |
| RefreshRotation.LogoutAndChangeRevokeExactly | src/services/auth.service.ts:170-207 | logout revokes exactly the presented token's row, a password change exactly the user's rows |
| RefreshRotation.IssuedRow | src/services/auth.service.ts:57-84 | a finished login or rotation adds one live row under the fresh token, owned by its user, in a new family or the rotation's own |
| RefreshRotation.LogoutEndsFamilyExactlyWhenTokenLive | src/services/auth.service.ts:170-178 | logout ends the family for good exactly when the token presented is its live one, or it was dead before |
| RefreshRotation.PasswordChangeEndsFamiliesExactlyWhenNoRotation | src/services/auth.service.ts:192-207 | after the change the user has no live token, and all the user's families are over for good exactly when none of the user's rotations is in flight |
| RefreshRotation.LoginInFlightSurvivesPasswordChange | src/services/auth.service.ts:88-107 | a login that has read the stored hash and not yet inserted still inserts a live token after the change |
| RefreshRotation.OldPasswordLoginOutlivesChange | src/services/auth.service.ts:88-107 | a run from the empty database: a login reads the old hash, the password changes and its tokens are revoked, and the login inserts a live token |
| RefreshRotation.PasswordChangeEndsSessionsExactlyWhenNoneInFlight | src/services/auth.service.ts:192-207 | after the change, every continuation in which no login of the user reads the stored hash leaves the user no live token, if and only if no login of the user has read the stored hash and not yet inserted and no rotation of the user is in flight |
| Glob.SourceIsRendering | src/services/tools.service.ts:274-284 | for every pattern the five replacements yield the token-by-token rendering of the tokens in effect, in which a spelled sentinel has become `**` |
| Glob.TermsMatchExactlyDenoted | src/services/tools.service.ts:274-286 | the backtracking matcher on the parsed terms accepts exactly what the glob tokens denote, from every position |
| Glob.TranslationMeansEffectiveTokens | src/services/tools.service.ts:274-286 | for every pattern the built expression parses and accepts exactly the strings the tokens in effect denote |
| Glob.TranslationPreservesMeaning | src/services/tools.service.ts:274-286 | for every pattern that does not spell the sentinel the built expression parses and accepts exactly the strings the glob means |
| Glob.NulFreeDoesNotCollide | src/services/tools.service.ts:279-283 | no NUL-free pattern spells the sentinel |
| Glob.MeaningPreservedExactlyWithoutCollision | src/services/tools.service.ts:274-286 | a pattern matches exactly the nonempty strings it means if and only if it does not spell the sentinel followed by NUL or `**` |
| Glob.NulBreaksTranslation | src/services/tools.service.ts:279-283 | the pattern that is just the sentinel matches every string without a line terminator, and means only itself |
| Glob.WildcardsStayInTheirDirectory | src/services/tools.service.ts:274-286 | without `**` a match has exactly as many slashes as the pattern |
| Glob.PlainPatternMatchesOnlyItself | src/services/tools.service.ts:278 | a pattern without wildcards matches only itself, whatever regular-expression characters it holds |
| Runtime.PathTextsAreDistinct | src/services/container.service.ts:238 | different overlay and snapshot paths have different texts, because instance names have one length and no slash |
| ContainerService.Executor.Stop | src/executors/apptainer-cli-executor.ts:204-217 | the instance dies unless the stop throws or the command could not be spawned |
| ContainerService.Executor.Create | src/executors/apptainer-cli-executor.ts:114-161 | on success the instance is alive on its overlay, whose existing content is kept |
| ContainerService.Executor.Snapshot | src/executors/apptainer-cli-executor.ts:255-269 | the copy holds the overlay's content; on failure the path holds whatever the copy left |
| ContainerService.Executor.Restore | src/executors/apptainer-cli-executor.ts:271-307 | on success the snapshot's content is at the overlay and the instance is alive |
| ContainerService.Executor.Destroy | src/executors/apptainer-cli-executor.ts:223-238 | the overlay is removed when the instance is gone, and also from under a live instance when the listing that guards the removal fails itself; it stays when the call throws |
| ContainerService.Service.CreateInsert | src/services/container.service.ts:238-267 | the row appears as creating, outside the lock |
| ContainerService.Service.CreateProvision | src/services/container.service.ts:269-282 | the executor's part of create, with the row unchanged |
| ContainerService.Service.CreateFinish | src/services/container.service.ts:283-315 | the row becomes running with an overlay row, or error, without a second look at its status |
| ContainerService.Service.RenewInsert | src/services/container.service.ts:562-573 | the new container's row appears as creating, and the restore remembers the snapshot it read |
| ContainerService.Service.RenewRead | src/services/container.service.ts:574-580 | the row `create` returned and the image check of the restore, without a lock |
| ContainerService.Service.RenewStop | src/services/container.service.ts:643-649 | the instance is quiesced as far as that row said running, whatever the row says by now |
| ContainerService.Service.RenewRestore | src/services/container.service.ts:651-662 | the executor's part of the restore, with the row unchanged |
| ContainerService.Service.RenewMark | src/services/container.service.ts:663-685 | the row becomes running with a new overlay row, or stopped, without a second look at its status |
| ContainerService.Service.RenewCleanup | src/services/container.service.ts:581-586 | a failed restore destroys the new container |
| ContainerService.Service.Start | src/services/container.service.ts:320-373 | the whole start section: the resume branch for a marked container, the plain branch, each refusal, and the marker cleared only after a successful resume |
| ContainerService.Service.Stop | src/services/container.service.ts:375-384 | only a running row is stopped; a throwing stop changes nothing |
| ContainerService.Service.Destroy | src/services/container.service.ts:386-418 | the row is destroyed and its overlay rows dropped even when the executor fails; snapshots stay |
| ContainerService.Service.CopyAndRecord | src/services/container.service.ts:454-496 | copy, quota check, insert and overlay bookkeeping, with the orphan removed when the row cannot be recorded |
| ContainerService.Service.TakeSnapshot | src/services/container.service.ts:420-528 | the whole snapshot section with its checks, and restart or row marked stopped afterwards |
| ContainerService.Service.RestoreFromSnapshot | src/services/container.service.ts:640-686 | success: running, demoted overlay rows and a new current one; failure: row stopped |
| ContainerService.Service.RestoreSnapshot | src/services/container.service.ts:621-638 | restores one of the container's own snapshots, with no check for destroyed; SectionEffects.RestoreBringsTheSnapshot says what that means |
| ContainerService.Service.Release | src/scheduler/reaper.ts:106-129 | stops and marks exactly the run the sweep saw |
| ContainerService.Service.DeleteSnapshotFile | src/services/container.service.ts:688-703 | the file goes first, best effort, before the row |
| ContainerService.Service.UploadFile | src/services/workspace.service.ts:248-275 | ownership and quota check, write, and the row's size recomputed from disk |
| ContainerService.Service.DeleteWorkspace | src/services/workspace.service.ts:217-227 | the directory is removed first, best effort; the row goes with its size, unless a mount row refers to it (foreign key in src/db/migrations/0004_container_mounts.ts), when the call fails and the row stays, although the comment says it goes regardless |
| SectionEffects.RestoreBringsTheSnapshot | src/services/container.service.ts:621-686 | a restore succeeds exactly for an own snapshot whose file is there, when image and executor allow it; then the container is up, its overlay holds what that file held, and one new overlay row of the snapshot's size is its only current one; each failure with what it leaves |
| SectionEffects.StartOutcome | src/services/container.service.ts:320-373 | when a start succeeds, resuming or plainly, and then brings the container up; what a refused, failed or imageless start leaves, the marker included |
| SectionEffects.StopOutcomeExactly | src/services/container.service.ts:375-384 | exactly a running container is stopped, unless the executor throws, and its files stay |
| SectionEffects.ReleaseOutcomeExactly | src/scheduler/reaper.ts:106-124 | exactly the running row with the stamp the sweep saw is stopped and marked, its instance stopped with it |
| SectionEffects.DestroyOutcomeExactly | src/services/container.service.ts:386-418 | row destroyed and overlay rows gone whatever happens, instance and overlay file gone exactly as far as the executor got, snapshots and their files kept |
| SectionEffects.SnapshotOutcome | src/services/container.service.ts:420-496 | refused exactly by status, count or name, without effect; recorded exactly when the copy is made, usage stays within the limit and the owner has no such name; an unrecorded copy is removed |
| SectionEffects.SnapshotLeavesContainer | src/services/container.service.ts:446-525 | the overlay keeps its content, and a running container is up again or marked stopped |
| SectionEffects.CreateOutcomeExactly | src/services/container.service.ts:238-318 | undisturbed, create ends with the container up on its overlay exactly when the executor started it, else in error |
| SectionEffects.AutoNameIsLike | src/services/container.service.ts:329-332 | the names start looks for are those LIKE 'auto-%' matches |
| Renewal.RenewalBringsTheSnapshot | src/services/container.service.ts:562-686 | over every run, a restore into a new container that ends in success did so exactly because the executor allowed it and the named snapshot's file was there, and leaves the container up with that file's content; otherwise it is stopped and left to the clean-up |
| Renewal.RenewalBringsWhatWasTaken | src/services/container.service.ts:562-686 | without overlapping deletions, that is what was copied when the snapshot was taken |
| Lifecycle.StepKeepsRunningAliveExactly | src/services/container.service.ts:320-686 | from a state where running rows have live instances, a step keeps that if and only if it is not one of the four stranding steps |
| Lifecycle.RunningRowsStayAlive | src/services/container.service.ts:189-686 | over every run from the empty platform in which no call targets a container before its `create` or its restore as a new container returns, and none lands between a release and its snapshot, a running row has a live instance unless that unlocked restore is working on it, whatever the executor does |
| Lifecycle.StepKeepsStructure | src/services/container.service.ts:189-528 | every step keeps instance names distinct and every snapshot row at the path of its instance and name, distinct per container |
| Lifecycle.ReachableHasStructure | src/services/container.service.ts:189-528 | so that holds in every reachable state |
| Lifecycle.SnapshotWithoutRestartStrands | src/services/container.service.ts:446-496 | such a snapshot of a running row whose stop works leaves the row running and the instance dead |
| Lifecycle.StartInTheGapIsStranded | src/scheduler/reaper.ts:106-139 | release, a successful start, then the sweep's snapshot: running row, dead instance |
| Lifecycle.DestroyDuringCreateIsStranded | src/services/container.service.ts:189-318 | a destroy before `create` marks its row ends in a running row without an instance |
| Lifecycle.CallDuringRenewalIsStranded | src/services/container.service.ts:562-587 | a stop or destroy after the unlocked restore's executor step and before its UPDATE ends in a running row without an instance, out of destroyed too |
| Witnesses.DestroyDuringCreateIsReached | src/services/container.service.ts:189-318 | a run from the empty platform ends with nothing under way and a running row without its instance |
| Witnesses.StartInTheGapIsReached | src/scheduler/reaper.ts:106-139 | so does a run with a start in the sweep's gap |
| Witnesses.DestroyDuringRenewalIsReached | src/services/container.service.ts:562-587 | so does a run with a destroy during the unlocked restore |
| Witnesses.OverlappingDeletionsAreReached | src/services/container.service.ts:688-703 | a run from the empty platform ends with a recorded snapshot whose file is not intact |
| Witnesses.StaleMarkerIsReached | src/services/container.service.ts:621-686 | a run from the empty platform after which a start replaces what was written after a manual restore |
| Witnesses.RefusedSnapshotRollsBack | src/scheduler/reaper.ts:129-147 | a run in which the sweep's snapshot is refused, after which a start brings back older content than was released |
| SnapshotIntegrity.StepKeepsIntactExactly | src/services/container.service.ts:386-528 | a step keeps every recorded snapshot's content if and only if it is not the removal of a path recorded anew |
| SnapshotIntegrity.RecordedSnapshotsKeepContent | src/services/container.service.ts:420-703 | over every run from the empty platform without overlapping deletions of one snapshot, a snapshot recorded at one point and still recorded later has an unchanged row, and its file holds exactly what was copied |
| SnapshotIntegrity.SnapshotRecordsContent | src/services/container.service.ts:446-496 | a snapshot section changes no other snapshot file, and a row it adds names a file with the copied content |
| SnapshotIntegrity.OverlappingDeletionsLoseASnapshot | src/services/container.service.ts:688-703 | the second of two overlapping deletions removes the file of a new snapshot of the same name |
| Reaper.ReleasesOnlyIdleRuns | src/scheduler/reaper.ts:62-129 | in every run, the container a sweep stops was last started at least the idle threshold ago, and the session time its own idle check used lay at least that long before the check |
| Reaper.CheckPassesExactlyWhenIdle | src/scheduler/reaper.ts:62-97 | the idle check passes exactly when both start and latest session lie at least the threshold back |
| Reaper.IdleContainerIsReleased | src/scheduler/reaper.ts:90-129 | an idle running container is stopped and marked by a sweep, unless the executor throws |
| Reaper.RestartSparesExactlyInALaterSecond | src/scheduler/reaper.ts:106-119 | in every run, after a successful start, restore or end of `create` of a container a sweep has read, no continuation lets that sweep release it if and only if the clock second is later than the start the sweep read; after the idle check a threshold of a second or more is enough |
| Reaper.StartSource | src/services/container.service.ts:320-366 | what a successful start brings up, alive and with the marker cleared: the latest auto snapshot for a marked stopped container, else the overlay as it was |
| Reaper.ElsewhereRunsKeepContainer | src/scheduler/reaper.ts:90-155 | any run of steps on other containers leaves a container's row, overlay and snapshots as they were |
| Reaper.SweepEndEffect | src/scheduler/reaper.ts:129-147 | however the sweep ends and whatever tier is configured, a snapshot recorded under an auto name holds the overlay's content and is what the next start resumes from; otherwise the next start resumes from where it would have before, unchanged |
| Reaper.ResumesWhereItWasExactly | src/scheduler/reaper.ts:96-147 | release, any end of the sweep and a later successful start, with other containers doing anything in between: the content at release comes back if and only if the sweep's snapshot was recorded under an auto name or no older auto snapshot has other content |
| Reaper.StaleMarkerRollsBack | src/services/container.service.ts:621-686 | for any marked container with an auto snapshot, work done after a manual restore is replaced by that snapshot at the next stop and start |
| Reaper.DestroyedIsFinalExceptForRestore | src/services/container.service.ts:562-686 | a destroyed row changes status exactly on a restore of its own snapshot that reaches the executor, or when its own create or the unlocked restore that made it marks it |
| DiskAccounting.StepAccounting | src/services/quota.service.ts:250-263 | every step changes a user's recorded usage by exactly the stated amount |
| DiskAccounting.UsageIsConserved | src/services/quota.service.ts:250-263 | after any run, recorded usage is the initial usage plus the stated changes |
| DiskAccounting.UsageIsTheSumOfChanges | src/services/quota.service.ts:250-263 | from the empty platform it is the sum of those changes |
| DiskAccounting.FirstUploadCounts | src/services/workspace.service.ts:140-275 | the first upload to a new workspace counts for its owner and nobody else |
| DiskAccounting.AdmittedSnapshotBound | src/services/container.service.ts:456-487 | an admitted snapshot of size z over a row recording o ends at most at limit + z - o, and reaches it |
| DiskAccounting.AdmittedUploadBound | src/services/workspace.service.ts:248-275 | an admitted upload ends within the limit plus what the row did not know, and within the limit when its stats were exact |
| DiskAccounting.RestoreAddsUnchecked | src/services/container.service.ts:669-677 | every successful restore adds the snapshot's size to the usage with no check |
| WalkFiles.ScanListing | src/services/tools.service.ts:311-335 | the loop over one listing: what it visits, queues and marks, and each way it can end |
| WalkFiles.Walk | src/services/tools.service.ts:292-337 | the walk terminates on any directory graph, visits an initial part of the unbounded order, and its ending says why it stopped |
| WalkFiles.QueueShrinks | src/services/tools.service.ts:300-325 | taking a directory and queueing its own lowers the depth-weighted work by exactly one |
| WalkFiles.WalkVisitsEachFileOnce | src/services/tools.service.ts:292-337 | the unbounded order is exactly the files reachable past no `.git` and no `node_modules` within the depth limit, each once, depth by depth, directory after directory, and in a directory in listing order |
| WalkFiles.UnhinderedWalkSeesAll | src/services/tools.service.ts:292-337 | with time, room and a willing visitor every file is visited |
| WalkFiles.Find | src/services/tools.service.ts:243-257 | the results are walked files that match, in walk order, each once, at most `limit`; unless time runs out, a match among the first `walkMaxFiles` files is missing only after a full list |
| PathResolution.PrefixTestIsComponentwise | src/services/workspace-storage.ts:84-88 | the string prefix test with a separator agrees with the component-wise prefix test |
| PathResolution.AcceptsExactlyPathsUnderRoot | src/services/workspace-storage.ts:71-90 | a path is accepted if and only if it has no NUL and its component stack extends the root's, and the result is that stack's text |
| PathResolution.NameAndDotDotCancel | src/services/workspace-storage.ts:83 | a name followed by `..` can be dropped anywhere in a path |
| PathResolution.EmptyAndDotVanish | src/services/workspace-storage.ts:83 | so can empty and `.` segments |
| PathResolution.ClimbingEscapesExactly | src/services/workspace-storage.ts:83-88 | a path that first climbs k directories escapes exactly when what it then names, from that far above the root, is not in the root again; the filesystem root is its own parent |
| PathResolution.ResolvingAgainIsStable | src/services/workspace-storage.ts:71-90 | resolving the relative part of an accepted path gives the same path |
| PathResolution.MoveExactlyBetweenSeparatePaths | src/services/workspace-storage.ts:584-615 | a move is made exactly when source and destination lie below the root and the destination is neither the source nor beneath it; the returned path resolves to the destination; any other move is refused for the first reason that applies |
| TreePaging.TreeWalk.Visit | src/services/workspace-storage.ts:521-569 | after any subtree the entries are the first maxEntries of what was offered after the cursor, and truncated tells whether there was more |
| TreePaging.WalkTree | src/services/workspace-storage.ts:510-576 | a page is the first maxEntries entries of the full walk after the cursor, truncated exactly when more remain, with the last path as next cursor |
| TreePaging.NextCursorShrinks | src/services/workspace-storage.ts:571-575 | following the next cursor always leaves fewer entries, so paging ends for every tree |
| TreePaging.PagingIsCompleteExactlyWhenIncreasing | src/services/workspace-storage.ts:551-561 | all page sizes yield every entry once and in order if and only if the walk's paths increase in the cursor's order |
| TreePaging.IncreasingExactlyWhenOrdered | src/services/workspace-storage.ts:530-566 | the walk's paths increase if and only if every listing it shows is ordered by code units, also with what is beneath each directory |
| TreePaging.PagingIsCompleteExactlyWhenOrdered | src/services/workspace-storage.ts:510-576 | which trees page completely, in terms of sibling names alone |
| TreePaging.WalkShowsExactlyTheTree | src/services/workspace-storage.ts:521-569 | the walk shows exactly what can be followed by name past no link and no ignored directory within the depth limit, with its path, kind and depth |
| TreePaging.PageTellsWhetherMore | src/services/workspace-storage.ts:551-576 | a page is truncated exactly when entries after its cursor are left out, and then full, with the last path shown as next cursor |
| TreePaging.DocsMdIsLost | src/services/workspace-storage.ts:530-556 | the walk of a directory `docs` with a file, beside `docs.md`: one entry a page never shows `docs.md` |
| Upload.PartNamesSortNumerically | src/services/workspace-storage.ts:693 | padded part names sort as their numbers over 1 to 100000 |
| Upload.UploadSession.SumStoredParts | src/services/workspace-storage.ts:711-725 | the sum over any listing order is the total of the stored parts |
| Upload.UploadSession.Write | src/services/workspace-storage.ts:678-707 | one part write with each refusal, the cap test and the new counter |
| Upload.UploadSession.Finish | src/services/workspace-storage.ts:350-407 | completion from any listing order equals the numeric concatenation, with each refusal and the session removed on success or when too large |
| Upload.SortIsNumeric | src/services/workspace-storage.ts:362 | filtering and sorting any listing gives the parts in numeric order |
| Upload.CounterIsExact | src/services/workspace-storage.ts:694-705 | after any writes, to new sessions and to ones without a counter, the counter is the bytes stored and within the cap |
| Upload.WriteAcceptedExactly | src/services/workspace-storage.ts:678-707 | a write is accepted exactly when number and size are in range and the parts with it fit the cap; the counter is then their sum, and any other write changes nothing |
| Upload.CompletesExactly | src/services/workspace-storage.ts:350-407 | when completion succeeds, with what content, each refusal, and when the session is gone |
| Upload.FilesHoldLastContent | src/services/workspace-storage.ts:704 | each part file holds the last accepted write to that part |
| Upload.CompletionJoinsLastWrites | src/services/workspace.service.ts:443-472 | completing a session created empty joins the last writes in part order, whatever the arrival order, is never too large, and reports no parts exactly when none was accepted |
| OverlaySwap.OverlayFiles.Restore | src/executors/apptainer-cli-executor.ts:271-290 | the swap on the three paths for every combination of step outcomes |
| OverlaySwap.CliSafeExactlyWhenLiveInPlace | src/executors/apptainer-cli-executor.ts:271-290 | after any prefix and any failing step the old content is in place or aside, or the snapshot is in place, if and only if the live content was at the overlay path to begin with |
| OverlaySwap.CompletedCliSwapLeavesSnapshot | src/executors/apptainer-cli-executor.ts:276-290 | a completed swap leaves exactly the snapshot and neither sibling |
| OverlaySwap.CliCompletesExactly | src/executors/apptainer-cli-executor.ts:271-290 | which step failures a completed swap can have met: only the move aside, and only over an overlay the snapshot can replace |
| OverlaySwap.SecondRestoreLosesTheOldContent | src/executors/apptainer-cli-executor.ts:276-286 | a crash between the renames and a second restore whose copy fails leave nothing |
| OverlaySwap.SshSafeExactlyWithoutLeftover | src/executors/ssh-executor.ts:246-252 | from live content in place the shell line is crash-safe exactly when no directory is left at the temporary path, or the snapshot equals the live content |
| OverlaySwap.CompletedSshSwap | src/executors/ssh-executor.ts:246-252 | reported success means the snapshot is in place exactly when the old overlay was moved aside or is no directory; otherwise the old one stays with the snapshot beneath it |
| OverlaySwap.SshCompletesExactly | src/executors/ssh-executor.ts:246-252 | with no leftover directory, which failures the shell line reports success over |
| ShellQuote.EnvOpts | src/executors/ssh-executor.ts:467-475 | the loop renders exactly the entries with valid names, in order |
| ShellQuote.ValidNames | src/executors/shell-quote.ts:13-21 | the names accepted, character by character |
| ShellQuote.QuoteRoundTrips | src/executors/shell-quote.ts:9-11 | in any word position, before any text, the shell reads the quoted form as exactly the string |
| ShellQuote.QuoteRoundTripsExactlyWithoutNul | src/executors/shell-quote.ts:9-11 | a quoted argument is read back as one word with its value exactly when it has no NUL |
| ShellQuote.LineTokens | src/executors/ssh-executor.ts:276-284 | any template of fixed words, operators and quoted values is read back part by part |
| ShellQuote.ExecDeliversCommand | src/executors/ssh-executor.ts:318-371 | the host shell passes one argument to the inner shell, which changes to exactly the directory and then reads exactly the command |
| ShellQuote.WriteFileDeliversPath | src/executors/ssh-executor.ts:276-284 | after two readings directory, content and path each arrive unchanged as one word |
| ShellQuote.ParentIsTheDirectory | src/executors/ssh-executor.ts:276 | the parent is the path's directory, and empty exactly for a file directly under `/` |
| ShellQuote.EnvTextMeansEnvArgs | src/executors/ssh-executor.ts:467-475 | read by the shell, the rendered options are the other executor's argument list |
| ShellQuote.StartArguments | src/executors/ssh-executor.ts:119-187 | with any environment, resource limits and seed binding, the start line is read as the flags, those options, and overlay, image and name unchanged |
| OutputCap.Collector.OnData | src/executors/apptainer-cli-executor.ts:513-532 | one data event against the shared budget |
| OutputCap.KeepsFirstBytes | src/executors/apptainer-cli-executor.ts:513-532 | both streams keep exactly their share of the first bytes that arrived, up to the cap, or all of them when the cap is 0 |
| OutputCap.ReportsTruncationExactly | src/executors/apptainer-cli-executor.ts:513-532 | truncation is reported exactly when there is a cap and more arrived, or an empty event met a spent budget |
| AuditChain.AuditLog.Record | src/services/log.service.ts:51-87 | the appended row links to the last row not purged; a failed insert changes nothing |
| AuditChain.AuditLog.PurgeBefore | src/scheduler/reaper.ts:75-88 | exactly the rows created before the cutoff are marked |
| AuditChain.ChainLinks | src/services/log.service.ts:71-87 | over every run, purged rows come first, and a row holds its predecessor's hash, or nothing exactly when every earlier row was purged at its insertion |
| AuditChain.PurgedExactlyByACutoff | src/scheduler/reaper.ts:75-88 | over every run a row is marked purged exactly when some later purge had a cutoff past its time |
| AuditChain.HashedTextSplits | src/services/log.service.ts:61-75 | previous hash and canonical text can be told apart in the hashed text |
| AuditChain.LastHashPinsSegment | src/services/log.service.ts:71-75 | two valid segments with the same last hash agree row by row as far as the shorter goes, if the hash has no collision among their rows |
| AuditChain.LastHashPinsWholeChain | src/services/log.service.ts:71-75 | two whole chains with the same last hash are equal |
| AuditChain.RunRowsAreSegments | src/services/log.service.ts:51-87 | what a run writes between two restarts is such a segment |
| AuditChain.LastHashPinsRunExactlyWithoutRestart | src/services/log.service.ts:71-87 | the last hash of a run determines all its rows, as the final rows of any run ending in the same hash, if and only if no record after the first found every earlier row purged |
| AuditChain.RestartDropsHistory | src/scheduler/reaper.ts:75-88 | a run with a restart ends in the same hash as the run that begins there |
| AuditChain.PurgedHistoryIsNotPinned | src/scheduler/reaper.ts:75-88 | two runs, record, purge, record, end in the same hash with different first rows |
| PtyBudget.InputBudget.InputAllowed | src/routes/pty.ts:226-234 | the window test with its reset, charging refused bytes too |
| PtyBudget.InputBudget.OnInput | src/routes/pty.ts:331-340 | an accepted frame is added to the session total, a refused one is not |
| PtyBudget.FramePassesExactly | src/routes/pty.ts:226-234 | after any trace, a frame passes exactly when everything offered since its window opened, refused or not and itself included, is within the rate, and what passed before with it within the total |
| PtyBudget.AnySecondWithinTwiceTheRate | src/routes/pty.ts:226-234 | for every trace with a clock that does not go back, any half-open second holds at most twice the per-second limit |
| PtyBudget.TwiceTheRateIsReached | src/routes/pty.ts:226-234 | the factor two is reached |
| PtyBudget.SessionWithinTotal | src/routes/pty.ts:226-234 | a session never accepts more than its total |
| PtyBudget.PtyServer.Accept | src/routes/pty.ts:147-166 | the limit test and the increment as one step |
| PtyBudget.PtyServer.Settle | src/routes/pty.ts:236-239 | only the first end of a session decrements |
| PtyBudget.CountersAreExact | src/routes/pty.ts:79-90 | each counter is exactly the container's unsettled sessions, within the limit, and zero leaves no entry |
| PtyBudget.UpgradeAcceptedExactlyBelowLimit | src/routes/pty.ts:147-166 | an upgrade is accepted exactly while the container has fewer unsettled sessions than the limit |
| PtyBudget.EndSettlesOne | src/routes/pty.ts:236-239 | any end settles its own session only, and a second end changes nothing |
| Truncate.CutCharacterBecomesOneReplacement | src/utils/truncate.ts:40 | any proper part of an encoded character decodes to one U+FFFD |
| Truncate.EncodingRoundTrips | src/utils/truncate.ts:40 | decoding inverts encoding |
| Truncate.CutDecodes | src/utils/truncate.ts:40 | cutting bytes and decoding keeps the whole characters that fit and marks a cut one |
| Truncate.HeadIsTheFirstLines | src/utils/truncate.ts:34-36 | the head is the first maxLines lines, or all, and ends where a line does |
| Truncate.TruncatedIsLongestPrefix | src/utils/truncate.ts:25-42 | untruncated and unchanged exactly within both caps; else the content is the longest whole-character part of the first lines that fits, plus one U+FFFD exactly when a character was cut |
| Truncate.TruncatedWithinCaps | src/utils/truncate.ts:21-43 | at most maxLines lines and maxBytes + 2 bytes |
| Truncate.ByteBoundIsReached | src/utils/truncate.ts:38-41 | for every cap of at least one byte some input ends two bytes over it |

## Left out

- ResumesWhereItWasExactly: the container's own guest does not write after the release, which a stop that could not be spawned would allow; StepKeepsRunningAliveExactly and the other step theorems have no such limit.
- Ownership and administrator checks, request validation, HTTP routes, metrics and rate limits: no state of their own.
- Quotas on counts (assertCanCreate, assertImageInstanceLimit) and quota editing: single comparisons; the snapshot limit is modelled because snapshot depends on it.
- Overlapping quota checks: check and write are one step, so two concurrent admissions are not modelled, nor are overlapping writes of one upload session.
- A locked section is one atomic step; ContainerLock shows sections of one container cannot overlap, but statements of different containers' sections, and the unlocked steps of a container within its own locked sections, are not interleaved.
- The reaper's loop over rows is one sweep per container; the latest session time is a parameter, which in the code is an end, or the start of a session still open.
- Input and output mounts, their replay, and workspace export and seeding: file copying outside the proved properties.
- `LIKE 'auto-%'` follows SQLite, which ignores ASCII case; PostgreSQL's LIKE does not.
- Columns no decision reads (error_message, last_stopped_at, node, description) and the overlay link of a snapshot row.
- The SSH executor's snapshot paths and its unchecked copy status: path distinctness is proved of the command-line executor's paths.
- Token signing, hashing and expiry: a token is its fresh identifier; an expired token is refused before the steps modelled here.
- SHA-256: any function to 64 hexadecimal digits, without collisions on the rows compared. Audit rows from before the chain, which have no hash, and concurrent records.
- Symbolic links and real paths in the storage layer, Windows separators, and locale-aware name order, of which only the resulting listing order is used.
- grep and its line matcher; `find` takes its glob test as a parameter, and Glob proves what that test means.
- Names in a listing are taken as proper names, so a path is the list of its names; the joined text is not modelled in the walk.
- Strings with unpaired surrogates in Truncate, and fractional or negative caps.
- Shell text outside quoting, blanks, words and the operators used: expansions, here-documents, double quotes, comments. The reader rejects such text, so a result means none of them applies.
- A rename onto a directory is allowed when the outcome says so; that the directory is empty is not checked.
- Deleting a user, whose rows the database drops by cascade while instances and files stay: the tables here keep their container rows.
- Staging, target preparation and commit of an upload, and the sweep of stale sessions.
- Timers, keep-alive and output of terminal sessions; each way a session ends is one event.
