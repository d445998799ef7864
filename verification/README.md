# treeman, modelled and proved

treeman keeps one set of databases per git worktree. Its daemon watches the
worktrees, rebuilds databases when inputs or HEAD change, and streams events to
clients. This project models the parts of it where the order of things decides
correctness, together with the parsers and printers they rest on, and proves what
those parts promise over every input or every interleaving.

- `FinalizeSlots`, `FinalizeProtocol`, `PendingRequests`, `RequestOrigins`,
  `ClaimReleases`, `Draining`, `LostRequests`, `PrepareLocks`, `HeadWatcher`: the claim,
  queue, coalesce, release and replay protocol of finalize runs, where its requests come
  from, how it comes to rest, what a panic can make it lose, the teardown marks, the
  prepare mutexes, and the HEAD watcher that feeds them. The protocols are labelled
  transition systems; a label is one critical section, one call or one check, and the
  theorems quantify over all finite runs.
- `LikeMatch`, `PayloadFilters`, `EventQueue`: the payload filter of event
  subscriptions beside the stored query it mirrors, and their drop-oldest buffer.
- `TarReader`, `TarHeaders`, `TarFormat`, `TarArchive`, `TarWriter`: the release archive
  reader of the Composer bootstrap, over a stream that may return any chunking, its exact
  set of accepted archives, byte by byte, and a writer for the ustar Interchange Format (pax utility, POSIX.1-2017)
  that it reads back.
- `CommitGraph`, `BranchPrune`, `RefTracks`: merged-branch pruning and the auto-fetch
  fast path over an arbitrary commit graph. Git is a set of answers, any of which may
  be missing; where a theorem needs an answer to be right it says so.
- `ShellQuote`, `Porcelain`, `EnvFile`, `RequestFraming`, `Text`: shell quoting
  against sections 2.2.1 and 2.2.2 of the POSIX.1-2017 Shell Command Language,
  `git status --porcelain -z`, dotenv files, newline framing.
- `PlanLanes`, `IncludeWalk`, `MainOverlay`: parallel plan lanes, config includes, and
  the main worktree's overlay with its validator.

Stateful code is a class or a method with loops, proved against a function of its
inputs or its old state; the lemmas are about that function. Reads of files, git,
clocks, the environment and the network are parameters (samples, answers, maps).

## Where the code and its own description differ

- `oldestCommonAncestor` is documented as a safe lower bound for any number of fork
  points. `git merge-base` with three or more arguments returns a best common ancestor
  of the first one and a hypothetical merge of the others, which need not be an
  ancestor of every fork point. `BranchPrune.BatchMissesOldest` gives such a history;
  `BranchPrune.BatchCompleteExactlyWhen` says exactly when the batched scan is
  complete. Nothing unmerged is deleted either way (`BranchPrune.PruneIsSafe`).
- A queued or dispatched change can be dropped without a teardown: when a run panics,
  the rest of its goroutine's list goes with it, be it the event's own list or the one
  a release handed to a replayer. `LostRequests.KeptExactly` says which requests are
  safe from that: those for which some request of their event that covers them is for
  HEAD, all databases or database 0, and every request before that one covers them too.
  `LostRequests.UnguardedIsLost` builds a run that loses any other.
- `MarkFinalizeInFlight` asks its caller to release on every exit. A panic while the
  cross-process lock is taken comes after the claim and before the release is deferred,
  and one while it is given back comes before the slot is unmarked; either leaves the
  slot taken for good. `Draining.LeakingRun` is such a run;
  `ClaimReleases.ReleasedOnceExactly` and `Draining.DrainsExactly` say that
  nothing else does.
- `Parse` ignores the scanner's error, so a dotenv line of 16 MiB or more silently
  drops itself and everything after it (`EnvFile.LongLineIsDropped`). `EnvFile.DotenvRoundTrip` states what is read
  in every case, and `EnvFile.PlainRoundTrip` that the file reads back exactly when
  the dropped entries would have left nothing new: for distinct keys, exactly when
  every line fits.
- An include cycle is not always reported. `IncludeWalk.CycleReportedExactly`: it is
  exactly when nothing included before it, at any file along the way, leads to a broken
  file. `IncludeWalk.BrokenHidesCycle` has an input on either side.
- The live payload filter is described as matching the stored query. The stored one
  wraps every needle in `%…%`, the live one only those without a wildcard, and SQLite's
  LIKE ignores the case of ASCII letters while the live matcher does not.
  `PayloadFilters.LiveAgreesExactly` says for which needles the two select the same
  ASCII payloads; `PayloadFilters.LiveMisses` has an input for either difference.

## Model

| member | source | states |
|---|---|---|
| `PendingRequests.NoLostChange` | internal/daemon/finalize.go:657-701 | in every interleaving, each dispatched watch or HEAD request was covered by a run that took the slot after it was dispatched, or something that covers it still waits in a queue, a list or at a claim, or the last such thing was discarded while a teardown of the path was marked, or fell with a panicking goroutine |
| `PendingRequests.PendingStep` | internal/daemon/finalize.go:128-139 | no single step loses a waiting request: it still waits, is served, or is visibly dropped |
| `Draining.ServedAtRest` | internal/daemon/finalize.go:671-701 | once no goroutine is left, no mark is left and no slot but the leaked ones, and every request ever dispatched was served, is queued on a leaked slot, or the last thing that covered it was torn down or lost to a panic |
| `LostRequests.UnguardedIsLost` | internal/daemon/finalize.go:691-699 | for every event and every request of it that is not guarded there is a run in which panics lose it, in the event's own list or in the list of a replayer: not served, nothing waiting, and nothing discarded in a teardown since |
| `LostRequests.GuardedIsKept` | internal/daemon/state.go:431-442 | in every run, panics included, a guarded request was served, or waits where no panic reaches it, or the last thing that held it so was discarded while a teardown of the path was marked |
| `LostRequests.KeptExactly` | internal/daemon/finalize.go:657-701 | every run leaves a request of an event served, waiting or torn down, its last safe cover discarded, if and only if some request of the event that covers it is for HEAD, all databases or database 0, and all requests before that one cover it too |
| `LostRequests.NoPanicNoLoss` | internal/daemon/finalize.go:657-701 | in every run without a panic each request was served after it was dispatched, or something that covers it still waits, or the last such thing was discarded while a teardown of the path was marked |
| `LostRequests.HeadIsNeverLost` | internal/daemon/dispatch.go:735-739 | a HEAD change is served, waiting or torn down in every run, panics included |
| `FinalizeProtocol.Exclusion` | internal/daemon/state.go:404-442 | in every run a path has at most one finalize holder and at most one teardown; a slot is taken while it has a holder, a mark exactly while it has a teardown |
| `FinalizeProtocol.ClaimsAreReleased` | internal/daemon/state.go:404-442 | claims and releases of a path alternate in every run |
| `ClaimReleases.ReleasedOnceExactly` | internal/daemon/finalize.go:657-670 | a claim that is no longer running was released, once and by its own goroutine, if and only if its run did not panic while taking or giving back the cross-process lock, whichever of the other exits it took; after such a panic the slot stays taken |
| `FinalizeProtocol.LeakedExactly` | internal/daemon/finalize.go:657-670 | a slot is taken and has no holder exactly when some goroutine panicked in its lock |
| `Draining.LeakingRun` | internal/daemon/finalize.go:657-670 | an RPC finalize that panics in its lock leaves the daemon at rest with its slot taken |
| `FinalizeProtocol.MarksAreCleared` | internal/daemon/finalize.go:936-940 | the same for teardown marks over the primary, orphan and retry entry points |
| `Draining.InternalStepsEnd` | internal/daemon/finalize.go:783-795 | every step the daemon takes by itself decreases a measure: replaying and queueing again cannot go on forever |
| `Draining.NeverStuck` | internal/daemon/finalize.go:657-670 | while a goroutine or teardown is left, leaked slots or not, the daemon has a step of its own to take |
| `Draining.CanDrain` | internal/daemon/finalize.go:671-701 | every run can be carried to where no goroutine is left by the daemon's own steps, leaking no slot on the way |
| `Draining.DrainsExactly` | internal/daemon/finalize.go:170-174 | a run can be carried to where no goroutine, slot or mark is left if and only if no goroutine of it panicked in its lock |
| `FinalizeSlots.CoalescingIsExact` | internal/daemon/state.go:380-402 | for every sequence of requests on a busy slot the queue covers exactly the union of the requested databases, "all" never shares it, each entry is the newest request it absorbed, and the latest HEAD request is kept |
| `FinalizeSlots.HandbackIsOrdered` | internal/daemon/state.go:431-442 | a release returns the latest HEAD rerun alone, or every queued watch rerun exactly once in strictly increasing index order |
| `FinalizeSlots.EnqueueCovers` | internal/daemon/state.go:381-393 | queueing keeps everything the entry covered and covers the new request |
| `FinalizeSlots.HandbackCovers` | internal/daemon/state.go:431-442 | the replayed list covers everything the entry covered |
| `FinalizeSlots.ReplaysTheQueue` | internal/daemon/finalize.go:681-699 | what is replayed is what was queued, unchanged: the HEAD request alone, or every queued watch request once, in index order |
| `RequestOrigins.RequestsOriginate` | internal/daemon/finalize.go:681-699 | in every run whatever takes the slot or is queued on it was dispatched earlier on that path, with the same repository, environment and run id, and for the same database unless it was widened to all because another event had asked for all |
| `RequestOrigins.TeardownStopsReplay` | internal/daemon/finalize.go:682-694 | a replayer starts no request while a teardown of its path is marked |
| `FinalizeSlots.InFlight.MarkTeardownInFlight` | internal/daemon/state.go:306-314 | marks the path, and succeeds exactly when it was not marked |
| `FinalizeSlots.InFlight.UnmarkTeardownInFlight` | internal/daemon/state.go:317-321 | clears this path's mark and no other |
| `FinalizeSlots.InFlight.MarkFinalizeInFlight` | internal/daemon/state.go:368-372 | takes a free slot with empty queues, and leaves a busy one untouched |
| `FinalizeSlots.InFlight.MarkFinalizeInFlightOrQueue` | internal/daemon/state.go:380-394 | takes a free slot or queues the watch request on the busy one, keeping every queue well keyed |
| `FinalizeSlots.InFlight.MarkFinalizeInFlightOrQueueHead` | internal/daemon/state.go:398-402 | takes a free slot or replaces the queued HEAD request |
| `FinalizeSlots.InFlight.UnmarkFinalizeInFlight` | internal/daemon/state.go:431-442 | frees the slot and hands back its queue, nothing for a path that is not in flight |
| `PrepareLocks.LockTable.PrepareLock` | internal/daemon/state.go:606-615 | the first caller creates a path's mutex, later ones get the same, and no two paths share one |
| `PrepareLocks.OnePrepareAtATime` | internal/daemon/state.go:599-604 | in every interleaving two callers inside the section work on different worktrees and hold different mutexes |
| `PrepareLocks.WaitsForAHolder` | internal/daemon/state.go:599-604 | a caller can always move, or waits for a caller of the same worktree that can unlock |
| `HeadWatcher.Watcher.Start` | internal/daemon/head_watcher.go:93-100 | seeds the memory from the first reads and calls nobody |
| `HeadWatcher.Watcher.Fire` | internal/daemon/head_watcher.go:150-187 | one firing's new memory and its call, if any |
| `HeadWatcher.FiresExactly` | internal/daemon/head_watcher.go:157-186 | a sample causes a call exactly when no operation is in progress and either one was before, or a readable HEAD differs from the newest readable one; the call carries the HEAD that sample read |
| `HeadWatcher.MissesNothing` | internal/daemon/head_watcher.go:150-187 | after every clean sample the HEAD remembered is the one read at the latest call, or still the seed if there was none |
| `LikeMatch.LikeMatch` | internal/daemon/dispatch.go:451-475 | terminates and returns true exactly when the text splits into one fitting piece per pattern symbol |
| `LikeMatch.BareNeedleIsSubstring` | internal/daemon/dispatch.go:408-411 | a wildcard-free needle selects exactly the payloads that contain it |
| `PayloadFilters.LiveAgreesExactly` | internal/daemon/dispatch.go:404-411 | over ASCII payloads, a nonempty needle selects the same live as in the stored query, which wraps it and ignores letter case, if and only if it is not ASCII, or has no ASCII letter and either no wildcard or a `%` with nothing but `_` before its first and after its last one |
| `PayloadFilters.WrappingExactly` | internal/daemon/dispatch.go:408-411 | over all payloads and letter case apart, wrapping a needle changes nothing if and only if it has no wildcard or has such a `%` |
| `PayloadFilters.LiveMisses` | internal/store/events.go:86-89 | two needles and payloads the stored query finds and the live filter does not, one for the wildcard and one for letter case |
| `PayloadFilters.CaseMattersExactly` | internal/daemon/dispatch.go:451-475 | over ASCII payloads, ignoring letter case changes what a pattern matches if and only if the pattern has an ASCII letter and is itself ASCII |
| `EventQueue.QueueIsSound` | internal/daemon/dispatch.go:318-347 | in every interleaving the buffer is within capacity and is the contiguous newest part of what was sent, and deliveries are an in-order subsequence of it |
| `EventQueue.LatestIsDelivered` | internal/daemon/dispatch.go:318-373 | once no offer is under way and the buffer is drained, the last event delivered is the last event sent |
| `EventQueue.OnlyOffersDiscard` | internal/daemon/dispatch.go:333-347 | a step that discards an event is an offer's drop, the event is the oldest in the buffer, and however the run goes on the offer's own event is under way or has landed later than everything sent before |
| `EventQueue.OfferLands` | internal/daemon/dispatch.go:333-347 | with any number of receives in between, an offer lands within three operations of its own and discards at most one event |
| `TarReader.ReadExactly` | composer/Bootstrap.php:317-328 | for every chunking returns exactly the next bytes asked for, or fails on a reliable stream only if it is too short |
| `TarReader.CopyOut` | composer/Bootstrap.php:279-292 | consumes exactly the entry's bytes and, for a binary, leaves exactly them in its file |
| `TarReader.Turn` | composer/Bootstrap.php:243-297 | one turn of the loop does what the specification says about the remaining bytes, whatever the chunking |
| `TarReader.Entry` | composer/Bootstrap.php:270-296 | the same for an entry's contents and padding |
| `TarReader.Extract` | composer/Bootstrap.php:233-306 | terminates on every input; a normal return has the files of reading the archive in one piece, and with reliable reads and writes returns exactly when that does |
| `TarReader.NextConsumes` | composer/Bootstrap.php:282-293 | a turn that goes on consumes at least a block, and whole blocks |
| `TarReader.EntriesAreAligned` | composer/Bootstrap.php:243-293 | on any input every header is read at a multiple of 512 |
| `TarHeaders.OctalExactly` | composer/Bootstrap.php:308-315 | the fields read as numbers are exactly blanks, at least one octal digit, and blanks, and the number is the digits' at their places |
| `TarHeaders.HeaderReadExactly` | composer/Bootstrap.php:250-257 | a block is read as a header exactly when its checksum field says the sum of its other 504 bytes and eight spaces and its size field is a number; a wrong sum is reported as a bad checksum |
| `TarHeaders.HeaderSaysExactly` | composer/Bootstrap.php:254-257 | name, prefix, type, size and link read from a header are those its bytes say, both ways |
| `TarArchive.PermittedExactly` | composer/Bootstrap.php:250-278 | the entries the reader takes are, by their bytes, those with a good checksum, no prefix, and either the empty stage directory or an allowlisted plain file that is no link, the binaries not empty |
| `TarArchive.CorruptHeaderFails` | composer/Bootstrap.php:251-253 | a nonzero block with a wrong checksum where an entry starts makes extraction fail |
| `TarArchive.AcceptsExactly` | composer/Bootstrap.php:233-306 | normal return if and only if the destination has neither binary and the stream starts with permitted entries of distinct names, both binaries among them, at most 256 MiB of headers and contents, and 1024 zeros; and then the files gain exactly the binaries' bytes |
| `TarArchive.NormalReturnMeans` | composer/Bootstrap.php:258-302 | a normal return means each binary is an entry of such an archive exactly once, its file holds exactly that entry's bytes, and no other file changed |
| `TarFormat.AcceptsItems` | composer/Bootstrap.php:242-302 | any acceptable list of readable entries, laid out and terminated, is extracted |
| `TarFormat.FinishHasItems` | composer/Bootstrap.php:242-302 | conversely, whatever was extracted was such a list |
| `TarWriter.HeaderReadsBack` | composer/Bootstrap.php:250-257 | name, type, size, empty prefix and link of any written ustar header are read back, checksum included |
| `TarWriter.FieldReadsBack` | composer/Bootstrap.php:308-315 | octal digits followed by NULs or spaces read back as the number |
| `TarWriter.TarRoundTrip` | composer/Bootstrap.php:233-306 | any archive of distinct allowed members with both binaries, non-empty and within the cap, is extracted, adding exactly the two binaries' bytes |
| `BranchPrune.PruneGoneLocals` | internal/daemon/branchprune.go:55-104 | the deleted branches, for every pattern of failed queries and deletions |
| `BranchPrune.SquashMergedSuspects` | internal/daemon/branchprune.go:200-250 | the suspects whose patch-id the shared scan lists, none when a needed query failed |
| `BranchPrune.DefRefPatchIdIndex` | internal/daemon/branchprune.go:282-302 | the scan is bounded by the common ancestor query, or unbounded when it has no answer |
| `BranchPrune.PruneIsSafe` | internal/daemon/branchprune.go:55-104 | every deleted branch is not the default, has a gone upstream, is not checked out, and is reachable from the default ref or equal as one patch to a non-merge commit of it |
| `BranchPrune.PrunedExactly` | internal/daemon/branchprune.go:55-104 | a branch is pruned if and only if it is listed, not the default, has a gone upstream, is in no worktree, its deletion succeeds, and it is in the merged set or its fork point is known, at most 5000 commits back, and the one scan, bounded by the fork points of all such suspects, lists its patch-id |
| `BranchPrune.SquashMergedMember` | internal/daemon/branchprune.go:200-250 | a suspect is returned if and only if its fork point and patch-id are known and the shared scan lists that patch-id |
| `BranchPrune.BatchFindsEverySingle` | internal/daemon/branchprune.go:252-258 | if the shared bound is an ancestor of the branch's fork point, the batch returns it whenever the one-branch check does |
| `BranchPrune.BatchCompleteExactlyWhen` | internal/daemon/branchprune.go:282-302 | whatever the commits' diffs, the batch keeps up with the one-branch check if and only if the non-merge history below the shared bound lies below the branch's fork point |
| `BranchPrune.BatchMissesOldest` | internal/daemon/branchprune.go:321-338 | a history with three fork points in which every query is answered rightly, diffs included, a squash-merged branch is pruned when listed alone, and kept when listed with the other two |
| `RefTracks.BranchTrackStates` | internal/daemon/autofetch.go:315-345 | the loop computes the line-by-line reading of the listing |
| `RefTracks.ListingReadsBack` | internal/daemon/autofetch.go:308-345 | every listing git prints reads back as the states it was printed from, except that a last branch without upstream is skipped |
| `RefTracks.CountsDecide` | internal/daemon/autofetch.go:375-388 | not behind means the branch contains its upstream and not ahead means the upstream contains the branch, both ways |
| `RefTracks.Checkout.AdvanceFF` | internal/daemon/autofetch.go:433-461 | the tip moves to the upstream exactly on a clean tree that git fast-forwards; the recorded reason in every case |
| `RefTracks.Checkout.SyncWorktree` | internal/daemon/autofetch.go:401-428 | tip and reason of the fork-based path in ff mode |
| `RefTracks.Checkout.SyncFromTracks` | internal/daemon/autofetch.go:357-390 | tip and reason of the listing-based path in ff mode; a branch missing from the listing takes the fork-based path |
| `RefTracks.FastRefinesSlow` | internal/daemon/autofetch.go:357-390 | for every repository state both paths leave the branch at the same commit, and the old tip is an ancestor of the new one |
| `RefTracks.SyncMovesExactly` | internal/daemon/autofetch.go:357-461 | both paths move the tip to the upstream's when the path is there, the branch has an upstream, the tree is clean and git fast-forwards, and leave it alone in every other case |
| `RefTracks.ReasonsExactly` | internal/daemon/autofetch.go:401-461 | which skip reason the fork-based path leaves in each case |
| `RefTracks.SkipsDifferExactly` | internal/daemon/autofetch.go:371-388 | the two paths record different reasons if and only if the branch is listed, has an upstream and is up to date or diverged, in the named cases of the tree's state, git's answer and the reason already kept; moving the tip clears the reason |
| `RefTracks.ParsedSyncRefinesSlow` | internal/daemon/autofetch.go:308-390 | end to end: every entry parsed from git's printed listing is the branch's true state, and deciding from it leaves the tip where the fork-based path would |
| `ShellQuote.ShellSingleQuote` | internal/hooks/hooks.go:350-363 | the loop writes the quoted form of the string |
| `ShellQuote.ShellJoin` | internal/hooks/hooks.go:340-346 | the quoted arguments joined by single spaces |
| `ShellQuote.RenderContainerAction` | internal/hooks/hooks.go:328-338 | one joined command per step, joined by `&&`, empty for no steps |
| `ShellQuote.ReadQuoted` | internal/hooks/hooks.go:350-363 | a POSIX shell reads a quoted string as one word, itself, whatever it holds |
| `ShellQuote.ShellRoundTrip` | internal/hooks/hooks.go:340-346 | tokenising the joined line gives back the arguments, for every list of strings |
| `ShellQuote.ContainerActionRoundTrip` | internal/hooks/hooks.go:328-338 | a rendered container action, split at its unquoted `&&`, is exactly one exec argument list per step, in order, with the engine, the working directory if there is one, the container and the step for a shell |
| `IncludeWalk.Config.MergeYamlFile` | internal/config/config.go:2423-2466 | terminates on every include graph, with the outcome of the walk and exactly what decoding the applied files wrote, in order, a last one that failed included |
| `IncludeWalk.WalkSucceedsExactly` | internal/config/config.go:2447-2458 | loading succeeds if and only if no include chain from the root repeats a file and none meets a broken one; a reported cycle is real |
| `IncludeWalk.CycleReportedExactly` | internal/config/config.go:2447-2458 | on every include graph a cycle is reported if and only if a chain from the root comes back to one of its files and no include listed before it, at any file along it, leads to a broken file; so with no broken file in reach, exactly when there is one, through the root included |
| `IncludeWalk.BrokenHidesCycle` | internal/config/config.go:2455-2457 | a broken file included before a cycle hides it, one included after it does not |
| `IncludeWalk.ErrorsNameFiles` | internal/config/config.go:2452-2464 | a cycle error names a file the chain comes back to, any other a broken file within reach |
| `IncludeWalk.WalkIsPostOrder` | internal/config/config.go:2447-2465 | files are applied in depth-first post-order, each after the blocks of its includes |
| `IncludeWalk.IncluderWins` | internal/config/config.go:2436-2465 | the including file's keys win over its includes', and theirs over what was there before |
| `RequestFraming.ReadRequestLine` | internal/daemon/serve.go:74-93 | on a reliable connection returns the next newline-terminated piece or unterminated tail, for every buffer size; refuses exactly the pieces over the limit, having read at most one buffer more; end of stream only when nothing is left |
| `RequestFraming.ReadRequests` | internal/daemon/serve.go:39-49 | on any connection the requests handed out are the stream's first pieces, and a refusal means the next is too long; on one that does not fail they are exactly the pieces up to the first that is too long |
| `RequestFraming.PiecesAreTheFrames` | internal/daemon/serve.go:74-93 | the pieces concatenate to the stream and each ends at its only newline, except perhaps the last |
| `RequestFraming.FramesAreUnique` | internal/daemon/serve.go:74-93 | a stream has only one such division |
| `PlanLanes.PlanIsDeterministic` | internal/daemon/plan.go:100-127 | whatever the interleaving, each lane ran through its first failure and the result list is the same |
| `PlanLanes.StepsEnd` | internal/daemon/plan.go:108-118 | every step uses up a submitted task, so every schedule ends |
| `PlanLanes.Collect` | internal/daemon/plan.go:122-126 | the lanes' results concatenated in submission order |
| `PlanLanes.FirstFailure` | internal/daemon/plan.go:130-137 | empty exactly when all results are ok, else the message of the first failure |
| `PlanLanes.EndingsAreReported` | internal/daemon/plan.go:174-186 | each result carries its task's kind and ending, a panic as a failure with its text; all tasks of a lane before its last result returned, and the lane ends at its last task or at a failure |
| `PlanLanes.AllOkExactly` | internal/daemon/plan.go:100-137 | all results of a finished plan are ok if and only if every submitted task returned without error or panic, and then every one ran |
| `Porcelain.EntryRows` | internal/gitx/gitx.go:181-198 | the loop computes the rows of the entries, stepping over rename origins |
| `Porcelain.StageRows` | internal/gitx/gitx.go:178-200 | the same from the raw output |
| `Porcelain.PorcelainRoundTrip` | internal/gitx/gitx.go:178-200 | any list of records printed in the -z form parses into exactly the expected rows in order, whatever an origin path looks like |
| `EnvFile.ExpandVars` | internal/envfile/envfile.go:154-178 | the loop computes the one-pass expansion |
| `EnvFile.ExpandsOnce` | internal/envfile/envfile.go:154-178 | the expansion is the text's literal and reference segments, each replaced once; inserted text is never looked at again |
| `EnvFile.SegmentsExist` | internal/envfile/envfile.go:159-171 | every text has such segments |
| `EnvFile.SegmentsUnique` | internal/envfile/envfile.go:159-171 | and only one way to have them |
| `EnvFile.ReferenceMeans` | internal/envfile/envfile.go:162-169 | a reference takes the file's variable before the process's, the process's only if it is not empty, and stays as it is otherwise |
| `EnvFile.ParseLine` | internal/envfile/envfile.go:50-66 | the effect of one line, skipped lines included |
| `EnvFile.Parse` | internal/envfile/envfile.go:45-69 | the effect of every line the scanner delivers, in order |
| `EnvFile.LineReadsBack` | internal/envfile/envfile.go:129-142 | KEY="value" assigns the expansion of value, inner quotes and `#` included |
| `EnvFile.AssignmentReads` | internal/envfile/envfile.go:55-66 | any assignment to a valid key sets it to the expansion of its value without quotes or comment |
| `EnvFile.ExportIsIgnored` | internal/envfile/envfile.go:54 | `export` in front of an assignment changes nothing |
| `EnvFile.QuotesGo` | internal/envfile/envfile.go:131-136 | a value in single or double quotes is what is between them |
| `EnvFile.WordReads` | internal/envfile/envfile.go:129-142 | an unquoted word is its own value |
| `EnvFile.CommentGoes` | internal/envfile/envfile.go:137-140 | a comment after an unquoted word and the blanks before it are not part of the value |
| `EnvFile.OtherLinesAreSkipped` | internal/envfile/envfile.go:50-58 | blank lines, comments and lines without `=` assign nothing |
| `EnvFile.BadKeyIsSkipped` | internal/envfile/envfile.go:59-62 | a line whose key is no name assigns nothing |
| `EnvFile.KeysAre` | internal/envfile/envfile.go:111-127 | names are ASCII letters, digits and underscores, not starting with a digit |
| `EnvFile.CarriageReturnGoes` | internal/envfile/envfile.go:47-50 | lines may end in a carriage return and a newline |
| `EnvFile.DotenvRoundTrip` | internal/envfile/envfile.go:45-69 | any printed assignments read back, each expanded against the ones before it, up to the first line that does not fit the scanner |
| `EnvFile.PlainRoundTrip` | internal/envfile/envfile.go:45-69 | values free of `${` read back as the last-wins map if and only if every final value among the dropped entries was already the kept entries' value for its key; always if every line fits, and for distinct keys only then |
| `EnvFile.LongLineIsDropped` | internal/envfile/envfile.go:47-49 | a file with one assignment of a 16 MiB value reads as no variables |
| `MainOverlay.Config.ApplyOverlay` | internal/config/main_worktree_overlay.go:23-62 | the overlaid databases live in a fresh array whenever there is anything to overlay, and the old array keeps its contents |
| `MainOverlay.MainTemplateErrors` | internal/config/validate.go:77-93 | complains about exactly the branch-scoped databases whose main template mentions the slug, and only with the main worktree enabled |
| `MainOverlay.OverlaidFields` | internal/config/main_worktree_overlay.go:38-60 | field by field, what the overlay sets replaces the base and what it leaves unset inherits it; databases past its end are unchanged |
| `MainOverlay.ValidatorAgrees` | internal/config/validate.go:152-170 | the template the validator inspects is the one the overlay leaves in the database: the key prefix for a prefix-scoped engine, the name template otherwise |
| `MainOverlay.OverlayIsIdempotent` | internal/config/main_worktree_overlay.go:23-62 | applying the overlay twice is applying it once |
| `MainOverlay.AcceptedExactlyWhenSlugFree` | internal/config/validate.go:77-93 | the check passes if and only if every branch-scoped database ends up with a slug-free namespace |

## Left out

- Total exclusion of finalize and teardown: a teardown goes on when its wait times out, and an RPC finalize does not look at the mark.
- Cancel functions, start times and the watchdog of a finalize slot; a cancelled run is one that returns. The cross-process lock's own holders in other processes: taking it may last any time, or fail.
- PendingRequests.NoLostChange: served means that a covering run took the slot. Whether that run then gets the lock, succeeds, fails with a recorded error or is cancelled is outside the statement.
- Plain finalize callers that find the slot busy are dropped by design; they carry no guarantee.
- The dispatchers' checks before a goroutine is started (missing environment, teardown already marked): a request counts from the moment its goroutine exists.
- Create counters, watcher registration and the lifecycle watcher's reconcile.
- Time: debounce, tickers, deadlines and timeouts are steps that may happen at any moment; process death is not modelled.
- The HEAD watcher's firing is one atomic step; overlapping timers are not interleaved.
- SQLite's LIKE on payloads outside ASCII, where `_` is a character and not a byte.
- The event subscription's other filter fields, JSON encoding and the socket: they would only add easy members.
- Rebase mode of the worktree sync: its outcome is git's own.
- RefTracks.ListingReadsBack: names and upstreams neither start nor end in non-ASCII white space, which git permits and the parser would trim off the listing's ends, and counts are below 2^63; the ref digest is not modelled.
- RefTracks.Checkout.AdvanceFF: git's merge is an answer that agrees with the commit graph; event rows are not modelled.
- BranchPrune.PruneGoneLocals: git's listings are already split into rows; reading the default branch's name and the checked-out set are answers.
- Failures of fwrite and chmod in the archive reader appear only as "not reliable"; file modes, gzip itself and the download are not modelled.
- The host path of an action, which is joined without quoting.
- Invalid UTF-8: text is a sequence of Unicode scalar values, so rune-wise and byte-wise processing agree; in `Porcelain` an entry's length is counted in characters, which differs only for entries that are not records.
- IncludeWalk.Config.MergeYamlFile: paths are the cleaned absolute ones and a file's own keys are a flat map; what decoding writes, also when it fails, is given with the file, and YAML itself is not modelled.
- RequestFraming.ReadRequests: what is done with a request (JSON, dispatch, streaming) and read deadlines are not modelled.
- PlanLanes.PlanIsDeterministic: a task's ending is fixed per task; tasks of different lanes that influence each other are outside the statement.
- Engine drivers, `prepare`, the store, snapshots, slugs and ports, the MCP server, installers and generators.
