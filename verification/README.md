# Verification of the World Cup quiniela worker and its tools

A Dafny 4.11 model of the parts of the system whose correctness depends on whole runs,
on interleavings or on accumulating loops, with proofs of what they guarantee and, where
they guarantee less than their comments say, of exactly when they do.

`dafny verify dfyconfig.toml` checks everything. Nothing here runs the original program.

| file | models |
|---|---|
| `MatchSync.dfy`, `MatchSyncRuns.dfy`, `MatchSyncHistory.dfy` | the adaptive match-sync poller (`cmd/worker/match_sync_job.go`): the job as a class proved to perform one `Step` per tick, properties of whole runs, and which past tick decides the present one |
| `Retry.dfy` | the two exponential-backoff loops |
| `SnapshotLock.dfy`, `SnapshotLockProofs.dfy`, `SnapshotLockHistory.dfy` | the post-scoring snapshot fan-out over all replicas (`cmd/worker/handlers.go`, `cmd/worker/main.go`): semaphore, expiring lock, retries, unlock, crashes, as interleaved steps of workers with program counters, and what one worker does over a run |
| `PostScoring.dfy`, `PostScoringProofs.dfy`, `PostScoringLog.dfy` | the MatchFinished handler with the leaderboard broadcast (`cmd/worker/leaderboard_broadcaster.go`): sequential stages and two interleaved fan-outs over one log |
| `Batches.dfy` | the loop shape "fetch the first n pending items, failures stay pending" |
| `Reencrypt.dfy`, `Migration.dfy`, `MigrationRun.dfy`, `MigrationCounts.dfy`, `MigrationExamples.dfy` | the payout re-encryption migration (`cmd/reencrypt-payouts/main.go`, `pkg/payoutenc/enc.go`): payload format, interleaving with arbitrary writers, the program's own loop with its deadline, what its counters mean, and inputs on which it does less than its comments say |
| `KycPurge.dfy`, `KycPurgeRetention.dfy`, `KycPurgeExamples.dfy` | the two-store KYC document purge (`cmd/worker/main.go`), what it leaves alone, and inputs on which it does less than its comments say |
| `WorkflowValidator.dfy`, `WorkflowMeaning.dfy`, `WorkflowReport.dfy` | the n8n workflow validator (`scripts/validate-n8n-workflows.py`), its lookups by position, and what each message means |
| `ParamValidator.dfy`, `ParamReport.dfy` | the system-parameter validator (`cmd/validate-params/main.go`) and what each line of its report means |
| `DumpFilter.dfy`, `Blanks.dfy` | the schema-dump line filter (`cmd/genschema/main.go`), and white space in Go and Python |
| `Wrappers.dfy` | `Option`, `Result` and regrouping of concatenations |

The environment (clock readings, database listings, provider answers, failures,
cancellations, crashes, other writers) is a parameter of every step, so each theorem
quantifies over it. An instant of the poller is a number of nanoseconds not before the
first second of 1970.

## What is proved, in short

* Poller: an overdue match leads to a provider call within slow interval plus tick gap,
  whatever the pause state; zero-live polls are at least a slow interval apart across
  pauses, early resumes and failures; a pause lasts exactly until the first
  pre-match window its own listing knew of.
* Snapshot lock: mutual exclusion holds in every run exactly when the start, the longest retry
  window and the DEL after it end before the key expires; without expiry it always holds; the
  semaphore conserves its permits; and with a store that may fail, exclusion is exactly as
  good as a semaphore of one permit. Every worker's calls are those of the retry loop, and
  every lock taken is given back once, unless the worker crashes.
* Handler: fixed order under every failure and cancellation pattern; a broadcast that does
  not depend on the goroutine schedule; and the exact contents of the whole log.
* Migration: invisible to readers in every interleaving; it conserves "migrated plus still
  legacy"; which rows it reaches, and whether all rows are encrypted in the end, is characterised
  exactly by the table it starts on.
* Purge: no stored file loses its metadata row over any number of failing or crashing runs,
  and nothing but expired documents is ever touched.
* Validators and filter: each accepts exactly what a declarative specification describes, and
  every message is reported exactly when the rule it names is broken.

## Where the code and its comments differ

The model follows the code; the differences are theorems.

* The poller's step 5 counts "consecutive zero-live ticks" in its comment
  (`cmd/worker/match_sync_job.go:40`); the code counts successful zero-live polls
  (`MatchSyncRuns.CounterCountsPolls`).
* An early resume is said to resume "immediately" (lines 107-109), but the slow-poll gate
  still applies (`MatchSyncRuns.EarlyResumePollsExactlyWhen`).
* A failed candidate listing is treated as "no upcoming match", so a pause that follows it
  can sleep through a pre-match window and the kickoff after it
  (`MatchSyncRuns.WakesInTimeExactlyWhen`, `MatchSyncRuns.FailedListingOversleeps`).
* An error from TryLock is said to degrade "to single-machine behaviour"
  (`cmd/worker/handlers.go:350-351`): one such error is enough to put two replicas to work on
  the same pair (`SnapshotLockProofs.ExclusionDespiteErrorsExactlyWhen`). A failed
  `sem.Acquire` skips the snapshot whatever the error was, not only on cancellation
  (line 337).
* The migration's filter writes `NOT LIKE '%"_enc"%'`, where `_` matches any character and any
  quoted `_enc` counts, key or not. A plaintext row such as `{"genc":"4111"}` is never migrated
  (`Reencrypt.PlaintextCanBeMissed`); neither is `{"bank":"_enc"}`, which the application then
  cannot read at all (`MigrationExamples.SentinelCanBeAValue`). A run that ends without error
  leaves everything encrypted exactly when every row the filter passed over at the start was
  (`MigrationRun.Database.Run`, `Reencrypt.FullyEncryptedExactlyWhen`).
* `remediateRow` says that a row changed concurrently falls through to the next run
  (`cmd/reencrypt-payouts/main.go:190-192`), and `batchSize` that a re-run picks up where the
  previous one left off (49-51). The loop fetches every row that stayed legacy again within the
  same run: a row changed concurrently gets its next chance there, and a row that cannot be
  decoded is fetched until the deadline, so that the run ends in an error
  (`MigrationRun.Database.Run`). Five hundred such rows starve every row after them
  (`Migration.EncryptedEventuallyExactlyWhen`,
  `MigrationExamples.FiveHundredBrokenRowsStarveTheNext`).
* The purge says that a file is never permanently orphaned (`cmd/worker/main.go:814-816`).
  Without a file store it can be (`KycPurgeExamples.RunWithoutStoreOrphansAFile`); exactly when
  is `KycPurge.WithoutStoreOrphansExactlyWhen`. A hundred documents that always fail starve all
  later ones (`KycPurge.PurgedEventuallyExactlyWhen`,
  `KycPurgeExamples.HundredRefusedDocumentsStarveTheNext`).
* `filterDumpLines` is said to strip `SET ...` lines; a `SET` with nothing but blanks after
  it stays (`DumpFilter.NoiseExactlyWhen`, `DumpFilter.BareSetStays`).

## Model

| member | source | states |
|---|---|---|
| MatchSync.MatchSyncState.RunTick | cmd/worker/match_sync_job.go:49-91 | one tick of the job, on the five atomics, is exactly `Step` for every answer of the environment, and its outcome tells disabled, paused, gated and attempted ticks apart |
| MatchSync.MatchSyncState.HandlePauseResume | cmd/worker/match_sync_job.go:110-129 | the tick is skipped exactly while the timer runs and no listed match is overdue; otherwise a pause is cleared entirely |
| MatchSync.MatchSyncState.SuspendPollingIfThresholdReached | cmd/worker/match_sync_job.go:138-182 | the new state in all five cases: below threshold, overdue match, nothing scheduled, inside the window, pause |
| MatchSync.MatchSyncState.NextScheduledMatchKickoff | cmd/worker/match_sync_job.go:192-211 | the loop finds the least future kickoff of a scheduled match, whether there is one, and whether one is overdue; a failed listing reads as empty |
| MatchSync.NextKickoffIsUnique | cmd/worker/match_sync_job.go:184-211 | the declarative "earliest upcoming kickoff" has one value, and it is the zero time exactly when no match is upcoming |
| MatchSyncRuns.ReachableInvariant | cmd/worker/match_sync_job.go:14-23 | in every reachable state: not paused implies no resume time, a positive counter implies a recorded poll without live matches, paused implies a positive counter |
| MatchSyncRuns.PausedMeetsThreshold | cmd/worker/match_sync_job.go:145-177 | while the threshold stays at least t, a paused poller has counted at least t zero-live polls |
| MatchSyncRuns.CounterCountsPolls | cmd/worker/match_sync_job.go:71-99 | the counter is the number of successful zero-live polls since the last reset, where resets are exactly resumes, live polls and overdue matches at the threshold |
| MatchSyncRuns.RateLimit | cmd/worker/match_sync_job.go:60-91 | no provider call starts less than the slow interval after a successful zero-live poll, across pauses, early resumes and failed polls |
| MatchSyncRuns.ZeroPollsAreSpread | cmd/worker/match_sync_job.go:60-91 | n + 1 zero-live polls stretch over at least n slow intervals |
| MatchSyncRuns.ZeroPollsInWindow | cmd/worker/match_sync_job.go:60-91 | any window of length L holds at most L / slow + 1 zero-live polls |
| MatchSyncRuns.SuspensionDecision | cmd/worker/match_sync_job.go:150-177 | at every suspension no listed match is overdue and the wake-up is the earliest pre-match window, kickoff minus the window of some listed match and no later than any other; or nothing is scheduled and the sleep is pauseSec |
| MatchSyncRuns.SuspendsExactlyWhen | cmd/worker/match_sync_job.go:83-88 | a tick suspends if and only if its poll saw no live match, the counter meets the threshold, no listed match is overdue and every listed match to come is ahead of its pre-match window |
| MatchSyncRuns.PauseNeverOversleeps | cmd/worker/match_sync_job.go:110-128 | every tick skipped by a pause lies before the pre-match window of every match scheduled when the pause began, any number of ticks later |
| MatchSyncRuns.WakesInTimeExactlyWhen | cmd/worker/match_sync_job.go:158-169 | against the real database a suspension wakes in time exactly when its listing answered, or the fixed pause happens to be short enough |
| MatchSyncRuns.FailedListingOversleeps | cmd/worker/match_sync_job.go:192-196 | a concrete run in which a listing error makes the poller skip the tick before a kickoff and the tick after it |
| MatchSyncRuns.BoundedDetection | cmd/worker/match_sync_job.go:49-129 | with an overdue match listed from second t on, slow interval at most S and ticks at most D apart, the provider is called by t + S + D whatever the pause state |
| MatchSyncRuns.EarlyResumePollsExactlyWhen | cmd/worker/match_sync_job.go:60-69 | a paused tick woken by an overdue match calls the provider in that tick exactly when the slow interval has passed |
| MatchSyncHistory.SkippedExactlyWhen | cmd/worker/match_sync_job.go:110-129 | while nothing has woken a pause, an enabled tick is skipped if and only if the stored resume time is not reached and it lists no overdue match; otherwise it ends the pause |
| MatchSyncHistory.SleepsExactlyUntilWindow | cmd/worker/match_sync_job.go:171-177 | as long as no overdue match is listed, a tick after the latest suspension is skipped if and only if it lies before every pre-match window that suspension knew of, or before the end of the fixed pause if it knew of none |
| MatchSyncHistory.StateRemembersLastPoll | cmd/worker/match_sync_job.go:71-82 | at every moment the stored live count and poll second are those of the last successful provider call, whatever ticks lie between |
| MatchSyncHistory.PollsExactlyWhen | cmd/worker/match_sync_job.go:49-69 | a tick calls the provider if and only if it is enabled, not skipped by a pause, and the last successful call saw live matches or lies at least the slow interval back; the outcome says which |
| MatchSyncHistory.LiveMatchesKeepPolling | cmd/worker/match_sync_job.go:60-91 | after a poll with live matches every enabled tick polls, until a later successful poll sees none |
| Retry.RetrySnapshot | cmd/worker/handlers.go:397-440 | the loop stops at the first success, a cancelled wait or the last attempt, where a positive configured limit is the limit and any other means three; after n attempts it has waited base·(2^(n-1) − 1) |
| Retry.PublishWithRetry | cmd/worker/leaderboard_broadcaster.go:138-178 | the same meaning with the broadcaster's defaults for attempts and base delay |
| Retry.RetryIsDetermined | cmd/worker/handlers.go:410-439 | given the same answers, attempts, waits and result of the loop are determined, so the two loops agree |
| Retry.RetryGuarantee | internal/domain/constants_worker.go:34-38 | uncancelled, it succeeds exactly when some attempt within the limit would; the total wait is at most base·(2^(max-1) − 1), and exactly 3·base after three failures |
| SnapshotLock.LatestStartClosedForm | cmd/worker/handlers.go:405-439 | the step-by-step bound on the start of attempt a equals the lock lag plus (a − 1)·(call + lag) + base·(2^(a-1) − 1) |
| SnapshotLockProofs.StepKeepsHoldersOk | cmd/worker/handlers.go:352-440 | every step of every worker keeps: a holder's key is stored, its own, and the holder is on schedule for it |
| SnapshotLockProofs.HeldLocksAreLive | cmd/worker/main.go:114-129 | in every interleaving with failures and crashes a held lock is in the store, unexpired, written by its holder, and has one holder |
| SnapshotLockProofs.UnlockDeletesOwnKey | cmd/worker/main.go:123-129 | the plain DEL meets a live key that its own worker wrote, and takes that key and no other out of the store when it succeeds |
| SnapshotLockProofs.LosersNeverUnlock | cmd/worker/handlers.go:360-389 | a worker that found the key taken or got an error never issues an Unlock in any continuation |
| SnapshotLockProofs.MutualExclusion | cmd/worker/handlers.go:352-440 | with an error-free store at most one worker is inside SnapshotForMatch per pair, always without expiry and with expiry when the lifetime fits |
| SnapshotLockProofs.ShortLifetimeBreaksExclusion | cmd/worker/main.go:106-129 | for every configuration whose lifetime does not fit, a run in which the late DEL removes another replica's key and two replicas work on one pair |
| SnapshotLockProofs.ExclusionExactlyWhen | cmd/worker/main.go:533-536 | exclusion in every run if and only if lock lag + n·call + (n−1)·wake lag + base·(2^(n-1) − 1) + unlock lag is below the lifetime |
| SnapshotLockProofs.ProductionHeadroom | cmd/worker/main.go:533-536 | with the worker's own constants the condition is lock lag + 3·call + 2·wake lag + unlock lag < 119.7 s, that is calls below 39.9 s without lags |
| SnapshotLockProofs.StoreErrorBreaksExclusion | cmd/worker/handlers.go:360-369 | a run with one TryLock error in which two workers snapshot the same pair, whatever the lifetime |
| SnapshotLockProofs.OnePermitExcludes | cmd/worker/handlers.go:335-340 | a single permit excludes by itself, whatever the lock store and the clock do |
| SnapshotLockProofs.ExclusionDespiteErrorsExactlyWhen | cmd/worker/handlers.go:348-369 | with a store that may fail, exclusion in every run if and only if the semaphore has at most one permit |
| SnapshotLockProofs.PermitsAreConserved | cmd/worker/handlers.go:325-345 | in every interleaving the semaphore's counter equals the permit holders plus the units whose reply was lost, and stays within its limit; a worker holds a permit exactly between Acquire and Release of its program counter; no event exceeds its goroutine limit; holders of a lock have permits; once all have finished all permits are back, up to lost replies |
| SnapshotLockHistory.WorkersRetry | cmd/worker/handlers.go:397-440 | in every interleaving a worker past its retries was refused permit or lock and made no call, or its calls up to the first success, last attempt or cut wait, with planned waits that double and none shorter in reality, are an outcome of the retry loop given the same answers |
| SnapshotLockHistory.SuccessEndsCalls | cmd/worker/handlers.go:411-413 | after a call that succeeded the worker never calls or waits again, in any continuation |
| SnapshotLockHistory.LocksAreGivenBack | cmd/worker/handlers.go:376-389 | in every interleaving a worker that is past its Unlock and has not crashed has issued exactly one DEL for every lock it took |
| SnapshotLockHistory.CrashBlocksUntilExpiry | cmd/worker/main.go:114-129 | the key of a worker that crashed while holding the lock keeps everyone else out until it expires |
| PostScoring.PublishWithRetry | cmd/worker/leaderboard_broadcaster.go:138-178 | the loop makes exactly the attempts of the member's trace: up to a success, the last try, or a wait that the context cuts |
| PostScoring.BroadcastForQuiniela | cmd/worker/leaderboard_broadcaster.go:106-132 | the loop makes exactly the attempts of the quiniela's trace, member after member; a cut wait ends one member, not the loop |
| PostScoringProofs.HandlerErrorExactlyWhen | cmd/worker/handlers.go:162-205 | in every run the handler returns an error exactly when the payload decodes and ScoreMatch fails; what it does on the way is PostScoringLog.LogIsExact |
| PostScoringProofs.PipelineOrder | cmd/worker/handlers.go:282-345 | in every run, under every failure and cancellation, each invalidator has finished before the first publish, and all publishing before the first snapshot goes for its lock |
| PostScoringProofs.SnapshotsWaitForPublishers | cmd/worker/handlers.go:305-345 | at every moment of every run, if any snapshot goroutine has been started, be it still waiting for its permit, the caches are flushed and every publisher is done |
| PostScoringProofs.EachSnapshottedOnce | cmd/worker/handlers.go:330-345 | when the handler has returned, each listed quiniela went for its lock and was snapshotted exactly once, or not at all if its permit was refused |
| PostScoringProofs.MemberTraceMeaning | cmd/worker/leaderboard_broadcaster.go:148-177 | a member gets one success, as its last attempt, exactly when some attempt within the limit would succeed before a wait is cut; otherwise only failures, exactly maxAttempts of them unless the last wait was cut |
| PostScoringProofs.MemberTraceIsRetry | cmd/worker/leaderboard_broadcaster.go:148-177 | the trace is as long and ends as the backoff loop given the same successes and cut waits |
| PostScoringProofs.BroadcastIsScheduleIndependent | cmd/worker/leaderboard_broadcaster.go:91-101 | under every goroutine schedule each quiniela's part of the log is its sequential trace under the same answers, cut waits included |
| PostScoringProofs.BroadcastReaches | cmd/worker/leaderboard_broadcaster.go:80-132 | under every schedule the users reached are, in order, the members that some attempt reaches before a wait is cut; all of them when each has one |
| PostScoringLog.LogIsExact | cmd/worker/handlers.go:162-345 | for every entry and every schedule, how often it is in the log of a finished event: scoring, extras and slot confirmation once exactly when they are reached and wired, each invalidator once exactly when there is a listed quiniela, each publish attempt once exactly when it is addressed to that member of that listed quiniela and every attempt before it failed uncut, and nothing else |
| PostScoringLog.SnapshotsExactlyWhen | cmd/worker/handlers.go:323-345 | the snapshots that ran are those whose permit was granted; on an event that proceeds every listed quiniela has a goroutine that came to its end, otherwise none started |
| Batches.ReachedExactlyWhen | cmd/reencrypt-payouts/main.go:126-147 | in a batch loop a good item is handled some day exactly when fewer failing items than one batch come before it |
| Batches.HealthyDrain | cmd/worker/main.go:837-853 | without failing items the backlog is empty after n passes exactly when n is at least ceil(size / limit) |
| Reencrypt.UnmarshalInvertsMarshal | pkg/payoutenc/enc.go:140-208 | reading back a marshalled payload gives the payload, for every nonce |
| Reencrypt.ReadsExactlyWhen | pkg/payoutenc/enc.go:172-208 | what a column reads as: nothing if empty, the payload its envelope opens to, or its own JSON; an envelope that does not open, or has no key, is an error and never read as JSON |
| Reencrypt.WithoutKeyRoundTripExactlyWhen | pkg/payoutenc/enc.go:140-208 | without a key a payload is stored as plain JSON, and reads back exactly when that JSON does not contain the sentinel |
| Reencrypt.HasEnvelopeExactlyWhen | pkg/payoutenc/enc.go:172-180 | a text is taken for an envelope exactly when it contains the quoted `_enc` |
| Reencrypt.MatchesLikeExactlyWhen | cmd/reencrypt-payouts/main.go:44 | the SQL pattern matches exactly the texts that contain a quote, any one character, and `enc` with a quote |
| Reencrypt.ReencryptionPreservesView | cmd/reencrypt-payouts/main.go:178-188 | re-encryption fails exactly on undecodable text, and otherwise keeps the decoded payload and leaves the legacy query |
| Reencrypt.EncryptedRowsAreExcluded | cmd/reencrypt-payouts/main.go:36-47 | a text with the envelope never matches the legacy query |
| Reencrypt.PlaintextCanBeMissed | cmd/reencrypt-payouts/main.go:44 | a plaintext row that the query takes for encrypted |
| Reencrypt.FullyEncryptedExactlyWhen | cmd/reencrypt-payouts/main.go:36-47 | from a table before to one without legacy rows after: every filled row holds a ciphertext that opens exactly when every row the query passed over before did |
| MigrationExamples.SentinelCanBeAValue | pkg/payoutenc/enc.go:172-200 | a plaintext row with `_enc` as a value: passed over by the query, unreadable for the application, not encrypted |
| Migration.MigrationIsInvisible | cmd/reencrypt-payouts/main.go:124-215 | in every interleaving with arbitrary writers and failures every row reads as the other writers alone would have left it |
| Migration.DryRunWritesNothing | cmd/reencrypt-payouts/main.go:142-146 | a dry run leaves the table to the other writers, in every interleaving |
| Migration.StopsOnlyWhenClean | cmd/reencrypt-payouts/main.go:126-147 | a real run among arbitrary writers that has stopped without error made a successful fetch at a table without legacy rows, and its counter is the number of UPDATEs that hit a row |
| Migration.FailedFetchEndsRun | cmd/reencrypt-payouts/main.go:127-130 | a failed fetch ends the run in an error: nothing but other writers acts after it, and the counters stay |
| Migration.SwapRemovesOne | cmd/reencrypt-payouts/main.go:202-206 | the guarded UPDATE takes its row out of the legacy rows and moves no other |
| Migration.MigratedPlusLegacy | cmd/reencrypt-payouts/main.go:124-148 | without other writers, migrated plus rows encrypted under a lost reply plus remaining legacy rows is constant over every run |
| Migration.ChangedRowFails | cmd/reencrypt-payouts/main.go:202-213 | a row that is no longer what was fetched counts as failed and stays as it is |
| Migration.WholeBatch | cmd/reencrypt-payouts/main.go:134-141 | a batch leaves its undecodable rows in place and in order, takes out the others as far as the deadline allows, and changes nothing that is read |
| Migration.PassesOnTable | cmd/reencrypt-payouts/main.go:126-147 | pass after pass the table's legacy rows follow the abstract batch loop |
| Migration.EncryptedEventuallyExactlyWhen | cmd/reencrypt-payouts/main.go:38-52 | a decodable row is encrypted some day if and only if fewer than 500 undecodable rows have a smaller id |
| MigrationExamples.FiveHundredBrokenRowsStarveTheNext | cmd/reencrypt-payouts/main.go:49-52 | 500 undecodable rows before a readable one: it stays plaintext however many passes follow |
| MigrationRun.Database.RemediateRow | cmd/reencrypt-payouts/main.go:193-215 | one row: the table, the budget and exactly one of the two counters change as the specification says; the counters of whole runs are pinned by MigrationRun.Database.Run and MigrationCounts |
| MigrationRun.Database.RemediateBatch | cmd/reencrypt-payouts/main.go:134-141 | the loop over a batch computes table, budget and both counters of the specification |
| MigrationRun.Database.Run | cmd/reencrypt-payouts/main.go:124-148 | termination by the deadline; nothing read changes; rows that are NULL, empty, `{}` or a match of the filter stay byte for byte; a dry run counts as failed exactly the fetched rows that do not decode and as migrated the others; a real run ends as fetching and remediating over and over does; each success removes one legacy row; no error implies none is left, and then everything is encrypted exactly when all rows passed over at the start were; an undecodable row forces an error; without one, n rows end in ceil(n/500) + 1 fetches with migrated = n; a second run does nothing |
| MigrationRun.BatchMeaning | cmd/reencrypt-payouts/main.go:134-141 | what a fetched batch does to the legacy and the undecodable rows of the whole table |
| MigrationRun.RealRun | cmd/reencrypt-payouts/main.go:124-148 | however a real run ends, from any counters and budget: nothing read changes, only legacy rows are encrypted, undecodable rows stay, each success removes one legacy row, and without undecodable rows it ends clean in ceil(n/500) + 1 fetches |
| MigrationCounts.EveryRowIsHandledOnce | cmd/reencrypt-payouts/main.go:134-141 | in every interleaving with arbitrary writers every fetched row is handled exactly once and in order, and each adds one to one counter |
| MigrationCounts.DryRunFetchesOnce | cmd/reencrypt-payouts/main.go:142-146 | a dry run fetches at most once, whatever the others write |
| MigrationCounts.DryRunCounts | cmd/reencrypt-payouts/main.go:193-200 | in every interleaving the failures of a dry run are the handled rows that do not decode |
| MigrationCounts.BrokenRowsFailUntilDeadline | cmd/reencrypt-payouts/main.go:124-148 | from at most one batch of legacy rows with k undecodable ones: the others are migrated in the first pass, the k rows fail once per fetch until the deadline; the whole end of the run, with the exact counters and number of fetches |
| KycPurge.Stores.PurgeDocument | cmd/worker/main.go:774-804 | file first, then row; the new contents of both stores and the one counter that is set, for every failure, ambiguous outcome and crash |
| KycPurge.Stores.PurgeJob | cmd/worker/main.go:833-862 | a run does to the stores, and counts, exactly what the documents of the batch do one after the other; the counters sum to the batch size; a failed listing changes nothing; which rows and files that is, is KycPurgeRetention |
| KycPurge.NeverOrphans | cmd/worker/main.go:810-820 | with a file store, over any number of runs with any failures and crashes, every stored file has a metadata row |
| KycPurge.WithoutStoreOrphansExactlyWhen | cmd/worker/main.go:822-826 | without a file store, for a whole batch under any failures and crashes: the guarantee is kept exactly when every row the batch takes leaves its file another row or has no file |
| KycPurge.RunWithoutStoreOrphansExactlyWhen | cmd/worker/main.go:822-826 | a weekly run whose metadata deletes succeed keeps the guarantee exactly when no listed document's file is stored |
| KycPurgeExamples.RunWithoutStoreOrphansAFile | cmd/worker/main.go:790-803 | one document whose file stays behind without a row |
| KycPurge.DeletedIsTheDrop | cmd/worker/main.go:847-853 | the reported number of deletions is exactly how much the backlog has shrunk |
| KycPurge.PurgeDrains | cmd/worker/main.go:837-853 | once failures stop, n expired documents are gone after exactly ceil(n/100) runs |
| KycPurge.PurgedEventuallyExactlyWhen | internal/repository/kyc_document_repository.go:138-152 | with documents that always fail, another is purged some day if and only if fewer than 100 of them are older |
| KycPurgeRetention.RunsTouchExpiredOnly | internal/repository/kyc_document_repository.go:138-152 | over any number of runs, with or without a store, under any failures and crashes: every row still within retention stays, in order, every row that goes was expired, and a file goes only if an expired row has its key |
| KycPurgeRetention.ExpiredExactlyWhen | internal/repository/kyc_document_repository.go:138-152 | the backlog is exactly the rows whose retention has run out, of which a run lists the first hundred |
| KycPurgeRetention.RunCounted | cmd/worker/main.go:847-860 | each counter of a run is the number of listed documents that ended its way, up to the one at which the worker died |
| KycPurgeRetention.RunExactly | cmd/worker/main.go:774-853 | a run takes exactly the files and the rows whose deletes took effect, among the listed documents up to a crash |
| KycPurgeRetention.SecondDeleteFails | cmd/worker/main.go:796-802 | purging a document whose row is gone counts as a database failure |
| KycPurgeExamples.HundredRefusedDocumentsStarveTheNext | cmd/worker/main.go:837-853 | a hundred documents the store refuses before a healthy one: it is never purged |
| WorkflowValidator.Validator.CheckPath | scripts/validate-n8n-workflows.py:152-166 | an empty path is one error; a path is registered or reported as a collision, never both and never neither |
| WorkflowValidator.Validator.CheckNodes | scripts/validate-n8n-workflows.py:107-166 | for every error value (kind, file, node) the loop reports it exactly as often as it is due; it records all paths in order, the names of the file and whether it has a trigger |
| WorkflowValidator.Validator.CheckSignatures | scripts/validate-n8n-workflows.py:175-211 | every webhook without raw body and every webhook that does not feed the signature node is reported once, and nothing else |
| WorkflowValidator.Validator.CheckConnections | scripts/validate-n8n-workflows.py:213-233 | every unknown source and every unknown target is reported by name, once for each time it occurs, and nothing else |
| WorkflowValidator.Validator.CheckFile | scripts/validate-n8n-workflows.py:78-233 | one file adds exactly the errors that are due for it, each as often as due, and its own paths, including the early exits |
| WorkflowValidator.Validator.Run | scripts/validate-n8n-workflows.py:69-240 | every error of every file is in the list exactly as often as due, path collisions number the webhook paths minus the distinct ones, and the list is empty exactly for sound files with distinct paths |
| WorkflowValidator.FileSilent | scripts/validate-n8n-workflows.py:80-233 | a file with distinct non-empty ids, complete nodes, a trigger, connection ends that name nodes and signed non-exempt webhooks is due no error |
| WorkflowValidator.FileReported | scripts/validate-n8n-workflows.py:80-233 | any other file is due one |
| WorkflowValidator.AcceptedExactlyWhen | scripts/validate-n8n-workflows.py:69-240 | a list with every error as often as due is empty exactly when every file is sound on its own and the webhook paths of all files are distinct |
| WorkflowReport.ReportedExactlyWhen | scripts/validate-n8n-workflows.py:78-233 | each message, path collisions aside, is in the report if and only if the rule it names is broken at the file, node or name it names |
| WorkflowMeaning.CollisionsReported | scripts/validate-n8n-workflows.py:151-166 | collisions number the webhook nodes with a path minus the distinct paths, and there is none exactly when no two nodes of any files share a path |
| WorkflowMeaning.FirstTargetExactlyWhen | scripts/validate-n8n-workflows.py:192-198 | the first target is, by positions, the first name of the first chain of the main output of that connection |
| WorkflowMeaning.FeedsSignatureExactlyWhen | scripts/validate-n8n-workflows.py:192-211 | a webhook counts as signed exactly when its first main target is `Verify Signature` and the last node of that name is a code node |
| ParamValidator.BuildParamMap | cmd/validate-params/main.go:421-427 | the map holds, for every key, the last row with that key and nothing else |
| ParamValidator.ValidateAllParams | cmd/validate-params/main.go:429-455 | the errors are those of each specification against its row, in order |
| ParamValidator.CheckUnexpectedParams | cmd/validate-params/main.go:512-524 | the errors are the rows whose key has no specification, in order |
| ParamValidator.BuildExpectedKeysSet | cmd/validate-params/main.go:526-532 | the set holds exactly the specified keys |
| ParamValidator.ValidateFromParams | cmd/validate-params/main.go:401-406 | success exactly when every specification is met and every row is specified; a failure counts missing keys plus field mismatches plus orphan rows |
| ParamValidator.RowCounted | cmd/validate-params/main.go:457-494 | one row yields one error per differing field, and none exactly when it agrees |
| ParamValidator.AcceptedExactlyWhen | cmd/validate-params/main.go:401-455 | on rows with distinct keys, success exactly when both tables have the same keys and agree on type, category, runtime flag and default with a description |
| ParamValidator.ShadowedRowIsUnseen | cmd/validate-params/main.go:421-427 | without distinct keys a wrong row passes behind a later right one, and the verdict depends on row order |
| ParamReport.SpecsReportedExactlyWhen | cmd/validate-params/main.go:429-494 | a missing key is reported exactly when no row has it, and a column exactly when the last row of the key differs there |
| ParamReport.OrphansReportedExactlyWhen | cmd/validate-params/main.go:512-524 | a row is reported as unexpected exactly when no specification has its key |
| DumpFilter.FilterDumpLines | cmd/genschema/main.go:136-152 | the loop joins exactly the clean lines of the input, in order, also for the empty input |
| DumpFilter.JoinInvertsSplit | cmd/genschema/main.go:140-151 | joining the lines of a text gives the text |
| DumpFilter.SplitInvertsJoin | cmd/genschema/main.go:140-151 | splitting joined lines gives the lines, unless there are none |
| DumpFilter.NoiseExactlyWhen | cmd/genschema/main.go:143-146 | any line is noise exactly when its first non-blank text is a backslash, `SELECT pg_catalog`, or `SET ` with an argument after it; blank lines never are |
| DumpFilter.BareSetStays | cmd/genschema/main.go:134-146 | the text `SET ` passes the filter unchanged |
| DumpFilter.LinesOfFiltered | cmd/genschema/main.go:141-151 | the output's lines are the clean input lines, or one empty line when there are none |
| DumpFilter.FilteringIsIdempotent | cmd/genschema/main.go:136-152 | filtering twice is filtering once, for every text |
| DumpFilter.OutputIsClean | cmd/genschema/main.go:133-152 | no noise line is left in any output |
| DumpFilter.UnchangedExactlyWhen | cmd/genschema/main.go:133-152 | a dump passes unchanged exactly when it has no noise line |
| Blanks.TrimExactly | cmd/genschema/main.go:143 | trimming takes exactly the code points that Go counts as white space off both ends of a line |
| Blanks.BlankPathExactlyWhen | scripts/validate-n8n-workflows.py:152-154 | a webhook path is blank exactly when it has only code points that Python strips |

## Left out

- Scoring, ranking, bonus predictions, balances, withdrawals, KYC decisions, the event bus and HTTP are not part of this model; the handler sees them as calls that succeed or fail.
- Logging, metrics, tracing and configuration loading.
- The poller's counters are unbounded: wrap-around of the 32-bit atomics and concurrent access to them are not modelled; ticks are sequential, as the scheduler runs them. Clock readings before the first second of 1970 are left out.
- PollAndApply itself: which matches it updates. BoundedDetection ends at the call.
- The expiry of the distributed semaphore's counter (`pkg/dsem/redis.go`) is not modelled: units whose reply was lost and the permits of crashed workers stay counted.
- SnapshotLockProofs.ExclusionExactlyWhen: assumes that a semaphore, if present, has at least two permits; with one permit exclusion holds anyway (SnapshotLockProofs.OnePermitExcludes).
- PostScoring has no goroutine limit, which only removes interleavings; the limit is modelled in SnapshotLock. There the lock, the retries and the store are modelled, which PostScoring sees as one snapshot.
- runSlotAutoConfirm and knockoutWinnerLoser appear as one entry of the handler's log; which bracket slots are confirmed would only add easy members.
- The JSON, base64 and AES-GCM libraries are function parameters of the migration with the laws in Reencrypt.Sound; texts are sequences of characters, not bytes. The JSON reader of the envelope yields an empty ciphertext where there is none. Rows that Scan cannot read end a run like a failed query.
- Migration.EncryptedEventuallyExactlyWhen: speaks about repeated undisturbed passes, without the deadline, which MigrationRun.Database.Run has.
- MigrationRun.Database.Run: runs without concurrent writers; those are in Migration.MigrationIsInvisible.
- Documents uploaded or newly expired between purge runs; the retention condition is a flag of the row.
- WorkflowValidator.Validator.Run: the order of the list, the message texts and which of two colliding webhooks is reported are not stated.
- WorkflowValidator: JSON parsing, the refusal of an empty directory, and values on which the script itself would stop with an exception (a top-level value or a node that is no object, an output whose first target is no object).
- ParamValidator takes the compiled-in table as a parameter; printing of operator overrides is left out.
- DumpFilter works on characters: invalid UTF-8 is not modelled. Running pg_dump and writing the file are left out.
