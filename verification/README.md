# Verification of the worker, billing and agent-tooling core

This project models five stateful subsystems and six pure kernels of the repository and proves
their properties for all inputs, all interleavings and all failures of the modelled steps.

- **Queue reconciliation** (`Lease`, `LeaseClient`, `QueueSweep`). The Redis lease is a state
  machine over commands, timer ticks and time, with any number of leases; the lease object's
  methods are proved to be executions of that machine. The sweep is a class over the scan table
  and the job queue.
- **Schedule polling** (`SchedulePolls`, `ScheduleOccurrence`). The traversal cursor shared by
  overlapping polls, whose ownership is object identity, and the claim, enqueue, restore protocol
  of one schedule's occurrences.
- **Billing** (`Grace`, `License`, `LicenseReturns`, `LicenseCalls`, `Account`). Concurrent grace
  ticks, insert-first licence issue with delivery retry and one-time retrieval, when a key can be
  returned again, what each call does on its own, and the choice of the governing contract.
- **Rule files** (`AtomicWrite`, `RuleText`, `RuleEdit`, `RuleRepeat`, `RuleEditor`). Replacing a
  file on a disk whose calls may fail and whose files others may change; the managed-block parser,
  matched token by token; what adding, checking and removing do to the text, and when a second run
  recognises the first; and the editor that puts both together with its backups.
- **Kernels** (`Crc32`, `EthernetCrc`, `StoredZip`, `Canonical`, `Fingerprint`, `Money`, `OperationalHealth`).

A state machine is a `State`, an `Action` and a total `Apply`: a step that is not enabled does
nothing, so a statement about all lists of actions is one about all interleavings. A crash is a
process that takes no further step, or an explicit action. Loops and in-place updates are methods
proved against functions; the theorems are lemmas about those functions.

## Where the code and its promises differ

Each of these but the last comes with a condition that decides exactly when the promise holds.

- A page after a cursor skips one row. Read as an offset, that row is the next candidate when the
  cursor row has just been failed. The sweep is complete if and only if no orphan is passed over
  (`QueueSweep.StaleScansHaveJobsExactly`); the earliest orphan never is.
- The size guard at `packages/agent-plugin/src/export.ts:296` admits contents for which the end-record offset at line 339 does
  not fit 32 bits. The archive is produced if and only if 30 + |name| + |contents| < 2^32 and the
  name has at most 65535 bytes; the write at line 339 throws otherwise.
- A delivery retry clears the used flag, so a key can be returned once more by a retrieval that
  had read it before (`License.SplitRetrievalReturnsTwice`). A second return is possible if and only
  if the flag is clear or a delivery retry can still clear it, and such a retrieval is still under
  way (`LicenseReturns.ReturnedAgainExactly`).
- The policy version is a free string, but the begin marker accepts word characters and dots
  only, then white space. A rule reads back as its own block if and only if its version is word
  characters and dots and its body has no end marker (`RuleText.ReadsBackExactly`); a second run
  recognises it also when white space follows the version (`RuleRepeat.SecondRunSkipsExactly`).
- The rendered content ends in a newline that is not part of the block. Removing after an update
  therefore finds one newline more than removing before it (`RuleEdit.UpdateThenRemoveExactly`).
- The Redis connection of a lease reconnects and queues commands meanwhile (`packages/integrations/src/redis.ts:16-23`), but a
  new connection has no WATCH, so an EXEC may meet another lease's key. The lock excludes if and
  only if that does not happen and replies take less than the five seconds between renewal interval
  and expiry (`Lease.ExclusiveExactly`).
- An edit of a schedule reads the row, computes the next time from the clock and writes it without
  looking again (`packages/db/src/schedule-service.ts:137-171`). A write that lands in the computed minute can bring back an
  occurrence already claimed. One job per occurrence holds if and only if every write lands before
  the time it computed (`ScheduleOccurrence.OneJobExactly`), and after edits in time a
  single late write is harmless if and only if all claimed occurrences are before that time (`ScheduleOccurrence.WriteIsHarmlessExactly`).
- The rule editor replaces and deletes without an expected content (`packages/agent-rules/src/rules.ts:123-127`, `packages/agent-rules/src/rules.ts:339-343`).
  The bytes it destroys are in the backup if and only if no other process wrote the file since the
  backup's read, or the last that did wrote the same bytes (`RuleEditor.ReplaceWithBackup`); a run in
  which they are lost is `RuleEditor.ForeignBytesAreLost`.
- The effective plan reads the clock again after the ranking (`Account.PlanWithheldExactly`).
- `apps/worker/src/schedules.ts:156-166` handles an enqueue of unknown outcome as an error, while `packages/integrations/src/queue.ts:296-306` returns the
  scan id in that case. Both keep the claim; the model follows the code.

## Model

| member | source | states |
|---|---|---|
| `Lease.OnlyOwnKeyIsTouched` | `apps/worker/src/queue-reconciliation.ts:125-156` | In every execution, timely or not, a live lock key is written only by an EXEC of a renewal or release, even one that lands after its caller gave up; and it is not of the lease whose token the key holds if and only if its connection lost the WATCH and the key is another's |
| `Lease.OnlyReconnectsStray` | `packages/integrations/src/redis.ts:16-23` | While no connection is replaced between a WATCH and its EXEC, no EXEC meets another lease's key without its WATCH |
| `Lease.PassingMeansOwning` | `apps/worker/src/queue-reconciliation.ts:70-137` | If acquire plus renewal latency stay under five seconds and no EXEC without its WATCH meets another lease's key, a passing `assertOwned` means the key holds this lease's token unexpired, so no two leases pass at one instant |
| `Lease.SlowRepliesShareTheLock` | `apps/worker/src/queue-reconciliation.ts:78-123` | For any latencies adding up to five seconds or more, an execution in which two leases pass the check at once |
| `Lease.ExclusiveExactly` | `apps/worker/src/queue-reconciliation.ts:60-137` | Mutual exclusion holds in all timely executions if and only if the two latencies add up to less than five seconds and no EXEC without its WATCH may meet another lease's key |
| `Lease.StrayReleaseSharesTheLock` | `packages/integrations/src/redis.ts:16-23` | For any latencies, an execution in which a release whose connection was replaced deletes the next lease's key, and two later leases pass the check at once |
| `Lease.RunKeepsInv` | `apps/worker/src/queue-reconciliation.ts:125-156` | A lease between WATCH and EXEC that saw its own token, and a command that lands late, face that token as long as their WATCH is in force and no one wrote the key; a late command is of a lease that has given up |
| `Lease.TimedRunStaysSecure` | `apps/worker/src/queue-reconciliation.ts:70-123` | In timely executions without a stray EXEC every lease that believes in its lock has its token stored with enough time left for its next reply |
| `LeaseClient.Acquire` | `apps/worker/src/queue-reconciliation.ts:70-97` | Taking the lock is an execution of the protocol's steps. It yields a lease if and only if its SET NX is answered and the key was free when it arrived; then the key holds its token for the full time, and otherwise the client is closed; a lost reply leaves the key taken |
| `LeaseClient.ReconciliationLease.AssertOwned` | `apps/worker/src/queue-reconciliation.ts:99-103` | Does not throw exactly when the protocol state says this lease passes |
| `LeaseClient.ReconciliationLease.RenewOwned` | `apps/worker/src/queue-reconciliation.ts:125-137` | With other leases acting between its commands and the connection breaking or being replaced anywhere, renewal is an execution of the protocol; without a break it succeeds if and only if its GET sees the own token and nothing was written since its WATCH, or that is gone, and a live key then lasts the full time from its EXEC |
| `LeaseClient.ReconciliationLease.Tick` | `apps/worker/src/queue-reconciliation.ts:105-123` | A timer tick with its renewal is an execution of the protocol, and loses the lease if and only if that renewal fails; loss is never taken back; a tick during a renewal or after a loss sends nothing |
| `LeaseClient.ReconciliationLease.Release` | `apps/worker/src/queue-reconciliation.ts:139-156` | Release stops the timer, waits for a renewal under way and closes the lease; without a break the key is deleted if and only if its GET sees the own token, the key is live at its EXEC and nothing was written since its WATCH, or that is gone |
| `LeaseClient.RenewUndisturbed` | `apps/worker/src/queue-reconciliation.ts:125-137` | With no break, no replaced connection and no other EXEC in between, a lease whose key lasts until its EXEC renews it for 55 seconds from then |
| `LeaseClient.HandOver` | `apps/worker/src/queue-reconciliation.ts:139-156` | Under the same conditions a release frees the lock: the next caller, however much later, gets it for 55 seconds |
| `Lease.RenewalBeginsExactly` | `apps/worker/src/queue-reconciliation.ts:105-123` | A tick begins a renewal if and only if it is due, nothing was lost, none is under way and the timer runs |
| `Lease.ReleaseAwaitsRenewal` | `apps/worker/src/queue-reconciliation.ts:139-141` | In every execution no lease is in the commands of a release while it is in those of a renewal |
| `QueueSweep.Backend.ReconcileCandidate` | `apps/worker/src/queue-reconciliation.ts:159-183` | Fails a scan exactly when it has no job in a processable state, and leaves every other row alone; an error before or after the update changes what is counted, not what is promised |
| `QueueSweep.Backend.FailOrphanedScans` | `apps/worker/src/queue-reconciliation.ts:235-263` | The paging loop with its cursor leaves the table in which exactly the orphaned candidates not passed over have failed, and returns their number, whatever candidates throw |
| `QueueSweep.Backend.CollectWaiting` | `apps/worker/src/queue-reconciliation.ts:265-277` | The paged reads over three job types collect every waiting job exactly once |
| `QueueSweep.Backend.RemoveOrphanedJobs` | `apps/worker/src/queue-reconciliation.ts:265-313` | Removes exactly the waiting jobs without an active scan, except those that cannot be removed; reports depth and oldest age; a lost lease stops it with exactly the orphans among the jobs handled so far removed |
| `QueueSweep.Backend.Sweep` | `apps/worker/src/queue-reconciliation.ts:219-321` | The whole sweep ends in the swept table and queue with a matching report, or, exactly when the lease is lost in its second phase, with exactly the orphans among the jobs handled so far removed |
| `QueueSweep.OnlyOrphansAreFailed` | `apps/worker/src/queue-reconciliation.ts:159-183` | Whatever throws, only stale active scans without a processable job are failed, and no other row changes |
| `QueueSweep.FailedExactly` | `apps/worker/src/queue-reconciliation.ts:159-247` | By the fields of the rows: a scan is failed if and only if it was queued, in preflight, running or verifying, not deleted, untouched for over five minutes, not passed over, met no error before its update, and its job is missing, completed or failed; every other row is as it was |
| `QueueSweep.KeptExactly` | `apps/worker/src/queue-reconciliation.ts:278-311` | A waiting job stays if and only if it has no id, cannot be removed, or its scan is in one of those four states |
| `QueueSweep.CountedExactly` | `apps/worker/src/queue-reconciliation.ts:249-258` | The scans counted as failed are those failed without a later error |
| `QueueSweep.OldestAgeExactly` | `apps/worker/src/queue-reconciliation.ts:286-293` | The reported age is that of the oldest waiting job of an active scan, zero without one |
| `QueueSweep.ActiveScansKeepTheirJobs` | `apps/worker/src/queue-reconciliation.ts:295-311` | Removing any of the orphaned jobs takes no processable job from an active scan |
| `QueueSweep.StaleScansHaveJobsExactly` | `apps/worker/src/queue-reconciliation.ts:237-263` | After an error-free sweep every stale active scan has a processable job, if and only if no orphan was passed over by the page skip |
| `QueueSweep.NothingIsPassedOver` | `apps/worker/src/queue-reconciliation.ts:246-247` | Nothing is passed over if the page skips the cursor row itself, or if at most 500 candidates exist |
| `QueueSweep.PassedOverFollowsAFailure` | `apps/worker/src/queue-reconciliation.ts:246-247` | With an offset skip a candidate is passed over only behind an earlier one that was just failed, and only beyond 500 candidates |
| `QueueSweep.FiveHundredOneOrphansLeaveOne` | `apps/worker/src/queue-reconciliation.ts:237-263` | With an offset skip and 501 orphans the last survives the sweep |
| `QueueSweep.WaitingJobsHaveActiveScans` | `apps/worker/src/queue-reconciliation.ts:295-311` | After an error-free sweep every waiting job with an id has an active scan |
| `QueueSweep.QueueDepthIsExact` | `apps/worker/src/queue-reconciliation.ts:286-293` | The reported depth is the number of waiting jobs left, when all have ids |
| `QueueSweep.RemovedJobsAreCounted` | `apps/worker/src/queue-reconciliation.ts:301-310` | The removed count is the number of waiting jobs lost, whichever could not be removed |
| `QueueSweep.SecondSweepRepairsNothingExactly` | `apps/worker/src/queue-reconciliation.ts:219-321` | A second sweep at the same time changes nothing, if and only if the first passed over no orphan |
| `QueueSweep.FirstOrphanIsFailed` | `apps/worker/src/queue-reconciliation.ts:237-263` | The earliest orphan is never passed over, so every sweep with orphans makes progress |
| `QueueSweep.RepairsNothingExactly` | `apps/worker/src/queue-reconciliation.ts:237-263` | A sweep changes the table if and only if there is an orphan |
| `SchedulePolls.OnlyTheHolderActs` | `apps/worker/src/schedules.ts:72-99` | In every interleaving each row start and each new cursor is by a poll holding the then-current object, and no object is replaced twice |
| `SchedulePolls.LostPollStartsNothing` | `apps/worker/src/schedules.ts:81-99` | A poll that lost the cursor never owns it again and starts no further row, whatever follows |
| `SchedulePolls.ValueReturnsObjectDoesNot` | `apps/worker/src/schedules.ts:72-75` | An execution in which a poll that lost the cursor sees its old value come back, so comparing values would return ownership to it |
| `SchedulePolls.CursorPassesEveryDueRow` | `apps/worker/src/schedules.ts:78-198` | In every interleaving the cursor passes each row that stays due between any two times it passes one row, although other rows come and go |
| `SchedulePolls.NoDueRowIsSkipped` | `apps/worker/src/schedules.ts:78-198` | Without overlap, each row that stays due is started between any two starts of one row |
| `SchedulePolls.DueRowsTakeTurns` | `apps/worker/src/schedules.ts:78-198` | Without overlap, between two successive starts of a row that stays due every other such row is started exactly once |
| `SchedulePolls.StepKeepsInv` | `apps/worker/src/schedules.ts:78-198` | Every step keeps ownership, the cyclic order of cursor moves, and the gap-free page of the owner |
| `SchedulePolls.PageCovers` | `packages/db/src/schedule-service.ts:350-371` | A fetched page of at most fifty rows leads on from the cursor without leaving out a due row |
| `SchedulePolls.Runner.Advance` | `apps/worker/src/schedules.ts:81-88` | Replaces the module variable by a fresh object exactly when the held object is current and the value differs |
| `SchedulePolls.Runner.ProcessDueSchedules` | `apps/worker/src/schedules.ts:78-200` | An uninterrupted poll takes the steps of the interleaving model. It starts, in id order, the first fifty due rows after the cursor, or from the beginning when there are none, until the deadline or a row whose worker is missing; the cursor ends at the last row started, or at the beginning when a page of fewer than fifty is done |
| `SchedulePolls.PageIsUnique` | `packages/db/src/schedule-service.ts:350-371` | The first fifty due rows after a position, as stated by membership and order, are one list |
| `ScheduleOccurrence.OneJobPerOccurrence` | `apps/worker/src/schedules.ts:143-183` | Under any interleaving of polls, crashes, late queue commands and user edits whose writes land before the time they computed, each occurrence gets at most one job, and the pending one has none and cannot get one late |
| `ScheduleOccurrence.OneJobExactly` | `packages/db/src/schedule-service.ts:137-171` | One job per occurrence in all runs in which every edit's write lands at least a given margin before the time it computed, if and only if the margin is positive |
| `ScheduleOccurrence.WriteIsHarmlessExactly` | `packages/db/src/schedule-service.ts:161-170` | For one edit's write of a computed time, in any state that timely edits reach: all continuations with timely edits keep one job per occurrence if and only if every occurrence that has a job, or may still get one, is before that time |
| `ScheduleOccurrence.LateEditDoublesJob` | `packages/db/src/schedule-service.ts:147-170` | A run in which an edit computes the coming minute, a poll claims it and its job lands, the edit then writes it, and a second poll claims it again |
| `ScheduleOccurrence.UncertainIsNeverRestored` | `apps/worker/src/schedules.ts:156-177` | A poll whose queue command was attempted never puts its occurrence back |
| `ScheduleOccurrence.RestoredIsNeverPublished` | `packages/db/src/schedule-service.ts:261-309` | A poll that put its occurrence back never has a job for its scan |
| `ScheduleOccurrence.DueTimestampIsKept` | `apps/worker/src/schedules.ts:123-166` | Over its whole life a poll that deferred, for active work or an absent worker, moved the due timestamp not at all, and one whose enqueue was acknowledged or left uncertain moved it once, by its claim; the recorded moves account for every change |
| `ScheduleOccurrence.DeferralsKeepTheOccurrence` | `apps/worker/src/schedules.ts:123-130` | While every poll deferred and no edit wrote a time, the row stays due as it was |
| `ScheduleOccurrence.CleanupUndoesClaim` | `packages/db/src/schedule-service.ts:221-309` | A claim whose enqueue never reached the queue is undone: due and last-run times are as before and no job exists |
| `ScheduleOccurrence.StepKeepsInv` | `packages/integrations/src/queue.ts:220-307` | Every step, and every edit's write of a time after all live claims, keeps the live claims on distinct occurrences before the pending one |
| `ScheduleOccurrence.FetchedExactly` | `packages/db/src/schedule-service.ts:350-371` | A poll gets the row if and only if it is enabled and due |
| `ScheduleOccurrence.ClaimedExactly` | `packages/db/src/schedule-service.ts:221-259` | A claim, and a denial that advances the row, takes effect if and only if the row is enabled, unedited and due as it was read; the new row is stated field by field |
| `ScheduleOccurrence.EnqueueEndsExactly` | `apps/worker/src/schedules.ts:143-183` | An enqueue that failed before its command goes to the cleanup, every other failure keeps the claim, and it returns only with its job in the queue |
| `ScheduleOccurrence.RestoredExactly` | `packages/db/src/schedule-service.ts:261-309` | A restore puts the due and last-run times back if and only if the row is field by field as the claim left it and no worker has started the scan |
| `ScheduleOccurrence.DisabledExactly` | `apps/worker/src/schedules.ts:105-122` | An unsupported schedule is disabled if and only if it was not edited since, and keeps its other fields |
| `ScheduleOccurrence.ComputedExactly` | `packages/db/src/schedule-service.ts:147-160` | An edit computes a time only for a new cron or for enabling a row without one, and then a later one; a new cron without a next time is refused |
| `ScheduleOccurrence.WrittenExactly` | `packages/db/src/schedule-service.ts:161-170` | The edit's write stores the computed time, if any, and the switch, if any, and nothing else |
| `ScheduleOccurrence.RunIsFinal` | `packages/integrations/src/queue.ts:227-256` | What is known of a queue command, attempted or never submitted, never changes again |
| `Grace.GraceIsBounded` | `packages/billing/src/grace.ts:97-189` | However increments, re-reads and clamps interleave, the capped deltas added and told to continue in one epoch sum to less than 15 minutes and stored usage stays under twice the cap |
| `Grace.GraceIsBoundedUnderLock` | `packages/billing/src/grace.ts:187-188` | With the row lock of the transaction, all ticks added between two resets and told to continue sum to less than 15 minutes |
| `Grace.SplitTicksExceedTheCap` | `packages/billing/src/grace.ts:109-143` | Without the row lock, resets between increment and re-read let ticks of one epoch continue beyond the cap |
| `Grace.StepKeepsInv` | `packages/billing/src/grace.ts:109-150` | Each step keeps the row equal to what this epoch added, below the cap, and some grace unspent by the told ticks of every epoch |
| `Grace.ResetRefillsExactly` | `packages/billing/src/grace.ts:207-221` | A reset for a cycle start empties the budget exactly when usage predates the cycle or there is none |
| `Grace.ReplayedResetRefillsNothing` | `packages/billing/src/grace.ts:207-221` | Replaying a reset for the same or an earlier cycle start changes nothing, whether the first took effect or not and whatever happened in between |
| `Grace.UninterruptedCall` | `packages/billing/src/grace.ts:91-189` | The uninterrupted call is one of the interleavings and has its outcome |
| `Grace.ReportedStatePredicts` | `packages/billing/src/grace.ts:47-74` | A tick continues exactly when it is positive and leaves some of the reported grace, and returns what remains |
| `Grace.ReportedStateFollowsTicks` | `packages/billing/src/grace.ts:47-74` | After a tick that continues the account is reported in grace, after one that stops its fifteen minutes are exceeded; a reset row has them all |
| `Grace.NothingIsAdded` | `packages/billing/src/grace.ts:91-118` | A tick without time or with nothing left adds nothing; every other adds its time, fifteen minutes at most |
| `Grace.StartIsKept` | `packages/billing/src/grace.ts:124-143` | The first start stamp stays until a reset takes effect, however many ticks saw none |
| `Grace.ContinuingIsStamped` | `packages/billing/src/grace.ts:124-143` | In every execution a tick told to continue since the last reset has a start stamp |
| `Grace.BillingRow.EnterGrace` | `packages/billing/src/grace.ts:91-189` | The call on its own: new row, whether to continue, and what remains, for non-positive, oversized and exhausted cases too |
| `Grace.BillingRow.ResetGrace` | `packages/billing/src/grace.ts:196-224` | Clears usage and cycle start exactly on the rows its filter selects |
| `License.OneLicencePerOrder` | `packages/billing/src/license-fulfillment.ts:444-628` | Over all interleavings of first issue, racing losers and retries: one licence per provider and order, and every returning call for an order gives that licence |
| `License.PastMintingIsSigned` | `packages/billing/src/license-fulfillment.ts:481-608` | Any delivery status past MINTED implies a signed licence |
| `License.OneReturnPerReset` | `packages/billing/src/license-fulfillment.ts:560-577` | Between two returns of one key lies a delivery-retry reset |
| `License.LateRetrievalsNeverReturn` | `packages/billing/src/license-fulfillment.ts:635-687` | Once a key was returned, no later retrieval reads it, so every further return is by one that had read it before, even after a reset |
| `License.RetrievalOutcomes` | `packages/billing/src/license-fulfillment.ts:652-687` | A successful retrieval gives the key its row was minted with, and one that fails to sign consumed nothing |
| `License.SplitRetrievalReturnsTwice` | `packages/billing/src/license-fulfillment.ts:567-577` | An execution in which a retry between read and consume lets the key be returned twice |
| `LicenseReturns.ReturnableExactly` | `packages/billing/src/license-fulfillment.ts:444-687` | In every state that the invariant describes: some continuation returns the key if and only if its used flag is clear or a delivery retry can still clear it, and a retrieval holds the key or one that starts now can read and sign it |
| `LicenseReturns.ReturnedAgainExactly` | `packages/billing/src/license-fulfillment.ts:641-687` | After a first return, in every reachable state: a second return is possible if and only if the flag can be cleared and a retrieval is already past its read with its signature done or still to be had |
| `LicenseReturns.SettledKeyIsReturnedOnce` | `packages/billing/src/license-fulfillment.ts:560-687` | A used key whose licence is delivered and whose order has no call in flight is never returned again, whatever is issued, presented or revoked later |
| `LicenseReturns.TokenIsReadExactly` | `packages/billing/src/license-fulfillment.ts:635-652` | A presented token is read if and only if it is a row's current one, not used and not expired, and the key is still stored; every other is refused without a trace |
| `LicenseReturns.ExpiredIsRefused` | `packages/billing/src/license-fulfillment.ts:648-651` | Over every run: a retrieval whose token has expired when looked up is refused for good and neither reads nor returns a key |
| `LicenseReturns.ResetReplacesToken` | `packages/billing/src/license-fulfillment.ts:556-577` | A delivery retry gives the row a token no link had, so that earlier links open nothing |
| `LicenseCalls.FirstIssue` | `packages/billing/src/license-fulfillment.ts:444-542` | A first issue alone adds one licence and row; it returns the licence if and only if signing, marking, mailing and noting succeed, and the row's status says how far it got |
| `LicenseCalls.RepeatedIssue` | `packages/billing/src/license-fulfillment.ts:544-610` | A repeated issue returns a delivered licence unchanged; otherwise it signs, replaces the token and mails again, with the status for every step that fails; a licence that cannot be signed stops it |
| `LicenseCalls.InsertFails` | `packages/billing/src/license-fulfillment.ts:612-628` | A failed insert, or a conflict on another column, adds nothing and throws |
| `LicenseCalls.FallbackFindsWinner` | `packages/billing/src/license-fulfillment.ts:617-624` | After such a conflict a licence that the order has by then is returned |
| `LicenseCalls.OneRetrieval` | `packages/billing/src/license-fulfillment.ts:635-687` | A retrieval alone gives the key once if the licence is or can be signed and the use is recorded, and uses nothing up otherwise |
| `License.StepKeepsInv` | `packages/billing/src/license-fulfillment.ts:444-687` | Every step keeps rows unique and paired with licences, the used flag equal to the log's account of it, and the stored key present until first returned |
| `Account.CompareIsTotalPreorder` | `packages/billing/src/account.ts:89-97` | The comparator over ranked rows is a total preorder whose ties agree in rank, period start and update time |
| `Account.RankSeparatesEntitlement` | `packages/billing/src/account.ts:58-72` | Ranks 0 to 3 are exactly the entitled rows, so an entitled row outranks every other |
| `Account.GoverningIsFirstMaximum` | `packages/billing/src/account.ts:89-99` | The chosen row governs over all earlier rows strictly and over later ones weakly, each ranked at its own clock reading |
| `Account.GovernsIsUnique` | `packages/billing/src/account.ts:89-99` | At most one row of the list governs in that sense |
| `Account.ChosenIsPreferred` | `packages/billing/src/account.ts:49-97` | By the fields of the rows: entitled before not; active before past due before cancelled before trialing; an expired trial before the rest; then the latest period start, then the latest update |
| `Account.EntitledUntil` | `packages/billing/src/account.ts:49-56` | Active and trialing contracts always entitle, cancelled and past due ones exactly until their term ends, others never |
| `Account.PlanIsThatOfTheChosen` | `packages/billing/src/account.ts:82-109` | The effective plan is the chosen contract's while that entitles and FREE otherwise; without rows there is none |
| `Account.OrderOfRowsIsIrrelevant` | `packages/billing/src/account.ts:83-99` | For every permutation of the ranked rows, so for every permutation of the rows at a fixed time, the chosen row has the same key and entitlement, and is the same row up to full ties |
| `Account.EntitledExactlyWhenAnyRowIs` | `packages/billing/src/account.ts:49-56` | The chosen row entitles, at the reading that ranked it, if and only if some row does at its own |
| `Account.PlanWithheldExactly` | `packages/billing/src/account.ts:99-109` | The paid plan is withheld while another row entitles exactly when the chosen term ends between the reading that ranked the row and the later one that projects it |
| `Account.LapseCanHideTrial` | `packages/billing/src/account.ts:99-109` | Two rows for which that happens |
| `AtomicWrite.Disk.AtomicWrite` | `packages/agent-rules/src/atomic-write.ts:61-131` | With any failing call and any writes by other processes: before the rename only the temporary is touched and it is removed unless its removal fails; the rename puts a whole, synced file with the requested, else preserved, mode in place; the expected content was seen before; paths that no one else writes are as before or hold the whole new file; if others write the destination at most in place it succeeds exactly when the destination is replaceable |
| `AtomicWrite.Disk.Stage` | `packages/agent-rules/src/atomic-write.ts:66-93` | Looks up the destination and fills a private temporary; a filled temporary is whole, synced and has its final mode |
| `AtomicWrite.FinalModeBits` | `packages/agent-rules/src/atomic-write.ts:66-82` | The new file's mode bit by bit: the one asked for, else the old file's, else read-write without the umask |
| `AtomicWrite.Disk.Recheck` | `packages/agent-rules/src/atomic-write.ts:95-111` | Passing means the destination is the one first seen and, if asked, held the expected content at a logged call |
| `AtomicWrite.Disk.PutInPlace` | `packages/agent-rules/src/atomic-write.ts:95-124` | Everything but the rename leaves all files alone, and the rename moves the temporary as it was to the destination |
| `AtomicWrite.EveryCallKeepsOrReplaces` | `packages/agent-rules/src/atomic-write.ts:79-131` | Whatever other processes do, each call leaves the destination as it found it, or whole and new |
| `AtomicWrite.DestinationIsOldOrNew` | `packages/agent-rules/src/atomic-write.ts:79-131` | If others leave the destination alone, it is after every call the old node or the whole new file, whatever happens to other paths |
| `AtomicWrite.PathFollows` | `packages/agent-rules/src/atomic-write.ts:95-116` | A path that no own call changes is found as the last write of another process, if any, left it |
| `AtomicWrite.LastForeignExactly` | `packages/agent-rules/src/atomic-write.ts:95-111` | The last foreign write in a range of calls is absent if and only if there is none, and is otherwise one with none after it |
| `AtomicWrite.CrashLeavesOldOrNew` | `packages/agent-rules/src/atomic-write.ts:79-131` | If others leave the destination alone, a crash after any call leaves the whole old content or the whole new content |
| `RuleText.MatchExactly` | `packages/agent-rules/src/rules.ts:19-20` | The greedy marker matcher accepts exactly what the regular expression's tokens accept, in the one possible way |
| `RuleText.MarkersAreDeterministic` | `packages/agent-rules/src/rules.ts:19-20` | In both markers no run of characters can swallow what the next token starts with |
| `RuleText.ClassMembers` | `packages/agent-rules/src/rules.ts:19-20` | The character classes of the expression, member by member |
| `RuleText.ContentText` | `packages/agent-rules/src/renderers/index.ts:112-126` | The rendered content as text: begin marker with version and hash, body, end marker |
| `RuleText.MatchStopsAtOpen` | `packages/agent-rules/src/rules.ts:19-20` | A marker that starts before an opening `<` ends before it |
| `RuleText.ExtractBlocks` | `packages/agent-rules/src/rules.ts:34-48` | The search loop with its last index returns all blocks: the leftmost, then those of the text after it |
| `RuleText.BlocksAreOrdered` | `packages/agent-rules/src/rules.ts:34-48` | Extracted blocks are in order, disjoint and within the text |
| `RuleText.SpliceOut` | `packages/agent-rules/src/rules.ts:334-337` | Cutting the blocks out from the last to the first leaves exactly the text between them |
| `RuleText.ReadsBackExactly` | `packages/agent-rules/src/renderers/index.ts:122-126` | A rendered rule reads back as its own block, whatever follows, if and only if its version is word characters and dots and its body has no end marker |
| `RuleText.NothingOpensBefore` | `packages/agent-rules/src/rules.ts:34-48` | No begin marker opens in the text before the first block |
| `RuleText.FindBlockSkips` | `packages/agent-rules/src/rules.ts:34-48` | Text in which no begin marker opens moves the first block by its length and hides nothing |
| `RuleEdit.UpdateTouchesFirstBlockOnly` | `packages/agent-rules/src/rules.ts:214-237` | An update keeps the text on both sides of the first block, no block opens before the new one, and later blocks are the same further along |
| `RuleEdit.WrittenBlockIsFoundExactly` | `packages/agent-rules/src/rules.ts:235-237` | The new block is the first block found, at the place of the old one, if and only if the rule is readable |
| `RuleEdit.SecondRunSkips` | `packages/agent-rules/src/rules.ts:185-247` | After any run that wrote text, another with the same readable rule reports skipped and writes nothing |
| `RuleEdit.RefusedExactly` | `packages/agent-rules/src/rules.ts:191-261` | A file is refused, with nothing written, if and only if it has no block or its first was edited, and nothing forces the write |
| `RuleEdit.SkippedExactly` | `packages/agent-rules/src/rules.ts:214-225` | A file is skipped if and only if its first block is unedited and is the rule's own |
| `RuleEdit.UneditedBlockIsReplaced` | `packages/agent-rules/src/rules.ts:227-247` | Where the first block is unedited a write replaces exactly that block's range, forced or not |
| `RuleEdit.WholeFileIsWritten` | `packages/agent-rules/src/rules.ts:165-284` | A file that is not there, and with force an edited or unmanaged one, becomes the rule's own content |
| `RuleRepeat.SecondRunSkipsExactly` | `packages/agent-rules/src/rules.ts:185-247` | After any run that wrote text, another with the same rule reports skipped if and only if its version is word characters and dots, at most followed by white space, and its body has no end marker |
| `RuleRepeat.RepeatsIsWider` | `packages/agent-rules/src/rules.ts:211-217` | Every readable rule is recognised by a second run, and so is one whose version ends in a space, which is not read back as written |
| `RuleEdit.UnreadableVersionIsLost` | `packages/agent-rules/src/rules.ts:185-261` | With a version that has a character other than word characters, dots and white space the written block is never found again and the next run refuses the file |
| `RuleEdit.HyphenIsLost` | `packages/agent-rules/src/rules.ts:185-261` | The version `1.0-beta` is such a one |
| `RuleEdit.UpdateIsValid` | `packages/agent-rules/src/rules.ts:386-413` | After an update the check finds the new block valid and every other block as it was |
| `RuleEdit.NewFileIsValid` | `packages/agent-rules/src/rules.ts:386-403` | A new or overwritten file holds one valid block |
| `RuleEdit.CheckContent` | `packages/agent-rules/src/rules.ts:394-413` | The loop gives one verdict per block, in order |
| `RuleEdit.CheckedExactly` | `packages/agent-rules/src/rules.ts:394-413` | A block is valid if and only if its body hashes to what it declares, and is reported with both hashes otherwise |
| `RuleEdit.Remove` | `packages/agent-rules/src/rules.ts:321-352` | Removal deletes, rewrites or leaves alone the text as its specification says |
| `RuleEdit.RemovedExactly` | `packages/agent-rules/src/rules.ts:321-352` | A file without blocks is left alone, one blank outside them is deleted, and every other becomes the text outside them with one newline for the run at its end |
| `RuleEdit.UpdateAddsOneNewline` | `packages/agent-rules/src/rules.ts:334-337` | After an update the text outside the blocks has exactly one newline more, where the first block was |
| `RuleEdit.UpdateThenRemoveExactly` | `packages/agent-rules/src/rules.ts:334-352` | Removing after an update gives the same file as removing before it if and only if only whitespace is outside the blocks, or only newlines follow the first block with one next to it |
| `RuleEditor.Decide` | `packages/agent-rules/src/rules.ts:185-247` | The decision on an existing file is the specified one in every branch |
| `RuleEditor.ReportedExactly` | `packages/agent-rules/src/rules.ts:145-284` | Outcome names: a write is reported as one, or as one that would be made in a dry run; a refusal is one in both |
| `RuleEditor.BackupExisting` | `packages/agent-rules/src/rules.ts:66-99` | Whatever other processes write: only the backup and its temporary change, and a finished backup is a whole, synced copy of the file opened at a named call, with the permissions seen just before, whose bytes are those at that call unless others wrote before the read |
| `RuleEditor.ReplaceWithBackup` | `packages/agent-rules/src/rules.ts:123-127` | Whatever other processes write: own calls change only target, backup and temporaries; one named call destroys the target's bytes with the backup in place; those bytes are the backup's if and only if no other process wrote the target since the backup's read, or the last that did wrote the same bytes |
| `RuleEditor.DestroyedExactly` | `packages/agent-rules/src/rules.ts:91-126` | That condition, for any log: the bytes found by a later call are those copied if and only if the last foreign write in between, if any, left them |
| `RuleEditor.ForeignBytesAreLost` | `packages/agent-rules/src/rules.ts:123-127` | With one foreign write to the target after the backup's read, the editor succeeds, the rename finds the foreign bytes, and afterwards no file holds them |
| `RuleEditor.AddRule` | `packages/agent-rules/src/rules.ts:145-284` | Whatever calls fail and other processes write, the run is accounted for as above, and a dry run changes nothing; if no call fails and no one else writes the target, outcome and text are the specified ones |
| `RuleEditor.RemoveRule` | `packages/agent-rules/src/rules.ts:286-363` | The same for removal, including deletion of a file that is left blank |
| `RuleEditor.DeleteWithBackup` | `packages/agent-rules/src/rules.ts:339-343` | As for replacing: a target is deleted only with a backup in place, and the bytes deleted are the backup's under the same exact condition |
| `RuleEditor.CheckRule` | `packages/agent-rules/src/rules.ts:365-417` | Nothing is written, and if no call fails and no one else writes it a file is missing, without blocks, or gets its blocks' verdicts |
| `Crc32.Compute` | `packages/agent-plugin/src/export.ts:282-291` | The byte loop computes the bit-serial register of the same polynomial over the message's bits |
| `Crc32.ByteFeeds` | `packages/agent-plugin/src/export.ts:284-288` | One exclusive-or of a byte and eight steps feed exactly that byte's bits |
| `Crc32.StepIsLinear` | `packages/agent-plugin/src/export.ts:287` | The bit step is linear |
| `Crc32.StepIsBijective` | `packages/agent-plugin/src/export.ts:287` | The bit step is a bijection on 32-bit states |
| `Crc32.FeedIsXorThenSteps` | `packages/agent-plugin/src/export.ts:284-288` | Feeding up to 32 bits one at a time is one exclusive-or followed by as many steps |
| `Crc32.BurstIsDetected` | `packages/agent-plugin/src/export.ts:282-291` | Equal-length messages that differ only inside a window of at most 32 bits have different checksums |
| `Crc32.FourByteWindowIsDetected` | `packages/agent-plugin/src/export.ts:282-291` | Equal-length inputs that differ only inside at most 4 consecutive bytes have different checksums |
| `EthernetCrc.PolynomialIsEthernet` | `packages/agent-plugin/src/export.ts:287` | The polynomial is the generator of IEEE 802.3, term by term |
| `EthernetCrc.OnesCheck` | `packages/agent-plugin/src/export.ts:283-290` | Check value: four bytes of ones, which cancel the preset, give 0xffffffff |
| `EthernetCrc.PolynomialCheck` | `packages/agent-plugin/src/export.ts:283-290` | Check value: ff ff ff 7f, which leaves one bit of the preset, gives 0x12477cdf |
| `StoredZip.CreateStoredZip` | `packages/agent-plugin/src/export.ts:294-343` | Returns the specified archive exactly when every field fits; the size guard and the end-record offset have separate errors |
| `StoredZip.WriteLocalHeader` | `packages/agent-plugin/src/export.ts:300-311` | The in-place writes produce the fields of section 4.3.7 of the PKWARE APPNOTE in order |
| `StoredZip.WriteCentralHeader` | `packages/agent-plugin/src/export.ts:313-330` | The in-place writes produce the fields of section 4.3.12 of the PKWARE APPNOTE in order |
| `StoredZip.WriteEndRecord` | `packages/agent-plugin/src/export.ts:332-340` | The in-place writes produce the fields of section 4.3.16 of the PKWARE APPNOTE in order |
| `StoredZip.LayoutFields` | `packages/agent-plugin/src/export.ts:299-342` | Every field of the three records by its offset and value, with name and contents where the records say they are |
| `StoredZip.ReadLayout` | `packages/agent-plugin/src/export.ts:294-343` | A reader that follows the end record to the central entry to the local header recovers name and contents, if the checksum matches |
| `StoredZip.RoundTrip` | `packages/agent-plugin/src/export.ts:294-343` | For every name and contents that fit, reading the archive gives them back and the length is 98 + 2|name| + |contents| |
| `StoredZip.DamagedWindowIsRejected` | `packages/agent-plugin/src/export.ts:299-309` | The reader rejects an archive whose contents were altered inside any 4 consecutive bytes |
| `Canonical.CanonicalExactly` | `packages/agent-registry/src/versions.ts:72-81` | Two values have equal images if and only if they agree up to key order and undefined fields, at every depth |
| `Canonical.Idempotent` | `packages/agent-registry/src/versions.ts:72-81` | The canonical form of a canonical form is itself |
| `Canonical.ImageIsSame` | `packages/agent-registry/src/versions.ts:72-81` | The canonical form agrees with the value it came from |
| `Canonical.LessExactly` | `packages/agent-registry/src/versions.ts:74-77` | Keys are ordered by the first code unit that differs, a proper prefix first |
| `Canonical.PropertyOrder` | `packages/agent-registry/src/versions.ts:74-79` | The properties of a canonical object: array indices in numeric order, then the other keys in code-unit order |
| `Canonical.IndexExactly` | `packages/agent-registry/src/versions.ts:74-79` | Array indices are the canonical decimals below 2^32 - 1 |
| `Fingerprint.Compute` | `packages/agent-registry/src/versions.ts:107-117` | The loop computes the two hashes, and the result is 16 hex digits |
| `Fingerprint.SameContractSameFingerprint` | `packages/agent-registry/src/versions.ts:83-117` | Contracts that agree up to key order and undefined fields share one fingerprint, whatever the serialiser |
| `Fingerprint.HashIsInjective` | `packages/agent-registry/src/versions.ts:111-115` | For a fixed text each of the two hashes is injective in its seed |
| `Fingerprint.OneUnitDriftIsNoticed` | `packages/agent-registry/src/versions.ts:111-117` | Serialisations that differ in one character differ in both halves of the fingerprint |
| `Fingerprint.Hex8ReadsBack` | `packages/agent-registry/src/versions.ts:117` | Eight padded hex digits read back as the hash |
| `Fingerprint.ShortestFingerprints` | `packages/agent-registry/src/versions.ts:107-117` | The seeds and factors by the fingerprints of the empty and of the one-unit zero text; the first half is FNV-1a |
| `Fingerprint.MixExtremes` | `packages/agent-registry/src/versions.ts:111-115` | A zero unit leaves the product, and a unit equal to the hash cancels it |
| `Money.MoneyIsConserved` | `packages/billing/src/domain-events.ts:233-301` | Whenever money is returned, the printed commissionable plus tax equals gross, all parts are non-negative amounts, and the discount is within gross |
| `Money.InclusiveTaxIsNearest` | `packages/billing/src/domain-events.ts:289-300` | A captured payment yields money if and only if it is in INR and its minor units are known; the printed inclusive tax differs from the exact 18/118 share by at most half of the fourth decimal unit |
| `Money.InclusiveTaxFits` | `packages/billing/src/domain-events.ts:229-231` | The rounded tax never exceeds the price, and ties round upward |
| `Money.ItemisedOrderExactly` | `packages/billing/src/domain-events.ts:273-287` | An itemised order yields money if and only if its own numbers agree, and prints just those numbers |
| `Money.FormatReadsBack` | `packages/billing/src/domain-events.ts:219-223` | The four-decimal text parses back to the same integer |
| `Money.CurrencyExactly` | `packages/billing/src/domain-events.ts:213-217` | A field is a currency if and only if it spells USD or INR in any case |
| `Money.MoneyIsInGivenCurrency` | `packages/billing/src/domain-events.ts:233-301` | Only payments, refunds and chargebacks give money, in the currency that the first given field spells |
| `Money.ReversalExactly` | `packages/billing/src/domain-events.ts:245-271` | A refund or chargeback yields money if and only if its currency and minor units are known; all of it is commissionable, without tax and discount |
| `Money.MinorIsRead` | `packages/billing/src/domain-events.ts:205-211` | Numbers are minor units up to the largest safe integer, digit texts of any length, and nothing else is |
| `Money.EventKinds` | `packages/billing/src/domain-events.ts:99-111` | The raw event types that move money, each in one direction |
| `Money.AmountReadsBack` | `packages/billing/src/domain-events.ts:219-223` | Every four-decimal text is printed from the integer it parses to |
| `OperationalHealth.Collector.Tick` | `apps/worker/src/operational-health.ts:223-262` | At each sample of a non-decreasing clock whose collection nothing overlaps the alert fires exactly when an unbroken run of samples above their own thresholds is at least 10 minutes old |
| `OperationalHealth.Collector.Begin` | `apps/worker/src/operational-health.ts:223-231` | The stored timestamp is the start of the current unbroken run of the whole history, failed and overlapping collections included |
| `OperationalHealth.Collector.Finish` | `apps/worker/src/operational-health.ts:258-262` | A collection that ends after others have stored their samples fires exactly when a run unbroken to the latest sample began at least 10 minutes before its own |
| `OperationalHealth.OverlapSilencesExactly` | `apps/worker/src/operational-health.ts:227-262` | Overlap can only silence an alert, and does so exactly when a later sample broke the run |
| `OperationalHealth.EvaluateQueueDepth` | `apps/worker/src/operational-health.ts:84-94` | The queue-depth clause fires exactly on a present depth above the threshold for long enough, with the right value and severity |
| `OperationalHealth.ExceedsExactly` | `apps/worker/src/operational-health.ts:84-88` | A sample is above its threshold from more than two waiting jobs a worker on, one worker at least |
| `OperationalHealth.RunIndexIsLeast` | `apps/worker/src/operational-health.ts:225-231` | The stored run is the longest unbroken one that reaches the last sample |
| `OperationalHealth.StoredStartDecides` | `apps/worker/src/operational-health.ts:84-94` | One stored start decides whether any sustained run exists |

## Left out

- Redis, BullMQ and Prisma clients, timers, logging and process shutdown: only the steps and states above.
- The clock is one number per model; clocks of different machines that disagree are not modelled.
- `Lease.RunKeepsInv`: WATCH is modelled by a count of writes to the key, and each server's choice whether expiry aborts EXEC is a parameter; GET and WATCH commands that land after their caller gave up have no effect and are not steps; commands already sent are not sent again after a reconnection, as configured.
- `LeaseClient.ReconciliationLease.Tick`: the renewal's commands are one method call, between whose commands other leases act; `Release` takes the rest of a renewal under way as a parameter.
- `QueueSweep.Backend.Sweep`: other writers of the table and the queue between the steps of one sweep are not modelled; a lease lost inside a removal is the same as a removal that throws, followed by the loss.
- `QueueSweep.SecondSweepRepairsNothingExactly`: slot release and the workspace of a scan are not part of the state.
- `reconcileExactQueuedScanOrphan`, `reconcileFailedQueueJob` and the idle backstop of the sweep: single branches over the same steps.
- `scheduledScanAdmission`: its ladder of reads decides between the modelled steps of deferring, denying and claiming; the reads themselves are not modelled.
- `SchedulePolls.Runner.ProcessDueSchedules`: overlap is treated in the interleaving model, whose steps this method takes; what happens inside a row is in `ScheduleOccurrence`.
- `ScheduleOccurrence.OneJobPerOccurrence`: the scan's reservation and slot rows are one step each; deleted schedules and targets are disabled ones; account and workspace locks are not modelled; computed times are any later times, not only whole minutes.
- `ScheduleOccurrence.WriteIsHarmlessExactly`: a further write after an earlier harmful one is not covered; it may find occurrences already doubled.
- `Grace.GraceIsBounded`: the audit record and the choice of the billing row are not modelled; a database error stops the tick.
- `Grace.GraceIsBoundedUnderLock`: a tick whose transaction rolls back is not a step of its own; under the row lock it leaves the row as if it had not begun, so a run with it is the run without its steps, while an abandoned tick keeps its increment.
- `License.OneLicencePerOrder`: the steps are transitions of a state machine and not methods of a class, since every one of them is a database row's update; licences are never deleted; seat counts, products and e-mail texts are not modelled; tokens and keys are fresh numbers.
- `Account.GoverningIsFirstMaximum`: fields of the billing row that neither the order nor the plan reads are not modelled.
- `AtomicWrite.Disk.AtomicWrite`: symbolic links in the directory chain are a check that may reject; inode and device are one number; paths that only differ in spelling are different paths; temporary names are unknown to other processes.
- `AtomicWrite.CrashLeavesOldOrNew`: stated for a destination that others leave alone, since a foreign write may leave anything.
- `RuleText.MatchExactly`: strings are sequences of characters, where the original has UTF-16 code units; all marker characters are single units in both.
- `RuleEditor.AddRule`: one file of the agent's list; creating the parent directory, the project-root containment and the git query, which only chooses a message, are not modelled.
- The rule renderers: a rendered body is any text, its hash any function to twelve hex digits.
- `Crc32.Compute`: words are sequences of 32 bits, so that shifting and exclusive-or are those of the original's unsigned 32-bit operations.
- `StoredZip.CreateStoredZip`: names are byte sequences; UTF-8 encoding of the name is not modelled.
- `Canonical.CanonicalExactly`: the order in which JavaScript lists integer-like keys is modelled; prototypes, symbols, accessors and cyclic values are not.
- `Fingerprint.SameContractSameFingerprint`: the serialiser is any function of the canonical form.
- `Money.MoneyIsConserved`: upper-casing of currency codes covers the characters whose upper case is an ASCII letter, the dotless i and the long s included, since no other can yield a supported code; provider objects are their relevant fields.
- `OperationalHealth.Collector.Tick`: the other alerts are independent comparisons of one snapshot; the database reads between the two halves of a collection are not modelled.
- Real cryptography, key vaults, OAuth, web pages and the remaining code of `packages/agent-plugin/src/export.ts`: no property of the core depends on them.
