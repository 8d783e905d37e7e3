# Verified model of hive-server

hive-server coordinates agents: they take exclusive, expiring claims on resources and queue for
held ones, share versioned memory entries, move tasks through a state machine, keep ordered todo
lists, and react to GitHub events. This project models that behaviour in Dafny and proves what
the protocol keeps on every run, what each store method does to its tables, and exactly when the
code meets what its comments promise. `dafny verify dfyconfig.toml` checks everything.

## How it is built

- **Claims.** `ClaimTables` gives the two tables and one atomic step per committed transaction;
  `Transaction` is the database transaction, statement by statement, that a failed statement poisons;
  `ClaimStore` is the store as it runs on it, each method proved to be exactly one step or no change,
  with `Promotion` for how promotions add up to a step; `ClaimRuns`,
  `FairLock`, `DividedLock`, `QueuePosition`, `ExpiryFixpoint` and `Progress` prove properties of all
  runs of those steps;
  `ClaimApi` is the handlers, with arbitrary other clients between any two of their transactions.
- **Retries.** `Errors`, `Delay` and `Retry` are the retry loop over error trees and its backoff; `ClaimClosures` and
  `Memory` are closures it re-runs, with the variables they capture. The bodies in `ClaimStore` and
  `Memory` are proved to compute these closures, captured variables and poisoning included.
- **The rest.** `Tasks` and `TaskStatus`, `Todos`, `Queries` over `Like`, `Webhook` over
  `IssueTitles`, and `LogWriter`. `Clock` adds seconds to times, renders them as text and compares the
  texts; `Calendar` proves its arithmetic against a count of days, `TimeReading` its text against a reader.
  `Ordering` is ORDER BY, `Basics` holds shared datatypes.

Where a contract refers to a step or a function of the model, further clauses or lemmas write the result out
in columns: `ClaimStore.ReleaseWrites`, `ClaimStore.ExpiryWritesClaims`, `ClaimRuns.PromotedClaimIs` and their like.

Assumptions: transactions are serializable, so each is one atomic step; a failed statement poisons
its transaction and a failed commit changes nothing; a transaction that reports a failed commit has
not committed; the partial unique index rejects a second active claim on a resource. Clocks, fresh
ids, jitter, server faults, the choice among rows that tie, and what other clients do are inputs.
Times are UTC; where text order matters the years have four digits (`FourDigitYear`), the range in
which RFC 3339 (section 5.6) defines the format.

## Where the code does less than its comments say

- Times are compared as text with trimmed fractions. The order is wrong exactly when two instants
  share a second and one trimmed fraction is a proper prefix of the other (`Clock.TextOrderIsTimeOrder`);
  section 5.1 of RFC 3339 asks for equally long fractions. A claim can so be expired up to a second early
  or late (`ClaimRuns.ExpireIsExact`).
- A claim request that finds the resource held queues in a second transaction. If the resource was
  freed in between, the waiter is stranded without a holder to promote it, and a later request
  overtakes it (`ClaimRuns.OnlyALateEnqueueStrands`, and the run `Progress.AHandlerRunStrands`).
  `DividedLock` is the lock that the tables refine with such enqueues on every run.
- Only an expiry sweeps the queue. An expiry never grants a waiter whose lifetime is over
  (`ClaimRuns.ExpiryGrantsNobodyStale`), but a release does, with a full new lifetime
  (`Progress.ReleaseGrantsEvenTheStale`).
- `ReleaseClaim` has no status test. On a dead claim it still pops a waiter, and it fails when the
  resource is held by another claim while somebody waits (`ClaimStore.ClaimStore.ReleaseClaim`).
- The comments call sweep and promotion errors non-fatal. A failed statement poisons the transaction,
  so each of them aborts the whole expiry (`ClaimStore.ClaimStore.ExpireOldClaims`), and a serialization
  failure among them is not retried (`ClaimClosures.ExpiryIsRetriedIff`, `ClaimClosures.DiscardedErrorsEndTheCall`).
- `UpsertMemory` overwrites the version it was given inside the closure. After a failed commit the
  retry presents the number it computed itself, so a writer can overwrite an update it never saw, once
  per failed commit, or a row it never knew of, and a row deleted in between comes back with its old creation
  time. Exactly when a retry still writes what a fresh run would: `Memory.CallWritesAsAFreshRunIff`. The
  traces: `Memory.FailedCommitsLoseUpdates`, `Memory.FailedInsertMeetsAnotherRow`,
  `Memory.FailedCommitRevivesCreationTime`.
- `RenewClaim` and `UpdateTask` read the row back after the commit; if that fails they report an error
  for a change that happened; `UpdateTask` reports not found if the task was deleted in between. Both contracts
  say exactly when.
- A memory prefix or a session path containing `%`, `_` or a backslash is a pattern, not text
  (`Queries.MemoryPrefixIsExactIffPlain`, `Like.InfixPatternIsExactIffPlain`).
- Closing an issue completes only tasks in progress, and blanks their session columns; a task that somebody
  else completes between the listing and the update gets the closing note too.
- A merge and the branch deletion after it are two releases: the second ends the claim of the waiter the
  first promoted (`Webhook.SecondEventFindsTheSuccessor`).
- Going back to a log writer inside another one, inside itself or inside stdout, ends in `Reset` under a held
  lock (`LogWriter.ReturningToStdoutDeadlocks`, `LogWriter.NestedReuseDeadlocks`).

## Model

| member | source | states |
|---|---|---|
| Clock.TextOrderIsTimeOrder | internal/store/claims.go:260-286 | Comparing two stored times as text agrees with time order if and only if their fractions do not clash; if they clash the order is reversed |
| Clock.TextOrderAcrossSeconds | internal/store/claims.go:283-287 | Times in different whole seconds are never misordered, in either direction |
| Clock.TextPastIsNearlyPast | internal/store/claims.go:283-287 | A time that reads as past lies less than one second ahead |
| Clock.WholeSecondSortsAfterItsFractions | internal/store/claims.go:45 | The family that goes wrong: a whole second reads as later than every fraction of it |
| Clock.PlusIsLater | internal/store/claims.go:187 | Adding n > 0 seconds across minutes, days, months and leap years lands in a later second with the same nanoseconds |
| Calendar.PlusAddsSeconds | internal/store/claims.go:187 | Adding n seconds raises the number of seconds since year 0, counted in closed form over leap years, by exactly n |
| Calendar.OrderIsByCounting | internal/store/claim_queue.go:115 | One time is before another if and only if its count of seconds is smaller, or equal with fewer nanoseconds |
| TimeReading.ReadsBack | internal/store/claim_queue.go:111-115 | A stored time reads back, field by field, as the time that was written, nanoseconds included |
| ClaimTables.StepKeepsInv | internal/store/store.go:247-248 | Every committed transaction keeps one active claim per resource and positive queue lifetimes |
| ClaimTables.ExpiryFreesEveryDueResource | internal/store/claims.go:282-316 | After the expiring UPDATE no collected resource has an active claim, so the promotion INSERT whose error is discarded cannot violate the unique index |
| ClaimTables.PromotedOnFreed | internal/store/claims.go:293-316 | A promoted waiter is an earliest unswept one on a resource whose holder ended in the same transaction, and the only one promoted there |
| ClaimTables.FreedIsHandedOn | internal/store/claims.go:172-200 | If a claim on a resource ends and an unswept waiter is queued there, somebody is promoted in the same transaction |
| ClaimTables.HandOverActive | internal/store/claims.go:246-318 | After release or expiry the active claims of a resource are the old ones that did not end and the promoted ones |
| ClaimRuns.PromotedClaimIs | internal/store/claims.go:177-197 | A promoted claim has the kind, resource, agent and metadata of its waiter, is active, and runs from now for exactly the waiter's lifetime |
| ClaimRuns.ExpirySweepsByTheClock | internal/store/claim_queue.go:97-127 | An expiry removes and does not grant a waiter whose queueing time plus lifetime lies before now; every other waiter stays with its row or is granted |
| ClaimRuns.ReleaseSweepsNobody | internal/store/claims.go:139-200 | A release keeps every waiter it does not grant, with its row |
| ClaimRuns.EndingWritesStatusAndTime | internal/store/claims.go:282-291 | Release and expiry write status and update time of the claims they end, which are the named one and the active ones with a lesser deadline text, and nothing else of any claim |
| ClaimRuns.PlainStepsWriteOneRow | internal/store/claims.go:220-229 | Create, enqueue and renew write the one row they name; a renewal writes exactly deadline and update time of an active claim |
| ClaimRuns.DeadlineStays | internal/store/claims.go:225-226 | Over any run without a renewal of it a claim keeps its deadline |
| ClaimRuns.RenewalHolds | internal/store/claims.go:220-320 | After a renewal until t and before the next one, no expiry ends the claim a full second or more before t, and one in a later second than t leaves it ended |
| ClaimRuns.ClaimMovesForward | internal/store/claims.go:148-151 | One step keeps a claim's agent and resource and moves its status only active to expired or released, or expired to released |
| ClaimRuns.ClaimLife | internal/store/claims.go:220-241 | Over any run a claim never disappears, never changes agent or resource, and once not active never becomes active again |
| ClaimRuns.ActivePeriodsAreDisjoint | internal/store/store.go:247-248 | Between two moments at which a claim is active it is the only active claim on its resource |
| ClaimRuns.ReleaseTouchesOneClaim | internal/store/claims.go:148-151 | A release leaves every existing claim but its own exactly as it was |
| ClaimRuns.CheckedReleaseIsSafe | internal/handlers/claims.go:178-201 | An owner-checked release at any later point still releases the agent's own claim and ends nobody else's, even if the claim expired and was replaced meanwhile |
| ClaimRuns.ExpireIsNotEarly | internal/store/claims.go:282-291 | An expiry ends only active claims, none of them a full second before its deadline |
| ClaimRuns.ExpireIsNotLate | internal/store/claims.go:282-291 | An expiry ends every active claim whose deadline lies in an earlier second |
| ClaimRuns.ExpireIsExact | internal/store/claims.go:282-291 | An expiry treats an active claim as time order demands if and only if deadline and clock do not clash in their fractions |
| ClaimRuns.OnlyALateEnqueueStrands | internal/handlers/claims.go:112-136 | "Waiters imply a holder" survives a transaction if and only if it is not an enqueue on a free resource |
| ClaimRuns.NoOrphansAlways | internal/handlers/claims.go:112-136 | On runs whose enqueues happen only where the resource is held, a resource with waiters always has a holder |
| ClaimRuns.WaiterStaysUntilGrantedOrSwept | internal/store/claim_queue.go:69-127 | A waiter leaves the queue in a step if and only if that step grants it or sweeps it, never both |
| ClaimRuns.GrantFollowsAnEnding | internal/store/claims.go:172-200 | A waiter is granted only by a step that ends a claim on its resource, and the resource is then held |
| ClaimRuns.ExpiryGrantsNobodyStale | internal/store/claims.go:252-316 | An expiry grants no waiter whose lifetime is over |
| ClaimRuns.FateOfAWaiter | internal/store/claim_queue.go:97-127 | Over any run a waiter, stranded or not, keeps its row until the step that grants it after an ending on its resource, or sweeps it after its lifetime |
| ClaimRuns.HeldOnlyBy | internal/store/claims.go:36-48 | A free resource becomes held only by a direct claim on it or by granting one of its own waiters |
| ClaimRuns.CreateOvertakesAStrandedWaiter | internal/handlers/claims.go:112-136 | While a stranded waiter's resource is free a direct claim succeeds and leaves the waiter queued |
| ClaimRuns.StepConserves | internal/store/claims.go:139-320 | Every transaction keeps the conservation of waiters |
| ClaimRuns.WaitersAreConserved | internal/store/claims.go:260-316 | On every run each enqueued waiter is in exactly one place: queued with its own row, granted to exactly one claim made from that row, or swept |
| FairLock.StepSimulatesLock | internal/store/claims.go:139-320 | Every transaction is, on every resource, one move of a fair lock (acquire, join, pass or idle) of the kind its arguments dictate, and hands on to the ticket that leaves |
| FairLock.RunRefinesLock | internal/store/claims.go:20-58 | Every run from empty tables with undivided create-then-enqueue is on each resource a run of the fair lock |
| FairLock.DistinctKeysMeanFifo | internal/store/claim_queue.go:69-93 | With distinct queued_at texts an ending holder hands on to the head of the queue |
| FairLock.FreeMeansNobodyWaits | internal/handlers/claims.go:112-136 | Nobody barges: where no waiter is stranded, a resource that can be claimed directly has an empty queue |
| DividedLock.StepSimulatesDividedLock | internal/store/claims.go:20-320 | Every transaction, on any reachable tables, is a move of the fair lock or one of three moves of a free lock: a late join, an overtaking claim, a rescue by a dead claim's release |
| DividedLock.RunRefinesDividedLock | internal/handlers/claims.go:112-136 | Every run from empty tables, with create and enqueue divided, is on each resource a run of that lock |
| DividedLock.UnfairnessNeedsALateJoin | internal/handlers/claims.go:112-136 | A run of that lock is fair up to its first late join |
| QueuePosition.LineMoves | internal/store/claim_queue.go:69-93 | If later arrivals sort after the waiter, a step shortens the line in front of it by exactly one per promotion on its resource, and further only by a sweep |
| QueuePosition.LineOverARun | internal/store/claim_queue.go:69-127 | Over a run whose later arrivals sort after the waiter, promotions on the resource plus the line that is left never exceed the line at the start, and equal it if nothing is swept |
| QueuePosition.PositionCountsTheLine | internal/store/claim_queue.go:54-58 | The number of rows counted is the waiter's place in line if and only if no row on the resource sorts after it |
| QueuePosition.PositionBoundsTheWait | internal/store/claim_queue.go:51-63 | A waiter told position p, whose key no row then exceeds and later arrivals exceed, has seen fewer than p promotions on its resource while it waits, whatever was swept |
| QueuePosition.PositionIsTheGrantNumber | internal/store/claim_queue.go:51-63 | If nothing is swept, the key is strictly largest and later arrivals sort after it, a step grants the waiter if and only if it is the p-th promotion on the resource |
| QueuePosition.GrantsFollowArrival | internal/store/claim_queue.go:71-79 | No unswept waiter that arrived earlier in real time is passed over, unless the two fractions clash within one second |
| ExpiryFixpoint.ExpireTwice | internal/store/claims.go:246-320 | A second expiry at the same instant finds nothing due and can only commit as a run that changes nothing |
| ExpiryFixpoint.NothingDueAfterExpiry | internal/store/claims.go:293-316 | After an expiry no active claim reads as past at that instant, promoted ones included |
| ExpiryFixpoint.NothingStaleAfterExpiry | internal/store/claim_queue.go:97-127 | After an expiry no queued waiter is past its lifetime at that instant |
| ExpiryFixpoint.QuietExpiryIsIdentity | internal/store/claims.go:246-320 | With nothing due and nothing stale an expiry commits exactly when it promotes nobody, and changes nothing |
| ExpiryFixpoint.CountIsDistinctResources | internal/store/claims.go:259-291 | The count of expired rows equals the number of distinct resources collected before |
| Progress.ReleaseCommitsIffReleasable | internal/store/claims.go:144-201 | A release can commit if and only if the claim exists and nobody waits on its resource behind another holder |
| Progress.ReleaseGrantsEvenTheStale | internal/store/claims.go:172-200 | A release grants the next waiter whatever its age, stale ones included: its claim carries the waiter's columns and runs for the full lifetime from now |
| Progress.ExpiryCanAlwaysCommit | internal/store/claims.go:249-318 | On any tables with unique active claims, at any instant, some expiry can commit: promotions never block it |
| Progress.EveryWaiterCanBeServed | internal/store/claim_queue.go:66-93 | No waiter on a held resource is locked out: a run of at most as many releases as its place in line grants it |
| Progress.AHandlerRunStrands | internal/handlers/claims.go:112-136 | A run from empty tables in which a refused client queues after the release and waits without a holder, and the next claim overtakes it |
| Transaction.Tx.Issue | internal/store/claims.go:148-154 | A statement fails exactly if an earlier one failed, the server refuses it or a constraint rejects it, in that order of answers, and then poisons the transaction |
| Transaction.Tx.InsertClaim | internal/store/store.go:247-248 | An insert is rejected exactly if the id is taken or an active claim holds the resource |
| ClaimStore.PopNextWaiter | internal/store/claim_queue.go:66-93 | Removes an earliest waiter of the resource and nothing else, or reports that nobody waits there; fails exactly if the server refuses a statement |
| ClaimStore.PromoteNext | internal/store/claims.go:172-200 | Pops an earliest waiter and inserts its claim: kind, resource, agent and metadata of the waiter, active, from now for the waiter's lifetime; apart from the server it fails exactly if somebody waits and the id is taken or the resource held |
| ClaimStore.SweepExpiredWaiters | internal/store/claim_queue.go:95-127 | Keeps exactly the waiters whose queueing time plus lifetime does not lie before now, each with its row, or poisons the transaction, exactly if the server refuses a statement |
| ClaimStore.PromoteAll | internal/store/claims.go:293-316 | The promotion loop, errors discarded: unless poisoned, it has promoted one earliest waiter on every collected resource that has one; with fresh ids and free resources only the server can poison it |
| ClaimStore.ReleaseBody | internal/store/claims.go:144-201 | The statements compute the release closure, captured variables and poisoning included; poisoned exactly if the server refuses a statement or the insert is rejected |
| ClaimStore.EnqueueBody | internal/store/claim_queue.go:36-59 | The statements compute the enqueue closure; poisoned exactly if the server refuses a statement or the id is taken |
| ClaimStore.ExpireBody | internal/store/claims.go:249-318 | The statements compute the expiry closure, with the phase of the first refused statement; with unique active claims and fresh ids poisoned exactly if the server refuses a statement |
| ClaimStore.ClaimStore.CreateClaim | internal/store/claims.go:18-58 | One new active row with the request's columns, the clock as claim and update time and the deadline given, or no change; a conflict exactly when the insert is not refused by the server and the resource is held or the id taken |
| ClaimStore.ClaimStore.EnqueueClaim | internal/store/claim_queue.go:16-64 | One new queue row with the request's columns and lifetime 3600 for a lifetime that is not positive, and the number of rows then waiting; or no change, exactly if the server fails it or the id is taken |
| ClaimStore.ClaimStore.ReleaseClaim | internal/store/claims.go:136-211 | The claim released now, and either nobody waiting on its resource or one of its waiters gone from the queue with a claim of its own columns and full lifetime; both reported; or no change. It succeeds if and only if the server refuses nothing, the claim exists and nobody waits behind another holder |
| ClaimStore.ClaimStore.RenewClaim | internal/store/claims.go:218-241 | The active claim gets the deadline given and the clock as update time, and nothing else changes, or not found; others may run before the row is read back, and an error hides the renewal exactly if it committed and the read-back is refused |
| ClaimStore.ClaimStore.ExpireOldClaims | internal/store/claims.go:243-320 | In columns: the active claims with a lesser deadline text expired now, waiters past their lifetime gone, each promoted waiter's claim with its columns and full lifetime, everything else as it was, with the number of claims expired; or an error and no change; it succeeds if and only if the server refuses no statement and no commit, and a discarded error makes it fail in a way that is not retried |
| ClaimStore.ClaimStore.GetClaim | internal/store/claims.go:60-69 | The row, not found exactly if there is none, or an error exactly if the server refuses the query |
| ClaimApi.ClaimApi.ClaimCreate | internal/handlers/claims.go:90-145 | 201 adds one active claim with the request's kind, resource, agent and metadata and the lease's deadline, an hour if none is given; 202 adds one waiter with the same columns and the lease's seconds, or 3600, after whatever others did in between and at its own clock, with its position, and strands it if and only if the resource was then free; 422 changes nothing; 201 exactly if nothing is refused, the id is new and the resource free |
| ClaimApi.ClaimApi.ClaimRelease | internal/handlers/claims.go:178-201 | 403 if and only if the agent named does not own the claim; 200 is a release by its owner, written out as in ReleaseClaim, that leaves every other claim as it was; when 404, and when a release succeeds, exactly |
| ClaimApi.ClaimApi.ClaimRenew | internal/handlers/claims.go:203-236 | 200 sets deadline and update time of the owner's active claim and nothing else, with others before it and before the reading back; other replies renew nothing, but an error 500 may hide exactly such a renewal; each reply exactly when it is given |
| Errors.RetryableIffSomePath | internal/store/retry.go:66-98 | An error is retried if and only if some path from the root reaches SQLSTATE 40001 before any other SQLSTATE |
| Errors.WrappingIsTransparent | internal/store/retry.go:79-85 | Wrapping with context any number of times never changes the verdict |
| Errors.SqlStateHidesItsCause | internal/store/retry.go:76-78 | A node with another SQLSTATE hides a retryable cause below it, but not one joined beside it |
| Retry.Database.RetryTx | internal/store/retry.go:24-64 | The loop computes the attempt-by-attempt specification, and the error after the loop is never reached |
| Retry.AllOrNothing | internal/store/retry.go:24-64 | The call ends at the first attempt that is not retried; the database is that one run's result if it went well, and otherwise changed only by others; the runs are counted exactly |
| Retry.OneCallIsBounded | internal/store/retry.go:13-64 | One call runs the closure at most six times and sleeps at most 465 ms |
| Retry.CallReturns | internal/store/retry.go:24-64 | The exact error of the call, by what ended its last attempt, and the exact time slept, backoff by backoff |
| Retry.SleepsGrow | internal/store/retry.go:46-60 | A call sleeps at least half of ten milliseconds doubled once per retried attempt, summed over them, less a nanosecond each |
| Retry.TransientFailuresRunSixTimes | internal/store/retry.go:13-64 | If every attempt fails transiently the closure runs exactly six times |
| Delay.ShiftIsExactUpTo39 | internal/store/retry.go:101-102 | The 64-bit shift loses nothing if and only if the attempt number is at most 39 |
| Delay.BackoffBounds | internal/store/retry.go:100-109 | For attempts 0 to 39 the delay is positive and at most 1.5 s |
| Delay.BackoffDoubles | internal/store/retry.go:100-109 | For attempts 0 to 39 the delay is ten milliseconds doubled once per attempt, or a second if that is less, times the jitter, rounded down |
| Retry.SafeClosureReportsItsCommit | internal/store/retry.go:31-60 | If earlier attempts' captured values never matter, a successful call leaves exactly what the committed attempt alone would leave |
| Retry.VarsAreLastWritten | internal/store/retry.go:31-57 | An attempt finds in the captured variables what the last attempt whose commit failed wrote, or else the caller's values |
| Retry.StatementRetriesAreSafe | internal/store/retry.go:31-45 | A closure that writes its captured variables last is safe as long as no commit fails transiently |
| ClaimClosures.ReleaseReportsTheCommit | internal/store/claims.go:141-210 | After any retries, released and next describe the one Release step that committed |
| ClaimClosures.EnqueueReportsTheCommit | internal/store/claim_queue.go:35-63 | The position returned was counted in the transaction that queued the waiter |
| ClaimClosures.ExpireReportsTheCommit | internal/store/claims.go:248-319 | The count returned is that of the Expire step that committed |
| ClaimClosures.ExpiryIsRetriedIff | internal/store/claims.go:249-318 | An attempt of an expiry is followed by another if and only if a serialization failure struck its select, its update or the commit of an otherwise clean run |
| ClaimClosures.DiscardedErrorsEndTheCall | internal/store/claims.go:255-317 | At whatever attempt a sweep or promotion statement fails, the call ends there with an error and nothing of the expiry is in the database |
| Memory.MemoryStore.UpsertBody | internal/store/memory.go:30-98 | Accepted exactly if both statements work and the key is missing or at the version presented; then the row and the caller's entry are written column by column, otherwise neither changes; all as one UpsertStep |
| Memory.MemoryStore.DeleteMemory | internal/store/memory.go:171-186 | Deletes exactly the named row, or reports an error and changes nothing |
| Memory.UpsertWritesVarsLast | internal/store/memory.go:48-92 | The caller's entry is overwritten only by runs that return no error |
| Memory.CallIsOneWrite | internal/store/memory.go:30-103 | A successful call whose retries come from statements is one accepted write of the entry as the caller presented it |
| Memory.VersionsCountWrites | internal/store/memory.go:77-90 | Without deletes a key's version is its old version plus the number of committed writes to it, and its creation time never changes |
| Memory.WriteIs | internal/store/memory.go:41-92 | When a write is accepted, and the row it leaves, column by column: version one and a fresh creation time on a missing key, else the next version with the old creation time, and now as update time |
| Memory.LastWriteShows | internal/store/memory.go:77-90 | Over a run of writes a key shows the body and the time of the last write to it |
| Memory.OneWinnerPerVersion | internal/store/memory.go:73-76 | Of two committed writes presenting the same version to an existing key, the version is not positive: at most one conditional writer wins |
| Memory.OneCallPerVersion | internal/store/memory.go:30-103 | However whole calls interleave and whatever statements they retried, only one of those presenting the same positive version to an existing key succeeds, and a later one finds a higher version |
| Memory.EachCallRaisesItsVersion | internal/store/memory.go:30-103 | Each successful call among interleaved ones raises its key's version by one, or inserts version one, and changes no other row |
| Memory.AttemptDecidesBy | internal/store/memory.go:41-92 | In any world, an attempt whose statements work is accepted if and only if the key is missing or at the version presented, which is the one computed by the last attempt whose commit failed |
| Memory.RetryAfterFailedCommits | internal/store/memory.go:30-103 | The same for the whole call, with the row it leaves |
| Memory.RetryAgreesWithAFreshRunIff | internal/store/memory.go:41-92 | A retry after a failed commit is accepted exactly when a fresh run of the caller's entry would be, if and only if the key is gone or the versions presented, computed and found stand in the stated relation |
| Memory.MissingKeyIsInserted | internal/store/memory.go:42-63 | An attempt that finds no row inserts the caller's body with the creation time of the last row any finished attempt saw, or else the fresh one |
| Memory.AttemptWritesAsAFreshRunIff | internal/store/memory.go:41-92 | In any world, an attempt whose statements work leaves what a fresh run of the caller's entry would, if and only if, on a row, no commit failed before or the retry is fair, and on a missing key, the creation time it inserts is the fresh one |
| Memory.CallWritesAsAFreshRunIff | internal/store/memory.go:30-103 | The same for the whole call, when its last attempt begins, works and commits |
| Memory.VersionsStayPositive | internal/store/memory.go:48-86 | Stored versions are at least one on every run of writes, so a computed version is never one that is accepted unconditionally |
| Memory.InsertRetriesAreHarmless | internal/store/memory.go:42-63 | While the key exists at no attempt, every attempt inserts what a fresh run inserts |
| Memory.RetryAfterFailedCommit | internal/store/memory.go:73-92 | With one failed commit on an existing key the call is accepted if and only if exactly one other write came in between |
| Memory.FailedInsertMeetsAnotherRow | internal/store/memory.go:42-92 | After a failed insert, another client's row is overwritten if and only if it is at version one, whatever version the caller presented |
| Memory.FailedCommitsLoseUpdates | internal/store/memory.go:90 | With n failed commits and one foreign write after each, the call succeeds over all n of them at version v + n + 1 |
| Memory.FailedCommitLosesAnUpdate | internal/store/memory.go:90 | The concrete trace in which two writers presenting the same version both succeed and one update is lost |
| Memory.FailedCommitRevivesCreationTime | internal/store/memory.go:44-63 | A row deleted after the first failed commit is re-created with the deleted row's creation time, through any number of further failed commits |
| Memory.FailedCommitOfAnInsertIsHarmless | internal/store/memory.go:42-63 | If the key exists at neither attempt, the retry does what a fresh run does |
| TaskStatus.TerminalMeansNoWayOut | internal/model/task.go:17-45 | Done, failed and cancelled are exactly the known statuses without a way out |
| TaskStatus.FinishedHistoryEndsInOrder | internal/model/task.go:17-45 | Every valid history from open to done or failed ends open, claimed, in progress, final |
| TaskStatus.TerminalIsLast | internal/model/task.go:17-45 | In a valid history only the last status can be terminal |
| TaskStatus.MovesByDestination | internal/model/task.go:17-45 | The allowed moves by where they lead: back to open from claimed and in progress, to cancelled from open and claimed, forward one stage at a time |
| TaskStatus.NothingIsLostBeforeTheEnd | internal/model/task.go:17-45 | From every status that is not terminal every known status can be reached, within three moves |
| Tasks.TaskStore.CreateTask | internal/store/tasks.go:18-56 | One new open task, or no change, exactly if the server fails it or the id is taken |
| Tasks.TaskStore.UpdateTask | internal/store/tasks.go:142-207 | Row and note together or neither; committed if and only if the task exists, the move is allowed and the server refuses nothing; others may run before the task is read back, and success and not found are exactly what the read-back meets |
| Tasks.TaskStore.GetTask | internal/store/tasks.go:58-74 | The row if it exists and both queries work; not found exactly if the row query works and there is none |
| Tasks.TaskStore.UpdateBody | internal/store/tasks.go:146-202 | The transaction of an update: committed exactly if it is allowed and nothing is refused, with every asked-for column and the note written out, otherwise nothing changed and the reason given |
| Tasks.TaskStore.DeleteTask | internal/store/tasks.go:209-224 | Removes the task and every note of it, and no other note, exactly if it exists and the server refuses nothing; not found exactly if it is missing; otherwise nothing changes |
| Tasks.TaskStore.ListNewest | internal/store/tasks.go:102-107 | At most 50 tasks, each once, newest first, and none left out is newer than one shown |
| Tasks.TaskStore.LoadTaskNotes | internal/store/tasks.go:226-247 | The loop returns the texts of the task's rows in the order of the query |
| Tasks.ListingShowsEveryNote | internal/store/tasks.go:226-247 | The listing shows every accepted note exactly as often as it was added, by creation text, and in insertion order if the texts do not go backwards |
| Tasks.ListedRowsAreTheTasks | internal/store/tasks.go:226-247 | The rows listed for a task are its own and no others, each as often as it is stored |
| Tasks.HistoriesAreValid | internal/store/tasks.go:166-172 | On every run a task's stutter-free status history makes only allowed moves |
| Tasks.FinishedTasksWentThroughEveryStage | internal/store/tasks.go:166-172 | On every run a task that is done or failed went open, claimed, in progress, final |
| Tasks.TerminalStatusIsForever | internal/store/tasks.go:166-172 | A terminal status never changes while the task exists |
| Tasks.StepWritesWhatIsAsked | internal/store/tasks.go:160-188 | A step changes of a task only status, assignee, session and update time, only by an update of that task, and to what the update asks for |
| Tasks.LastAssigneeHolds | internal/store/tasks.go:160-188 | Over any run a task keeps the last assignee an update gave it, and its title, body and creation time for good |
| Tasks.StepAddsItsNote | internal/store/tasks.go:191-199 | A step adds to a task's notes exactly its own non-empty note, and nothing else |
| Tasks.NotesOnlyGrow | internal/store/tasks.go:191-199 | Accepted notes are never lost or reordered while the task exists |
| Tasks.DeletingTakesItsNotes | internal/store/tasks.go:209-224 | Deleting a task deletes every note of it and no other note, and keeps the others in order |
| Todos.TodoStore.ReorderTodos | internal/store/todos.go:168-189 | Every listed row gets its last place as sort_order and the clock as update time, its other columns and all other rows stay; or nothing changes; it succeeds if and only if all ids are the agent's own and the server refuses nothing, and reports not found exactly at the first foreign id reached |
| Todos.TodoStore.ListTodos | internal/store/todos.go:49-87 | A page of a list of exactly the matching rows, each once, sorted by sort_order and then creation text, with its exact length |
| Todos.PageAt | internal/store/todos.go:62-71 | Place by place what a page holds, and its length, for every limit and offset |
| Todos.TodoStore.PruneDoneTodos | internal/store/todos.go:145-166 | Keeps exactly the rows that are pending, not older than the cutoff or another agent's, and counts the others, or changes nothing, exactly if the server refuses the statement or the commit |
| Todos.ListingFollowsTheReorder | internal/store/todos.go:62 | After a reorder the listed ids appear in the order of their last places in ids, whatever the ties |
| Todos.ListingIsTheReorder | internal/store/todos.go:168-189 | If ids is a permutation of the agent's todos, every listing after the reorder is exactly ids |
| Todos.PagesFollowTheReorder | internal/store/todos.go:62-71 | Then any page asked for is that page of ids, and all of ids when they fit |
| Like.PrefixPatternIsExactIffPlain | internal/store/memory.go:133-137 | prefix% means starts-with on every string if and only if the prefix has no percent sign, underscore or backslash |
| Like.UnescapedPrefixMatchesStarts | internal/store/memory.go:133-137 | Without a backslash the pattern misses no string that starts with the prefix |
| Like.InfixPatternIsExactIffPlain | internal/store/sessions.go:124-129 | %path% means substring on every string if and only if the path is plain |
| Like.QuotedMatchesItself | internal/store/memory.go:133-137 | Text with a backslash before each special character matches itself and nothing else |
| Like.UnderscoresMeasure | internal/store/memory.go:133-137 | n underscores match exactly the strings of length n |
| Queries.AddCondition | internal/store/memory.go:122-127 | Appending a condition on the next placeholder and its argument adds exactly that conjunct and keeps the numbering |
| Queries.ListClaims | internal/store/claims.go:74-112 | Placeholders line up with arguments and the query selects exactly the rows that pass every set filter, with the page clamp |
| Queries.ListTasks | internal/store/tasks.go:79-112 | The same for task filters |
| Queries.ListMemory | internal/store/memory.go:116-152 | The same for memory filters, tag and prefix pattern included |
| Queries.ListCapturedSessions | internal/store/sessions.go:99-137 | The same for session filters, with the limit clamped and bound as the last argument |
| Queries.MemoryPrefixIsExactIffPlain | internal/store/memory.go:133-137 | A listing by prefix selects exactly the keys that start with it, on every table, if and only if the prefix is plain |
| Queries.MemoryPrefixMissesNothing | internal/store/memory.go:133-137 | Without a backslash in the prefix no row is missed |
| Queries.PlainPathMeansSubstring | internal/store/sessions.go:124-129 | A plain path selects exactly the sessions whose paths text contains it, together with the other filters |
| IssueTitles.TitleMatchesItsIssue | internal/webhook/webhook.go:218-232 | The title built for issue n starts with the prefix built for m if and only if m is n, for all integers and titles |
| IssueTitles.PullRequestIsNoIssue | internal/webhook/webhook.go:205-232 | No pull-request title is taken for an issue |
| IssueTitles.WrittenReadsBack | internal/webhook/webhook.go:219 | A number written with %d reads back as itself |
| IssueTitles.NoLeadingZero | internal/webhook/webhook.go:219 | Only zero is written with a leading zero |
| Webhook.Handler.CompleteTaskForIssue | internal/webhook/webhook.go:231-251 | With any other clients between the updates: tries exactly the tasks of the listed page with the issue's title that were not done, once each, in order and at their own clock; each turn completes its task with one note or changes nothing, as the state machine decides; left alone, exactly the in-progress ones are completed, written out with the text of the note |
| Webhook.TurnTouchesItsTask | internal/webhook/webhook.go:239-249 | An update by the handler leaves every other task and its notes as they were, or changes nothing at all |
| Webhook.QuietCompletionIsExact | internal/webhook/webhook.go:231-251 | With nobody else about, exactly the issue's in-progress tasks on the page are done, each with one note, and every other task is unchanged |
| Webhook.Handler.HandleIssues | internal/webhook/webhook.go:158-171 | Opening creates an open task with the issue's number, title and body, which only its own issue finds again; closing completes as above; other actions do nothing |
| Webhook.Handler.ReleaseClaims | internal/webhook/webhook.go:185-203 | At most one release, at the handler's clock, of the claim that held the resource when listed, whatever others did meanwhile; none for an empty or free resource |
| Webhook.Handler.HandlePullRequest | internal/webhook/webhook.go:141-156 | A merge releases the holder of the branch and then of the page, each at its own clock and exactly if there is one and it can be listed; an opened request becomes a task with its number, title and body that no issue finds |
| Webhook.Handler.HandleDelete | internal/webhook/webhook.go:173-183 | A deleted branch, and nothing else, releases the holder of its resource, exactly if there is one and it can be listed |
| Webhook.ReleaseSparesOthers | internal/webhook/webhook.go:185-203 | No claim but the listed one is changed, even if it was replaced meanwhile |
| Webhook.SecondEventFindsTheSuccessor | internal/webhook/webhook.go:141-183 | After the release the resource is held again if and only if somebody waited, and then only by the claim just created for that waiter |
| LogWriter.RunIsExact | internal/log/log.go:70-110 | Well-nested use whose writers are fresh restores writer and stack; any other use deadlocks or loses a stack entry for good |
| LogWriter.FromStartupRestoresOrDeadlocks | internal/log/log.go:70-110 | From startup, well-nested use restores everything if it is fresh and deadlocks if it is not |
| LogWriter.DistinctWritersRestore | internal/log/log.go:70-110 | Pairwise distinct writers, none in use, end with the initial writer and stack and never reach the nested Reset |
| LogWriter.NestedReuseDeadlocks | internal/log/log.go:98-108 | A writer selected inside another one inside itself deadlocks |
| LogWriter.ReturningToStdoutDeadlocks | internal/log/log.go:98-108 | Two nested blocks are enough: going back to stdout inside another writer deadlocks |
| LogWriter.UnnestedUseRestores | internal/log/log.go:70-110 | One block is not: any blocks one after another, none nested, restore everything |
| LogWriter.WithoutFirstAt | internal/log/log.go:90-96 | Cutting at the first index found removes exactly the first occurrence |
| LogWriter.Package.Reset | internal/log/log.go:57-68 | Back to the first writer with an empty stack; under a held lock it does not return |
| LogWriter.Package.SetWriter | internal/log/log.go:70-110 | Selects the writer, pushing the current one unless it is already selected, and returns the matching closure |
| LogWriter.Package.Restore | internal/log/log.go:85-109 | The closure removes its writer and selects and pops the last one left, and returns if and only if there was one |
| LogWriter.Package.RunAll | internal/log/log.go:50-110 | Running blocks on the package state is the run of the model |

## Left out

- HTTP routing, request parsing, JSON, authentication, signature checks, timing middleware, relay, health probes, CLI and UI: plumbing over libraries that are not part of this model.
- Agents, discovery, creating and reading captured sessions, single-row todo operations: single-row statements whose properties are immediate.
- The SQL engine: statements are modelled by their effect on tables; the text of a query is a list of conditions and arguments, not characters.
- Locking inside one transaction and weaker isolation than serializable.
- Commits whose outcome is unknown to the client (the connection breaks while committing): a commit error means not committed.
- Parsing stored times back (`time.Parse`) in the store: rows hold instants, which is what their texts read back as (`TimeReading.ReadsBack`); a row whose text does not parse, which the sweep skips, does not occur.
- 64-bit wrap-around of versions, counts and of `queued_at` plus lifetime; the 64-bit shift of the backoff is modelled exactly.
- Binary64 rounding in the backoff: the jitter product is a real number, rounded down.
- `int(dur.Seconds())` of a parsed duration: the handler takes the seconds and the deadline of its lease as inputs.
- Metadata, session columns of claims and waiters, descriptions, tags and other pass-through columns: one opaque field each.
- Store methods model one attempt; the retries around them are proved once in `Retry`, for any closure, and put together with the claim and memory bodies in `ClaimClosures` and `Memory`.
- A poisoned transaction answers every statement with SQLSTATE 25P02 and its commit with a rollback error, as PostgreSQL does and its driver reports; other failures of a broken connection are not distinguished.
- Memory.VersionsCountWrites: runs have no deletes, since a deleted key starts again at version one.
- LogWriter.Package.SetWriter: one goroutine; the mutex matters only where the closure calls `Reset` under it. Log levels and formatting are left out, and the slice's spare capacity does not limit the stack.
