# Optimistic locking demo, modelled in Dafny

This project models the core of `optimistic-locking-demo`. The demo is a
room-reservation application built on JPA. It shows how concurrent updates
are handled when the reservation entity carries a version number. The model
covers:

- `ReservationServiceImpl`: the `hasOverlap` guard, which counts the rows of
  the same room whose time window intersects the candidate's (the
  candidate's own row excluded), and `save`, `findById`, `update` and
  `delete`, each executed against a table of reservations (`Store`).
- `OptimisticLockingRetryHandler.executeWithRetry`: fetch, apply the
  caller's operation, `update`; on an `OptimisticLockException` wait
  `100 * 2^(attempt-1)` ms plus a jitter of 0 to 99 ms and try again, at most
  `maxRetries` times. It is modelled twice: as the recursive function
  `RetryHandler.ExecuteWithRetry`, and as the `while` loop with its attempt
  counter and success flag (`RetryHandler.ExecuteWithRetryLoop`), which is
  proved to compute the same run.
- `ConcurrentReservationSimulator`: the mutations of the demo threads (shift
  by one hour, set the motif), the merge of `handleConflictManually`, and
  the one-shot escalation of thread 2 in
  `simulateConcurrentReservationConflictWithManualChoice`.

Files:

- `Model.dfy`: the reservation record, the failures, and the interval test.
- `ReservationService.dfy`: the service operations and the table invariant
  "no two rows of one room intersect".
- `Backoff.dfy`: the wait between attempts, both as intended and with the
  source's 64-bit arithmetic.
- `RetryHandler.dfy`: the retry handler.
- `Simulator.dfy`: the simulator's sequential logic.

Dates are whole minutes on one time line, so `plusHours(1)` is `+ 60`. Rooms
and users are represented by their identifiers. The store, the jitter, the
interruption of the wait and the user's menu choice are parameters. For the
retry handler and for thread 2 they come from a scripted environment, indexed
by attempt number. This makes every path of the loop reachable, including
the paths where another writer gets in between.

Behaviour of the code that the model keeps as it is:

- The manual merge copies the motif as well as the dates, so a motif
  committed meanwhile by another thread is overwritten
  (`Simulator.ManualChoiceScenario`).
- When the attempts run out, the retry handler rethrows the last
  `OptimisticLockException` itself. With `maxRetries <= 0` it returns
  normally without any call.
- When the reservation is missing, the retry handler prints a message and
  returns normally (`RetryHandler.MissingRecordReturns`).
- `handleConflictManually` is never called from the code. Thread 2's
  escalation in `simulateConcurrentReservationConflictWithManualChoice`
  always sets a fixed motif on the re-fetched record.
- `simulateConcurrentReservationConflict`, whose interleaving
  `Simulator.LostUpdateScenario` fixes, is never called from `main`, which
  only offers the retry and the manual-choice simulations.
- The retry handler's wait is the intended backoff `Backoff.Delay`. It
  equals the source's `long` delay whenever `maxRetries` is at most 58
  (`RetryHandler.AgreesWithSourceUpTo58`); beyond that the source
  overflows (see "## Findings").

## Model

| member | source | states |
|---|---|---|
| Model.TouchingDoNotIntersect | optimistic-locking-demo/src/main/java/com/example/service/ReservationServiceImpl.java:24-26 | Both comparisons of the interval clause are strict, so windows that only share an endpoint never intersect, whichever one is stored |
| Model.IntersectsSymmetric | optimistic-locking-demo/src/main/java/com/example/service/ReservationServiceImpl.java:25 | The interval clause gives the same answer whichever of the two reservations is the stored row |
| ReservationService.HasOverlap | optimistic-locking-demo/src/main/java/com/example/service/ReservationServiceImpl.java:17-38 | `count > 0` holds exactly when some row of the table is in the same room, has a primary key different from the bound id, and intersects the candidate |
| ReservationService.CountPositiveIffClash | optimistic-locking-demo/src/main/java/com/example/service/ReservationServiceImpl.java:20-34 | The COUNT of matching rows is positive if and only if a matching row exists |
| ReservationService.NeverOverlapsItself | optimistic-locking-demo/src/main/java/com/example/service/ReservationServiceImpl.java:23-29 | The candidate's own row is excluded by `r.id <> :id`: the answer is the same with that row removed, and a table holding only that row never reports an overlap |
| ReservationService.NullIdComparedWithEveryRow | optimistic-locking-demo/src/main/java/com/example/service/ReservationServiceImpl.java:29 | A candidate without an id is bound as -1, which no generated key equals, so every row of its room is compared with it (both directions) |
| ReservationService.OtherRoomIgnored | optimistic-locking-demo/src/main/java/com/example/service/ReservationServiceImpl.java:22 | A row of another room never changes the answer, whatever its times |
| ReservationService.TouchingRowIgnored | optimistic-locking-demo/src/main/java/com/example/service/ReservationServiceImpl.java:25 | A row that only touches the candidate's window at an endpoint never changes the answer |
| ReservationService.FindById | optimistic-locking-demo/src/main/java/com/example/service/ReservationServiceImpl.java:67-75 | The result is present exactly when a row has that key, and is then that row |
| ReservationService.Save | optimistic-locking-demo/src/main/java/com/example/service/ReservationServiceImpl.java:42-62 | An overlap is refused with `Overlap`; a new candidate with no overlap and a free key is stored; any refusal leaves the table unchanged; success adds exactly one row under the new key, with version 0 and the candidate's data, and keeps every other row |
| ReservationService.Update | optimistic-locking-demo/src/main/java/com/example/service/ReservationServiceImpl.java:78-97 | An overlap is refused with `Overlap`; any refusal leaves the table unchanged; `OptimisticLock(copy's version, stored version)` happens exactly when the guard passes, the row exists and the stored version differs from the copy's; success requires matching versions, keeps the keys and every other row, and stores the copy with its version one higher |
| ReservationService.Delete | optimistic-locking-demo/src/main/java/com/example/service/ReservationServiceImpl.java:100-117 | No overlap check; a refusal leaves the table unchanged; success removes exactly the row with the copy's id, which existed |
| ReservationService.SaveSucceedsIff | optimistic-locking-demo/src/main/java/com/example/service/ReservationServiceImpl.java:42-62 | `save` stores the candidate if and only if no overlap is found, the candidate has no id yet and the generated key is free |
| ReservationService.UpdateSucceedsIff | optimistic-locking-demo/src/main/java/com/example/service/ReservationServiceImpl.java:78-97 | `update` commits if and only if no overlap is found, the row exists and the copy's version is current |
| ReservationService.FindAfterSave | optimistic-locking-demo/src/main/java/com/example/service/ReservationServiceImpl.java:42-75 | After a successful `save`, `findById` with the generated id returns the saved reservation with version 0 |
| ReservationService.FindAfterUpdate | optimistic-locking-demo/src/main/java/com/example/service/ReservationServiceImpl.java:67-97 | After a committed `update`, `findById` returns the submitted copy with its version one higher |
| ReservationService.DeleteSucceedsIff | optimistic-locking-demo/src/main/java/com/example/service/ReservationServiceImpl.java:100-117 | `delete` removes the row if and only if the row exists and the copy's version is current; the overlap guard plays no part |
| ReservationService.FindAfterDelete | optimistic-locking-demo/src/main/java/com/example/service/ReservationServiceImpl.java:67-117 | After a successful `delete`, `findById` of the deleted id finds nothing and every other id finds what it found before |
| ReservationService.SavePreservesInvariant | optimistic-locking-demo/src/main/java/com/example/service/ReservationServiceImpl.java:42-62 | When calls run one after another, a successful `save` keeps every key generated and no two rows of one room intersecting |
| ReservationService.UpdatePreservesInvariant | optimistic-locking-demo/src/main/java/com/example/service/ReservationServiceImpl.java:78-97 | A committed `update` keeps the same invariant, because the guard compared the copy with every other row of its room |
| ReservationService.DeletePreservesInvariant | optimistic-locking-demo/src/main/java/com/example/service/ReservationServiceImpl.java:100-117 | `delete` has no overlap check and needs none: whatever it does, a valid table stays valid |
| ReservationService.OverlapScenario | optimistic-locking-demo/src/main/java/com/example/service/ReservationServiceImpl.java:44-53 | With the room booked 10:00-12:00, a request for 11:00-13:00 is refused and changes nothing, while 12:00-13:00 is stored under the new key |
| Backoff.Delay | optimistic-locking-demo/src/main/java/com/example/OptimisticLockingRetryHandler.java:54-55 | The wait after attempt k lies between `100 * 2^(k-1)` and that plus 99, and is at least 100 ms |
| Backoff.DelayIncreasing | optimistic-locking-demo/src/main/java/com/example/OptimisticLockingRetryHandler.java:54-55 | Whatever jitters are drawn, a later wait is strictly longer than an earlier one |
| Backoff.DelayAsWrittenAgreesBelow58 | optimistic-locking-demo/src/main/java/com/example/OptimisticLockingRetryHandler.java:54-55 | Up to attempt 57, the 64-bit computation of the source equals the intended wait |
| Backoff.DelayAsWrittenNegativeFrom58 | optimistic-locking-demo/src/main/java/com/example/OptimisticLockingRetryHandler.java:54-57 | From attempt 58 on, with any non-zero jitter, the source's `long` delay is negative, while the intended wait is positive |
| RetryHandler.LoopBody | optimistic-locking-demo/src/main/java/com/example/OptimisticLockingRetryHandler.java:25-61 | One pass fetches afresh and submits the operation applied to that fetch; it waits only after a conflict, for exactly the backoff of that attempt and its jitter; it goes on exactly when the update conflicted before the last attempt and the wait was not interrupted; otherwise it ends as its last attempt dictates |
| RetryHandler.Attempts | optimistic-locking-demo/src/main/java/com/example/OptimisticLockingRetryHandler.java:24-63 | Once `maxRetries` attempts have been made, nothing more happens; before that, at least one and at most the remaining number of attempts are made |
| RetryHandler.AttemptsShaped | optimistic-locking-demo/src/main/java/com/example/OptimisticLockingRetryHandler.java:24-63 | The recorded attempts are consecutive faithful passes (fresh fetch, operation applied to it, wait only after a conflict and equal to the backoff of that attempt), and every one but the last conflicted and waited without interruption |
| RetryHandler.ShapedAt | optimistic-locking-demo/src/main/java/com/example/OptimisticLockingRetryHandler.java:25-61 | Attempt i of a run is a faithful pass for attempt number i+1 of the environment, its wait being the backoff of attempt i+1; every attempt before the last conflicted and waited |
| RetryHandler.ExecuteWithRetry | optimistic-locking-demo/src/main/java/com/example/OptimisticLockingRetryHandler.java:20-64 | With `maxRetries <= 0` it returns at once without calling the store; otherwise it makes between 1 and `maxRetries` attempts, each a faithful pass, with only conflicts retried |
| RetryHandler.ExitOfLastAttempt | optimistic-locking-demo/src/main/java/com/example/OptimisticLockingRetryHandler.java:28-61 | The run ends as its last attempt dictates: a missing record or a commit returns; another exception escapes unchanged; a conflict on the last allowed attempt is rethrown without waiting; an earlier conflict ends the run only through an interrupted wait |
| RetryHandler.MissingRecordReturns | optimistic-locking-demo/src/main/java/com/example/OptimisticLockingRetryHandler.java:27-31 | An attempt that finds no reservation is the last one, makes no update, and the handler returns normally |
| RetryHandler.ReturnMeansOneCommit | optimistic-locking-demo/src/main/java/com/example/OptimisticLockingRetryHandler.java:40-43 | While the reservation exists, a normal return means that the last attempt committed and that no earlier attempt did |
| RetryHandler.ConflictRetriedUntilLastAttempt | optimistic-locking-demo/src/main/java/com/example/OptimisticLockingRetryHandler.java:44-50 | A conflict before attempt `maxRetries` with an uninterrupted wait is followed by another attempt; a conflict on attempt `maxRetries` is rethrown as is; any other refusal ends the run |
| RetryHandler.WaitsGrow | optimistic-locking-demo/src/main/java/com/example/OptimisticLockingRetryHandler.java:53-57 | Each wait of a run is strictly longer than every earlier wait |
| RetryHandler.AgreesWithSourceUpTo58 | optimistic-locking-demo/src/main/java/com/example/OptimisticLockingRetryHandler.java:47-57 | A wait only follows an attempt before attempt `maxRetries`, so with `maxRetries` at most 58 every wait of a run equals the source's `long` delay for that attempt and jitter |
| RetryHandler.TryOnce | optimistic-locking-demo/src/main/java/com/example/OptimisticLockingRetryHandler.java:26-61 | The statements of the `try` block and of the conflict handler, executed once, make a faithful pass; the loop goes on exactly when the update conflicted before attempt `maxRetries` and the wait was not interrupted; otherwise the pass ends the run as its attempt dictates |
| RetryHandler.AttemptsUnrolled | optimistic-locking-demo/src/main/java/com/example/OptimisticLockingRetryHandler.java:24-63 | One more pass of the loop either continues the same run or ends it with that attempt; a normal end after a fetched record means its update committed |
| RetryHandler.ExecuteWithRetryLoop | optimistic-locking-demo/src/main/java/com/example/OptimisticLockingRetryHandler.java:20-64 | The loop's control flow as written, with its counter, success flag, early return and escaping exceptions, computes exactly the run of `ExecuteWithRetry` (whose wait is the intended backoff) |
| RetryHandler.NoRetryWhenAlone | optimistic-locking-demo/src/main/java/com/example/OptimisticLockingRetryHandler.java:24-50 | With no concurrent writer and an operation that keeps the id and version, the handler makes exactly one attempt, which returns or fails with an overlap |
| Simulator.ShiftOneHour | optimistic-locking-demo/src/main/java/com/example/ConcurrentReservationSimulator.java:223-224 | Shifting keeps the duration and the order of the two dates, moves the start later, and changes nothing else |
| Simulator.SetMotif | optimistic-locking-demo/src/main/java/com/example/ConcurrentReservationSimulator.java:201 | Setting the motif changes only the motif |
| Simulator.SetMotifKeepsOverlap | optimistic-locking-demo/src/main/java/com/example/ConcurrentReservationSimulator.java:199-201 | Changing the motif never changes the answer of the overlap guard |
| Simulator.ShiftKeepsOverlapWhenAllShift | optimistic-locking-demo/src/main/java/com/example/ConcurrentReservationSimulator.java:221-224 | Shifting the candidate and every row by the same hour keeps the answer of the overlap guard |
| Simulator.DemoOperationsKeepIdentity | optimistic-locking-demo/src/main/java/com/example/ConcurrentReservationSimulator.java:199-225 | Both operations given to the retry handler keep the reservation's id and version |
| Simulator.Merge | optimistic-locking-demo/src/main/java/com/example/ConcurrentReservationSimulator.java:265-268 | The merged record takes the dates and the motif of the new attempt, and keeps the id, version, room and user of the old record |
| Simulator.MergeLastWins | optimistic-locking-demo/src/main/java/com/example/ConcurrentReservationSimulator.java:265-268 | Merging twice with the same attempt changes nothing more, a later merge overrides an earlier one, and merging a record with itself is the identity |
| Simulator.HandleConflictManually | optimistic-locking-demo/src/main/java/com/example/ConcurrentReservationSimulator.java:254-274 | Any choice but 2 writes nothing; choice 2 issues exactly one update, of the merged record, and its outcome is that of `update`, exception included |
| Simulator.ManualKeepsInvariant | optimistic-locking-demo/src/main/java/com/example/ConcurrentReservationSimulator.java:265-272 | Whatever the choice, the manual resolution keeps a valid table valid |
| Simulator.Thread2 | optimistic-locking-demo/src/main/java/com/example/ConcurrentReservationSimulator.java:301-327 | Thread 2 fetches and, if the record is there, updates it with its motif; a missing record ends as `Reported(NotFound)` and another refusal as `Reported` with that failure. After an `OptimisticLock`, and only then, it re-fetches and updates once more with the resolved motif; a missing record or a refusal there ends as `ResolutionFailed`. It reports success exactly when the last update issued committed |
| Simulator.EscalationOnlyOnConflict | optimistic-locking-demo/src/main/java/com/example/ConcurrentReservationSimulator.java:310-326 | A second update is issued exactly when the first one conflicted and the record is still there; the escalation is never repeated |
| Simulator.LostUpdateScenario | optimistic-locking-demo/src/main/java/com/example/ConcurrentReservationSimulator.java:115-157 | In the order the sleep of thread 1 makes likely, thread 2 commits its one-hour shift as version 1, then thread 1's version-0 copy with its motif is refused with `OptimisticLock` from 0 to 1, and the table keeps thread 2's record |
| Simulator.ManualChoiceScenario | optimistic-locking-demo/src/main/java/com/example/ConcurrentReservationSimulator.java:254-274 | In the other interleaving (thread 1's motif committed first), resolving thread 2's conflict with choice 2 commits version 2 with thread 2's dates, and also with thread 2's stale motif: thread 1's motif is overwritten |

## Left out

- Threads, the latch, `Thread.sleep` in the demo operations and the console
  output are left out. Each scenario is modelled as one fixed interleaving,
  or as a scripted environment that can produce any answer for each call.
- `main`, `initData`, `simulateConcurrentReservationConflictWithRetry` and
  `simulatePessimisticLockingConflict` are left out. They only wire things
  together, print, or rely on database row locks, and the model has none of
  these. The operations these methods hand to the retry handler are
  modelled (`Simulator.ShiftOneHour`, `Simulator.SetMotif`).
- The `ReservationService` interface is only the signatures of the five
  operations, which are modelled through `ReservationServiceImpl`.
- JPA, the entity manager and the JPQL engine are left out. The `@Version`
  check done on `merge` is written out as "stored version equals the copy's,
  then the version goes up by one". The entity class is not part of this
  model, so this behaviour is assumed.
- ReservationService.Save: persisting a candidate that already has an id,
  or under a key already in use, is modelled as a `Persistence` failure. How
  the persistence provider generates keys is a parameter (`newId`).
- ReservationService.Update: a copy with no id, or whose row is gone, is
  modelled as a `Persistence` failure. JPA `merge` would insert such a copy
  as a new row instead.
- ReservationService.Delete: a copy whose row is gone, and a copy with no id,
  are modelled as a `Persistence` failure. For a copy with no id, JPA's
  `merge` followed by `remove` would insert a managed copy and remove it
  again, so the source returns normally with the table unchanged.
- ReservationService.UpdatePreservesInvariant: this lemma holds for calls
  executed one after another. In the source, `hasOverlap` and the commit
  run in separate transactions, so two concurrent writers can each pass the
  guard. That race is not modelled.
- RetryHandler.ExecuteWithRetry: the caller's operation is a pure, total
  function of the fetched record. An exception thrown by the operation
  itself is not modelled.
- RetryHandler.LoopBody: waits the intended backoff `Backoff.Delay`, not the
  source's `long` delay. The two agree up to attempt 57. From attempt 58
  the source's delay is `Long.MAX_VALUE` (jitter 0) or negative, and a
  negative delay makes `Thread.sleep` throw `IllegalArgumentException`,
  which escapes the handler. The model has no exit for that exception (see
  "## Findings").
- RetryHandler.TryOnce: the same intended backoff as `LoopBody`.
- RetryHandler.ExecuteWithRetry: for `maxRetries >= 59`, a run that
  conflicts up to attempt 58 goes on in the model, where the source throws
  `IllegalArgumentException` (jitter at least 1) or sleeps `Long.MAX_VALUE`
  ms (jitter 0).
- RetryHandler.ExecuteWithRetryLoop: equal to `ExecuteWithRetry`, so it
  carries the same intended backoff.
- RetryHandler.AttemptsShaped: the wait of each faithful pass is the
  intended backoff; from attempt 58 it is not the source's delay.
- RetryHandler.ShapedAt: the same intended backoff as `AttemptsShaped`.
- RetryHandler.ExitOfLastAttempt: an earlier conflict ends the run only
  through an interrupted wait. In the source, from attempt 58 it can also
  end through `IllegalArgumentException` from `Thread.sleep`.
- RetryHandler.ConflictRetriedUntilLastAttempt: in the source, an
  uninterrupted conflict is followed by another attempt only up to attempt
  57, or with a jitter of 0 from attempt 58 on.
- RetryHandler.WaitsGrow: holds for the intended backoff. From attempt 58
  with jitter 0, the source's waits are all `Long.MAX_VALUE` and so do not grow.
- `Math.pow` and `Math.random` are replaced by integer powers of two and a
  jitter parameter in 0..99. Interruption of the wait is a per-attempt flag.
- `Scanner.nextInt` is replaced by the `choice` parameter. Input that is not
  an integer, which makes `nextInt` throw, is not modelled.

## Findings

| source | as written | input that shows it | evidently intended | confidence | as-written member | corrected member |
|---|---|---|---|---|---|---|
| optimistic-locking-demo/src/main/java/com/example/OptimisticLockingRetryHandler.java:54-57 | `(long) (100 * Math.pow(2, attempts - 1))` saturates at `Long.MAX_VALUE` from attempt 58 on, and `delay += jitter` then wraps around to a negative `long`, which makes `Thread.sleep` throw `IllegalArgumentException` | a handler built with `maxRetries >= 59`, conflicting on attempts 1 to 58, with a jitter of at least 1 drawn after attempt 58 (with `maxRetries = 58` the conflict on attempt 58 is rethrown before the delay is computed) | a positive wait of `100 * 2^(attempt-1)` plus the jitter (or a capped wait) | high for the arithmetic; the demo itself uses `maxRetries = 3` and never reaches it; not executed | Backoff.DelayAsWritten, Backoff.DelayAsWrittenNegativeFrom58 | Backoff.Delay, Backoff.DelayIncreasing (the wait the retry handler model uses) |
