/**
  `OptimisticLockingRetryHandler.executeWithRetry`: fetch the reservation,
  apply the caller's operation, `update`, and on an `OptimisticLockException`
  wait and try again, at most `maxRetries` times.

  The store, the random jitter and the interruption of the wait are scripted
  by an `Env`, indexed by the 1-based attempt number, so every path of the
  loop is reachable from some environment. A run is recorded as one `Attempt`
  per pass through the loop body.
 */
module RetryHandler {
  import opened Model
  import opened Backoff
  import ReservationService

  /** What `update` did with the submitted copy. */
  datatype Answer = Committed | Refused(failure: Failure)

  /** What the handler's surroundings do on attempt `k`. */
  datatype Env = Env(
    /** `findById(reservationId)` on attempt `k`. */
    find: nat -> Option<Reservation>,
    /** `update(candidate)` on attempt `k`. */
    update: (nat, Reservation) -> Answer,
    /** The jitter drawn after a conflict on attempt `k`. */
    jitter: nat -> Jitter,
    /** Whether the wait after attempt `k` is interrupted. */
    interrupted: nat -> bool
  )

  datatype Submitted = Submitted(candidate: Reservation, answer: Answer)

  /** One pass through the loop body: the fetch, the update if any, the wait if any. */
  datatype Attempt = Attempt(found: Option<Reservation>, update: Option<Submitted>, wait: Option<int>)

  /** How `executeWithRetry` ends. */
  datatype Exit = Returned | Threw(cause: Thrown)

  datatype Thrown =
    /** An exception from `update`, rethrown unchanged. */
    | Raised(failure: Failure)
    /** The `RuntimeException` wrapping an `InterruptedException` from the wait. */
    | Interrupted

  datatype Run = Run(log: seq<Attempt>, exit: Exit)

  predicate Conflicted(a: Attempt)
  {
    a.update.Some? && a.update.value.answer.Refused? && a.update.value.answer.failure.OptimisticLock?
  }

  predicate Succeeded(a: Attempt)
  {
    a.update.Some? && a.update.value.answer.Committed?
  }

  /**
    Attempt `a` is the `k`-th loop pass against `env`: it fetched afresh,
    submitted `op` applied to what that same fetch returned and nothing
    else, and waited only after a conflict, for the backoff `Delay` of
    attempt `k` with that attempt's jitter.
   */
  predicate Faithful(a: Attempt, k: nat, op: Reservation -> Reservation, env: Env)
    requires k >= 1
  {
    && a.found == env.find(k)
    && (a.found.None? ==> a.update.None? && a.wait.None?)
    && (a.found.Some? ==>
          var candidate := op(a.found.value);
          a.update == Some(Submitted(candidate, env.update(k, candidate))))
    && (a.wait.Some? ==> Conflicted(a) && a.wait.value == Delay(k, env.jitter(k)))
  }

  /**
    How the last attempt `last`, attempt number `k`, ends the run: a missing
    record or a committed update returns; an exception other than
    `OptimisticLock` escapes at once; a conflict is rethrown on attempt
    `maxRetries`, and before that ends the run only when the wait is interrupted.
   */
  predicate EndsAs(last: Attempt, k: nat, maxRetries: int, env: Env, exit: Exit)
  {
    match last.update
    case None => exit == Returned
    case Some(submitted) =>
      match submitted.answer
      case Committed => exit == Returned
      case Refused(f) =>
        if !f.OptimisticLock? then exit == Threw(Raised(f))
        else if k >= maxRetries then exit == Threw(Raised(f)) && last.wait.None?
        else env.interrupted(k) && last.wait.Some? && exit == Threw(Interrupted)
  }

  /** One pass through the loop body: the attempt it records, and whether the loop goes on or how it ends. */
  datatype Iteration = Iteration(attempt: Attempt, again: bool, exit: Exit)

  /**
    The body of the `while` loop on attempt `k`: `findById`, the operation,
    `update`, and the `catch (OptimisticLockException)` block.
   */
  function LoopBody(op: Reservation -> Reservation, maxRetries: int, env: Env, k: nat): (it: Iteration)
    requires k >= 1
    ensures Faithful(it.attempt, k, op, env)
    ensures it.again <==> Conflicted(it.attempt) && k < maxRetries && !env.interrupted(k)
    ensures it.again ==> it.attempt.wait.Some?
    ensures !it.again ==> EndsAs(it.attempt, k, maxRetries, env, it.exit)
  {
    var found := env.find(k);
    if found.None? then Iteration(Attempt(None, None, None), false, Returned)
    else
      var candidate := op(found.value);
      var answer := env.update(k, candidate);
      var submitted := Some(Submitted(candidate, answer));
      if answer.Committed? then Iteration(Attempt(found, submitted, None), false, Returned)
      else if !answer.failure.OptimisticLock? || k >= maxRetries then
        Iteration(Attempt(found, submitted, None), false, Threw(Raised(answer.failure)))
      else
        var waited := Attempt(found, submitted, Some(Delay(k, env.jitter(k))));
        if env.interrupted(k) then Iteration(waited, false, Threw(Interrupted))
        else Iteration(waited, true, Returned)
  }

  /**
    `log` records consecutive attempts from attempt `k` on: each is faithful
    to its own attempt, and every one but the last conflicted and waited
    without being interrupted.
   */
  predicate Shaped(log: seq<Attempt>, k: nat, op: Reservation -> Reservation, env: Env)
    requires k >= 1
    decreases |log|
  {
    |log| == 0 ||
    (&& Faithful(log[0], k, op, env)
     && (|log| > 1 ==> Conflicted(log[0]) && log[0].wait.Some? && !env.interrupted(k))
     && Shaped(log[1..], k + 1, op, env))
  }

  /** The loop from the point where `made` attempts have been made. */
  function Attempts(op: Reservation -> Reservation, maxRetries: int, env: Env, made: nat): (run: Run)
    ensures made >= maxRetries ==> run == Run([], Returned)
    ensures made < maxRetries ==> 1 <= |run.log| <= maxRetries - made
    decreases maxRetries - made
  {
    if made >= maxRetries then Run([], Returned)
    else
      var it := LoopBody(op, maxRetries, env, made + 1);
      if !it.again then Run([it.attempt], it.exit)
      else
        var rest := Attempts(op, maxRetries, env, made + 1);
        Run([it.attempt] + rest.log, rest.exit)
  }

  /** The attempts a run records from attempt `made + 1` on are consecutive, faithful loop passes. */
  lemma {:induction false} AttemptsShaped(op: Reservation -> Reservation, maxRetries: int, env: Env, made: nat)
    ensures Shaped(Attempts(op, maxRetries, env, made).log, made + 1, op, env)
    decreases maxRetries - made
  {
    if made < maxRetries {
      var it := LoopBody(op, maxRetries, env, made + 1);
      if it.again {
        var rest := Attempts(op, maxRetries, env, made + 1);
        AttemptsShaped(op, maxRetries, env, made + 1);
        PrependShaped(it.attempt, rest.log, made + 1, op, env);
      }
    }
  }

  lemma PrependShaped(a: Attempt, log: seq<Attempt>, k: nat, op: Reservation -> Reservation, env: Env)
    requires k >= 1
    requires Faithful(a, k, op, env) && Conflicted(a) && a.wait.Some? && !env.interrupted(k)
    requires Shaped(log, k + 1, op, env)
    ensures Shaped([a] + log, k, op, env)
  {
    assert ([a] + log)[1..] == log;
  }

  /** The index form of `Shaped`: attempt `i` of the log is attempt number `k + i`. */
  lemma {:induction false} ShapedAt(log: seq<Attempt>, k: nat, op: Reservation -> Reservation, env: Env, i: nat)
    requires k >= 1
    requires Shaped(log, k, op, env) && i < |log|
    ensures Faithful(log[i], k + i, op, env)
    ensures i < |log| - 1 ==> Conflicted(log[i]) && log[i].wait.Some? && !env.interrupted(k + i)
    decreases i
  {
    if i > 0 {
      ShapedAt(log[1..], k + 1, op, env, i - 1);
    }
  }

  /** `executeWithRetry(reservationId, operation)` with the handler's `maxRetries`. */
  function ExecuteWithRetry(op: Reservation -> Reservation, maxRetries: int, env: Env): (run: Run)
    ensures maxRetries <= 0 ==> run == Run([], Returned)
    ensures maxRetries > 0 ==> 1 <= |run.log| <= maxRetries
    ensures Shaped(run.log, 1, op, env)
  {
    AttemptsShaped(op, maxRetries, env, 0);
    Attempts(op, maxRetries, env, 0)
  }

  /** The exit of a run is decided by its last attempt alone. */
  lemma {:induction false} ExitOfLastAttempt(op: Reservation -> Reservation, maxRetries: int, env: Env, made: nat)
    requires made < maxRetries
    ensures var run := Attempts(op, maxRetries, env, made);
            EndsAs(run.log[|run.log| - 1], made + |run.log|, maxRetries, env, run.exit)
    decreases maxRetries - made
  {
    var run := Attempts(op, maxRetries, env, made);
    var it := LoopBody(op, maxRetries, env, made + 1);
    var last, k := it.attempt, made + 1;
    if it.again {
      var rest := Attempts(op, maxRetries, env, made + 1);
      ExitOfLastAttempt(op, maxRetries, env, made + 1);
      assert run.log == [it.attempt] + rest.log;
      last, k := rest.log[|rest.log| - 1], made + 1 + |rest.log|;
    }
    assert last == run.log[|run.log| - 1] && k == made + |run.log|;
  }

  /** A missing reservation ends the run at once, silently, without an `update`. */
  lemma MissingRecordReturns(op: Reservation -> Reservation, maxRetries: int, env: Env, i: nat)
    requires i < |ExecuteWithRetry(op, maxRetries, env).log|
    requires env.find(i + 1).None?
    ensures var run := ExecuteWithRetry(op, maxRetries, env);
            && i == |run.log| - 1
            && run.log[i].update.None?
            && run.exit == Returned
  {
    var log := ExecuteWithRetry(op, maxRetries, env).log;
    ShapedAt(log, 1, op, env, i);
    ExitOfLastAttempt(op, maxRetries, env, 0);
  }

  /**
    While the reservation exists, a normal return means exactly one `update`
    committed, and it was the one of the last attempt made.
   */
  lemma ReturnMeansOneCommit(op: Reservation -> Reservation, maxRetries: int, env: Env)
    requires maxRetries >= 1
    requires forall k :: 1 <= k <= maxRetries ==> env.find(k).Some?
    requires ExecuteWithRetry(op, maxRetries, env).exit == Returned
    ensures var log := ExecuteWithRetry(op, maxRetries, env).log;
            && Succeeded(log[|log| - 1])
            && forall i :: 0 <= i < |log| - 1 ==> !Succeeded(log[i])
  {
    var log := ExecuteWithRetry(op, maxRetries, env).log;
    ExitOfLastAttempt(op, maxRetries, env, 0);
    ShapedAt(log, 1, op, env, |log| - 1);
    forall i | 0 <= i < |log| - 1
      ensures !Succeeded(log[i])
    {
      ShapedAt(log, 1, op, env, i);
    }
  }

  /**
    Only `OptimisticLock` is retried: a conflict before attempt `maxRetries`
    leads to another attempt unless the wait is interrupted, a conflict on
    attempt `maxRetries` is rethrown, and any other refusal ends the run.
   */
  lemma ConflictRetriedUntilLastAttempt(op: Reservation -> Reservation, maxRetries: int, env: Env, i: nat)
    requires i < |ExecuteWithRetry(op, maxRetries, env).log|
    ensures var run := ExecuteWithRetry(op, maxRetries, env);
            && (Conflicted(run.log[i]) && i + 1 < maxRetries && !env.interrupted(i + 1) ==> i + 1 < |run.log|)
            && (Conflicted(run.log[i]) && i + 1 == maxRetries ==> run.exit == Threw(Raised(run.log[i].update.value.answer.failure)))
            && (run.log[i].update.Some? && !Conflicted(run.log[i]) ==> i == |run.log| - 1)
  {
    var log := ExecuteWithRetry(op, maxRetries, env).log;
    ShapedAt(log, 1, op, env, i);
    ExitOfLastAttempt(op, maxRetries, env, 0);
  }

  /** Whatever jitter is drawn, each wait is longer than every wait before it. */
  lemma WaitsGrow(op: Reservation -> Reservation, maxRetries: int, env: Env, i: nat, j: nat)
    requires var log := ExecuteWithRetry(op, maxRetries, env).log;
             i < j < |log| && log[i].wait.Some? && log[j].wait.Some?
    ensures var log := ExecuteWithRetry(op, maxRetries, env).log;
            log[i].wait.value < log[j].wait.value
  {
    var log := ExecuteWithRetry(op, maxRetries, env).log;
    ShapedAt(log, 1, op, env, i);
    ShapedAt(log, 1, op, env, j);
    DelayIncreasing(i + 1, j + 1, env.jitter(i + 1), env.jitter(j + 1));
  }

  /**
    A wait only follows an attempt before attempt `maxRetries`. So when
    `maxRetries` is at most 58, every wait of a run is exactly the `long`
    delay the handler computes, overflow included.
   */
  lemma AgreesWithSourceUpTo58(op: Reservation -> Reservation, maxRetries: int, env: Env, i: nat)
    requires maxRetries <= 58
    requires var log := ExecuteWithRetry(op, maxRetries, env).log;
             i < |log| && log[i].wait.Some?
    ensures var log := ExecuteWithRetry(op, maxRetries, env).log;
            log[i].wait.value == DelayAsWritten(i + 1, env.jitter(i + 1))
  {
    var log := ExecuteWithRetry(op, maxRetries, env).log;
    ShapedAt(log, 1, op, env, i);
    ExitOfLastAttempt(op, maxRetries, env, 0);
    assert i + 1 < maxRetries;
    DelayAsWrittenAgreesBelow58(i + 1, env.jitter(i + 1));
  }

  /**
    The `try` block and the `catch (OptimisticLockException)` block of one
    loop pass, statement by statement: it does what `LoopBody` describes.
   */
  method TryOnce(op: Reservation -> Reservation, maxRetries: int, env: Env, attempts: nat) returns (it: Iteration)
    requires attempts >= 1
    ensures Faithful(it.attempt, attempts, op, env)
    ensures it.again <==> Conflicted(it.attempt) && attempts < maxRetries && !env.interrupted(attempts)
    ensures it.again ==> it.attempt.wait.Some?
    ensures !it.again ==> EndsAs(it.attempt, attempts, maxRetries, env, it.exit)
    ensures it == LoopBody(op, maxRetries, env, attempts)
  {
    var found := env.find(attempts);
    if found.None? {
      return Iteration(Attempt(None, None, None), false, Returned);
    }
    var candidate := op(found.value);
    var answer := env.update(attempts, candidate);
    var submitted := Some(Submitted(candidate, answer));
    if answer.Committed? {
      return Iteration(Attempt(found, submitted, None), false, Returned);
    }
    if !answer.failure.OptimisticLock? || attempts >= maxRetries {
      return Iteration(Attempt(found, submitted, None), false, Threw(Raised(answer.failure)));
    }
    var delay := Delay(attempts, env.jitter(attempts));
    if env.interrupted(attempts) {
      return Iteration(Attempt(found, submitted, Some(delay)), false, Threw(Interrupted));
    }
    return Iteration(Attempt(found, submitted, Some(delay)), true, Returned);
  }

  /** The run that continues after the attempts already recorded in `log`. */
  function Resumed(log: seq<Attempt>, rest: Run): (run: Run)
  {
    Run(log + rest.log, rest.exit)
  }

  /** One more pass of the loop, seen from a run whose first attempts are already in `log`. */
  lemma AttemptsUnrolled(op: Reservation -> Reservation, maxRetries: int, env: Env, made: nat, log: seq<Attempt>)
    requires made < maxRetries
    ensures var it := LoopBody(op, maxRetries, env, made + 1);
            var rest := Attempts(op, maxRetries, env, made);
            && (it.again ==> Resumed(log, rest) == Resumed(log + [it.attempt], Attempts(op, maxRetries, env, made + 1)))
            && (!it.again ==> Resumed(log, rest) == Run(log + [it.attempt], it.exit))
            && (!it.again && it.exit == Returned && it.attempt.found.Some? ==> it.attempt.update.value.answer.Committed?)
  {
    var it := LoopBody(op, maxRetries, env, made + 1);
    if it.again {
      var next := Attempts(op, maxRetries, env, made + 1);
      assert log + ([it.attempt] + next.log) == (log + [it.attempt]) + next.log;
    }
  }

  /**
    The handler's loop as written: an attempt counter, a success flag, an
    early `return` when the reservation is missing, and an exception that
    leaves the loop. It computes the same run as `ExecuteWithRetry`.
   */
  method ExecuteWithRetryLoop(op: Reservation -> Reservation, maxRetries: int, env: Env) returns (run: Run)
    ensures run == ExecuteWithRetry(op, maxRetries, env)
  {
    ghost var whole := Attempts(op, maxRetries, env, 0);
    var attempts: nat := 0;
    var success := false;
    var log: seq<Attempt> := [];
    assert log + whole.log == whole.log;
    while !success && attempts < maxRetries
      invariant !success ==> whole == Resumed(log, Attempts(op, maxRetries, env, attempts))
      invariant success ==> whole == Run(log, Returned)
      decreases maxRetries - attempts
    {
      AttemptsUnrolled(op, maxRetries, env, attempts, log);
      attempts := attempts + 1;
      var it := TryOnce(op, maxRetries, env, attempts);
      if !it.again {
        if it.attempt.found.None? || it.exit != Returned {
          return Run(log + [it.attempt], it.exit);
        }
        success := true;
      }
      log := log + [it.attempt];
    }
    run := Run(log, Returned);
  }

  // The handler against the sequential store

  /** The environment of a handler that is the only writer of the table. */
  function Alone(store: ReservationService.Store, id: int): (env: Env)
  {
    Env(
      k => ReservationService.FindById(store, id),
      (k, c) => var s := ReservationService.Update(store, c);
                if s.result.Ok? then Committed else Refused(s.result.failure),
      k => 0,
      k => false)
  }

  /**
    Without a concurrent writer no retry happens: an operation that keeps the
    id and the version sees its first `update` committed or refused for an
    overlap, and the run ends after that one attempt.
   */
  lemma NoRetryWhenAlone(store: ReservationService.Store, id: int, op: Reservation -> Reservation, maxRetries: int)
    requires ReservationService.Keyed(store)
    requires forall r :: op(r).id == r.id && op(r).version == r.version
    requires maxRetries >= 1
    ensures var run := ExecuteWithRetry(op, maxRetries, Alone(store, id));
            && |run.log| == 1
            && (run.exit == Returned || run.exit == Threw(Raised(Overlap)))
  {
    var env := Alone(store, id);
    var it := LoopBody(op, maxRetries, env, 1);
    if id in store {
      var r := store[id];
      assert env.find(1) == Some(r);
      var s := ReservationService.Update(store, op(r));
      assert op(r).id == Some(id) && op(r).version == store[id].version;
      assert s.result.Err? ==> s.result.failure == Overlap;
      assert it.attempt.update.value.answer == env.update(1, op(r));
    }
    assert !it.again;
    assert Attempts(op, maxRetries, env, 0) == Run([it.attempt], it.exit);
  }
}
