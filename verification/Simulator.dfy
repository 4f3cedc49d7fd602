/**
  The sequential logic of `ConcurrentReservationSimulator`: the mutations
  the demo threads apply, the manual merge in `handleConflictManually`, and
  the one-shot escalation of thread 2 in
  `simulateConcurrentReservationConflictWithManualChoice`.

  Threads, latches and the console are not modelled: the user's menu choice
  is a parameter, and the store calls of thread 2 are scripted by an
  `EscalationEnv`, indexed by round (1 for the first fetch and update, 2 for
  the re-fetch and the update after a conflict).
 */
module Simulator {
  import opened Model
  import opened ReservationService
  import RetryHandler

  // The demo mutations

  /** Thread 2's mutation: `setDateDebut(plusHours(1))` and `setDateFin(plusHours(1))`. */
  function ShiftOneHour(r: Reservation): (s: Reservation)
    ensures s.dateFin - s.dateDebut == r.dateFin - r.dateDebut
    ensures s.dateDebut > r.dateDebut
    ensures r.dateDebut < r.dateFin ==> s.dateDebut < s.dateFin
    ensures s.(dateDebut := r.dateDebut, dateFin := r.dateFin) == r
  {
    r.(dateDebut := r.dateDebut + OneHour, dateFin := r.dateFin + OneHour)
  }

  /** Thread 1's mutation: `setMotif(motif)`. */
  function SetMotif(r: Reservation, motif: string): (s: Reservation)
    ensures s.motif == motif
    ensures s.(motif := r.motif) == r
  {
    r.(motif := motif)
  }

  /** Changing the motif never changes the answer of the overlap query. */
  lemma SetMotifKeepsOverlap(store: Store, r: Reservation, motif: string)
    ensures HasOverlap(store, SetMotif(r, motif)) == HasOverlap(store, r)
  {
    var s := SetMotif(r, motif);
    assert forall k :: k in store ==> (Clashes(k, store[k], s) <==> Clashes(k, store[k], r));
  }

  /**
    Shifting a reservation and every row of the table by the same hour keeps
    the answer of the overlap query.
   */
  lemma ShiftKeepsOverlapWhenAllShift(store: Store, r: Reservation)
    ensures var shifted := map k | k in store :: ShiftOneHour(store[k]);
            HasOverlap(shifted, ShiftOneHour(r)) == HasOverlap(store, r)
  {
    var shifted := map k | k in store :: ShiftOneHour(store[k]);
    assert forall k :: k in store ==>
      (Clashes(k, shifted[k], ShiftOneHour(r)) <==> Clashes(k, store[k], r));
  }

  /** Both demo operations keep the id and the version, as the retry loop expects of them. */
  lemma DemoOperationsKeepIdentity(r: Reservation, motif: string)
    ensures ShiftOneHour(r).id == r.id && ShiftOneHour(r).version == r.version
    ensures SetMotif(r, motif).id == r.id && SetMotif(r, motif).version == r.version
  {
  }

  // handleConflictManually

  /** Choice 2: the old record takes the dates and the motif of the new attempt. */
  function Merge(oldReservation: Reservation, newReservation: Reservation): (m: Reservation)
    ensures m.dateDebut == newReservation.dateDebut && m.dateFin == newReservation.dateFin && m.motif == newReservation.motif
    ensures m.id == oldReservation.id && m.version == oldReservation.version
    ensures m.salleId == oldReservation.salleId && m.utilisateurId == oldReservation.utilisateurId
  {
    oldReservation.(dateDebut := newReservation.dateDebut, dateFin := newReservation.dateFin, motif := newReservation.motif)
  }

  /** Merging again changes nothing, and a later merge overrides an earlier one. */
  lemma MergeLastWins(oldReservation: Reservation, first: Reservation, second: Reservation)
    ensures Merge(Merge(oldReservation, first), first) == Merge(oldReservation, first)
    ensures Merge(Merge(oldReservation, first), second) == Merge(oldReservation, second)
    ensures Merge(oldReservation, oldReservation) == oldReservation
  {
  }

  /** The outcome of `handleConflictManually`: the table, the old record after it, the updates issued. */
  datatype Manual = Manual(store: Store, record: Reservation, updates: seq<Reservation>, result: Result<()>)

  /**
    `handleConflictManually(oldReservation, newReservation)` with the user's
    `choice`. Only choice 2 writes: one `update` of the merged record, whose
    exception is not caught.
   */
  function HandleConflictManually(store: Store, oldReservation: Reservation, newReservation: Reservation, choice: int): (m: Manual)
    ensures choice != 2 ==> m == Manual(store, oldReservation, [], Ok(()))
    ensures choice == 2 ==>
              && m.updates == [m.record]
              && m.record == Merge(oldReservation, newReservation)
              && Step(m.store, m.result) == Update(store, m.record)
  {
    if choice == 2 then
      var merged := Merge(oldReservation, newReservation);
      var s := Update(store, merged);
      Manual(s.store, merged, [merged], s.result)
    else
      Manual(store, oldReservation, [], Ok(()))
  }

  /** Whatever the choice, the manual resolution keeps a valid table valid. */
  lemma ManualKeepsInvariant(store: Store, oldReservation: Reservation, newReservation: Reservation, choice: int)
    requires Valid(store)
    ensures Valid(HandleConflictManually(store, oldReservation, newReservation, choice).store)
  {
    if choice == 2 {
      var merged := Merge(oldReservation, newReservation);
      if Update(store, merged).result.Ok? {
        UpdatePreservesInvariant(store, merged);
      }
    }
  }

  // Thread 2 of simulateConcurrentReservationConflictWithManualChoice

  /** `findById` and `update` as thread 2 sees them in round 1 and round 2. */
  datatype EscalationEnv = EscalationEnv(
    find: nat -> Option<Reservation>,
    update: (nat, Reservation) -> RetryHandler.Answer
  )

  datatype Call = Find(found: Option<Reservation>) | Write(candidate: Reservation, answer: RetryHandler.Answer)

  /** Why thread 2 printed an error: `orElseThrow` on a missing record, or a store exception. */
  datatype Cause = NotFound | Refusal(failure: Failure)

  datatype Outcome =
    /** The first update committed. */
    | Updated
    /** The first update conflicted and the update after the re-fetch committed. */
    | Resolved
    /** An error of the first round other than a conflict, printed by the outer catch. */
    | Reported(cause: Cause)
    /** An error after the conflict, printed by the inner catch. */
    | ResolutionFailed(cause: Cause)

  datatype Escalation = Escalation(calls: seq<Call>, outcome: Outcome)

  /** The round an answer belongs to ended in an `OptimisticLockException`. */
  predicate IsConflict(a: RetryHandler.Answer)
  {
    a.Refused? && a.failure.OptimisticLock?
  }

  /**
    Thread 2: fetch, set its motif, update; on an `OptimisticLockException`
    re-fetch the latest record, set the resolved motif and update once more.
    Every error is printed, none is retried.
   */
  function Thread2(motif: string, resolvedMotif: string, env: EscalationEnv): (e: Escalation)
    ensures 1 <= |e.calls| <= 4
    ensures forall i :: 0 <= i < |e.calls| ==> (e.calls[i].Write? <==> i % 2 == 1)
    ensures e.calls[0] == Find(env.find(1))
    ensures env.find(1).None? ==> e == Escalation([Find(None)], Reported(NotFound))
    ensures env.find(1).Some? ==> |e.calls| >= 2
    ensures |e.calls| >= 2 ==>
              && env.find(1).Some?
              && e.calls[1].candidate == SetMotif(env.find(1).value, motif)
              && e.calls[1].answer == env.update(1, e.calls[1].candidate)
    ensures |e.calls| == 2 && e.calls[1].answer.Refused? ==>
              !IsConflict(e.calls[1].answer) && e.outcome == Reported(Refusal(e.calls[1].answer.failure))
    ensures |e.calls| >= 3 ==> IsConflict(e.calls[1].answer) && e.calls[2] == Find(env.find(2))
    ensures |e.calls| == 3 ==> env.find(2).None? && e.outcome == ResolutionFailed(NotFound)
    ensures |e.calls| >= 2 && IsConflict(e.calls[1].answer) ==> |e.calls| >= 3
    ensures |e.calls| == 4 && e.calls[3].answer.Refused? ==> e.outcome == ResolutionFailed(Refusal(e.calls[3].answer.failure))
    ensures |e.calls| == 4 ==>
              && env.find(2).Some?
              && e.calls[3].candidate == SetMotif(env.find(2).value, resolvedMotif)
              && e.calls[3].answer == env.update(2, e.calls[3].candidate)
    ensures e.outcome == Updated <==> |e.calls| == 2 && e.calls[1].answer.Committed?
    ensures e.outcome == Resolved <==> |e.calls| == 4 && e.calls[3].answer.Committed?
  {
    match env.find(1)
    case None => Escalation([Find(None)], Reported(NotFound))
    case Some(r2) =>
      var first := SetMotif(r2, motif);
      var answer := env.update(1, first);
      var round1 := [Find(Some(r2)), Write(first, answer)];
      if answer.Committed? then Escalation(round1, Updated)
      else if !IsConflict(answer) then Escalation(round1, Reported(Refusal(answer.failure)))
      else
        match env.find(2)
        case None => Escalation(round1 + [Find(None)], ResolutionFailed(NotFound))
        case Some(latest) =>
          var second := SetMotif(latest, resolvedMotif);
          var answer2 := env.update(2, second);
          var calls := round1 + [Find(Some(latest)), Write(second, answer2)];
          if answer2.Committed? then Escalation(calls, Resolved)
          else Escalation(calls, ResolutionFailed(Refusal(answer2.failure)))
  }

  /**
    Escalation is reserved to conflicts and is one-shot: a second update
    happens exactly when the first one conflicted and the record is still
    there, and its failure is reported rather than retried.
   */
  lemma EscalationOnlyOnConflict(motif: string, resolvedMotif: string, env: EscalationEnv)
    ensures var e := Thread2(motif, resolvedMotif, env);
            var conflicted := env.find(1).Some? && IsConflict(env.update(1, SetMotif(env.find(1).value, motif)));
            && (|e.calls| == 4 <==> conflicted && env.find(2).Some?)
            && (conflicted <==> e.outcome.Resolved? || e.outcome.ResolutionFailed?)
            && (!conflicted ==> |e.calls| <= 2)
  {
  }

  // Scenarios of the demo, on the sequential store

  const Booked := Reservation(Some(1), 0, 7, 1, 600, 720, "Réunion d'équipe")

  /** Thread 1's motif in `simulateConcurrentReservationConflict`. */
  const Thread1Motif := "Réunion d'équipe modifiée par Thread 1"

  /**
    The lost update of `simulateConcurrentReservationConflict`, in the order
    its sleeps make likely: thread 2, which updates at once, commits the
    one-hour shift on version 0; thread 1, which sleeps a second first,
    then submits its motif on its version-0 copy and is refused with an
    `OptimisticLock` from 0 to 1, leaving the table as thread 2 left it.
   */
  lemma LostUpdateScenario()
    ensures var s0 := map[1 := Booked];
            var s1 := Update(s0, ShiftOneHour(Booked));
            && s1.result.Ok?
            && s1.store[1] == ShiftOneHour(Booked).(version := 1)
            && Update(s1.store, SetMotif(Booked, Thread1Motif)) == Step(s1.store, Err(OptimisticLock(0, 1)))
  {
    var s0 := map[1 := Booked];
    NeverOverlapsItself(s0, ShiftOneHour(Booked), 1);
    var s1 := Update(s0, ShiftOneHour(Booked)).store;
    NeverOverlapsItself(s1, SetMotif(Booked, Thread1Motif), 1);
  }

  /**
    The other interleaving of the same two threads, resolved by hand: thread
    1's motif commits version 1 first, thread 2's shifted version-0 copy
    conflicts, and `handleConflictManually` with choice 2 merges that copy
    into the latest record. Version 2 is committed with thread 2's dates and
    also with thread 2's stale motif: the merge copies the motif, so thread
    1's change is overwritten.
   */
  lemma ManualChoiceScenario()
    ensures var s1 := map[1 := SetMotif(Booked, Thread1Motif).(version := 1)];
            var m := HandleConflictManually(s1, s1[1], ShiftOneHour(Booked), 2);
            && m.result.Ok?
            && m.store[1].version == 2
            && m.store[1].dateDebut == 660 && m.store[1].dateFin == 780
            && m.store[1].motif == Booked.motif
  {
    var s1 := map[1 := SetMotif(Booked, Thread1Motif).(version := 1)];
    NeverOverlapsItself(s1, Merge(s1[1], ShiftOneHour(Booked)), 1);
  }
}
