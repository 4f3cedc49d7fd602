/**
  The entities of the room-reservation demo: a reservation record, the
  failures the reservation service and JPA report, and the half-open
  time-interval test that the overlap rule is built on.

  Dates are whole minutes on a common time line, so `LocalDateTime.plusHours(1)`
  becomes `+ 60`. Rooms (`Salle`) and users (`Utilisateur`) are referred to by
  their identifiers only: the model never looks inside them.
 */
module Model {

  /** Java's `Optional` and nullable references. */
  datatype Option<+T> = None | Some(value: T)

  /** The exceptions a store call can end with. */
  datatype Failure =
    /** `IllegalArgumentException` thrown by `save`/`update` when `hasOverlap` holds. */
    | Overlap
    /** `OptimisticLockException`: the caller's copy carries `expected`, the row holds `actual`. */
    | OptimisticLock(expected: nat, actual: nat)
    /** Any other persistence exception, rethrown after the transaction is rolled back. */
    | Persistence

  /** The value of a call that either returns normally or throws. */
  datatype Result<+T> = Ok(value: T) | Err(failure: Failure)

  /** One row of the `Reservation` entity. `id` is null until the entity is persisted. */
  datatype Reservation = Reservation(
    id: Option<int>,
    version: nat,
    salleId: int,
    utilisateurId: int,
    dateDebut: int,
    dateFin: int,
    motif: string
  )

  /** Minutes in one hour, the unit of the demo's date shift. */
  const OneHour: int := 60

  /**
    The interval clause of the overlap query, `r.dateDebut < :dateFin AND
    r.dateFin > :dateDebut`, where `r` is the stored row and `c` the candidate.
   */
  predicate Intersects(r: Reservation, c: Reservation)
  {
    r.dateDebut < c.dateFin && r.dateFin > c.dateDebut
  }

  /** The test does not depend on which of the two records is the stored one. */
  lemma IntersectsSymmetric(a: Reservation, b: Reservation)
    ensures Intersects(a, b) <==> Intersects(b, a)
  {
  }

  /** Both comparisons are strict: windows that only share an endpoint are disjoint. */
  lemma TouchingDoNotIntersect(a: Reservation, b: Reservation)
    requires a.dateFin == b.dateDebut || a.dateDebut == b.dateFin
    ensures !Intersects(a, b) && !Intersects(b, a)
  {
  }
}
