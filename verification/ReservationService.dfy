/**
  `ReservationServiceImpl`: the overlap query and the four store operations,
  executed one at a time against a table of reservations.

  The JPQL engine is replaced by the predicate its WHERE clause expresses, and
  each operation returns the table as its transaction leaves it. The version
  check that JPA performs on `merge` of a `@Version` entity is written out
  here (stored version different from the caller's copy means
  `OptimisticLock`, otherwise the version goes up by one): the entity class
  is not part of this model, so that check is an assumption of the store.
 */
module ReservationService {
  import opened Model

  /** The `Reservation` table, keyed by primary key. */
  type Store = map<int, Reservation>

  /** A primary key handed out by the persistence provider; such keys are positive. */
  type GeneratedId = k: int | k >= 1 witness 1

  /** The table after a call, and what the call returned or threw. */
  datatype Step<+T> = Step(store: Store, result: Result<T>)

  /** Every row is stored under its own generated id. */
  predicate Keyed(store: Store)
  {
    forall k :: k in store ==> k >= 1 && store[k].id == Some(k)
  }

  /** The business rule: two different rows booked on the same room never intersect. */
  predicate NoOverlap(store: Store)
  {
    forall a, b :: a in store && b in store && a != b && store[a].salleId == store[b].salleId
      ==> !Intersects(store[a], store[b])
  }

  /** The value bound to the query's `:id` parameter: a null id becomes -1. */
  function QueryId(c: Reservation): (id: int)
  {
    if c.id.Some? then c.id.value else -1
  }

  /** The WHERE clause, for the row with primary key `rowId` and the candidate `c`. */
  predicate Clashes(rowId: int, row: Reservation, c: Reservation)
  {
    row.salleId == c.salleId && rowId != QueryId(c) && Intersects(row, c)
  }

  /** `SELECT COUNT(r) ... WHERE <Clashes>`. */
  function OverlapCount(store: Store, c: Reservation): (n: nat)
  {
    |set k | k in store && Clashes(k, store[k], c)|
  }

  /** `hasOverlap`: the count query is positive exactly when some row clashes with `c`. */
  function HasOverlap(store: Store, c: Reservation): (b: bool)
    ensures b <==> exists k :: k in store && Clashes(k, store[k], c)
  {
    CountPositiveIffClash(store, c);
    OverlapCount(store, c) > 0
  }

  /** A set is counted positive exactly when it has a member. */
  lemma CountPositiveIffClash(store: Store, c: Reservation)
    ensures OverlapCount(store, c) > 0 <==> exists k :: k in store && Clashes(k, store[k], c)
  {
    var rows := set k | k in store && Clashes(k, store[k], c);
    if exists k :: k in store && Clashes(k, store[k], c) {
      var k :| k in store && Clashes(k, store[k], c);
      assert k in rows;
    }
  }

  /** `findById`: the row stored under `id`, if any. */
  function FindById(store: Store, id: int): (r: Option<Reservation>)
    ensures r.Some? <==> id in store
    ensures r.Some? ==> r.value == store[id]
  {
    if id in store then Some(store[id]) else None
  }

  /**
    `save`: refused when `hasOverlap` holds; otherwise `persist` stores the
    candidate under the generated id `newId` with the initial version 0.
    Persisting a candidate that already carries an id, or a generated id that
    is already in use, makes JPA throw, and the rollback leaves the table as it was.
   */
  function Save(store: Store, c: Reservation, newId: GeneratedId): (s: Step<Reservation>)
    ensures HasOverlap(store, c) ==> s.result == Err(Overlap)
    ensures !HasOverlap(store, c) && c.id.None? && newId !in store ==> s.result.Ok?
    ensures s.result.Err? ==> s.store == store
    ensures s.result.Ok? ==>
              && newId !in store
              && s.store.Keys == store.Keys + {newId}
              && (forall k :: k in store ==> s.store[k] == store[k])
              && s.store[newId] == s.result.value
              && s.result.value.id == Some(newId)
              && s.result.value.version == 0
              && s.result.value.(id := c.id, version := c.version) == c
  {
    if HasOverlap(store, c) then Step(store, Err(Overlap))
    else if c.id.Some? || newId in store then Step(store, Err(Persistence))
    else
      var saved := c.(id := Some(newId), version := 0);
      Step(store[newId := saved], Ok(saved))
  }

  /**
    `update`: refused when `hasOverlap` holds; otherwise `merge` commits the
    candidate over the row with the same id when the versions agree, bumping
    the version. A stale copy raises `OptimisticLock`; a candidate with no id
    or no row to merge into is reported as a persistence failure.
   */
  function Update(store: Store, c: Reservation): (s: Step<()>)
    ensures HasOverlap(store, c) ==> s.result == Err(Overlap)
    ensures s.result.Err? ==> s.store == store
    ensures s.result.Err? && s.result.failure.OptimisticLock? ==>
              c.id.Some? && c.id.value in store && store[c.id.value].version != c.version
    ensures !HasOverlap(store, c) && c.id.Some? && c.id.value in store && store[c.id.value].version != c.version ==>
              s.result == Err(OptimisticLock(c.version, store[c.id.value].version))
    ensures s.result.Ok? ==>
              && c.id.Some? && c.id.value in store
              && store[c.id.value].version == c.version
              && s.store.Keys == store.Keys
              && (forall k :: k in store && k != c.id.value ==> s.store[k] == store[k])
              && s.store[c.id.value].version == store[c.id.value].version + 1
              && s.store[c.id.value].(version := c.version) == c
  {
    if HasOverlap(store, c) then Step(store, Err(Overlap))
    else match c.id
      case None => Step(store, Err(Persistence))
      case Some(k) =>
        if k !in store then Step(store, Err(Persistence))
        else if store[k].version != c.version then Step(store, Err(OptimisticLock(c.version, store[k].version)))
        else Step(store[k := c.(version := c.version + 1)], Ok(()))
  }

  /**
    `delete`: no overlap check. The detached copy is merged first, so a stale
    copy raises `OptimisticLock`; otherwise the row is removed.
   */
  function Delete(store: Store, c: Reservation): (s: Step<()>)
    ensures s.result.Err? ==> s.store == store
    ensures s.result.Ok? ==> c.id.Some? && s.store == store - {c.id.value} && c.id.value in store
  {
    match c.id
    case None => Step(store, Err(Persistence))
    case Some(k) =>
      if k !in store then Step(store, Err(Persistence))
      else if store[k].version != c.version then Step(store, Err(OptimisticLock(c.version, store[k].version)))
      else Step(store - {k}, Ok(()))
  }

  // Properties of the overlap query

  /** The candidate's own row is excluded by `r.id <> :id`, so it never counts against it. */
  lemma NeverOverlapsItself(store: Store, c: Reservation, k: int)
    requires c.id == Some(k)
    ensures HasOverlap(store, c) <==> HasOverlap(store - {k}, c)
    ensures !HasOverlap(map[k := c], c)
  {
    if HasOverlap(store, c) {
      var j :| j in store && Clashes(j, store[j], c);
      assert j in store - {k};
    }
  }

  /**
    A candidate without an id is bound as -1, and no generated key is -1, so
    every row of its room takes part in the test.
   */
  lemma NullIdComparedWithEveryRow(store: Store, c: Reservation)
    requires Keyed(store)
    requires c.id.None?
    ensures HasOverlap(store, c) <==>
              exists k :: k in store && store[k].salleId == c.salleId && Intersects(store[k], c)
  {
    if exists k :: k in store && store[k].salleId == c.salleId && Intersects(store[k], c) {
      var k :| k in store && store[k].salleId == c.salleId && Intersects(store[k], c);
      assert Clashes(k, store[k], c);
    }
  }

  /** A row booked on another room never counts, whatever its times. */
  lemma OtherRoomIgnored(store: Store, c: Reservation, k: int, r: Reservation)
    requires r.salleId != c.salleId
    ensures HasOverlap(store[k := r], c) <==> HasOverlap(store - {k}, c)
  {
    if HasOverlap(store[k := r], c) {
      var j :| j in store[k := r] && Clashes(j, store[k := r][j], c);
      assert j in store - {k};
    }
    if HasOverlap(store - {k}, c) {
      var j :| j in store - {k} && Clashes(j, (store - {k})[j], c);
      assert j in store[k := r];
    }
  }

  /** A row whose window only touches the candidate's at an endpoint never counts. */
  lemma TouchingRowIgnored(store: Store, c: Reservation, k: int)
    requires k in store
    requires store[k].dateFin == c.dateDebut || store[k].dateDebut == c.dateFin
    ensures HasOverlap(store, c) <==> HasOverlap(store - {k}, c)
  {
    if HasOverlap(store, c) {
      var j :| j in store && Clashes(j, store[j], c);
      TouchingDoNotIntersect(store[k], c);
      assert j in store - {k};
    }
  }

  // The service operations

  /** `update` commits exactly when the guard passes, the row exists and the copy is current. */
  lemma UpdateSucceedsIff(store: Store, c: Reservation)
    ensures Update(store, c).result.Ok? <==>
              && !HasOverlap(store, c)
              && c.id.Some? && c.id.value in store
              && store[c.id.value].version == c.version
  {
  }

  /** `save` stores the candidate exactly when the guard passes, the candidate is new and the generated id is free. */
  lemma SaveSucceedsIff(store: Store, c: Reservation, newId: GeneratedId)
    ensures Save(store, c, newId).result.Ok? <==> !HasOverlap(store, c) && c.id.None? && newId !in store
  {
  }

  /** A saved reservation is found under its generated id, as it was saved. */
  lemma FindAfterSave(store: Store, c: Reservation, newId: GeneratedId)
    requires Save(store, c, newId).result.Ok?
    ensures FindById(Save(store, c, newId).store, newId) == Some(c.(id := Some(newId), version := 0))
  {
  }

  /** After a committed update, the row holds the candidate with its version one higher. */
  lemma FindAfterUpdate(store: Store, c: Reservation)
    requires Update(store, c).result.Ok?
    ensures FindById(Update(store, c).store, c.id.value) == Some(c.(version := c.version + 1))
  {
  }

  /** `delete` succeeds exactly when the row exists and the copy is current; no overlap is consulted. */
  lemma DeleteSucceedsIff(store: Store, c: Reservation)
    ensures Delete(store, c).result.Ok? <==>
              c.id.Some? && c.id.value in store && store[c.id.value].version == c.version
  {
  }

  /** After a successful `delete`, `findById` no longer finds the row, and every other row is still found. */
  lemma FindAfterDelete(store: Store, c: Reservation, id: int)
    requires Delete(store, c).result.Ok?
    ensures FindById(Delete(store, c).store, id) == if id == c.id.value then None else FindById(store, id)
  {
  }

  // The business invariant, for calls executed one after the other

  /** Keys of the table are generated ids and no two rows of one room intersect. */
  predicate Valid(store: Store)
  {
    Keyed(store) && NoOverlap(store)
  }

  /** A successful `save` keeps the table valid: its guard compared the candidate with every row. */
  lemma {:induction false} SavePreservesInvariant(store: Store, c: Reservation, newId: GeneratedId)
    requires Valid(store)
    requires Save(store, c, newId).result.Ok?
    ensures Valid(Save(store, c, newId).store)
  {
    var after := Save(store, c, newId).store;
    var saved := after[newId];
    assert !HasOverlap(store, c);
    forall a, b | a in after && b in after && a != b && after[a].salleId == after[b].salleId
      ensures !Intersects(after[a], after[b])
    {
      if a == newId {
        assert !Clashes(b, store[b], c);
        IntersectsSymmetric(after[a], after[b]);
      } else if b == newId {
        assert !Clashes(a, store[a], c);
      }
    }
  }

  /** A successful `update` keeps the table valid: every other row of the room was checked. */
  lemma {:induction false} UpdatePreservesInvariant(store: Store, c: Reservation)
    requires Valid(store)
    requires Update(store, c).result.Ok?
    ensures Valid(Update(store, c).store)
  {
    var after := Update(store, c).store;
    var k := c.id.value;
    assert !HasOverlap(store, c);
    forall a, b | a in after && b in after && a != b && after[a].salleId == after[b].salleId
      ensures !Intersects(after[a], after[b])
    {
      if a == k {
        assert !Clashes(b, store[b], c);
        IntersectsSymmetric(after[a], after[b]);
      } else if b == k {
        assert !Clashes(a, store[a], c);
      }
    }
  }

  /** `delete` runs no overlap check, and needs none: removing a row keeps the table valid. */
  lemma DeletePreservesInvariant(store: Store, c: Reservation)
    requires Valid(store)
    ensures Valid(Delete(store, c).store)
  {
  }

  /**
    A room booked 10:00-12:00: a request for 11:00-13:00 is refused and the
    table is unchanged, while 12:00-13:00, which only touches it, is stored.
   */
  lemma OverlapScenario()
    ensures var booked := Reservation(Some(1), 0, 7, 1, 600, 720, "Réunion d'équipe");
            var store := map[1 := booked];
            var late := Reservation(None, 0, 7, 2, 660, 780, "Point");
            var next := Reservation(None, 0, 7, 2, 720, 780, "Point");
            && Save(store, late, 2) == Step(store, Err(Overlap))
            && Save(store, next, 2).result.Ok?
            && Save(store, next, 2).store == map[1 := booked, 2 := next.(id := Some(2))]
  {
    var booked := Reservation(Some(1), 0, 7, 1, 600, 720, "Réunion d'équipe");
    var store := map[1 := booked];
    var late := Reservation(None, 0, 7, 2, 660, 780, "Point");
    var next := Reservation(None, 0, 7, 2, 720, 780, "Point");
    assert Clashes(1, store[1], late);
    assert !HasOverlap(store, next);
  }
}
