/**
 * The database the views work on: one table per record type, keyed by the
 * primary key, with the foreign keys Rent -> Locker -> Bloq and their
 * cascading deletes.
 */
module Storage {
  import opened Wrappers
  import opened Models
  import Ordering
  import Batch

  datatype Store = Store(
    bloqs: map<string, Bloq>,
    lockers: map<string, Locker>,
    rents: map<string, Rent>)

  /** The errors the views answer with. */
  datatype Error =
    | Rejected(failure: Batch.BatchError)   // a bulk create or update refused a record; nothing of the batch is stored
    | MissingKey(index: nat, field: string) // a submitted item lacks a key the view reads directly
    | RequiredParam(name: string)           // a required path parameter is empty or absent (ValidationError)
    | NotFound(entity: string)              // no row has the requested id (NotFound)
    | DanglingReference(entity: string)     // a foreign key names a row that does not exist

  /** The store after a request, and what the request answered. */
  datatype Reply<T> = Reply(store: Store, result: Result<T, Error>)

  /** Every row is stored under its own primary key. */
  ghost predicate KeyedTables(s: Store)
  {
    && Ordering.Keyed(s.bloqs, BloqKey)
    && Ordering.Keyed(s.lockers, LockerKey)
    && Ordering.Keyed(s.rents, RentKey)
  }

  /**
   * What the database guarantees: rows keyed by primary key, required text
   * fields filled, and every foreign key naming an existing row.
   */
  ghost predicate Consistent(s: Store)
  {
    && KeyedTables(s)
    && (forall k :: k in s.bloqs ==> WellFormedBloq(s.bloqs[k]))
    && (forall k :: k in s.lockers ==> WellFormedLocker(s.lockers[k]) && s.lockers[k].bloqId in s.bloqs)
    && (forall k :: k in s.rents ==> WellFormedRent(s.rents[k]) && s.rents[k].lockerId in s.lockers)
  }

  /** Deletes a locker; its rents go with it (`on_delete=CASCADE`). */
  function DeleteLocker(s: Store, id: string): (r: Reply<()>)
    ensures id !in s.lockers ==> r == Reply(s, Failure(NotFound("Locker")))
    ensures id in s.lockers ==> r.result.Success?
    ensures r.store.bloqs == s.bloqs
    ensures forall k :: k in r.store.lockers <==> k in s.lockers && (id in s.lockers ==> k != id)
    ensures forall k :: k in r.store.rents <==> k in s.rents && (id in s.lockers ==> s.rents[k].lockerId != id)
    ensures forall k :: k in r.store.lockers ==> r.store.lockers[k] == s.lockers[k]
    ensures forall k :: k in r.store.rents ==> r.store.rents[k] == s.rents[k]
    ensures Consistent(s) ==> Consistent(r.store)
  {
    if id !in s.lockers then Reply(s, Failure(NotFound("Locker")))
    else
      var rents := map k | k in s.rents && s.rents[k].lockerId != id :: s.rents[k];
      Reply(Store(s.bloqs, s.lockers - {id}, rents), Success(()))
  }

  /** The lockers of the Bloq `id`. */
  function LockersOf(s: Store, id: string): set<string>
  {
    set k | k in s.lockers && s.lockers[k].bloqId == id
  }

  /** Deletes a Bloq; its lockers go with it, and their rents with them. */
  function DeleteBloq(s: Store, id: string): (r: Reply<()>)
    ensures id !in s.bloqs ==> r == Reply(s, Failure(NotFound("Bloq")))
    ensures id in s.bloqs ==> r.result.Success?
    ensures forall k :: k in r.store.bloqs <==> k in s.bloqs && (id in s.bloqs ==> k != id)
    ensures forall k :: k in r.store.lockers <==> k in s.lockers && (id in s.bloqs ==> s.lockers[k].bloqId != id)
    ensures forall k :: k in r.store.rents <==> k in s.rents && (id in s.bloqs ==> s.rents[k].lockerId !in LockersOf(s, id))
    ensures forall k :: k in r.store.bloqs ==> r.store.bloqs[k] == s.bloqs[k]
    ensures forall k :: k in r.store.lockers ==> r.store.lockers[k] == s.lockers[k]
    ensures forall k :: k in r.store.rents ==> r.store.rents[k] == s.rents[k]
    ensures Consistent(s) ==> Consistent(r.store)
    ensures Consistent(s) && id in s.bloqs ==> forall k :: k in s.rents ==>
      (k in r.store.rents <==> s.rents[k].lockerId in r.store.lockers)
  {
    if id !in s.bloqs then Reply(s, Failure(NotFound("Bloq")))
    else
      var gone := LockersOf(s, id);
      var lockers := map k | k in s.lockers && k !in gone :: s.lockers[k];
      var rents := map k | k in s.rents && s.rents[k].lockerId !in gone :: s.rents[k];
      Reply(Store(s.bloqs - {id}, lockers, rents), Success(()))
  }
}
