/**
 * The rental flow: the Rent list, the intake of a batch of Rents (which
 * first frees the lockers they name), and the drop-off and pickup
 * transitions, each of which moves one Rent and its Locker together.
 */
module RentViews {
  import opened Wrappers
  import opened Models
  import opened Ordering
  import opened Storage
  import Batch
  import Serializers

  /** The Rent list (`Rent.objects.all().order_by('id')`). */
  method ListRents(s: Store) returns (r: seq<Rent>)
    requires KeyedTables(s)
    ensures ListsInKeyOrder(s.rents, RentKey, r)
    ensures forall x :: x in r <==> x in s.rents.Values
    ensures forall i, j :: 0 <= i < j < |r| ==> Below(r[i].id, r[j].id)
  {
    r := ListInKeyOrder(s.rents, RentKey);
    forall x | x in s.rents.Values
      ensures x in r
    {
      var k :| k in s.rents && s.rents[k] == x;
    }
  }

  // ------------------------------------------------------------ intake

  /** A locker made ready for a new Rent: OPEN and free. */
  function Freed(l: Locker): (r: Locker)
    ensures r.status == Open && !r.isOccupied
    ensures r.(status := l.status, isOccupied := l.isOccupied) == l
  {
    l.(status := Open, isOccupied := false)
  }

  /** `Locker.objects.filter(id=...).update(...)`: frees the locker if it exists, and does nothing otherwise. */
  function FreeLocker(lockers: map<string, Locker>, id: string): (r: map<string, Locker>)
    ensures r.Keys == lockers.Keys
    ensures forall k :: k in lockers ==> r[k] == if k == id then Freed(lockers[k]) else lockers[k]
  {
    if id in lockers then lockers[id := Freed(lockers[id])] else lockers
  }

  /** How far the intake loop got: the lockers it left, and the first item without a `lockerId`, if any. */
  datatype Resets = Resets(lockers: map<string, Locker>, missing: Option<nat>)

  /** The number of items the loop went through before it stopped. */
  function Reached(drafts: seq<Serializers.RentDraft>, r: Resets): nat
  {
    if r.missing.Some? then r.missing.value else |drafts|
  }

  /** The lockers named by the first `n` items. */
  function Named(drafts: seq<Serializers.RentDraft>, n: nat): (ks: set<string>)
    requires n <= |drafts|
    ensures forall k :: k in ks <==> exists j :: 0 <= j < n && drafts[j].lockerId == Some(k)
  {
    set j | 0 <= j < n && drafts[j].lockerId.Some? :: drafts[j].lockerId.value
  }

  /**
   * What the loop leaves: the same lockers; if it stopped, it stopped at an
   * item without a `lockerId`, and every item before that had one; and the
   * lockers named by the items it went through are freed, the others kept.
   */
  ghost predicate LoopOutcome(lockers: map<string, Locker>, drafts: seq<Serializers.RentDraft>, r: Resets)
  {
    && r.lockers.Keys == lockers.Keys
    && (r.missing.Some? ==> r.missing.value < |drafts| && drafts[r.missing.value].lockerId.None?)
    && (forall j :: 0 <= j < Reached(drafts, r) ==> drafts[j].lockerId.Some?)
    && (forall k :: k in lockers ==>
         r.lockers[k] == if k in Named(drafts, Reached(drafts, r)) then Freed(lockers[k]) else lockers[k])
  }

  /** One turn of the loop, on the last item, after the loop went through the ones before it. */
  function LoopTurn(drafts: seq<Serializers.RentDraft>, before: Resets): Resets
    requires drafts != []
  {
    var n := |drafts| - 1;
    if before.missing.Some? then before
    else if drafts[n].lockerId.None? then Resets(before.lockers, Some(n))
    else Resets(FreeLocker(before.lockers, drafts[n].lockerId.value), None)
  }

  /**
   * The loop of `RentBulkCreateView.post` over the submitted items: each
   * item's locker is freed in turn, and the loop stops with a KeyError at the
   * first item that has no `lockerId`, keeping the lockers freed so far.
   */
  function FreeNamedLockers(lockers: map<string, Locker>, drafts: seq<Serializers.RentDraft>): (r: Resets)
    ensures LoopOutcome(lockers, drafts, r)
  {
    if drafts == [] then Resets(lockers, None)
    else
      var before := FreeNamedLockers(lockers, drafts[..|drafts| - 1]);
      LoopTurnOutcome(lockers, drafts, before);
      LoopTurn(drafts, before)
  }

  lemma LoopTurnOutcome(lockers: map<string, Locker>, drafts: seq<Serializers.RentDraft>, before: Resets)
    requires drafts != []
    requires LoopOutcome(lockers, drafts[..|drafts| - 1], before)
    ensures LoopOutcome(lockers, drafts, LoopTurn(drafts, before))
  {
    var n := |drafts| - 1;
    NamedPrefix(drafts, n, Reached(drafts[..n], before));
    assert forall j :: 0 <= j < n ==> drafts[..n][j] == drafts[j];
    if before.missing.None? && drafts[n].lockerId.Some? {
      assert Named(drafts, |drafts|) == Named(drafts, n) + {drafts[n].lockerId.value};
    }
  }

  /** The lockers named in a prefix are the same whether read from the prefix or the whole list. */
  lemma NamedPrefix(drafts: seq<Serializers.RentDraft>, n: nat, m: nat)
    requires m <= n <= |drafts|
    ensures Named(drafts[..n], m) == Named(drafts, m)
  {
    assert forall j :: 0 <= j < m ==> drafts[..n][j] == drafts[j];
  }

  /** The submitted item with its status replaced by WAITING_DROPOFF. */
  function AwaitDropoff(d: Serializers.RentDraft): Serializers.RentDraft
  {
    d.(status := Some(RentStatusCode(WaitingDropoff)))
  }

  /** What the intake hands on to the bulk create, once the loop has gone through every item. */
  function Forced(drafts: seq<Serializers.RentDraft>): (r: seq<Serializers.RentDraft>)
    ensures |r| == |drafts|
    ensures forall i :: 0 <= i < |drafts| ==> r[i] == AwaitDropoff(drafts[i])
  {
    seq(|drafts|, i requires 0 <= i < |drafts| => AwaitDropoff(drafts[i]))
  }

  /** How many items the intake went through: up to the one it reports without a `lockerId`, or all of them. */
  function Stop<T>(drafts: seq<Serializers.RentDraft>, result: Result<T, Error>): nat
  {
    if result.Failure? && result.error.MissingKey? && result.error.index <= |drafts| then result.error.index else |drafts|
  }

  /**
   * `RentBulkCreateView.post`: frees the locker of every item, forces every
   * item to WAITING_DROPOFF, then runs the bulk create. The freed lockers
   * stay freed when the create is refused or an item lacks a `lockerId`.
   */
  function Intake(s: Store, drafts: seq<Serializers.RentDraft>): (r: Reply<seq<Rent>>)
    ensures r.store.bloqs == s.bloqs
    ensures r.store.lockers.Keys == s.lockers.Keys
    ensures forall k :: k in s.lockers ==>
      r.store.lockers[k] == if k in Named(drafts, Stop(drafts, r.result)) then Freed(s.lockers[k]) else s.lockers[k]
    ensures r.result.Failure? ==> r.store.rents == s.rents
    ensures Consistent(s) ==> Consistent(r.store)
    ensures forall j :: 0 <= j < |drafts| && drafts[j].lockerId.None? ==>
      exists i :: 0 <= i <= j && r.result == Failure(MissingKey(i, "lockerId"))
    ensures r.result.Failure? && r.result.error.MissingKey? ==>
      && r.result.error.index < |drafts|
      && drafts[r.result.error.index].lockerId.None?
      && (forall j :: 0 <= j < r.result.error.index ==> drafts[j].lockerId.Some?)
    ensures r.result.Success? <==>
      && (forall j :: 0 <= j < |drafts| ==> drafts[j].lockerId.Some?)
      && Batch.Admissible(s.rents, Forced(drafts), Serializers.RentCleaner(s.lockers.Keys), RentKey)
    ensures r.result.Success? ==> Batch.Stored(s.rents, Forced(drafts), Serializers.RentCleaner(s.lockers.Keys), RentKey, Batch.Committed(r.store.rents, r.result.value))
    ensures r.result.Success? ==> |r.result.value| == |drafts|
    ensures r.result.Success? ==> forall i :: 0 <= i < |r.result.value| ==> r.result.value[i].status == WaitingDropoff
    ensures r.result.Success? ==> forall i :: 0 <= i < |drafts| ==>
      && r.result.value[i].lockerId == drafts[i].lockerId.value
      && r.result.value[i].lockerId in r.store.lockers
      && r.store.lockers[r.result.value[i].lockerId].status == Open
      && !r.store.lockers[r.result.value[i].lockerId].isOccupied
  {
    var resets := FreeNamedLockers(s.lockers, drafts);
    SettleStore(s, drafts, resets);
    SettleMissing(s, drafts, resets);
    SettleCreate(s, drafts, resets);
    Settle(s, drafts, resets)
  }

  /** What the intake answers once the loop has left `resets`. */
  function Settle(s: Store, drafts: seq<Serializers.RentDraft>, resets: Resets): Reply<seq<Rent>>
  {
    var freed := s.(lockers := resets.lockers);
    match resets.missing
    case Some(i) => Reply(freed, Failure(MissingKey(i, "lockerId")))
    case None => Serializers.CreateRents(freed, Forced(drafts))
  }

  /** The store the intake leaves: lockers freed as far as the loop went, Rents only on success. */
  lemma SettleStore(s: Store, drafts: seq<Serializers.RentDraft>, resets: Resets)
    requires LoopOutcome(s.lockers, drafts, resets)
    ensures var r := Settle(s, drafts, resets);
      && r.store.bloqs == s.bloqs
      && r.store.lockers.Keys == s.lockers.Keys
      && (forall k :: k in s.lockers ==>
           r.store.lockers[k] == if k in Named(drafts, Stop(drafts, r.result)) then Freed(s.lockers[k]) else s.lockers[k])
      && (r.result.Failure? ==> r.store.rents == s.rents)
      && (Consistent(s) ==> Consistent(r.store))
  {
    var freed := s.(lockers := resets.lockers);
    FreedConsistent(s, freed);
    assert Stop(drafts, Settle(s, drafts, resets).result) == Reached(drafts, resets);
  }

  /** An item without a `lockerId` fails the intake, at the first such item. */
  lemma SettleMissing(s: Store, drafts: seq<Serializers.RentDraft>, resets: Resets)
    requires LoopOutcome(s.lockers, drafts, resets)
    ensures var r := Settle(s, drafts, resets);
      && (forall j :: 0 <= j < |drafts| && drafts[j].lockerId.None? ==>
           exists i :: 0 <= i <= j && r.result == Failure(MissingKey(i, "lockerId")))
      && (r.result.Failure? && r.result.error.MissingKey? ==>
           && r.result.error.index < |drafts|
           && drafts[r.result.error.index].lockerId.None?
           && (forall j :: 0 <= j < r.result.error.index ==> drafts[j].lockerId.Some?))
  {
    var r := Settle(s, drafts, resets);
    forall j | 0 <= j < |drafts| && drafts[j].lockerId.None?
      ensures exists i :: 0 <= i <= j && r.result == Failure(MissingKey(i, "lockerId"))
    {
      assert resets.missing.Some? && resets.missing.value <= j;
      assert r.result == Failure(MissingKey(resets.missing.value, "lockerId"));
    }
  }

  /** When every item names a locker, the intake is the bulk create of the forced items, whose rows sit on freed lockers. */
  lemma SettleCreate(s: Store, drafts: seq<Serializers.RentDraft>, resets: Resets)
    requires LoopOutcome(s.lockers, drafts, resets)
    ensures var r := Settle(s, drafts, resets);
      && (r.result.Success? <==>
           && (forall j :: 0 <= j < |drafts| ==> drafts[j].lockerId.Some?)
           && Batch.Admissible(s.rents, Forced(drafts), Serializers.RentCleaner(s.lockers.Keys), RentKey))
      && (r.result.Success? ==> Batch.Stored(s.rents, Forced(drafts), Serializers.RentCleaner(s.lockers.Keys), RentKey, Batch.Committed(r.store.rents, r.result.value)))
      && (r.result.Success? ==> |r.result.value| == |drafts|)
      && (r.result.Success? ==> forall i :: 0 <= i < |r.result.value| ==> r.result.value[i].status == WaitingDropoff)
      && (r.result.Success? ==> forall i :: 0 <= i < |drafts| ==>
           && r.result.value[i].lockerId == drafts[i].lockerId.value
           && r.result.value[i].lockerId in r.store.lockers
           && r.store.lockers[r.result.value[i].lockerId].status == Open
           && !r.store.lockers[r.result.value[i].lockerId].isOccupied)
  {
    if resets.missing.None? {
      var c := Serializers.CreateRents(s.(lockers := resets.lockers), Forced(drafts));
      if c.result.Success? {
        IntakeRows(s.lockers, drafts, resets, c.result.value);
      }
    }
  }

  /** Freeing lockers changes neither which lockers exist nor their Bloqs, so consistency survives it. */
  lemma FreedConsistent(s: Store, t: Store)
    requires t.bloqs == s.bloqs && t.rents == s.rents && t.lockers.Keys == s.lockers.Keys
    requires forall k :: k in s.lockers ==> t.lockers[k] == s.lockers[k] || t.lockers[k] == Freed(s.lockers[k])
    ensures Consistent(s) ==> Consistent(t)
  {
  }

  /** The rows of a successful intake: WAITING_DROPOFF, on the locker submitted, which is now free. */
  lemma IntakeRows(lockers: map<string, Locker>, drafts: seq<Serializers.RentDraft>, resets: Resets, rows: seq<Rent>)
    requires LoopOutcome(lockers, drafts, resets) && resets.missing.None?
    requires |rows| == |drafts|
    requires forall i :: 0 <= i < |drafts| ==> Serializers.RentCleaner(lockers.Keys)(Forced(drafts)[i]) == Success(rows[i])
    ensures forall i :: 0 <= i < |drafts| ==>
      && rows[i].status == WaitingDropoff
      && rows[i].lockerId == drafts[i].lockerId.value
      && rows[i].lockerId in resets.lockers
      && resets.lockers[rows[i].lockerId].status == Open
      && !resets.lockers[rows[i].lockerId].isOccupied
  {
    forall i | 0 <= i < |drafts|
      ensures rows[i].status == WaitingDropoff
      ensures rows[i].lockerId == drafts[i].lockerId.value
      ensures rows[i].lockerId in resets.lockers
      ensures resets.lockers[rows[i].lockerId].status == Open
      ensures !resets.lockers[rows[i].lockerId].isOccupied
    {
      RowOfForced(lockers.Keys, drafts, i, rows[i]);
      assert drafts[i].lockerId.value in Named(drafts, |drafts|);
    }
  }

  /** A Rent validated from an item of the intake is WAITING_DROPOFF and on the item's locker. */
  lemma RowOfForced(lockers: set<string>, drafts: seq<Serializers.RentDraft>, i: nat, row: Rent)
    requires i < |drafts|
    requires Serializers.CleanRent(lockers, Forced(drafts)[i]) == Success(row)
    ensures row.status == WaitingDropoff
    ensures drafts[i].lockerId == Some(row.lockerId)
  {
    assert Serializers.RentDraftOf(row) == AwaitDropoff(drafts[i]);
    assert ParseRentStatus(RentStatusCode(row.status)) == Some(WaitingDropoff);
  }

  /** The lockers the intake loop frees depend only on the `lockerId`s of the items. */
  lemma {:induction false} FreeingReadsOnlyLockerIds(lockers: map<string, Locker>, d1: seq<Serializers.RentDraft>, d2: seq<Serializers.RentDraft>)
    requires |d1| == |d2|
    requires forall i :: 0 <= i < |d1| ==> d1[i].lockerId == d2[i].lockerId
    ensures FreeNamedLockers(lockers, d1) == FreeNamedLockers(lockers, d2)
  {
    if d1 != [] {
      var n := |d1| - 1;
      FreeingReadsOnlyLockerIds(lockers, d1[..n], d2[..n]);
    }
  }

  /** The status submitted with an item has no effect: two batches that differ only in status are taken in alike. */
  lemma IntakeIgnoresStatus(s: Store, d1: seq<Serializers.RentDraft>, d2: seq<Serializers.RentDraft>)
    requires |d1| == |d2|
    requires forall i :: 0 <= i < |d1| ==> AwaitDropoff(d1[i]) == AwaitDropoff(d2[i])
    ensures Intake(s, d1) == Intake(s, d2)
  {
    assert Forced(d1) == Forced(d2);
    assert forall i :: 0 <= i < |d1| ==> d1[i].lockerId == AwaitDropoff(d1[i]).lockerId == d2[i].lockerId;
    FreeingReadsOnlyLockerIds(s.lockers, d1, d2);
  }

  /** Bloq "1" with one free, OPEN locker "1" and no Rents. */
  function OneFreeLocker(): Store
  {
    Store(
      map["1" := Bloq("1", "Bloq A", "Address A")],
      map["1" := Locker("1", "1", Open, false, None)],
      map[])
  }

  /** Two items for locker "1", sent as CREATED and as WAITING_PICKUP. */
  function TwoItems(): seq<Serializers.RentDraft>
  {
    [Serializers.RentDraft(Some("1"), Some("1"), Some(10.5), Some("M"), Some("CREATED")),
     Serializers.RentDraft(Some("2"), Some("1"), Some(5.0), Some("S"), Some("WAITING_PICKUP"))]
  }

  /** The Rents the two items validate to, once forced to WAITING_DROPOFF. */
  function TwoRents(): seq<Rent>
  {
    [Rent("1", "1", 10.5, M, WaitingDropoff), Rent("2", "1", 5.0, S, WaitingDropoff)]
  }

  lemma TwoItemsValidate()
    ensures forall i :: 0 <= i < 2 ==> Serializers.CleanRent({"1"}, Forced(TwoItems())[i]) == Success(TwoRents()[i])
  {
    var forced := Forced(TwoItems());
    assert ParseLockerSize("M") == Some(M) && ParseLockerSize("S") == Some(S);
    assert ParseRentStatus(RentStatusCode(WaitingDropoff)) == Some(WaitingDropoff);
    assert Serializers.CleanRent({"1"}, forced[0]) == Success(TwoRents()[0]);
    assert Serializers.CleanRent({"1"}, forced[1]) == Success(TwoRents()[1]);
  }

  /**
   * An intake whose items all name a locker and validate, once forced, to
   * `rows` with new, distinct ids answers exactly `rows` and stores them.
   */
  lemma IntakeStores(s: Store, drafts: seq<Serializers.RentDraft>, rows: seq<Rent>)
    requires |rows| == |drafts|
    requires forall i :: 0 <= i < |drafts| ==> drafts[i].lockerId.Some?
    requires forall i :: 0 <= i < |drafts| ==> Serializers.CleanRent(s.lockers.Keys, Forced(drafts)[i]) == Success(rows[i])
    requires forall i :: 0 <= i < |rows| ==> rows[i].id !in s.rents
    requires forall i, j :: 0 <= i < j < |rows| ==> rows[i].id != rows[j].id
    ensures Intake(s, drafts).result == Success(rows)
    ensures Intake(s, drafts).store.rents.Keys == s.rents.Keys + Batch.KeysOf(rows, RentKey)
  {
    var freed := s.(lockers := FreeNamedLockers(s.lockers, drafts).lockers);
    IntakeDelegates(s, drafts);
    Serializers.CreateRentsAnswers(freed, Forced(drafts), rows);
  }

  /** Once every item names a locker, the intake is the bulk create of the forced items on the store with those lockers freed. */
  lemma IntakeDelegates(s: Store, drafts: seq<Serializers.RentDraft>)
    requires forall i :: 0 <= i < |drafts| ==> drafts[i].lockerId.Some?
    ensures Intake(s, drafts) == Serializers.CreateRents(s.(lockers := FreeNamedLockers(s.lockers, drafts).lockers), Forced(drafts))
  {
  }

  /** Two Rents submitted for one free locker are both taken in, WAITING_DROPOFF, whatever status they were sent with. */
  lemma TwoRentsOneLocker(s: Store, drafts: seq<Serializers.RentDraft>)
    requires s == OneFreeLocker() && drafts == TwoItems()
    ensures Intake(s, drafts).result == Success(TwoRents())
    ensures Intake(s, drafts).store.rents.Keys == {"1", "2"}
  {
    TwoItemsReady(s, drafts);
    IntakeStores(s, drafts, TwoRents());
    TwoRentKeys();
  }

  /** The two items meet what `IntakeStores` asks of a batch, with `TwoRents` as their rows. */
  lemma TwoItemsReady(s: Store, drafts: seq<Serializers.RentDraft>)
    requires s == OneFreeLocker() && drafts == TwoItems()
    ensures |TwoRents()| == |drafts|
    ensures forall i :: 0 <= i < |drafts| ==> drafts[i].lockerId.Some?
    ensures forall i :: 0 <= i < |drafts| ==> Serializers.CleanRent(s.lockers.Keys, Forced(drafts)[i]) == Success(TwoRents()[i])
    ensures forall i :: 0 <= i < |TwoRents()| ==> TwoRents()[i].id !in s.rents
    ensures forall i, j :: 0 <= i < j < |TwoRents()| ==> TwoRents()[i].id != TwoRents()[j].id
  {
    assert s.lockers.Keys == {"1"};
    TwoItemsValidate();
  }

  lemma TwoRentKeys()
    ensures Batch.KeysOf(TwoRents(), RentKey) == {"1", "2"}
  {
    var rows := TwoRents();
    var ks := Batch.KeysOf(rows, RentKey);
    assert RentKey(rows[0]) == "1" && RentKey(rows[1]) == "2";
    forall k | k in ks
      ensures k == "1" || k == "2"
    {
      var i :| 0 <= i < |rows| && RentKey(rows[i]) == k;
    }
  }

  // ------------------------------------------------------------ drop-off and pickup

  /** The two hand-over steps of a Rent. */
  datatype Step = Dropoff | Pickup

  /** The locker status a step leaves: drop-off locks the parcel in, pickup opens the locker again. */
  function LockerStatusAfter(step: Step): LockerStatus
  {
    match step
    case Dropoff => Closed
    case Pickup => Open
  }

  function OccupiedAfter(step: Step): bool
  {
    step == Dropoff
  }

  function RentStatusAfter(step: Step): RentStatus
  {
    match step
    case Dropoff => WaitingPickup
    case Pickup => Delivered
  }

  /**
   * `RentDropoffView.patch` and `RentPickupView.patch`: look the Rent up
   * (NotFound), follow its `lockerId`, set the locker's status and
   * occupancy, then set the Rent's status. The Rent's earlier status is not
   * looked at.
   */
  function Hand(s: Store, id: string, step: Step): (r: Reply<Rent>)
    ensures id !in s.rents ==> r == Reply(s, Failure(NotFound("Rent")))
    ensures id in s.rents && s.rents[id].lockerId !in s.lockers ==> r == Reply(s, Failure(DanglingReference("Locker")))
    ensures r.result.Success? <==> id in s.rents && s.rents[id].lockerId in s.lockers
    ensures r.store.lockers.Keys == s.lockers.Keys && r.store.rents.Keys == s.rents.Keys
    ensures r.result.Success? ==>
      && r.result.value == r.store.rents[id]
      && r.result.value == s.rents[id].(status := RentStatusAfter(step))
    ensures r.result.Success? ==>
      var k := s.rents[id].lockerId;
      r.store.lockers[k] == s.lockers[k].(status := LockerStatusAfter(step), isOccupied := OccupiedAfter(step))
    ensures r.store.bloqs == s.bloqs
    ensures forall k :: k in s.rents && k != id ==> r.store.rents[k] == s.rents[k]
    ensures forall k :: k in s.lockers && (id in s.rents ==> k != s.rents[id].lockerId) ==> r.store.lockers[k] == s.lockers[k]
    ensures Consistent(s) ==> Consistent(r.store)
  {
    if id !in s.rents then Reply(s, Failure(NotFound("Rent")))
    else
      var rent := s.rents[id];
      if rent.lockerId !in s.lockers then Reply(s, Failure(DanglingReference("Locker")))
      else
        var locker := s.lockers[rent.lockerId].(status := LockerStatusAfter(step), isOccupied := OccupiedAfter(step));
        var handed := rent.(status := RentStatusAfter(step));
        Reply(s.(lockers := s.lockers[rent.lockerId := locker], rents := s.rents[id := handed]), Success(handed))
  }

  /** `RentDropoffView.patch`: the Rent waits for pickup and its locker is CLOSED and occupied. */
  function DropOff(s: Store, id: string): (r: Reply<Rent>)
    ensures id !in s.rents ==> r == Reply(s, Failure(NotFound("Rent")))
    ensures r.result.Success? <==> id in s.rents && s.rents[id].lockerId in s.lockers
    ensures r.result.Failure? ==> r.store == s
    ensures r.store.lockers.Keys == s.lockers.Keys && r.store.rents.Keys == s.rents.Keys
    ensures r.result.Success? ==> r.store.rents[id].status == WaitingPickup
    ensures r.result.Success? ==> r.store.lockers[s.rents[id].lockerId].status == Closed
    ensures r.result.Success? ==> r.store.lockers[s.rents[id].lockerId].isOccupied
  {
    Hand(s, id, Dropoff)
  }

  /** `RentPickupView.patch`: the Rent is delivered and its locker is OPEN and free. */
  function PickUp(s: Store, id: string): (r: Reply<Rent>)
    ensures id !in s.rents ==> r == Reply(s, Failure(NotFound("Rent")))
    ensures r.result.Success? <==> id in s.rents && s.rents[id].lockerId in s.lockers
    ensures r.result.Failure? ==> r.store == s
    ensures r.store.lockers.Keys == s.lockers.Keys && r.store.rents.Keys == s.rents.Keys
    ensures r.result.Success? ==> r.store.rents[id].status == Delivered
    ensures r.result.Success? ==> r.store.lockers[s.rents[id].lockerId].status == Open
    ensures r.result.Success? ==> !r.store.lockers[s.rents[id].lockerId].isOccupied
  {
    Hand(s, id, Pickup)
  }

  /** Repeating a step changes nothing further and answers the same. */
  lemma HandIdempotent(s: Store, id: string, step: Step)
    ensures Hand(Hand(s, id, step).store, id, step) == Hand(s, id, step)
  {
  }

  /**
   * No step is gated on the Rent's status: whatever step came before, the
   * store after a step is the one that step makes from the original store.
   * In particular a drop-off after a pickup puts a delivered Rent back to
   * WAITING_PICKUP.
   */
  lemma LastStepWins(s: Store, id: string, first: Step, second: Step)
    ensures Hand(Hand(s, id, first).store, id, second).store == Hand(s, id, second).store
  {
    if id in s.rents && s.rents[id].lockerId in s.lockers {
      var k := s.rents[id].lockerId;
      var t := Hand(s, id, first).store;
      assert t.rents[id].lockerId == k;
    }
  }

  /** A locker is coherent when it is occupied exactly when it is CLOSED. */
  predicate Coherent(l: Locker)
  {
    l.isOccupied <==> l.status == Closed
  }

  ghost predicate AllCoherent(lockers: map<string, Locker>)
  {
    forall k :: k in lockers ==> Coherent(lockers[k])
  }

  /** Both steps leave the Rent's locker coherent and keep every other locker as it was, so coherence of all lockers is kept. */
  lemma HandKeepsCoherence(s: Store, id: string, step: Step)
    requires id in s.rents && s.rents[id].lockerId in s.lockers
    ensures Coherent(Hand(s, id, step).store.lockers[s.rents[id].lockerId])
    ensures AllCoherent(s.lockers) ==> AllCoherent(Hand(s, id, step).store.lockers)
  {
  }

  /** The intake frees lockers, which keeps them coherent. */
  lemma IntakeKeepsCoherence(s: Store, drafts: seq<Serializers.RentDraft>)
    ensures AllCoherent(s.lockers) ==> AllCoherent(Intake(s, drafts).store.lockers)
  {
  }

  /** The hand-over test: a Rent waiting for drop-off on a free locker is dropped off, then picked up. */
  lemma DropoffThenPickup()
    ensures
      var s := Store(
        map["1" := Bloq("1", "Bloq A", "Address A")],
        map["1" := Locker("1", "1", Open, false, None)],
        map["1" := Rent("1", "1", 10.5, M, WaitingDropoff)]);
      var d := DropOff(s, "1");
      var p := PickUp(d.store, "1");
      && d.result == Success(Rent("1", "1", 10.5, M, WaitingPickup))
      && d.store.lockers["1"] == Locker("1", "1", Closed, true, None)
      && p.result == Success(Rent("1", "1", 10.5, M, Delivered))
      && p.store.lockers["1"] == Locker("1", "1", Open, false, None)
  {
  }
}
