/**
 * The Bloq queries: the Bloq list and the three per-Bloq locker lists
 * (all, available, occupied), each guarded by the required Bloq id.
 */
module BloqViews {
  import opened Wrappers
  import opened Models
  import opened Ordering
  import opened Storage
  import LockerViews

  /** The Bloq list (`Bloq.objects.all().order_by('id')`). */
  method ListBloqs(s: Store) returns (r: seq<Bloq>)
    requires KeyedTables(s)
    ensures ListsInKeyOrder(s.bloqs, BloqKey, r)
    ensures forall b :: b in r <==> b in s.bloqs.Values
    ensures forall i, j :: 0 <= i < j < |r| ==> Below(r[i].id, r[j].id)
  {
    r := ListInKeyOrder(s.bloqs, BloqKey);
    forall b | b in s.bloqs.Values
      ensures b in r
    {
      var k :| k in s.bloqs && s.bloqs[k] == b;
    }
  }

  /** Which of the three per-Bloq lists is asked for. */
  datatype Occupancy = AnyLocker | Available | Occupied

  /**
   * The filter a per-Bloq list applies: the Bloq, and for the available and
   * occupied lists the occupancy flag only; the locker status is not looked at.
   */
  function BloqFilter(id: string, which: Occupancy): (f: LockerViews.Filter)
    ensures f.bloqId == Some(id) && f.status.None? && f.size.None?
  {
    LockerViews.Filter(
      Some(id),
      match which
      case AnyLocker => None
      case Available => Some(false)
      case Occupied => Some(true),
      None,
      None)
  }

  /** What a per-Bloq list answers before any query runs, if it refuses. */
  function Guard(s: Store, id: Option<string>): (r: Option<Error>)
    ensures r == None <==> LockerViews.Given(id) && id.value in s.bloqs
    ensures !LockerViews.Given(id) ==> r == Some(RequiredParam("id"))
    ensures LockerViews.Given(id) && id.value !in s.bloqs ==> r == Some(NotFound("Bloq"))
  {
    if !LockerViews.Given(id) then Some(RequiredParam("id"))
    else if id.value !in s.bloqs then Some(NotFound("Bloq"))
    else None
  }

  /** `r` is what the per-Bloq list `which` answers for the Bloq `id`. */
  ghost predicate BloqAnswers(s: Store, id: string, which: Occupancy, r: seq<Locker>)
  {
    LockerViews.Answers(s.lockers, BloqFilter(id, which), r)
  }

  /**
   * The three `get_queryset`s of the per-Bloq views: the id must be given
   * (ValidationError otherwise), the Bloq must exist (NotFound otherwise),
   * and the Bloq's lockers that pass the occupancy filter are listed by id.
   */
  method BloqLockerList(s: Store, id: Option<string>, which: Occupancy) returns (r: Result<seq<Locker>, Error>)
    requires KeyedTables(s)
    ensures !LockerViews.Given(id) ==> r == Failure(RequiredParam("id"))
    ensures LockerViews.Given(id) && id.value !in s.bloqs ==> r == Failure(NotFound("Bloq"))
    ensures r.Success? <==> LockerViews.Given(id) && id.value in s.bloqs
    ensures r.Success? ==> BloqAnswers(s, id.value, which, r.value)
    ensures r.Success? ==> forall l :: l in r.value <==>
      && l in s.lockers.Values
      && l.bloqId == id.value
      && (which == Available ==> !l.isOccupied)
      && (which == Occupied ==> l.isOccupied)
  {
    var g := Guard(s, id);
    if g.Some? {
      return Failure(g.value);
    }
    var rows := LockerViews.Select(s.lockers, BloqFilter(id.value, which));
    return Success(rows);
  }

  /** `BloqLockersListView`: all the lockers of one Bloq. */
  method BloqLockers(s: Store, id: Option<string>) returns (r: Result<seq<Locker>, Error>)
    requires KeyedTables(s)
    ensures r.Success? <==> LockerViews.Given(id) && id.value in s.bloqs
    ensures r.Failure? ==> r == Failure(Guard(s, id).value)
    ensures r.Success? ==> BloqAnswers(s, id.value, AnyLocker, r.value)
    ensures r.Success? ==> forall l :: l in r.value <==> l in s.lockers.Values && l.bloqId == id.value
  {
    r := BloqLockerList(s, id, AnyLocker);
  }

  /** `BloqLockerAvailableView`: the unoccupied lockers of one Bloq, OPEN or not. */
  method BloqAvailableLockers(s: Store, id: Option<string>) returns (r: Result<seq<Locker>, Error>)
    requires KeyedTables(s)
    ensures r.Success? <==> LockerViews.Given(id) && id.value in s.bloqs
    ensures r.Failure? ==> r == Failure(Guard(s, id).value)
    ensures r.Success? ==> BloqAnswers(s, id.value, Available, r.value)
    ensures r.Success? ==> forall l :: l in r.value <==> l in s.lockers.Values && l.bloqId == id.value && !l.isOccupied
  {
    r := BloqLockerList(s, id, Available);
  }

  /** `BloqLockerOccupiedView`: the occupied lockers of one Bloq. */
  method BloqOccupiedLockers(s: Store, id: Option<string>) returns (r: Result<seq<Locker>, Error>)
    requires KeyedTables(s)
    ensures r.Success? <==> LockerViews.Given(id) && id.value in s.bloqs
    ensures r.Failure? ==> r == Failure(Guard(s, id).value)
    ensures r.Success? ==> BloqAnswers(s, id.value, Occupied, r.value)
    ensures r.Success? ==> forall l :: l in r.value <==> l in s.lockers.Values && l.bloqId == id.value && l.isOccupied
  {
    r := BloqLockerList(s, id, Occupied);
  }

  /** The rows a per-Bloq answer lists are exactly the matching rows of the table. */
  lemma AnswerRows(s: Store, id: string, which: Occupancy, r: seq<Locker>)
    requires KeyedTables(s)
    requires BloqAnswers(s, id, which, r)
    ensures forall l :: l in r <==> l in s.lockers.Values && LockerViews.Matches(BloqFilter(id, which), l)
  {
    var m := LockerViews.Restrict(s.lockers, BloqFilter(id, which));
    forall l | l in s.lockers.Values && LockerViews.Matches(BloqFilter(id, which), l)
      ensures l in r
    {
      var k :| k in s.lockers && s.lockers[k] == l;
      assert k in m;
    }
  }

  /**
   * The available and occupied lists of a Bloq split its lockers: no locker
   * is in both, and together they hold every locker of the Bloq.
   */
  lemma AvailableOccupiedPartition(s: Store, id: string, all: seq<Locker>, free: seq<Locker>, busy: seq<Locker>)
    requires KeyedTables(s)
    requires BloqAnswers(s, id, AnyLocker, all)
    requires BloqAnswers(s, id, Available, free)
    requires BloqAnswers(s, id, Occupied, busy)
    ensures forall l :: l in all <==> l in free || l in busy
    ensures forall l :: !(l in free && l in busy)
  {
    AnswerRows(s, id, AnyLocker, all);
    AnswerRows(s, id, Available, free);
    AnswerRows(s, id, Occupied, busy);
  }

  /**
   * The two notions of "available" differ: a CLOSED, unoccupied locker is
   * listed as available for its Bloq but not by the cross-Bloq search.
   */
  lemma AvailabilityAsymmetry(s: Store, l: Locker, perBloq: seq<Locker>, search: seq<Locker>)
    requires KeyedTables(s)
    requires l in s.lockers.Values && !l.isOccupied && l.status == Closed
    requires BloqAnswers(s, l.bloqId, Available, perBloq)
    requires LockerViews.Answers(s.lockers, LockerViews.AvailableFilter(Some(l.bloqId), None), search)
    ensures l in perBloq
    ensures l !in search
  {
    AnswerRows(s, l.bloqId, Available, perBloq);
  }

  /** Bloq "1" with an OPEN free locker "1" and a CLOSED occupied locker "2". */
  function ExampleStore(): (s: Store)
    ensures KeyedTables(s)
  {
    Store(
      map["1" := Bloq("1", "Bloq Test", "Rua de teste")],
      map["1" := Locker("1", "1", Open, false, Some(M)),
          "2" := Locker("2", "1", Closed, true, Some(M))],
      map[])
  }

  /** On that store, available lists locker "1" alone and occupied lists locker "2" alone. */
  lemma ExampleQueries(free: seq<Locker>, busy: seq<Locker>)
    requires BloqAnswers(ExampleStore(), "1", Available, free)
    requires BloqAnswers(ExampleStore(), "1", Occupied, busy)
    ensures free == [Locker("1", "1", Open, false, Some(M))]
    ensures busy == [Locker("2", "1", Closed, true, Some(M))]
  {
    var s := ExampleStore();
    assert LockerViews.Restrict(s.lockers, BloqFilter("1", Available)) == map["1" := s.lockers["1"]];
    assert LockerViews.Restrict(s.lockers, BloqFilter("1", Occupied)) == map["2" := s.lockers["2"]];
    SingleRowListing(s.lockers["1"], free);
    SingleRowListing(s.lockers["2"], busy);
  }

  /** A table of one row is listed as that row alone. */
  lemma SingleRowListing(l: Locker, r: seq<Locker>)
    requires ListsInKeyOrder(map[l.id := l], LockerKey, r)
    ensures r == [l]
  {
    assert ListsInKeyOrder(map[l.id := l], LockerKey, [l]);
    ListingUnique(map[l.id := l], LockerKey, r, [l]);
  }
}
