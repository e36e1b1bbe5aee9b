/**
 * The locker queries: a filter over the locker table followed by
 * `order_by('id')`, and the cross-Bloq search for available lockers.
 */
module LockerViews {
  import opened Wrappers
  import opened Models
  import opened Ordering

  /**
   * The keyword arguments of a `Locker.objects.filter(...)` call; an absent
   * one does not constrain. `size` is compared as text, as the query does.
   */
  datatype Filter = Filter(
    bloqId: Option<string>,
    isOccupied: Option<bool>,
    status: Option<LockerStatus>,
    size: Option<string>)

  const Everything := Filter(None, None, None, None)

  predicate Matches(f: Filter, l: Locker)
  {
    && (f.bloqId.Some? ==> l.bloqId == f.bloqId.value)
    && (f.isOccupied.Some? ==> l.isOccupied == f.isOccupied.value)
    && (f.status.Some? ==> l.status == f.status.value)
    && (f.size.Some? ==> l.size.Some? && LockerSizeCode(l.size.value) == f.size.value)
  }

  /** The rows of the locker table that the filter lets through. */
  function Restrict(lockers: map<string, Locker>, f: Filter): (m: map<string, Locker>)
    ensures forall k :: k in m <==> k in lockers && Matches(f, lockers[k])
    ensures forall k :: k in m ==> m[k] == lockers[k]
  {
    map k | k in lockers && Matches(f, lockers[k]) :: lockers[k]
  }

  /** `r` is what the filtered, id-ordered query answers. */
  ghost predicate Answers(lockers: map<string, Locker>, f: Filter, r: seq<Locker>)
  {
    ListsInKeyOrder(Restrict(lockers, f), LockerKey, r)
  }

  /** `filter(...).order_by('id')` on the locker table. */
  method Select(lockers: map<string, Locker>, f: Filter) returns (r: seq<Locker>)
    requires Keyed(lockers, LockerKey)
    ensures Answers(lockers, f, r)
    ensures forall l :: l in r <==> l in lockers.Values && Matches(f, l)
    ensures forall i, j :: 0 <= i < j < |r| ==> Below(r[i].id, r[j].id)
  {
    r := ListInKeyOrder(Restrict(lockers, f), LockerKey);
    forall l | l in lockers.Values && Matches(f, l)
      ensures l in r
    {
      var k :| k in lockers && lockers[k] == l;
      assert k in Restrict(lockers, f);
    }
  }

  /** The full locker list (`Locker.objects.all().order_by('id')`). */
  method AllLockers(lockers: map<string, Locker>) returns (r: seq<Locker>)
    requires Keyed(lockers, LockerKey)
    ensures Answers(lockers, Everything, r)
    ensures forall l :: l in r <==> l in lockers.Values
    ensures forall i, j :: 0 <= i < j < |r| ==> Below(r[i].id, r[j].id)
    ensures |r| == |lockers|
  {
    r := Select(lockers, Everything);
    assert Restrict(lockers, Everything) == lockers;
    SameKeys(lockers, r);
  }

  /** A listing in strictly ascending key order has one row per key. */
  lemma SameKeys(m: map<string, Locker>, r: seq<Locker>)
    requires Keyed(m, LockerKey) && ListsInKeyOrder(m, LockerKey, r)
    ensures |r| == |m|
  {
    var ks := KeySeq(r, LockerKey);
    assert forall i, j :: 0 <= i < j < |ks| ==> ks[i] != ks[j] by {
      forall i, j | 0 <= i < j < |ks|
        ensures ks[i] != ks[j]
      {
        BelowIrreflexive(ks[i]);
      }
    }
    DistinctCard(ks);
    assert (set x | x in ks) == m.Keys by {
      forall k | k in m
        ensures k in ks
      {
        var i :| 0 <= i < |r| && r[i] == m[k];
        assert ks[i] == k;
      }
    }
    assert |m.Keys| == |m|;
  }

  lemma {:induction false} DistinctCard(ks: seq<string>)
    requires forall i, j :: 0 <= i < j < |ks| ==> ks[i] != ks[j]
    ensures |set x | x in ks| == |ks|
  {
    if ks != [] {
      var tail := ks[1..];
      DistinctCard(tail);
      assert (set x | x in ks) == {ks[0]} + (set x | x in tail);
      assert ks[0] !in tail;
    }
  }

  /** A query parameter counts only when present and not empty (`if bloq_id:`). */
  predicate Given(p: Option<string>)
  {
    p.Some? && p.value != ""
  }

  /** The filter the available-locker search applies. */
  function AvailableFilter(bloqId: Option<string>, size: Option<string>): Filter
  {
    Filter(
      if Given(bloqId) then bloqId else None,
      Some(false),
      Some(Open),
      if Given(size) then size else None)
  }

  /**
   * `AvailableLockerListView.get_queryset`: the unoccupied OPEN lockers, by
   * id, narrowed by the optional `bloqId` and `size` query parameters.
   */
  method AvailableLockers(lockers: map<string, Locker>, bloqId: Option<string>, size: Option<string>) returns (r: seq<Locker>)
    requires Keyed(lockers, LockerKey)
    ensures Answers(lockers, AvailableFilter(bloqId, size), r)
    ensures forall l :: l in r <==>
      && l in lockers.Values
      && !l.isOccupied
      && l.status == Open
      && (Given(bloqId) ==> l.bloqId == bloqId.value)
      && (Given(size) ==> l.size.Some? && LockerSizeCode(l.size.value) == size.value)
    ensures forall i, j :: 0 <= i < j < |r| ==> Below(r[i].id, r[j].id)
  {
    r := Select(lockers, AvailableFilter(bloqId, size));
  }

  /** Adding a parameter only narrows the answer: it lists a subset of the unfiltered one. */
  lemma ParametersNarrow(lockers: map<string, Locker>, bloqId: Option<string>, size: Option<string>, r: seq<Locker>, all: seq<Locker>)
    requires Keyed(lockers, LockerKey)
    requires Answers(lockers, AvailableFilter(bloqId, size), r)
    requires Answers(lockers, AvailableFilter(None, None), all)
    ensures forall l :: l in r ==> l in all
    ensures |r| <= |all|
  {
    var m, m0 := Restrict(lockers, AvailableFilter(bloqId, size)), Restrict(lockers, AvailableFilter(None, None));
    forall l | l in r
      ensures l in all
    {
      var i :| 0 <= i < |r| && r[i] == l;
      assert LockerKey(l) in m0;
    }
    KeyedRestrict(lockers, AvailableFilter(bloqId, size));
    KeyedRestrict(lockers, AvailableFilter(None, None));
    SameKeys(m, r);
    SameKeys(m0, all);
    assert m.Keys <= m0.Keys;
    assert |m.Keys| <= |m0.Keys| by {
      SubsetCard(m.Keys, m0.Keys);
    }
  }

  lemma SubsetCard(a: set<string>, b: set<string>)
    requires a <= b
    ensures |a| <= |b|
  {
    assert b == a + (b - a);
  }

  lemma KeyedRestrict(lockers: map<string, Locker>, f: Filter)
    ensures Keyed(lockers, LockerKey) ==> Keyed(Restrict(lockers, f), LockerKey)
  {
  }

  /** An empty parameter is the same as an absent one: the answers coincide. */
  lemma EmptyParameterIgnored(lockers: map<string, Locker>, bloqId: Option<string>, size: Option<string>, r1: seq<Locker>, r2: seq<Locker>)
    requires Keyed(lockers, LockerKey)
    requires !Given(bloqId) && !Given(size)
    requires Answers(lockers, AvailableFilter(bloqId, size), r1)
    requires Answers(lockers, AvailableFilter(None, None), r2)
    ensures r1 == r2
  {
    assert AvailableFilter(bloqId, size) == AvailableFilter(None, None);
    ListingUnique(Restrict(lockers, AvailableFilter(None, None)), LockerKey, r1, r2);
  }

  /** A locker without a size never matches a size parameter. */
  lemma SizelessNeverMatches(lockers: map<string, Locker>, bloqId: Option<string>, size: Option<string>, r: seq<Locker>)
    requires Given(size)
    requires Answers(lockers, AvailableFilter(bloqId, size), r)
    ensures forall i :: 0 <= i < |r| ==> r[i].size.Some?
  {
    assert forall i :: 0 <= i < |r| ==> LockerKey(r[i]) in Restrict(lockers, AvailableFilter(bloqId, size));
  }
}
