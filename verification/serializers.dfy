/**
 * The serializers: validation of submitted records (the serializer's field
 * checks together with the model's `full_clean`), their representation, and
 * the bulk create and update of each table through the shared batch logic.
 */
module Serializers {
  import opened Wrappers
  import opened Models
  import opened Storage
  import Batch

  // A submitted record has each field of the model, possibly absent (`None`).

  /** A submitted Bloq, as text. */
  datatype BloqDraft = BloqDraft(id: Option<string>, title: Option<string>, address: Option<string>)

  /** A submitted Locker: choices as text; only `size` may be left out. */
  datatype LockerDraft = LockerDraft(id: Option<string>, bloqId: Option<string>, status: Option<string>, isOccupied: Option<bool>, size: Option<string>)

  /** A submitted Rent: choices as text; every field is required. */
  datatype RentDraft = RentDraft(id: Option<string>, lockerId: Option<string>, weight: Option<real>, size: Option<string>, status: Option<string>)

  // ------------------------------------------------------------ representation

  function BloqDraftOf(b: Bloq): BloqDraft
  {
    BloqDraft(Some(b.id), Some(b.title), Some(b.address))
  }

  function SizeText(z: Option<LockerSize>): Option<string>
  {
    match z
    case None => None
    case Some(c) => Some(LockerSizeCode(c))
  }

  function LockerDraftOf(l: Locker): LockerDraft
  {
    LockerDraft(Some(l.id), Some(l.bloqId), Some(LockerStatusCode(l.status)), Some(l.isOccupied), SizeText(l.size))
  }

  function RentDraftOf(r: Rent): RentDraft
  {
    RentDraft(Some(r.id), Some(r.lockerId), Some(r.weight), Some(LockerSizeCode(r.size)), Some(RentStatusCode(r.status)))
  }

  // ------------------------------------------------------------ validation

  /** A required text field: present and of 1 to 255 characters. */
  predicate Filled(t: Option<string>)
  {
    t.Some? && RequiredText(t.value)
  }

  /** A choice field: present and one of the codes `parse` knows. */
  function Choice<T>(t: Option<string>, parse: string -> Option<T>): Option<T>
  {
    if t.None? then None else parse(t.value)
  }

  /** A Bloq validates when its id, title and address are all required texts. */
  function CleanBloq(d: BloqDraft): (r: Result<Bloq, string>)
    ensures r.Success? ==> WellFormedBloq(r.value) && BloqDraftOf(r.value) == d
    ensures d.id.None? || d.id == Some("") ==> r == Failure("id")
    ensures d.title.None? || d.address.None? ==> r.Failure?
  {
    if !Filled(d.id) then Failure("id")
    else if !Filled(d.title) then Failure("title")
    else if !Filled(d.address) then Failure("address")
    else Success(Bloq(d.id.value, d.title.value, d.address.value))
  }

  /** The optional size: absent and blank both leave the locker without a size. */
  function CleanOptionalSize(t: Option<string>): (r: Result<Option<LockerSize>, string>)
    ensures r.Success? <==> t.None? || t == Some("") || ParseLockerSize(t.value).Some?
    ensures r.Success? ==> SizeText(r.value) == (if t == Some("") then None else t)
  {
    match t
    case None => Success(None)
    case Some(c) =>
      if c == "" then Success(None)
      else match ParseLockerSize(c)
        case None => Failure("size")
        case Some(z) => Success(Some(z))
  }

  /** A locker draft with a blank size read as an absent one. */
  function Normalized(d: LockerDraft): LockerDraft
  {
    if d.size == Some("") then d.(size := None) else d
  }

  /** A Locker validates when its id is a required text, its Bloq exists and its choices are known codes. */
  function CleanLocker(bloqs: set<string>, d: LockerDraft): (r: Result<Locker, string>)
    ensures r.Success? ==> WellFormedLocker(r.value) && r.value.bloqId in bloqs && LockerDraftOf(r.value) == Normalized(d)
    ensures d.bloqId.None? || d.bloqId.value !in bloqs ==> r.Failure?
    ensures d.status.None? || d.isOccupied.None? ==> r.Failure?
    ensures d.id.None? || d.id == Some("") ==> r == Failure("id")
  {
    if !Filled(d.id) then Failure("id")
    else if d.bloqId.None? || d.bloqId.value !in bloqs then Failure("bloqId")
    else
      match Choice(d.status, ParseLockerStatus)
      case None => Failure("status")
      case Some(st) =>
        if d.isOccupied.None? then Failure("isOccupied")
        else
          match CleanOptionalSize(d.size)
          case Failure(f) => Failure(f)
          case Success(z) => Success(Locker(d.id.value, d.bloqId.value, st, d.isOccupied.value, z))
  }

  /** A Rent validates when its id is a required text, its Locker exists and its choices are known codes. */
  function CleanRent(lockers: set<string>, d: RentDraft): (r: Result<Rent, string>)
    ensures r.Success? ==> WellFormedRent(r.value) && r.value.lockerId in lockers && RentDraftOf(r.value) == d
    ensures d.lockerId.None? || d.lockerId.value !in lockers ==> r.Failure?
    ensures d.weight.None? || d.size.None? || d.status.None? ==> r.Failure?
    ensures d.id.None? || d.id == Some("") ==> r == Failure("id")
  {
    if !Filled(d.id) then Failure("id")
    else if d.lockerId.None? || d.lockerId.value !in lockers then Failure("lockerId")
    else if d.weight.None? then Failure("weight")
    else
      match Choice(d.size, ParseLockerSize)
      case None => Failure("size")
      case Some(z) =>
        match Choice(d.status, ParseRentStatus)
        case None => Failure("status")
        case Some(st) => Success(Rent(d.id.value, d.lockerId.value, d.weight.value, z, st))
  }

  /** A well-formed Bloq validates back to itself from its representation. */
  lemma BloqRoundTrip(b: Bloq)
    requires WellFormedBloq(b)
    ensures CleanBloq(BloqDraftOf(b)) == Success(b)
  {
  }

  /** A well-formed Locker of an existing Bloq validates back to itself from its representation. */
  lemma LockerRoundTrip(bloqs: set<string>, l: Locker)
    requires WellFormedLocker(l) && l.bloqId in bloqs
    ensures CleanLocker(bloqs, LockerDraftOf(l)) == Success(l)
  {
    assert ParseLockerStatus(LockerStatusCode(l.status)) == Some(l.status);
    if l.size.Some? {
      assert ParseLockerSize(LockerSizeCode(l.size.value)) == Some(l.size.value);
    }
  }

  /** A well-formed Rent of an existing Locker validates back to itself from its representation. */
  lemma RentRoundTrip(lockers: set<string>, r: Rent)
    requires WellFormedRent(r) && r.lockerId in lockers
    ensures CleanRent(lockers, RentDraftOf(r)) == Success(r)
  {
    assert ParseLockerSize(LockerSizeCode(r.size)) == Some(r.size);
    assert ParseRentStatus(RentStatusCode(r.status)) == Some(r.status);
  }

  function LockerCleaner(bloqs: set<string>): LockerDraft -> Result<Locker, string>
  {
    d => CleanLocker(bloqs, d)
  }

  function RentCleaner(lockers: set<string>): RentDraft -> Result<Rent, string>
  {
    d => CleanRent(lockers, d)
  }

  // ------------------------------------------------------------ bulk create

  /** `BloqListSerializer.create`. */
  function CreateBloqs(s: Store, drafts: seq<BloqDraft>): (r: Reply<seq<Bloq>>)
    ensures r.result.Success? <==> Batch.Admissible(s.bloqs, drafts, CleanBloq, BloqKey)
    ensures r.result.Failure? ==> r.store == s && r.result.error.Rejected?
    ensures r.result.Success? ==> Batch.Stored(s.bloqs, drafts, CleanBloq, BloqKey, Batch.Committed(r.store.bloqs, r.result.value))
    ensures r.store.lockers == s.lockers && r.store.rents == s.rents
    ensures Consistent(s) ==> Consistent(r.store)
  {
    Batch.CreateAllAdmits(s.bloqs, drafts, CleanBloq, BloqKey);
    match Batch.CreateAll(s.bloqs, drafts, CleanBloq, BloqKey)
    case Failure(e) => Reply(s, Failure(Rejected(e)))
    case Success(c) =>
      CommittedBloqsConsistent(s, drafts, c);
      Reply(s.(bloqs := c.table), Success(c.rows))
  }

  lemma CommittedBloqsConsistent(s: Store, drafts: seq<BloqDraft>, c: Batch.Committed<Bloq>)
    requires Batch.Stored(s.bloqs, drafts, CleanBloq, BloqKey, c)
    ensures Consistent(s) ==> Consistent(s.(bloqs := c.table))
  {
    if Consistent(s) {
      forall k | k in c.table
        ensures BloqKey(c.table[k]) == k && WellFormedBloq(c.table[k])
      {
        if k !in s.bloqs {
          var i :| 0 <= i < |c.rows| && BloqKey(c.rows[i]) == k;
          assert CleanBloq(drafts[i]) == Success(c.rows[i]);
        }
      }
    }
  }

  /** `LockerListSerializer.create`. */
  function CreateLockers(s: Store, drafts: seq<LockerDraft>): (r: Reply<seq<Locker>>)
    ensures r.result.Success? <==> Batch.Admissible(s.lockers, drafts, LockerCleaner(s.bloqs.Keys), LockerKey)
    ensures r.result.Failure? ==> r.store == s && r.result.error.Rejected?
    ensures r.result.Success? ==> Batch.Stored(s.lockers, drafts, LockerCleaner(s.bloqs.Keys), LockerKey, Batch.Committed(r.store.lockers, r.result.value))
    ensures r.store.bloqs == s.bloqs && r.store.rents == s.rents
    ensures Consistent(s) ==> Consistent(r.store)
  {
    Batch.CreateAllAdmits(s.lockers, drafts, LockerCleaner(s.bloqs.Keys), LockerKey);
    match Batch.CreateAll(s.lockers, drafts, LockerCleaner(s.bloqs.Keys), LockerKey)
    case Failure(e) => Reply(s, Failure(Rejected(e)))
    case Success(c) =>
      CommittedLockersConsistent(s, drafts, c);
      Reply(s.(lockers := c.table), Success(c.rows))
  }

  lemma CommittedLockersConsistent(s: Store, drafts: seq<LockerDraft>, c: Batch.Committed<Locker>)
    requires Batch.Stored(s.lockers, drafts, LockerCleaner(s.bloqs.Keys), LockerKey, c)
    ensures Consistent(s) ==> Consistent(s.(lockers := c.table))
  {
    if Consistent(s) {
      forall k | k in c.table
        ensures LockerKey(c.table[k]) == k && WellFormedLocker(c.table[k]) && c.table[k].bloqId in s.bloqs
      {
        if k !in s.lockers {
          var i :| 0 <= i < |c.rows| && LockerKey(c.rows[i]) == k;
          assert LockerCleaner(s.bloqs.Keys)(drafts[i]) == Success(c.rows[i]);
        }
      }
    }
  }

  /** `RentListSerializer.create`. */
  function CreateRents(s: Store, drafts: seq<RentDraft>): (r: Reply<seq<Rent>>)
    ensures r.result.Success? <==> Batch.Admissible(s.rents, drafts, RentCleaner(s.lockers.Keys), RentKey)
    ensures r.result.Failure? ==> r.store == s && r.result.error.Rejected?
    ensures r.result.Success? ==> Batch.Stored(s.rents, drafts, RentCleaner(s.lockers.Keys), RentKey, Batch.Committed(r.store.rents, r.result.value))
    ensures r.store.bloqs == s.bloqs && r.store.lockers == s.lockers
    ensures Consistent(s) ==> Consistent(r.store)
  {
    Batch.CreateAllAdmits(s.rents, drafts, RentCleaner(s.lockers.Keys), RentKey);
    match Batch.CreateAll(s.rents, drafts, RentCleaner(s.lockers.Keys), RentKey)
    case Failure(e) => Reply(s, Failure(Rejected(e)))
    case Success(c) =>
      CommittedRentsConsistent(s, drafts, c);
      Reply(s.(rents := c.table), Success(c.rows))
  }

  lemma CommittedRentsConsistent(s: Store, drafts: seq<RentDraft>, c: Batch.Committed<Rent>)
    requires Batch.Stored(s.rents, drafts, RentCleaner(s.lockers.Keys), RentKey, c)
    ensures Consistent(s) ==> Consistent(s.(rents := c.table))
  {
    if Consistent(s) {
      forall k | k in c.table
        ensures RentKey(c.table[k]) == k && WellFormedRent(c.table[k]) && c.table[k].lockerId in s.lockers
      {
        if k !in s.rents {
          var i :| 0 <= i < |c.rows| && RentKey(c.rows[i]) == k;
          assert RentCleaner(s.lockers.Keys)(drafts[i]) == Success(c.rows[i]);
        }
      }
    }
  }

  /** A batch whose records all validate, with new and distinct ids, answers exactly the validated Rents and adds exactly their ids. */
  lemma CreateRentsAnswers(s: Store, drafts: seq<RentDraft>, rows: seq<Rent>)
    requires |rows| == |drafts|
    requires forall i :: 0 <= i < |drafts| ==> CleanRent(s.lockers.Keys, drafts[i]) == Success(rows[i])
    requires forall i :: 0 <= i < |rows| ==> rows[i].id !in s.rents
    requires forall i, j :: 0 <= i < j < |rows| ==> rows[i].id != rows[j].id
    ensures CreateRents(s, drafts).result == Success(rows)
    ensures CreateRents(s, drafts).store.rents.Keys == s.rents.Keys + Batch.KeysOf(rows, RentKey)
  {
    var clean := RentCleaner(s.lockers.Keys);
    assert forall i :: 0 <= i < |drafts| ==> clean(drafts[i]) == Success(rows[i]);
    Batch.CreateAllAnswers(s.rents, drafts, clean, RentKey, rows);
  }

  /** A batch holding a Bloq with an empty id stores nothing. */
  lemma BlankBloqIdRejected(s: Store, drafts: seq<BloqDraft>, i: nat)
    requires i < |drafts| && (drafts[i].id.None? || drafts[i].id == Some(""))
    ensures CreateBloqs(s, drafts).result.Failure?
    ensures CreateBloqs(s, drafts).store == s
  {
    assert CleanBloq(drafts[i]).Failure?;
  }

  /** A batch that repeats an id stores nothing, whether the id is already stored or earlier in the batch. */
  lemma DuplicateRentIdRejected(s: Store, drafts: seq<RentDraft>, i: nat, j: nat)
    requires i < j < |drafts| && drafts[i].id == drafts[j].id
    ensures CreateRents(s, drafts).store == s
  {
    var clean := RentCleaner(s.lockers.Keys);
    if clean(drafts[i]).Success? && clean(drafts[j]).Success? {
      assert RentKey(clean(drafts[i]).value) == RentKey(clean(drafts[j]).value);
    }
  }

  /** Two Bloqs with new ids are both stored, as in the bulk-create test. */
  lemma TwoBloqsCreated()
    ensures
      var r := CreateBloqs(Store(map[], map[], map[]),
        [BloqDraft(Some("1"), Some("Bloq A"), Some("Address A")), BloqDraft(Some("2"), Some("Bloq B"), Some("Address B"))]);
      r.result.Success? && |r.result.value| == 2 && r.store.bloqs.Keys == {"1", "2"}
  {
    var drafts := [BloqDraft(Some("1"), Some("Bloq A"), Some("Address A")), BloqDraft(Some("2"), Some("Bloq B"), Some("Address B"))];
    var rows := [Bloq("1", "Bloq A", "Address A"), Bloq("2", "Bloq B", "Address B")];
    assert CleanBloq(drafts[0]) == Success(rows[0]);
    assert CleanBloq(drafts[1]) == Success(rows[1]);
    Batch.CreateAllAnswers(map[], drafts, CleanBloq, BloqKey, rows);
    assert Batch.KeysOf(rows, BloqKey) == {"1", "2"} by {
      assert BloqKey(rows[0]) == "1" && BloqKey(rows[1]) == "2";
    }
  }

  // ------------------------------------------------------------ bulk update

  /**
   * `BloqListSerializer.update`. It only ever receives `validated_data`, so
   * every record is one that validation accepts: well-formed texts
   * (`BloqRoundTrip` and the ensures of `CleanBloq` show that these are
   * exactly the records validation returns unchanged).
   */
  function UpsertBloqs(s: Store, instances: seq<Bloq>, data: seq<Bloq>): (r: Reply<seq<Bloq>>)
    requires forall i :: 0 <= i < |data| ==> WellFormedBloq(data[i])
    ensures r.result.Success? <==> Batch.UpsertAdmissible(s.bloqs, Batch.KeysOf(instances, BloqKey), data, BloqKey)
    ensures r.result.Failure? ==> r.store == s
    ensures r.result.Success? ==> |r.result.value| == |data|
    ensures r.result.Success? ==> forall i :: 0 <= i < |data| ==> data[i].id in r.store.bloqs
    ensures r.result.Success? ==> forall i :: 0 <= i < |data| ==> r.result.value[i] == r.store.bloqs[data[i].id]
    ensures r.result.Success? ==> forall i :: 0 <= i < |data| ==> r.result.value[i] == data[Batch.LastIndex(data, BloqKey, i)]
    ensures r.result.Success? ==> forall i :: 0 <= i < |data| && Batch.LastWithKey(data, BloqKey, i) ==> r.store.bloqs[data[i].id] == data[i]
    ensures r.result.Success? ==> r.store.bloqs.Keys == s.bloqs.Keys + Batch.KeysOf(data, BloqKey)
    ensures r.result.Success? ==> forall k :: k in s.bloqs && k !in Batch.KeysOf(data, BloqKey) ==> r.store.bloqs[k] == s.bloqs[k]
    ensures r.store.lockers == s.lockers && r.store.rents == s.rents
    ensures Consistent(s) ==> Consistent(r.store)
  {
    Batch.UpsertAdmits(s.bloqs, instances, data, BloqKey);
    var u := Batch.Upsert(s.bloqs, instances, data, BloqKey);
    if u.Failure? then Reply(s, Failure(Rejected(u.error)))
    else
      UpsertedBloqsConsistent(s, data, u.value.table);
      Reply(s.(bloqs := u.value.table), Success(u.value.rows))
  }

  lemma UpsertedBloqsConsistent(s: Store, data: seq<Bloq>, t: map<string, Bloq>)
    requires forall i :: 0 <= i < |data| ==> WellFormedBloq(data[i])
    requires t.Keys == s.bloqs.Keys + Batch.KeysOf(data, BloqKey)
    requires forall i :: 0 <= i < |data| ==> BloqKey(t[BloqKey(data[i])]) == BloqKey(data[i])
    requires forall k :: k in t ==> t[k] in data || (k in s.bloqs && t[k] == s.bloqs[k])
    requires forall k :: k in s.bloqs && k !in Batch.KeysOf(data, BloqKey) ==> t[k] == s.bloqs[k]
    ensures Consistent(s) ==> Consistent(s.(bloqs := t))
  {
    if Consistent(s) {
      forall k | k in t
        ensures BloqKey(t[k]) == k
      {
        if k in Batch.KeysOf(data, BloqKey) {
          var i :| 0 <= i < |data| && BloqKey(data[i]) == k;
          assert BloqKey(t[BloqKey(data[i])]) == BloqKey(data[i]);
        }
      }
      forall k | k in t
        ensures WellFormedBloq(t[k])
      {
        if t[k] in data {
          var j :| 0 <= j < |data| && data[j] == t[k];
        }
      }
    }
  }

  /**
   * `LockerListSerializer.update`. It only ever receives `validated_data`, so
   * every record is one that validation accepts: well-formed and of an existing Bloq
   * (`LockerRoundTrip` and the ensures of `CleanLocker` show that these are
   * exactly the records validation returns unchanged).
   */
  function UpsertLockers(s: Store, instances: seq<Locker>, data: seq<Locker>): (r: Reply<seq<Locker>>)
    requires forall i :: 0 <= i < |data| ==> WellFormedLocker(data[i]) && data[i].bloqId in s.bloqs
    ensures r.result.Success? <==> Batch.UpsertAdmissible(s.lockers, Batch.KeysOf(instances, LockerKey), data, LockerKey)
    ensures r.result.Failure? ==> r.store == s
    ensures r.result.Success? ==> |r.result.value| == |data|
    ensures r.result.Success? ==> forall i :: 0 <= i < |data| ==> data[i].id in r.store.lockers
    ensures r.result.Success? ==> forall i :: 0 <= i < |data| ==> r.result.value[i] == r.store.lockers[data[i].id]
    ensures r.result.Success? ==> forall i :: 0 <= i < |data| ==> r.result.value[i] == data[Batch.LastIndex(data, LockerKey, i)]
    ensures r.result.Success? ==> forall i :: 0 <= i < |data| && Batch.LastWithKey(data, LockerKey, i) ==> r.store.lockers[data[i].id] == data[i]
    ensures r.result.Success? ==> r.store.lockers.Keys == s.lockers.Keys + Batch.KeysOf(data, LockerKey)
    ensures r.result.Success? ==> forall k :: k in s.lockers && k !in Batch.KeysOf(data, LockerKey) ==> r.store.lockers[k] == s.lockers[k]
    ensures r.store.bloqs == s.bloqs && r.store.rents == s.rents
    ensures Consistent(s) ==> Consistent(r.store)
  {
    Batch.UpsertAdmits(s.lockers, instances, data, LockerKey);
    var u := Batch.Upsert(s.lockers, instances, data, LockerKey);
    if u.Failure? then Reply(s, Failure(Rejected(u.error)))
    else
      UpsertedLockersConsistent(s, data, u.value.table);
      Reply(s.(lockers := u.value.table), Success(u.value.rows))
  }

  lemma UpsertedLockersConsistent(s: Store, data: seq<Locker>, t: map<string, Locker>)
    requires forall i :: 0 <= i < |data| ==> WellFormedLocker(data[i]) && data[i].bloqId in s.bloqs
    requires t.Keys == s.lockers.Keys + Batch.KeysOf(data, LockerKey)
    requires forall i :: 0 <= i < |data| ==> LockerKey(t[LockerKey(data[i])]) == LockerKey(data[i])
    requires forall k :: k in t ==> t[k] in data || (k in s.lockers && t[k] == s.lockers[k])
    requires forall k :: k in s.lockers && k !in Batch.KeysOf(data, LockerKey) ==> t[k] == s.lockers[k]
    ensures Consistent(s) ==> Consistent(s.(lockers := t))
  {
    if Consistent(s) {
      forall k | k in t
        ensures LockerKey(t[k]) == k
      {
        if k in Batch.KeysOf(data, LockerKey) {
          var i :| 0 <= i < |data| && LockerKey(data[i]) == k;
          assert LockerKey(t[LockerKey(data[i])]) == LockerKey(data[i]);
        }
      }
      forall k | k in t
        ensures WellFormedLocker(t[k]) && t[k].bloqId in s.bloqs
      {
        if t[k] in data {
          var j :| 0 <= j < |data| && data[j] == t[k];
        }
      }
    }
  }

  /**
   * `RentListSerializer.update`. It only ever receives `validated_data`, so
   * every record is one that validation accepts: well-formed and on an existing Locker
   * (`RentRoundTrip` and the ensures of `CleanRent` show that these are
   * exactly the records validation returns unchanged).
   */
  function UpsertRents(s: Store, instances: seq<Rent>, data: seq<Rent>): (r: Reply<seq<Rent>>)
    requires forall i :: 0 <= i < |data| ==> WellFormedRent(data[i]) && data[i].lockerId in s.lockers
    ensures r.result.Success? <==> Batch.UpsertAdmissible(s.rents, Batch.KeysOf(instances, RentKey), data, RentKey)
    ensures r.result.Failure? ==> r.store == s
    ensures r.result.Success? ==> |r.result.value| == |data|
    ensures r.result.Success? ==> forall i :: 0 <= i < |data| ==> data[i].id in r.store.rents
    ensures r.result.Success? ==> forall i :: 0 <= i < |data| ==> r.result.value[i] == r.store.rents[data[i].id]
    ensures r.result.Success? ==> forall i :: 0 <= i < |data| ==> r.result.value[i] == data[Batch.LastIndex(data, RentKey, i)]
    ensures r.result.Success? ==> forall i :: 0 <= i < |data| && Batch.LastWithKey(data, RentKey, i) ==> r.store.rents[data[i].id] == data[i]
    ensures r.result.Success? ==> r.store.rents.Keys == s.rents.Keys + Batch.KeysOf(data, RentKey)
    ensures r.result.Success? ==> forall k :: k in s.rents && k !in Batch.KeysOf(data, RentKey) ==> r.store.rents[k] == s.rents[k]
    ensures r.store.bloqs == s.bloqs && r.store.lockers == s.lockers
    ensures Consistent(s) ==> Consistent(r.store)
  {
    Batch.UpsertAdmits(s.rents, instances, data, RentKey);
    var u := Batch.Upsert(s.rents, instances, data, RentKey);
    if u.Failure? then Reply(s, Failure(Rejected(u.error)))
    else
      UpsertedRentsConsistent(s, data, u.value.table);
      Reply(s.(rents := u.value.table), Success(u.value.rows))
  }

  lemma UpsertedRentsConsistent(s: Store, data: seq<Rent>, t: map<string, Rent>)
    requires forall i :: 0 <= i < |data| ==> WellFormedRent(data[i]) && data[i].lockerId in s.lockers
    requires t.Keys == s.rents.Keys + Batch.KeysOf(data, RentKey)
    requires forall i :: 0 <= i < |data| ==> RentKey(t[RentKey(data[i])]) == RentKey(data[i])
    requires forall k :: k in t ==> t[k] in data || (k in s.rents && t[k] == s.rents[k])
    requires forall k :: k in s.rents && k !in Batch.KeysOf(data, RentKey) ==> t[k] == s.rents[k]
    ensures Consistent(s) ==> Consistent(s.(rents := t))
  {
    if Consistent(s) {
      forall k | k in t
        ensures RentKey(t[k]) == k
      {
        if k in Batch.KeysOf(data, RentKey) {
          var i :| 0 <= i < |data| && RentKey(data[i]) == k;
          assert RentKey(t[RentKey(data[i])]) == RentKey(data[i]);
        }
      }
      forall k | k in t
        ensures WellFormedRent(t[k]) && t[k].lockerId in s.lockers
      {
        if t[k] in data {
          var j :| 0 <= j < |data| && data[j] == t[k];
        }
      }
    }
  }
}
