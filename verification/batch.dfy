/**
 * The bulk create and bulk update of the three list serializers, written once
 * over any record type `T` stored in a table keyed by `key`.
 *
 * Both run inside one atomic block: the table they return is committed only
 * when every record of the batch went through; on an error the caller keeps
 * the table it had.
 */
module Batch {
  import opened Wrappers

  /** Why a record of a batch was refused. */
  datatype Cause =
    | InvalidField(field: string)  // validation of this field failed
    | DuplicateKey(key: string)    // a row with this primary key is already stored

  /** The first record of the batch that was refused, by position. */
  datatype BatchError = BatchError(index: nat, cause: Cause)

  /** A committed batch: the new table and the records returned, in input order. */
  datatype Committed<T> = Committed(table: map<string, T>, rows: seq<T>)

  /** The keys of the records of `rows`. */
  function KeysOf<T>(rows: seq<T>, key: T -> string): (ks: set<string>)
    ensures forall i :: 0 <= i < |rows| ==> key(rows[i]) in ks
    ensures forall k :: k in ks ==> exists i :: 0 <= i < |rows| && key(rows[i]) == k
  {
    set i | 0 <= i < |rows| :: key(rows[i])
  }

  // ------------------------------------------------------------ bulk create

  /**
   * A batch the create can accept: every draft validates, and the validated
   * records have keys that are new to the table and distinct from each other.
   */
  ghost predicate Admissible<D, T>(table: map<string, T>, drafts: seq<D>, clean: D -> Result<T, string>, key: T -> string)
  {
    && (forall i :: 0 <= i < |drafts| ==> clean(drafts[i]).Success?)
    && (forall i :: 0 <= i < |drafts| ==> key(clean(drafts[i]).value) !in table)
    && (forall i, j :: 0 <= i < j < |drafts| ==> key(clean(drafts[i]).value) != key(clean(drafts[j]).value))
  }

  /**
   * `c` is what a successful create commits: one validated record per draft,
   * in input order, each stored under its own new key, every row the table
   * already had kept as it was, and nothing else added.
   */
  ghost predicate Stored<D, T>(table: map<string, T>, drafts: seq<D>, clean: D -> Result<T, string>, key: T -> string, c: Committed<T>)
  {
    && |c.rows| == |drafts|
    && (forall i :: 0 <= i < |drafts| ==> clean(drafts[i]) == Success(c.rows[i]))
    && c.table.Keys == table.Keys + KeysOf(c.rows, key)
    && (forall k :: k in table ==> c.table[k] == table[k])
    && (forall i :: 0 <= i < |c.rows| ==> key(c.rows[i]) !in table && c.table[key(c.rows[i])] == c.rows[i])
    && (forall i, j :: 0 <= i < j < |c.rows| ==> key(c.rows[i]) != key(c.rows[j]))
  }

  /**
   * `ListSerializer.create`: validates and saves the drafts one after the
   * other, so a later draft is checked against the rows saved before it.
   * The first refusal aborts the whole batch.
   */
  function CreateAll<D, T>(table: map<string, T>, drafts: seq<D>, clean: D -> Result<T, string>, key: T -> string): (r: Result<Committed<T>, BatchError>)
    ensures r.Success? ==> Stored(table, drafts, clean, key, r.value)
    ensures r.Failure? ==> r.error.index < |drafts|
    ensures r.Failure? ==> forall i :: 0 <= i < r.error.index ==> clean(drafts[i]).Success?
    ensures r.Failure? && r.error.cause.InvalidField? ==> clean(drafts[r.error.index]).Failure?
    decreases |drafts|
  {
    if drafts == [] then Success(Committed(table, []))
    else
      match clean(drafts[0])
      case Failure(field) => Failure(BatchError(0, InvalidField(field)))
      case Success(row) =>
        if key(row) in table then Failure(BatchError(0, DuplicateKey(key(row))))
        else
          match CreateAll(table[key(row) := row], drafts[1..], clean, key)
          case Failure(e) => Failure(BatchError(e.index + 1, e.cause))
          case Success(c) =>
            StoredStep(table, drafts, clean, key, c);
            Success(Committed(c.table, [row] + c.rows))
  }

  lemma KeysOfCons<T>(row: T, rows: seq<T>, key: T -> string)
    ensures KeysOf([row] + rows, key) == {key(row)} + KeysOf(rows, key)
  {
    var all := [row] + rows;
    assert all[0] == row;
    assert forall i :: 0 <= i < |rows| ==> all[i + 1] == rows[i];
    forall k | k in KeysOf(all, key)
      ensures k in {key(row)} + KeysOf(rows, key)
    {
      var i :| 0 <= i < |all| && key(all[i]) == k;
      if i > 0 {
        assert key(rows[i - 1]) == k;
      }
    }
  }

  /** One step of the create: the first draft's row put in front of what the rest commits. */
  lemma StoredStep<D, T>(table: map<string, T>, drafts: seq<D>, clean: D -> Result<T, string>, key: T -> string, c: Committed<T>)
    requires drafts != [] && clean(drafts[0]).Success?
    requires key(clean(drafts[0]).value) !in table
    requires Stored(table[key(clean(drafts[0]).value) := clean(drafts[0]).value], drafts[1..], clean, key, c)
    ensures Stored(table, drafts, clean, key, Committed(c.table, [clean(drafts[0]).value] + c.rows))
  {
    var row := clean(drafts[0]).value;
    var grown := table[key(row) := row];
    KeysOfCons(row, c.rows, key);
    var rows := [row] + c.rows;
    assert c.table.Keys == table.Keys + KeysOf(rows, key);
    forall i | 0 <= i < |drafts|
      ensures clean(drafts[i]) == Success(rows[i])
    {
      if i > 0 {
        assert drafts[i] == drafts[1..][i - 1];
      }
    }
    forall i | 0 <= i < |rows|
      ensures key(rows[i]) !in table && c.table[key(rows[i])] == rows[i]
    {
      if i > 0 {
        assert rows[i] == c.rows[i - 1];
        assert key(c.rows[i - 1]) !in grown;
      } else {
        assert key(row) in grown;
      }
    }
    forall i, j | 0 <= i < j < |rows|
      ensures key(rows[i]) != key(rows[j])
    {
      assert rows[j] == c.rows[j - 1];
      assert key(c.rows[j - 1]) !in grown;
      if i > 0 {
        assert rows[i] == c.rows[i - 1];
      }
    }
  }

  lemma AdmissibleStep<D, T>(table: map<string, T>, drafts: seq<D>, clean: D -> Result<T, string>, key: T -> string)
    requires drafts != [] && clean(drafts[0]).Success?
    requires key(clean(drafts[0]).value) !in table
    ensures Admissible(table, drafts, clean, key) <==>
      var row := clean(drafts[0]).value;
      Admissible(table[key(row) := row], drafts[1..], clean, key)
  {
    var row := clean(drafts[0]).value;
    var rest := drafts[1..];
    assert forall i :: 0 <= i < |rest| ==> rest[i] == drafts[i + 1];
    if Admissible(table[key(row) := row], rest, clean, key) {
      forall i, j | 0 <= i < j < |drafts|
        ensures key(clean(drafts[i]).value) != key(clean(drafts[j]).value)
      {
        if i > 0 {
          assert key(clean(rest[i - 1]).value) != key(clean(rest[j - 1]).value);
        } else {
          assert key(clean(rest[j - 1]).value) !in table[key(row) := row];
        }
      }
      forall i | 0 <= i < |drafts|
        ensures clean(drafts[i]).Success? && key(clean(drafts[i]).value) !in table
      {
        if i > 0 {
          assert clean(rest[i - 1]).Success?;
          assert key(clean(rest[i - 1]).value) !in table[key(row) := row];
        }
      }
    }
    if Admissible(table, drafts, clean, key) {
      forall i | 0 <= i < |rest|
        ensures key(clean(rest[i]).value) !in table[key(row) := row]
      {
        assert key(clean(drafts[0]).value) != key(clean(drafts[i + 1]).value);
      }
    }
  }

  /** The create commits exactly when the batch is admissible. */
  lemma {:induction false} CreateAllAdmits<D, T>(table: map<string, T>, drafts: seq<D>, clean: D -> Result<T, string>, key: T -> string)
    ensures CreateAll(table, drafts, clean, key).Success? <==> Admissible(table, drafts, clean, key)
    decreases |drafts|
  {
    if drafts != [] {
      match clean(drafts[0])
      case Failure(_) =>
      case Success(row) =>
        if key(row) !in table {
          AdmissibleStep(table, drafts, clean, key);
          CreateAllAdmits(table[key(row) := row], drafts[1..], clean, key);
        }
    }
  }

  /** A batch whose records all validate, to rows with new and distinct keys, commits exactly those rows. */
  lemma CreateAllAnswers<D, T>(table: map<string, T>, drafts: seq<D>, clean: D -> Result<T, string>, key: T -> string, rows: seq<T>)
    requires |rows| == |drafts|
    requires forall i :: 0 <= i < |drafts| ==> clean(drafts[i]) == Success(rows[i])
    requires forall i :: 0 <= i < |rows| ==> key(rows[i]) !in table
    requires forall i, j :: 0 <= i < j < |rows| ==> key(rows[i]) != key(rows[j])
    ensures CreateAll(table, drafts, clean, key).Success?
    ensures CreateAll(table, drafts, clean, key).value.rows == rows
    ensures CreateAll(table, drafts, clean, key).value.table.Keys == table.Keys + KeysOf(rows, key)
  {
    assert forall i :: 0 <= i < |drafts| ==> clean(drafts[i]).value == rows[i];
    CreateAllAdmits(table, drafts, clean, key);
    var c := CreateAll(table, drafts, clean, key).value;
    forall i | 0 <= i < |rows|
      ensures c.rows[i] == rows[i]
    {
      assert clean(drafts[i]) == Success(c.rows[i]);
    }
  }

  // ------------------------------------------------------------ bulk update

  /** No later record of `data` has the key of record `i`. */
  predicate LastWithKey<T>(data: seq<T>, key: T -> string, i: int)
    requires 0 <= i < |data|
  {
    forall j :: i < j < |data| ==> key(data[j]) != key(data[i])
  }

  /**
   * A batch the upsert can save: a record whose key names no given instance
   * is inserted, so its key must be new to the table and to the records
   * before it.
   */
  ghost predicate UpsertAdmissible<T>(table: map<string, T>, instanceKeys: set<string>, data: seq<T>, key: T -> string)
  {
    forall i :: 0 <= i < |data| && key(data[i]) !in instanceKeys ==>
      && key(data[i]) !in table
      && forall j :: 0 <= j < i ==> key(data[j]) != key(data[i])
  }

  /**
   * `t` is the table after saving `data` over `table`: the keys of the
   * records are added, rows under other keys are kept, the last record with
   * a key is the row stored under it, and every record's key holds a row of
   * that key.
   */
  ghost predicate Saved<T>(table: map<string, T>, data: seq<T>, key: T -> string, t: map<string, T>)
  {
    && t.Keys == table.Keys + KeysOf(data, key)
    && (forall k :: k in table && k !in KeysOf(data, key) ==> t[k] == table[k])
    && (forall i :: 0 <= i < |data| && LastWithKey(data, key, i) ==> t[key(data[i])] == data[i])
    && (forall i :: 0 <= i < |data| ==> key(t[key(data[i])]) == key(data[i]))
  }

  /**
   * Saves the records of `data` in order: one whose key names an instance
   * overwrites that row, any other is inserted, which fails when its key is
   * already stored.
   */
  function SaveAll<T>(table: map<string, T>, instanceKeys: set<string>, data: seq<T>, key: T -> string): (r: Result<map<string, T>, BatchError>)
    ensures r.Success? ==> Saved(table, data, key, r.value)
    ensures r.Failure? ==> r.error.index < |data|
    decreases |data|
  {
    if data == [] then Success(table)
    else
      var k := key(data[0]);
      if k !in instanceKeys && k in table then Failure(BatchError(0, DuplicateKey(k)))
      else
        match SaveAll(table[k := data[0]], instanceKeys, data[1..], key)
        case Failure(e) => Failure(BatchError(e.index + 1, e.cause))
        case Success(t) =>
          SavedStep(table, data, key, t);
          Success(t)
  }

  /** One step of the save: the first record written, then the rest saved over it. */
  lemma SavedStep<T>(table: map<string, T>, data: seq<T>, key: T -> string, t: map<string, T>)
    requires data != []
    requires Saved(table[key(data[0]) := data[0]], data[1..], key, t)
    ensures Saved(table, data, key, t)
  {
    KeysOfCons(data[0], data[1..], key);
    assert data == [data[0]] + data[1..];
    SavedLastStep(table, data, key, t);
    SavedKeyStep(table, data, key, t);
  }

  lemma SavedLastStep<T>(table: map<string, T>, data: seq<T>, key: T -> string, t: map<string, T>)
    requires data != []
    requires Saved(table[key(data[0]) := data[0]], data[1..], key, t)
    requires KeysOf(data, key) == {key(data[0])} + KeysOf(data[1..], key)
    ensures forall i :: 0 <= i < |data| && LastWithKey(data, key, i) ==> t[key(data[i])] == data[i]
  {
    var rest := data[1..];
    forall i | 0 < i < |data| && LastWithKey(data, key, i)
      ensures t[key(data[i])] == data[i]
    {
      assert data[i] == rest[i - 1];
      assert LastWithKey(rest, key, i - 1);
    }
    if LastWithKey(data, key, 0) {
      assert forall j :: 0 <= j < |rest| ==> key(rest[j]) == key(data[j + 1]);
      assert key(data[0]) !in KeysOf(rest, key);
    }
  }

  lemma SavedKeyStep<T>(table: map<string, T>, data: seq<T>, key: T -> string, t: map<string, T>)
    requires data != []
    requires Saved(table[key(data[0]) := data[0]], data[1..], key, t)
    ensures forall i :: 0 <= i < |data| ==> key(t[key(data[i])]) == key(data[i])
  {
    var rest := data[1..];
    forall i | 0 < i < |data|
      ensures key(t[key(data[i])]) == key(data[i])
    {
      assert data[i] == rest[i - 1];
    }
  }

  /**
   * `ListSerializer.update`: maps the instances by key and saves the records
   * in order. Position `i` of the answer is the row stored under the key of
   * record `i` once the batch is saved: when a key repeats, every position
   * with that key shows the same, finally saved, instance.
   */
  function Upsert<T>(table: map<string, T>, instances: seq<T>, data: seq<T>, key: T -> string): (r: Result<Committed<T>, BatchError>)
    ensures r.Success? ==> |r.value.rows| == |data|
    ensures r.Success? ==> forall i :: 0 <= i < |data| ==>
      key(data[i]) in r.value.table && r.value.rows[i] == r.value.table[key(data[i])] && key(r.value.rows[i]) == key(data[i])
    ensures r.Success? ==> r.value.table.Keys == table.Keys + KeysOf(data, key)
    ensures r.Success? ==> forall k :: k in table && k !in KeysOf(data, key) ==> r.value.table[k] == table[k]
    ensures r.Success? ==> forall i :: 0 <= i < |data| && LastWithKey(data, key, i) ==> r.value.table[key(data[i])] == data[i]
    ensures r.Success? ==> forall i :: 0 <= i < |data| ==> r.value.rows[i] == data[LastIndex(data, key, i)]
    ensures r.Success? ==> forall k :: k in r.value.table ==> r.value.table[k] in data || (k in table && r.value.table[k] == table[k])
    ensures r.Failure? ==> r.error.index < |data|
  {
    match SaveAll(table, KeysOf(instances, key), data, key)
    case Failure(e) => Failure(e)
    case Success(t) =>
      UpsertContent(table, data, key, t);
      Success(Committed(t, Answer(t, data, key)))
  }

  /** The answer of the upsert: for each record, the row stored under its key. */
  function Answer<T>(t: map<string, T>, data: seq<T>, key: T -> string): (rows: seq<T>)
    requires forall i :: 0 <= i < |data| ==> key(data[i]) in t
    ensures |rows| == |data|
    ensures forall i :: 0 <= i < |data| ==> rows[i] == t[key(data[i])]
  {
    seq(|data|, i requires 0 <= i < |data| => t[key(data[i])])
  }

  /** What a saved table and its answer hold: the last record per key, and nothing but records and old rows. */
  lemma UpsertContent<T>(table: map<string, T>, data: seq<T>, key: T -> string, t: map<string, T>)
    requires Saved(table, data, key, t)
    ensures forall i :: 0 <= i < |data| ==> key(data[i]) in t
    ensures var rows := Answer(t, data, key);
      && (forall i :: 0 <= i < |data| ==> key(rows[i]) == key(data[i]))
      && (forall i :: 0 <= i < |data| ==> rows[i] == data[LastIndex(data, key, i)])
    ensures forall i :: 0 <= i < |data| && LastWithKey(data, key, i) ==> t[key(data[i])] == data[i]
    ensures forall k :: k in t ==> t[k] in data || (k in table && t[k] == table[k])
  {
    SavedRowsAreLast(table, data, key, t);
    SavedRowsFromData(table, data, key, t);
  }

  /** The position of the last record with the key of record `i`. */
  function LastIndex<T>(data: seq<T>, key: T -> string, i: nat): (j: nat)
    requires i < |data|
    ensures i <= j < |data| && key(data[j]) == key(data[i]) && LastWithKey(data, key, j)
    decreases |data|
  {
    var n := |data| - 1;
    if key(data[n]) == key(data[i]) then n
    else
      var j := LastIndex(data[..n], key, i);
      assert forall m :: 0 <= m < n ==> data[..n][m] == data[m];
      j
  }

  /** After a save, the row under each record's key is the last record with that key. */
  lemma SavedRowsAreLast<T>(table: map<string, T>, data: seq<T>, key: T -> string, t: map<string, T>)
    requires Saved(table, data, key, t)
    ensures forall i :: 0 <= i < |data| ==> t[key(data[i])] == data[LastIndex(data, key, i)]
  {
    forall i | 0 <= i < |data|
      ensures t[key(data[i])] == data[LastIndex(data, key, i)]
    {
      var j := LastIndex(data, key, i);
    }
  }

  /** After a save, every row is a submitted record or a row kept from before. */
  lemma SavedRowsFromData<T>(table: map<string, T>, data: seq<T>, key: T -> string, t: map<string, T>)
    requires Saved(table, data, key, t)
    ensures forall k :: k in t ==> t[k] in data || (k in table && t[k] == table[k])
  {
    SavedRowsAreLast(table, data, key, t);
    forall k | k in KeysOf(data, key)
      ensures t[k] in data
    {
      var i :| 0 <= i < |data| && key(data[i]) == k;
      assert t[k] == data[LastIndex(data, key, i)];
    }
  }

  /** With keys that do not repeat, the upsert answers exactly its input. */
  lemma UpsertAnswersInput<T>(table: map<string, T>, instances: seq<T>, data: seq<T>, key: T -> string)
    requires forall i, j :: 0 <= i < j < |data| ==> key(data[i]) != key(data[j])
    requires Upsert(table, instances, data, key).Success?
    ensures Upsert(table, instances, data, key).value.rows == data
  {
    var t := SaveAll(table, KeysOf(instances, key), data, key).value;
    assert forall i :: 0 <= i < |data| ==> LastWithKey(data, key, i);
  }

  lemma UpsertAdmissibleStep<T>(table: map<string, T>, instanceKeys: set<string>, data: seq<T>, key: T -> string)
    requires data != []
    requires key(data[0]) in instanceKeys || key(data[0]) !in table
    ensures UpsertAdmissible(table, instanceKeys, data, key) <==>
      UpsertAdmissible(table[key(data[0]) := data[0]], instanceKeys, data[1..], key)
  {
    var rest := data[1..];
    var k := key(data[0]);
    assert forall i :: 0 <= i < |rest| ==> rest[i] == data[i + 1];
    if UpsertAdmissible(table[k := data[0]], instanceKeys, rest, key) {
      forall i | 0 < i < |data| && key(data[i]) !in instanceKeys
        ensures key(data[i]) !in table && forall j :: 0 <= j < i ==> key(data[j]) != key(data[i])
      {
        assert key(rest[i - 1]) !in table[k := data[0]];
        forall j | 0 < j < i
          ensures key(data[j]) != key(data[i])
        {
          assert key(rest[j - 1]) != key(rest[i - 1]);
        }
      }
    }
    if UpsertAdmissible(table, instanceKeys, data, key) {
      forall i | 0 <= i < |rest| && key(rest[i]) !in instanceKeys
        ensures key(rest[i]) !in table[k := data[0]]
      {
        assert key(data[0]) != key(data[i + 1]);
      }
    }
  }

  /** The upsert saves exactly when no inserted record meets a key already stored. */
  lemma {:induction false} UpsertAdmits<T>(table: map<string, T>, instances: seq<T>, data: seq<T>, key: T -> string)
    ensures Upsert(table, instances, data, key).Success? <==> UpsertAdmissible(table, KeysOf(instances, key), data, key)
  {
    SaveAllAdmits(table, KeysOf(instances, key), data, key);
  }

  lemma {:induction false} SaveAllAdmits<T>(table: map<string, T>, instanceKeys: set<string>, data: seq<T>, key: T -> string)
    ensures SaveAll(table, instanceKeys, data, key).Success? <==> UpsertAdmissible(table, instanceKeys, data, key)
    decreases |data|
  {
    if data != [] {
      var k := key(data[0]);
      if k in instanceKeys || k !in table {
        UpsertAdmissibleStep(table, instanceKeys, data, key);
        SaveAllAdmits(table[k := data[0]], instanceKeys, data[1..], key);
      }
    }
  }
}
