/**
 Row writes and the index maps they keep: rows, unique entries and secondary entries change together in
 writeVersionedRowUnchecked, and after every successful write both index maps are a function of the rows.
 */
module IndexMaintenance {
  import opened Wrappers
  import opened Bytes
  import opened Schema
  import opened SecondaryKey

  /** An index entry: the index name (its namespace) and the entry key. */
  type Slot = (string, Data)

  /** The record of a secondary entry: the owning row key and the covered columns of the row. */
  datatype Covering = Covering(owner: Key, row: Row)

  // ----- which entries a row has -------------------------------------------------------------

  /** Indexes kept in the unique namespace; an integer primary key with compact rows needs no entry. */
  predicate KeptUnique(t: Table, index: Index) {
    (index.unique || index.primary) && !(index.primary && t.integerKey && t.compactRows)
  }

  /** secondaryColumns: non-unique indexes over integer and non-JSON text columns. */
  predicate KeptSecondary(t: Table, index: Index) {
    && t.secondaryEncoding && !index.primary && !index.unique && index.columns != []
    && InRange(index.columns, |t.columns|)
    && forall i :: 0 <= i < |index.columns| ==> IndexableColumn(t.columns[index.columns[i]])
  }

  predicate InRange(columns: seq<nat>, n: nat) { forall i :: 0 <= i < |columns| ==> columns[i] < n }

  predicate IndexableColumn(c: Column) { !c.json && (IsIntegerType(c.typ) || IsTextType(c.typ)) }

  function Pick(row: Row, columns: seq<nat>): (r: seq<Value>)
    requires InRange(columns, |row|)
    ensures |r| == |columns| && forall i :: 0 <= i < |r| ==> r[i] == row[columns[i]]
  {
    seq(|columns|, i requires 0 <= i < |columns| => row[columns[i]])
  }

  function ColumnTypes(t: Table, columns: seq<nat>): (r: seq<DataType>)
    requires InRange(columns, |t.columns|)
    ensures |r| == |columns| && forall i :: 0 <= i < |r| ==> r[i] == t.columns[columns[i]].typ
  {
    seq(|columns|, i requires 0 <= i < |columns| => t.columns[columns[i]].typ)
  }

  /** The indexed values of a conforming row fit the secondary encoding. */
  lemma PickIndexable(t: Table, index: Index, row: Row)
    requires KeptSecondary(t, index) && Conforms(t.columns, row)
    ensures IndexableAll(ColumnTypes(t, index.columns), Pick(row, index.columns))
  {
    forall i | 0 <= i < |index.columns|
      ensures Indexable(ColumnTypes(t, index.columns)[i], Pick(row, index.columns)[i])
    {
      assert IndexableColumn(t.columns[index.columns[i]]);
    }
  }

  /** secondaryCover: the columns a covering read can be served from. */
  predicate Covered(t: Table, index: Index, c: nat) {
    c in index.columns || exists j :: 0 <= j < |t.indexes| && t.indexes[j].primary && c in t.indexes[j].columns
  }

  function Project(t: Table, index: Index, row: Row): (r: Row)
    ensures |r| == |row|
    ensures forall c :: 0 <= c < |row| ==> r[c] == if Covered(t, index, c) then row[c] else Null(row[c].typ)
  {
    seq(|row|, c requires 0 <= c < |row| => if Covered(t, index, c) then row[c] else Null(row[c].typ))
  }

  function UniqueUpTo(t: Table, row: Row, n: nat): set<Slot>
    requires n <= |t.indexes|
  {
    if n == 0 then {} else
      var index := t.indexes[n - 1];
      UniqueUpTo(t, row, n - 1)
      + if KeptUnique(t, index) && t.valueKey(index, row).Some? then {(index.name, t.valueKey(index, row).value)}
        else {}
  }

  /** Every unique entry of a row. */
  function UniqueSlots(t: Table, row: Row): set<Slot> { UniqueUpTo(t, row, |t.indexes|) }

  function EntryKey(index: Index, owner: Key, row: Row): Data
    requires InRange(index.columns, |row|)
  {
    Entry(Pick(row, index.columns), owner)
  }

  /** secondaryEntry: the slot and the record of one index for one row. */
  function SlotOf(index: Index, owner: Key, row: Row): Slot
    requires InRange(index.columns, |row|)
  {
    (index.name, EntryKey(index, owner, row))
  }

  function CoveringOf(t: Table, index: Index, owner: Key, row: Row): Covering {
    Covering(owner, Project(t, index, row))
  }

  function SecondaryUpTo(t: Table, owner: Key, row: Row, n: nat): map<Slot, Covering>
    requires n <= |t.indexes| && |row| == |t.columns|
  {
    if n == 0 then map[]
    else
      var index, rest := t.indexes[n - 1], SecondaryUpTo(t, owner, row, n - 1);
      if KeptSecondary(t, index) then rest[SlotOf(index, owner, row) := CoveringOf(t, index, owner, row)] else rest
  }

  /** Every secondary entry of a row stored under `owner`. */
  function SecondarySlots(t: Table, owner: Key, row: Row): map<Slot, Covering>
    requires |row| == |t.columns|
  {
    SecondaryUpTo(t, owner, row, |t.indexes|)
  }

  lemma {:induction false} UniqueUpToMember(t: Table, row: Row, n: nat, e: Slot)
    requires n <= |t.indexes|
    ensures e in UniqueUpTo(t, row, n) <==>
            exists i :: 0 <= i < n && KeptUnique(t, t.indexes[i]) && e.0 == t.indexes[i].name
                        && t.valueKey(t.indexes[i], row) == Some(e.1)
  {
    if n > 0 { UniqueUpToMember(t, row, n - 1, e); }
  }

  lemma {:induction false} SecondaryUpToMember(t: Table, owner: Key, row: Row, n: nat, e: Slot)
    requires n <= |t.indexes| && |row| == |t.columns|
    ensures e in SecondaryUpTo(t, owner, row, n) <==>
            exists i :: 0 <= i < n && KeptSecondary(t, t.indexes[i]) && e == SlotOf(t.indexes[i], owner, row)
    ensures e in SecondaryUpTo(t, owner, row, n) ==> SecondaryUpTo(t, owner, row, n)[e].owner == owner
  {
    if n > 0 { SecondaryUpToMember(t, owner, row, n - 1, e); }
  }

  // ----- what can be encoded -----------------------------------------------------------------

  /** secondaryEntry fails when the covered columns do not encode. */
  predicate EntryEncodes(t: Table, index: Index, row: Row) {
    KeptSecondary(t, index) ==> t.encodes(Project(t, index, row))
  }

  ghost predicate EntriesEncode(t: Table, row: Row) {
    forall i :: 0 <= i < |t.indexes| ==> EntryEncodes(t, t.indexes[i], row)
  }

  ghost predicate RowsEncode(t: Table, rows: map<Key, Row>) {
    forall k :: k in rows ==> t.encodes(rows[k]) && EntriesEncode(t, rows[k])
  }

  // ----- exactness ---------------------------------------------------------------------------

  ghost predicate UniqueExact(t: Table, rows: map<Key, Row>, unique: map<Slot, Key>) {
    && (forall k, e :: k in rows && e in UniqueSlots(t, rows[k]) ==> e in unique && unique[e] == k)
    && (forall e :: e in unique ==> unique[e] in rows && e in UniqueSlots(t, rows[unique[e]]))
  }

  ghost predicate RowsConform(t: Table, rows: map<Key, Row>) {
    forall k :: k in rows ==>
      Conforms(t.columns, rows[k]) && (PrimaryIndex(t).Some? ==> PrimaryKey(t, rows[k]) == Some(k))
  }

  ghost predicate SecondaryExact(t: Table, rows: map<Key, Row>, secondary: map<Slot, Covering>)
    requires RowsConform(t, rows)
  {
    && (forall k, e :: k in rows && e in SecondarySlots(t, k, rows[k]) ==>
          e in secondary && secondary[e] == SecondarySlots(t, k, rows[k])[e])
    && (forall e :: e in secondary ==>
          secondary[e].owner in rows && e in SecondarySlots(t, secondary[e].owner, rows[secondary[e].owner]))
  }

  lemma UniqueContained(t: Table, rows: map<Key, Row>, u1: map<Slot, Key>, u2: map<Slot, Key>, e: Slot)
    requires UniqueExact(t, rows, u1) && UniqueExact(t, rows, u2) && e in u1
    ensures e in u2 && u2[e] == u1[e]
  {
    assert e in UniqueSlots(t, rows[u1[e]]);
  }

  lemma SecondaryContained(t: Table, rows: map<Key, Row>, s1: map<Slot, Covering>, s2: map<Slot, Covering>, e: Slot)
    requires RowsConform(t, rows) && SecondaryExact(t, rows, s1) && SecondaryExact(t, rows, s2) && e in s1
    ensures e in s2 && s2[e] == s1[e]
  {
    assert e in SecondarySlots(t, s1[e].owner, rows[s1[e].owner]);
  }

  /** Rows determine both index maps: two exact states over the same rows are equal. */
  lemma ExactIsAFunction(t: Table, rows: map<Key, Row>, u1: map<Slot, Key>, u2: map<Slot, Key>,
                         s1: map<Slot, Covering>, s2: map<Slot, Covering>)
    requires RowsConform(t, rows)
    requires UniqueExact(t, rows, u1) && UniqueExact(t, rows, u2)
    requires SecondaryExact(t, rows, s1) && SecondaryExact(t, rows, s2)
    ensures u1 == u2 && s1 == s2
  {
    forall e | e in u1 ensures e in u2 && u2[e] == u1[e] { UniqueContained(t, rows, u1, u2, e); }
    forall e | e in u2 ensures e in u1 { UniqueContained(t, rows, u2, u1, e); }
    forall e | e in s1 ensures e in s2 && s2[e] == s1[e] { SecondaryContained(t, rows, s1, s2, e); }
    forall e | e in s2 ensures e in s1 { SecondaryContained(t, rows, s2, s1, e); }
  }

  /** No two rows of an exact state share a unique entry. */
  lemma ExactMeansUnique(t: Table, rows: map<Key, Row>, unique: map<Slot, Key>, k1: Key, k2: Key)
    requires UniqueExact(t, rows, unique)
    requires k1 in rows && k2 in rows && k1 != k2
    ensures UniqueSlots(t, rows[k1]) !! UniqueSlots(t, rows[k2])
  {
    forall e | e in UniqueSlots(t, rows[k1]) ensures e !in UniqueSlots(t, rows[k2]) {
      assert unique[e] == k1;
    }
  }

  /** Entries of different owners are different slots, because a composite key decodes uniquely. */
  lemma SecondaryDisjoint(t: Table, k1: Key, r1: Row, k2: Key, r2: Row, e: Slot)
    requires ValidTable(t) && Conforms(t.columns, r1) && Conforms(t.columns, r2)
    requires e in SecondarySlots(t, k1, r1) && e in SecondarySlots(t, k2, r2)
    ensures k1 == k2
  {
    SecondaryUpToMember(t, k1, r1, |t.indexes|, e);
    SecondaryUpToMember(t, k2, r2, |t.indexes|, e);
    var i :| 0 <= i < |t.indexes| && KeptSecondary(t, t.indexes[i]) && e == SlotOf(t.indexes[i], k1, r1);
    var j :| 0 <= j < |t.indexes| && KeptSecondary(t, t.indexes[j]) && e == SlotOf(t.indexes[j], k2, r2);
    assert i == j;
    var index := t.indexes[i];
    PickIndexable(t, index, r1);
    PickIndexable(t, index, r2);
    EntryInjective(ColumnTypes(t, index.columns), Pick(r1, index.columns), Pick(r2, index.columns), k1, k2);
  }

  // ----- what a write means ------------------------------------------------------------------

  datatype Prior = Absent | Present(key: Key, row: Row)

  datatype WriteResult = Written | Duplicate | NullPrimaryKey | CheckFailed | InvalidValues | EncodingFailed

  /** The key the new row is stored under: the primary key, or the old key, or the heap key. */
  function NewKey(t: Table, was: Prior, row: Row, fallback: Key): Option<Key> {
    match PrimaryIndex(t)
    case Some(index) => PrimaryKeyUnder(t, index, row)
    case None => Some(if was.Present? then was.key else fallback)
  }

  /** Another row already stands in the way of the new key or of a new unique value. */
  ghost predicate Conflicts(t: Table, rows: map<Key, Row>, was: Prior, newKey: Key, row: Row) {
    exists k :: k in rows && !(was.Present? && k == was.key)
                && (k == newKey || !(UniqueSlots(t, rows[k]) !! UniqueSlots(t, row)))
  }

  /** What the write reports, in the order the source finds out. */
  ghost function Outcome(t: Table, rows: map<Key, Row>, was: Prior, newRow: Option<Row>, fallback: Key): WriteResult {
    if newRow.None? then Written
    else if !t.checks(newRow.value) then CheckFailed
    else if !Conforms(t.columns, newRow.value) then InvalidValues
    else match NewKey(t, was, newRow.value, fallback)
      case None => NullPrimaryKey
      case Some(newKey) =>
        if newKey in Left(rows, was) then Duplicate
        else if !EntriesEncode(t, newRow.value) then EncodingFailed
        else if Conflicts(t, rows, was, newKey, newRow.value) then Duplicate
        else if !t.encodes(newRow.value) then EncodingFailed
        else Written
  }

  function RowsAfter(t: Table, rows: map<Key, Row>, was: Prior, newRow: Option<Row>, fallback: Key): map<Key, Row> {
    var left := if was.Present? then rows - {was.key} else rows;
    if newRow.Some? && NewKey(t, was, newRow.value, fallback).Some?
    then left[NewKey(t, was, newRow.value, fallback).value := newRow.value]
    else left
  }

  /** No other row has the key or one of the unique values. */
  ghost predicate Uncontested(t: Table, rows: map<Key, Row>, was: Prior, newKey: Key, row: Row) {
    forall k :: k in rows && (was.Present? ==> k != was.key) ==>
      k != newKey && forall e :: e in UniqueSlots(t, row) ==> e !in UniqueSlots(t, rows[k])
  }

  /** A row is written exactly when it passes the checks, has a key, encodes, and no other row stands in its way. */
  lemma WrittenIff(t: Table, rows: map<Key, Row>, was: Prior, row: Row, fallback: Key)
    ensures Outcome(t, rows, was, Some(row), fallback) == Written <==>
            && t.checks(row) && Conforms(t.columns, row) && t.encodes(row) && EntriesEncode(t, row)
            && NewKey(t, was, row, fallback).Some?
            && Uncontested(t, rows, was, NewKey(t, was, row, fallback).value, row)
  {
    if NewKey(t, was, row, fallback).Some? {
      var newKey := NewKey(t, was, row, fallback).value;
      if newKey in Left(rows, was) { assert !Uncontested(t, rows, was, newKey, row); }
      if Conflicts(t, rows, was, newKey, row) {
        var k :| k in rows && !(was.Present? && k == was.key)
                 && (k == newKey || !(UniqueSlots(t, rows[k]) !! UniqueSlots(t, row)));
        if k != newKey {
          var e :| e in UniqueSlots(t, rows[k]) && e in UniqueSlots(t, row);
        }
        assert !Uncontested(t, rows, was, newKey, row);
      }
    }
  }

  /** An update that keeps its key and its unique values meets no duplicate, whatever else it changes. */
  lemma UpdateInPlaceIsWritten(t: Table, rows: map<Key, Row>, unique: map<Slot, Key>, key: Key, row: Row)
    requires UniqueExact(t, rows, unique) && key in rows
    requires t.checks(row) && Conforms(t.columns, row) && t.encodes(row) && EntriesEncode(t, row)
    requires NewKey(t, Present(key, rows[key]), row, []) == Some(key)
    requires UniqueSlots(t, row) == UniqueSlots(t, rows[key])
    ensures Outcome(t, rows, Present(key, rows[key]), Some(row), []) == Written
  {
    forall k | k in rows && k != key ensures UniqueSlots(t, rows[k]) !! UniqueSlots(t, row) {
      ExactMeansUnique(t, rows, unique, key, k);
    }
    WrittenIff(t, rows, Present(key, rows[key]), row, []);
  }

  function RowAt(rows: map<Key, Row>, k: Key): Option<Row> { if k in rows then Some(rows[k]) else None }

  /** A DELETE takes away its row and nothing else. */
  lemma DeleteTakesAway(t: Table, rows: map<Key, Row>, key: Key, k: Key)
    requires key in rows
    ensures Outcome(t, rows, Present(key, rows[key]), None, []) == Written
    ensures RowAt(RowsAfter(t, rows, Present(key, rows[key]), None, []), k) == if k == key then None else RowAt(rows, k)
  {
  }

  /** A written row is stored under its key, the row it replaces is gone from its old one, and all other rows stand. */
  lemma WritePuts(t: Table, rows: map<Key, Row>, was: Prior, row: Row, fallback: Key, k: Key)
    requires Outcome(t, rows, was, Some(row), fallback) == Written
    ensures NewKey(t, was, row, fallback).Some?
    ensures RowAt(RowsAfter(t, rows, was, Some(row), fallback), k)
            == if k == NewKey(t, was, row, fallback).value then Some(row)
               else if was.Present? && k == was.key then None else RowAt(rows, k)
  {
  }

  lemma UniqueRemoved(t: Table, rows: map<Key, Row>, unique: map<Slot, Key>, key: Key)
    requires UniqueExact(t, rows, unique) && key in rows
    ensures UniqueExact(t, rows - {key}, unique - UniqueSlots(t, rows[key]))
  {
    var u := unique - UniqueSlots(t, rows[key]);
    forall k, e | k in rows - {key} && e in UniqueSlots(t, rows[k]) ensures e in u && u[e] == k {
      assert unique[e] == k;
    }
  }

  lemma UniqueAdded(t: Table, rows: map<Key, Row>, unique: map<Slot, Key>, key: Key, row: Row, after: map<Slot, Key>)
    requires UniqueExact(t, rows, unique) && key !in rows
    requires UniqueSlots(t, row) !! unique.Keys
    requires after.Keys == unique.Keys + UniqueSlots(t, row)
    requires forall e :: e in after ==> after[e] == if e in UniqueSlots(t, row) then key else unique[e]
    ensures UniqueExact(t, rows[key := row], after)
  {
  }

  lemma SecondaryRemoved(t: Table, rows: map<Key, Row>, secondary: map<Slot, Covering>, key: Key)
    requires ValidTable(t) && RowsConform(t, rows) && SecondaryExact(t, rows, secondary) && key in rows
    ensures RowsConform(t, rows - {key})
    ensures SecondaryExact(t, rows - {key}, secondary - SecondarySlots(t, key, rows[key]).Keys)
  {
    var s := secondary - SecondarySlots(t, key, rows[key]).Keys;
    forall k, e | k in rows - {key} && e in SecondarySlots(t, k, rows[k])
      ensures e in s && s[e] == SecondarySlots(t, k, rows[k])[e]
    {
      if e in SecondarySlots(t, key, rows[key]) { SecondaryDisjoint(t, k, rows[k], key, rows[key], e); }
    }
  }

  lemma SecondaryAdded(t: Table, rows: map<Key, Row>, secondary: map<Slot, Covering>, key: Key, row: Row)
    requires ValidTable(t) && RowsConform(t, rows) && RowsConform(t, rows[key := row])
    requires |row| == |t.columns|
    requires SecondaryExact(t, rows, secondary) && key !in rows
    ensures SecondaryExact(t, rows[key := row], secondary + SecondarySlots(t, key, row))
  {
    var after := rows[key := row];
    assert Conforms(t.columns, after[key]);
    var s := secondary + SecondarySlots(t, key, row);
    forall k, e | k in after && e in SecondarySlots(t, k, after[k])
      ensures e in s && s[e] == SecondarySlots(t, k, after[k])[e]
    {
      if k != key && e in SecondarySlots(t, key, row) { SecondaryDisjoint(t, k, rows[k], key, row, e); }
    }
    forall e | e in s
      ensures s[e].owner in after && e in SecondarySlots(t, s[e].owner, after[s[e].owner])
    {
      if e in SecondarySlots(t, key, row) {
        SecondaryUpToMember(t, key, row, |t.indexes|, e);
      }
    }
  }

  // ----- the store ---------------------------------------------------------------------------

  class TableStore {
    const table: Table
    var rows: map<Key, Row>
    var unique: map<Slot, Key>
    var secondary: map<Slot, Covering>

    ghost predicate Valid()
      reads this
    {
      ValidTable(table) && RowsConform(table, rows) && RowsEncode(table, rows)
      && UniqueExact(table, rows, unique) && SecondaryExact(table, rows, secondary)
    }

    constructor (table: Table)
      requires ValidTable(table)
      ensures Valid() && this.table == table && rows == map[]
    {
      this.table := table;
      rows, unique, secondary := map[], map[], map[];
    }

    /**
     writeSecondaryEntries: delete the old entry and put the new one, index by index. It stops at the first entry
     that does not encode, with the entries of the earlier indexes rewritten.
     */
    method WriteSecondaryEntries(was: Prior, newKey: Key, newRow: Option<Row>) returns (ok: bool)
      requires ValidTable(table)
      requires was.Present? ==> |was.row| == |table.columns|
      requires was.Present? ==> SlotsStored(table, was.key, was.row, secondary)
      requires newRow.Some? ==> |newRow.value| == |table.columns|
      modifies this`secondary
      ensures ok <==>
                && (was.Present? ==> EntriesEncode(table, was.row))
                && (newRow.Some? ==> EntriesEncode(table, newRow.value))
      ensures ok ==> secondary == Rewritten(table, old(secondary), |table.indexes|, was, newKey, newRow)
    {
      ghost var before := secondary;
      for i := 0 to |table.indexes|
        invariant secondary == Rewritten(table, before, i, was, newKey, newRow)
        invariant was.Present? ==> forall j :: 0 <= j < i ==> EntryEncodes(table, table.indexes[j], was.row)
        invariant newRow.Some? ==> forall j :: 0 <= j < i ==> EntryEncodes(table, table.indexes[j], newRow.value)
      {
        var index := table.indexes[i];
        if was.Present? && !EntryEncodes(table, index, was.row) { return false; }
        if newRow.Some? && !EntryEncodes(table, index, newRow.value) { return false; }
        if KeptSecondary(table, index) {
          if was.Present? && newRow.Some?
             && EntryKey(index, was.key, was.row) == EntryKey(index, newKey, newRow.value)
             && CoveringOf(table, index, was.key, was.row) == CoveringOf(table, index, newKey, newRow.value)
          {
            EntryUntouched(table, before, i, was, newKey, newRow.value);
            continue;
          }
          if was.Present? { secondary := secondary - {SlotOf(index, was.key, was.row)}; }
          if newRow.Some? {
            secondary := secondary[SlotOf(index, newKey, newRow.value) :=
              CoveringOf(table, index, newKey, newRow.value)];
          }
        }
      }
      ok := true;
    }

    /** The loop that deletes the old row's unique entries. */
    method DeleteUniqueEntries(row: Row)
      modifies this`unique
      ensures unique == old(unique) - UniqueSlots(table, row)
    {
      ghost var before := unique;
      for i := 0 to |table.indexes|
        invariant unique == before - UniqueUpTo(table, row, i)
      {
        var index := table.indexes[i];
        if KeptUnique(table, index) && table.valueKey(index, row).Some? {
          unique := unique - {(index.name, table.valueKey(index, row).value)};
        }
      }
    }

    /** The loop that checks and puts the new row's unique entries; it stops at the first foreign owner. */
    method PutUniqueEntries(was: Prior, newKey: Key, row: Row) returns (ok: bool)
      requires ValidTable(table)
      requires was.Present? ==> forall e :: e in unique ==> unique[e] != was.key
      modifies this`unique
      ensures ok <==> UniqueSlots(table, row) !! old(unique).Keys
      ensures ok ==> unique.Keys == old(unique).Keys + UniqueSlots(table, row)
      ensures ok ==> forall e :: e in unique ==> unique[e] == if e in UniqueSlots(table, row) then newKey
              else old(unique)[e]
    {
      ghost var before := unique;
      for i := 0 to |table.indexes|
        invariant UniqueUpTo(table, row, i) !! before.Keys
        invariant unique.Keys == before.Keys + UniqueUpTo(table, row, i)
        invariant forall e :: e in unique ==> unique[e] == if e in UniqueUpTo(table, row, i) then newKey else before[e]
      {
        var index := table.indexes[i];
        if KeptUnique(table, index) && table.valueKey(index, row).Some? {
          var e := (index.name, table.valueKey(index, row).value);
          UniqueUpToMember(table, row, i, e);
          UniqueUpToMember(table, row, |table.indexes|, e);
          if e in unique && !(was.Present? && unique[e] == was.key) { return false; }
          unique := unique[e := newKey];
        }
      }
      ok := true;
    }

    /** The checks before anything is written: CHECK, types, primary key, and the new key in the row map. */
    method CheckNewRow(was: Prior, row: Row, fallback: Key) returns (r: WriteResult, newKey: Key)
      requires Valid()
      ensures !r.Written? ==> r == Outcome(table, rows, was, Some(row), fallback)
      ensures r.Written? ==>
                && table.checks(row) && Conforms(table.columns, row)
                && NewKey(table, was, row, fallback) == Some(newKey)
                && newKey !in Left(rows, was) && RowsConform(table, Left(rows, was)[newKey := row])
    {
      newKey := fallback;
      if !table.checks(row) { return CheckFailed, newKey; }
      if !Conforms(table.columns, row) { return InvalidValues, newKey; }
      var derived := NewKey(table, was, row, fallback);
      if derived.None? { return NullPrimaryKey, newKey; }
      newKey := derived.value;
      if !(was.Present? && newKey == was.key) && newKey in rows {
        assert Conflicts(table, rows, was, newKey, row);
        return Duplicate, newKey;
      }
      r := Written;
    }

    /** Removes the old row with its unique entries; the row stays when the new row takes its key. */
    method RemoveOld(was: Prior, newKey: Key, keep: bool)
      requires UniqueExact(table, rows, unique)
      requires was.Present? ==> was.key in rows && rows[was.key] == was.row
      modifies this`rows, this`unique
      ensures UniqueExact(table, Left(old(rows), was), unique)
      ensures rows == if was.Present? && !(keep && newKey == was.key) then old(rows) - {was.key} else old(rows)
    {
      if was.Present? {
        UniqueRemoved(table, rows, unique, was.key);
        DeleteUniqueEntries(was.row);
        if !keep || newKey != was.key { rows := rows - {was.key}; }
      }
    }

    /** The secondary entries follow the row change while rows and unique entries are still the old ones. */
    method MoveSecondary(was: Prior, newKey: Key, newRow: Option<Row>) returns (ok: bool)
      requires Valid()
      requires was.Present? ==> was.key in rows && rows[was.key] == was.row
      requires newRow.Some? ==> newKey !in Left(rows, was) && Conforms(table.columns, newRow.value)
      requires newRow.Some? ==> RowsConform(table, Left(rows, was)[newKey := newRow.value])
      modifies this`secondary
      ensures ok <==> (newRow.Some? ==> EntriesEncode(table, newRow.value))
      ensures RowsConform(table, Moved(rows, was, newKey, newRow))
      ensures ok ==> SecondaryExact(table, Moved(rows, was, newKey, newRow), secondary)
    {
      if was.Present? { StoredSlots(table, rows, secondary, was.key); }
      SecondaryRewritten(table, rows, secondary, was, newKey, newRow);
      ok := WriteSecondaryEntries(was, newKey, newRow);
    }

    /**
     The new row takes its unique entries and its place, unless another row owns one of the entries or it does not
     encode.
     */
    method InstallNew(was: Prior, newKey: Key, row: Row, ghost left: map<Key, Row>) returns (r: WriteResult)
      requires ValidTable(table) && UniqueExact(table, left, unique) && newKey !in left
      requires was.Present? ==> was.key !in left
      requires rows == left || (was.Present? && rows == left[newKey := was.row])
      modifies this`rows, this`unique
      ensures r == if !(UniqueSlots(table, row) !! old(unique).Keys) then Duplicate
                   else if !table.encodes(row) then EncodingFailed else Written
      ensures r.Written? ==> rows == left[newKey := row] && UniqueExact(table, rows, unique)
    {
      ghost var reduced := unique;
      var ok := PutUniqueEntries(was, newKey, row);
      if !ok { return Duplicate; }
      if !table.encodes(row) { return EncodingFailed; }
      UniqueAdded(table, left, reduced, newKey, row, unique);
      rows := rows[newKey := row];
      assert rows == left[newKey := row];
      r := Written;
    }

    /** writeVersionedRowUnchecked. A failed write may leave the maps half changed; see Apply. */
    method Write(was: Prior, newRow: Option<Row>, fallback: Key) returns (r: WriteResult)
      requires Valid()
      requires was.Present? ==> was.key in rows && rows[was.key] == was.row
      modifies this
      ensures r == Outcome(table, old(rows), was, newRow, fallback)
      ensures r.Written? ==> Valid() && rows == RowsAfter(table, old(rows), was, newRow, fallback)
    {
      var newKey := fallback;
      if newRow.Some? {
        r, newKey := CheckNewRow(was, newRow.value, fallback);
        if !r.Written? { return; }
      }
      ghost var left := Left(rows, was);
      var ok := MoveSecondary(was, newKey, newRow);
      if !ok { return EncodingFailed; }
      RemoveOld(was, newKey, newRow.Some?);
      if newRow.None? { return Written; }
      ConflictsFound(table, old(rows), was, unique, newKey, newRow.value);
      assert rows == left || (was.Present? && rows == left[newKey := was.row]);
      r := InstallNew(was, newKey, newRow.value, left);
    }

    /** One row write inside its statement: a failed statement discards its child transaction. */
    method Apply(was: Prior, newRow: Option<Row>, fallback: Key) returns (r: WriteResult)
      requires Valid()
      requires was.Present? ==> was.key in rows && rows[was.key] == was.row
      modifies this
      ensures Valid()
      ensures r == Outcome(table, old(rows), was, newRow, fallback)
      ensures r.Written? ==> rows == RowsAfter(table, old(rows), was, newRow, fallback)
      ensures !r.Written? ==> rows == old(rows) && unique == old(unique) && secondary == old(secondary)
    {
      var rows0, unique0, secondary0 := rows, unique, secondary;
      r := Write(was, newRow, fallback);
      if !r.Written? { rows, unique, secondary := rows0, unique0, secondary0; }
    }
  }

  // ----- the effect of the loops -------------------------------------------------------------

  /** Left over after the old row is taken away: what a new row can collide with. */
  function Left(rows: map<Key, Row>, was: Prior): map<Key, Row> {
    if was.Present? then rows - {was.key} else rows
  }

  function Moved(rows: map<Key, Row>, was: Prior, newKey: Key, newRow: Option<Row>): map<Key, Row> {
    if newRow.Some? then Left(rows, was)[newKey := newRow.value] else Left(rows, was)
  }

  /** The checks against the key map and the reduced unique map find exactly the conflicting rows. */
  lemma ConflictsFound(t: Table, rows: map<Key, Row>, was: Prior, left: map<Slot, Key>, newKey: Key, row: Row)
    requires UniqueExact(t, Left(rows, was), left)
    ensures Conflicts(t, rows, was, newKey, row) <==> newKey in Left(rows, was) || !(UniqueSlots(t, row) !! left.Keys)
  {
    if !(UniqueSlots(t, row) !! left.Keys) {
      var e :| e in UniqueSlots(t, row) && e in left;
      assert left[e] in Left(rows, was) && e in UniqueSlots(t, rows[left[e]]);
    }
    if Conflicts(t, rows, was, newKey, row) {
      var k :| k in rows && !(was.Present? && k == was.key)
               && (k == newKey || !(UniqueSlots(t, rows[k]) !! UniqueSlots(t, row)));
      if k != newKey {
        var e :| e in UniqueSlots(t, rows[k]) && e in UniqueSlots(t, row);
        assert k in Left(rows, was) && e in left;
      }
    }
  }

  /** The entries a stored row owns are in the map with their records. */
  lemma StoredSlots(t: Table, rows: map<Key, Row>, secondary: map<Slot, Covering>, k: Key)
    requires ValidTable(t) && RowsConform(t, rows) && SecondaryExact(t, rows, secondary) && k in rows
    ensures SlotsStored(t, k, rows[k], secondary)
  {
    forall i | 0 <= i < |t.indexes| && KeptSecondary(t, t.indexes[i])
      ensures var e := SlotOf(t.indexes[i], k, rows[k]);
              e in secondary && secondary[e] == CoveringOf(t, t.indexes[i], k, rows[k])
    {
      var e := SlotOf(t.indexes[i], k, rows[k]);
      SecondarySlotValue(t, k, rows[k], |t.indexes|, i);
      assert e in SecondarySlots(t, k, rows[k]);
    }
  }

  lemma {:induction false} SecondarySlotValue(t: Table, owner: Key, row: Row, n: nat, i: nat)
    requires ValidTable(t) && i < n <= |t.indexes| && |row| == |t.columns| && KeptSecondary(t, t.indexes[i])
    ensures SlotOf(t.indexes[i], owner, row) in SecondaryUpTo(t, owner, row, n)
    ensures SecondaryUpTo(t, owner, row, n)[SlotOf(t.indexes[i], owner, row)] == CoveringOf(t, t.indexes[i], owner, row)
  {
    if i < n - 1 { SecondarySlotValue(t, owner, row, n - 1, i); }
  }

  /** The whole rewriting keeps the secondary map a function of the rows. */
  lemma SecondaryRewritten(t: Table, rows: map<Key, Row>, secondary: map<Slot, Covering>,
                           was: Prior, newKey: Key, newRow: Option<Row>)
    requires ValidTable(t) && RowsConform(t, rows) && SecondaryExact(t, rows, secondary)
    requires was.Present? ==> was.key in rows && rows[was.key] == was.row
    requires newRow.Some? ==> newKey !in Left(rows, was) && Conforms(t.columns, newRow.value)
    requires newRow.Some? ==> RowsConform(t, Left(rows, was)[newKey := newRow.value])
    ensures RowsConform(t, Moved(rows, was, newKey, newRow))
    ensures SecondaryExact(t, Moved(rows, was, newKey, newRow),
            Rewritten(t, secondary, |t.indexes|, was, newKey, newRow))
  {
    var reached := Rewritten(t, secondary, |t.indexes|, was, newKey, newRow);
    var removed := secondary - (if was.Present? then SecondarySlots(t, was.key, was.row).Keys else {});
    if was.Present? { SecondaryRemoved(t, rows, secondary, was.key); }
    assert was.Absent? ==> removed == secondary;
    forall e {
      RewrittenMember(t, secondary, |t.indexes|, was, newKey, newRow, e);
    }
    if newRow.Some? {
      assert reached == removed + SecondarySlots(t, newKey, newRow.value);
      SecondaryAdded(t, Left(rows, was), removed, newKey, newRow.value);
    } else {
      assert reached == removed;
    }
  }

  ghost predicate SlotsStored(t: Table, owner: Key, row: Row, secondary: map<Slot, Covering>)
    requires |row| == |t.columns|
  {
    forall i :: 0 <= i < |t.indexes| && KeptSecondary(t, t.indexes[i]) ==>
      var e := SlotOf(t.indexes[i], owner, row);
      e in secondary && secondary[e] == CoveringOf(t, t.indexes[i], owner, row)
  }

  /** The secondary map after the entries of the first n indexes have been rewritten. */
  ghost function Rewritten(t: Table, before: map<Slot, Covering>, n: nat, was: Prior, newKey: Key, newRow: Option<Row>)
    : map<Slot, Covering>
    requires n <= |t.indexes|
    requires was.Present? ==> |was.row| == |t.columns|
    requires newRow.Some? ==> |newRow.value| == |t.columns|
  {
    if n == 0 then before
    else
      var index, reached := t.indexes[n - 1], Rewritten(t, before, n - 1, was, newKey, newRow);
      if !KeptSecondary(t, index) then reached
      else
        var removed := if was.Present? then reached - {SlotOf(index, was.key, was.row)} else reached;
        if newRow.Some?
        then removed[SlotOf(index, newKey, newRow.value) := CoveringOf(t, index, newKey, newRow.value)]
        else removed
  }

  /** Rewriting the first n indexes leaves the entries of a later index as they were. */
  lemma {:induction false} LaterIndexKept(t: Table, before: map<Slot, Covering>, n: nat, j: nat,
                                          was: Prior, newKey: Key, newRow: Option<Row>, key: Data)
    requires ValidTable(t) && n <= j < |t.indexes|
    requires was.Present? ==> |was.row| == |t.columns|
    requires newRow.Some? ==> |newRow.value| == |t.columns|
    ensures var e := (t.indexes[j].name, key);
            var reached := Rewritten(t, before, n, was, newKey, newRow);
            && (e in reached <==> e in before)
            && (e in before ==> reached[e] == before[e])
  {
    if n > 0 { LaterIndexKept(t, before, n - 1, j, was, newKey, newRow, key); }
  }

  /** Deleting an entry and putting back the same one changes nothing, which is why the loop may skip it. */
  lemma EntryUntouched(t: Table, before: map<Slot, Covering>, i: nat, was: Prior, newKey: Key, newRow: Row)
    requires ValidTable(t) && i < |t.indexes| && KeptSecondary(t, t.indexes[i])
    requires was.Present? && |was.row| == |t.columns| && |newRow| == |t.columns|
    requires SlotsStored(t, was.key, was.row, before)
    requires EntryKey(t.indexes[i], was.key, was.row) == EntryKey(t.indexes[i], newKey, newRow)
    requires CoveringOf(t, t.indexes[i], was.key, was.row) == CoveringOf(t, t.indexes[i], newKey, newRow)
    ensures Rewritten(t, before, i + 1, was, newKey, Some(newRow)) == Rewritten(t, before, i, was, newKey, Some(newRow))
  {
    var e := SlotOf(t.indexes[i], was.key, was.row);
    LaterIndexKept(t, before, i, i, was, newKey, Some(newRow), e.1);
  }

  /** After the whole loop: the old row's entries are gone and the new row's entries are there. */
  lemma {:induction false} RewrittenMember(t: Table, before: map<Slot, Covering>, n: nat,
                                           was: Prior, newKey: Key, newRow: Option<Row>, e: Slot)
    requires ValidTable(t) && n <= |t.indexes|
    requires was.Present? ==> |was.row| == |t.columns|
    requires newRow.Some? ==> |newRow.value| == |t.columns|
    ensures var reached := Rewritten(t, before, n, was, newKey, newRow);
            var gone := was.Present? && e in SecondaryUpTo(t, was.key, was.row, n);
            if newRow.Some? && e in SecondaryUpTo(t, newKey, newRow.value, n)
            then e in reached && reached[e] == SecondaryUpTo(t, newKey, newRow.value, n)[e]
            else (e in reached <==> e in before && !gone) && (e in reached ==> reached[e] == before[e])
  {
    if n > 0 {
      if e.0 == t.indexes[n - 1].name {
        RewrittenHere(t, before, n, was, newKey, newRow, e);
      } else {
        RewrittenMember(t, before, n - 1, was, newKey, newRow, e);
      }
    }
  }

  /** The step for an entry of the last rewritten index itself. */
  lemma RewrittenHere(t: Table, before: map<Slot, Covering>, n: nat, was: Prior, newKey: Key, newRow: Option<Row>,
                      e: Slot)
    requires ValidTable(t) && 0 < n <= |t.indexes| && e.0 == t.indexes[n - 1].name
    requires was.Present? ==> |was.row| == |t.columns|
    requires newRow.Some? ==> |newRow.value| == |t.columns|
    ensures var reached := Rewritten(t, before, n, was, newKey, newRow);
            var gone := was.Present? && e in SecondaryUpTo(t, was.key, was.row, n);
            if newRow.Some? && e in SecondaryUpTo(t, newKey, newRow.value, n)
            then e in reached && reached[e] == SecondaryUpTo(t, newKey, newRow.value, n)[e]
            else (e in reached <==> e in before && !gone) && (e in reached ==> reached[e] == before[e])
  {
    LaterIndexKept(t, before, n - 1, n - 1, was, newKey, newRow, e.1);
    if newRow.Some? { NotEarlier(t, newKey, newRow.value, n - 1, e); }
    if was.Present? { NotEarlier(t, was.key, was.row, n - 1, e); }
  }

  lemma NotEarlier(t: Table, owner: Key, row: Row, n: nat, e: Slot)
    requires ValidTable(t) && n < |t.indexes| && |row| == |t.columns| && e.0 == t.indexes[n].name
    ensures e !in SecondaryUpTo(t, owner, row, n)
  {
    SecondaryUpToMember(t, owner, row, n, e);
  }

  // ----- reading an index --------------------------------------------------------------------

  /** The owners a scan of one secondary index between a probe prefix and its successor visits. */
  ghost function ScanOwners(t: Table, secondary: map<Slot, Covering>, index: Index, probe: seq<Value>): set<Key> {
    set e | e in secondary && e.0 == index.name && InPrefixRange(Entry(probe, []), e.1) :: secondary[e].owner
  }

  ghost predicate Probes(t: Table, index: Index, probe: seq<Value>)
    requires KeptSecondary(t, index)
  {
    |probe| <= |index.columns| && IndexableAll(ColumnTypes(t, index.columns)[..|probe|], probe)
  }

  lemma EntryInProbe(t: Table, index: Index, probe: seq<Value>, k: Key, row: Row)
    requires KeptSecondary(t, index) && Probes(t, index, probe) && Conforms(t.columns, row)
    ensures InPrefixRange(Entry(probe, []), EntryKey(index, k, row)) <==> Pick(row, index.columns)[..|probe|] == probe
  {
    PickIndexable(t, index, row);
    PrefixRange(Entry(probe, []), EntryKey(index, k, row));
    ProbePrefix(ColumnTypes(t, index.columns), probe, Pick(row, index.columns), k);
  }

  /**
   scanSecondary: the range scan visits exactly the rows whose leading indexed columns equal the probe, so
   scanning it and filtering is the same as filtering the whole table, for every filter that implies the probe.
   */
  lemma SecondaryScanExact(t: Table, rows: map<Key, Row>, secondary: map<Slot, Covering>,
                           i: nat, probe: seq<Value>, filter: Row -> bool)
    requires ValidTable(t) && RowsConform(t, rows) && SecondaryExact(t, rows, secondary)
    requires i < |t.indexes| && KeptSecondary(t, t.indexes[i]) && Probes(t, t.indexes[i], probe)
    requires forall k :: k in rows && filter(rows[k]) ==> Pick(rows[k], t.indexes[i].columns)[..|probe|] == probe
    ensures ScanOwners(t, secondary, t.indexes[i], probe)
            == set k | k in rows && Pick(rows[k], t.indexes[i].columns)[..|probe|] == probe
    ensures (set k | k in ScanOwners(t, secondary, t.indexes[i], probe) && k in rows && filter(rows[k]))
            == set k | k in rows && filter(rows[k])
  {
    var index := t.indexes[i];
    forall k | k in rows && Pick(rows[k], index.columns)[..|probe|] == probe
      ensures k in ScanOwners(t, secondary, index, probe)
    {
      StoredSlots(t, rows, secondary, k);
      EntryInProbe(t, index, probe, k, rows[k]);
      var e := SlotOf(index, k, rows[k]);
      assert e in secondary && secondary[e].owner == k;
    }
    forall k | k in ScanOwners(t, secondary, index, probe)
      ensures k in rows && Pick(rows[k], index.columns)[..|probe|] == probe
    {
      var e :| e in secondary && e.0 == index.name && InPrefixRange(Entry(probe, []), e.1) && secondary[e].owner == k;
      SecondaryUpToMember(t, k, rows[k], |t.indexes|, e);
      var j :| 0 <= j < |t.indexes| && KeptSecondary(t, t.indexes[j]) && e == SlotOf(t.indexes[j], k, rows[k]);
      assert j == i;
      EntryInProbe(t, index, probe, k, rows[k]);
    }
  }

  /** A covering read of an entry agrees with the row on every covered column. */
  lemma CoveringAgrees(t: Table, rows: map<Key, Row>, secondary: map<Slot, Covering>, i: nat, k: Key, c: nat)
    requires ValidTable(t) && RowsConform(t, rows) && SecondaryExact(t, rows, secondary)
    requires i < |t.indexes| && KeptSecondary(t, t.indexes[i]) && k in rows && c < |t.columns|
    requires Covered(t, t.indexes[i], c)
    ensures var e := SlotOf(t.indexes[i], k, rows[k]);
            e in secondary && secondary[e].owner == k && |secondary[e].row| == |t.columns|
              && secondary[e].row[c] == rows[k][c]
  {
    StoredSlots(t, rows, secondary, k);
  }

  lemma OnlyPrimary(t: Table, c: nat)
    requires ValidTable(t) && (PrimaryIndex(t).Some? ==> c !in PrimaryIndex(t).value.columns)
    ensures forall j :: 0 <= j < |t.indexes| && t.indexes[j].primary ==> c !in t.indexes[j].columns
  {
    if PrimaryIndex(t).Some? { var j :| 0 <= j < |t.indexes| && t.indexes[j] == PrimaryIndex(t).value; }
  }

  /** And it stores nothing of a column that is neither indexed nor part of the primary key. */
  lemma CoveringOmits(t: Table, rows: map<Key, Row>, secondary: map<Slot, Covering>, i: nat, k: Key, c: nat)
    requires ValidTable(t) && RowsConform(t, rows) && SecondaryExact(t, rows, secondary)
    requires i < |t.indexes| && KeptSecondary(t, t.indexes[i]) && k in rows && c < |t.columns|
    requires c !in t.indexes[i].columns && (PrimaryIndex(t).Some? ==> c !in PrimaryIndex(t).value.columns)
    ensures var e := SlotOf(t.indexes[i], k, rows[k]);
            e in secondary && |secondary[e].row| == |t.columns| && secondary[e].row[c].Null?
  {
    assert !Covered(t, t.indexes[i], c) by { OnlyPrimary(t, c); }
    StoredSlots(t, rows, secondary, k);
  }

  /** Every record an index stores encodes, as every stored row does. */
  lemma StoredRecordsEncode(t: Table, rows: map<Key, Row>, secondary: map<Slot, Covering>, e: Slot)
    requires ValidTable(t) && RowsConform(t, rows) && SecondaryExact(t, rows, secondary) && RowsEncode(t, rows)
    requires e in secondary
    ensures secondary[e].owner in rows && t.encodes(rows[secondary[e].owner]) && t.encodes(secondary[e].row)
  {
    var k := secondary[e].owner;
    StoredSlots(t, rows, secondary, k);
    SecondaryUpToMember(t, k, rows[k], |t.indexes|, e);
    var i :| 0 <= i < |t.indexes| && KeptSecondary(t, t.indexes[i]) && e == SlotOf(t.indexes[i], k, rows[k]);
    assert EntryEncodes(t, t.indexes[i], rows[k]);
  }

  /** The bytes of a covering record: a 16-bit owner length, the owner and the encoded columns. */
  function CoveringBytes(owner: Key, encoded: Data): Data { BigEndian(|owner| % 0x1_0000, 2) + owner + encoded }

  function CoveringOwner(value: Data): Option<Key> {
    if |value| < 2 then None
    else
      var n := FromBigEndian(value[..2]);
      if n > |value| - 2 then None else Some(value[2..2 + n])
  }

  /** The record names its owner exactly when the owner's length fits the 16-bit header. */
  lemma CoveringOwnerExact(owner: Key, encoded: Data)
    ensures CoveringOwner(CoveringBytes(owner, encoded)) == Some(owner) <==> |owner| < 0x1_0000
  {
    var value := CoveringBytes(owner, encoded);
    var n := |owner| % 0x1_0000;
    assert Pow256(2) == 0x1_0000 by { assert Pow256(1) == 256; }
    BigEndianRoundTrip(n, 2);
    assert value[..2] == BigEndian(n, 2);
    assert value[2..2 + n] == owner[..n];
    if |owner| < 0x1_0000 { assert owner[..n] == owner; }
  }

  /** mvcc accepts no longer key. */
  const MAX_KEY_BYTES := 8192

  /** Row keys are far shorter than the header allows, so every covering record gives back its owner and its columns. */
  lemma StoredCoveringRoundTrip(owner: Key, encoded: Data)
    requires |owner| <= MAX_KEY_BYTES
    ensures CoveringOwner(CoveringBytes(owner, encoded)) == Some(owner)
    ensures CoveringBytes(owner, encoded)[2 + |owner|..] == encoded
  {
    CoveringOwnerExact(owner, encoded);
    var header := BigEndian(|owner| % 0x1_0000, 2);
    assert header + owner + encoded == (header + owner) + encoded;
  }
}
