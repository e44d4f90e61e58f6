/**
 The lock components of row mutations: what UPDATE, DELETE and INSERT claim before they write, and the proof
 that the claims cover every entry the writer touches and carry insert intentions on exactly the new keys.
 */
module LockClaims {
  import opened Wrappers
  import opened Bytes
  import opened Schema
  import opened IndexMaintenance

  datatype Mode = X | S | IX | IS | Gap | InsertIntention

  /** The sqllayout namespaces of one table: its rows, its unique indexes and its secondary indexes. */
  datatype Space =
    | Rows(table: string)
    | UniqueIndex(table: string, index: string)
    | SecondaryIndex(table: string, index: string)

  datatype Component =
    | TableIntent(mode: Mode, table: string)
    | Record(mode: Mode, space: Space, key: Data)
    | Interval(space: Space, lower: Option<Data>, upper: Option<Data>, lowerInclusive: bool, upperInclusive: bool)

  // ----- builders ----------------------------------------------------------------------------

  function IntentionOn(space: Space, key: Data): seq<Component> {
    if key == [] then [] else [Record(InsertIntention, space, key)]
  }

  /** indexEntryIdentity: the namespace and key of one index's entry, if it has one. */
  function EntryIdentity(t: Table, index: Index, owner: Key, row: Row): Option<(Space, Data)> {
    if index.unique then
      match t.valueKey(index, row)
      case None => None
      case Some(k) => Some((UniqueIndex(t.id, index.name), k))
    else if KeptSecondary(t, index) && InRange(index.columns, |row|) then
      Some((SecondaryIndex(t.id, index.name), EntryKey(index, owner, row)))
    else
      None
  }

  function EntryClaim(space: Space, key: Data, inserting: bool): seq<Component> {
    (if inserting then IntentionOn(space, key) else []) + [Record(X, space, key)]
  }

  /** The claims for the entries of the first n indexes; `isNew` decides which carry an intention. */
  function EntriesUpTo(t: Table, owner: Key, row: Row, isNew: Index -> bool, n: nat): seq<Component>
    requires n <= |t.indexes|
  {
    if n == 0 then [] else
      var index, rest := t.indexes[n - 1], EntriesUpTo(t, owner, row, isNew, n - 1);
      if index.primary then rest
      else match EntryIdentity(t, index, owner, row)
        case None => rest
        case Some(identity) => rest + EntryClaim(identity.0, identity.1, isNew(index))
  }

  /**
   indexEntryLocks: every index entry of one row, with intentions when the row is being created. It fails when the
   columns of a secondary entry do not encode.
   */
  method IndexEntryLocks(t: Table, owner: Key, row: Option<Row>, inserting: bool) returns (r: Option<seq<Component>>)
    ensures row.None? || owner == [] ==> r == Some([])
    ensures row.Some? && owner != [] ==>
              r == if EntriesEncode(t, row.value)
                   then Some(EntriesUpTo(t, owner, row.value, _ => inserting, |t.indexes|)) else None
  {
    if row.None? || owner == [] { return Some([]); }
    var row, components := row.value, [];
    for i := 0 to |t.indexes|
      invariant components == EntriesUpTo(t, owner, row, _ => inserting, i)
      invariant forall j :: 0 <= j < i ==> EntryEncodes(t, t.indexes[j], row)
    {
      var index := t.indexes[i];
      if index.primary { continue; }
      if !EntryEncodes(t, index, row) { return None; }
      var identity := EntryIdentity(t, index, owner, row);
      if identity.None? { continue; }
      components := components + EntryClaim(identity.value.0, identity.value.1, inserting);
    }
    return Some(components);
  }

  /** An entry of the replacement is a new key unless the old row already had it. */
  function IsNewEntry(t: Table, oldKey: Key, oldRow: Row, newKey: Key, updated: Row): Index -> bool {
    (index: Index) => EntryIdentity(t, index, oldKey, oldRow) != EntryIdentity(t, index, newKey, updated)
  }

  /** Without an old row, or an old key, every entry of the replacement is new. */
  function NewAgainst(t: Table, oldKey: Key, oldRow: Option<Row>, newKey: Key, updated: Row): Index -> bool {
    if oldRow.None? || oldKey == [] then _ => true else IsNewEntry(t, oldKey, oldRow.value, newKey, updated)
  }

  /** The entries of both rows encode, as far as the comparison looks at them. */
  ghost predicate BothEncode(t: Table, oldKey: Key, oldRow: Option<Row>, updated: Row) {
    EntriesEncode(t, updated) && (oldRow.Some? && oldKey != [] ==> EntriesEncode(t, oldRow.value))
  }

  /** indexReplacementLocks: the entries an UPDATE installs, with intentions on the new keys only. */
  method IndexReplacementLocks(t: Table, oldKey: Key, newKey: Key, oldRow: Option<Row>, updated: Option<Row>)
    returns (r: Option<seq<Component>>)
    ensures updated.None? || newKey == [] ==> r == Some([])
    ensures updated.Some? && newKey != [] ==>
              r == if BothEncode(t, oldKey, oldRow, updated.value)
                   then Some(EntriesUpTo(t, newKey, updated.value,
                     NewAgainst(t, oldKey, oldRow, newKey, updated.value), |t.indexes|))
                   else None
  {
    if updated.None? || newKey == [] { return Some([]); }
    var updated, components, compared := updated.value, [], oldRow.Some? && oldKey != [];
    ghost var isNew := NewAgainst(t, oldKey, oldRow, newKey, updated);
    for i := 0 to |t.indexes|
      invariant components == EntriesUpTo(t, newKey, updated, isNew, i)
      invariant forall j :: 0 <= j < i ==> EntryEncodes(t, t.indexes[j], updated)
      invariant compared ==> forall j :: 0 <= j < i ==> EntryEncodes(t, t.indexes[j], oldRow.value)
    {
      var index := t.indexes[i];
      if index.primary { continue; }
      if !EntryEncodes(t, index, updated) { return None; }
      if compared && !EntryEncodes(t, index, oldRow.value) { return None; }
      var identity := EntryIdentity(t, index, newKey, updated);
      if identity.None? { continue; }
      var inserting := true;
      if compared {
        var previous := EntryIdentity(t, index, oldKey, oldRow.value);
        inserting := previous.None? || previous.value.1 != identity.value.1;
      }
      components := components + EntryClaim(identity.value.0, identity.value.1, inserting);
    }
    return Some(components);
  }

  /** acquireRowLocksForKey: the table intention, the row, and the index components. */
  function RowLocks(t: Table, key: Key, extra: seq<Component>): seq<Component> {
    [TableIntent(IX, t.id), Record(X, Rows(t.id), key)] + extra
  }

  /** The components of claimModifyTarget. */
  function TargetClaim(t: Table, key: Key, oldRow: Row): seq<Component> {
    RowLocks(t, key, EntriesUpTo(t, key, oldRow, _ => false, |t.indexes|))
  }

  /** The key an UPDATE moves the row to: unchanged when the primary key cannot be derived. */
  function MovedKey(t: Table, oldKey: Key, updated: Row): Key {
    match PrimaryKey(t, updated)
    case None => oldKey
    case Some(key) => if key == [] then oldKey else key
  }

  /** The components of claimModifyReplacement. */
  function ReplacementClaim(t: Table, oldKey: Key, oldRow: Row, updated: Row): seq<Component> {
    var newKey := MovedKey(t, oldKey, updated);
    RowLocks(t, newKey,
             EntriesUpTo(t, newKey, updated, IsNewEntry(t, oldKey, oldRow, newKey, updated), |t.indexes|)
             + if newKey != oldKey then IntentionOn(Rows(t.id), newKey) else [])
  }

  /** The components of lockCandidate, for a row inserted under `key`. */
  function InsertClaim(t: Table, key: Key, row: Row): seq<Component> {
    RowLocks(t, key, EntriesUpTo(t, key, row, _ => true, |t.indexes|) + IntentionOn(Rows(t.id), key))
  }

  // ----- what the components contain ---------------------------------------------------------

  /** A component list claims an entry of one of the first n non-primary indexes in one of two modes. */
  lemma {:induction false} EntriesMember(t: Table, owner: Key, row: Row, isNew: Index -> bool, n: nat, space: Space,
                                         key: Data)
    requires n <= |t.indexes|
    ensures Record(X, space, key) in EntriesUpTo(t, owner, row, isNew, n) <==>
            exists i :: 0 <= i < n && !t.indexes[i].primary
              && EntryIdentity(t, t.indexes[i], owner, row) == Some((space, key))
    ensures Record(InsertIntention, space, key) in EntriesUpTo(t, owner, row, isNew, n) <==>
            key != [] && exists i :: 0 <= i < n && !t.indexes[i].primary && isNew(t.indexes[i])
                                     && EntryIdentity(t, t.indexes[i], owner, row) == Some((space, key))
  {
    if n > 0 {
      EntriesMember(t, owner, row, isNew, n - 1, space, key);
      var index := t.indexes[n - 1];
      var identity := EntryIdentity(t, index, owner, row);
      if !index.primary && identity.Some? {
        var rest := EntriesUpTo(t, owner, row, isNew, n - 1);
        var claim := EntryClaim(identity.value.0, identity.value.1, isNew(index));
        assert forall c :: c in rest + claim <==> c in rest || c in claim;
      }
    }
  }

  // ----- coverage ----------------------------------------------------------------------------

  /** Value keys are never empty: each indexed column contributes at least its type tag. */
  ghost predicate NonEmptyKeys(t: Table) {
    forall index: Index, row: Row :: t.valueKey(index, row) != Some([])
  }

  /** A row stored under `owner` has this entry: its own row record or one of its index entries. */
  ghost predicate EntryOf(t: Table, owner: Key, row: Row, space: Space, key: Data) {
    match space
    case Rows(id) => id == t.id && key == owner
    case UniqueIndex(id, name) => id == t.id && (name, key) in UniqueSlots(t, row)
    case SecondaryIndex(id, name) => id == t.id && |row| == |t.columns| && (name, key) in SecondarySlots(t, owner, row)
  }

  /** The namespace of the primary index's own entries, which the row key stands for. */
  predicate PrimarySpace(t: Table, space: Space) {
    space.UniqueIndex? && PrimaryIndex(t).Some? && space.index == PrimaryIndex(t).value.name
  }

  /** Only the primary index has entries there: the space of every other index is outside. */
  lemma OtherSpaces(t: Table, i: nat, table: string)
    requires ValidTable(t) && i < |t.indexes|
    ensures PrimarySpace(t, UniqueIndex(table, t.indexes[i].name)) <==> t.indexes[i].primary
    ensures !PrimarySpace(t, SecondaryIndex(table, t.indexes[i].name)) && !PrimarySpace(t, Rows(table))
  {
    if t.indexes[i].primary { PrimaryIsThis(t, i); }
    if PrimaryIndex(t).Some? { var j :| 0 <= j < |t.indexes| && t.indexes[j] == PrimaryIndex(t).value; }
  }

  /** Outside the primary index, having an entry is having a claimable identity for it. */
  lemma EntryHasIdentity(t: Table, owner: Key, row: Row, space: Space, key: Data)
    requires ValidTable(t) && |row| == |t.columns| && !space.Rows? && !PrimarySpace(t, space)
    ensures EntryOf(t, owner, row, space, key) <==>
            exists i :: 0 <= i < |t.indexes| && !t.indexes[i].primary
                        && EntryIdentity(t, t.indexes[i], owner, row) == Some((space, key))
  {
    if space.UniqueIndex? {
      UniqueUpToMember(t, row, |t.indexes|, (space.index, key));
      if exists i :: 0 <= i < |t.indexes| && KeptUnique(t, t.indexes[i]) && space.index == t.indexes[i].name
                     && t.valueKey(t.indexes[i], row) == Some(key)
      {
        var i :| 0 <= i < |t.indexes| && KeptUnique(t, t.indexes[i]) && space.index == t.indexes[i].name
                 && t.valueKey(t.indexes[i], row) == Some(key);
        if t.indexes[i].primary { PrimaryIsThis(t, i); }
        assert space.table == t.id ==> EntryIdentity(t, t.indexes[i], owner, row) == Some((space, key));
      }
    } else {
      SecondaryUpToMember(t, owner, row, |t.indexes|, (space.index, key));
      forall i | 0 <= i < |t.indexes| && KeptSecondary(t, t.indexes[i])
                 && (space.index, key) == SlotOf(t.indexes[i], owner, row) && space.table == t.id
        ensures EntryIdentity(t, t.indexes[i], owner, row) == Some((space, key)) {}
    }
  }

  lemma PrimaryIsThis(t: Table, i: nat)
    requires ValidTable(t) && i < |t.indexes| && t.indexes[i].primary
    ensures PrimaryIndex(t) == Some(t.indexes[i])
  {
    var found := PrimaryIndex(t);
    var j :| 0 <= j < |t.indexes| && t.indexes[j] == found.value;
  }

  /** An entry is covered by an exclusive record of its own or, for a primary entry, of its row. */
  ghost predicate CoveredBy(t: Table, components: seq<Component>, owner: Key, space: Space, key: Data) {
    Record(X, space, key) in components || (PrimarySpace(t, space) && Record(X, Rows(t.id), owner) in components)
  }

  /** Row locks with the row's index entries cover every entry the row has. */
  lemma RowLocksCover(t: Table, owner: Key, row: Row, isNew: Index -> bool, more: seq<Component>, space: Space,
                      key: Data)
    requires ValidTable(t) && |row| == |t.columns| && EntryOf(t, owner, row, space, key)
    ensures CoveredBy(t, RowLocks(t, owner, EntriesUpTo(t, owner, row, isNew, |t.indexes|) + more), owner, space, key)
  {
    var entries := EntriesUpTo(t, owner, row, isNew, |t.indexes|);
    var locks := RowLocks(t, owner, entries + more);
    assert locks[1] == Record(X, Rows(t.id), owner);
    if !space.Rows? && !PrimarySpace(t, space) {
      EntryHasIdentity(t, owner, row, space, key);
      EntriesMember(t, owner, row, isNew, |t.indexes|, space, key);
      var at :| 0 <= at < |entries| && entries[at] == Record(X, space, key);
      assert locks[at + 2] == entries[at];
    }
  }

  /**
   Every row key, unique entry and secondary entry an UPDATE or a DELETE touches belongs to the old row or to
   its replacement, and is covered by the claims taken for them.
   */
  lemma ModifyClaimsCover(t: Table, oldKey: Key, oldRow: Row, updated: Option<Row>, newKey: Key, space: Space,
                          key: Data)
    requires ValidTable(t) && NonEmptyKeys(t) && |oldRow| == |t.columns|
    requires updated.Some? ==> |updated.value| == |t.columns|
    requires updated.Some? ==> NewKey(t, Present(oldKey, oldRow), updated.value, []) == Some(newKey)
    ensures EntryOf(t, oldKey, oldRow, space, key) ==> CoveredBy(t, TargetClaim(t, oldKey, oldRow), oldKey, space, key)
    ensures updated.Some? && EntryOf(t, newKey, updated.value, space, key) ==>
              CoveredBy(t, ReplacementClaim(t, oldKey, oldRow, updated.value), newKey, space, key)
  {
    if EntryOf(t, oldKey, oldRow, space, key) {
      RowLocksCover(t, oldKey, oldRow, _ => false, [], space, key);
      var entries := EntriesUpTo(t, oldKey, oldRow, _ => false, |t.indexes|);
      assert entries + [] == entries;
    }
    if updated.Some? && EntryOf(t, newKey, updated.value, space, key) {
      WrittenKey(t, oldKey, oldRow, updated.value, newKey);
      RowLocksCover(t, newKey, updated.value, IsNewEntry(t, oldKey, oldRow, newKey, updated.value),
                    if newKey != oldKey then IntentionOn(Rows(t.id), newKey) else [], space, key);
    }
  }

  /** The key the replacement is claimed under is the key the writer stores it under. */
  lemma WrittenKey(t: Table, oldKey: Key, oldRow: Row, updated: Row, newKey: Key)
    requires ValidTable(t) && NonEmptyKeys(t)
    requires NewKey(t, Present(oldKey, oldRow), updated, []) == Some(newKey)
    ensures MovedKey(t, oldKey, updated) == newKey
    ensures oldKey != [] ==> newKey != []
  {
    if PrimaryIndex(t).Some? && !t.integerKey {
      assert t.valueKey(PrimaryIndex(t).value, updated) != Some([]);
    }
  }

  // ----- insert intentions -------------------------------------------------------------------

  /** Some stored row has this entry. */
  ghost predicate HasEntry(t: Table, rows: map<Key, Row>, space: Space, key: Data) {
    exists k :: k in rows && EntryOf(t, k, rows[k], space, key)
  }

  /** Entries a successful write adds: the new row's entries that the old row did not have. */
  lemma CreatedEntries(t: Table, rows: map<Key, Row>, was: Prior, newKey: Key, row: Row, space: Space, key: Data)
    requires ValidTable(t) && RowsConform(t, rows) && Conforms(t.columns, row) && !PrimarySpace(t, space)
    requires was.Present? ==> was.key in rows && rows[was.key] == was.row
    requires !Conflicts(t, rows, was, newKey, row)
    ensures HasEntry(t, Left(rows, was)[newKey := row], space, key) && !HasEntry(t, rows, space, key) <==>
            EntryOf(t, newKey, row, space, key) && !(was.Present? && EntryOf(t, was.key, was.row, space, key))
  {
    var after := Left(rows, was)[newKey := row];
    if EntryOf(t, newKey, row, space, key) {
      assert after[newKey] == row;
      if HasEntry(t, rows, space, key) {
        var k :| k in rows && EntryOf(t, k, rows[k], space, key);
        if !(was.Present? && k == was.key) { NoForeignEntry(t, rows, was, newKey, row, k, space, key); }
      }
      if was.Present? && EntryOf(t, was.key, was.row, space, key) { assert HasEntry(t, rows, space, key); }
    } else if HasEntry(t, after, space, key) {
      var k :| k in after && EntryOf(t, k, after[k], space, key);
      assert k in rows && rows[k] == after[k];
    }
  }

  /** The entries a successful write creates are those of the new row that the old row did not have. */
  lemma CreatedByWrite(t: Table, rows: map<Key, Row>, was: Prior, newKey: Key, row: Row, fallback: Key, space: Space,
                       key: Data)
    requires ValidTable(t) && RowsConform(t, rows) && !PrimarySpace(t, space)
    requires was.Present? ==> was.key in rows && rows[was.key] == was.row
    requires NewKey(t, was, row, fallback) == Some(newKey) && Outcome(t, rows, was, Some(row), fallback) == Written
    ensures Conforms(t.columns, row)
    ensures HasEntry(t, RowsAfter(t, rows, was, Some(row), fallback), space, key) && !HasEntry(t, rows, space, key) <==>
            EntryOf(t, newKey, row, space, key) && !(was.Present? && EntryOf(t, was.key, was.row, space, key))
  {
    CreatedEntries(t, rows, was, newKey, row, space, key);
  }

  /** A row that does not conflict shares no entry with any other row. */
  lemma NoForeignEntry(t: Table, rows: map<Key, Row>, was: Prior, newKey: Key, row: Row, k: Key, space: Space,
                       key: Data)
    requires ValidTable(t) && RowsConform(t, rows) && Conforms(t.columns, row)
    requires !Conflicts(t, rows, was, newKey, row)
    requires k in rows && !(was.Present? && k == was.key)
    ensures !(EntryOf(t, newKey, row, space, key) && EntryOf(t, k, rows[k], space, key))
  {
    assert k != newKey && UniqueSlots(t, rows[k]) !! UniqueSlots(t, row);
    if space.SecondaryIndex? && EntryOf(t, newKey, row, space, key) && EntryOf(t, k, rows[k], space, key) {
      SecondaryDisjoint(t, newKey, row, k, rows[k], (space.index, key));
    }
  }

  lemma EntryNotEmpty(t: Table, owner: Key, row: Row, space: Space, key: Data)
    requires ValidTable(t) && NonEmptyKeys(t) && |row| == |t.columns| && owner != []
    requires EntryOf(t, owner, row, space, key)
    ensures key != []
  {
    if space.UniqueIndex? {
      UniqueUpToMember(t, row, |t.indexes|, (space.index, key));
    } else if space.SecondaryIndex? {
      SecondaryUpToMember(t, owner, row, |t.indexes|, (space.index, key));
    }
  }

  /**
   A successful UPDATE carries an insert intention on exactly the keys it newly creates: no entry it rewrites
   in place is claimed as an insertion, and no new key goes without the intention.
   */
  lemma UpdateIntentionsExact(t: Table, rows: map<Key, Row>, oldKey: Key, updated: Row, newKey: Key, space: Space,
                              key: Data)
    requires ValidTable(t) && NonEmptyKeys(t) && RowsConform(t, rows)
    requires oldKey in rows && oldKey != []
    requires Outcome(t, rows, Present(oldKey, rows[oldKey]), Some(updated), []) == Written
    requires NewKey(t, Present(oldKey, rows[oldKey]), updated, []) == Some(newKey)
    requires !PrimarySpace(t, space)
    ensures Record(InsertIntention, space, key) in TargetClaim(t, oldKey, rows[oldKey])
            + ReplacementClaim(t, oldKey, rows[oldKey], updated)
            <==> HasEntry(t, RowsAfter(t, rows, Present(oldKey, rows[oldKey]), Some(updated), []), space, key)
                 && !HasEntry(t, rows, space, key)
  {
    var oldRow := rows[oldKey];
    var was := Present(oldKey, oldRow);
    var isNew := IsNewEntry(t, oldKey, oldRow, newKey, updated);
    WrittenKey(t, oldKey, oldRow, updated, newKey);
    CreatedByWrite(t, rows, was, newKey, updated, [], space, key);
    EntriesMember(t, oldKey, oldRow, _ => false, |t.indexes|, space, key);
    EntriesMember(t, newKey, updated, isNew, |t.indexes|, space, key);
    if space.Rows? {
      NoEntryInRows(t, newKey, updated, isNew, |t.indexes|, space, key);
    } else {
      EntryHasIdentity(t, newKey, updated, space, key);
      EntryHasIdentity(t, oldKey, oldRow, space, key);
      if EntryOf(t, newKey, updated, space, key) { EntryNotEmpty(t, newKey, updated, space, key); }
      IntentionIffNew(t, oldKey, oldRow, newKey, updated, space, key);
    }
  }

  lemma {:induction false} NoEntryInRows(t: Table, owner: Key, row: Row, isNew: Index -> bool, n: nat, space: Space,
                                         key: Data)
    requires n <= |t.indexes| && space.Rows?
    ensures Record(InsertIntention, space, key) !in EntriesUpTo(t, owner, row, isNew, n)
  {
    EntriesMember(t, owner, row, isNew, n, space, key);
  }

  lemma IntentionIffNew(t: Table, oldKey: Key, oldRow: Row, newKey: Key, updated: Row, space: Space, key: Data)
    requires ValidTable(t)
    ensures (exists i :: 0 <= i < |t.indexes| && !t.indexes[i].primary
                         && IsNewEntry(t, oldKey, oldRow, newKey, updated)(t.indexes[i])
                         && EntryIdentity(t, t.indexes[i], newKey, updated) == Some((space, key)))
            <==> (exists i :: 0 <= i < |t.indexes| && !t.indexes[i].primary
                              && EntryIdentity(t, t.indexes[i], newKey, updated) == Some((space, key)))
                 && !(exists i :: 0 <= i < |t.indexes| && !t.indexes[i].primary
                                  && EntryIdentity(t, t.indexes[i], oldKey, oldRow) == Some((space, key)))
  {
    forall i, j | 0 <= i < |t.indexes| && 0 <= j < |t.indexes|
                  && EntryIdentity(t, t.indexes[i], newKey, updated) == Some((space, key))
                  && EntryIdentity(t, t.indexes[j], oldKey, oldRow) == Some((space, key))
      ensures i == j
    {
      assert t.indexes[i].name == t.indexes[j].name;
    }
  }

  /** The same for INSERT: every key of the new row is claimed with an intention and nothing else is. */
  lemma InsertIntentionsExact(t: Table, rows: map<Key, Row>, row: Row, fallback: Key, newKey: Key, space: Space,
                              key: Data)
    requires ValidTable(t) && NonEmptyKeys(t) && RowsConform(t, rows)
    requires Outcome(t, rows, Absent, Some(row), fallback) == Written
    requires NewKey(t, Absent, row, fallback) == Some(newKey) && fallback != []
    requires !PrimarySpace(t, space)
    ensures Record(InsertIntention, space, key) in InsertClaim(t, newKey, row)
            <==> HasEntry(t, RowsAfter(t, rows, Absent, Some(row), fallback), space, key)
                 && !HasEntry(t, rows, space, key)
  {
    CreatedByWrite(t, rows, Absent, newKey, row, fallback, space, key);
    if PrimaryIndex(t).Some? && !t.integerKey { assert t.valueKey(PrimaryIndex(t).value, row) != Some([]); }
    EntriesMember(t, newKey, row, _ => true, |t.indexes|, space, key);
    if !space.Rows? {
      EntryHasIdentity(t, newKey, row, space, key);
      if EntryOf(t, newKey, row, space, key) { EntryNotEmpty(t, newKey, row, space, key); }
    }
  }

  /** A DELETE claims no insertion, and it creates no entry. */
  lemma DeleteIntentionsExact(t: Table, rows: map<Key, Row>, oldKey: Key, space: Space, key: Data)
    requires ValidTable(t) && oldKey in rows
    ensures Record(InsertIntention, space, key) !in TargetClaim(t, oldKey, rows[oldKey])
    ensures HasEntry(t, rows - {oldKey}, space, key) ==> HasEntry(t, rows, space, key)
  {
    EntriesMember(t, oldKey, rows[oldKey], _ => false, |t.indexes|, space, key);
    if HasEntry(t, rows - {oldKey}, space, key) {
      var k :| k in rows - {oldKey} && EntryOf(t, k, (rows - {oldKey})[k], space, key);
      assert EntryOf(t, k, rows[k], space, key);
    }
  }
}
