/**
 Locked UPDATE, DELETE and INSERT as a transition system: transactions with snapshots and overlays, exclusive
 locks held to the end, claims followed by verification under the claim, and commits that publish an overlay.
 */
module LockedDml {
  import opened Wrappers
  import opened Bytes
  import opened Schema
  import opened IndexMaintenance
  import opened LockClaims

  // ----- data --------------------------------------------------------------------------------

  /** Rows and unique reservations; an owner is the key of the row that holds the value. */
  datatype Db = Db(rows: map<Key, Row>, owners: map<Slot, Key>)

  /** Uncommitted writes of one transaction; None is a deletion. */
  datatype Overlay = Overlay(rows: map<Key, Option<Row>>, owners: map<Slot, Option<Key>>)

  const NO_WRITES := Overlay(map[], map[])

  function RowIn(db: Db, ov: Overlay, k: Key): Option<Row> {
    if k in ov.rows then ov.rows[k] else if k in db.rows then Some(db.rows[k]) else None
  }

  function OwnerIn(db: Db, ov: Overlay, e: Slot): Option<Key> {
    if e in ov.owners then ov.owners[e] else if e in db.owners then Some(db.owners[e]) else None
  }

  type Resource = (Space, Data)

  datatype Phase =
    | Idle
    | TargetClaimed(key: Key, row: Row)
    | TargetVerified(key: Key, row: Row)
    | ReplacementClaimed(key: Key, row: Row, newKey: Key, updated: Row)
    | ReplacementVerified(key: Key, row: Row, newKey: Key, updated: Row)
    | InsertClaimed(key: Key, row: Row)
    | InsertVerified(key: Key, row: Row)
    | Failed   // the statement reported a permanent error and has to be rolled back
    | Doomed   // the statement met a newer version: the whole transaction has to be retried

  /**
   A transaction. `view` is what its current statement reads; `saved` are the overlays its open statement and
   savepoints can return to; `basis` records, per row key, the view under which a published row was verified.
   */
  datatype Txn = Txn(
    snapshot: nat, readCommitted: bool, view: nat,
    overlay: Overlay, saved: seq<Overlay>,
    locks: set<Resource>, phase: Phase, basis: map<Key, nat>)

  /** Published versions, the last change of every row key, and the live transactions. */
  datatype State = State(history: seq<Db>, changed: map<Key, nat>, txns: map<nat, Txn>)

  datatype Action =
    | Begin(id: nat, readCommitted: bool)
    | Statement(id: nat)
    | ClaimTarget(id: nat, key: Key)
    | VerifyTarget(id: nat)
    | ClaimReplacement(id: nat, updated: Row)
    | VerifyReplacement(id: nat)
    | WriteUpdate(id: nat)
    | WriteDelete(id: nat)
    | ClaimInsert(id: nat, row: Row, heapKey: Key)
    | VerifyInsert(id: nat)
    | WriteInsert(id: nat)
    | Release(id: nat)
    | Restore(id: nat)
    | Commit(id: nat)
    | Abort(id: nat)

  function Published(s: State): Db
    requires s.history != []
  {
    s.history[|s.history| - 1]
  }

  function ChangeOf(changed: map<Key, nat>, k: Key): nat { if k in changed then changed[k] else 0 }

  // ----- reservations and locks --------------------------------------------------------------

  /** The unique values a row holds: its entries in the non-primary unique indexes. */
  ghost function Reservations(t: Table, row: Row): set<Slot> {
    set i | 0 <= i < |t.indexes|
      && HasReservation(t, t.indexes[i], row) :: (t.indexes[i].name, t.valueKey(t.indexes[i], row).value)
  }

  predicate HasReservation(t: Table, index: Index, row: Row) {
    !index.primary && index.unique && t.valueKey(index, row).Some?
  }

  function XRecords(components: seq<Component>): set<Resource> {
    set c | c in components && c.Record? && c.mode == X :: (c.space, c.key)
  }

  function RowResource(t: Table, k: Key): Resource { (Rows(t.id), k) }

  function SlotResource(t: Table, e: Slot): Resource { (UniqueIndex(t.id, e.0), e.1) }

  /** The exclusive records of a claimed row hold the row and all its reservations. */
  lemma ClaimHolds(t: Table, owner: Key, row: Row, isNew: Index -> bool, more: seq<Component>,
                   components: seq<Component>)
    requires components == RowLocks(t, owner, EntriesUpTo(t, owner, row, isNew, |t.indexes|) + more)
    ensures RowResource(t, owner) in XRecords(components)
    ensures forall e :: e in Reservations(t, row) ==> SlotResource(t, e) in XRecords(components)
  {
    assert components[1] == Record(X, Rows(t.id), owner);
    var entries := EntriesUpTo(t, owner, row, isNew, |t.indexes|);
    forall e | e in Reservations(t, row) ensures SlotResource(t, e) in XRecords(components) {
      var i :| 0 <= i < |t.indexes| && HasReservation(t, t.indexes[i], row)
               && e == (t.indexes[i].name, t.valueKey(t.indexes[i], row).value);
      EntriesMember(t, owner, row, isNew, |t.indexes|, UniqueIndex(t.id, e.0), e.1);
      assert EntryIdentity(t, t.indexes[i], owner, row) == Some((UniqueIndex(t.id, e.0), e.1));
      var at :| 0 <= at < |entries| && entries[at] == Record(X, UniqueIndex(t.id, e.0), e.1);
      assert components[at + 2] == entries[at];
    }
  }

  // ----- decisions under a claim -------------------------------------------------------------

  /** staleTargetObservation, for a row key read under its claim. */
  predicate StaleTarget(db: Db, ov: Overlay, changed: map<Key, nat>, view: nat, k: Key) {
    if k in ov.rows then false
    else if k !in db.rows then true
    else ChangeOf(changed, k) > view
  }

  /** A reservation that is free, or that names the row being rewritten under its old or new key. */
  predicate OwnOrFree(owner: Option<Key>, key: Key, newKey: Key) {
    owner.None? || owner.value == key || owner.value == newKey
  }

  datatype Verdict = Free | DuplicateValue | StaleValue

  /** verifyReplacementUniqueValues from index i on: the first foreign owner decides. */
  function UniqueVerdict(t: Table, db: Db, seen: Db, ov: Overlay, key: Key, newKey: Key, updated: Row, i: nat): Verdict
    requires i <= |t.indexes|
    decreases |t.indexes| - i
  {
    if i == |t.indexes| then Free
    else
      var index := t.indexes[i];
      if !HasReservation(t, index, updated) then UniqueVerdict(t, db, seen, ov, key, newKey, updated, i + 1)
      else
        var owner := OwnerIn(db, ov, (index.name, t.valueKey(index, updated).value));
        if OwnOrFree(owner, key, newKey)
        then UniqueVerdict(t, db, seen, ov, key, newKey, updated, i + 1)
        else if RowIn(seen, ov, owner.value).Some? then DuplicateValue else StaleValue
  }

  /** claimModifyReplacement after its locks are held: a taken key first, then the unique values. */
  function ReplacementVerdict(t: Table, db: Db, seen: Db, ov: Overlay, key: Key, newKey: Key, updated: Row): Verdict {
    if newKey != key && RowIn(db, ov, newKey).Some? then DuplicateValue
    else UniqueVerdict(t, db, seen, ov, key, newKey, updated, 0)
  }

  /** The loop of verifyReplacementUniqueValues over the table's indexes. */
  method VerifyReplacementUniqueValues(t: Table, db: Db, seen: Db, ov: Overlay, key: Key, newKey: Key, updated: Row)
    returns (verdict: Verdict)
    ensures verdict == UniqueVerdict(t, db, seen, ov, key, newKey, updated, 0)
    ensures verdict.Free? <==> forall e :: e in Reservations(t, updated) ==> OwnOrFree(OwnerIn(db, ov, e), key, newKey)
  {
    UniqueVerdictFree(t, db, seen, ov, key, newKey, updated);
    for i := 0 to |t.indexes|
      invariant UniqueVerdict(t, db, seen, ov, key, newKey, updated, 0) == UniqueVerdict(t, db, seen, ov, key, newKey,
                updated, i)
    {
      var index := t.indexes[i];
      if !HasReservation(t, index, updated) { continue; }
      var owner := OwnerIn(db, ov, (index.name, t.valueKey(index, updated).value));
      if owner.None? { continue; }
      if owner.value == newKey || owner.value == key { continue; }
      if RowIn(seen, ov, owner.value).Some? { return DuplicateValue; }
      return StaleValue;
    }
    verdict := Free;
  }

  lemma {:induction false} UniqueVerdictFreeFrom(t: Table, db: Db, seen: Db, ov: Overlay, key: Key, newKey: Key,
                                                 updated: Row, i: nat)
    requires i <= |t.indexes|
    ensures UniqueVerdict(t, db, seen, ov, key, newKey, updated, i).Free? <==>
            forall j :: i <= j < |t.indexes| && HasReservation(t, t.indexes[j], updated) ==>
              OwnOrFree(OwnerIn(db, ov, (t.indexes[j].name, t.valueKey(t.indexes[j], updated).value)), key, newKey)
    decreases |t.indexes| - i
  {
    if i < |t.indexes| {
      UniqueVerdictFreeFrom(t, db, seen, ov, key, newKey, updated, i + 1);
      assert t.indexes[i] == t.indexes[i];
    }
  }

  /** The replacement is free exactly when no unique value it installs belongs to another row. */
  lemma UniqueVerdictFree(t: Table, db: Db, seen: Db, ov: Overlay, key: Key, newKey: Key, updated: Row)
    ensures UniqueVerdict(t, db, seen, ov, key, newKey, updated, 0).Free? <==>
            forall e :: e in Reservations(t, updated) ==> OwnOrFree(OwnerIn(db, ov, e), key, newKey)
  {
    UniqueVerdictFreeFrom(t, db, seen, ov, key, newKey, updated, 0);
    forall j | 0 <= j < |t.indexes| && HasReservation(t, t.indexes[j], updated)
      ensures (t.indexes[j].name, t.valueKey(t.indexes[j], updated).value) in Reservations(t, updated) {}
  }

  /** verifyUniqueValuesLocked and the snapshot conflicts of a plain INSERT: when the row goes on to be written. */
  ghost predicate InsertProceeds(t: Table, db: Db, seen: Db, ov: Overlay, key: Key, row: Row) {
    && (PrimaryKey(t, row).Some? ==> RowIn(db, ov, key).None?)
    && RowIn(seen, ov, key).None?
    && forall e :: e in Reservations(t, row) ==>
         && OwnerIn(seen, ov, e).None?
         && (OwnerIn(db, ov, e).None? || OwnerIn(db, ov, e) == Some(key)
           || RowIn(seen, ov, OwnerIn(db, ov, e).value).Some?)
  }

  /**
   The published owner of a value is a row this statement can see, but not as the holder of the value: the
   visibility test of the INSERT path takes such an owner for a conflict the snapshot already reports.
   */
  ghost predicate Masked(db: Db, seen: Db, ov: Overlay, e: Slot) {
    && OwnerIn(db, ov, e).Some?
    && OwnerIn(seen, ov, e).None?
    && RowIn(seen, ov, OwnerIn(db, ov, e).value).Some?
  }

  // ----- steps -------------------------------------------------------------------------------

  /** Locks are exclusive: a claim is granted only when no other transaction holds one of its resources. */
  ghost predicate Grantable(s: State, id: nat, claim: set<Resource>) {
    forall other :: other in s.txns && other != id ==> s.txns[other].locks !! claim
  }

  /** The overlay after an UPDATE or DELETE of (key, row): old reservations out, new ones in. */
  ghost function Replaced(t: Table, ov: Overlay, key: Key, row: Row, newKey: Key, updated: Option<Row>): Overlay {
    var gone := map e | e in Reservations(t, row) :: None;
    var kept := map e | updated.Some? && e in Reservations(t, updated.value) :: Some(newKey);
    var rows := ov.rows[key := None];
    Overlay(if updated.Some? then rows[newKey := updated] else rows, ov.owners + gone + kept)
  }

  ghost function Inserted(t: Table, ov: Overlay, key: Key, row: Row): Overlay {
    Overlay(ov.rows[key := Some(row)], ov.owners + map e | e in Reservations(t, row) :: Some(key))
  }

  /** The checks of the write path against the statement's own view. */
  ghost predicate WriteAccepted(t: Table, seen: Db, ov: Overlay, key: Key, row: Row, newKey: Key, updated: Row) {
    && t.checks(updated) && Conforms(t.columns, updated)
    && NewKey(t, Present(key, row), updated, []) == Some(newKey)
    && (newKey != key ==> RowIn(seen, ov, newKey).None?)
    && forall e :: e in Reservations(t, updated) - Reservations(t, row) ==> OwnOrFree(OwnerIn(seen, ov, e), key, key)
  }

  function Merge(db: Db, ov: Overlay): Db {
    Db(map k | k in db.rows.Keys + ov.rows.Keys && RowIn(db, ov, k).Some? :: RowIn(db, ov, k).value,
       map e | e in db.owners.Keys + ov.owners.Keys && OwnerIn(db, ov, e).Some? :: OwnerIn(db, ov, e).value)
  }

  /** The row keys an overlay writes are stamped with the version it is published as. */
  function Stamp(changed: map<Key, nat>, ov: Overlay, version: nat): map<Key, nat> {
    changed + map k | k in ov.rows :: version
  }

  /** Commit: the overlay becomes the next published version and the locks are gone with the transaction. */
  ghost function Publish(s: State, id: nat): State
    requires s.history != [] && id in s.txns
  {
    var ov := s.txns[id].overlay;
    State(s.history + [Merge(Published(s), ov)], Stamp(s.changed, ov, |s.history|), s.txns - {id})
  }

  ghost function Update(s: State, id: nat, txn: Txn): State { s.(txns := s.txns[id := txn]) }

  /** ClaimTarget: the old row and its reservations, for a row the statement reads. */
  ghost function OnClaimTarget(t: Table, s: State, id: nat, x: Txn, key: Key): Option<Txn>
    requires x.view < |s.history|
  {
    var row := RowIn(s.history[x.view], x.overlay, key);
    if !x.phase.Idle? || key == [] || row.None? then None
    else
      var claim := XRecords(TargetClaim(t, key, row.value));
      if !Grantable(s, id, claim) then None
      else Some(x.(locks := x.locks + claim, phase := TargetClaimed(key, row.value)))
  }

  /** VerifyTarget: a version newer than the view ends the transaction. */
  ghost function OnVerifyTarget(s: State, x: Txn): Option<Txn>
    requires s.history != []
  {
    if !x.phase.TargetClaimed? then None
    else
      var key := x.phase.key;
      if StaleTarget(Published(s), x.overlay, s.changed, x.view, key) then Some(x.(phase := Doomed))
      else Some(x.(phase := TargetVerified(key, x.phase.row),
                   basis := if key in x.overlay.rows || key in x.basis then x.basis else x.basis[key := x.view]))
  }

  ghost function OnClaimReplacement(t: Table, s: State, id: nat, x: Txn, updated: Row): Option<Txn> {
    if !x.phase.TargetVerified? then None
    else
      var claim := XRecords(ReplacementClaim(t, x.phase.key, x.phase.row, updated));
      if !Grantable(s, id, claim) then None
      else Some(x.(locks := x.locks + claim,
                   phase := ReplacementClaimed(x.phase.key, x.phase.row, MovedKey(t, x.phase.key, updated), updated)))
  }

  ghost function OnVerifyReplacement(t: Table, s: State, x: Txn): Option<Txn>
    requires x.view < |s.history|
  {
    if !x.phase.ReplacementClaimed? then None
    else
      var p := x.phase;
      Some(x.(phase := match ReplacementVerdict(t, Published(s), s.history[x.view], x.overlay, p.key, p.newKey,
        p.updated)
                       case Free => ReplacementVerified(p.key, p.row, p.newKey, p.updated)
                       case DuplicateValue => Failed
                       case StaleValue => Doomed))
  }

  ghost function OnWriteUpdate(t: Table, s: State, x: Txn): Option<Txn>
    requires x.view < |s.history|
  {
    if !x.phase.ReplacementVerified? then None
    else
      var p := x.phase;
      if WriteAccepted(t, s.history[x.view], x.overlay, p.key, p.row, p.newKey, p.updated)
      then Some(x.(overlay := Replaced(t, x.overlay, p.key, p.row, p.newKey, Some(p.updated)), phase := Idle))
      else Some(x.(phase := Failed))
  }

  ghost function OnWriteDelete(t: Table, x: Txn): Option<Txn> {
    if !x.phase.TargetVerified? then None
    else Some(x.(overlay := Replaced(t, x.overlay, x.phase.key, x.phase.row, x.phase.key, None), phase := Idle))
  }

  /** ClaimInsert: the derived primary key, or a heap key no row has. */
  ghost function OnClaimInsert(t: Table, s: State, id: nat, x: Txn, row: Row, heapKey: Key): Option<Txn>
    requires s.history != []
  {
    var key := if PrimaryKey(t, row).Some? then PrimaryKey(t, row).value else heapKey;
    if !x.phase.Idle? || key == [] || (PrimaryKey(t, row).None? && RowIn(Published(s), x.overlay, key).Some?) then None
    else
      var claim := XRecords(InsertClaim(t, key, row));
      if !Grantable(s, id, claim) then None
      else Some(x.(locks := x.locks + claim, phase := InsertClaimed(key, row)))
  }

  ghost function OnVerifyInsert(t: Table, s: State, x: Txn): Option<Txn>
    requires x.view < |s.history|
  {
    if !x.phase.InsertClaimed? then None
    else if InsertProceeds(t, Published(s), s.history[x.view], x.overlay, x.phase.key, x.phase.row)
    then Some(x.(phase := InsertVerified(x.phase.key, x.phase.row)))
    else Some(x.(phase := Failed))
  }

  predicate InsertAccepted(t: Table, key: Key, row: Row) {
    t.checks(row) && Conforms(t.columns, row) && NewKey(t, Absent, row, key) == Some(key)
  }

  ghost function OnWriteInsert(t: Table, x: Txn): Option<Txn> {
    if !x.phase.InsertVerified? then None
    else if InsertAccepted(t, x.phase.key, x.phase.row)
    then Some(x.(overlay := Inserted(t, x.overlay, x.phase.key, x.phase.row), phase := Idle))
    else Some(x.(phase := Failed))
  }

  /** Statement opens a statement (READ COMMITTED refreshes its view); Release and Restore end one. */
  ghost function OnStatement(s: State, x: Txn, a: Action): Option<Txn>
    requires s.history != []
  {
    if a.Statement? then
      if !x.phase.Idle? then None
      else Some(x.(saved := x.saved + [x.overlay], view := if x.readCommitted then |s.history| - 1 else x.snapshot))
    else if x.saved == [] then None
    else if a.Release? then
      if !x.phase.Idle? then None else Some(x.(saved := x.saved[..|x.saved| - 1]))
    else
      if x.phase.Doomed? then None
      else Some(x.(overlay := x.saved[|x.saved| - 1], saved := x.saved[..|x.saved| - 1], phase := Idle))
  }

  /** What an action does to the transaction that takes it. */
  ghost function Advance(t: Table, s: State, id: nat, x: Txn, a: Action): Option<Txn>
    requires x.view < |s.history|
  {
    match a
    case ClaimTarget(_, key) => OnClaimTarget(t, s, id, x, key)
    case VerifyTarget(_) => OnVerifyTarget(s, x)
    case ClaimReplacement(_, updated) => OnClaimReplacement(t, s, id, x, updated)
    case VerifyReplacement(_) => OnVerifyReplacement(t, s, x)
    case WriteUpdate(_) => OnWriteUpdate(t, s, x)
    case WriteDelete(_) => OnWriteDelete(t, x)
    case ClaimInsert(_, row, heapKey) => OnClaimInsert(t, s, id, x, row, heapKey)
    case VerifyInsert(_) => OnVerifyInsert(t, s, x)
    case WriteInsert(_) => OnWriteInsert(t, x)
    case Statement(_) => OnStatement(s, x, a)
    case Release(_) => OnStatement(s, x, a)
    case Restore(_) => OnStatement(s, x, a)
    case _ => None
  }

  ghost function Started(s: State, readCommitted: bool): Txn
    requires s.history != []
  {
    Txn(|s.history| - 1, readCommitted, |s.history| - 1, NO_WRITES, [], {}, Idle, map[])
  }

  /** One step; None when it is not enabled. Any sequence of steps is an interleaving of transactions. */
  ghost function Step(t: Table, s: State, a: Action): (r: Option<State>)
    requires s.history != []
    ensures r.Some? ==> s.history <= r.value.history
  {
    if a.Begin? then
      if a.id in s.txns then None else Some(Update(s, a.id, Started(s, a.readCommitted)))
    else if a.id !in s.txns || s.txns[a.id].view >= |s.history| then None
    else if a.Abort? then Some(s.(txns := s.txns - {a.id}))
    else if a.Commit? then
      if s.txns[a.id].phase.Idle? then Some(Publish(s, a.id)) else None
    else
      match Advance(t, s, a.id, s.txns[a.id], a)
      case None => None
      case Some(y) => Some(Update(s, a.id, y))
  }

  // ----- the invariant -----------------------------------------------------------------------

  ghost predicate Owns(t: Table, db: Db, ov: Overlay, k: Key, e: Slot) {
    RowIn(db, ov, k).Some? && e in Reservations(t, RowIn(db, ov, k).value)
  }

  /** Rows and reservations agree: a row holds a value exactly when the reservation names that row. */
  ghost predicate Consistent(t: Table, db: Db, ov: Overlay) {
    forall k, e :: Owns(t, db, ov, k, e) <==> OwnerIn(db, ov, e) == Some(k)
  }

  /** Everything an overlay writes is locked, and so are the values its rows have or had. */
  ghost predicate Closed(t: Table, db: Db, ov: Overlay, locks: set<Resource>) {
    && (forall e :: e in ov.owners ==> SlotResource(t, e) in locks)
    && (forall k :: k in ov.rows ==> RowResource(t, k) in locks)
    && (forall k, e :: k in ov.rows && (Owns(t, db, ov, k, e) || Owns(t, db, NO_WRITES, k, e)) ==>
      SlotResource(t, e) in locks)
  }

  /** Every published row an overlay replaces or removes was verified under its claim. */
  ghost predicate Tracked(db: Db, ov: Overlay, basis: map<Key, nat>) {
    forall k :: k in ov.rows && k in db.rows ==> k in basis
  }

  ghost predicate OverlayInv(t: Table, db: Db, ov: Overlay, locks: set<Resource>, basis: map<Key, nat>) {
    Consistent(t, db, ov) && Closed(t, db, ov, locks) && Tracked(db, ov, basis)
  }

  ghost predicate Holds(t: Table, locks: set<Resource>, key: Key, row: Row) {
    RowResource(t, key) in locks && forall e :: e in Reservations(t, row) ==> SlotResource(t, e) in locks
  }

  /** What a claim followed by its verification has established about the current state. */
  ghost predicate PhaseInv(t: Table, db: Db, seen: Db, x: Txn) {
    var ov := x.overlay;
    var p := x.phase;
    match p
    case Idle => true
    case Failed => true
    case Doomed => true
    case TargetClaimed(key, row) => Holds(t, x.locks, key, row) && RowIn(seen, ov, key) == Some(row)
    case TargetVerified(key, row) => TargetReady(t, db, x, key, row)
    case ReplacementClaimed(key, row, newKey, updated) => TargetReady(t, db, x, key, row)
      && Holds(t, x.locks, newKey, updated)
    case ReplacementVerified(key, row, newKey, updated) =>
      && TargetReady(t, db, x, key, row) && Holds(t, x.locks, newKey, updated)
      && (newKey != key ==> RowIn(db, ov, newKey).None?)
      && forall e :: e in Reservations(t, updated) ==> OwnOrFree(OwnerIn(db, ov, e), key, newKey)
    case InsertClaimed(key, row) =>
      Holds(t, x.locks, key, row) && (PrimaryKey(t, row).None? ==> RowIn(db, ov, key).None?)
    case InsertVerified(key, row) =>
      && Holds(t, x.locks, key, row) && RowIn(db, ov, key).None?
      && forall e :: e in Reservations(t, row) ==> OwnerIn(db, ov, e).None?
  }

  ghost predicate TargetReady(t: Table, db: Db, x: Txn, key: Key, row: Row) {
    && Holds(t, x.locks, key, row)
    && RowIn(db, x.overlay, key) == Some(row)
    && (key in x.overlay.rows || key in x.basis)
  }

  ghost predicate TxnInv(t: Table, history: seq<Db>, changed: map<Key, nat>, x: Txn)
    requires history != []
  {
    Core(t, history, changed, x) && PhaseInv(t, history[|history| - 1], history[x.view], x)
  }

  /** The part of the invariant that does not depend on the phase. */
  ghost predicate Core(t: Table, history: seq<Db>, changed: map<Key, nat>, x: Txn)
    requires history != []
  {
    var db := history[|history| - 1];
    && x.snapshot < |history| && x.view < |history|
    && OverlayInv(t, db, x.overlay, x.locks, x.basis)
    && (forall i :: 0 <= i < |x.saved| ==> OverlayInv(t, db, x.saved[i], x.locks, x.basis))
    && (forall k :: k in x.basis ==> RowResource(t, k) in x.locks && ChangeOf(changed, k) <= x.basis[k] < |history|)
  }

  /** A row key unchanged since a version still holds the row of that version. */
  ghost predicate HistoryInv(history: seq<Db>, changed: map<Key, nat>)
    requires history != []
  {
    && (forall k :: ChangeOf(changed, k) < |history|)
    && (forall v, k :: 0 <= v < |history| && ChangeOf(changed, k) <= v ==>
          RowIn(history[v], NO_WRITES, k) == RowIn(history[|history| - 1], NO_WRITES, k))
  }

  ghost predicate LocksDisjoint(s: State) {
    forall i, j :: i in s.txns && j in s.txns && i != j ==> s.txns[i].locks !! s.txns[j].locks
  }

  ghost predicate Inv(t: Table, s: State) {
    && s.history != []
    && (forall v :: 0 <= v < |s.history| ==> Consistent(t, s.history[v], NO_WRITES))
    && HistoryInv(s.history, s.changed)
    && LocksDisjoint(s)
    && forall id :: id in s.txns ==> TxnInv(t, s.history, s.changed, s.txns[id])
  }

  // ----- steps inside one transaction --------------------------------------------------------

  lemma LocalStep(t: Table, s: State, id: nat, x: Txn)
    requires Inv(t, s) && TxnInv(t, s.history, s.changed, x) && Grantable(s, id, x.locks)
    ensures Inv(t, Update(s, id, x))
  {
  }

  /** Holding more locks keeps what was established. */
  lemma MoreLocks(t: Table, s: State, x: Txn, claim: set<Resource>)
    requires s.history != [] && TxnInv(t, s.history, s.changed, x)
    ensures TxnInv(t, s.history, s.changed, x.(locks := x.locks + claim))
  {
    var y := x.(locks := x.locks + claim);
    var db := Published(s);
    assert OverlayInv(t, db, y.overlay, y.locks, y.basis);
    assert PhaseInv(t, db, s.history[x.view], y);
  }

  /** The claim is verified: the row under the lock is the row the statement read. */
  lemma VerifiedTarget(t: Table, s: State, x: Txn)
    requires s.history != [] && HistoryInv(s.history, s.changed) && TxnInv(t, s.history, s.changed, x)
             && x.phase.TargetClaimed?
    requires !StaleTarget(Published(s), x.overlay, s.changed, x.view, x.phase.key)
    ensures RowIn(Published(s), x.overlay, x.phase.key) == Some(x.phase.row)
  {
    var key := x.phase.key;
    if key !in x.overlay.rows {
      assert RowIn(s.history[x.view], NO_WRITES, key) == RowIn(Published(s), NO_WRITES, key);
    }
  }

  lemma ReplacedLookups(t: Table, db: Db, ov: Overlay, key: Key, row: Row, newKey: Key, updated: Option<Row>, k: Key,
                        e: Slot)
    ensures var after := Replaced(t, ov, key, row, newKey, updated);
            && RowIn(db, after, k) == (if updated.Some? && k == newKey then updated else if k == key then None
              else RowIn(db, ov, k))
            && OwnerIn(db, after, e) == (if updated.Some? && e in Reservations(t, updated.value) then Some(newKey)
                                         else if e in Reservations(t, row) then None else OwnerIn(db, ov, e))
  {
  }

  /** Writing a verified replacement keeps rows and reservations in agreement. */
  lemma ReplacedConsistent(t: Table, db: Db, ov: Overlay, key: Key, row: Row, newKey: Key, updated: Option<Row>)
    requires Consistent(t, db, ov) && RowIn(db, ov, key) == Some(row)
    requires updated.Some? ==> (newKey != key ==> RowIn(db, ov, newKey).None?)
    requires updated.Some? ==> forall e :: e in Reservations(t, updated.value) ==>
             OwnOrFree(OwnerIn(db, ov, e), key, newKey)
    ensures Consistent(t, db, Replaced(t, ov, key, row, newKey, updated))
  {
    forall k, e
      ensures Owns(t, db, Replaced(t, ov, key, row, newKey, updated), k, e)
              <==> OwnerIn(db, Replaced(t, ov, key, row, newKey, updated), e) == Some(k)
    {
      ReplacedOwns(t, db, ov, key, row, newKey, updated, k, e);
    }
  }

  lemma ReplacedOwns(t: Table, db: Db, ov: Overlay, key: Key, row: Row, newKey: Key, updated: Option<Row>, k: Key,
                     e: Slot)
    requires Consistent(t, db, ov) && RowIn(db, ov, key) == Some(row)
    requires updated.Some? ==> (newKey != key ==> RowIn(db, ov, newKey).None?)
    requires updated.Some? && e in Reservations(t, updated.value) ==> OwnOrFree(OwnerIn(db, ov, e), key, newKey)
    ensures Owns(t, db, Replaced(t, ov, key, row, newKey, updated), k, e)
            <==> OwnerIn(db, Replaced(t, ov, key, row, newKey, updated), e) == Some(k)
  {
    ReplacedLookups(t, db, ov, key, row, newKey, updated, k, e);
    assert Owns(t, db, ov, k, e) <==> OwnerIn(db, ov, e) == Some(k);
    assert Owns(t, db, ov, key, e) <==> OwnerIn(db, ov, e) == Some(key);
    assert Owns(t, db, ov, newKey, e) <==> OwnerIn(db, ov, e) == Some(newKey);
  }

  lemma InsertedConsistent(t: Table, db: Db, ov: Overlay, key: Key, row: Row)
    requires Consistent(t, db, ov) && RowIn(db, ov, key).None?
    requires forall e :: e in Reservations(t, row) ==> OwnerIn(db, ov, e).None?
    ensures Consistent(t, db, Inserted(t, ov, key, row))
  {
    var after := Inserted(t, ov, key, row);
    forall k, e ensures Owns(t, db, after, k, e) <==> OwnerIn(db, after, e) == Some(k) {
      assert Owns(t, db, ov, k, e) <==> OwnerIn(db, ov, e) == Some(k);
      assert Owns(t, db, ov, key, e) <==> OwnerIn(db, ov, e) == Some(key);
    }
  }

  lemma ReplacedInv(t: Table, db: Db, x: Txn, key: Key, row: Row, newKey: Key, updated: Option<Row>)
    requires OverlayInv(t, db, x.overlay, x.locks, x.basis) && TargetReady(t, db, x, key, row)
    requires updated.Some? ==> Holds(t, x.locks, newKey, updated.value)
    requires updated.Some? && newKey != key ==> RowIn(db, x.overlay, newKey).None?
    requires updated.Some? ==> forall e :: e in Reservations(t, updated.value) ==>
             OwnOrFree(OwnerIn(db, x.overlay, e), key, newKey)
    ensures OverlayInv(t, db, Replaced(t, x.overlay, key, row, newKey, updated), x.locks, x.basis)
  {
    ReplacedConsistent(t, db, x.overlay, key, row, newKey, updated);
    var after := Replaced(t, x.overlay, key, row, newKey, updated);
    forall k, e | k in after.rows && (Owns(t, db, after, k, e) || Owns(t, db, NO_WRITES, k, e))
      ensures SlotResource(t, e) in x.locks
    {
      if k in x.overlay.rows && Owns(t, db, NO_WRITES, k, e) {
      } else if k == key && key !in x.overlay.rows && Owns(t, db, NO_WRITES, k, e) {
        assert e in Reservations(t, row);
      } else if k in x.overlay.rows && k != key && k != newKey {
        assert Owns(t, db, x.overlay, k, e);
      }
    }
  }

  lemma InsertedInv(t: Table, db: Db, x: Txn, key: Key, row: Row)
    requires OverlayInv(t, db, x.overlay, x.locks, x.basis) && Holds(t, x.locks, key, row)
    requires RowIn(db, x.overlay, key).None?
    requires forall e :: e in Reservations(t, row) ==> OwnerIn(db, x.overlay, e).None?
    ensures OverlayInv(t, db, Inserted(t, x.overlay, key, row), x.locks, x.basis)
  {
    InsertedConsistent(t, db, x.overlay, key, row);
    var after := Inserted(t, x.overlay, key, row);
    forall k, e | k in after.rows && (Owns(t, db, after, k, e) || Owns(t, db, NO_WRITES, k, e))
      ensures SlotResource(t, e) in x.locks
    {
      if k != key { assert Owns(t, db, after, k, e) == Owns(t, db, x.overlay, k, e); }
    }
  }

  // ----- commits -----------------------------------------------------------------------------

  lemma MergeLookups(db: Db, committed: Overlay, ov: Overlay, k: Key, e: Slot)
    ensures RowIn(Merge(db, committed), ov, k) == if k in ov.rows then ov.rows[k] else RowIn(db, committed, k)
    ensures OwnerIn(Merge(db, committed), ov, e) == if e in ov.owners then ov.owners[e] else OwnerIn(db, committed, e)
  {
  }

  /** A commit never disturbs another transaction's view of what that transaction has locked. */
  lemma LockedUnchanged(t: Table, db: Db, committed: Overlay, theirs: set<Resource>, ov: Overlay, mine: set<Resource>,
                        k: Key, e: Slot)
    requires Closed(t, db, committed, theirs) && theirs !! mine
    ensures RowResource(t, k) in mine ==> RowIn(Merge(db, committed), ov, k) == RowIn(db, ov, k)
    ensures SlotResource(t, e) in mine ==> OwnerIn(Merge(db, committed), ov, e) == OwnerIn(db, ov, e)
  {
    MergeLookups(db, committed, ov, k, e);
  }

  /** The heart of the argument: two consistent overlays behind disjoint locks are consistent together. */
  lemma MergedOwns(t: Table, db: Db, committed: Overlay, theirs: set<Resource>, ov: Overlay, mine: set<Resource>,
                   k: Key, e: Slot)
    requires Consistent(t, db, committed) && Closed(t, db, committed, theirs)
    requires Consistent(t, db, ov) && Closed(t, db, ov, mine)
    requires theirs !! mine
    ensures Owns(t, Merge(db, committed), ov, k, e) <==> OwnerIn(Merge(db, committed), ov, e) == Some(k)
  {
    MergeLookups(db, committed, ov, k, e);
    assert Owns(t, db, ov, k, e) <==> OwnerIn(db, ov, e) == Some(k);
    assert Owns(t, db, committed, k, e) <==> OwnerIn(db, committed, e) == Some(k);
    if k in ov.rows {
      assert RowResource(t, k) in mine;
      if e in committed.owners {
        assert SlotResource(t, e) in theirs;
        assert Owns(t, db, committed, k, e) == Owns(t, db, NO_WRITES, k, e);
        assert !Owns(t, db, ov, k, e);
      }
    } else if e in ov.owners {
      assert SlotResource(t, e) in mine;
      if k in committed.rows {
        assert !Owns(t, db, committed, k, e);
        assert Owns(t, db, ov, k, e) == Owns(t, db, NO_WRITES, k, e);
      }
    }
  }

  lemma MergedOverlay(t: Table, db: Db, committed: Overlay, theirs: set<Resource>, ov: Overlay, mine: set<Resource>,
                      basis: map<Key, nat>)
    requires Consistent(t, db, committed) && Closed(t, db, committed, theirs)
    requires OverlayInv(t, db, ov, mine, basis)
    requires theirs !! mine
    ensures OverlayInv(t, Merge(db, committed), ov, mine, basis)
  {
    var after := Merge(db, committed);
    forall k, e ensures Owns(t, after, ov, k, e) <==> OwnerIn(after, ov, e) == Some(k) {
      MergedOwns(t, db, committed, theirs, ov, mine, k, e);
    }
    forall k, e | k in ov.rows
      ensures Owns(t, after, ov, k, e) == Owns(t, db, ov, k, e)
              && Owns(t, after, NO_WRITES, k, e) == Owns(t, db, NO_WRITES, k, e)
    {
      LockedUnchanged(t, db, committed, theirs, ov, mine, k, e);
      LockedUnchanged(t, db, committed, theirs, NO_WRITES, mine, k, e);
    }
    forall k | k in ov.rows && k in after.rows ensures k in basis {
      LockedUnchanged(t, db, committed, theirs, NO_WRITES, mine, k, ("", []));
    }
  }

  /** The published state after a commit is the committing transaction's own consistent view. */
  lemma PublishedConsistent(t: Table, db: Db, committed: Overlay)
    requires Consistent(t, db, committed)
    ensures Consistent(t, Merge(db, committed), NO_WRITES)
  {
    forall k, e ensures Owns(t, Merge(db, committed), NO_WRITES, k, e)
      <==> OwnerIn(Merge(db, committed), NO_WRITES, e) == Some(k) {
      MergeLookups(db, committed, NO_WRITES, k, e);
      assert Owns(t, db, committed, k, e) <==> OwnerIn(db, committed, e) == Some(k);
    }
  }

  lemma MergedPhase(t: Table, db: Db, seen: Db, committed: Overlay, theirs: set<Resource>, y: Txn)
    requires Closed(t, db, committed, theirs) && theirs !! y.locks
    requires PhaseInv(t, db, seen, y)
    ensures PhaseInv(t, Merge(db, committed), seen, y)
  {
    forall k, e
      ensures RowResource(t, k) in y.locks ==> RowIn(Merge(db, committed), y.overlay, k) == RowIn(db, y.overlay, k)
      ensures SlotResource(t, e) in y.locks ==> OwnerIn(Merge(db, committed), y.overlay, e) == OwnerIn(db, y.overlay, e)
    {
      LockedUnchanged(t, db, committed, theirs, y.overlay, y.locks, k, e);
    }
  }

  lemma StampLookup(changed: map<Key, nat>, ov: Overlay, version: nat, k: Key)
    ensures ChangeOf(Stamp(changed, ov, version), k) == if k in ov.rows then version else ChangeOf(changed, k)
  {
  }

  lemma CommitHistory(s: State, ov: Overlay)
    requires s.history != [] && HistoryInv(s.history, s.changed)
    ensures HistoryInv(s.history + [Merge(Published(s), ov)], Stamp(s.changed, ov, |s.history|))
  {
    var db := Published(s);
    var history := s.history + [Merge(db, ov)];
    var changed := Stamp(s.changed, ov, |s.history|);
    forall k ensures ChangeOf(changed, k) < |history| {
      StampLookup(s.changed, ov, |s.history|, k);
      assert ChangeOf(s.changed, k) < |s.history|;
    }
    forall v, k | 0 <= v < |history| && ChangeOf(changed, k) <= v
      ensures RowIn(history[v], NO_WRITES, k) == RowIn(history[|history| - 1], NO_WRITES, k)
    {
      StampLookup(s.changed, ov, |s.history|, k);
      MergeLookups(db, ov, NO_WRITES, k, ("", []));
      if v < |s.history| {
        assert RowIn(s.history[v], NO_WRITES, k) == RowIn(db, NO_WRITES, k);
      }
    }
  }

  lemma CommitBasis(t: Table, s: State, x: Txn, y: Txn)
    requires s.history != [] && TxnInv(t, s.history, s.changed, y)
    requires Closed(t, Published(s), x.overlay, x.locks) && x.locks !! y.locks
    ensures forall k :: k in y.basis ==>
              RowResource(t, k) in y.locks
                && ChangeOf(Stamp(s.changed, x.overlay, |s.history|), k) <= y.basis[k] < |s.history|
  {
    forall k | k in y.basis
      ensures ChangeOf(Stamp(s.changed, x.overlay, |s.history|), k) <= y.basis[k]
    {
      StampLookup(s.changed, x.overlay, |s.history|, k);
      assert RowResource(t, k) in y.locks;
    }
  }

  lemma CommitOther(t: Table, s: State, x: Txn, y: Txn)
    requires s.history != [] && TxnInv(t, s.history, s.changed, x) && TxnInv(t, s.history, s.changed, y)
    requires x.locks !! y.locks
    ensures TxnInv(t, s.history + [Merge(Published(s), x.overlay)], Stamp(s.changed, x.overlay, |s.history|), y)
  {
    var db := Published(s);
    var history := s.history + [Merge(db, x.overlay)];
    MergedOverlay(t, db, x.overlay, x.locks, y.overlay, y.locks, y.basis);
    forall i | 0 <= i < |y.saved| ensures OverlayInv(t, Merge(db, x.overlay), y.saved[i], y.locks, y.basis) {
      MergedOverlay(t, db, x.overlay, x.locks, y.saved[i], y.locks, y.basis);
    }
    MergedPhase(t, db, s.history[y.view], x.overlay, x.locks, y);
    CommitBasis(t, s, x, y);
    assert history[y.view] == s.history[y.view];
  }

  lemma CommitOthers(t: Table, s: State, id: nat)
    requires Inv(t, s) && id in s.txns
    ensures forall other :: other in s.txns - {id} ==>
              TxnInv(t, Publish(s, id).history, Publish(s, id).changed, s.txns[other])
  {
    forall other | other in s.txns - {id}
      ensures TxnInv(t, Publish(s, id).history, Publish(s, id).changed, s.txns[other])
    {
      CommitOther(t, s, s.txns[id], s.txns[other]);
    }
  }

  lemma CommitStep(t: Table, s: State, id: nat)
    requires Inv(t, s) && id in s.txns
    ensures Inv(t, Publish(s, id))
  {
    var x, after := s.txns[id], Publish(s, id);
    CommitHistory(s, x.overlay);
    forall v | 0 <= v < |after.history| ensures Consistent(t, after.history[v], NO_WRITES) {
      if v == |s.history| { PublishedConsistent(t, Published(s), x.overlay); }
    }
    CommitOthers(t, s, id);
  }

  // ----- every step keeps the invariant ------------------------------------------------------

  /** The one condition INSERT needs beyond its own checks: no value it installs is masked. */
  ghost predicate Unmasked(t: Table, s: State, a: Action)
    requires s.history != []
  {
    a.VerifyInsert? && a.id in s.txns && s.txns[a.id].phase.InsertClaimed? && s.txns[a.id].view < |s.history| ==>
      var x := s.txns[a.id];
      forall e :: e in Reservations(t, x.phase.row) ==> !Masked(Published(s), s.history[x.view], x.overlay, e)
  }

  /** A granted claim joins the transaction's locks. */
  lemma ClaimKeeps(t: Table, s: State, x: Txn, claim: set<Resource>, phase: Phase)
    requires s.history != [] && TxnInv(t, s.history, s.changed, x)
    requires PhaseInv(t, Published(s), s.history[x.view], x.(locks := x.locks + claim, phase := phase))
    ensures TxnInv(t, s.history, s.changed, x.(locks := x.locks + claim, phase := phase))
  {
    MoreLocks(t, s, x, claim);
  }

  lemma ClaimTargetKeeps(t: Table, s: State, id: nat, x: Txn, key: Key)
    requires s.history != [] && TxnInv(t, s.history, s.changed, x) && OnClaimTarget(t, s, id, x, key).Some?
    ensures TxnInv(t, s.history, s.changed, OnClaimTarget(t, s, id, x, key).value)
  {
    var row := RowIn(s.history[x.view], x.overlay, key).value;
    var components := TargetClaim(t, key, row);
    var entries := EntriesUpTo(t, key, row, _ => false, |t.indexes|);
    assert entries + [] == entries;
    ClaimHolds(t, key, row, _ => false, [], components);
    ClaimKeeps(t, s, x, XRecords(components), TargetClaimed(key, row));
  }

  lemma ClaimReplacementKeeps(t: Table, s: State, id: nat, x: Txn, updated: Row)
    requires s.history != [] && TxnInv(t, s.history, s.changed, x) && OnClaimReplacement(t, s, id, x, updated).Some?
    ensures TxnInv(t, s.history, s.changed, OnClaimReplacement(t, s, id, x, updated).value)
  {
    var key, row := x.phase.key, x.phase.row;
    var newKey := MovedKey(t, key, updated);
    var components := ReplacementClaim(t, key, row, updated);
    ClaimHolds(t, newKey, updated, IsNewEntry(t, key, row, newKey, updated),
               if newKey != key then IntentionOn(Rows(t.id), newKey) else [], components);
    MoreLocks(t, s, x, XRecords(components));
    ClaimKeeps(t, s, x, XRecords(components), ReplacementClaimed(key, row, newKey, updated));
  }

  lemma ClaimInsertKeeps(t: Table, s: State, id: nat, x: Txn, row: Row, heapKey: Key)
    requires s.history != [] && TxnInv(t, s.history, s.changed, x) && OnClaimInsert(t, s, id, x, row, heapKey).Some?
    ensures TxnInv(t, s.history, s.changed, OnClaimInsert(t, s, id, x, row, heapKey).value)
  {
    var key := if PrimaryKey(t, row).Some? then PrimaryKey(t, row).value else heapKey;
    var components := InsertClaim(t, key, row);
    ClaimHolds(t, key, row, _ => true, IntentionOn(Rows(t.id), key), components);
    ClaimKeeps(t, s, x, XRecords(components), InsertClaimed(key, row));
  }

  lemma VerifyTargetKeeps(t: Table, s: State, x: Txn)
    requires s.history != [] && HistoryInv(s.history, s.changed)
    requires TxnInv(t, s.history, s.changed, x) && OnVerifyTarget(s, x).Some?
    ensures TxnInv(t, s.history, s.changed, OnVerifyTarget(s, x).value)
  {
    if !StaleTarget(Published(s), x.overlay, s.changed, x.view, x.phase.key) {
      var y := OnVerifyTarget(s, x).value;
      VerifiedTarget(t, s, x);
      assert OverlayInv(t, Published(s), y.overlay, y.locks, y.basis);
      forall i | 0 <= i < |y.saved| ensures OverlayInv(t, Published(s), y.saved[i], y.locks, y.basis) {
        assert OverlayInv(t, Published(s), x.saved[i], x.locks, x.basis);
      }
    }
  }

  lemma VerifyReplacementKeeps(t: Table, s: State, x: Txn)
    requires s.history != [] && TxnInv(t, s.history, s.changed, x) && OnVerifyReplacement(t, s, x).Some?
    ensures TxnInv(t, s.history, s.changed, OnVerifyReplacement(t, s, x).value)
  {
    var p, y := x.phase, OnVerifyReplacement(t, s, x).value;
    UniqueVerdictFree(t, Published(s), s.history[x.view], x.overlay, p.key, p.newKey, p.updated);
    assert TargetReady(t, Published(s), y, p.key, p.row);
    assert Core(t, s.history, s.changed, y);
  }

  /** An INSERT that passes its checks meets a published owner of one of its values exactly when it is masked. */
  lemma UnmaskedMeansFree(t: Table, db: Db, seen: Db, ov: Overlay, key: Key, row: Row, e: Slot)
    requires Consistent(t, db, ov) && RowIn(db, ov, key).None?
    requires InsertProceeds(t, db, seen, ov, key, row) && e in Reservations(t, row)
    ensures OwnerIn(db, ov, e).None? <==> !Masked(db, seen, ov, e)
  {
    assert Owns(t, db, ov, key, e) <==> OwnerIn(db, ov, e) == Some(key);
  }

  lemma VerifyInsertKeeps(t: Table, s: State, x: Txn)
    requires s.history != [] && TxnInv(t, s.history, s.changed, x) && OnVerifyInsert(t, s, x).Some?
    requires forall e :: e in Reservations(t, x.phase.row) ==> !Masked(Published(s), s.history[x.view], x.overlay, e)
    ensures TxnInv(t, s.history, s.changed, OnVerifyInsert(t, s, x).value)
  {
    var db, seen := Published(s), s.history[x.view];
    if InsertProceeds(t, db, seen, x.overlay, x.phase.key, x.phase.row) {
      forall e | e in Reservations(t, x.phase.row) ensures OwnerIn(db, x.overlay, e).None? {
        UnmaskedMeansFree(t, db, seen, x.overlay, x.phase.key, x.phase.row, e);
      }
    }
    assert Core(t, s.history, s.changed, OnVerifyInsert(t, s, x).value);
  }

  /** Installing an overlay that satisfies the overlay invariant. */
  lemma NewOverlay(t: Table, s: State, x: Txn, ov: Overlay)
    requires s.history != [] && TxnInv(t, s.history, s.changed, x)
    requires OverlayInv(t, Published(s), ov, x.locks, x.basis)
    ensures TxnInv(t, s.history, s.changed, x.(overlay := ov, phase := Idle))
  {
  }

  lemma WriteUpdateKeeps(t: Table, s: State, x: Txn)
    requires s.history != [] && TxnInv(t, s.history, s.changed, x) && OnWriteUpdate(t, s, x).Some?
    ensures TxnInv(t, s.history, s.changed, OnWriteUpdate(t, s, x).value)
  {
    var p := x.phase;
    ReplacedInv(t, Published(s), x, p.key, p.row, p.newKey, Some(p.updated));
    NewOverlay(t, s, x, Replaced(t, x.overlay, p.key, p.row, p.newKey, Some(p.updated)));
  }

  lemma WriteDeleteKeeps(t: Table, s: State, x: Txn, key: Key, row: Row)
    requires s.history != [] && TxnInv(t, s.history, s.changed, x) && x.phase == TargetVerified(key, row)
    ensures TxnInv(t, s.history, s.changed, x.(overlay := Replaced(t, x.overlay, key, row, key, None), phase := Idle))
  {
    ReplacedInv(t, Published(s), x, key, row, key, None);
    NewOverlay(t, s, x, Replaced(t, x.overlay, key, row, key, None));
  }

  lemma WriteInsertKeeps(t: Table, s: State, x: Txn)
    requires s.history != [] && TxnInv(t, s.history, s.changed, x) && OnWriteInsert(t, x).Some?
    ensures TxnInv(t, s.history, s.changed, OnWriteInsert(t, x).value)
  {
    InsertedInv(t, Published(s), x, x.phase.key, x.phase.row);
    NewOverlay(t, s, x, Inserted(t, x.overlay, x.phase.key, x.phase.row));
  }

  lemma StatementKeeps(t: Table, s: State, x: Txn, a: Action)
    requires s.history != [] && TxnInv(t, s.history, s.changed, x) && OnStatement(s, x, a).Some?
    ensures TxnInv(t, s.history, s.changed, OnStatement(s, x, a).value)
  {
    var y := OnStatement(s, x, a).value;
    assert OverlayInv(t, Published(s), y.overlay, y.locks, y.basis);
  }

  lemma AdvanceKeeps(t: Table, s: State, id: nat, a: Action)
    requires Inv(t, s) && id in s.txns && Unmasked(t, s, a) && a.id == id
    requires Advance(t, s, id, s.txns[id], a).Some?
    ensures TxnInv(t, s.history, s.changed, Advance(t, s, id, s.txns[id], a).value)
  {
    var x := s.txns[id];
    match a
    case ClaimTarget(_, key) => ClaimTargetKeeps(t, s, id, x, key);
    case VerifyTarget(_) => VerifyTargetKeeps(t, s, x);
    case ClaimReplacement(_, updated) => ClaimReplacementKeeps(t, s, id, x, updated);
    case VerifyReplacement(_) => VerifyReplacementKeeps(t, s, x);
    case WriteUpdate(_) => WriteUpdateKeeps(t, s, x);
    case WriteDelete(_) => WriteDeleteKeeps(t, s, x, x.phase.key, x.phase.row);
    case ClaimInsert(_, row, heapKey) => ClaimInsertKeeps(t, s, id, x, row, heapKey);
    case VerifyInsert(_) => VerifyInsertKeeps(t, s, x);
    case WriteInsert(_) => WriteInsertKeeps(t, s, x);
    case Statement(_) => StatementKeeps(t, s, x, a);
    case Release(_) => StatementKeeps(t, s, x, a);
    case Restore(_) => StatementKeeps(t, s, x, a);
  }

  /** Locks are only added, and only when no other transaction holds them. */
  lemma AdvanceGrantable(t: Table, s: State, id: nat, a: Action)
    requires s.history != [] && LocksDisjoint(s) && id in s.txns && s.txns[id].view < |s.history|
    requires Advance(t, s, id, s.txns[id], a).Some?
    ensures Grantable(s, id, Advance(t, s, id, s.txns[id], a).value.locks)
  {
    var x, y := s.txns[id], Advance(t, s, id, s.txns[id], a).value;
    assert Grantable(s, id, x.locks);
    if y.locks != x.locks {
      assert Grantable(s, id, y.locks - x.locks);
    }
  }

  lemma StepKeepsInv(t: Table, s: State, a: Action)
    requires Inv(t, s) && Step(t, s, a).Some? && Unmasked(t, s, a)
    ensures Inv(t, Step(t, s, a).value)
  {
    if a.Begin? {
      LocalStep(t, s, a.id, Started(s, a.readCommitted));
    } else if a.Commit? {
      CommitStep(t, s, a.id);
    } else if !a.Abort? {
      AdvanceKeeps(t, s, a.id, a);
      AdvanceGrantable(t, s, a.id, a);
      LocalStep(t, s, a.id, Advance(t, s, a.id, s.txns[a.id], a).value);
    }
  }

  // ----- whole runs --------------------------------------------------------------------------

  /** The state after a sequence of steps, or None when some step was not enabled. */
  ghost function Run(t: Table, s: State, actions: seq<Action>): (r: Option<State>)
    requires s.history != []
    ensures r.Some? ==> s.history <= r.value.history
    decreases |actions|
  {
    if actions == [] then Some(s)
    else match Step(t, s, actions[0])
      case None => None
      case Some(next) => Run(t, next, actions[1..])
  }

  /** No INSERT of the run verifies a masked value. */
  ghost predicate RunUnmasked(t: Table, s: State, actions: seq<Action>)
    requires s.history != []
    decreases |actions|
  {
    actions == [] || (Unmasked(t, s, actions[0])
                      && (Step(t, s, actions[0]).Some? ==> RunUnmasked(t, Step(t, s, actions[0]).value, actions[1..])))
  }

  ghost predicate Initial(t: Table, s: State) {
    |s.history| == 1 && Consistent(t, s.history[0], NO_WRITES) && s.changed == map[] && s.txns == map[]
  }

  lemma {:induction false} RunKeepsInv(t: Table, s: State, actions: seq<Action>)
    requires Inv(t, s) && RunUnmasked(t, s, actions) && Run(t, s, actions).Some?
    ensures Inv(t, Run(t, s, actions).value)
    decreases |actions|
  {
    if actions != [] {
      StepKeepsInv(t, s, actions[0]);
      RunKeepsInv(t, Step(t, s, actions[0]).value, actions[1..]);
    }
  }

  ghost predicate NoSharedValues(t: Table, db: Db) {
    forall k1, k2 :: k1 in db.rows && k2 in db.rows && k1 != k2 ==>
      Reservations(t, db.rows[k1]) !! Reservations(t, db.rows[k2])
  }

  /** Committing now replaces and removes only row versions that the transaction's statements read. */
  ghost predicate CommitsOnlyRead(s: State, x: Txn)
    requires s.history != []
  {
    forall k :: k in x.overlay.rows && k in Published(s).rows ==>
      && k in x.basis && ChangeOf(s.changed, k) <= x.basis[k] < |s.history|
      && k in s.history[x.basis[k]].rows && s.history[x.basis[k]].rows[k] == Published(s).rows[k]
  }

  lemma ConsistentMeansUnique(t: Table, db: Db)
    requires Consistent(t, db, NO_WRITES)
    ensures NoSharedValues(t, db)
  {
    forall k1, k2, e | k1 in db.rows && k2 in db.rows && k1 != k2 && e in Reservations(t, db.rows[k1])
      ensures e !in Reservations(t, db.rows[k2])
    {
      assert Owns(t, db, NO_WRITES, k1, e);
      if e in Reservations(t, db.rows[k2]) { assert Owns(t, db, NO_WRITES, k2, e); }
    }
  }

  lemma InvMeansCommitsOnlyRead(t: Table, s: State, id: nat)
    requires Inv(t, s) && id in s.txns
    ensures CommitsOnlyRead(s, s.txns[id])
  {
    var x, db := s.txns[id], Published(s);
    forall k | k in x.overlay.rows && k in db.rows
      ensures k in x.basis && ChangeOf(s.changed, k) <= x.basis[k] < |s.history|
      ensures k in s.history[x.basis[k]].rows && s.history[x.basis[k]].rows[k] == db.rows[k]
    {
      assert RowIn(s.history[x.basis[k]], NO_WRITES, k) == RowIn(db, NO_WRITES, k);
    }
  }

  /**
   Safety over every interleaving: whatever steps the transactions take and in whatever order, no published
   version ever has two rows with one unique value, reservations name exactly the rows that hold the values,
   and every transaction that could commit replaces only row versions its own statements read.
   */
  lemma LockedDmlSafety(t: Table, s: State, actions: seq<Action>)
    requires Initial(t, s) && Run(t, s, actions).Some? && RunUnmasked(t, s, actions)
    ensures var end := Run(t, s, actions).value;
            && end.history != []
            && (forall v :: 0 <= v < |end.history| ==>
                  NoSharedValues(t, end.history[v]) && Consistent(t, end.history[v], NO_WRITES))
            && (forall id :: id in end.txns ==> CommitsOnlyRead(end, end.txns[id]))
  {
    RunKeepsInv(t, s, actions);
    var end := Run(t, s, actions).value;
    forall v | 0 <= v < |end.history| ensures NoSharedValues(t, end.history[v]) {
      ConsistentMeansUnique(t, end.history[v]);
    }
    forall id | id in end.txns ensures CommitsOnlyRead(end, end.txns[id]) { InvMeansCommitsOnlyRead(t, end, id); }
  }

  /** Runs of UPDATE and DELETE alone need no condition at all. */
  lemma {:induction false} UpdateDeleteUnmasked(t: Table, s: State, actions: seq<Action>)
    requires s.history != [] && forall i :: 0 <= i < |actions| ==> !actions[i].VerifyInsert?
    ensures RunUnmasked(t, s, actions)
    decreases |actions|
  {
    if actions != [] && Step(t, s, actions[0]).Some? {
      UpdateDeleteUnmasked(t, Step(t, s, actions[0]).value, actions[1..]);
    }
  }

  // ----- the exact condition for INSERT ------------------------------------------------------

  /** The published state after an INSERT at its verification step runs on to its commit. */
  ghost function AfterInsert(t: Table, s: State, x: Txn): Db
    requires s.history != [] && x.phase.InsertClaimed?
  {
    Merge(Published(s), Inserted(t, x.overlay, x.phase.key, x.phase.row))
  }

  /**
   An INSERT that its own checks let through publishes a duplicate unique value exactly when one of its values
   is masked, whatever the state it runs in.
   */
  lemma InsertSoundIffUnmasked(t: Table, db: Db, seen: Db, ov: Overlay, key: Key, row: Row)
    requires Consistent(t, db, ov) && RowIn(db, ov, key).None? && InsertProceeds(t, db, seen, ov, key, row)
    ensures NoSharedValues(t, Merge(db, Inserted(t, ov, key, row))) <==>
            forall e :: e in Reservations(t, row) ==> !Masked(db, seen, ov, e)
  {
    if forall e :: e in Reservations(t, row) ==> !Masked(db, seen, ov, e) {
      forall e | e in Reservations(t, row) ensures OwnerIn(db, ov, e).None? {
        UnmaskedMeansFree(t, db, seen, ov, key, row, e);
      }
      InsertedConsistent(t, db, ov, key, row);
      PublishedConsistent(t, db, Inserted(t, ov, key, row));
      ConsistentMeansUnique(t, Merge(db, Inserted(t, ov, key, row)));
    } else {
      var e :| e in Reservations(t, row) && Masked(db, seen, ov, e);
      MaskedShares(t, db, ov, key, row, e);
    }
  }

  /** The same as a run: in every reachable state such an INSERT goes on to its commit, and the condition decides. */
  lemma InsertRunSoundIffUnmasked(t: Table, s: State, id: nat)
    requires s.history != [] && id in s.txns && TxnInv(t, s.history, s.changed, s.txns[id])
             && s.txns[id].phase.InsertClaimed?
    requires var x := s.txns[id];
             && InsertProceeds(t, Published(s), s.history[x.view], x.overlay, x.phase.key, x.phase.row)
             && InsertAccepted(t, x.phase.key, x.phase.row)
    ensures var end := Run(t, s, [VerifyInsert(id), WriteInsert(id), Commit(id)]);
            var x := s.txns[id];
            end.Some? && (NoSharedValues(t, Published(end.value)) <==>
                          forall e :: e in Reservations(t, x.phase.row) ==>
                            !Masked(Published(s), s.history[x.view], x.overlay, e))
  {
    var x := s.txns[id];
    ClaimedKeyFree(t, s, x);
    InsertSoundIffUnmasked(t, Published(s), s.history[x.view], x.overlay, x.phase.key, x.phase.row);
    InsertRuns(t, s, id);
  }

  lemma ClaimedKeyFree(t: Table, s: State, x: Txn)
    requires s.history != [] && TxnInv(t, s.history, s.changed, x) && x.phase.InsertClaimed?
    requires InsertProceeds(t, Published(s), s.history[x.view], x.overlay, x.phase.key, x.phase.row)
    ensures Consistent(t, Published(s), x.overlay) && RowIn(Published(s), x.overlay, x.phase.key).None?
  {
  }

  /** One step of one transaction at the front of a run. */
  lemma Take(t: Table, s: State, id: nat, x: Txn, y: Txn, a: Action, rest: seq<Action>)
    requires s.history != [] && x.view < |s.history|
    requires a.id == id && !a.Begin? && !a.Abort? && !a.Commit?
    requires Advance(t, Update(s, id, x), id, x, a) == Some(y)
    ensures Run(t, Update(s, id, x), [a] + rest) == Run(t, Update(s, id, y), rest)
  {
    assert Update(Update(s, id, x), id, y) == Update(s, id, y);
    assert Step(t, Update(s, id, x), a) == Some(Update(s, id, y));
    assert ([a] + rest)[1..] == rest;
  }

  lemma TakeCommit(t: Table, s: State, id: nat, x: Txn)
    requires s.history != [] && x.view < |s.history| && x.phase.Idle?
    ensures Run(t, Update(s, id, x), [Commit(id)])
            == Some(State(s.history + [Merge(Published(s), x.overlay)], Stamp(s.changed, x.overlay, |s.history|),
              s.txns - {id}))
  {
    assert Update(s, id, x).txns - {id} == s.txns - {id};
    assert [Commit(id)][1..] == [];
    assert Step(t, Update(s, id, x), Commit(id)) == Some(Publish(Update(s, id, x), id));
  }

  lemma InsertRuns(t: Table, s: State, id: nat)
    requires s.history != [] && id in s.txns && s.txns[id].phase.InsertClaimed? && s.txns[id].view < |s.history|
    requires var x := s.txns[id];
             && InsertProceeds(t, Published(s), s.history[x.view], x.overlay, x.phase.key, x.phase.row)
             && InsertAccepted(t, x.phase.key, x.phase.row)
    ensures Run(t, s, [VerifyInsert(id), WriteInsert(id), Commit(id)]).Some?
    ensures Published(Run(t, s, [VerifyInsert(id), WriteInsert(id), Commit(id)]).value) == AfterInsert(t, s, s.txns[id])
  {
    var x := s.txns[id];
    var x1 := x.(phase := InsertVerified(x.phase.key, x.phase.row));
    var x2 := x.(phase := Idle, overlay := Inserted(t, x.overlay, x.phase.key, x.phase.row));
    assert Update(s, id, x) == s;
    Take(t, s, id, x, x1, VerifyInsert(id), [WriteInsert(id), Commit(id)]);
    InsertCommits(t, s, id, x1, x2);
    assert [VerifyInsert(id)] + [WriteInsert(id), Commit(id)] == [VerifyInsert(id), WriteInsert(id), Commit(id)];
  }

  lemma InsertCommits(t: Table, s: State, id: nat, x: Txn, y: Txn)
    requires s.history != [] && x.view < |s.history| && y.view < |s.history| && y.phase.Idle?
             && OnWriteInsert(t, x) == Some(y)
    ensures Run(t, Update(s, id, x), [WriteInsert(id), Commit(id)])
            == Some(State(s.history + [Merge(Published(s), y.overlay)], Stamp(s.changed, y.overlay, |s.history|),
              s.txns - {id}))
  {
    Take(t, s, id, x, y, WriteInsert(id), [Commit(id)]);
    TakeCommit(t, s, id, y);
    assert [WriteInsert(id)] + [Commit(id)] == [WriteInsert(id), Commit(id)];
  }

  /** The owner of a masked value keeps it, and the inserted row holds it too. */
  lemma MaskedShares(t: Table, db: Db, ov: Overlay, key: Key, row: Row, e: Slot)
    requires Consistent(t, db, ov) && RowIn(db, ov, key).None?
    requires e in Reservations(t, row) && OwnerIn(db, ov, e).Some?
    ensures !NoSharedValues(t, Merge(db, Inserted(t, ov, key, row)))
  {
    var owner := OwnerIn(db, ov, e).value;
    assert Owns(t, db, ov, owner, e);
    var after := Merge(db, Inserted(t, ov, key, row));
    assert after.rows[key] == row && after.rows[owner] == RowIn(db, ov, owner).value;
    assert e in Reservations(t, after.rows[key]) && e in Reservations(t, after.rows[owner]);
  }
}
