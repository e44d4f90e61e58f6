/**
 What locked statements do: the published rows and unique reservations after a DELETE, an UPDATE or an INSERT, when
 their steps go through, and what a transaction sees when it begins, opens, releases or undoes a statement.
 */
module LockedEffects {
  import opened Wrappers
  import opened Bytes
  import opened Schema
  import opened IndexMaintenance
  import opened LockClaims
  import opened LockedDml

  // ----- what a state shows ------------------------------------------------------------------

  function OwnerAt(owners: map<Slot, Key>, e: Slot): Option<Key> { if e in owners then Some(owners[e]) else None }

  /** A transaction sees its own writes over the version it reads. */
  function RowShown(db: Db, ov: Overlay, k: Key): Option<Row> { if k in ov.rows then ov.rows[k] else RowAt(db.rows, k) }

  function OwnerShown(db: Db, ov: Overlay, e: Slot): Option<Key> {
    if e in ov.owners then ov.owners[e] else OwnerAt(db.owners, e)
  }

  ghost predicate RowReplaced(before: Db, ov: Overlay, after: Db, key: Key, newKey: Key, updated: Option<Row>, k: Key) {
    RowAt(after.rows, k) ==
    if updated.Some? && k == newKey then updated else if k == key then None else RowShown(before, ov, k)
  }

  ghost predicate OwnerReplaced(t: Table, before: Db, ov: Overlay, after: Db, row: Row, newKey: Key,
                                updated: Option<Row>, e: Slot)
  {
    OwnerAt(after.owners, e) ==
    if updated.Some? && e in Reservations(t, updated.value) then Some(newKey)
    else if e in Reservations(t, row) then None else OwnerShown(before, ov, e)
  }

  /** The published version `after` is `before` under the transaction's writes, with one row write on top. */
  ghost predicate Replaces(t: Table, before: Db, ov: Overlay, after: Db, key: Key, row: Row, newKey: Key,
                           updated: Option<Row>)
  {
    && (forall k :: RowReplaced(before, ov, after, key, newKey, updated, k))
    && (forall e :: OwnerReplaced(t, before, ov, after, row, newKey, updated, e))
  }

  ghost predicate RowAdded(before: Db, ov: Overlay, after: Db, key: Key, row: Row, k: Key) {
    RowAt(after.rows, k) == if k == key then Some(row) else RowShown(before, ov, k)
  }

  ghost predicate OwnerAdded(t: Table, before: Db, ov: Overlay, after: Db, key: Key, row: Row, e: Slot) {
    OwnerAt(after.owners, e) == if e in Reservations(t, row) then Some(key) else OwnerShown(before, ov, e)
  }

  ghost predicate Adds(t: Table, before: Db, ov: Overlay, after: Db, key: Key, row: Row) {
    && (forall k :: RowAdded(before, ov, after, key, row, k))
    && (forall e :: OwnerAdded(t, before, ov, after, key, row, e))
  }

  lemma MergeShows(db: Db, ov: Overlay, k: Key, e: Slot)
    ensures RowAt(Merge(db, ov).rows, k) == RowShown(db, ov, k)
    ensures OwnerAt(Merge(db, ov).owners, e) == OwnerShown(db, ov, e)
  {
    MergeLookups(db, ov, NO_WRITES, k, e);
  }

  lemma ReplacedShows(t: Table, db: Db, ov: Overlay, key: Key, row: Row, newKey: Key, updated: Option<Row>, k: Key,
                      e: Slot)
    ensures var after := Merge(db, Replaced(t, ov, key, row, newKey, updated));
            && RowReplaced(db, ov, after, key, newKey, updated, k)
            && OwnerReplaced(t, db, ov, after, row, newKey, updated, e)
  {
    ReplacedLookups(t, db, ov, key, row, newKey, updated, k, e);
    MergeShows(db, Replaced(t, ov, key, row, newKey, updated), k, e);
  }

  lemma MergeReplaces(t: Table, db: Db, ov: Overlay, key: Key, row: Row, newKey: Key, updated: Option<Row>)
    ensures Replaces(t, db, ov, Merge(db, Replaced(t, ov, key, row, newKey, updated)), key, row, newKey, updated)
  {
    var after := Merge(db, Replaced(t, ov, key, row, newKey, updated));
    forall k ensures RowReplaced(db, ov, after, key, newKey, updated, k) {
      ReplacedShows(t, db, ov, key, row, newKey, updated, k, ("", []));
    }
    forall e ensures OwnerReplaced(t, db, ov, after, row, newKey, updated, e) {
      ReplacedShows(t, db, ov, key, row, newKey, updated, key, e);
    }
  }

  lemma InsertedShows(t: Table, db: Db, ov: Overlay, key: Key, row: Row, k: Key, e: Slot)
    ensures var after := Merge(db, Inserted(t, ov, key, row));
            RowAdded(db, ov, after, key, row, k) && OwnerAdded(t, db, ov, after, key, row, e)
  {
    MergeShows(db, Inserted(t, ov, key, row), k, e);
  }

  lemma MergeAdds(t: Table, db: Db, ov: Overlay, key: Key, row: Row)
    ensures Adds(t, db, ov, Merge(db, Inserted(t, ov, key, row)), key, row)
  {
    var after := Merge(db, Inserted(t, ov, key, row));
    forall k ensures RowAdded(db, ov, after, key, row, k) { InsertedShows(t, db, ov, key, row, k, ("", [])); }
    forall e ensures OwnerAdded(t, db, ov, after, key, row, e) { InsertedShows(t, db, ov, key, row, key, e); }
  }

  // ----- from a verified claim to the published version --------------------------------------

  /** The transaction is gone and one version has been published. */
  ghost predicate Publishes(s: State, id: nat, end: Option<State>) {
    end.Some? && end.value.txns == s.txns - {id} && |end.value.history| == |s.history| + 1
    && s.history <= end.value.history
  }

  lemma WriteThenCommit(t: Table, s: State, id: nat, a: Action, y: Txn)
    requires s.history != [] && id in s.txns && s.txns[id].view < |s.history| && y.view < |s.history| && y.phase.Idle?
    requires a.id == id && !a.Begin? && !a.Abort? && !a.Commit? && Advance(t, s, id, s.txns[id], a) == Some(y)
    ensures Publishes(s, id, Run(t, s, [a, Commit(id)]))
    ensures Published(Run(t, s, [a, Commit(id)]).value) == Merge(Published(s), y.overlay)
  {
    var x := s.txns[id];
    assert Update(s, id, x) == s;
    Take(t, s, id, x, y, a, [Commit(id)]);
    TakeCommit(t, s, id, y);
    assert [a] + [Commit(id)] == [a, Commit(id)];
  }

  /**
   A verified DELETE takes effect: its row, which was there, is gone from the published version with its unique
   values, and everything else is what the transaction saw over the last published version.
   */
  lemma DeletePublishes(t: Table, s: State, id: nat, key: Key, row: Row)
    requires Inv(t, s) && id in s.txns && s.txns[id].phase == TargetVerified(key, row)
    ensures var end := Run(t, s, [WriteDelete(id), Commit(id)]);
            && Publishes(s, id, end)
            && RowShown(Published(s), s.txns[id].overlay, key) == Some(row)
            && Replaces(t, Published(s), s.txns[id].overlay, Published(end.value), key, row, key, None)
  {
    var x := s.txns[id];
    assert TxnInv(t, s.history, s.changed, x);
    var y := x.(overlay := Replaced(t, x.overlay, key, row, key, None), phase := Idle);
    WriteThenCommit(t, s, id, WriteDelete(id), y);
    MergeReplaces(t, Published(s), x.overlay, key, row, key, None);
  }

  /** What the write path asks of an updated row, against the statement's own view. */
  ghost predicate Writable(t: Table, seen: Db, ov: Overlay, key: Key, row: Row, newKey: Key, updated: Row) {
    && t.checks(updated) && Conforms(t.columns, updated) && NewKey(t, Present(key, row), updated, []) == Some(newKey)
    && (newKey != key ==> RowShown(seen, ov, newKey).None?)
    && forall e :: e in Reservations(t, updated) && e !in Reservations(t, row) ==>
         OwnerShown(seen, ov, e).None? || OwnerShown(seen, ov, e) == Some(key)
  }

  lemma WritableIsAccepted(t: Table, seen: Db, ov: Overlay, key: Key, row: Row, newKey: Key, updated: Row)
    ensures WriteAccepted(t, seen, ov, key, row, newKey, updated) <==> Writable(t, seen, ov, key, row, newKey, updated)
  {
    forall e ensures OwnOrFree(OwnerIn(seen, ov, e), key, key) <==>
                     OwnerShown(seen, ov, e).None? || OwnerShown(seen, ov, e) == Some(key) {}
    if WriteAccepted(t, seen, ov, key, row, newKey, updated) {
      forall e | e in Reservations(t, updated) && e !in Reservations(t, row)
        ensures OwnerShown(seen, ov, e).None? || OwnerShown(seen, ov, e) == Some(key)
      {
        assert e in Reservations(t, updated) - Reservations(t, row);
      }
    }
  }

  lemma UpdateCommits(t: Table, s: State, id: nat, key: Key, row: Row, newKey: Key, updated: Row)
    requires s.history != [] && id in s.txns && s.txns[id].view < |s.history|
    requires s.txns[id].phase == ReplacementVerified(key, row, newKey, updated)
    requires WriteAccepted(t, s.history[s.txns[id].view], s.txns[id].overlay, key, row, newKey, updated)
    ensures var end := Run(t, s, [WriteUpdate(id), Commit(id)]);
            && Publishes(s, id, end)
            && Replaces(t, Published(s), s.txns[id].overlay, Published(end.value), key, row, newKey, Some(updated))
  {
    var x := s.txns[id];
    var y := x.(overlay := Replaced(t, x.overlay, key, row, newKey, Some(updated)), phase := Idle);
    WriteThenCommit(t, s, id, WriteUpdate(id), y);
    MergeReplaces(t, Published(s), x.overlay, key, row, newKey, Some(updated));
  }

  lemma ViewExists(t: Table, s: State, id: nat)
    requires Inv(t, s) && id in s.txns
    ensures s.txns[id].view < |s.history| && TxnInv(t, s.history, s.changed, s.txns[id])
  {
  }

  /** A verified UPDATE takes effect when the row is writable: the new row replaces the old one, which was there. */
  lemma UpdatePublishes(t: Table, s: State, id: nat, key: Key, row: Row, newKey: Key, updated: Row)
    requires Inv(t, s) && id in s.txns && s.txns[id].phase == ReplacementVerified(key, row, newKey, updated)
    requires Writable(t, s.history[s.txns[id].view], s.txns[id].overlay, key, row, newKey, updated)
    ensures var end := Run(t, s, [WriteUpdate(id), Commit(id)]);
            && Publishes(s, id, end)
            && RowShown(Published(s), s.txns[id].overlay, key) == Some(row)
            && Replaces(t, Published(s), s.txns[id].overlay, Published(end.value), key, row, newKey, Some(updated))
  {
    ViewExists(t, s, id);
    WritableIsAccepted(t, s.history[s.txns[id].view], s.txns[id].overlay, key, row, newKey, updated);
    UpdateCommits(t, s, id, key, row, newKey, updated);
  }

  /** Otherwise the statement fails without a write. */
  lemma UnwritableFails(t: Table, s: State, id: nat, key: Key, row: Row, newKey: Key, updated: Row)
    requires Inv(t, s) && id in s.txns && s.txns[id].phase == ReplacementVerified(key, row, newKey, updated)
    requires !Writable(t, s.history[s.txns[id].view], s.txns[id].overlay, key, row, newKey, updated)
    ensures Step(t, s, WriteUpdate(id)) == Some(Update(s, id, s.txns[id].(phase := Failed)))
  {
    ViewExists(t, s, id);
    WritableIsAccepted(t, s.history[s.txns[id].view], s.txns[id].overlay, key, row, newKey, updated);
  }

  lemma InsertLands(t: Table, s: State, id: nat, key: Key, row: Row)
    requires s.history != [] && id in s.txns && s.txns[id].view < |s.history|
    requires s.txns[id].phase == InsertVerified(key, row) && InsertAccepted(t, key, row)
    ensures var end := Run(t, s, [WriteInsert(id), Commit(id)]);
            && Publishes(s, id, end)
            && Adds(t, Published(s), s.txns[id].overlay, Published(end.value), key, row)
  {
    var x := s.txns[id];
    var y := x.(overlay := Inserted(t, x.overlay, key, row), phase := Idle);
    WriteThenCommit(t, s, id, WriteInsert(id), y);
    MergeAdds(t, Published(s), x.overlay, key, row);
  }

  lemma InsertKeyFree(t: Table, s: State, id: nat, key: Key, row: Row)
    requires Inv(t, s) && id in s.txns && s.txns[id].phase == InsertVerified(key, row)
    ensures s.txns[id].view < |s.history| && RowShown(Published(s), s.txns[id].overlay, key).None?
  {
    ViewExists(t, s, id);
  }

  /** A verified INSERT takes effect: the row is added under a key that was free. */
  lemma InsertPublishes(t: Table, s: State, id: nat, key: Key, row: Row)
    requires Inv(t, s) && id in s.txns && s.txns[id].phase == InsertVerified(key, row)
    requires t.checks(row) && Conforms(t.columns, row) && NewKey(t, Absent, row, key) == Some(key)
    ensures var end := Run(t, s, [WriteInsert(id), Commit(id)]);
            && Publishes(s, id, end)
            && RowShown(Published(s), s.txns[id].overlay, key).None?
            && Adds(t, Published(s), s.txns[id].overlay, Published(end.value), key, row)
  {
    InsertKeyFree(t, s, id, key, row);
    InsertLands(t, s, id, key, row);
  }

  /** A row that fails CHECK or its types, or that belongs under another key, is not written. */
  lemma UnfitInsertFails(t: Table, s: State, id: nat, key: Key, row: Row)
    requires Inv(t, s) && id in s.txns && s.txns[id].phase == InsertVerified(key, row)
    requires !(t.checks(row) && Conforms(t.columns, row) && NewKey(t, Absent, row, key) == Some(key))
    ensures Step(t, s, WriteInsert(id)) == Some(Update(s, id, s.txns[id].(phase := Failed)))
  {
    ViewExists(t, s, id);
  }

  // ----- what is published fits the table ----------------------------------------------------

  /** The row passes CHECK and its types and is stored under its own key. */
  ghost predicate Fits(t: Table, key: Key, row: Row) {
    t.checks(row) && Conforms(t.columns, row) && NewKey(t, Present(key, row), row, []) == Some(key)
  }

  ghost predicate RowsFit(t: Table, rows: map<Key, Row>) { forall k :: k in rows ==> Fits(t, k, rows[k]) }

  ghost predicate WritesFit(t: Table, ov: Overlay) {
    forall k :: k in ov.rows && ov.rows[k].Some? ==> Fits(t, k, ov.rows[k].value)
  }

  ghost predicate TxnFits(t: Table, x: Txn) {
    WritesFit(t, x.overlay) && forall i :: 0 <= i < |x.saved| ==> WritesFit(t, x.saved[i])
  }

  ghost predicate StateFits(t: Table, s: State) {
    && (forall v :: 0 <= v < |s.history| ==> RowsFit(t, s.history[v].rows))
    && (forall id :: id in s.txns ==> TxnFits(t, s.txns[id]))
  }

  lemma WriteFits(t: Table, s: State, x: Txn, a: Action)
    requires x.view < |s.history| && TxnFits(t, x)
    ensures OnWriteUpdate(t, s, x).Some? ==> TxnFits(t, OnWriteUpdate(t, s, x).value)
    ensures OnWriteDelete(t, x).Some? ==> TxnFits(t, OnWriteDelete(t, x).value)
    ensures OnWriteInsert(t, x).Some? ==> TxnFits(t, OnWriteInsert(t, x).value)
    ensures OnStatement(s, x, a).Some? ==> TxnFits(t, OnStatement(s, x, a).value)
  {
  }

  lemma MergeFits(t: Table, db: Db, ov: Overlay)
    requires RowsFit(t, db.rows) && WritesFit(t, ov)
    ensures RowsFit(t, Merge(db, ov).rows)
  {
    forall k | k in Merge(db, ov).rows ensures Fits(t, k, Merge(db, ov).rows[k]) { MergeShows(db, ov, k, ("", [])); }
  }

  lemma AdvanceFits(t: Table, s: State, id: nat, x: Txn, a: Action)
    requires x.view < |s.history| && TxnFits(t, x) && Advance(t, s, id, x, a).Some?
    ensures TxnFits(t, Advance(t, s, id, x, a).value)
  {
    WriteFits(t, s, x, a);
  }

  lemma StepFits(t: Table, s: State, a: Action)
    requires s.history != [] && StateFits(t, s) && Step(t, s, a).Some?
    ensures StateFits(t, Step(t, s, a).value)
  {
    if a.Commit? {
      MergeFits(t, Published(s), s.txns[a.id].overlay);
    } else if !a.Begin? && !a.Abort? {
      AdvanceFits(t, s, a.id, s.txns[a.id], a);
    }
  }

  /** Over every interleaving each published row passes CHECK and its types and stands under its own key. */
  lemma {:induction false} PublishedRowsFit(t: Table, s: State, actions: seq<Action>)
    requires s.history != [] && StateFits(t, s) && Run(t, s, actions).Some?
    ensures StateFits(t, Run(t, s, actions).value)
    decreases |actions|
  {
    if actions != [] {
      StepFits(t, s, actions[0]);
      PublishedRowsFit(t, Step(t, s, actions[0]).value, actions[1..]);
    }
  }

  // ----- when the steps go through -----------------------------------------------------------

  /** No other transaction holds one of these resources. */
  ghost predicate Unclaimed(s: State, id: nat, resources: set<Resource>) {
    forall other, r :: other in s.txns && other != id && r in resources ==> r !in s.txns[other].locks
  }

  /** A statement claims a row it sees exactly when nobody else holds the row or one of its entries. */
  lemma TargetClaimedIff(t: Table, s: State, id: nat, key: Key)
    requires Inv(t, s) && id in s.txns && s.txns[id].phase.Idle? && key != []
    ensures var x := s.txns[id];
            var row := RowShown(s.history[x.view], x.overlay, key);
            && (Step(t, s, ClaimTarget(id, key)).Some? <==>
                  row.Some? && Unclaimed(s, id, XRecords(TargetClaim(t, key, row.value))))
            && (Step(t, s, ClaimTarget(id, key)).Some? ==>
                  var y := Step(t, s, ClaimTarget(id, key)).value.txns[id];
                  y == x.(locks := x.locks + XRecords(TargetClaim(t, key, row.value)),
                          phase := TargetClaimed(key, row.value)))
  {
    assert TxnInv(t, s.history, s.changed, s.txns[id]);
  }

  /** Under the claim the statement goes on exactly when the row is its own write or has not changed since its view. */
  lemma VerifiedIffUnchanged(t: Table, s: State, id: nat, key: Key, row: Row)
    requires Inv(t, s) && id in s.txns && s.txns[id].phase == TargetClaimed(key, row)
    ensures var x := s.txns[id];
            && Step(t, s, VerifyTarget(id)).Some?
            && var y := Step(t, s, VerifyTarget(id)).value.txns[id];
               && y.overlay == x.overlay && y.locks == x.locks && y.view == x.view
               && y.phase == if key in x.overlay.rows || ChangeOf(s.changed, key) <= x.view
                             then TargetVerified(key, row) else Doomed
  {
    var x := s.txns[id];
    assert TxnInv(t, s.history, s.changed, x);
    if key !in x.overlay.rows && ChangeOf(s.changed, key) <= x.view {
      assert RowIn(s.history[x.view], NO_WRITES, key) == RowIn(Published(s), NO_WRITES, key);
    }
  }

  /** A replacement is let through exactly when its new key is free and no unique value belongs to another row. */
  lemma ReplacementVerifiedIff(t: Table, s: State, id: nat, key: Key, row: Row, newKey: Key, updated: Row)
    requires Inv(t, s) && id in s.txns && s.txns[id].phase == ReplacementClaimed(key, row, newKey, updated)
    ensures var x := s.txns[id];
            && Step(t, s, VerifyReplacement(id)).Some?
            && (Step(t, s, VerifyReplacement(id)).value.txns[id]
                == x.(phase := ReplacementVerified(key, row, newKey, updated))
                <==> Available(t, Published(s), x.overlay, key, newKey, updated))
  {
    var x := s.txns[id];
    ViewExists(t, s, id);
    VerdictFreeIff(t, Published(s), s.history[x.view], x.overlay, key, newKey, updated);
  }

  /** The new key, when it is one, and the unique values belong to no other row. */
  ghost predicate Available(t: Table, db: Db, ov: Overlay, key: Key, newKey: Key, updated: Row) {
    && (newKey != key ==> RowShown(db, ov, newKey).None?)
    && forall e :: e in Reservations(t, updated) ==>
         var owner := OwnerShown(db, ov, e);
         owner.None? || owner.value == key || owner.value == newKey
  }

  lemma VerdictFreeIff(t: Table, db: Db, seen: Db, ov: Overlay, key: Key, newKey: Key, updated: Row)
    ensures ReplacementVerdict(t, db, seen, ov, key, newKey, updated).Free? <==>
            Available(t, db, ov, key, newKey, updated)
  {
    UniqueVerdictFree(t, db, seen, ov, key, newKey, updated);
    forall e ensures OwnerIn(db, ov, e) == OwnerShown(db, ov, e) {}
  }

  /** The unique value index i gives the row has an owner that is not the row itself. */
  ghost predicate ForeignAt(t: Table, db: Db, ov: Overlay, key: Key, newKey: Key, updated: Row, i: nat) {
    && i < |t.indexes| && HasReservation(t, t.indexes[i], updated)
    && var owner := OwnerShown(db, ov, (t.indexes[i].name, t.valueKey(t.indexes[i], updated).value));
       owner.Some? && owner.value != key && owner.value != newKey
  }

  /** The first foreign owner decides: a duplicate when the statement sees its row, a retry when it does not. */
  lemma {:induction false} FirstForeignDecides(t: Table, db: Db, seen: Db, ov: Overlay, key: Key, newKey: Key,
                                               updated: Row, from: nat, i: nat)
    requires from <= i && ForeignAt(t, db, ov, key, newKey, updated, i)
    requires forall j :: from <= j < i ==> !ForeignAt(t, db, ov, key, newKey, updated, j)
    ensures var owner := OwnerShown(db, ov, (t.indexes[i].name, t.valueKey(t.indexes[i], updated).value)).value;
            UniqueVerdict(t, db, seen, ov, key, newKey, updated, from)
            == if RowShown(seen, ov, owner).Some? then DuplicateValue else StaleValue
    decreases i - from
  {
    if from < i {
      assert !ForeignAt(t, db, ov, key, newKey, updated, from);
      FirstForeignDecides(t, db, seen, ov, key, newKey, updated, from + 1, i);
    }
  }

  // ----- whole statements --------------------------------------------------------------------

  /** One step that publishes nothing, at the front of a run. */
  lemma StepFirst(t: Table, s: State, a: Action, next: State, rest: seq<Action>)
    requires s.history != [] && Step(t, s, a) == Some(next)
    ensures next.history != [] && Run(t, s, [a] + rest) == Run(t, next, rest)
  {
    assert ([a] + rest)[1..] == rest;
  }

  lemma TwoStepsFirst(t: Table, s: State, a: Action, middle: State, b: Action, next: State, rest: seq<Action>)
    requires s.history != [] && Step(t, s, a) == Some(middle)
    requires middle.history != [] && Step(t, middle, b) == Some(next)
    ensures next.history != [] && Run(t, s, [a] + ([b] + rest)) == Run(t, next, rest)
  {
    StepFirst(t, s, a, middle, [b] + rest);
    StepFirst(t, middle, b, next, rest);
  }

  /** The transaction has taken a step of its own that left its writes and its view alone. */
  ghost predicate Advanced(s: State, id: nat, next: State)
    requires id in s.txns
  {
    && id in next.txns && next == Update(s, id, next.txns[id])
    && next.txns[id].overlay == s.txns[id].overlay && next.txns[id].view == s.txns[id].view
  }

  /** What has been published after a run is what was published after its first steps and then the rest. */
  lemma SamePublication(s: State, id: nat, next: State, end: Option<State>)
    requires id in s.txns && Advanced(s, id, next) && Publishes(next, id, end)
    ensures Publishes(s, id, end)
  {
  }

  /** A run that publishes a row write after some steps publishes it from where those steps began. */
  lemma CarriedBack(t: Table, s: State, id: nat, next: State, steps: seq<Action>, rest: seq<Action>, key: Key, row: Row,
                    newKey: Key, updated: Option<Row>)
    requires s.history != [] && id in s.txns && Advanced(s, id, next) && Run(t, s, steps) == Run(t, next, rest)
    requires Publishes(next, id, Run(t, next, rest))
    requires Replaces(t, Published(next), next.txns[id].overlay, Published(Run(t, next, rest).value), key, row, newKey,
                      updated)
    ensures Publishes(s, id, Run(t, s, steps))
    ensures Replaces(t, Published(s), s.txns[id].overlay, Published(Run(t, s, steps).value), key, row, newKey, updated)
  {
    SamePublication(s, id, next, Run(t, next, rest));
  }

  lemma CarriedBackInsert(t: Table, s: State, id: nat, next: State, steps: seq<Action>, rest: seq<Action>, key: Key,
                          row: Row)
    requires s.history != [] && id in s.txns && Advanced(s, id, next) && Run(t, s, steps) == Run(t, next, rest)
    requires Publishes(next, id, Run(t, next, rest))
    requires Adds(t, Published(next), next.txns[id].overlay, Published(Run(t, next, rest).value), key, row)
    ensures Publishes(s, id, Run(t, s, steps))
    ensures Adds(t, Published(s), s.txns[id].overlay, Published(Run(t, s, steps).value), key, row)
  {
    SamePublication(s, id, next, Run(t, next, rest));
  }

  ghost predicate Unchanged(s: State, id: nat, key: Key)
    requires id in s.txns
  {
    key in s.txns[id].overlay.rows || ChangeOf(s.changed, key) <= s.txns[id].view
  }

  lemma ClaimStep(t: Table, s: State, id: nat, key: Key, row: Row) returns (next: State)
    requires Inv(t, s) && id in s.txns && s.txns[id].phase.Idle? && key != []
    requires RowShown(s.history[s.txns[id].view], s.txns[id].overlay, key) == Some(row)
    requires Unclaimed(s, id, XRecords(TargetClaim(t, key, row)))
    ensures Step(t, s, ClaimTarget(id, key)) == Some(next) && Inv(t, next)
    ensures Advanced(s, id, next) && next.txns[id].phase == TargetClaimed(key, row)
  {
    TargetClaimedIff(t, s, id, key);
    next := Step(t, s, ClaimTarget(id, key)).value;
    StepKeepsInv(t, s, ClaimTarget(id, key));
  }

  lemma VerifyStep(t: Table, s: State, id: nat, key: Key, row: Row) returns (next: State)
    requires Inv(t, s) && id in s.txns && s.txns[id].phase == TargetClaimed(key, row) && Unchanged(s, id, key)
    ensures Step(t, s, VerifyTarget(id)) == Some(next) && Inv(t, next)
    ensures Advanced(s, id, next) && next.txns[id].phase == TargetVerified(key, row)
  {
    VerifiedIffUnchanged(t, s, id, key, row);
    next := Step(t, s, VerifyTarget(id)).value;
    StepKeepsInv(t, s, VerifyTarget(id));
  }

  lemma AdvancedTwice(s: State, id: nat, middle: State, next: State)
    requires id in s.txns && Advanced(s, id, middle) && Advanced(middle, id, next)
    ensures Advanced(s, id, next)
  {
  }

  /** Claiming and verifying a row that is free and unchanged gets to the verified phase. */
  lemma TargetReached(t: Table, s: State, id: nat, key: Key, row: Row, rest: seq<Action>) returns (next: State)
    requires Inv(t, s) && id in s.txns && s.txns[id].phase.Idle? && key != []
    requires RowShown(s.history[s.txns[id].view], s.txns[id].overlay, key) == Some(row)
    requires Unclaimed(s, id, XRecords(TargetClaim(t, key, row))) && Unchanged(s, id, key)
    ensures Inv(t, next) && Advanced(s, id, next) && next.txns[id].phase == TargetVerified(key, row)
    ensures Run(t, s, [ClaimTarget(id, key)] + ([VerifyTarget(id)] + rest)) == Run(t, next, rest)
  {
    var claimed := ClaimStep(t, s, id, key, row);
    next := VerifyStep(t, claimed, id, key, row);
    AdvancedTwice(s, id, claimed, next);
    TwoStepsFirst(t, s, ClaimTarget(id, key), claimed, VerifyTarget(id), next, rest);
  }

  /** A DELETE of a row that is free and unchanged since the statement's view goes through and takes effect. */
  lemma DeleteTakesEffect(t: Table, s: State, id: nat, key: Key, row: Row)
    requires Inv(t, s) && id in s.txns && s.txns[id].phase.Idle? && key != []
    requires RowShown(s.history[s.txns[id].view], s.txns[id].overlay, key) == Some(row)
    requires Unclaimed(s, id, XRecords(TargetClaim(t, key, row))) && Unchanged(s, id, key)
    ensures var end := Run(t, s, [ClaimTarget(id, key)] + ([VerifyTarget(id)] + [WriteDelete(id), Commit(id)]));
            && Publishes(s, id, end)
            && Replaces(t, Published(s), s.txns[id].overlay, Published(end.value), key, row, key, None)
  {
    var next := TargetReached(t, s, id, key, row, [WriteDelete(id), Commit(id)]);
    DeletePublishes(t, next, id, key, row);
    CarriedBack(t, s, id, next, [ClaimTarget(id, key)] + ([VerifyTarget(id)] + [WriteDelete(id), Commit(id)]),
                [WriteDelete(id), Commit(id)], key, row, key, None);
  }

  /** The replacement's key and unique values belong to no other row. */
  ghost predicate Free(t: Table, s: State, id: nat, key: Key, updated: Row)
    requires s.history != [] && id in s.txns
  {
    Available(t, Published(s), s.txns[id].overlay, key, MovedKey(t, key, updated), updated)
  }

  lemma ClaimReplacementStep(t: Table, s: State, id: nat, key: Key, row: Row, updated: Row) returns (next: State)
    requires Inv(t, s) && id in s.txns && s.txns[id].phase == TargetVerified(key, row)
    requires Unclaimed(s, id, XRecords(ReplacementClaim(t, key, row, updated)))
    ensures Step(t, s, ClaimReplacement(id, updated)) == Some(next) && Inv(t, next) && Advanced(s, id, next)
    ensures next.txns[id].phase == ReplacementClaimed(key, row, MovedKey(t, key, updated), updated)
  {
    assert TxnInv(t, s.history, s.changed, s.txns[id]);
    assert Grantable(s, id, XRecords(ReplacementClaim(t, key, row, updated)));
    next := Step(t, s, ClaimReplacement(id, updated)).value;
    StepKeepsInv(t, s, ClaimReplacement(id, updated));
  }

  lemma VerifyReplacementStep(t: Table, s: State, id: nat, key: Key, row: Row, updated: Row) returns (next: State)
    requires Inv(t, s) && id in s.txns && Free(t, s, id, key, updated)
    requires s.txns[id].phase == ReplacementClaimed(key, row, MovedKey(t, key, updated), updated)
    ensures Step(t, s, VerifyReplacement(id)) == Some(next) && Inv(t, next) && Advanced(s, id, next)
    ensures next.txns[id].phase == ReplacementVerified(key, row, MovedKey(t, key, updated), updated)
  {
    ReplacementVerifiedIff(t, s, id, key, row, MovedKey(t, key, updated), updated);
    next := Step(t, s, VerifyReplacement(id)).value;
    StepKeepsInv(t, s, VerifyReplacement(id));
  }

  /** Claiming and verifying a replacement nobody else stands in the way of. */
  lemma ReplacementReached(t: Table, s: State, id: nat, key: Key, row: Row, updated: Row, rest: seq<Action>)
    returns (next: State)
    requires Inv(t, s) && id in s.txns && s.txns[id].phase == TargetVerified(key, row)
    requires Unclaimed(s, id, XRecords(ReplacementClaim(t, key, row, updated))) && Free(t, s, id, key, updated)
    ensures Inv(t, next) && Advanced(s, id, next)
    ensures next.txns[id].phase == ReplacementVerified(key, row, MovedKey(t, key, updated), updated)
    ensures Run(t, s, [ClaimReplacement(id, updated)] + ([VerifyReplacement(id)] + rest)) == Run(t, next, rest)
  {
    var claimed := ClaimReplacementStep(t, s, id, key, row, updated);
    next := VerifyReplacementStep(t, claimed, id, key, row, updated);
    AdvancedTwice(s, id, claimed, next);
    TwoStepsFirst(t, s, ClaimReplacement(id, updated), claimed, VerifyReplacement(id), next, rest);
  }

  /** An UPDATE of a verified target whose replacement meets no other row goes through and takes effect. */
  lemma UpdateTakesEffect(t: Table, s: State, id: nat, key: Key, row: Row, updated: Row)
    requires Inv(t, s) && id in s.txns && s.txns[id].phase == TargetVerified(key, row)
    requires Unclaimed(s, id, XRecords(ReplacementClaim(t, key, row, updated))) && Free(t, s, id, key, updated)
    requires s.txns[id].view < |s.history|
    requires Writable(t, s.history[s.txns[id].view], s.txns[id].overlay, key, row, MovedKey(t, key, updated), updated)
    ensures var steps := [ClaimReplacement(id, updated)] + ([VerifyReplacement(id)] + [WriteUpdate(id), Commit(id)]);
            var end, newKey := Run(t, s, steps), MovedKey(t, key, updated);
            && Publishes(s, id, end)
            && Replaces(t, Published(s), s.txns[id].overlay, Published(end.value), key, row, newKey, Some(updated))
  {
    var next := ReplacementReached(t, s, id, key, row, updated, [WriteUpdate(id), Commit(id)]);
    WritableIsAccepted(t, s.history[s.txns[id].view], s.txns[id].overlay, key, row, MovedKey(t, key, updated), updated);
    UpdateCommits(t, next, id, key, row, MovedKey(t, key, updated), updated);
    CarriedBack(t, s, id, next,
                [ClaimReplacement(id, updated)] + ([VerifyReplacement(id)] + [WriteUpdate(id), Commit(id)]),
                [WriteUpdate(id), Commit(id)], key, row, MovedKey(t, key, updated), Some(updated));
  }

  /** No row has the key and none of the unique values is taken, in one version under the transaction's writes. */
  ghost predicate Vacant(t: Table, db: Db, ov: Overlay, key: Key, row: Row) {
    RowShown(db, ov, key).None? && forall e :: e in Reservations(t, row) ==> OwnerShown(db, ov, e).None?
  }

  lemma VacantProceeds(t: Table, db: Db, seen: Db, ov: Overlay, key: Key, row: Row)
    requires Vacant(t, db, ov, key, row) && Vacant(t, seen, ov, key, row)
    ensures InsertProceeds(t, db, seen, ov, key, row)
  {
    forall e | e in Reservations(t, row) ensures OwnerIn(seen, ov, e).None? && OwnerIn(db, ov, e).None? {
      assert OwnerShown(seen, ov, e).None? && OwnerShown(db, ov, e).None?;
    }
  }

  lemma ClaimInsertStep(t: Table, s: State, id: nat, row: Row, key: Key) returns (next: State)
    requires Inv(t, s) && id in s.txns && s.txns[id].phase.Idle? && key != [] && PrimaryKey(t, row) == Some(key)
    requires Unclaimed(s, id, XRecords(InsertClaim(t, key, row)))
    ensures Step(t, s, ClaimInsert(id, row, [])) == Some(next) && Advanced(s, id, next)
    ensures next.txns[id].phase == InsertClaimed(key, row) && next.txns[id].view < |next.history|
  {
    assert TxnInv(t, s.history, s.changed, s.txns[id]);
    assert Grantable(s, id, XRecords(InsertClaim(t, key, row)));
    next := Step(t, s, ClaimInsert(id, row, [])).value;
  }

  lemma VerifyInsertStep(t: Table, s: State, id: nat, key: Key, row: Row) returns (next: State)
    requires s.history != [] && id in s.txns && s.txns[id].view < |s.history|
    requires s.txns[id].phase == InsertClaimed(key, row)
    requires Vacant(t, Published(s), s.txns[id].overlay, key, row)
    requires Vacant(t, s.history[s.txns[id].view], s.txns[id].overlay, key, row)
    ensures Step(t, s, VerifyInsert(id)) == Some(next) && Advanced(s, id, next)
    ensures next.txns[id].phase == InsertVerified(key, row) && next.txns[id].view < |next.history|
  {
    VacantProceeds(t, Published(s), s.history[s.txns[id].view], s.txns[id].overlay, key, row);
    next := Step(t, s, VerifyInsert(id)).value;
  }

  /** A claim leaves what is free as it is. */
  lemma VerifyAfterClaim(t: Table, s: State, id: nat, claimed: State, key: Key, row: Row) returns (next: State)
    requires s.history != [] && id in s.txns && s.txns[id].view < |s.history| && Advanced(s, id, claimed)
    requires claimed.txns[id].phase == InsertClaimed(key, row)
    requires Vacant(t, Published(s), s.txns[id].overlay, key, row)
    requires Vacant(t, s.history[s.txns[id].view], s.txns[id].overlay, key, row)
    ensures claimed.history != [] && Step(t, claimed, VerifyInsert(id)) == Some(next)
    ensures Advanced(s, id, next) && next.txns[id].phase == InsertVerified(key, row)
  {
    next := VerifyInsertStep(t, claimed, id, key, row);
    AdvancedTwice(s, id, claimed, next);
  }

  /** Claiming and verifying a row nobody stands in the way of. */
  lemma InsertReached(t: Table, s: State, id: nat, row: Row, key: Key, rest: seq<Action>) returns (next: State)
    requires Inv(t, s) && id in s.txns && s.txns[id].phase.Idle? && key != [] && PrimaryKey(t, row) == Some(key)
    requires Unclaimed(s, id, XRecords(InsertClaim(t, key, row)))
    requires Vacant(t, Published(s), s.txns[id].overlay, key, row) && s.txns[id].view < |s.history|
    requires Vacant(t, s.history[s.txns[id].view], s.txns[id].overlay, key, row)
    ensures Advanced(s, id, next) && next.txns[id].phase == InsertVerified(key, row)
    ensures Run(t, s, [ClaimInsert(id, row, [])] + ([VerifyInsert(id)] + rest)) == Run(t, next, rest)
  {
    var claimed := ClaimInsertStep(t, s, id, row, key);
    next := VerifyAfterClaim(t, s, id, claimed, key, row);
    TwoStepsFirst(t, s, ClaimInsert(id, row, []), claimed, VerifyInsert(id), next, rest);
  }

  /** An INSERT of a row with a free key and free unique values goes through and takes effect. */
  lemma InsertTakesEffect(t: Table, s: State, id: nat, row: Row, key: Key)
    requires Inv(t, s) && id in s.txns && s.txns[id].phase.Idle? && key != [] && PrimaryKey(t, row) == Some(key)
    requires Unclaimed(s, id, XRecords(InsertClaim(t, key, row)))
    requires Vacant(t, Published(s), s.txns[id].overlay, key, row) && s.txns[id].view < |s.history|
    requires Vacant(t, s.history[s.txns[id].view], s.txns[id].overlay, key, row)
    requires t.checks(row) && Conforms(t.columns, row) && NewKey(t, Absent, row, key) == Some(key)
    ensures var end := Run(t, s, [ClaimInsert(id, row, [])] + ([VerifyInsert(id)] + [WriteInsert(id), Commit(id)]));
            && Publishes(s, id, end)
            && Adds(t, Published(s), s.txns[id].overlay, Published(end.value), key, row)
  {
    var next := InsertReached(t, s, id, row, key, [WriteInsert(id), Commit(id)]);
    InsertLands(t, next, id, key, row);
    CarriedBackInsert(t, s, id, next,
                      [ClaimInsert(id, row, [])] + ([VerifyInsert(id)] + [WriteInsert(id), Commit(id)]),
                      [WriteInsert(id), Commit(id)], key, row);
  }

  // ----- beginning, opening and undoing statements -------------------------------------------

  /** A transaction begins with the last published version and no writes. */
  lemma BeginSees(t: Table, s: State, id: nat, readCommitted: bool)
    requires s.history != [] && id !in s.txns
    ensures var begun := Step(t, s, Begin(id, readCommitted));
            && begun.Some? && begun.value.history == s.history
            && var x := begun.value.txns[id];
               x.overlay == NO_WRITES && x.view < |s.history| && s.history[x.view] == Published(s)
               && x.readCommitted == readCommitted
  {
  }

  /** A statement reads the last published version under READ COMMITTED and the transaction's first one otherwise. */
  lemma StatementSees(t: Table, s: State, id: nat)
    requires Inv(t, s) && id in s.txns && s.txns[id].phase.Idle?
    ensures var x := s.txns[id];
            && Step(t, s, Statement(id)).Some?
            && var y := Step(t, s, Statement(id)).value.txns[id];
               && y.overlay == x.overlay && y.saved == x.saved + [x.overlay] && y.view < |s.history|
               && s.history[y.view] == if x.readCommitted then Published(s) else s.history[x.snapshot]
  {
    assert TxnInv(t, s.history, s.changed, s.txns[id]);
  }

  /** A finished statement keeps its writes; an aborted transaction publishes none. */
  lemma ReleaseAndAbort(t: Table, s: State, id: nat)
    requires Inv(t, s) && id in s.txns
    ensures s.txns[id].phase.Idle? && s.txns[id].saved != [] ==>
              var x := s.txns[id];
              Step(t, s, Release(id)) == Some(Update(s, id, x.(saved := x.saved[..|x.saved| - 1])))
    ensures var end := Step(t, s, Abort(id));
            end.Some? && end.value.history == s.history && end.value.txns == s.txns - {id}
  {
    assert TxnInv(t, s.history, s.changed, s.txns[id]);
  }

  /** Along the run the transaction stays open with more than n overlays saved. */
  ghost predicate StaysOpen(t: Table, s: State, actions: seq<Action>, id: nat, n: nat)
    requires s.history != []
    decreases |actions|
  {
    && id in s.txns && |s.txns[id].saved| > n
    && (actions != [] && Step(t, s, actions[0]).Some? ==>
          StaysOpen(t, Step(t, s, actions[0]).value, actions[1..], id, n))
  }

  lemma StepKeepsSaved(t: Table, s: State, a: Action, id: nat, n: nat)
    requires s.history != [] && id in s.txns && |s.txns[id].saved| > n && Step(t, s, a).Some?
    requires id in Step(t, s, a).value.txns && |Step(t, s, a).value.txns[id].saved| > n
    ensures var x, y := s.txns[id], Step(t, s, a).value.txns[id];
            && y.saved[n] == x.saved[n] && y.saved[..n] == x.saved[..n]
            && (a != Statement(id) ==> y.view == x.view)
            && (x.snapshot < |s.history| ==> y.snapshot < |s.history|)
            && (x.snapshot < |s.history| && x.view < |s.history| ==> y.view < |s.history|)
  {
  }

  lemma {:induction false} RunKeepsSaved(t: Table, s: State, actions: seq<Action>, id: nat, n: nat)
    requires s.history != [] && StaysOpen(t, s, actions, id, n) && Run(t, s, actions).Some?
    requires s.txns[id].snapshot < |s.history| && s.txns[id].view < |s.history|
    ensures var end := Run(t, s, actions).value;
            && id in end.txns && |end.txns[id].saved| > n && end.txns[id].view < |end.history|
            && end.txns[id].saved[n] == s.txns[id].saved[n] && end.txns[id].saved[..n] == s.txns[id].saved[..n]
            && (Statement(id) !in actions ==> end.txns[id].view == s.txns[id].view)
    decreases |actions|
  {
    if actions != [] {
      var next := Step(t, s, actions[0]).value;
      StepKeepsSaved(t, s, actions[0], id, n);
      RunKeepsSaved(t, next, actions[1..], id, n);
      assert Statement(id) !in actions ==> Statement(id) !in actions[1..];
    }
  }

  /** The statement opened in s as `first`, and after the body it is the innermost open one again in `last`. */
  ghost predicate StatementRan(t: Table, s: State, id: nat, first: State, body: seq<Action>, last: State)
    requires s.history != [] && id in s.txns
  {
    && Step(t, s, Statement(id)) == Some(first) && first.history != []
    && StaysOpen(t, first, body, id, |s.txns[id].saved|) && Run(t, first, body) == Some(last)
    && id in last.txns && |last.txns[id].saved| == |s.txns[id].saved| + 1
  }

  /**
   Undoing a statement: whatever it and other transactions did since it opened, Restore gives the transaction the
   writes it had then; unless it opened further statements it sees exactly the rows it saw then.
   */
  lemma RestoreReturns(t: Table, s: State, id: nat, first: State, body: seq<Action>, last: State)
    requires Inv(t, s) && id in s.txns && s.txns[id].phase.Idle? && StatementRan(t, s, id, first, body, last)
    requires !last.txns[id].phase.Doomed?
    ensures var end := Step(t, last, Restore(id));
            && end.Some? && end.value.history == last.history
            && end.value.txns[id].overlay == s.txns[id].overlay && end.value.txns[id].saved == s.txns[id].saved
            && end.value.txns[id].phase.Idle? && id in first.txns
            && (Statement(id) !in body ==>
                  && end.value.txns[id].view == first.txns[id].view < |first.history|
                  && last.history[first.txns[id].view] == first.history[first.txns[id].view]
                  && forall k ::
                       RowShown(last.history[end.value.txns[id].view], end.value.txns[id].overlay, k)
                       == RowShown(first.history[first.txns[id].view], first.txns[id].overlay, k))
  {
    StatementSees(t, s, id);
    var n := |s.txns[id].saved|;
    RunKeepsSaved(t, first, body, id, n);
    assert last.txns[id].saved[..n] == s.txns[id].saved;
    assert first.history <= last.history;
  }
}
