/**
 Locking reads (SELECT ... FOR UPDATE / FOR SHARE): the locks each access plan takes, and the proof that no other
 transaction can claim a write that would change the rows the read returned.
 */
module LockingRead {
  import opened Wrappers
  import opened Bytes
  import opened Schema
  import opened IndexMaintenance
  import opened LockClaims
  import opened Expressions
  import opened RangeAccess

  // ----- the lock manager's rule -------------------------------------------------------------

  predicate EmptyInterval(i: Component)
    requires i.Interval?
  {
    i.lower.Some? && i.lower == i.upper && !(i.lowerInclusive && i.upperInclusive)
  }

  /** gapBlocksInsertion. */
  predicate GapBlocks(gap: Component, key: Data)
    requires gap.Interval?
  {
    !EmptyInterval(gap) && InKeyRange(KeyRange(gap.lower, gap.upper, gap.lowerInclusive, gap.upperInclusive), key)
  }

  /** modesCompatible for two claims on one record. */
  predicate RecordsCompatible(request: Mode, held: Mode) {
    match held
    case IS => true
    case IX => true
    case S => request != X
    case X => request == Gap || request == IS || request == IX
    case Gap => request != InsertIntention
    case InsertIntention => request != Gap && request != X
  }

  /** componentsConflict for components of one domain; components of different domains never meet. */
  predicate Conflict(request: Component, held: Component) {
    match (request, held)
    case (Record(m, space, key), Record(h, heldSpace, heldKey)) =>
      space == heldSpace && key == heldKey && !RecordsCompatible(m, h)
    case (Record(m, space, key), Interval(heldSpace, _, _, _, _)) =>
      m == InsertIntention && space == heldSpace && GapBlocks(held, key)
    case (Interval(space, _, _, _, _), Record(h, heldSpace, heldKey)) =>
      h == InsertIntention && space == heldSpace && GapBlocks(request, heldKey)
    case _ => false
  }

  ghost predicate Blocked(claims: seq<Component>, held: seq<Component>) {
    exists c, h :: c in claims && h in held && Conflict(c, h)
  }

  lemma Blocks(claims: seq<Component>, held: seq<Component>, c: Component, h: Component)
    requires c in claims && h in held && Conflict(c, h)
    ensures Blocked(claims, held)
  {
  }

  // ----- what a locking read holds -----------------------------------------------------------

  datatype LockPlan = RecordOnly | Range(bounds: KeyRange) | WholeDomain

  /** planSQLLocking: the planner names no space for a primary range, so its interval is not yet proven. */
  function PlanLocking(plan: Plan): LockPlan {
    if plan.Point? || plan.Unique? then RecordOnly else WholeDomain
  }

  /** provenPrimaryInterval, applied by the reader to a whole-domain plan. */
  function ResolveInterval(plan: Plan, locks: LockPlan): LockPlan {
    if locks.WholeDomain? && (plan.Ranged? || plan.Ordered?) && (plan.bounds.lower.Some? || plan.bounds.upper.Some?)
    then Range(plan.bounds)
    else locks
  }

  function ScanBounds(plan: Plan): KeyRange {
    match ResolveInterval(plan, PlanLocking(plan))
    case Range(bounds) => bounds
    case _ => UNBOUNDED
  }

  function IntervalOf(space: Space, r: KeyRange): Component {
    Interval(space, r.lower, r.upper, r.lowerInclusive, r.upperInclusive)
  }

  /** The published neighbours of an absent key, as KeysAround reports them. */
  ghost predicate Neighbours(keys: set<Key>, key: Key, previous: Option<Key>, next: Option<Key>) {
    && (previous.None? ==> forall k :: k in keys ==> !Less(k, key))
    && (previous.Some? ==> previous.value in keys && Less(previous.value, key)
                           && forall k :: k in keys && Less(k, key) ==> !Less(previous.value, k))
    && (next.None? ==> forall k :: k in keys ==> !Less(key, k))
    && (next.Some? ==> next.value in keys && Less(key, next.value)
                       && forall k :: k in keys && Less(key, k) ==> !Less(k, next.value))
  }

  /** The gap protectInsertionPosition claims is the open gap around the absent key: the key, and no existing key. */
  lemma InsertionGapExact(space: Space, keys: set<Key>, key: Key, previous: Option<Key>, next: Option<Key>, k: Key)
    requires Neighbours(keys, key, previous, next) && key !in keys
    ensures var gap := IntervalOf(space, KeyRange(previous, next, false, false));
            GapBlocks(gap, key) && (k in keys ==> !GapBlocks(gap, k))
  {
    if previous.Some? && next.Some? {
      LessTransitive(previous.value, key, next.value);
      LessIrreflexive(previous.value);
    }
    if k in keys { LessTotal(k, key); }
  }

  /** A grant names the components one locking read holds once it has returned its rows. */
  ghost predicate Holds(t: Table, plan: Plan, mode: Mode, rows: map<Key, Row>, unique: map<Slot, Key>,
                        held: seq<Component>)
  {
    && (mode == S || mode == X)
    && match plan
       case Point(key) =>
         && Record(mode, Rows(t.id), key) in held
       case Unique(index, key) =>
         && Record(mode, UniqueIndex(t.id, index.name), key) in held
         && ((index.name, key) in unique ==> Record(mode, Rows(t.id), unique[(index.name, key)]) in held)
       case _ =>
         && IntervalOf(Rows(t.id), ScanBounds(plan)) in held
         && forall k :: k in rows && InKeyRange(ScanBounds(plan), k) ==> Record(mode, Rows(t.id), k) in held
  }

  // ----- writes ------------------------------------------------------------------------------

  datatype Write =
    | Inserting(key: Key, row: Row)
    | Updating(oldKey: Key, updated: Row)
    | Deleting(oldKey: Key)

  /** The claims a statement takes, in one or two requests, before it applies the write. */
  function Claims(t: Table, rows: map<Key, Row>, w: Write): seq<Component>
    requires !w.Inserting? ==> w.oldKey in rows
  {
    match w
    case Inserting(key, row) => InsertClaim(t, key, row)
    case Updating(oldKey, updated) =>
      TargetClaim(t, oldKey, rows[oldKey]) + ReplacementClaim(t, oldKey, rows[oldKey], updated)
    case Deleting(oldKey) => TargetClaim(t, oldKey, rows[oldKey])
  }

  function After(t: Table, rows: map<Key, Row>, w: Write): map<Key, Row> {
    match w
    case Inserting(key, row) => rows[key := row]
    case Updating(oldKey, updated) => (rows - {oldKey})[MovedKey(t, oldKey, updated) := updated]
    case Deleting(oldKey) => rows - {oldKey}
  }

  /** A write the statement would carry out: a fresh key for an insert, a stored target otherwise. */
  ghost predicate Legal(t: Table, rows: map<Key, Row>, w: Write) {
    match w
    case Inserting(key, row) => key !in rows && Conforms(t.columns, row) && PrimaryKey(t, row) == Some(key)
    case Updating(oldKey, updated) =>
      oldKey in rows && Conforms(t.columns, updated) && PrimaryKey(t, updated).Some?
      && (MovedKey(t, oldKey, updated) == oldKey || MovedKey(t, oldKey, updated) !in rows)
    case Deleting(oldKey) => oldKey in rows
  }

  function PriorOf(rows: map<Key, Row>, w: Write): Prior
    requires !w.Inserting? ==> w.oldKey in rows
  {
    if w.Inserting? then Absent else Present(w.oldKey, rows[w.oldKey])
  }

  function NewRowOf(w: Write): Option<Row> {
    match w
    case Inserting(_, row) => Some(row)
    case Updating(_, updated) => Some(updated)
    case Deleting(_) => None
  }

  /** Every row write the engine carries out is one of these, and these change the rows as row writes do. */
  lemma WriteIsLegal(t: Table, rows: map<Key, Row>, w: Write)
    requires ValidTable(t) && NonEmptyKeys(t) && PrimaryIndex(t).Some?
    requires !w.Inserting? ==> w.oldKey in rows && w.oldKey != []
    requires w.Inserting? ==> NewKey(t, Absent, w.row, []) == Some(w.key)
    requires Outcome(t, rows, PriorOf(rows, w), NewRowOf(w), []) == Written
    ensures Legal(t, rows, w)
    ensures After(t, rows, w) == RowsAfter(t, rows, PriorOf(rows, w), NewRowOf(w), [])
  {
    match w
    case Inserting(key, row) =>
    case Deleting(oldKey) =>
    case Updating(oldKey, updated) =>
      var newKey := NewKey(t, PriorOf(rows, w), updated, []).value;
      WrittenKey(t, oldKey, rows[oldKey], updated, newKey);
  }

  /** The rows a read returns: the stored rows WHERE accepts. */
  ghost function Answer(env: Env, where: Option<Expr>, rows: map<Key, Row>): map<Key, Row> {
    map k | k in rows && Accepts(env, where, rows[k]) :: rows[k]
  }

  /** The answer is what a full scan selects, with the stored rows. */
  lemma AnswerIsFullScan(env: Env, t: Table, where: Option<Expr>, rows: map<Key, Row>, scan: seq<Key>)
    requires RowsConform(t, rows) && SafeWhere(t, where) && WhereBad(where).None? && Lists(scan, rows.Keys)
    requires forall k :: k in scan ==> k in rows
    ensures var r := Select(env, where, rows, scan);
            r.Ok? && multiset(r.value) == multiset(Answer(env, where, rows).Keys)
    ensures forall k :: k in Answer(env, where, rows) ==> k in rows && Answer(env, where, rows)[k] == rows[k]
  {
    SelectGood(env, t, where, rows, scan);
    var r, answer := Select(env, where, rows, scan).value, Answer(env, where, rows).Keys;
    forall k ensures multiset(r)[k] == multiset(answer)[k] { assert multiset(scan)[k] == multiset(rows.Keys)[k]; }
  }

  /** A write of rows WHERE rejects leaves the answer alone. */
  lemma AnswerKept(env: Env, t: Table, where: Option<Expr>, rows: map<Key, Row>, w: Write)
    requires Legal(t, rows, w)
    requires !w.Inserting? ==> !Accepts(env, where, rows[w.oldKey])
    requires w.Inserting? ==> !Accepts(env, where, w.row)
    requires w.Updating? ==> !Accepts(env, where, w.updated)
    ensures Answer(env, where, After(t, rows, w)) == Answer(env, where, rows)
  {
  }

  // ----- no phantom --------------------------------------------------------------------------

  lemma ScanBoundsAdmit(t: Table, where: Option<Expr>, fits: (DataType, int) -> bool, plan: Plan, env: Env, key: Key,
                        row: Row)
    requires PlanOf(t, where, fits, plan) && !plan.Unique? && t.integerKey && IntegerPrimary(t).Some?
    requires Conforms(t.columns, row) && PrimaryKey(t, row) == Some(key) && Accepts(env, where, row)
    ensures plan.Point? ==> key == plan.key
    ensures !plan.Point? ==> InKeyRange(ScanBounds(plan), key)
  {
    var p := IntegerPrimary(t).value;
    if where.Some? && !plan.All? { TrueMeansWithin(env, t.columns, where.value, row, p); }
  }

  lemma UniqueRecordClaimed(env: Env, t: Table, where: Option<Expr>, fits: (DataType, int) -> bool, plan: Plan,
                            owner: Key, row: Row,
                            isNew: Index -> bool)
    requires PlanOf(t, where, fits, plan) && plan.Unique? && KeysProject(t)
    requires Conforms(t.columns, row) && Accepts(env, where, row)
    ensures Record(X, UniqueIndex(t.id, plan.index.name), plan.key) in EntriesUpTo(t, owner, row, isNew, |t.indexes|)
  {
    ProbedRow(env, t, where.value, fits, plan.index, plan.key, row);
    var i :| 0 <= i < |t.indexes| && t.indexes[i] == plan.index;
    assert EntryIdentity(t, t.indexes[i], owner, row) == Some((UniqueIndex(t.id, plan.index.name), plan.key));
    EntriesMember(t, owner, row, isNew, |t.indexes|, UniqueIndex(t.id, plan.index.name), plan.key);
  }

  /** A target the read returned is locked by it, so a statement cannot even claim the target. */
  lemma ReturnedRowIsHeld(env: Env, t: Table, where: Option<Expr>, fits: (DataType, int) -> bool, plan: Plan,
                          mode: Mode,
                          rows: map<Key, Row>, unique: map<Slot, Key>, held: seq<Component>, oldKey: Key)
    requires KeysProject(t) && RowsConform(t, rows) && UniqueExact(t, rows, unique) && t.integerKey
             && IntegerPrimary(t).Some?
    requires PlanOf(t, where, fits, plan) && Holds(t, plan, mode, rows, unique, held)
    requires oldKey in rows && Accepts(env, where, rows[oldKey])
    ensures Blocked(TargetClaim(t, oldKey, rows[oldKey]), held)
  {
    var claim := TargetClaim(t, oldKey, rows[oldKey]);
    assert claim[1] == Record(X, Rows(t.id), oldKey);
    assert PrimaryIndex(t).Some?;
    if plan.Unique? {
      AcceptedIsVisited(env, t, where, fits, plan, rows, unique, oldKey);
    } else {
      ScanBoundsAdmit(t, where, fits, plan, env, oldKey, rows[oldKey]);
    }
    Blocks(claim, held, Record(X, Rows(t.id), oldKey), Record(mode, Rows(t.id), oldKey));
  }

  lemma ArrivingRowIsBlocked(env: Env, t: Table, where: Option<Expr>, fits: (DataType, int) -> bool, plan: Plan,
                             mode: Mode,
                             rows: map<Key, Row>, unique: map<Slot, Key>, held: seq<Component>,
                             key: Key, row: Row, isNew: Index -> bool, more: seq<Component>)
    requires KeysProject(t) && t.integerKey && IntegerPrimary(t).Some?
    requires PlanOf(t, where, fits, plan) && Holds(t, plan, mode, rows, unique, held)
    requires Conforms(t.columns, row) && PrimaryKey(t, row) == Some(key) && Accepts(env, where, row)
    requires Record(InsertIntention, Rows(t.id), key) in more || key in rows
    ensures Blocked(RowLocks(t, key, EntriesUpTo(t, key, row, isNew, |t.indexes|) + more), held)
  {
    var entries := EntriesUpTo(t, key, row, isNew, |t.indexes|);
    var claim := RowLocks(t, key, entries + more);
    assert claim[1] == Record(X, Rows(t.id), key);
    if plan.Unique? {
      UniqueRecordClaimed(env, t, where, fits, plan, key, row, isNew);
      var space := UniqueIndex(t.id, plan.index.name);
      Blocks(claim, held, Record(X, space, plan.key), Record(mode, space, plan.key));
    } else {
      ScanBoundsAdmit(t, where, fits, plan, env, key, row);
      if plan.Point? || key in rows {
        Blocks(claim, held, Record(X, Rows(t.id), key), Record(mode, Rows(t.id), key));
      } else {
        var gap := IntervalOf(Rows(t.id), ScanBounds(plan));
        NonEmptyInterval(gap, key);
        Blocks(claim, held, Record(InsertIntention, Rows(t.id), key), gap);
      }
    }
  }

  lemma NonEmptyInterval(gap: Component, key: Data)
    requires gap.Interval? && InKeyRange(KeyRange(gap.lower, gap.upper, gap.lowerInclusive, gap.upperInclusive), key)
    ensures GapBlocks(gap, key)
  {
    if EmptyInterval(gap) {
      LessIrreflexive(key);
      LessTotal(gap.lower.value, key);
      if Less(gap.lower.value, key) { LessAsymmetric(gap.lower.value, key); }
    }
  }

  /**
   No phantom: while the read's locks are held, every insert, update or delete of another transaction that would
   change what the read returned claims a component the lock manager refuses to grant.
   */
  lemma NoPhantom(env: Env, t: Table, where: Option<Expr>, fits: (DataType, int) -> bool, plan: Plan, mode: Mode,
                  rows: map<Key, Row>, unique: map<Slot, Key>, held: seq<Component>, w: Write)
    requires KeysProject(t) && RowsConform(t, rows) && UniqueExact(t, rows, unique) && t.integerKey
             && IntegerPrimary(t).Some?
    requires PlanOf(t, where, fits, plan) && Holds(t, plan, mode, rows, unique, held)
    requires Legal(t, rows, w) && Answer(env, where, After(t, rows, w)) != Answer(env, where, rows)
    ensures Blocked(Claims(t, rows, w), held)
  {
    match w
    case Inserting(key, row) =>
      if !Accepts(env, where, row) { AnswerKept(env, t, where, rows, w); }
      assert key != [];
      ArrivingRowIsBlocked(env, t, where, fits, plan, mode, rows, unique, held, key, row, _ => true,
        IntentionOn(Rows(t.id), key));
    case Deleting(oldKey) =>
      if !Accepts(env, where, rows[oldKey]) { AnswerKept(env, t, where, rows, w); }
      ReturnedRowIsHeld(env, t, where, fits, plan, mode, rows, unique, held, oldKey);
    case Updating(oldKey, updated) =>
      UpdateIsBlocked(env, t, where, fits, plan, mode, rows, unique, held, oldKey, updated);
  }

  lemma UpdateIsBlocked(env: Env, t: Table, where: Option<Expr>, fits: (DataType, int) -> bool, plan: Plan, mode: Mode,
                        rows: map<Key, Row>, unique: map<Slot, Key>, held: seq<Component>, oldKey: Key, updated: Row)
    requires KeysProject(t) && RowsConform(t, rows) && UniqueExact(t, rows, unique) && t.integerKey
             && IntegerPrimary(t).Some?
    requires PlanOf(t, where, fits, plan) && Holds(t, plan, mode, rows, unique, held)
    requires Legal(t, rows, Updating(oldKey, updated))
    requires Answer(env, where, After(t, rows, Updating(oldKey, updated))) != Answer(env, where, rows)
    ensures Blocked(Claims(t, rows, Updating(oldKey, updated)), held)
  {
    var target, replacement := TargetClaim(t, oldKey, rows[oldKey]), ReplacementClaim(t, oldKey, rows[oldKey], updated);
    var newKey := MovedKey(t, oldKey, updated);
    if Accepts(env, where, rows[oldKey]) {
      ReturnedRowIsHeld(env, t, where, fits, plan, mode, rows, unique, held, oldKey);
      var c, h :| c in target && h in held && Conflict(c, h);
      Blocks(target + replacement, held, c, h);
    } else {
      if !Accepts(env, where, updated) { AnswerKept(env, t, where, rows, Updating(oldKey, updated)); }
      var more := if newKey != oldKey then IntentionOn(Rows(t.id), newKey) else [];
      ArrivingRowIsBlocked(env, t, where, fits, plan, mode, rows, unique, held, newKey, updated,
                           IsNewEntry(t, oldKey, rows[oldKey], newKey, updated), more);
      var c, h :| c in replacement && h in held && Conflict(c, h);
      Blocks(target + replacement, held, c, h);
    }
  }

  // ----- and no more than that ---------------------------------------------------------------

  function ScanIntent(t: Table, mode: Mode): Component { TableIntent(if mode == S then IS else IX, t.id) }

  /** The locks of a scan: the table intention, the interval, and beyond that only records inside it. */
  ghost predicate ScanLocks(t: Table, plan: Plan, mode: Mode, held: seq<Component>) {
    && ScanIntent(t, mode) in held && IntervalOf(Rows(t.id), ScanBounds(plan)) in held
    && forall h :: h in held ==>
         || h == ScanIntent(t, mode) || h == IntervalOf(Rows(t.id), ScanBounds(plan))
         || (h.Record? && h.mode == mode && h.space == Rows(t.id) && InKeyRange(ScanBounds(plan), h.key))
  }

  /** A range read delays exactly the inserts inside its interval: elsewhere a proven interval blocks nothing. */
  lemma ScanBlocksInsertIff(t: Table, plan: Plan, mode: Mode, held: seq<Component>, key: Key, row: Row)
    requires (mode == S || mode == X) && ScanLocks(t, plan, mode, held) && key != []
    ensures Blocked(InsertClaim(t, key, row), held) <==> InKeyRange(ScanBounds(plan), key)
  {
    var entries := EntriesUpTo(t, key, row, _ => true, |t.indexes|);
    var claim := InsertClaim(t, key, row);
    var gap := IntervalOf(Rows(t.id), ScanBounds(plan));
    if InKeyRange(ScanBounds(plan), key) {
      NonEmptyInterval(gap, key);
      assert Record(InsertIntention, Rows(t.id), key) in IntentionOn(Rows(t.id), key);
      Blocks(claim, held, Record(InsertIntention, Rows(t.id), key), gap);
    } else {
      forall c, h | c in claim && h in held ensures !Conflict(c, h) {
        if c in entries { EntriesOutsideRows(t, key, row, _ => true, |t.indexes|, c); }
      }
    }
  }

  lemma ReadersConflict(t: Table, plan: Plan, mode: Mode, locks: seq<Component>, other: Plan, held: seq<Component>,
                        c: Component, h: Component)
    requires (mode == S || mode == X) && ScanLocks(t, plan, mode, locks) && ScanLocks(t, other, S, held)
    requires c in locks && h in held && Conflict(c, h)
    ensures mode == X && c.Record? && c == Record(X, Rows(t.id), c.key) && h == Record(S, Rows(t.id), c.key)
  {
  }

  /** Shared reads never delay one another, whatever they lock; an exclusive one is delayed by a common row alone. */
  lemma ReadersMeet(t: Table, plan: Plan, mode: Mode, locks: seq<Component>, other: Plan, held: seq<Component>)
    requires (mode == S || mode == X) && ScanLocks(t, plan, mode, locks) && ScanLocks(t, other, S, held)
    ensures Blocked(locks, held) <==>
            mode == X && exists k :: Record(X, Rows(t.id), k) in locks && Record(S, Rows(t.id), k) in held
  {
    if mode == X && exists k :: Record(X, Rows(t.id), k) in locks && Record(S, Rows(t.id), k) in held {
      var k :| Record(X, Rows(t.id), k) in locks && Record(S, Rows(t.id), k) in held;
      Blocks(locks, held, Record(X, Rows(t.id), k), Record(S, Rows(t.id), k));
    }
    if Blocked(locks, held) {
      var c, h :| c in locks && h in held && Conflict(c, h);
      ReadersConflict(t, plan, mode, locks, other, held, c, h);
    }
  }

  lemma {:induction false} EntriesOutsideRows(t: Table, owner: Key, row: Row, isNew: Index -> bool, n: nat,
                                              c: Component)
    requires n <= |t.indexes| && c in EntriesUpTo(t, owner, row, isNew, n)
    ensures c.Record? && !c.space.Rows?
  {
    if n > 0 && c in EntriesUpTo(t, owner, row, isNew, n - 1) {
      EntriesOutsideRows(t, owner, row, isNew, n - 1, c);
    }
  }

  /** intervalOrdered refuses this interval, so a locking read with such bounds fails instead of reading nothing. */
  predicate Refused(i: Component)
    requires i.Interval?
  {
    i.lower.Some? && i.upper.Some? && (Less(i.upper.value, i.lower.value) || EmptyInterval(i))
  }

  /** Only intervals that contain no key are refused: the read that fails would have returned no row. */
  lemma RefusedIsEmpty(space: Space, r: KeyRange, key: Data)
    requires Refused(IntervalOf(space, r))
    ensures !InKeyRange(r, key)
  {
    var lower, upper := r.lower.value, r.upper.value;
    LessIrreflexive(lower);
    if Less(lower, key) && Less(key, upper) { LessTransitive(lower, key, upper); }
    if Less(lower, upper) { LessAsymmetric(lower, upper); }
  }
}
