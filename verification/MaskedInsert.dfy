/**
 A run with a masked INSERT. One transaction moves a row to a new unique value and commits. Another one, whose
 snapshot still shows that row under its old value, inserts the same value, and both rows end up published.
 */
module MaskedInsert {
  import opened Wrappers
  import opened Bytes
  import opened Schema
  import opened IndexMaintenance
  import opened LockClaims
  import opened LockedDml

  /** Two integer columns: a primary key and a unique column `u` over small values. */
  function ExampleTable(): Table {
    Table("t", [Column(TypeBigInt, false), Column(TypeBigInt, false)],
          [Index("PRIMARY", [0], true, true), Index("u", [1], false, true)], true, true, true,
          (index: Index, row: Row) => if |row| == 2 && row[1].Integer? && 0 <= row[1].n < 256 then Some([row[1].n])
            else None,
          (row: Row) => true, (row: Row) => true)
  }

  function ExampleRow(id: int, u: byte): Row { [Integer(TypeBigInt, id), Integer(TypeBigInt, u)] }

  lemma ExampleReservations(id: int, u: byte)
    ensures Reservations(ExampleTable(), ExampleRow(id, u)) == {("u", [u])}
  {
    var t, row := ExampleTable(), ExampleRow(id, u);
    assert HasReservation(t, t.indexes[1], row) && !HasReservation(t, t.indexes[0], row);
    assert (t.indexes[1].name, t.valueKey(t.indexes[1], row).value) == ("u", [u]);
  }

  lemma ExampleKey(id: int, u: byte)
    requires IsInt64(id)
    ensures PrimaryKey(ExampleTable(), ExampleRow(id, u)) == Some(SignedInteger(id))
  {
    var t := ExampleTable();
    assert t.indexes[0].primary;
    assert PrimaryIndex(t) == Some(t.indexes[0]);
    assert IntegerPrimary(t) == Some(0);
  }

  /** What the example needs of a table: row A moves from value e to value f, and row C is inserted with f. */
  ghost predicate ExampleFacts(t: Table, k1: Key, k2: Key, a: Row, b: Row, c: Row, e: Slot, f: Slot) {
    && k1 != k2 && k1 != [] && k2 != [] && e != f
    && Reservations(t, a) == {e} && Reservations(t, b) == {f} && Reservations(t, c) == {f}
    && WriteAccepted(t, Db(map[k1 := a], map[e := k1]), NO_WRITES, k1, a, k1, b) && MovedKey(t, k1, b) == k1
    && InsertAccepted(t, k2, c) && PrimaryKey(t, c) == Some(k2)
  }

  /** No lock stands in the way of a transaction when every other one holds none. */
  lemma Unopposed(s: State, id: nat, claim: set<Resource>)
    requires forall other :: other in s.txns && other != id ==> s.txns[other].locks == {}
    ensures Grantable(s, id, claim)
  {
  }

  ghost function ExampleTarget(t: Table, k1: Key, a: Row): Txn {
    Txn(0, false, 0, NO_WRITES, [], {} + XRecords(TargetClaim(t, k1, a)), TargetVerified(k1, a), map[k1 := 0])
  }

  /** Transaction 2 claims and verifies row A. */
  lemma ExampleClaim(t: Table, s: State, k1: Key, k2: Key, a: Row, b: Row, c: Row, e: Slot, f: Slot, rest: seq<Action>)
    requires ExampleFacts(t, k1, k2, a, b, c, e, f)
    requires |s.history| == 1 && s.history[0] == Db(map[k1 := a], map[e := k1]) && s.changed == map[]
    requires s.txns == map[1 := Started(s, false)]
    ensures Run(t, Update(s, 2, Started(s, false)), [ClaimTarget(2, k1)] + ([VerifyTarget(2)] + rest))
            == Run(t, Update(s, 2, ExampleTarget(t, k1, a)), rest)
  {
    var x0, x2 := Started(s, false), ExampleTarget(t, k1, a);
    var x1 := x2.(phase := TargetClaimed(k1, a), basis := map[]);
    ExampleClaimStep(t, s, k1, a, e, x0, x1);
    Take(t, s, 2, x0, x1, ClaimTarget(2, k1), [VerifyTarget(2)] + rest);
    ExampleVerifyStep(t, s, k1, a, e, x1, x2);
    Take(t, s, 2, x1, x2, VerifyTarget(2), rest);
  }

  lemma ExampleClaimStep(t: Table, s: State, k1: Key, a: Row, e: Slot, x0: Txn, x1: Txn)
    requires |s.history| == 1 && s.history[0] == Db(map[k1 := a], map[e := k1]) && s.changed == map[] && k1 != []
    requires s.txns == map[1 := Started(s, false)] && x0 == Started(s, false)
    requires x1 == ExampleTarget(t, k1, a).(phase := TargetClaimed(k1, a), basis := map[])
    ensures OnClaimTarget(t, Update(s, 2, x0), 2, x0, k1) == Some(x1)
  {
    Unopposed(Update(s, 2, x0), 2, XRecords(TargetClaim(t, k1, a)));
  }

  lemma ExampleVerifyStep(t: Table, s: State, k1: Key, a: Row, e: Slot, x1: Txn, x2: Txn)
    requires |s.history| == 1 && s.history[0] == Db(map[k1 := a], map[e := k1]) && s.changed == map[]
    requires x2 == ExampleTarget(t, k1, a) && x1 == x2.(phase := TargetClaimed(k1, a), basis := map[])
    ensures OnVerifyTarget(Update(s, 2, x1), x1) == Some(x2)
  {
  }

  ghost function ClaimedReplacement(t: Table, x: Txn, key: Key, row: Row, updated: Row): Txn {
    x.(locks := x.locks + XRecords(ReplacementClaim(t, key, row, updated)), phase :=
      ReplacementClaimed(key, row, key, updated))
  }

  lemma ClaimReplacementRuns(t: Table, s: State, id: nat, x: Txn, key: Key, row: Row, updated: Row, rest: seq<Action>)
    requires s.history != [] && x.view < |s.history| && x.phase == TargetVerified(key, row)
             && MovedKey(t, key, updated) == key
    requires Grantable(Update(s, id, x), id, XRecords(ReplacementClaim(t, key, row, updated)))
    ensures Run(t, Update(s, id, x), [ClaimReplacement(id, updated)] + rest)
            == Run(t, Update(s, id, ClaimedReplacement(t, x, key, row, updated)), rest)
  {
    Take(t, s, id, x, ClaimedReplacement(t, x, key, row, updated), ClaimReplacement(id, updated), rest);
  }

  lemma VerifyReplacementRuns(t: Table, s: State, id: nat, x: Txn, key: Key, row: Row, updated: Row, rest: seq<Action>)
    requires s.history != [] && x.view < |s.history| && x.phase == ReplacementClaimed(key, row, key, updated)
    requires ReplacementVerdict(t, Published(s), s.history[x.view], x.overlay, key, key, updated).Free?
    ensures Run(t, Update(s, id, x), [VerifyReplacement(id)] + rest)
            == Run(t, Update(s, id, x.(phase := ReplacementVerified(key, row, key, updated))), rest)
  {
    Take(t, s, id, x, x.(phase := ReplacementVerified(key, row, key, updated)), VerifyReplacement(id), rest);
  }

  lemma WriteAndCommitRuns(t: Table, s: State, id: nat, x: Txn, key: Key, row: Row, updated: Row)
    requires s.history != [] && x.view < |s.history| && x.phase == ReplacementVerified(key, row, key, updated)
    requires WriteAccepted(t, s.history[x.view], x.overlay, key, row, key, updated)
    ensures var ov := Replaced(t, x.overlay, key, row, key, Some(updated));
            Run(t, Update(s, id, x), [WriteUpdate(id)] + [Commit(id)])
            == Some(State(s.history + [Merge(Published(s), ov)], Stamp(s.changed, ov, |s.history|), s.txns - {id}))
  {
    var y := x.(overlay := Replaced(t, x.overlay, key, row, key, Some(updated)), phase := Idle);
    Take(t, s, id, x, y, WriteUpdate(id), [Commit(id)]);
    TakeCommit(t, s, id, y);
  }

  lemma ExampleVerdict(t: Table, db: Db, k1: Key, a: Row, b: Row, e: Slot, f: Slot)
    requires db == Db(map[k1 := a], map[e := k1]) && e != f && Reservations(t, b) == {f}
    ensures ReplacementVerdict(t, db, db, NO_WRITES, k1, k1, b).Free?
  {
    UniqueVerdictFree(t, db, db, NO_WRITES, k1, k1, b);
    assert OwnerIn(db, NO_WRITES, f).None?;
  }

  /** Transaction 2 rewrites it with value f and commits, while transaction 1 keeps its older snapshot. */
  lemma ExampleRewrite(t: Table, s: State, k1: Key, k2: Key, a: Row, b: Row, c: Row, e: Slot, f: Slot, x: Txn)
    requires ExampleFacts(t, k1, k2, a, b, c, e, f) && x == ExampleTarget(t, k1, a)
    requires |s.history| == 1 && s.history[0] == Db(map[k1 := a], map[e := k1]) && s.changed == map[]
    requires s.txns == map[1 := Started(s, false)]
    ensures Run(t, Update(s, 2, x),
            [ClaimReplacement(2, b)] + ([VerifyReplacement(2)] + ([WriteUpdate(2)] + [Commit(2)])))
            == ExampleRewritten(t, s, k1, a, b)
  {
    Unopposed(Update(s, 2, x), 2, XRecords(ReplacementClaim(t, k1, a, b)));
    var claimed := ClaimedReplacement(t, x, k1, a, b);
    ClaimReplacementRuns(t, s, 2, x, k1, a, b, [VerifyReplacement(2)] + ([WriteUpdate(2)] + [Commit(2)]));
    ExampleFinish(t, s, k1, k2, a, b, c, e, f, claimed);
  }

  ghost function ExampleRewritten(t: Table, s: State, k1: Key, a: Row, b: Row): Option<State>
    requires s.history != []
  {
    var ov := Replaced(t, NO_WRITES, k1, a, k1, Some(b));
    Some(State(s.history + [Merge(Published(s), ov)], Stamp(s.changed, ov, |s.history|), s.txns))
  }

  lemma ExampleFinish(t: Table, s: State, k1: Key, k2: Key, a: Row, b: Row, c: Row, e: Slot, f: Slot, claimed: Txn)
    requires ExampleFacts(t, k1, k2, a, b, c, e, f)
    requires claimed.view == 0 && claimed.overlay == NO_WRITES && claimed.phase == ReplacementClaimed(k1, a, k1, b)
    requires |s.history| == 1 && s.history[0] == Db(map[k1 := a], map[e := k1]) && 2 !in s.txns
    ensures Run(t, Update(s, 2, claimed), [VerifyReplacement(2)] + ([WriteUpdate(2)] + [Commit(2)]))
            == ExampleRewritten(t, s, k1, a, b)
  {
    ExampleVerdict(t, s.history[0], k1, a, b, e, f);
    VerifyReplacementRuns(t, s, 2, claimed, k1, a, b, [WriteUpdate(2)] + [Commit(2)]);
    ExampleCommit(t, s, k1, a, b, claimed.(phase := ReplacementVerified(k1, a, k1, b)));
  }

  lemma ExampleCommit(t: Table, s: State, k1: Key, a: Row, b: Row, verified: Txn)
    requires verified.view == 0 && verified.overlay == NO_WRITES && verified.phase == ReplacementVerified(k1, a, k1, b)
    requires s.history != [] && WriteAccepted(t, s.history[0], NO_WRITES, k1, a, k1, b) && 2 !in s.txns
    ensures Run(t, Update(s, 2, verified), [WriteUpdate(2)] + [Commit(2)]) == ExampleRewritten(t, s, k1, a, b)
  {
    WithoutAbsent(s.txns, 2);
    WriteAndCommitRuns(t, s, 2, verified, k1, a, b);
  }

  lemma WithoutAbsent(txns: map<nat, Txn>, id: nat)
    requires id !in txns
    ensures txns - {id} == txns
  {
  }

  /** After that commit row A holds f, although transaction 1 still sees it holding e. */
  lemma ExamplePublished(t: Table, seen: Db, k1: Key, k2: Key, a: Row, b: Row, c: Row, e: Slot, f: Slot)
    requires ExampleFacts(t, k1, k2, a, b, c, e, f) && seen == Db(map[k1 := a], map[e := k1])
    ensures var db := Merge(seen, Replaced(t, NO_WRITES, k1, a, k1, Some(b)));
            && RowIn(db, NO_WRITES, k1) == Some(b) && OwnerIn(db, NO_WRITES, f) == Some(k1)
              && RowIn(db, NO_WRITES, k2).None?
            && InsertProceeds(t, db, seen, NO_WRITES, k2, c)
  {
    var ov := Replaced(t, NO_WRITES, k1, a, k1, Some(b));
    MergeLookups(seen, ov, NO_WRITES, k1, f);
    MergeLookups(seen, ov, NO_WRITES, k2, f);
    assert OwnerIn(seen, NO_WRITES, f).None? && RowIn(seen, NO_WRITES, k1) == Some(a);
  }

  ghost function ClaimedInsert(t: Table, x: Txn, key: Key, row: Row): Txn {
    x.(locks := x.locks + XRecords(InsertClaim(t, key, row)), phase := InsertClaimed(key, row))
  }

  lemma ClaimInsertRuns(t: Table, s: State, id: nat, x: Txn, row: Row, key: Key, rest: seq<Action>)
    requires s.history != [] && x.phase.Idle? && x.view < |s.history| && PrimaryKey(t, row) == Some(key) && key != []
    requires Grantable(Update(s, id, x), id, XRecords(InsertClaim(t, key, row)))
    ensures Run(t, Update(s, id, x), [ClaimInsert(id, row, [])] + rest)
            == Run(t, Update(s, id, ClaimedInsert(t, x, key, row)), rest)
  {
    Take(t, s, id, x, ClaimedInsert(t, x, key, row), ClaimInsert(id, row, []), rest);
  }

  lemma ExampleLast(t: Table, s: State, k1: Key, k2: Key, b: Row, c: Row, f: Slot, y: Txn)
    requires s.history != [] && y.view < |s.history| && y.overlay == NO_WRITES && y.phase == InsertClaimed(k2, c)
    requires k1 != k2 && RowIn(Published(s), NO_WRITES, k1) == Some(b) && f in Reservations(t, b)
             && f in Reservations(t, c)
    requires InsertAccepted(t, k2, c) && InsertProceeds(t, Published(s), s.history[y.view], NO_WRITES, k2, c)
    ensures var end := Run(t, Update(s, 1, y), [VerifyInsert(1), WriteInsert(1), Commit(1)]);
            end.Some? && !NoSharedValues(t, Published(end.value))
  {
    InsertRuns(t, Update(s, 1, y), 1);
    SharedAfter(t, Published(s), k1, k2, b, c, f);
  }

  /** Transaction 1 then inserts row C: its checks pass, and two published rows hold value f. */
  lemma ExampleInsert(t: Table, s: State, k1: Key, k2: Key, a: Row, b: Row, c: Row, e: Slot, f: Slot, x: Txn)
    requires ExampleFacts(t, k1, k2, a, b, c, e, f)
    requires |s.history| == 2 && s.history[0] == Db(map[k1 := a], map[e := k1])
    requires s.history[1] == Merge(s.history[0], Replaced(t, NO_WRITES, k1, a, k1, Some(b)))
    requires x == Txn(0, false, 0, NO_WRITES, [], {}, Idle, map[]) && s.txns == map[1 := x]
    ensures var end := Run(t, Update(s, 1, x), [ClaimInsert(1, c, [])] + [VerifyInsert(1), WriteInsert(1), Commit(1)]);
            end.Some? && !NoSharedValues(t, Published(end.value))
  {
    ExamplePublished(t, s.history[0], k1, k2, a, b, c, e, f);
    Unopposed(Update(s, 1, x), 1, XRecords(InsertClaim(t, k2, c)));
    ClaimInsertRuns(t, s, 1, x, c, k2, [VerifyInsert(1), WriteInsert(1), Commit(1)]);
    ExampleLast(t, s, k1, k2, b, c, f, ClaimedInsert(t, x, k2, c));
  }

  lemma SharedAfter(t: Table, db: Db, k1: Key, k2: Key, b: Row, c: Row, f: Slot)
    requires k1 != k2 && RowIn(db, NO_WRITES, k1) == Some(b) && f in Reservations(t, b) && f in Reservations(t, c)
    ensures !NoSharedValues(t, Merge(db, Inserted(t, NO_WRITES, k2, c)))
  {
    var after := Merge(db, Inserted(t, NO_WRITES, k2, c));
    assert after.rows[k1] == b && after.rows[k2] == c;
  }

  lemma {:induction false} RunAppend(t: Table, s: State, first: seq<Action>, second: seq<Action>)
    requires s.history != [] && Run(t, s, first).Some?
    ensures Run(t, s, first + second) == Run(t, Run(t, s, first).value, second)
    decreases |first|
  {
    if first == [] {
      assert first + second == second;
    } else {
      assert (first + second)[1..] == first[1..] + second;
      RunAppend(t, Step(t, s, first[0]).value, first[1..], second);
    }
  }

  lemma TakeBegin(t: Table, s: State, id: nat, rest: seq<Action>)
    requires s.history != [] && id !in s.txns
    ensures Run(t, s, [Begin(id, false)] + rest) == Run(t, Update(s, id, Started(s, false)), rest)
  {
    assert ([Begin(id, false)] + rest)[1..] == rest;
    assert Step(t, s, Begin(id, false)) == Some(Update(s, id, Started(s, false)));
  }

  /** The update of transaction 2, then the insert of transaction 1. */
  lemma ExampleBoth(t: Table, s: State, k1: Key, k2: Key, a: Row, b: Row, c: Row, e: Slot, f: Slot)
    returns (actions: seq<Action>)
    requires ExampleFacts(t, k1, k2, a, b, c, e, f)
    requires |s.history| == 1 && s.history[0] == Db(map[k1 := a], map[e := k1]) && s.changed == map[]
    requires s.txns == map[1 := Started(s, false)]
    ensures var end := Run(t, Update(s, 2, Started(s, false)), actions);
            end.Some? && !NoSharedValues(t, Published(end.value))
  {
    var start := Update(s, 2, Started(s, false));
    var first := ExampleFirst(t, s, k1, k2, a, b, c, e, f, start);
    var second := [ClaimInsert(1, c, [])] + [VerifyInsert(1), WriteInsert(1), Commit(1)];
    ExampleSecond(t, s, k1, k2, a, b, c, e, f, second);
    RunAppend(t, start, first, second);
    actions := first + second;
  }

  lemma ExampleSecond(t: Table, s: State, k1: Key, k2: Key, a: Row, b: Row, c: Row, e: Slot, f: Slot,
                      second: seq<Action>)
    requires ExampleFacts(t, k1, k2, a, b, c, e, f)
    requires |s.history| == 1 && s.history[0] == Db(map[k1 := a], map[e := k1])
    requires s.txns == map[1 := Started(s, false)]
    requires second == [ClaimInsert(1, c, [])] + [VerifyInsert(1), WriteInsert(1), Commit(1)]
    ensures var end := Run(t, ExampleRewritten(t, s, k1, a, b).value, second);
            end.Some? && !NoSharedValues(t, Published(end.value))
  {
    var middle := ExampleRewritten(t, s, k1, a, b).value;
    assert Update(middle, 1, s.txns[1]) == middle;
    ExampleInsert(t, middle, k1, k2, a, b, c, e, f, s.txns[1]);
  }

  lemma ExampleFirst(t: Table, s: State, k1: Key, k2: Key, a: Row, b: Row, c: Row, e: Slot, f: Slot, start: State)
    returns (first: seq<Action>)
    requires ExampleFacts(t, k1, k2, a, b, c, e, f)
    requires |s.history| == 1 && s.history[0] == Db(map[k1 := a], map[e := k1]) && s.changed == map[]
    requires s.txns == map[1 := Started(s, false)] && start == Update(s, 2, Started(s, false))
    ensures Run(t, start, first) == ExampleRewritten(t, s, k1, a, b)
  {
    var rewrite := [ClaimReplacement(2, b)] + ([VerifyReplacement(2)] + ([WriteUpdate(2)] + [Commit(2)]));
    ExampleClaim(t, s, k1, k2, a, b, c, e, f, rewrite);
    ExampleRewrite(t, s, k1, k2, a, b, c, e, f, ExampleTarget(t, k1, a));
    first := [ClaimTarget(2, k1)] + ([VerifyTarget(2)] + rewrite);
  }

  /**
   The condition on INSERT is needed: from a consistent one-row table there is a run of two transactions that
   ends with two published rows sharing a unique value.
   */
  lemma MaskedInsertRun() returns (t: Table, s: State, actions: seq<Action>)
    ensures Initial(t, s) && Run(t, s, actions).Some?
    ensures !NoSharedValues(t, Published(Run(t, s, actions).value))
  {
    t := ExampleTable();
    var k1, a, e := SignedInteger(1), ExampleRow(1, 10), ("u", [10]);
    s := State([Db(map[k1 := a], map[e := k1])], map[], map[]);
    ExampleHolds();
    ExampleConsistent(t, k1, a, e);
    var s1 := Update(s, 1, Started(s, false));
    var steps := ExampleBoth(t, s1, k1, SignedInteger(2), a, ExampleRow(1, 20), ExampleRow(2, 20), e, ("u", [20]));
    actions := [Begin(1, false)] + ([Begin(2, false)] + steps);
    TakeBegin(t, s, 1, [Begin(2, false)] + steps);
    TakeBegin(t, s1, 2, steps);
  }

  lemma ExampleConsistent(t: Table, k: Key, row: Row, e: Slot)
    requires Reservations(t, row) == {e}
    ensures Consistent(t, Db(map[k := row], map[e := k]), NO_WRITES)
  {
  }

  lemma ExampleHolds()
    ensures ExampleFacts(ExampleTable(), SignedInteger(1), SignedInteger(2), ExampleRow(1, 10), ExampleRow(1, 20),
            ExampleRow(2, 20),
                         ("u", [10]), ("u", [20]))
  {
    ExampleReservations(1, 10);
    ExampleReservations(1, 20);
    ExampleReservations(2, 20);
    ExampleKey(1, 20);
    ExampleKey(2, 20);
    SignedIntegerOrder(1, 2);
  }
}
