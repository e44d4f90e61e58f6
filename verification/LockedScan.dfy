/**
 The locked scan behind a locking read, step by step: the interval is claimed first, keys are listed page by page, and
 each is claimed and read again, while other transactions write whatever the locks held so far let through.
 */
module LockedScan {
  import opened Wrappers
  import opened Bytes
  import opened Schema
  import opened IndexMaintenance
  import opened LockClaims
  import opened Expressions
  import opened RangeAccess
  import opened LockingRead

  predicate IsScan(plan: Plan) { plan.Ranged? || plan.Ordered? || plan.All? }

  /** The direction of the locked scan: the bounds carry it, and the fallback to the whole domain drops it. */
  predicate Backwards(plan: Plan) { ResolveInterval(plan, PlanLocking(plan)).Range? && plan.reverse }

  predicate Precedes(backwards: bool, a: Key, b: Key) { if backwards then Less(b, a) else Less(a, b) }

  ghost predicate InOrder(backwards: bool, keys: seq<Key>) {
    forall i, j :: 0 <= i < j < |keys| ==> Precedes(backwards, keys[i], keys[j])
  }

  lemma PrecedesAsymmetric(backwards: bool, a: Key, b: Key)
    requires Precedes(backwards, a, b)
    ensures !Precedes(backwards, b, a) && a != b
  {
    LessIrreflexive(a);
    if backwards { LessAsymmetric(b, a); } else { LessAsymmetric(a, b); }
  }

  lemma PrecedesTransitive(backwards: bool, a: Key, b: Key, c: Key)
    requires Precedes(backwards, a, b) && Precedes(backwards, b, c)
    ensures Precedes(backwards, a, c)
  {
    if backwards { LessTransitive(c, b, a); } else { LessTransitive(a, b, c); }
  }

  // ----- the state of a scan -----------------------------------------------------------------

  /**
   currentIterator, with the published rows around it: what is held, the keys claimed so far, the rows read under
   those claims, and the listed keys that have not been claimed yet.
   */
  datatype Progress = Progress(
    rows: map<Key, Row>,
    held: seq<Component>,
    claimed: seq<Key>,
    seen: seq<(Key, Row)>,
    pending: seq<Key>,
    last: Option<Key>,
    done: bool)

  /** One page of the listing, one claim, or a write another transaction publishes. */
  datatype ScanStep = ListPage(page: seq<Key>, exhausted: bool) | ClaimNext | Publish(write: Write)

  function IntervalClaim(t: Table, plan: Plan): Component { IntervalOf(Rows(t.id), ScanBounds(plan)) }

  /** The scan once its interval has been granted. */
  function Opened(t: Table, plan: Plan, mode: Mode, rows: map<Key, Row>): Progress {
    Progress(rows, [ScanIntent(t, mode), IntervalClaim(t, plan)], [], [], [], None, false)
  }

  predicate Beyond(plan: Plan, last: Option<Key>, k: Key) { last.None? || Precedes(Backwards(plan), last.value, k) }

  /** A page lists the next keys of the range, in the direction of the scan; only an exhausted range ends early. */
  ghost predicate PageOf(plan: Plan, p: Progress, page: seq<Key>, exhausted: bool) {
    && InOrder(Backwards(plan), page) && (page == [] ==> exhausted)
    && (forall k :: k in page ==> k in p.rows && InKeyRange(ScanBounds(plan), k) && Beyond(plan, p.last, k))
    && (forall k :: k in p.rows && InKeyRange(ScanBounds(plan), k) && Beyond(plan, p.last, k) ==>
          k in page || (!exhausted && Precedes(Backwards(plan), page[|page| - 1], k)))
  }

  ghost predicate StepEnabled(t: Table, plan: Plan, p: Progress, step: ScanStep) {
    match step
    case ListPage(page, exhausted) => p.pending == [] && !p.done && PageOf(plan, p, page, exhausted)
    case ClaimNext => p.pending != []
    case Publish(w) => Legal(t, p.rows, w) && !Blocked(Claims(t, p.rows, w), p.held)
  }

  ghost function StepOf(t: Table, mode: Mode, p: Progress, step: ScanStep): Progress
    requires step.ClaimNext? ==> p.pending != []
  {
    match step
    case ListPage(page, exhausted) =>
      p.(pending := page, last := if page == [] then p.last else Some(page[|page| - 1]), done := exhausted)
    case ClaimNext =>
      var k := p.pending[0];
      p.(held := p.held + [Record(mode, Rows(t.id), k)], claimed := p.claimed + [k], pending := p.pending[1..],
         seen := p.seen + if k in p.rows then [(k, p.rows[k])] else [])
    case Publish(w) => p.(rows := After(t, p.rows, w))
  }

  ghost predicate ScanRun(t: Table, plan: Plan, mode: Mode, p: Progress, steps: seq<ScanStep>, after: Progress)
    decreases |steps|
  {
    if steps == [] then after == p
    else StepEnabled(t, plan, p, steps[0]) && ScanRun(t, plan, mode, StepOf(t, mode, p, steps[0]), steps[1..], after)
  }

  predicate Finished(p: Progress) { p.pending == [] && p.done }

  // ----- what every step keeps ---------------------------------------------------------------

  /** The rows of these keys that exist, in order. */
  function Found(rows: map<Key, Row>, keys: seq<Key>): seq<(Key, Row)> {
    if keys == [] then [] else
      var n := |keys| - 1;
      Found(rows, keys[..n]) + if keys[n] in rows then [(keys[n], rows[keys[n]])] else []
  }

  ghost predicate Protected(t: Table, plan: Plan, mode: Mode, p: Progress) {
    IntervalClaim(t, plan) in p.held && forall k :: k in p.claimed ==> Record(mode, Rows(t.id), k) in p.held
  }

  /** Claimed and listed keys are in the order of the scan, inside its range and not beyond the last listed key. */
  ghost predicate Arranged(plan: Plan, p: Progress) {
    && InOrder(Backwards(plan), p.claimed + p.pending)
    && forall k :: k in p.claimed + p.pending ==>
         InKeyRange(ScanBounds(plan), k) && p.last.Some?
           && (k == p.last.value || Precedes(Backwards(plan), k, p.last.value))
  }

  /** No row of the range has been passed over. */
  ghost predicate NoneMissed(plan: Plan, p: Progress) {
    forall k :: k in p.rows && InKeyRange(ScanBounds(plan), k) ==>
      k in p.claimed || k in p.pending || (!p.done && Beyond(plan, p.last, k))
  }

  ghost predicate ScanInv(t: Table, plan: Plan, mode: Mode, p: Progress) {
    && Protected(t, plan, mode, p) && Arranged(plan, p) && NoneMissed(plan, p)
    && p.seen == Found(p.rows, p.claimed)
  }

  lemma ListKeeps(t: Table, plan: Plan, mode: Mode, p: Progress, page: seq<Key>, exhausted: bool)
    requires ScanInv(t, plan, mode, p) && StepEnabled(t, plan, p, ListPage(page, exhausted))
    ensures ScanInv(t, plan, mode, StepOf(t, mode, p, ListPage(page, exhausted)))
  {
    var q, back := StepOf(t, mode, p, ListPage(page, exhausted)), Backwards(plan);
    assert p.claimed + p.pending == p.claimed;
    if page == [] {
      assert q.claimed + q.pending == q.claimed;
    } else {
      PageFollows(plan, p, page);
      PageEnds(back, page);
      forall k | k in p.claimed ensures Precedes(back, k, q.last.value) { PageAfter(plan, p, page, k); }
    }
  }

  lemma PageAfter(plan: Plan, p: Progress, page: seq<Key>, k: Key)
    requires Arranged(plan, p) && k in p.claimed && page != [] && forall x :: x in page ==> Beyond(plan, p.last, x)
    ensures forall x :: x in page ==> Precedes(Backwards(plan), k, x)
  {
    assert k in p.claimed + p.pending;
    forall x | x in page ensures Precedes(Backwards(plan), k, x) {
      if k != p.last.value { PrecedesTransitive(Backwards(plan), k, p.last.value, x); }
    }
  }

  lemma PageFollows(plan: Plan, p: Progress, page: seq<Key>)
    requires Arranged(plan, p) && p.pending == [] && page != [] && InOrder(Backwards(plan), page)
    requires forall x :: x in page ==> Beyond(plan, p.last, x)
    ensures InOrder(Backwards(plan), p.claimed + page)
  {
    var all := p.claimed + page;
    assert p.claimed + p.pending == p.claimed;
    forall i, j | 0 <= i < j < |all| ensures Precedes(Backwards(plan), all[i], all[j]) {
      if i < |p.claimed| <= j {
        PageAfter(plan, p, page, all[i]);
        assert all[j] in page;
      }
    }
  }

  lemma PageEnds(back: bool, page: seq<Key>)
    requires InOrder(back, page) && page != []
    ensures forall k :: k in page ==> k == page[|page| - 1] || Precedes(back, k, page[|page| - 1])
  {
  }

  lemma ClaimKeeps(t: Table, plan: Plan, mode: Mode, p: Progress)
    requires ScanInv(t, plan, mode, p) && p.pending != []
    ensures ScanInv(t, plan, mode, StepOf(t, mode, p, ClaimNext))
  {
    var q := StepOf(t, mode, p, ClaimNext);
    assert q.claimed + q.pending == p.claimed + p.pending;
    assert q.claimed[..|p.claimed|] == p.claimed;
    assert forall k :: k in p.pending ==> k in q.claimed || k in q.pending;
  }

  /**
   What a write that gets past the locks can do to a key of the range: not create it, and not touch it once claimed.
   */
  lemma WriteSpares(t: Table, plan: Plan, mode: Mode, held: seq<Component>, rows: map<Key, Row>, w: Write, k: Key)
    requires t.integerKey && IntegerPrimary(t).Some? && (mode == S || mode == X)
    requires IntervalClaim(t, plan) in held && Legal(t, rows, w) && !Blocked(Claims(t, rows, w), held)
    requires InKeyRange(ScanBounds(plan), k)
    ensures k in After(t, rows, w) ==> k in rows
    ensures Record(mode, Rows(t.id), k) in held ==>
              (k in rows <==> k in After(t, rows, w)) && (k in rows ==> After(t, rows, w)[k] == rows[k])
  {
    var claims := Claims(t, rows, w);
    if Record(InsertIntention, Rows(t.id), k) in claims {
      NonEmptyInterval(IntervalClaim(t, plan), k);
      Blocks(claims, held, Record(InsertIntention, Rows(t.id), k), IntervalClaim(t, plan));
    }
    if Record(X, Rows(t.id), k) in claims && Record(mode, Rows(t.id), k) in held {
      Blocks(claims, held, Record(X, Rows(t.id), k), Record(mode, Rows(t.id), k));
    }
    WriteClaims(t, rows, w);
  }

  /** The claims of a write name the row it takes away and the key it creates. */
  lemma WriteClaims(t: Table, rows: map<Key, Row>, w: Write)
    requires t.integerKey && IntegerPrimary(t).Some? && Legal(t, rows, w)
    ensures !w.Inserting? ==> Record(X, Rows(t.id), w.oldKey) in Claims(t, rows, w)
    ensures w.Inserting? ==> Record(InsertIntention, Rows(t.id), w.key) in Claims(t, rows, w)
    ensures w.Updating? ==> MovedKey(t, w.oldKey, w.updated) == w.oldKey
                            || Record(InsertIntention, Rows(t.id), MovedKey(t, w.oldKey, w.updated)) in Claims(t, rows,
                              w)
  {
    assert PrimaryIndex(t).Some?;
    match w
    case Inserting(key, row) =>
      assert key != [];
      assert Record(InsertIntention, Rows(t.id), key) in IntentionOn(Rows(t.id), key);
    case Deleting(oldKey) => assert TargetClaim(t, oldKey, rows[oldKey])[1] == Record(X, Rows(t.id), oldKey);
    case Updating(oldKey, updated) =>
      var newKey := MovedKey(t, oldKey, updated);
      assert TargetClaim(t, oldKey, rows[oldKey])[1] == Record(X, Rows(t.id), oldKey);
      assert newKey != oldKey ==> Record(InsertIntention, Rows(t.id), newKey) in IntentionOn(Rows(t.id), newKey);
  }

  lemma {:induction false} FoundKept(rows: map<Key, Row>, after: map<Key, Row>, keys: seq<Key>)
    requires forall k :: k in keys ==> (k in rows <==> k in after) && (k in rows ==> after[k] == rows[k])
    ensures Found(after, keys) == Found(rows, keys)
  {
    if keys != [] { FoundKept(rows, after, keys[..|keys| - 1]); }
  }

  lemma PublishKeeps(t: Table, plan: Plan, mode: Mode, p: Progress, w: Write)
    requires t.integerKey && IntegerPrimary(t).Some? && (mode == S || mode == X)
    requires ScanInv(t, plan, mode, p) && StepEnabled(t, plan, p, Publish(w))
    ensures ScanInv(t, plan, mode, StepOf(t, mode, p, Publish(w))) && StepOf(t, mode, p, Publish(w)).seen == p.seen
  {
    var after := After(t, p.rows, w);
    forall k | k in p.claimed ensures (k in p.rows <==> k in after) && (k in p.rows ==> after[k] == p.rows[k]) {
      assert k in p.claimed + p.pending;
      WriteSpares(t, plan, mode, p.held, p.rows, w, k);
    }
    FoundKept(p.rows, after, p.claimed);
    forall k | k in after && InKeyRange(ScanBounds(plan), k)
      ensures k in p.claimed || k in p.pending || (!p.done && Beyond(plan, p.last, k))
    {
      WriteSpares(t, plan, mode, p.held, p.rows, w, k);
    }
  }

  lemma StepKeepsScan(t: Table, plan: Plan, mode: Mode, p: Progress, step: ScanStep)
    requires t.integerKey && IntegerPrimary(t).Some? && (mode == S || mode == X)
    requires ScanInv(t, plan, mode, p) && StepEnabled(t, plan, p, step)
    ensures ScanInv(t, plan, mode, StepOf(t, mode, p, step))
  {
    match step
    case ListPage(page, exhausted) => ListKeeps(t, plan, mode, p, page, exhausted);
    case ClaimNext => ClaimKeeps(t, plan, mode, p);
    case Publish(w) => PublishKeeps(t, plan, mode, p, w);
  }

  lemma {:induction false} RunKeepsScan(t: Table, plan: Plan, mode: Mode, p: Progress, steps: seq<ScanStep>,
                                        after: Progress)
    requires t.integerKey && IntegerPrimary(t).Some? && (mode == S || mode == X)
    requires ScanInv(t, plan, mode, p) && ScanRun(t, plan, mode, p, steps, after)
    ensures ScanInv(t, plan, mode, after)
    decreases |steps|
  {
    if steps != [] {
      StepKeepsScan(t, plan, mode, p, steps[0]);
      RunKeepsScan(t, plan, mode, StepOf(t, mode, p, steps[0]), steps[1..], after);
    }
  }

  lemma OpenedInv(t: Table, plan: Plan, mode: Mode, rows: map<Key, Row>)
    ensures ScanInv(t, plan, mode, Opened(t, plan, mode, rows))
  {
    var p := Opened(t, plan, mode, rows);
    assert p.held[1] == IntervalClaim(t, plan);
  }

  // ----- what the scan has read --------------------------------------------------------------

  function KeysOf(seen: seq<(Key, Row)>): (r: seq<Key>)
    ensures |r| == |seen| && forall i :: 0 <= i < |r| ==> r[i] == seen[i].0
  {
    seq(|seen|, i requires 0 <= i < |seen| => seen[i].0)
  }

  /** The stored keys of the range, in the order of the scan. */
  ghost predicate Listing(plan: Plan, rows: map<Key, Row>, full: seq<Key>) {
    InOrder(Backwards(plan), full) && forall k :: k in full <==> k in rows && InKeyRange(ScanBounds(plan), k)
  }

  lemma {:induction false} FoundMembers(rows: map<Key, Row>, keys: seq<Key>)
    ensures forall k :: k in KeysOf(Found(rows, keys)) <==> k in keys && k in rows
    ensures forall e :: e in Found(rows, keys) ==> e.0 in rows && e.1 == rows[e.0]
  {
    if keys != [] {
      var n := |keys| - 1;
      FoundMembers(rows, keys[..n]);
      var before, all := Found(rows, keys[..n]), Found(rows, keys);
      assert keys == keys[..n] + [keys[n]];
      assert KeysOf(all) == KeysOf(before) + if keys[n] in rows then [keys[n]] else [];
    }
  }

  lemma {:induction false} FoundInOrder(back: bool, rows: map<Key, Row>, keys: seq<Key>)
    requires InOrder(back, keys)
    ensures InOrder(back, KeysOf(Found(rows, keys)))
  {
    if keys != [] {
      var n := |keys| - 1;
      FoundInOrder(back, rows, keys[..n]);
      FoundMembers(rows, keys[..n]);
      var before := KeysOf(Found(rows, keys[..n]));
      assert KeysOf(Found(rows, keys)) == before + if keys[n] in rows then [keys[n]] else [];
      forall i | 0 <= i < |before| ensures Precedes(back, before[i], keys[n]) {
        assert before[i] in before;
        var j :| 0 <= j < n && keys[..n][j] == before[i];
        assert keys[j] == before[i];
      }
    }
  }

  /** An ordered part of an ordered whole is its beginning when everything else comes later. */
  lemma {:induction false} BeginningOf(back: bool, part: seq<Key>, whole: seq<Key>, n: nat)
    requires InOrder(back, part) && InOrder(back, whole) && n <= |part|
    requires forall k :: k in part ==> k in whole
    requires forall k, x :: k in whole && k !in part && x in part ==> Precedes(back, x, k)
    ensures n <= |whole| && part[..n] == whole[..n]
  {
    if n > 0 {
      BeginningOf(back, part, whole, n - 1);
      assert part[n - 1] in part;
      var j :| 0 <= j < |whole| && whole[j] == part[n - 1];
      if j < n - 1 {
        assert part[j] == part[..n - 1][j] == whole[..n - 1][j];
        PrecedesAsymmetric(back, part[j], part[n - 1]);
      } else {
        SameNext(back, part, whole, n - 1, j);
      }
      assert part[..n] == part[..n - 1] + [part[n - 1]] && whole[..n] == whole[..n - 1] + [whole[n - 1]];
    }
  }

  /** Nothing of the whole can stand before the next element of the part. */
  lemma SameNext(back: bool, part: seq<Key>, whole: seq<Key>, i: nat, j: nat)
    requires InOrder(back, part) && InOrder(back, whole) && i < |part| && i <= j < |whole| && whole[j] == part[i]
    requires part[..i] == whole[..i]
    requires forall k, x :: k in whole && k !in part && x in part ==> Precedes(back, x, k)
    ensures i == j
  {
    var k := whole[i];
    assert k in whole && part[i] in part;
    if i < j { PrecedesAsymmetric(back, k, part[i]); }
    if k in part {
      var m :| 0 <= m < |part| && part[m] == k;
      if m < i {
        assert part[m] == part[..i][m] == whole[..i][m];
        PrecedesAsymmetric(back, whole[m], whole[i]);
      }
    }
  }

  /**
   At every moment of the scan, and ever after, what it has read is the beginning of the range as it is stored at that
   moment, with the stored values; once it has finished, it is the whole range.
   */
  lemma SeenIsPrefix(t: Table, plan: Plan, mode: Mode, p: Progress, full: seq<Key>)
    requires ScanInv(t, plan, mode, p) && Listing(plan, p.rows, full)
    ensures KeysOf(p.seen) <= full
    ensures forall i :: 0 <= i < |p.seen| ==> p.seen[i].0 in p.rows && p.rows[p.seen[i].0] == p.seen[i].1
    ensures Finished(p) ==> KeysOf(p.seen) == full
  {
    var back, keys := Backwards(plan), KeysOf(p.seen);
    ClaimedInOrder(plan, p);
    FoundMembers(p.rows, p.claimed);
    FoundInOrder(back, p.rows, p.claimed);
    forall k | k in keys ensures k in full { assert k in p.claimed + p.pending; }
    forall k, x | k in full && k !in keys && x in keys ensures Precedes(back, x, k) {
      LaterThanClaimed(plan, p, x, k);
    }
    BeginningOf(back, keys, full, |keys|);
    assert keys[..|keys|] == keys;
    if Finished(p) {
      forall k | k in full ensures k in keys {}
      BeginningOf(back, full, keys, |full|);
      assert full[..|full|] == full;
    }
  }

  lemma ClaimedInOrder(plan: Plan, p: Progress)
    requires Arranged(plan, p)
    ensures InOrder(Backwards(plan), p.claimed)
  {
    var all := p.claimed + p.pending;
    forall i, j | 0 <= i < j < |p.claimed| ensures Precedes(Backwards(plan), p.claimed[i], p.claimed[j]) {
      assert all[i] == p.claimed[i] && all[j] == p.claimed[j];
    }
  }

  lemma LaterThanClaimed(plan: Plan, p: Progress, x: Key, k: Key)
    requires Arranged(plan, p) && x in p.claimed && k !in p.claimed
    requires k in p.pending || Beyond(plan, p.last, k)
    ensures Precedes(Backwards(plan), x, k)
  {
    var all := p.claimed + p.pending;
    var i :| 0 <= i < |p.claimed| && p.claimed[i] == x;
    assert all[i] == x && x in all;
    if k in p.pending {
      var j :| 0 <= j < |p.pending| && p.pending[j] == k;
      assert all[|p.claimed| + j] == k;
    } else if x != p.last.value {
      PrecedesTransitive(Backwards(plan), x, p.last.value, k);
    }
  }

  // ----- the answer --------------------------------------------------------------------------

  /** What a locking read reports: the lock manager's refusal of its interval, or the filter over the rows it read. */
  datatype ReadOutcome = LockRefused | Answered(keys: Result<seq<Key>, EvalError>)

  /** A read from start to end: it is refused at once, or it scans to the end of its range. */
  ghost predicate Reads(env: Env, t: Table, where: Option<Expr>, plan: Plan, mode: Mode, p: Progress,
                        steps: seq<ScanStep>,
                        after: Progress, outcome: ReadOutcome)
  {
    if Refused(IntervalClaim(t, plan)) then steps == [] && after == p && outcome == LockRefused
    else
      && ScanRun(t, plan, mode, p, steps, after) && Finished(after)
      && (forall k :: k in KeysOf(after.seen) ==> k in after.rows)
      && outcome == Answered(Select(env, where, after.rows, KeysOf(after.seen)))
  }

  lemma {:induction false} LegalRows(t: Table, plan: Plan, mode: Mode, p: Progress, steps: seq<ScanStep>,
                                     after: Progress)
    requires t.integerKey && IntegerPrimary(t).Some? && RowsConform(t, p.rows)
             && ScanRun(t, plan, mode, p, steps, after)
    ensures RowsConform(t, after.rows)
    decreases |steps|
  {
    if steps != [] {
      var q := StepOf(t, mode, p, steps[0]);
      if steps[0].Publish? { LegalWrite(t, p.rows, steps[0].write); }
      LegalRows(t, plan, mode, q, steps[1..], after);
    }
  }

  lemma LegalWrite(t: Table, rows: map<Key, Row>, w: Write)
    requires t.integerKey && IntegerPrimary(t).Some? && RowsConform(t, rows) && Legal(t, rows, w)
    ensures RowsConform(t, After(t, rows, w))
  {
    assert PrimaryIndex(t).Some?;
  }

  lemma {:induction false} InOrderOnce(back: bool, keys: seq<Key>)
    requires InOrder(back, keys)
    ensures forall k :: multiset(keys)[k] <= 1
  {
    if keys != [] {
      var n := |keys| - 1;
      InOrderOnce(back, keys[..n]);
      assert keys == keys[..n] + [keys[n]];
      forall i | 0 <= i < n ensures keys[i] != keys[n] { PrecedesAsymmetric(back, keys[i], keys[n]); }
      assert keys[n] !in keys[..n];
    }
  }

  lemma ScanBoundsSame(plan: Plan, k: Key)
    requires IsScan(plan)
    ensures InKeyRange(ScanBounds(plan), k) <==> plan.All? || InKeyRange(plan.bounds, k)
  {
  }

  /** A finished scan has listed the keys the plan visits, each once. */
  lemma FinishedLists(t: Table, plan: Plan, mode: Mode, p: Progress, unique: map<Slot, Key>)
    requires ScanInv(t, plan, mode, p) && Finished(p) && IsScan(plan)
    ensures Lists(KeysOf(p.seen), Visited(plan, p.rows, unique))
  {
    var keys, visited := KeysOf(p.seen), Visited(plan, p.rows, unique);
    ClaimedInOrder(plan, p);
    FoundMembers(p.rows, p.claimed);
    FoundInOrder(Backwards(plan), p.rows, p.claimed);
    InOrderOnce(Backwards(plan), keys);
    forall k ensures multiset(keys)[k] == multiset(visited)[k] {
      ScanBoundsSame(plan, k);
      if k in p.claimed { assert k in p.claimed + p.pending; }
      assert k in keys <==> k in multiset(keys);
    }
  }

  /**
   A locking read, whatever other transactions publish while it runs, answers like a full scan of the rows as they are
   when it ends, if and only if the lock manager accepts its interval; the exception of unusable literals is the one
   the plan has without locks.
   */
  lemma LockedReadMatchesIff(env: Env, t: Table, where: Option<Expr>, fits: (DataType, int) -> bool, plan: Plan,
                             mode: Mode,
                             rows: map<Key, Row>, steps: seq<ScanStep>, after: Progress, outcome: ReadOutcome,
                             unique: map<Slot, Key>, full: seq<Key>)
    requires t.integerKey && IntegerPrimary(t).Some? && KeysProject(t) && RowsConform(t, rows)
             && (mode == S || mode == X)
    requires PlanOf(t, where, fits, plan) && (plan.Ranged? || plan.Ordered?)
    requires Reads(env, t, where, plan, mode, Opened(t, plan, mode, rows), steps, after, outcome)
    requires UniqueExact(t, after.rows, unique)
    requires Lists(full, after.rows.Keys) && forall k :: k in full ==> k in after.rows
    ensures (outcome.Answered? && SameOutcome(outcome.keys, Select(env, where, after.rows, full))) <==>
            !Refused(IntervalClaim(t, plan))
            && !(WhereBad(where).Some? && after.rows != map[] && Visited(plan, after.rows, unique) == {})
  {
    if !Refused(IntervalClaim(t, plan)) {
      OpenedInv(t, plan, mode, rows);
      RunKeepsScan(t, plan, mode, Opened(t, plan, mode, rows), steps, after);
      LegalRows(t, plan, mode, Opened(t, plan, mode, rows), steps, after);
      FinishedLists(t, plan, mode, after, unique);
      var scan := KeysOf(after.seen);
      NothingListed(scan, Visited(plan, after.rows, unique));
      PlanMatchesFullScan(env, t, where, fits, plan, after.rows, unique, scan, full);
    }
  }

  /** The answer of an accepted read on conditions on the key alone is exactly the rows of its range. */
  lemma LockedAnswerIsRange(env: Env, t: Table, where: Expr, fits: (DataType, int) -> bool, plan: Plan, mode: Mode,
                            rows: map<Key, Row>, steps: seq<ScanStep>, after: Progress, outcome: ReadOutcome,
                            unique: map<Slot, Key>)
    requires t.integerKey && IntegerPrimary(t).Some? && KeysProject(t) && RowsConform(t, rows)
    requires (mode == S || mode == X) && PlanOf(t, Some(where), fits, plan) && (plan.Ranged? || plan.Ordered?)
    requires KeyOnly(where, IntegerPrimary(t).value) && UniqueExact(t, after.rows, unique)
    requires Reads(env, t, Some(where), plan, mode, Opened(t, plan, mode, rows), steps, after, outcome)
    requires !Refused(IntervalClaim(t, plan))
    ensures outcome.Answered? && outcome.keys.Ok?
    ensures multiset(outcome.keys.value) == multiset(set k | k in after.rows && InKeyRange(plan.bounds, k))
  {
    OpenedInv(t, plan, mode, rows);
    RunKeepsScan(t, plan, mode, Opened(t, plan, mode, rows), steps, after);
    LegalRows(t, plan, mode, Opened(t, plan, mode, rows), steps, after);
    FinishedLists(t, plan, mode, after, unique);
    AnswerIsRange(env, t, where, fits, plan, plan.bounds, after.rows, unique, KeysOf(after.seen));
  }

  lemma NothingListed(scan: seq<Key>, keys: set<Key>)
    requires Lists(scan, keys)
    ensures scan == [] <==> keys == {}
  {
    if scan != [] { ListsMembers(scan, keys, scan[0]); }
    forall k | k in keys ensures k in scan { ListsMembers(scan, keys, k); }
  }

  /** The interval of a planned read is refused if and only if two bounds of WHERE contradict each other. */
  lemma RefusedIffContradict(t: Table, where: Option<Expr>, plan: Plan)
    requires (plan.Ranged? || plan.Ordered?) && TightRange(WhereBounds(t, where), plan.bounds)
    ensures Refused(IntervalClaim(t, plan)) <==> Contradict(WhereBounds(t, where))
  {
    var bounds, r := WhereBounds(t, where), plan.bounds;
    var lower, upper :| HasEnds(bounds, r, lower, upper);
    EndsCrossIff(bounds, lower, r.lowerInclusive, upper, r.upperInclusive);
    if lower.Some? && upper.Some? {
      SignedIntegerOrder(lower.value, upper.value);
      SignedIntegerOrder(upper.value, lower.value);
    }
  }

  function KeyBetween(p: nat, above: int, below: int): Expr {
    Binary(And, Binary(Gt, Ident(Some(p)), Lit(IntegerLiteral(above))),
      Binary(Lt, Ident(Some(p)), Lit(IntegerLiteral(below))))
  }

  lemma KeyBetweenMeans(p: nat, above: int, below: int)
    requires WithinFloat(above) && WithinFloat(below)
    ensures Bounds(KeyBetween(p, above, below), p) == [(Gt, above), (Lt, below)]
    ensures forall x :: Within(KeyBetween(p, above, below), p, x) <==> above < x < below
  {
    var e := KeyBetween(p, above, below);
    assert Bounds(e.left, p) == [(Gt, above)] && Bounds(e.right, p) == [(Lt, below)];
    forall x ensures Within(e, p, x) <==> above < x < below {
      assert Within(e.left, p, x) <==> above < x;
      assert Within(e.right, p, x) <==> x < below;
    }
  }

  lemma PairContradicts(above: int, below: int)
    ensures Contradict([(Gt, above), (Lt, below)]) <==> above >= below
  {
    assert Clash((Gt, above), (Lt, below)) <==> above >= below;
  }

  /** A locking read of `id > above AND id < below` is refused exactly when above >= below. */
  lemma PairRefusedIff(t: Table, plan: Plan, above: int, below: int)
    requires IntegerPrimary(t).Some? && plan.Ranged? && WithinFloat(above) && WithinFloat(below)
    requires TightRange(WhereBounds(t, Some(KeyBetween(IntegerPrimary(t).value, above, below))), plan.bounds)
    ensures Refused(IntervalClaim(t, plan)) <==> above >= below
  {
    KeyBetweenMeans(IntegerPrimary(t).value, above, below);
    PairContradicts(above, below);
    RefusedIffContradict(t, Some(KeyBetween(IntegerPrimary(t).value, above, below)), plan);
  }

  /** `id > 5 AND id < 3` is refused; `id > 5 AND id < 6` admits no integer either and is not. */
  lemma RefusedExample(t: Table, impossible: Plan, narrow: Plan)
    requires IntegerPrimary(t).Some? && impossible.Ranged? && narrow.Ranged?
    requires TightRange(WhereBounds(t, Some(KeyBetween(IntegerPrimary(t).value, 5, 3))), impossible.bounds)
    requires TightRange(WhereBounds(t, Some(KeyBetween(IntegerPrimary(t).value, 5, 6))), narrow.bounds)
    ensures Refused(IntervalClaim(t, impossible)) && !Refused(IntervalClaim(t, narrow))
    ensures forall x :: !Within(KeyBetween(IntegerPrimary(t).value, 5, 6), IntegerPrimary(t).value, x)
  {
    PairRefusedIff(t, impossible, 5, 3);
    PairRefusedIff(t, narrow, 5, 6);
    KeyBetweenMeans(IntegerPrimary(t).value, 5, 6);
  }

  // ----- reads that stop early ---------------------------------------------------------------

  ghost predicate OnlyPublishes(steps: seq<ScanStep>) { forall i :: 0 <= i < |steps| ==> steps[i].Publish? }

  /** A read that has stopped keeps what it has read, however many writes get past its locks. */
  lemma {:induction false} StoppedKeeps(t: Table, plan: Plan, mode: Mode, p: Progress, writes: seq<ScanStep>,
                                        after: Progress)
    requires t.integerKey && IntegerPrimary(t).Some? && (mode == S || mode == X)
    requires ScanInv(t, plan, mode, p) && ScanRun(t, plan, mode, p, writes, after) && OnlyPublishes(writes)
    ensures ScanInv(t, plan, mode, after) && after == p.(rows := after.rows)
    decreases |writes|
  {
    if writes != [] {
      PublishKeeps(t, plan, mode, p, writes[0].write);
      StoppedKeeps(t, plan, mode, StepOf(t, mode, p, writes[0]), writes[1..], after);
    }
  }

  lemma {:induction false} SelectPrefix(env: Env, where: Option<Expr>, rows: map<Key, Row>, part: seq<Key>,
                                        whole: seq<Key>)
    requires part <= whole && (forall k :: k in whole ==> k in rows) && Select(env, where, rows, whole).Ok?
    ensures (forall k :: k in part ==> k in rows) && Select(env, where, rows, part).Ok?
    ensures Select(env, where, rows, part).value <= Select(env, where, rows, whole).value
  {
    assert forall k :: k in part ==> k in whole;
    if part != [] { SelectPrefix(env, where, rows, part[1..], whole[1..]); }
  }

  /**
   A read under LIMIT stops wherever it has rows enough. What it returned is the beginning of the filtered range, in
   the order of the scan, and stays the beginning of it under every write that gets past its locks afterwards.
   */
  lemma LimitedReadStands(env: Env, t: Table, where: Option<Expr>, plan: Plan, mode: Mode, rows: map<Key, Row>,
                          steps: seq<ScanStep>, p: Progress, writes: seq<ScanStep>, after: Progress, full: seq<Key>)
    requires t.integerKey && IntegerPrimary(t).Some? && (mode == S || mode == X)
    requires ScanRun(t, plan, mode, Opened(t, plan, mode, rows), steps, p)
    requires ScanRun(t, plan, mode, p, writes, after) && OnlyPublishes(writes)
    requires Listing(plan, after.rows, full) && (forall k :: k in full ==> k in after.rows)
    requires Select(env, where, after.rows, full).Ok?
    ensures KeysOf(p.seen) <= full && forall k :: k in KeysOf(p.seen) ==> k in after.rows
    ensures forall i :: 0 <= i < |p.seen| ==> p.seen[i].0 in after.rows && after.rows[p.seen[i].0] == p.seen[i].1
    ensures Select(env, where, after.rows, KeysOf(p.seen)).Ok?
    ensures Select(env, where, after.rows, KeysOf(p.seen)).value <= Select(env, where, after.rows, full).value
  {
    OpenedInv(t, plan, mode, rows);
    RunKeepsScan(t, plan, mode, Opened(t, plan, mode, rows), steps, p);
    StoppedKeeps(t, plan, mode, p, writes, after);
    SeenIsPrefix(t, plan, mode, after, full);
    SelectPrefix(env, where, after.rows, KeysOf(p.seen), full);
  }

  /**
   The planner leaves out the sort for ORDER BY on the key. The finished scan has the rows in the direction of the
   plan if and only if that is not the reverse of an unbounded walk, or there is at most one row.
   */
  lemma OrderKeptIff(t: Table, plan: Plan, mode: Mode, p: Progress)
    requires ScanInv(t, plan, mode, p) && (plan.Ranged? || plan.Ordered?)
    ensures InOrder(plan.reverse, KeysOf(p.seen)) <==>
            !(plan.reverse && plan.bounds.lower.None? && plan.bounds.upper.None?) || |p.seen| <= 1
  {
    var keys := KeysOf(p.seen);
    ClaimedInOrder(plan, p);
    FoundInOrder(Backwards(plan), p.rows, p.claimed);
    if plan.reverse != Backwards(plan) && |p.seen| > 1 {
      assert Precedes(Backwards(plan), keys[0], keys[1]);
      PrecedesAsymmetric(Backwards(plan), keys[0], keys[1]);
      assert !Precedes(plan.reverse, keys[0], keys[1]);
    }
  }

  lemma ScanStepThen(t: Table, plan: Plan, mode: Mode, p: Progress, step: ScanStep, rest: seq<ScanStep>,
                     after: Progress)
    requires StepEnabled(t, plan, p, step) && ScanRun(t, plan, mode, StepOf(t, mode, p, step), rest, after)
    ensures ScanRun(t, plan, mode, p, [step] + rest, after)
  {
    assert ([step] + rest)[1..] == rest;
  }

  /** The failure occurs: of two rows, an unbounded `ORDER BY id DESC FOR UPDATE` yields the smaller key first. */
  lemma DescendingReadAscends(t: Table, mode: Mode, k1: Key, k2: Key, a: Row, b: Row)
    returns (steps: seq<ScanStep>, after: Progress)
    requires Less(k1, k2)
    ensures var plan := Ordered(UNBOUNDED, true);
            && ScanRun(t, plan, mode, Opened(t, plan, mode, map[k1 := a, k2 := b]), steps, after) && Finished(after)
            && KeysOf(after.seen) == [k1, k2] && !InOrder(plan.reverse, KeysOf(after.seen))
  {
    var plan, rows := Ordered(UNBOUNDED, true), map[k1 := a, k2 := b];
    LessIrreflexive(k1);
    LessAsymmetric(k1, k2);
    var list := ListPage([k1, k2], true);
    var p0 := Opened(t, plan, mode, rows);
    var p1 := StepOf(t, mode, p0, list);
    var p2 := StepOf(t, mode, p1, ClaimNext);
    after := StepOf(t, mode, p2, ClaimNext);
    steps := [list] + ([ClaimNext] + ([ClaimNext] + []));
    ScanStepThen(t, plan, mode, p2, ClaimNext, [], after);
    ScanStepThen(t, plan, mode, p1, ClaimNext, [ClaimNext] + [], after);
    ScanStepThen(t, plan, mode, p0, list, [ClaimNext] + ([ClaimNext] + []), after);
    assert after.seen == [(k1, a), (k2, b)];
    assert KeysOf(after.seen)[0] == k1 && KeysOf(after.seen)[1] == k2;
  }

  // ----- the locks a read ends up with -------------------------------------------------------

  /** A finished scan holds its interval and a record lock on every row of the range, old and new. */
  lemma ScanHolds(t: Table, plan: Plan, mode: Mode, p: Progress, unique: map<Slot, Key>)
    requires ScanInv(t, plan, mode, p) && Finished(p) && IsScan(plan) && (mode == S || mode == X)
    ensures Holds(t, plan, mode, p.rows, unique, p.held)
  {
  }

  lemma StepKeepsLocks(t: Table, plan: Plan, mode: Mode, p: Progress, step: ScanStep)
    requires ScanInv(t, plan, mode, p) && StepEnabled(t, plan, p, step) && ScanLocks(t, plan, mode, p.held)
    ensures ScanLocks(t, plan, mode, StepOf(t, mode, p, step).held)
  {
    if step.ClaimNext? { assert p.pending[0] in p.claimed + p.pending; }
  }

  /** Whatever happens around it, a scan holds no lock beyond its intention, its interval and records inside it. */
  lemma {:induction false} RunKeepsLocks(t: Table, plan: Plan, mode: Mode, p: Progress, steps: seq<ScanStep>,
                                         after: Progress)
    requires t.integerKey && IntegerPrimary(t).Some? && (mode == S || mode == X)
    requires ScanInv(t, plan, mode, p) && ScanLocks(t, plan, mode, p.held) && ScanRun(t, plan, mode, p, steps, after)
    ensures ScanLocks(t, plan, mode, after.held)
    decreases |steps|
  {
    if steps != [] {
      StepKeepsScan(t, plan, mode, p, steps[0]);
      StepKeepsLocks(t, plan, mode, p, steps[0]);
      RunKeepsLocks(t, plan, mode, StepOf(t, mode, p, steps[0]), steps[1..], after);
    }
  }

  /** At every moment of every interleaving a locking scan delays exactly the inserts inside its interval. */
  lemma ScanDelaysInsertIff(t: Table, plan: Plan, mode: Mode, rows: map<Key, Row>, steps: seq<ScanStep>,
                            after: Progress, key: Key, row: Row)
    requires t.integerKey && IntegerPrimary(t).Some? && (mode == S || mode == X) && key != []
    requires ScanRun(t, plan, mode, Opened(t, plan, mode, rows), steps, after)
    ensures Blocked(InsertClaim(t, key, row), after.held) <==> InKeyRange(ScanBounds(plan), key)
  {
    var start := Opened(t, plan, mode, rows);
    OpenedInv(t, plan, mode, rows);
    assert start.held[0] == ScanIntent(t, mode) && start.held[1] == IntervalClaim(t, plan);
    RunKeepsLocks(t, plan, mode, start, steps, after);
    ScanBlocksInsertIff(t, plan, mode, after.held, key, row);
  }

  /** The writes of other transactions that get past a set of locks. */
  ghost predicate GetPast(t: Table, held: seq<Component>, rows: map<Key, Row>, writes: seq<Write>, after: map<Key, Row>)
    decreases |writes|
  {
    if writes == [] then after == rows
    else
      && Legal(t, rows, writes[0]) && !Blocked(Claims(t, rows, writes[0]), held)
      && GetPast(t, held, After(t, rows, writes[0]), writes[1..], after)
  }

  predicate HasValue(t: Table, index: Index, key: Data, rows: map<Key, Row>, k: Key) {
    k in rows && t.valueKey(index, rows[k]) == Some(key)
  }

  lemma EntryClaimed(t: Table, index: Index, key: Data, owner: Key, row: Row, isNew: Index -> bool)
    requires index in t.indexes && index.unique && !index.primary && t.valueKey(index, row) == Some(key)
    ensures Record(X, UniqueIndex(t.id, index.name), key) in EntriesUpTo(t, owner, row, isNew, |t.indexes|)
  {
    var i :| 0 <= i < |t.indexes| && t.indexes[i] == index;
    assert EntryIdentity(t, t.indexes[i], owner, row) == Some((UniqueIndex(t.id, index.name), key));
    EntriesMember(t, owner, row, isNew, |t.indexes|, UniqueIndex(t.id, index.name), key);
  }

  /** A locked unique value keeps its owner: taking it away or taking it over claims the same record. */
  lemma ValueKept(t: Table, index: Index, key: Data, mode: Mode, held: seq<Component>, rows: map<Key, Row>, w: Write,
                  k: Key)
    requires index in t.indexes && index.unique && !index.primary && (mode == S || mode == X)
    requires Record(mode, UniqueIndex(t.id, index.name), key) in held
    requires Legal(t, rows, w) && !Blocked(Claims(t, rows, w), held)
    ensures HasValue(t, index, key, rows, k) <==> HasValue(t, index, key, After(t, rows, w), k)
  {
    var claims, entry := Claims(t, rows, w), Record(X, UniqueIndex(t.id, index.name), key);
    if entry in claims { Blocks(claims, held, entry, Record(mode, UniqueIndex(t.id, index.name), key)); }
    match w
    case Inserting(newKey, row) =>
      if t.valueKey(index, row) == Some(key) { EntryClaimed(t, index, key, newKey, row, _ => true); }
    case Deleting(oldKey) =>
      if t.valueKey(index, rows[oldKey]) == Some(key) { EntryClaimed(t, index, key, oldKey, rows[oldKey], _ => false); }
    case Updating(oldKey, updated) =>
      var newKey := MovedKey(t, oldKey, updated);
      if t.valueKey(index, rows[oldKey]) == Some(key) { EntryClaimed(t, index, key, oldKey, rows[oldKey], _ => false); }
      if t.valueKey(index, updated) == Some(key) {
        EntryClaimed(t, index, key, newKey, updated, IsNewEntry(t, oldKey, rows[oldKey], newKey, updated));
      }
  }

  lemma {:induction false} ValueKeptThrough(t: Table, index: Index, key: Data, mode: Mode, held: seq<Component>,
                                            rows: map<Key, Row>,
                                            writes: seq<Write>, after: map<Key, Row>, k: Key)
    requires index in t.indexes && index.unique && !index.primary && (mode == S || mode == X)
    requires Record(mode, UniqueIndex(t.id, index.name), key) in held && GetPast(t, held, rows, writes, after)
    ensures HasValue(t, index, key, rows, k) <==> HasValue(t, index, key, after, k)
    decreases |writes|
  {
    if writes != [] {
      ValueKept(t, index, key, mode, held, rows, writes[0], k);
      ValueKeptThrough(t, index, key, mode, held, After(t, rows, writes[0]), writes[1..], after, k);
    }
  }

  lemma OwnerHasValue(t: Table, index: Index, key: Data, rows: map<Key, Row>, unique: map<Slot, Key>)
    requires ValidTable(t) && UniqueExact(t, rows, unique) && index in t.indexes && index.unique && !index.primary
    ensures forall k ::
              HasValue(t, index, key, rows, k) <==> (index.name, key) in unique && unique[(index.name, key)] == k
  {
    var slot := (index.name, key);
    var i :| 0 <= i < |t.indexes| && t.indexes[i] == index;
    forall k ensures HasValue(t, index, key, rows, k) <==> slot in unique && unique[slot] == k {
      if k in rows { UniqueUpToMember(t, rows[k], |t.indexes|, slot); }
    }
  }

  /**
   openLockedIndexPoint: the entry is claimed, its owner read, and the owner's row claimed, with writes of others in
   between. The owner is still the owner in the end, so the read holds the entry and the row the entry names.
   */
  lemma UniqueReadHolds(t: Table, index: Index, key: Data, mode: Mode, rows: map<Key, Row>, unique: map<Slot, Key>,
                        held: seq<Component>, writes: seq<Write>, after: map<Key, Row>, uniqueAfter: map<Slot, Key>)
    requires ValidTable(t) && index in t.indexes && index.unique && !index.primary && (mode == S || mode == X)
    requires Record(mode, UniqueIndex(t.id, index.name), key) in held
    requires UniqueExact(t, rows, unique) && GetPast(t, held, rows, writes, after) && UniqueExact(t, after, uniqueAfter)
    ensures (index.name, key) in unique ==>
              Holds(t, Unique(index, key), mode, after, uniqueAfter,
                held + [Record(mode, Rows(t.id), unique[(index.name, key)])])
    ensures (index.name, key) !in unique ==> Holds(t, Unique(index, key), mode, after, uniqueAfter, held)
  {
    OwnerHasValue(t, index, key, rows, unique);
    OwnerHasValue(t, index, key, after, uniqueAfter);
    if (index.name, key) in uniqueAfter {
      ValueKeptThrough(t, index, key, mode, held, rows, writes, after, uniqueAfter[(index.name, key)]);
    }
  }
}
