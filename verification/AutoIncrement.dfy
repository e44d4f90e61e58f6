/**
 Auto-increment ids of one column: the statement-side blocks, the backend counter, and what holds over every
 interleaving of the statements that insert at the same time.
 */
module AutoIncrement {
  import opened Wrappers
  import opened Bytes

  /** insertCounters for one column. */
  datatype Counters = Counters(floor: nat, sent: nat, next: nat, last: nat)

  const FRESH := Counters(0, 0, 0, 0)

  /** The next id is inside a reserved block. */
  predicate HasBlock(c: Counters) { c.next != 0 && c.next <= c.last }

  predicate Owns(c: Counters, id: nat) { HasBlock(c) && c.next <= id <= c.last }

  /** An explicit positive value raises the floor and moves the next id past it. */
  function Explicit(c: Counters, v: nat): Counters {
    c.(floor := if v > c.floor then v else c.floor, next := if v >= c.next then v + 1 else c.next)
  }

  // ----- the backend commands ----------------------------------------------------------------

  /** "advance": the counter is never lowered; a floor beyond 2^63 - 1 is refused. */
  function Advanced(counter: nat, floor: nat): Option<nat> {
    if floor > MAX_INT64 then None else Some(if counter < floor then floor else counter)
  }

  datatype Reservation = Invalid | Exhausted | Block(first: nat)

  /** "reserve": the next `count` numbers, unless they run past 2^63 - 1. */
  function Reserved(counter: nat, count: nat): Reservation {
    if count == 0 || count > MAX_INT64 then Invalid
    else if counter > MAX_INT64 - count then Exhausted
    else Block(counter + 1)
  }

  /**
   What reserving one id does to the statement and the counter: a new block is pulled only when the old one is used up.
   */
  function Taken(c: Counters, counter: nat, count: nat): Option<(Counters, nat, nat)> {
    if HasBlock(c) then Some((c.(next := c.next + 1), counter, c.next)) else
      match Advanced(counter, c.floor)
      case None => None
      case Some(raised) =>
        (match Reserved(raised, count)
         case Block(first) => Some((Counters(c.floor, c.floor, first + 1, first + count - 1), raised + count, first))
         case _ => None)
  }

  // ----- one statement, as the source runs it ------------------------------------------------

  class Backend {
    var counter: nat

    constructor (start: nat)
      ensures counter == start
    {
      counter := start;
    }
  }

  datatype InsertError = CounterExhausted | InvalidReservation

  /** The counters of one statement over one column, with the positive values it has used so far. */
  class InsertCounters {
    var state: Counters
    ghost var used: seq<nat>

    constructor ()
      ensures state == FRESH && used == [] && Valid()
    {
      state, used := FRESH, [];
    }

    /** Whatever comes next is beyond everything the statement has used. */
    ghost predicate Valid()
      reads this
    {
      && (forall i :: 0 <= i < |used| ==> used[i] < state.next && (used[i] <= state.floor || used[i] <= state.last))
      && state.sent <= state.floor && (state.floor > 0 ==> state.floor < state.next)
    }

    /** advance. */
    method Advance(backend: Backend) returns (ok: bool)
      requires Valid() && state.sent <= backend.counter
      modifies this`state, backend
      ensures Valid() && backend.counter >= old(backend.counter)
      ensures ok <==> (old(state).floor <= old(state).sent || old(state).floor <= MAX_INT64)
      ensures ok ==> state == old(state).(sent := state.floor) && state.floor <= backend.counter
      ensures ok ==> backend.counter == if old(backend.counter) < state.floor then state.floor else old(backend.counter)
      ensures !ok ==> state == old(state) && backend.counter == old(backend.counter)
    {
      if state.floor <= state.sent { return true; }
      var counter := Advanced(backend.counter, state.floor);
      if counter.None? { return false; }
      backend.counter := counter.value;
      state := state.(sent := state.floor);
      return true;
    }

    /** reserve: the id follows every value the statement generated or was given. */
    method Reserve(backend: Backend, count: nat) returns (r: Result<nat, InsertError>)
      requires Valid() && state.sent <= backend.counter <= MAX_INT64 && state.last <= backend.counter
      modifies this, backend
      ensures backend.counter >= old(backend.counter)
      ensures r.Ok? <==> Taken(old(state), old(backend.counter), count).Some?
      ensures r.Ok? ==> Taken(old(state), old(backend.counter), count) == Some((state, backend.counter, r.value))
      ensures r.Ok? ==> Valid() && used == old(used) + [r.value]
      ensures r.Ok? ==> state.sent <= backend.counter && state.last <= backend.counter
      ensures r.Ok? ==> 1 <= r.value <= backend.counter && r.value > state.floor && state.floor == old(state).floor
      ensures r.Ok? ==> forall i :: 0 <= i < |old(used)| ==> old(used)[i] < r.value
      ensures r.Err? ==> !HasBlock(old(state))
    {
      if state.next == 0 || state.next > state.last {
        var ok := Advance(backend);
        if !ok { return Err(CounterExhausted); }
        match Reserved(backend.counter, count)
        case Invalid => return Err(InvalidReservation);
        case Exhausted => return Err(CounterExhausted);
        case Block(first) =>
          backend.counter := backend.counter + count;
          state := state.(next := first, last := first + count - 1);
      }
      var id := state.next;
      state := state.(next := id + 1);
      used := used + [id];
      return Ok(id);
    }

    /** generateAutoIncrement for a row that brings its own value. */
    method Use(value: int)
      requires Valid()
      modifies this
      ensures Valid() && state == (if value > 0 then Explicit(old(state), value) else old(state))
      ensures used == if value > 0 then old(used) + [value] else old(used)
    {
      if value > 0 {
        state := Explicit(state, value);
        used := used + [value];
      }
    }
  }

  // ----- any number of statements ------------------------------------------------------------

  /** An id a statement handed out, with the largest explicit value it had seen by then. */
  datatype Issue = Issue(statement: nat, id: nat, floor: nat)

  datatype Machine = Machine(counter: nat, statements: seq<Counters>, issued: seq<Issue>)

  /** The atomic steps of the statements; between any two of them another statement may run. */
  datatype Action =
    | Give(statement: nat, value: nat)
    | Push(statement: nat)
    | Pull(statement: nat, count: nat)
    | Take(statement: nat)

  /** A statement pulls a block only when it has none and its floor has been pushed, and takes only from a block. */
  predicate Enabled(m: Machine, a: Action) {
    && a.statement < |m.statements|
    && var c := m.statements[a.statement];
       match a
       case Give(_, v) => 1 <= v <= MAX_INT64
       case Push(_) => true
       case Pull(_, _) => !HasBlock(c) && c.floor <= c.sent
       case Take(_) => HasBlock(c)
  }

  function Step(m: Machine, a: Action): Machine
    requires Enabled(m, a)
  {
    var s := a.statement;
    var c := m.statements[s];
    match a
    case Give(_, v) => m.(statements := m.statements[s := Explicit(c, v)])
    case Push(_) =>
      (match Advanced(m.counter, c.floor)
       case None => m
       case Some(counter) => Machine(counter, m.statements[s := c.(sent := c.floor)], m.issued))
    case Pull(_, count) =>
      (match Reserved(m.counter, count)
       case Block(first) => Machine(m.counter + count, m.statements[s := c.(next := first, last := first + count - 1)],
         m.issued)
       case _ => m)
    case Take(_) =>
      Machine(m.counter, m.statements[s := c.(next := c.next + 1)], m.issued + [Issue(s, c.next, c.floor)])
  }

  ghost predicate Runs(m: Machine, actions: seq<Action>, after: Machine)
    decreases |actions|
  {
    if actions == [] then after == m else Enabled(m, actions[0]) && Runs(Step(m, actions[0]), actions[1..], after)
  }

  predicate StatementOk(m: Machine, s: nat)
    requires s < |m.statements|
  {
    var c := m.statements[s];
    && c.sent <= m.counter && c.last <= m.counter && c.sent <= c.floor
    && (c.floor > 0 ==> c.floor < c.next) && (c.next == 0 ==> c.last == 0)
  }

  predicate Apart(m: Machine, s: nat, t: nat, id: nat)
    requires s < |m.statements| && t < |m.statements|
  {
    s != t ==> !(Owns(m.statements[s], id) && Owns(m.statements[t], id))
  }

  /** Where an issued id stands: below the counter, out of every block, behind its own statement. */
  predicate IssueOk(m: Machine, i: nat)
    requires i < |m.issued|
  {
    var issue := m.issued[i];
    && issue.statement < |m.statements| && issue.floor < issue.id <= m.counter
    && issue.id < m.statements[issue.statement].next && issue.id <= m.statements[issue.statement].last
  }

  predicate Unowned(m: Machine, i: nat, s: nat)
    requires i < |m.issued| && s < |m.statements|
  {
    !Owns(m.statements[s], m.issued[i].id)
  }

  /** Two issued ids differ, and a statement's own ids increase. */
  predicate Fresh(m: Machine, i: nat, j: nat)
    requires i < |m.issued| && j < |m.issued|
  {
    i < j ==>
      m.issued[i].id != m.issued[j].id
      && (m.issued[i].statement == m.issued[j].statement ==> m.issued[i].id < m.issued[j].id)
  }

  ghost predicate Inv(m: Machine) {
    && (forall s :: 0 <= s < |m.statements| ==> StatementOk(m, s))
    && (forall s, t, id :: 0 <= s < |m.statements| && 0 <= t < |m.statements| ==> Apart(m, s, t, id))
    && (forall i :: 0 <= i < |m.issued| ==> IssueOk(m, i))
    && (forall i, s :: 0 <= i < |m.issued| && 0 <= s < |m.statements| ==> Unowned(m, i, s))
    && (forall i, j :: 0 <= i < |m.issued| && 0 <= j < |m.issued| ==> Fresh(m, i, j))
  }

  lemma GiveKeeps(m: Machine, a: Action)
    requires Inv(m) && Enabled(m, a) && (a.Give? || a.Push?)
    ensures Inv(Step(m, a))
  {
    var n := Step(m, a);
    forall s | 0 <= s < |n.statements| ensures StatementOk(n, s) { assert StatementOk(m, s); }
    forall s, t, id | 0 <= s < |n.statements| && 0 <= t < |n.statements| ensures Apart(n, s, t, id) {
      assert Apart(m, s, t, id) && StatementOk(m, s) && StatementOk(m, t);
    }
    forall i | 0 <= i < |n.issued| ensures IssueOk(n, i) { assert IssueOk(m, i); }
    forall i, s | 0 <= i < |n.issued| && 0 <= s < |n.statements| ensures Unowned(n, i, s) {
      assert Unowned(m, i, s) && StatementOk(m, s);
    }
    forall i, j | 0 <= i < |n.issued| && 0 <= j < |n.issued| ensures Fresh(n, i, j) { assert Fresh(m, i, j); }
  }

  lemma PullKeeps(m: Machine, a: Action)
    requires Inv(m) && Enabled(m, a) && a.Pull?
    ensures Inv(Step(m, a))
  {
    var n := Step(m, a);
    forall s | 0 <= s < |n.statements| ensures StatementOk(n, s) { assert StatementOk(m, s); }
    forall s, t, id | 0 <= s < |n.statements| && 0 <= t < |n.statements| ensures Apart(n, s, t, id) {
      assert Apart(m, s, t, id) && StatementOk(m, s) && StatementOk(m, t);
    }
    forall i | 0 <= i < |n.issued| ensures IssueOk(n, i) { assert IssueOk(m, i); }
    forall i, s | 0 <= i < |n.issued| && 0 <= s < |n.statements| ensures Unowned(n, i, s) {
      assert Unowned(m, i, s) && IssueOk(m, i);
    }
    forall i, j | 0 <= i < |n.issued| && 0 <= j < |n.issued| ensures Fresh(n, i, j) { assert Fresh(m, i, j); }
  }

  lemma TakeKeeps(m: Machine, a: Action)
    requires Inv(m) && Enabled(m, a) && a.Take?
    ensures Inv(Step(m, a))
  {
    var n, k, s0 := Step(m, a), |m.issued|, a.statement;
    assert StatementOk(m, s0);
    forall s | 0 <= s < |n.statements| ensures StatementOk(n, s) { assert StatementOk(m, s); }
    forall s, t, id | 0 <= s < |n.statements| && 0 <= t < |n.statements| ensures Apart(n, s, t, id) {
      assert Apart(m, s, t, id);
    }
    forall i | 0 <= i < |n.issued| ensures IssueOk(n, i) {
      if i < k { assert IssueOk(m, i); }
    }
    forall i, s | 0 <= i < |n.issued| && 0 <= s < |n.statements| ensures Unowned(n, i, s) {
      if i < k { assert Unowned(m, i, s); } else { assert Apart(m, s0, s, m.statements[s0].next); }
    }
    forall i, j | 0 <= i < |n.issued| && 0 <= j < |n.issued| ensures Fresh(n, i, j) {
      if i < j < k {
        assert Fresh(m, i, j);
      } else if i < j {
        assert Unowned(m, i, s0) && IssueOk(m, i);
      }
    }
  }

  lemma StepKeeps(m: Machine, a: Action)
    requires Inv(m) && Enabled(m, a)
    ensures Inv(Step(m, a))
  {
    if a.Pull? { PullKeeps(m, a); } else if a.Take? { TakeKeeps(m, a); } else { GiveKeeps(m, a); }
  }

  lemma {:induction false} RunKeeps(m: Machine, actions: seq<Action>, after: Machine)
    requires Inv(m) && Runs(m, actions, after)
    ensures Inv(after) && after.counter >= m.counter && |after.statements| == |m.statements|
    decreases |actions|
  {
    if actions != [] {
      StepKeeps(m, actions[0]);
      RunKeeps(Step(m, actions[0]), actions[1..], after);
    }
  }

  function Start(counter: nat, n: nat): Machine { Machine(counter, seq(n, _ => FRESH), []) }

  /**
   Over every interleaving: no id is handed out twice, the ids of one statement increase, and each is larger than
   every explicit value its statement had used before.
   */
  lemma IdsNeverRepeat(counter: nat, n: nat, actions: seq<Action>, after: Machine, i: nat, j: nat)
    requires Runs(Start(counter, n), actions, after) && i < j < |after.issued|
    ensures after.issued[i].id != after.issued[j].id
    ensures after.issued[i].statement == after.issued[j].statement ==> after.issued[i].id < after.issued[j].id
    ensures after.issued[i].id > after.issued[i].floor
  {
    RunKeeps(Start(counter, n), actions, after);
    assert Fresh(after, i, j) && IssueOk(after, i);
  }

  /** A floor that has been pushed keeps every block pulled later above it, whoever pulls it. */
  lemma PushedFloorHolds(m: Machine, s: nat, actions: seq<Action>, after: Machine, t: nat, count: nat)
    requires Inv(m) && Enabled(m, Push(s)) && m.statements[s].floor <= MAX_INT64
    requires Runs(Step(m, Push(s)), actions, after) && Enabled(after, Pull(t, count))
             && Reserved(after.counter, count).Block?
    ensures Step(after, Pull(t, count)).statements[t].next > m.statements[s].floor
  {
    GiveKeeps(m, Push(s));
    RunKeeps(Step(m, Push(s)), actions, after);
  }

  // ----- when a value can still be handed out ------------------------------------------------

  /** A run of the machine that hands out v after m. */
  ghost predicate Issues(m: Machine, actions: seq<Action>, after: Machine, v: nat) {
    Runs(m, actions, after) && exists i :: |m.issued| <= i < |after.issued| && after.issued[i].id == v
  }

  ghost predicate CanIssue(m: Machine, v: nat) { exists actions, after :: Issues(m, actions, after, v) }

  predicate SomeBlockOwns(m: Machine, v: nat) { exists s :: 0 <= s < |m.statements| && Owns(m.statements[s], v) }

  predicate SomeFloorBelow(m: Machine, v: nat) { exists s :: 0 <= s < |m.statements| && m.statements[s].floor < v }

  /** A live block holds v, or v is still beyond the counter and a statement is free to pull a block that reaches it. */
  predicate Available(m: Machine, v: nat) {
    SomeBlockOwns(m, v) || (m.counter < v <= MAX_INT64 && SomeFloorBelow(m, v))
  }

  /** No step makes an unavailable value available, and none hands it out. */
  lemma StaysUnavailable(m: Machine, a: Action, v: nat)
    requires Inv(m) && Enabled(m, a) && !Available(m, v)
    ensures !Available(Step(m, a), v)
    ensures a.Take? ==> m.statements[a.statement].next != v
  {
    var n := Step(m, a);
    assert StatementOk(m, a.statement) && !Owns(m.statements[a.statement], v);
    forall s | 0 <= s < |n.statements| ensures !Owns(n.statements[s], v) {
      assert !Owns(m.statements[s], v);
    }
    forall s | 0 <= s < |n.statements| && n.statements[s].floor < v ensures !(n.counter < v <= MAX_INT64) {
      assert m.statements[s].floor < v;
    }
  }

  lemma {:induction false} NeverIssued(m: Machine, actions: seq<Action>, after: Machine, v: nat)
    requires Inv(m) && Runs(m, actions, after) && !Available(m, v)
    ensures !Issues(m, actions, after, v)
    decreases |actions|
  {
    if actions != [] {
      var n := Step(m, actions[0]);
      StepKeeps(m, actions[0]);
      StaysUnavailable(m, actions[0], v);
      NeverIssued(n, actions[1..], after, v);
      IssuedGrows(n, actions[1..], after);
      forall i | |m.issued| <= i < |after.issued| ensures after.issued[i].id != v {
        if i < |n.issued| { assert after.issued[i] == n.issued[i]; }
      }
    }
  }

  lemma {:induction false} IssuedGrows(m: Machine, actions: seq<Action>, after: Machine)
    requires Runs(m, actions, after)
    ensures m.issued <= after.issued
    decreases |actions|
  {
    if actions != [] { IssuedGrows(Step(m, actions[0]), actions[1..], after); }
  }

  lemma IssuesEarlier(m: Machine, a: Action, v: nat)
    requires Enabled(m, a) && CanIssue(Step(m, a), v)
    ensures CanIssue(m, v)
  {
    var actions, after :| Issues(Step(m, a), actions, after, v);
    OneStep(m, a, actions, after);
    assert Issues(m, [a] + actions, after, v);
  }

  /** Taking from a block reaches every id in it. */
  lemma {:induction false} OwnedIsIssued(m: Machine, s: nat, v: nat)
    requires s < |m.statements| && Owns(m.statements[s], v)
    ensures CanIssue(m, v)
    decreases v - m.statements[s].next
  {
    var n := Step(m, Take(s));
    if m.statements[s].next == v {
      assert Runs(n, [], n);
      OneStep(m, Take(s), [], n);
      assert n.issued[|m.issued|].id == v;
      assert Issues(m, [Take(s)] + [], n, v);
    } else {
      OwnedIsIssued(n, s, v);
      IssuesEarlier(m, Take(s), v);
    }
  }

  /** A statement below v uses up its block, pushes its floor and pulls a block that ends at v. */
  lemma {:induction false} PulledIsIssued(m: Machine, s: nat, v: nat)
    requires Inv(m) && s < |m.statements| && m.statements[s].floor < v && m.counter < v <= MAX_INT64
    ensures CanIssue(m, v)
    decreases if HasBlock(m.statements[s]) then m.statements[s].last - m.statements[s].next + 1 else 0
  {
    assert StatementOk(m, s);
    if HasBlock(m.statements[s]) {
      TakeKeeps(m, Take(s));
      PulledIsIssued(Step(m, Take(s)), s, v);
      IssuesEarlier(m, Take(s), v);
    } else {
      var pushed := Step(m, Push(s));
      var pull := Pull(s, v - pushed.counter);
      OwnedIsIssued(Step(pushed, pull), s, v);
      IssuesEarlier(pushed, pull, v);
      IssuesEarlier(m, Push(s), v);
    }
  }

  /** Some continuation hands out v if and only if v is available. */
  lemma IssuedAgainIff(m: Machine, v: nat)
    requires Inv(m)
    ensures CanIssue(m, v) <==> Available(m, v)
  {
    if SomeBlockOwns(m, v) {
      var s :| 0 <= s < |m.statements| && Owns(m.statements[s], v);
      OwnedIsIssued(m, s, v);
    } else if Available(m, v) {
      var s :| 0 <= s < |m.statements| && m.statements[s].floor < v;
      PulledIsIssued(m, s, v);
    } else {
      forall actions, after | Runs(m, actions, after) ensures !Issues(m, actions, after, v) {
        NeverIssued(m, actions, after, v);
      }
    }
  }

  /**
   A value statement s has been given can be handed out again if and only if another statement already holds it in
   its block, or it is still beyond the counter and another statement's own floor is below it.
   */
  lemma ExplicitValueCollidesIff(m: Machine, s: nat, v: nat)
    requires Inv(m) && s < |m.statements| && v <= m.statements[s].floor && v <= MAX_INT64
    ensures CanIssue(m, v) <==>
            exists t :: 0 <= t < |m.statements| && t != s
              && (Owns(m.statements[t], v) || (m.counter < v && m.statements[t].floor < v))
  {
    IssuedAgainIff(m, v);
    assert StatementOk(m, s);
    if SomeBlockOwns(m, v) {
      var t :| 0 <= t < |m.statements| && Owns(m.statements[t], v);
      assert t != s;
    }
  }

  /** Once the floor has been pushed, only a block that was reserved before holds the value still to be handed out. */
  lemma PushedValueCollidesIff(m: Machine, s: nat, v: nat)
    requires Inv(m) && s < |m.statements| && v <= m.statements[s].floor <= MAX_INT64
    ensures CanIssue(Step(m, Push(s)), v) <==> exists t :: 0 <= t < |m.statements| && t != s && Owns(m.statements[t], v)
  {
    GiveKeeps(m, Push(s));
    var n := Step(m, Push(s));
    ExplicitValueCollidesIff(n, s, v);
    assert forall t :: 0 <= t < |m.statements| ==> (Owns(n.statements[t], v) <==> Owns(m.statements[t], v));
  }

  /**
   Both failures occur: before the push a new block reaches the value, and after it an earlier block still holds it.
   */
  lemma ExplicitValueCollides()
    ensures CanIssue(Step(Start(0, 2), Give(0, 1)), 1)
    ensures CanIssue(Step(Step(Step(Start(0, 2), Pull(0, 2)), Give(1, 2)), Push(1)), 2)
  {
    var start := Start(0, 2);
    GiveKeeps(start, Give(0, 1));
    assert Step(start, Give(0, 1)).statements[1].floor == 0;
    PulledIsIssued(Step(start, Give(0, 1)), 1, 1);
    var pushed := Step(Step(Step(start, Pull(0, 2)), Give(1, 2)), Push(1));
    assert Owns(pushed.statements[0], 2);
    OwnedIsIssued(pushed, 0, 2);
  }

  /** The steps of one reservation: push the floor and pull a block when there is none, then take. */
  function ReservationSteps(c: Counters, s: nat, count: nat): seq<Action> {
    if HasBlock(c) then [Take(s)] else [Push(s), Pull(s, count), Take(s)]
  }

  lemma OneStep(m: Machine, a: Action, rest: seq<Action>, after: Machine)
    requires Enabled(m, a) && Runs(Step(m, a), rest, after)
    ensures Runs(m, [a] + rest, after)
  {
    assert ([a] + rest)[1..] == rest;
  }

  /** A reservation by a statement is a run of the machine that issues the id it returns. */
  lemma ReservationIsARun(m: Machine, s: nat, count: nat)
    requires Inv(m) && s < |m.statements| && Taken(m.statements[s], m.counter, count).Some?
    ensures var (c, counter, id) := Taken(m.statements[s], m.counter, count).value;
            Runs(m, ReservationSteps(m.statements[s], s, count),
                 Machine(counter, m.statements[s := c], m.issued + [Issue(s, id, m.statements[s].floor)]))
  {
    var before := m.statements[s];
    var (c, counter, id) := Taken(before, m.counter, count).value;
    var after := Machine(counter, m.statements[s := c], m.issued + [Issue(s, id, before.floor)]);
    assert Runs(after, [], after);
    if HasBlock(before) {
      OneStep(m, Take(s), [], after);
      assert [Take(s)] + [] == [Take(s)];
    } else {
      assert StatementOk(m, s);
      var pushed := Step(m, Push(s));
      assert pushed.statements[s := c] == m.statements[s := c];
      PullAndTake(pushed, s, count, after);
      OneStep(m, Push(s), [Pull(s, count), Take(s)], after);
      assert [Push(s)] + [Pull(s, count), Take(s)] == [Push(s), Pull(s, count), Take(s)];
    }
  }

  lemma PullAndTake(m: Machine, s: nat, count: nat, after: Machine)
    requires Enabled(m, Pull(s, count)) && Reserved(m.counter, count).Block?
    requires after == Step(Step(m, Pull(s, count)), Take(s))
    ensures Runs(m, [Pull(s, count), Take(s)], after)
  {
    var pulled := Step(m, Pull(s, count));
    assert Runs(after, [], after);
    OneStep(pulled, Take(s), [], after);
    assert [Take(s)] + [] == [Take(s)];
    OneStep(m, Pull(s, count), [Take(s)], after);
    assert [Pull(s, count)] + [Take(s)] == [Pull(s, count), Take(s)];
  }
}
