/**
 The order in which a multi-table DELETE empties its targets: children before the parents they reference, an error
 exactly for cyclic references, and a staged run whose passes visit every row once in that order.
 */
module MultiDelete {
  import opened Wrappers
  import opened Bytes
  import opened Ordering

  // ----- references between targets ----------------------------------------------------------

  /** `references(c, p)`: target c has a foreign key to target p. A target's reference to itself does not count. */
  predicate Edge(references: (nat, nat) -> bool, p: nat, c: nat) { p != c && references(c, p) }

  /** A walk from parent to child to grandchild. */
  ghost predicate Walk(n: nat, references: (nat, nat) -> bool, path: seq<nat>) {
    && (forall i :: 0 <= i < |path| ==> path[i] < n)
    && (forall i :: 0 <= i < |path| - 1 ==> Edge(references, path[i], path[i + 1]))
  }

  ghost predicate Cycle(n: nat, references: (nat, nat) -> bool, path: seq<nat>) {
    |path| >= 2 && path[0] == path[|path| - 1] && Walk(n, references, path)
  }

  /** Every target comes after all targets that reference it. */
  ghost predicate ChildrenFirst(n: nat, references: (nat, nat) -> bool, order: seq<nat>) {
    forall i, c :: 0 <= i < |order| && 0 <= c < n && Edge(references, order[i], c) ==> c in order[..i]
  }

  predicate Distinct(order: seq<nat>) { forall i, j :: 0 <= i < j < |order| ==> order[i] != order[j] }

  lemma {:induction false} WalkDescends(n: nat, references: (nat, nat) -> bool, order: seq<nat>, path: seq<nat>, i: nat)
    requires ChildrenFirst(n, references, order) && Walk(n, references, path) && path != []
    requires i < |order| && order[i] == path[0]
    ensures exists j :: 0 <= j <= i && order[j] == path[|path| - 1] && (|path| >= 2 ==> j < i)
  {
    if |path| >= 2 {
      assert Edge(references, path[0], path[1]);
      assert path[1] in order[..i];
      var k :| 0 <= k < i && order[k] == path[1];
      assert Walk(n, references, path[1..]) by {
        forall m | 0 <= m < |path[1..]| - 1 ensures Edge(references, path[1..][m], path[1..][m + 1]) {
          assert Edge(references, path[m + 1], path[m + 2]);
        }
      }
      WalkDescends(n, references, order, path[1..], k);
    }
  }

  /** An order with children first exists only without cycles. */
  lemma OrderedMeansAcyclic(n: nat, references: (nat, nat) -> bool, order: seq<nat>, path: seq<nat>)
    requires ChildrenFirst(n, references, order) && Distinct(order) && forall t :: 0 <= t < n ==> t in order
    ensures !Cycle(n, references, path)
  {
    if Cycle(n, references, path) {
      assert path[0] in order;
      var i :| 0 <= i < |order| && order[i] == path[0];
      WalkDescends(n, references, order, path, i);
      assert false;
    }
  }

  // ----- the depth-first search --------------------------------------------------------------

  datatype Mark = New | Active | Finished

  /** multiDeleteOrder's closures: the marks and the order they build. */
  class Search {
    const n: nat
    const references: (nat, nat) -> bool
    var marks: seq<Mark>
    var order: seq<nat>

    constructor (targets: nat, refs: (nat, nat) -> bool)
      ensures n == targets && references == refs && Valid([]) && order == []
      ensures forall i :: 0 <= i < n ==> marks[i] == New
    {
      n, references, marks, order := targets, refs, seq(targets, _ => New), [];
    }

    ghost function Unvisited(): set<nat>
      reads this
    {
      set i: nat | i < |marks| && marks[i] == New
    }

    /** The active targets are the walk that leads to the current call; the finished ones are the order so far. */
    ghost predicate Valid(stack: seq<nat>)
      reads this
    {
      && |marks| == n
      && (forall i :: 0 <= i < n ==> (marks[i] == Active <==> i in stack))
      && (forall i :: 0 <= i < n ==> (marks[i] == Finished <==> i in order))
      && (forall i :: 0 <= i < |order| ==> order[i] < n)
      && Distinct(order) && ChildrenFirst(n, references, order) && Walk(n, references, stack)
    }

    method Visit(index: nat, ghost stack: seq<nat>) returns (ok: bool, ghost cycle: seq<nat>)
      requires Valid(stack) && index < n && (stack != [] ==> Edge(references, stack[|stack| - 1], index))
      modifies this
      ensures ok ==> Valid(stack) && marks[index] == Finished && old(order) <= order && Unvisited() <= old(Unvisited())
      ensures !ok ==> Cycle(n, references, cycle)
      decreases Unvisited()
    {
      cycle := [];
      if marks[index] == Active {
        cycle := CloseCycle(stack, index);
        return false, cycle;
      }
      if marks[index] == Finished { return true, cycle; }
      Activate(index, stack);
      ghost var path := stack + [index];
      for child := 0 to n
        invariant Valid(path) && old(order) <= order && Unvisited() < old(Unvisited())
        invariant forall c :: 0 <= c < child && Edge(references, index, c) ==> c in order
      {
        if child == index { continue; }
        if references(child, index) {
          ok, cycle := Visit(child, path);
          if !ok { return; }
        }
      }
      Complete(index, stack);
      ok := true;
    }

    method Activate(index: nat, ghost stack: seq<nat>)
      requires Valid(stack) && index < n && marks[index] == New
               && (stack != [] ==> Edge(references, stack[|stack| - 1], index))
      modifies this`marks
      ensures Valid(stack + [index]) && Unvisited() < old(Unvisited())
    {
      marks := marks[index := Active];
      assert index in old(Unvisited()) && index !in Unvisited();
    }

    method Complete(index: nat, ghost stack: seq<nat>)
      requires Valid(stack + [index]) && index < n && index !in stack
      requires forall c :: 0 <= c < n && Edge(references, index, c) ==> c in order
      modifies this
      ensures Valid(stack) && marks[index] == Finished && order == old(order) + [index]
              && Unvisited() <= old(Unvisited())
    {
      FinishOrder(n, references, order, index);
      ghost var path := stack + [index];
      assert path[|stack|] == index && marks[index] == Active;
      assert forall i :: 0 <= i < |stack| ==> path[i] == stack[i];
      marks := marks[index := Finished];
      order := order + [index];
    }

    /** Meeting an active target closes a cycle. */
    ghost method CloseCycle(stack: seq<nat>, index: nat) returns (cycle: seq<nat>)
      requires Valid(stack) && index < n && marks[index] == Active
               && (stack != [] ==> Edge(references, stack[|stack| - 1], index))
      ensures Cycle(n, references, cycle)
    {
      var k :| 0 <= k < |stack| && stack[k] == index;
      cycle := stack[k..] + [index];
      forall i | 0 <= i < |cycle| - 1 ensures Edge(references, cycle[i], cycle[i + 1]) {
        if i + 1 < |stack[k..]| { assert Edge(references, stack[k + i], stack[k + i + 1]); }
      }
    }
  }

  lemma FinishOrder(n: nat, references: (nat, nat) -> bool, order: seq<nat>, index: nat)
    requires ChildrenFirst(n, references, order) && forall c :: 0 <= c < n && Edge(references, index, c) ==> c in order
    ensures ChildrenFirst(n, references, order + [index])
  {
    var longer := order + [index];
    forall i, c | 0 <= i < |longer| && 0 <= c < n && Edge(references, longer[i], c) ensures c in longer[..i] {
      if i < |order| { assert longer[..i] == order[..i]; } else { assert longer[..i] == order; }
    }
  }

  /** multiDeleteOrder: all targets, children first, or an error exactly when the references are cyclic. */
  method Order(n: nat, references: (nat, nat) -> bool) returns (r: Option<seq<nat>>)
    ensures r.Some? ==> Distinct(r.value) && ChildrenFirst(n, references, r.value)
    ensures r.Some? ==> forall t :: 0 <= t < n <==> t in r.value
    ensures r.None? <==> exists path :: Cycle(n, references, path)
  {
    var search := new Search(n, references);
    for index := 0 to n
      invariant search.n == n && search.references == references && search.Valid([])
      invariant forall t :: 0 <= t < index ==> search.marks[t] == Finished
    {
      ghost var cycle;
      var ok;
      ghost var before := search.order;
      ok, cycle := search.Visit(index, []);
      if !ok { return None; }
      forall t | 0 <= t < index ensures search.marks[t] == Finished { assert t in before; }
    }
    forall path ensures !Cycle(n, references, path) { OrderedMeansAcyclic(n, references, search.order, path); }
    return Some(search.order);
  }

  // ----- the staged run ----------------------------------------------------------------------

  /** A staged candidate: its target's rank in the order, its storage key and the target itself. */
  datatype Staged = Staged(rank: Data, key: Data, target: nat)

  function CompareBytes(a: Data, b: Data): int { if Less(a, b) then -1 else if Less(b, a) then 1 else 0 }

  /** The staging sorter's comparison: rank first, storage key second. */
  function CompareStaged(a: Staged, b: Staged): int {
    var c := CompareBytes(a.rank, b.rank);
    if c != 0 then c else CompareBytes(a.key, b.key)
  }

  lemma CompareBytesOrder(a: Data, b: Data, c: Data)
    ensures CompareBytes(a, b) < 0 <==> CompareBytes(b, a) > 0
    ensures CompareBytes(a, b) == 0 <==> a == b
    ensures CompareBytes(a, b) <= 0 && CompareBytes(b, c) <= 0 ==> CompareBytes(a, c) <= 0
  {
    LessTotal(a, b);
    LessTotal(b, c);
    LessIrreflexive(a);
    if Less(a, b) { LessAsymmetric(a, b); }
    if Less(b, a) { LessAsymmetric(b, a); }
    if Less(a, b) && Less(b, c) {
      LessTransitive(a, b, c);
      LessAsymmetric(a, c);
    }
  }

  lemma StagedPreorder()
    ensures TotalPreorder(CompareStaged)
  {
    forall a, b ensures Opposite(CompareStaged, a, b) {
      CompareBytesOrder(a.rank, b.rank, b.rank);
      CompareBytesOrder(b.rank, a.rank, a.rank);
      CompareBytesOrder(a.key, b.key, b.key);
    }
    forall a, b, c ensures Chains(CompareStaged, a, b, c) {
      CompareBytesOrder(a.rank, b.rank, c.rank);
      CompareBytesOrder(b.rank, c.rank, a.rank);
      CompareBytesOrder(c.rank, a.rank, b.rank);
      CompareBytesOrder(a.key, b.key, c.key);
    }
  }

  /** ordinalLedgerKey orders ordinals numerically and can be read back. */
  lemma LedgerKeyOrder(i: nat, j: nat)
    requires i < TWO_64 && j < TWO_64
    ensures Less(BigEndian(i, 8), BigEndian(j, 8)) <==> i < j
    ensures FromBigEndian(BigEndian(i, 8)) == i
  {
    Pow256Eight();
    BigEndianRoundTrip(i, 8);
    if i < j {
      BigEndianOrder(i, j, 8);
    } else if j < i {
      BigEndianOrder(j, i, 8);
      LessAsymmetric(BigEndian(j, 8), BigEndian(i, 8));
    } else {
      LessIrreflexive(BigEndian(i, 8));
    }
  }

  function Position(order: seq<nat>, t: nat): nat
    requires t in order
    ensures Position(order, t) < |order| && order[Position(order, t)] == t
  {
    if order[0] == t then 0 else 1 + Position(order[1..], t)
  }

  /** dependencyRanks: every candidate is staged under the ledger key of its target's position. */
  ghost predicate RankedBy(order: seq<nat>, staged: seq<Staged>) {
    forall i :: 0 <= i < |staged| ==>
      staged[i].target in order && staged[i].rank == BigEndian(Position(order, staged[i].target), 8)
  }

  /** forTarget: one pass over the run that keeps one target's candidates. */
  function ForTarget(run: seq<Staged>, t: nat): seq<Staged> {
    if run == [] then [] else (if run[0].target == t then [run[0]] else []) + ForTarget(run[1..], t)
  }

  /** The passes of delete, one per target in dependency order. */
  function Passes(run: seq<Staged>, order: seq<nat>): seq<Staged> {
    if order == [] then [] else Passes(run, order[..|order| - 1]) + ForTarget(run, order[|order| - 1])
  }

  /** Positions never decrease along the run. */
  ghost predicate Grouped(order: seq<nat>, run: seq<Staged>) {
    && (forall i :: 0 <= i < |run| ==> run[i].target in order)
    && (forall i, j :: 0 <= i < j < |run| ==> Position(order, run[i].target) <= Position(order, run[j].target))
  }

  lemma SortedIsGrouped(order: seq<nat>, staged: seq<Staged>)
    requires RankedBy(order, staged) && |order| < TWO_64
    ensures Grouped(order, StableSort(CompareStaged, staged))
  {
    StagedPreorder();
    var run := StableSort(CompareStaged, staged);
    var from := StableSortMeaning(CompareStaged, staged);
    forall i, j | 0 <= i < j < |run|
      ensures run[i].target in order && run[j].target in order
              && Position(order, run[i].target) <= Position(order, run[j].target)
    {
      var a, b := staged[from[i]], staged[from[j]];
      CompareBytesOrder(a.rank, b.rank, b.rank);
      LedgerKeyOrder(Position(order, b.target), Position(order, a.target));
    }
    forall i | 0 <= i < |run| ensures run[i].target in order { assert run[i] == staged[from[i]]; }
  }

  /** The candidates of the first k targets of a grouped run are its beginning. */
  function Upto(order: seq<nat>, run: seq<Staged>, k: nat): (m: nat)
    requires forall i :: 0 <= i < |run| ==> run[i].target in order
    ensures m <= |run|
  {
    if run == [] || Position(order, run[0].target) >= k then 0 else 1 + Upto(order, run[1..], k)
  }

  lemma {:induction false} ForTargetSlice(order: seq<nat>, run: seq<Staged>, k: nat)
    requires Grouped(order, run) && Distinct(order) && k < |order|
    ensures Upto(order, run, k) <= Upto(order, run, k + 1)
    ensures ForTarget(run, order[k]) == run[Upto(order, run, k)..Upto(order, run, k + 1)]
  {
    if run != [] {
      var tail := run[1..];
      forall i, j | 0 <= i < j < |tail| ensures Position(order, tail[i].target) <= Position(order, tail[j].target) {
        assert tail[i] == run[i + 1] && tail[j] == run[j + 1];
      }
      ForTargetSlice(order, tail, k);
      SliceStep(order, run, k);
    }
  }

  lemma SliceStep(order: seq<nat>, run: seq<Staged>, k: nat)
    requires Grouped(order, run) && Distinct(order) && k < |order| && run != []
    requires Upto(order, run[1..], k) <= Upto(order, run[1..], k + 1)
    requires ForTarget(run[1..], order[k]) == run[1..][Upto(order, run[1..], k)..Upto(order, run[1..], k + 1)]
    ensures Upto(order, run, k) <= Upto(order, run, k + 1)
    ensures ForTarget(run, order[k]) == run[Upto(order, run, k)..Upto(order, run, k + 1)]
  {
    var tail, q := run[1..], Position(order, run[0].target);
    var low, high := Upto(order, tail, k), Upto(order, tail, k + 1);
    assert tail != [] ==> Position(order, tail[0].target) >= q;
    if q < k {
      assert order[q] != order[k];
      TailSlice(run, low, high);
    } else if q > k {
      assert order[q] != order[k];
      NothingBelow(order, tail, k);
      NothingBelow(order, tail, k + 1);
    } else {
      NothingBelow(order, tail, k);
      HeadSlice(run, high);
    }
  }

  lemma TailSlice<T>(s: seq<T>, low: nat, high: nat)
    requires s != [] && low <= high < |s|
    ensures s[1..][low..high] == s[1 + low..1 + high]
  {
  }

  lemma HeadSlice<T>(s: seq<T>, high: nat)
    requires high < |s|
    ensures [s[0]] + s[1..][0..high] == s[0..1 + high]
  {
  }

  lemma JoinSlices<T>(s: seq<T>, low: nat, high: nat)
    requires low <= high <= |s|
    ensures s[..low] + s[low..high] == s[..high]
  {
  }

  lemma NothingBelow(order: seq<nat>, run: seq<Staged>, k: nat)
    requires (forall i :: 0 <= i < |run| ==> run[i].target in order)
             && (run != [] ==> Position(order, run[0].target) >= k)
    ensures Upto(order, run, k) == 0
  {
  }

  lemma {:induction false} AllBelow(order: seq<nat>, run: seq<Staged>)
    requires forall i :: 0 <= i < |run| ==> run[i].target in order
    ensures Upto(order, run, |order|) == |run|
  {
    if run != [] { AllBelow(order, run[1..]); }
  }

  lemma {:induction false} PassesPrefix(order: seq<nat>, run: seq<Staged>, k: nat)
    requires Grouped(order, run) && Distinct(order) && k <= |order|
    ensures Passes(run, order[..k]) == run[..Upto(order, run, k)]
  {
    if k == 0 {
      NothingBelow(order, run, 0);
    } else {
      PassesPrefix(order, run, k - 1);
      ForTargetSlice(order, run, k - 1);
      JoinSlices(run, Upto(order, run, k - 1), Upto(order, run, k));
      assert order[..k][..k - 1] == order[..k - 1];
    }
  }

  /**
   Reading the staged run target by target reproduces it: every candidate is deleted exactly once, in
   (dependency rank, storage key) order, so the rows of a child target all come before those of its parent.
   */
  lemma PassesReproduceRun(n: nat, references: (nat, nat) -> bool, order: seq<nat>, staged: seq<Staged>)
    requires Distinct(order) && ChildrenFirst(n, references, order) && RankedBy(order, staged) && |order| < TWO_64
    ensures Passes(StableSort(CompareStaged, staged), order) == StableSort(CompareStaged, staged)
    ensures var run := StableSort(CompareStaged, staged);
            forall i, j :: 0 <= i < |run| && 0 <= j < |run| && run[j].target < n ==>
              Edge(references, run[i].target, run[j].target) ==> j < i
  {
    var run := StableSort(CompareStaged, staged);
    SortedIsGrouped(order, staged);
    PassesPrefix(order, run, |order|);
    AllBelow(order, run);
    assert order[..|order|] == order && run[..|run|] == run;
    forall i, j | 0 <= i < |run| && 0 <= j < |run| && run[j].target < n
      && Edge(references, run[i].target, run[j].target)
      ensures j < i
    {
      ChildRowFirst(n, references, order, run, i, j);
    }
  }

  lemma ChildRowFirst(n: nat, references: (nat, nat) -> bool, order: seq<nat>, run: seq<Staged>, i: nat, j: nat)
    requires Distinct(order) && ChildrenFirst(n, references, order) && Grouped(order, run)
    requires i < |run| && j < |run| && run[j].target < n && Edge(references, run[i].target, run[j].target)
    ensures j < i
  {
    var a, b := Position(order, run[i].target), Position(order, run[j].target);
    assert run[j].target in order[..a];
    var k :| 0 <= k < a && order[k] == run[j].target;
    assert order[k] == order[b];
    assert k == b;
  }
}
