/**
 The sorters of one statement: any number of them at once on one sort-memory pool and one temporary-file budget,
 and the proof that over every sequence of their operations both budgets are the sum of what the sorters hold.
 */
module SharedSort {
  import opened Wrappers
  import opened Bytes
  import opened Ordering
  import opened SortCodec
  import opened SortBudgets
  import opened ExternalSort

  /** What each sorter holds of the sort memory. */
  ghost function Held(sorters: seq<Sorter>): (r: seq<int>)
    reads sorters
    ensures |r| == |sorters| && forall i :: 0 <= i < |r| ==> r[i] == sorters[i].held
  {
    seq(|sorters|, i requires 0 <= i < |sorters| reads sorters => sorters[i].held)
  }

  /** The temporary bytes each sorter has charged. */
  ghost function Charged(sorters: seq<Sorter>): (r: seq<int>)
    reads sorters
    ensures |r| == |sorters| && forall i :: 0 <= i < |r| ==> r[i] == sorters[i].tempBytes
  {
    seq(|sorters|, i requires 0 <= i < |sorters| reads sorters => sorters[i].tempBytes)
  }

  /** The bytes in each sorter's live files. */
  ghost function InFiles(sorters: seq<Sorter>): (r: seq<int>)
    reads sorters
    ensures |r| == |sorters| && forall i :: 0 <= i < |r| ==> r[i] == sorters[i].LiveBytes()
  {
    seq(|sorters|, i requires 0 <= i < |sorters| reads sorters => sorters[i].LiveBytes())
  }

  ghost predicate Separate(sorters: seq<Sorter>) { forall i, j :: 0 <= i < j < |sorters| ==> sorters[i] != sorters[j] }

  class Statement {
    const budget: SorterBudget
    const temporary: TemporaryBudget
    var sorters: seq<Sorter>

    constructor (memory: int, limit: int)
      ensures Valid() && sorters == [] && fresh(budget) && fresh(temporary)
      ensures budget.total == (if memory <= 0 then 0x40_0000 else memory) && temporary.limit == limit
    {
      budget := new SorterBudget(memory);
      temporary := new TemporaryBudget(limit);
      sorters := [];
    }

    /** A sorter of this statement: usable until it fails or is closed, and accounted for until the end. */
    ghost predicate Mine(s: Sorter)
      reads s
    {
      && s.budget == budget && s.temporary == temporary && s.OwnMemory() && s.FilesAccounted()
      && (s.closed ==> s.held == 0 && s.tempBytes == 0) && (s.closed || s.failed || s.Usable())
    }

    /** Memory in use is what the sorters hold, within the configured memory. */
    ghost predicate MemoryBalanced()
      reads this, sorters, budget
    {
      budget.used == Sum(Held(sorters)) && 0 <= budget.used <= budget.total
    }

    /** Temporary bytes in use are what the sorters have charged, within the configured limit. */
    ghost predicate FilesBalanced()
      reads this, sorters, temporary
    {
      temporary.used == Sum(Charged(sorters)) && (temporary.limit > 0 ==> temporary.used <= temporary.limit)
    }

    ghost predicate Valid()
      reads this, sorters, budget, temporary
    {
      && Separate(sorters) && (forall i :: 0 <= i < |sorters| ==> Mine(sorters[i]))
      && MemoryBalanced() && FilesBalanced()
    }

    /** The pool covers the share of each sorter. */
    lemma Covered(i: nat)
      requires Valid() && i < |sorters|
      ensures sorters[i].PoolCovers() && sorters[i].Room(0)
    {
      forall k | 0 <= k < |sorters| ensures Held(sorters)[k] >= 0 { assert Mine(sorters[k]); }
      assert Mine(sorters[i]);
      PartOfSum(Held(sorters), i);
    }

    /** A closed sorter has handed back its shares. */
    predicate Returned(s: Sorter)
      reads s
    {
      s.closed && s.held == 0 && s.tempBytes == 0
    }

    ghost predicate IsNew(s: Sorter)
      reads s
    {
      s.Usable() && s.added == [] && s.batch == []
    }

    /** What the sorters have charged is what their live files hold. */
    lemma ChargedForFiles()
      requires Valid()
      ensures temporary.used == Sum(InFiles(sorters))
    {
      forall k | 0 <= k < |sorters| ensures Charged(sorters)[k] == InFiles(sorters)[k] { assert Mine(sorters[k]); }
      assert Charged(sorters) == InFiles(sorters);
    }

    /** Only sorter i has taken a step, and it has left the others' shares alone. */
    twostate predicate Stepped(i: nat)
      requires i < |sorters|
      reads this, sorters, budget, temporary
    {
      && sorters == old(sorters) && (forall j :: 0 <= j < |sorters| && j != i ==> unchanged(sorters[j]))
      && sorters[i].budget == budget && sorters[i].temporary == temporary && sorters[i].OthersKept()
    }

    twostate lemma StaysMine(s: Sorter)
      requires old(Mine(s)) && unchanged(s)
      ensures Mine(s)
    {
    }

    /** A step of one sorter changes one share of the memory by as much as the pool. */
    twostate lemma MemoryFollows(i: nat)
      requires i < |sorters| && Stepped(i) && old(MemoryBalanced())
      requires budget.used <= budget.total && forall k :: 0 <= k < |sorters| ==> sorters[k].held >= 0
      ensures MemoryBalanced()
    {
      var before, after := old(Held(sorters)), Held(sorters);
      assert after == before[i := after[i]];
      SumUpdate(before, i, after[i]);
      SumNonNegative(after);
    }

    /** And one share of the temporary bytes by as much as the temporary budget. */
    twostate lemma FilesFollow(i: nat)
      requires i < |sorters| && Stepped(i) && old(FilesBalanced())
      ensures FilesBalanced()
    {
      var before, after := old(Charged(sorters)), Charged(sorters);
      assert after == before[i := after[i]];
      SumUpdate(before, i, after[i]);
    }

    /** A step of one sorter that leaves it accounted for keeps the statement's invariant. */
    twostate lemma StepKeeps(i: nat)
      requires i < |sorters| && old(Valid()) && Stepped(i) && Mine(sorters[i]) && budget.used <= budget.total
      ensures Valid()
    {
      assert old(Mine(sorters[i]));
      forall k | 0 <= k < |sorters| ensures Mine(sorters[k]) {
        if k != i {
          assert old(Mine(sorters[k]));
          StaysMine(sorters[k]);
        }
      }
      forall k | 0 <= k < |sorters| ensures sorters[k].held >= 0 { assert Mine(sorters[k]); }
      MemoryFollows(i);
      FilesFollow(i);
    }

    /** newExternalRowSorter on the statement's budgets: refused when the pool is smaller than 64 KiB. */
    method Open(order: (Cells, Cells) -> int) returns (ok: bool)
      requires Valid() && Comparable(order)
      modifies this
      ensures Valid() && (ok <==> budget.total >= 0x1_0000)
      ensures !ok ==> sorters == old(sorters)
      ensures ok ==> |sorters| == |old(sorters)| + 1 && sorters[..|old(sorters)|] == old(sorters)
      ensures ok ==> fresh(sorters[|old(sorters)|]) && IsNew(sorters[|old(sorters)|])
      ensures ok ==> sorters[|old(sorters)|].cmp == order
    {
      var memory := SorterMemory(0, Some(budget.total));
      if memory.None? { return false; }
      var s := new Sorter(order, memory.value, budget, temporary);
      sorters := sorters + [s];
      Opened(old(sorters), s);
      ok := true;
    }

    twostate lemma OpenedShares(before: seq<Sorter>, new s: Sorter)
      requires sorters == before + [s] && s.held == 0 && s.tempBytes == 0
      requires forall i :: 0 <= i < |before| ==> unchanged(before[i])
      ensures Sum(Held(sorters)) == Sum(old(Held(before))) && Sum(Charged(sorters)) == Sum(old(Charged(before)))
    {
      assert Held(sorters) == old(Held(before)) + [0];
      SumAppend(old(Held(before)), 0);
      assert Charged(sorters) == old(Charged(before)) + [0];
      SumAppend(old(Charged(before)), 0);
    }

    /** A new sorter holds nothing. */
    twostate lemma Opened(before: seq<Sorter>, new s: Sorter)
      requires before == old(sorters) && sorters == before + [s] && old(Valid()) && s !in before && Mine(s)
      requires s.held == 0 && s.tempBytes == 0
      requires unchanged(budget) && unchanged(temporary) && forall i :: 0 <= i < |before| ==> unchanged(before[i])
      ensures Valid()
    {
      OpenedShares(before, s);
      forall k | 0 <= k < |sorters| ensures Mine(sorters[k]) {
        if k < |before| {
          assert old(Mine(before[k]));
          StaysMine(before[k]);
        }
      }
    }

    /** Add on one sorter. */
    method AddTo(i: nat, values: Cells) returns (err: Option<SortError>)
      requires Valid() && i < |sorters| && ValidValues(values)
      requires !sorters[i].closed ==> !sorters[i].failed && |sorters[i].added| + 1 < TWO_64
      modifies sorters[i], budget, temporary
      ensures Valid() && Stepped(i)
      ensures err.None? ==> sorters[i].Usable() && sorters[i].added == old(sorters[i].added) + [values]
      ensures !old(sorters[i].closed) && RowWidth(values) <= sorters[i].Limit() ==>
                sorters[i].Served(RetainedBytes(values) + 32, err)
    {
      assert Mine(sorters[i]);
      Covered(i);
      err := sorters[i].Add(values);
      StepKeeps(i);
    }

    /** Finish on one sorter. */
    method FinishAt(i: nat) returns (out: seq<Cells>, err: Option<SortError>)
      requires Valid() && i < |sorters| && (!sorters[i].closed ==> !sorters[i].failed)
      modifies sorters[i], budget, temporary
      ensures Valid() && Stepped(i) && Returned(sorters[i])
      ensures err.None? ==> var sorted := StableSort(sorters[i].cmp, sorters[i].added);
                            out == if old(sorters[i].runs) == [] then sorted else NormAll(sorted)
      ensures err.None? && PlainRows(sorters[i].added) ==> out == StableSort(sorters[i].cmp, sorters[i].added)
    {
      assert Mine(sorters[i]);
      Covered(i);
      out, err := sorters[i].Finish();
      StepKeeps(i);
    }

    /** Close on one sorter, whatever state it is in. */
    method CloseAt(i: nat)
      requires Valid() && i < |sorters|
      modifies sorters[i], budget, temporary
      ensures Valid() && Stepped(i) && Returned(sorters[i])
    {
      assert Mine(sorters[i]);
      Covered(i);
      sorters[i].Close();
      StepKeeps(i);
    }

    /** mergeToSingleRun on one sorter. */
    method MergeAt(i: nat) returns (err: Option<SortError>)
      requires Valid() && i < |sorters| && (!sorters[i].closed ==> !sorters[i].failed)
      modifies sorters[i], budget, temporary
      ensures Valid() && Stepped(i)
      ensures err.None? ==> sorters[i].Usable() && sorters[i].batch == [] && |sorters[i].runs| <= 1
    {
      assert Mine(sorters[i]);
      Covered(i);
      err := sorters[i].MergeToSingleRun();
      StepKeeps(i);
    }

    /** Closing every sorter returns everything, whatever happened before. */
    method CloseAll()
      requires Valid()
      modifies sorters, budget, temporary
      ensures Valid() && budget.used == 0 && temporary.used == 0
    {
      for i := 0 to |sorters|
        invariant Valid() && forall k :: 0 <= k < i ==> Returned(sorters[k])
      {
        CloseAt(i);
      }
      SumOfNothing(Held(sorters));
      SumOfNothing(Charged(sorters));
    }
  }

  lemma {:induction false} NilWidth(n: nat)
    ensures CellsWidth(seq(n, _ => Nil)) == n
  {
    if n > 0 {
      NilWidth(n - 1);
      assert seq(n, _ => Nil)[1..] == seq(n - 1, _ => Nil);
    }
  }

  lemma ConstantOrder(order: (Cells, Cells) -> int)
    requires forall a, b :: order(a, b) == 0
    ensures Comparable(order)
  {
    forall a, b ensures Opposite(order, a, b) && NormBlind(order, a, b) {}
    forall a, b, c ensures Chains(order, a, b, c) {}
  }

  /** One row of three thousand NULLs is narrow enough for a 64 KiB sorter and takes the whole pool. */
  method TakePool(statement: Statement) returns (err: Option<SortError>)
    requires statement.Valid() && |statement.sorters| >= 1 && statement.IsNew(statement.sorters[0])
    requires statement.budget.total == 0x1_0000 && statement.budget.used == 0
    modifies statement.sorters[0], statement.budget, statement.temporary
    ensures statement.Valid() && statement.Stepped(0)
    ensures err.None? && statement.budget.used == statement.budget.total
  {
    var wide: Cells := seq(3000, _ => Nil);
    NilWidth(3000);
    assert statement.Mine(statement.sorters[0]);
    err := statement.AddTo(0, wide);
  }

  /** An exhausted pool is within reach, and then the first row of another sorter is refused. */
  method ExhaustPool(statement: Statement) returns (first: Option<SortError>, second: Option<SortError>)
    requires statement.Valid() && |statement.sorters| >= 2
    requires statement.IsNew(statement.sorters[0]) && statement.IsNew(statement.sorters[1])
    requires statement.budget.total == 0x1_0000 && statement.budget.used == 0
    modifies statement.sorters, statement.budget, statement.temporary
    ensures first.None? && second == Some(MemoryExhausted)
  {
    assert statement.Mine(statement.sorters[1]);
    first := TakePool(statement);
    second := statement.AddTo(1, []);
  }

  method TwoSorters() returns (statement: Statement)
    ensures fresh(statement) && fresh(statement.budget) && fresh(statement.temporary)
    ensures statement.Valid() && |statement.sorters| == 2 && forall s :: s in statement.sorters ==> fresh(s)
    ensures statement.IsNew(statement.sorters[0]) && statement.IsNew(statement.sorters[1])
    ensures statement.budget.total == 0x1_0000 && statement.budget.used == 0
  {
    var order: (Cells, Cells) -> int := (_, _) => 0;
    ConstantOrder(order);
    statement := new Statement(0x1_0000, 0);
    var ok := statement.Open(order);
    ok := statement.Open(order);
  }

  /** The whole run: a fresh statement, two sorters, two rows, and the second is refused. */
  method PoolRunsOut() returns (second: Option<SortError>)
    ensures second == Some(MemoryExhausted)
  {
    var statement := TwoSorters();
    var first;
    first, second := ExhaustPool(statement);
  }
}
