/** The two budgets a statement's sorters share: retained sort memory and temporary file bytes. */
module SortBudgets {
  import opened Wrappers

  function Min(a: int, b: int): int { if a <= b then a else b }

  /** sorterBudget: the sort memory of one statement. */
  class SorterBudget {
    const total: int
    var used: int

    constructor (size: int)
      ensures total == (if size <= 0 then 0x40_0000 else size) && used == 0
    {
      total := if size <= 0 then 0x40_0000 else size;
      used := 0;
    }

    /** reserve: as much of the request as is available, refused below one byte. */
    method Reserve(requested: int) returns (granted: Option<int>)
      modifies this
      ensures granted.None? <==> requested < 1 || old(used) >= total
      ensures granted.None? ==> used == old(used)
      ensures granted.Some? ==> 1 <= granted.value <= requested && used == old(used) + granted.value <= total
      ensures granted.Some? && granted.value < requested ==> used == total
    {
      var size := Min(requested, total - used);
      if size < 1 { return None; }
      used := used + size;
      return Some(size);
    }

    method Release(size: int)
      modifies this
      ensures used == if old(used) < size then 0 else old(used) - size
    {
      used := used - size;
      if used < 0 { used := 0; }
    }
  }

  /** queryTemporaryBudget: the bytes in temporary files of one query; no limit when it is zero or below. */
  class TemporaryBudget {
    const limit: int
    var used: int

    constructor (maximum: int)
      ensures limit == maximum && used == 0
    {
      limit, used := maximum, 0;
    }

    method Reserve(size: int) returns (ok: bool)
      modifies this
      ensures ok <==> !(limit > 0 && size > limit - old(used))
      ensures used == old(used) + if ok then size else 0
    {
      ok := !(limit > 0 && size > limit - used);
      if ok { used := used + size; }
    }

    method Release(size: int)
      modifies this
      ensures used == old(used) - size
    {
      used := used - size;
    }
  }

  // ----- sums of shares ----------------------------------------------------------------------

  function Sum(shares: seq<int>): int { if shares == [] then 0 else shares[0] + Sum(shares[1..]) }

  lemma {:induction false} SumUpdate(shares: seq<int>, i: nat, x: int)
    requires i < |shares|
    ensures Sum(shares[i := x]) == Sum(shares) - shares[i] + x
  {
    if i == 0 {
      assert shares[0 := x][1..] == shares[1..];
    } else {
      SumUpdate(shares[1..], i - 1, x);
      assert shares[i := x][1..] == shares[1..][i - 1 := x];
    }
  }

  lemma {:induction false} SumAppend(shares: seq<int>, x: int)
    ensures Sum(shares + [x]) == Sum(shares) + x
  {
    if shares == [] {
      assert [x][1..] == [] && [] + [x] == [x];
    } else {
      SumAppend(shares[1..], x);
      assert (shares + [x])[1..] == shares[1..] + [x];
    }
  }

  lemma PartOfSum(shares: seq<int>, i: nat)
    requires i < |shares| && forall k :: 0 <= k < |shares| ==> shares[k] >= 0
    ensures 0 <= shares[i] <= Sum(shares)
  {
    SumUpdate(shares, i, 0);
    SumNonNegative(shares[i := 0]);
  }

  lemma {:induction false} SumNonNegative(shares: seq<int>)
    requires forall k :: 0 <= k < |shares| ==> shares[k] >= 0
    ensures Sum(shares) >= 0
  {
    if shares != [] { SumNonNegative(shares[1..]); }
  }

  lemma {:induction false} SumOfNothing(shares: seq<int>)
    requires forall i :: 0 <= i < |shares| ==> shares[i] == 0
    ensures Sum(shares) == 0
  {
    if shares != [] { SumOfNothing(shares[1..]); }
  }
}
