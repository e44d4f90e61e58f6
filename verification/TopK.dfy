/**
 The bounded heap behind ORDER BY ... LIMIT: it keeps exactly the first rows of the stable sort of all offered rows.
 */
module TopK {
  import opened Ordering

  function Parent(i: nat): nat
    requires i > 0
  {
    (i - 1) / 2
  }

  /** No row comes after its parent. */
  predicate Settled<T>(cmp: (T, T) -> int, rows: seq<Ranked<T>>, i: nat)
    requires i < |rows|
  {
    i > 0 ==> !Before(cmp, rows[Parent(i)], rows[i])
  }

  ghost predicate MaxHeap<T>(cmp: (T, T) -> int, rows: seq<Ranked<T>>) {
    forall i :: 0 <= i < |rows| ==> Settled(cmp, rows, i)
  }

  lemma NotBeforeTransitive<T(!new)>(cmp: (T, T) -> int, a: Ranked<T>, b: Ranked<T>, c: Ranked<T>)
    requires TotalPreorder(cmp) && !Before(cmp, a, b) && !Before(cmp, b, c)
    ensures !Before(cmp, a, c)
  {
    var x, y, z := a.value, b.value, c.value;
    assert Opposite(cmp, x, y) && Opposite(cmp, y, x) && Opposite(cmp, y, z) && Opposite(cmp, z, y)
      && Opposite(cmp, x, z) && Opposite(cmp, z, x);
    assert Chains(cmp, z, y, x) && Chains(cmp, y, x, z) && Chains(cmp, x, z, y);
  }

  /** The root of the heap is the last of its rows. */
  lemma {:induction false} RootIsLast<T(!new)>(cmp: (T, T) -> int, rows: seq<Ranked<T>>, i: nat)
    requires TotalPreorder(cmp) && MaxHeap(cmp, rows) && i < |rows|
    ensures !Before(cmp, rows[0], rows[i])
    decreases i
  {
    if i == 0 {
      BeforeTotal(cmp, rows[0], rows[0]);
    } else {
      RootIsLast(cmp, rows, Parent(i));
      assert Settled(cmp, rows, i);
      NotBeforeTransitive(cmp, rows[0], rows[Parent(i)], rows[i]);
    }
  }

  // ----- the two sifts -----------------------------------------------------------------------

  /** A heap except that row `child` may come after its parent. */
  ghost predicate Rising<T>(cmp: (T, T) -> int, rows: seq<Ranked<T>>, child: nat) {
    && child < |rows|
    && (forall i :: 0 <= i < |rows| && i != child ==> Settled(cmp, rows, i))
    && (child > 0 ==> forall i :: 0 < i < |rows| && Parent(i) == child ==> !Before(cmp, rows[Parent(child)], rows[i]))
  }

  function Swap<T>(rows: seq<T>, i: nat, j: nat): (r: seq<T>)
    requires i < |rows| && j < |rows|
    ensures multiset(r) == multiset(rows) && |r| == |rows|
  {
    rows[i := rows[j]][j := rows[i]]
  }

  lemma RiseStep<T(!new)>(cmp: (T, T) -> int, rows: seq<Ranked<T>>, child: nat)
    requires TotalPreorder(cmp) && Rising(cmp, rows, child) && child > 0
             && Before(cmp, rows[Parent(child)], rows[child])
    ensures Rising(cmp, Swap(rows, Parent(child), child), Parent(child))
  {
    var parent := Parent(child);
    var after := Swap(rows, parent, child);
    BeforeTotal(cmp, rows[parent], rows[child]);
    forall i | 0 <= i < |after| && i != parent ensures Settled(cmp, after, i) {
      if i > 0 {
        if Parent(i) == parent && i != child {
          assert Settled(cmp, rows, i);
          NotBeforeTransitive(cmp, rows[child], rows[parent], rows[i]);
        } else if i != child && Parent(i) != child {
          assert Settled(cmp, rows, i);
        }
      }
    }
    if parent > 0 {
      assert Settled(cmp, rows, parent);
      forall i | 0 < i < |after| && Parent(i) == parent ensures !Before(cmp, after[Parent(parent)], after[i]) {
        if i != child {
          assert Settled(cmp, rows, i);
          NotBeforeTransitive(cmp, rows[Parent(parent)], rows[parent], rows[i]);
        }
      }
    }
  }

  /** The loop after an append: the new row rises to its place. */
  method SiftUp<T(!new)>(cmp: (T, T) -> int, start: seq<Ranked<T>>) returns (rows: seq<Ranked<T>>)
    requires TotalPreorder(cmp) && start != [] && MaxHeap(cmp, start[..|start| - 1])
    ensures MaxHeap(cmp, rows) && multiset(rows) == multiset(start)
  {
    rows := start;
    var child: nat := |rows| - 1;
    forall i | 0 <= i < |rows| && i != child ensures Settled(cmp, rows, i) {
      assert Settled(cmp, start[..|start| - 1], i);
    }
    while child > 0
      invariant Rising(cmp, rows, child) && multiset(rows) == multiset(start)
    {
      if !Before(cmp, rows[Parent(child)], rows[child]) { break; }
      RiseStep(cmp, rows, child);
      rows, child := Swap(rows, Parent(child), child), Parent(child);
    }
  }

  /** A heap except that row `parent` may come before its children. */
  ghost predicate Sinking<T>(cmp: (T, T) -> int, rows: seq<Ranked<T>>, parent: nat) {
    && parent < |rows|
    && (forall i :: 0 < i < |rows| && Parent(i) != parent ==> Settled(cmp, rows, i))
    && (parent > 0 ==> forall i :: 0 < i < |rows| && Parent(i) == parent ==>
      !Before(cmp, rows[Parent(parent)], rows[i]))
  }

  /** The child to compare with: the later one of two. */
  function LaterChild<T>(cmp: (T, T) -> int, rows: seq<Ranked<T>>, parent: nat): (child: nat)
    requires 2 * parent + 1 < |rows|
    ensures 0 < child < |rows| && Parent(child) == parent
  {
    var left := 2 * parent + 1;
    if left + 1 < |rows| && Before(cmp, rows[left], rows[left + 1]) then left + 1 else left
  }

  lemma LaterOfBoth<T(!new)>(cmp: (T, T) -> int, rows: seq<Ranked<T>>, parent: nat, i: nat)
    requires TotalPreorder(cmp) && 2 * parent + 1 < |rows| && 0 < i < |rows| && Parent(i) == parent
    ensures !Before(cmp, rows[LaterChild(cmp, rows, parent)], rows[i])
  {
    var child := LaterChild(cmp, rows, parent);
    assert i == 2 * parent + 1 || i == 2 * parent + 2;
    BeforeTotal(cmp, rows[child], rows[i]);
    BeforeTotal(cmp, rows[i], rows[child]);
  }

  lemma SinkStep<T(!new)>(cmp: (T, T) -> int, rows: seq<Ranked<T>>, parent: nat)
    requires TotalPreorder(cmp) && Sinking(cmp, rows, parent) && 2 * parent + 1 < |rows|
    requires Before(cmp, rows[parent], rows[LaterChild(cmp, rows, parent)])
    ensures Sinking(cmp, Swap(rows, parent, LaterChild(cmp, rows, parent)), LaterChild(cmp, rows, parent))
  {
    var child := LaterChild(cmp, rows, parent);
    var after := Swap(rows, parent, child);
    BeforeTotal(cmp, rows[parent], rows[child]);
    forall i | 0 < i < |after| && Parent(i) != child ensures Settled(cmp, after, i) {
      if Parent(i) == parent {
        if i != child { LaterOfBoth(cmp, rows, parent, i); }
      } else {
        assert Settled(cmp, rows, i);
      }
    }
    forall i | 0 < i < |after| && Parent(i) == child ensures !Before(cmp, after[parent], after[i]) {
      assert Settled(cmp, rows, i);
    }
  }

  lemma SinkDone<T(!new)>(cmp: (T, T) -> int, rows: seq<Ranked<T>>, parent: nat)
    requires TotalPreorder(cmp) && Sinking(cmp, rows, parent)
    requires 2 * parent + 1 < |rows| ==> !Before(cmp, rows[parent], rows[LaterChild(cmp, rows, parent)])
    ensures MaxHeap(cmp, rows)
  {
    forall i | 0 <= i < |rows| ensures Settled(cmp, rows, i) {
      if i > 0 && Parent(i) == parent {
        LaterOfBoth(cmp, rows, parent, i);
        NotBeforeTransitive(cmp, rows[parent], rows[LaterChild(cmp, rows, parent)], rows[i]);
      }
    }
  }

  /** The loop after the root was replaced: the new root sinks to its place. */
  method SiftDown<T(!new)>(cmp: (T, T) -> int, start: seq<Ranked<T>>, root: Ranked<T>) returns (rows: seq<Ranked<T>>)
    requires TotalPreorder(cmp) && start != [] && MaxHeap(cmp, start)
    ensures MaxHeap(cmp, rows) && multiset(rows) == multiset(start[0 := root])
  {
    rows := start[0 := root];
    var parent := 0;
    forall i | 0 < i < |rows| && Parent(i) != 0 ensures Settled(cmp, rows, i) { assert Settled(cmp, start, i); }
    while 2 * parent + 1 < |rows|
      invariant Sinking(cmp, rows, parent) && multiset(rows) == multiset(start[0 := root])
      decreases |rows| - parent
    {
      var child := LaterChild(cmp, rows, parent);
      if !Before(cmp, rows[parent], rows[child]) { break; }
      SinkStep(cmp, rows, parent);
      rows, parent := Swap(rows, parent, child), child;
    }
    SinkDone(cmp, rows, parent);
  }

  // ----- what is kept ------------------------------------------------------------------------

  function Least(a: nat, b: nat): nat { if a <= b then a else b }

  /** Inserting one more row changes the first k rows only when it comes before the last of them. */
  ghost predicate PrefixChanges<T>(cmp: (T, T) -> int, x: Ranked<T>, s: seq<Ranked<T>>, all: seq<Ranked<T>>, k: nat)
    requires 0 < k <= |s| && k <= |all|
  {
    if Before(cmp, x, s[k - 1]) then multiset(all[..k]) == multiset(s[..k - 1]) + multiset{x} else all[..k] == s[..k]
  }

  lemma {:induction false} InsertPrefix<T(!new)>(cmp: (T, T) -> int, x: Ranked<T>, s: seq<Ranked<T>>, k: nat)
    requires TotalPreorder(cmp) && StrictlySorted(cmp, s) && 0 < k <= |s|
    ensures PrefixChanges(cmp, x, s, Insert(cmp, x, s), k)
  {
    if Before(cmp, x, s[0]) {
      if k > 1 { BeforeTransitive(cmp, x, s[0], s[k - 1]); }
      assert ([x] + s)[..k] == [x] + s[..k - 1];
    } else {
      var tail := Insert(cmp, x, s[1..]);
      assert Insert(cmp, x, s) == [s[0]] + tail;
      if k == 1 {
        assert ([s[0]] + tail)[..1] == s[..1];
      } else {
        InsertPrefix(cmp, x, s[1..], k - 1);
        PrefixLater(cmp, x, s, tail, k);
      }
    }
  }

  lemma PrefixLater<T>(cmp: (T, T) -> int, x: Ranked<T>, s: seq<Ranked<T>>, tail: seq<Ranked<T>>, k: nat)
    requires 1 < k <= |s| && k <= |tail| + 1 && PrefixChanges(cmp, x, s[1..], tail, k - 1)
    ensures PrefixChanges(cmp, x, s, [s[0]] + tail, k)
  {
    var all := [s[0]] + tail;
    assert all[..k] == [s[0]] + tail[..k - 1];
    if Before(cmp, x, s[k - 1]) {
      assert s[..k - 1] == [s[0]] + s[1..][..k - 2];
    } else {
      assert s[..k] == [s[0]] + s[1..][..k - 1];
    }
  }

  lemma SortedSnoc<T>(cmp: (T, T) -> int, offered: seq<T>, v: T)
    ensures Sorted(cmp, Rank(offered + [v])) == Insert(cmp, Ranked(v, |offered|), Sorted(cmp, Rank(offered)))
  {
    var ranked := Rank(offered + [v]);
    assert ranked[..|offered|] == Rank(offered);
  }

  lemma RankedSortIsStrict<T(!new)>(cmp: (T, T) -> int, offered: seq<T>)
    requires TotalPreorder(cmp)
    ensures StrictlySorted(cmp, Sorted(cmp, Rank(offered)))
  {
    RankDistinct(offered);
    SortedIsStrict(cmp, Rank(offered));
  }

  /** The rows kept after these offers: the first `limit` of their stable sort, in heap order. */
  ghost predicate Keeps<T>(cmp: (T, T) -> int, limit: int, offered: seq<T>, rows: seq<Ranked<T>>) {
    var sorted := Sorted(cmp, Rank(offered));
    var k := if limit <= 0 then 0 else Least(limit, |offered|);
    MaxHeap(cmp, rows) && |rows| == k && multiset(rows) == multiset(sorted[..k])
  }

  lemma KeepsRoot<T(!new)>(cmp: (T, T) -> int, limit: int, offered: seq<T>, rows: seq<Ranked<T>>)
    requires TotalPreorder(cmp) && Keeps(cmp, limit, offered, rows) && rows != []
    ensures rows[0] == Sorted(cmp, Rank(offered))[|rows| - 1]
  {
    var sorted, k := Sorted(cmp, Rank(offered)), |rows|;
    RankedSortIsStrict(cmp, offered);
    assert sorted[k - 1] in multiset(sorted[..k]);
    assert sorted[k - 1] in rows;
    var i :| 0 <= i < k && rows[i] == sorted[k - 1];
    RootIsLast(cmp, rows, i);
    assert rows[0] in multiset(rows);
    assert rows[0] in sorted[..k];
  }

  lemma MoreRoom<T(!new)>(cmp: (T, T) -> int, limit: int, offered: seq<T>, rows: seq<Ranked<T>>, v: T,
                   after: seq<Ranked<T>>)
    requires TotalPreorder(cmp) && Keeps(cmp, limit, offered, rows) && |rows| < limit
    requires MaxHeap(cmp, after) && multiset(after) == multiset(rows + [Ranked(v, |offered|)])
    ensures Keeps(cmp, limit, offered + [v], after)
  {
    SortedSnoc(cmp, offered, v);
    Whole(Sorted(cmp, Rank(offered)));
    Whole(Sorted(cmp, Rank(offered + [v])));
    assert |after| == |multiset(after)| == |rows| + 1;
    assert multiset(after) == multiset(rows) + multiset{Ranked(v, |offered|)};
  }

  lemma Whole<T>(s: seq<T>)
    ensures s[..|s|] == s
  {
  }

  lemma NoChange<T(!new)>(cmp: (T, T) -> int, limit: int, offered: seq<T>, rows: seq<Ranked<T>>, v: T)
    requires TotalPreorder(cmp) && Keeps(cmp, limit, offered, rows) && |rows| == limit > 0
    requires !Before(cmp, Ranked(v, |offered|), rows[0])
    ensures Keeps(cmp, limit, offered + [v], rows)
  {
    KeepsRoot(cmp, limit, offered, rows);
    SortedSnoc(cmp, offered, v);
    OfferedPrefix(cmp, offered, v, limit);
  }

  lemma OfferedPrefix<T(!new)>(cmp: (T, T) -> int, offered: seq<T>, v: T, k: nat)
    requires TotalPreorder(cmp) && 0 < k <= |offered|
    ensures PrefixChanges(cmp, Ranked(v, |offered|), Sorted(cmp, Rank(offered)), Sorted(cmp, Rank(offered + [v])), k)
  {
    RankedSortIsStrict(cmp, offered);
    SortedSnoc(cmp, offered, v);
    InsertPrefix(cmp, Ranked(v, |offered|), Sorted(cmp, Rank(offered)), k);
  }

  lemma RootReplaced<T(!new)>(cmp: (T, T) -> int, limit: int, offered: seq<T>, rows: seq<Ranked<T>>, v: T,
                       after: seq<Ranked<T>>)
    requires TotalPreorder(cmp) && Keeps(cmp, limit, offered, rows) && |rows| == limit > 0
    requires Before(cmp, Ranked(v, |offered|), rows[0])
    requires MaxHeap(cmp, after) && multiset(after) == multiset(rows[0 := Ranked(v, |offered|)])
    ensures Keeps(cmp, limit, offered + [v], after)
  {
    KeepsRoot(cmp, limit, offered, rows);
    OfferedPrefix(cmp, offered, v, limit);
    LastReplaced(rows, Sorted(cmp, Rank(offered)), limit, Ranked(v, |offered|));
    assert |after| == |multiset(after)| == |rows|;
  }

  lemma LastReplaced<T>(rows: seq<Ranked<T>>, s: seq<Ranked<T>>, k: nat, x: Ranked<T>)
    requires 0 < k <= |s| && |rows| == k && multiset(rows) == multiset(s[..k]) && rows[0] == s[k - 1]
    ensures multiset(rows[0 := x]) == multiset(s[..k - 1]) + multiset{x}
  {
    assert s[..k] == s[..k - 1] + [s[k - 1]];
    assert multiset(rows[0 := x]) == multiset(rows) - multiset{rows[0]} + multiset{x};
  }

  /** boundedRows. */
  class BoundedRows<T(!new)> {
    const compare: (T, T) -> int
    const limit: int
    var rows: seq<Ranked<T>>
    var next: nat
    ghost var offered: seq<T>

    constructor (order: (T, T) -> int, most: int)
      requires TotalPreorder(order)
      ensures Valid() && offered == [] && compare == order && limit == most
    {
      compare, limit, rows, next, offered := order, most, [], 0, [];
    }

    ghost predicate Valid()
      reads this
    {
      TotalPreorder(compare) && next == |offered| && Keeps(compare, limit, offered, rows)
    }

    method Offer(value: T)
      requires Valid()
      modifies this
      ensures Valid() && offered == old(offered) + [value]
    {
      var candidate := Ranked(value, next);
      next, offered := next + 1, offered + [value];
      if limit <= 0 { return; }
      if |rows| < limit {
        assert (rows + [candidate])[..|rows|] == rows;
        rows := SiftUp(compare, rows + [candidate]);
        MoreRoom(compare, limit, old(offered), old(rows), value, rows);
      } else if Before(compare, candidate, rows[0]) {
        rows := SiftDown(compare, rows, candidate);
        RootReplaced(compare, limit, old(offered), old(rows), value, rows);
      } else {
        NoChange(compare, limit, old(offered), rows, value);
      }
    }

    /** sorted: the rows ORDER BY ... LIMIT would keep of a full stable sort, in its order. */
    method Result() returns (result: seq<T>)
      requires Valid()
      ensures result == StableSort(compare, offered)[..if limit <= 0 then 0 else Least(limit, |offered|)]
    {
      var kept := Sorted(compare, rows);
      result := Values(kept);
      KeptSorted(compare, limit, offered, rows);
    }
  }

  lemma KeptSorted<T(!new)>(cmp: (T, T) -> int, limit: int, offered: seq<T>, rows: seq<Ranked<T>>)
    requires TotalPreorder(cmp) && Keeps(cmp, limit, offered, rows)
    ensures Sorted(cmp, rows) == Sorted(cmp, Rank(offered))[..|rows|]
  {
    var sorted, k := Sorted(cmp, Rank(offered)), |rows|;
    RankedSortIsStrict(cmp, offered);
    RankDistinct(offered);
    DistinctPart(Rank(offered), sorted, rows, k);
    SortedFromPermutation(cmp, rows, sorted[..k]);
  }

  /** Rows that are a permutation of part of the ranked rows have different ordinals. */
  lemma DistinctPart<T>(ranked: seq<Ranked<T>>, sorted: seq<Ranked<T>>, rows: seq<Ranked<T>>, k: nat)
    requires DistinctOrdinals(ranked) && multiset(sorted) == multiset(ranked) && k <= |sorted|
    requires multiset(rows) == multiset(sorted[..k])
    ensures DistinctOrdinals(rows)
  {
    assert sorted == sorted[..k] + sorted[k..];
    forall i, j | 0 <= i < j < |rows| ensures rows[i].ordinal != rows[j].ordinal {
      TwoOfThem(rows, i, j);
      assert multiset{rows[i], rows[j]} <= multiset(ranked);
      TwoPlaces(ranked, rows[i], rows[j]);
    }
  }

  lemma TwoOfThem<T>(rows: seq<T>, i: nat, j: nat)
    requires i < j < |rows|
    ensures multiset{rows[i], rows[j]} <= multiset(rows)
  {
    assert rows == rows[..i] + [rows[i]] + rows[i + 1..j] + [rows[j]] + rows[j + 1..];
  }

  lemma {:induction false} TwoPlaces<T>(ranked: seq<Ranked<T>>, a: Ranked<T>, b: Ranked<T>)
    requires DistinctOrdinals(ranked) && multiset{a, b} <= multiset(ranked)
    ensures a.ordinal != b.ordinal
  {
    var head, tail := ranked[0], ranked[1..];
    assert ranked == [head] + tail;
    assert multiset{a, b}[a] >= 1 && multiset{a, b}[b] >= 1;
    if head != a && head != b {
      forall x ensures multiset{a, b}[x] <= multiset(tail)[x] { assert multiset{a, b}[x] <= multiset(ranked)[x]; }
      TwoPlaces(tail, a, b);
    } else {
      var other := if head == a then b else a;
      assert other in multiset(tail);
      var k :| 0 <= k < |tail| && tail[k] == other;
      assert ranked[k + 1] == other;
    }
  }
}
