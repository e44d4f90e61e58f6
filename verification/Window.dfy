/**
 Window functions over partitions: ROW_NUMBER, RANK, DENSE_RANK and ordered COUNT and SUM, proved against counts
 and sums over the rows themselves.
 */
module Window {
  import opened Wrappers
  import opened Bytes
  import opened Ordering

  // ----- sums over rows and over lists of rows -----------------------------------------------

  /** The sum of a weight over rows 0 to n - 1. */
  function Tally(n: nat, weight: nat -> int): int { if n == 0 then 0 else Tally(n - 1, weight) + weight(n - 1) }

  function ListSum(order: seq<nat>, weight: nat -> int): int {
    if order == [] then 0 else ListSum(order[..|order| - 1], weight) + weight(order[|order| - 1])
  }

  predicate Distinct(order: seq<nat>) { forall i, j :: 0 <= i < j < |order| ==> order[i] != order[j] }

  function Without(weight: nat -> int, x: nat): nat -> int { (q: nat) => if q == x then 0 else weight(q) }

  lemma {:induction false} TallyWithout(n: nat, weight: nat -> int, x: nat)
    ensures Tally(n, weight) == Tally(n, Without(weight, x)) + if x < n then weight(x) else 0
  {
    if n > 0 { TallyWithout(n - 1, weight, x); }
  }

  lemma {:induction false} TallyZero(n: nat, weight: nat -> int)
    requires forall q :: 0 <= q < n ==> weight(q) == 0
    ensures Tally(n, weight) == 0
  {
    if n > 0 { TallyZero(n - 1, weight); }
  }

  lemma {:induction false} ListSame(order: seq<nat>, f: nat -> int, g: nat -> int)
    requires forall i :: 0 <= i < |order| ==> f(order[i]) == g(order[i])
    ensures ListSum(order, f) == ListSum(order, g)
  {
    if order != [] { ListSame(order[..|order| - 1], f, g); }
  }

  /** A sum over rows is the sum over any list of the rows that carry weight. */
  lemma {:induction false} SumInAnyOrder(n: nat, order: seq<nat>, weight: nat -> int)
    requires Distinct(order) && forall i :: 0 <= i < |order| ==> order[i] < n
    requires forall q :: 0 <= q < n && q !in order ==> weight(q) == 0
    ensures Tally(n, weight) == ListSum(order, weight)
  {
    if order == [] {
      TallyZero(n, weight);
    } else {
      var init, x := order[..|order| - 1], order[|order| - 1];
      var rest := Without(weight, x);
      TallyWithout(n, weight, x);
      assert order == init + [x];
      SumInAnyOrder(n, init, rest);
      ListSame(init, rest, weight);
    }
  }

  lemma {:induction false} SumStops(order: seq<nat>, weight: nat -> int, m: nat)
    requires m <= |order| && forall i :: m <= i < |order| ==> weight(order[i]) == 0
    ensures ListSum(order, weight) == ListSum(order[..m], weight)
  {
    if m < |order| {
      SumStops(order[..|order| - 1], weight, m);
      assert order[..|order| - 1][..m] == order[..m];
    } else {
      assert order[..m] == order;
    }
  }

  lemma {:induction false} SumOfOnes(order: seq<nat>, weight: nat -> int)
    requires forall i :: 0 <= i < |order| ==> weight(order[i]) == 1
    ensures ListSum(order, weight) == |order|
  {
    if order != [] { SumOfOnes(order[..|order| - 1], weight); }
  }

  // ----- SUM with 64-bit integers ------------------------------------------------------------

  /** aggregateState for integers: an int64 sum until it would overflow, an exact decimal from then on. */
  datatype Aggregate = Aggregate(count: nat, has: bool, integerSum: int, decimal: Option<int>)

  const EMPTY := Aggregate(0, false, 0, None)

  function Update(s: Aggregate, candidate: Option<int>): Aggregate {
    if candidate.None? then s else
      var n := candidate.value;
      var overflows := (n > 0 && s.integerSum > MAX_INT64 - n) || (n < 0 && s.integerSum < MIN_INT64 - n);
      if s.decimal.None? && !overflows then Aggregate(s.count + 1, true, s.integerSum + n, None)
      else
        var before := if s.decimal.None? then (if s.has then s.integerSum else 0) else s.decimal.value;
        Aggregate(s.count + 1, true, s.integerSum, Some(before + n))
  }

  datatype Output = Null | Number(n: int)

  datatype Overflow = OutOfRange

  /** finishAggregate for SUM with a BIGINT result. */
  function FinishSum(s: Aggregate): Result<Output, Overflow> {
    if !s.has then Ok(Null)
    else if s.decimal.None? then Ok(Number(s.integerSum))
    else if IsInt64(s.decimal.value) then Ok(Number(s.decimal.value))
    else Err(OutOfRange)
  }

  /** The state holds the exact sum of the numbers so far, wherever it is kept. */
  predicate Exact(s: Aggregate, count: nat, sum: int) {
    && s.count == count && s.has == (count > 0) && IsInt64(s.integerSum)
    && (if s.decimal.None? then s.integerSum == sum else s.decimal.value == sum && s.has)
    && (count == 0 ==> s.integerSum == 0 && s.decimal.None?)
  }

  /** An intermediate overflow neither loses nor rounds anything. */
  lemma UpdateExact(s: Aggregate, candidate: Option<int>, count: nat, sum: int)
    requires Exact(s, count, sum) && (candidate.Some? ==> IsInt64(candidate.value))
    ensures Exact(Update(s, candidate), count + (if candidate.Some? then 1 else 0), sum + if candidate.Some?
            then candidate.value else 0)
  {
  }

  /** SUM is NULL without numbers, the exact sum when it fits in 64 bits, and an error otherwise. */
  function SumOutput(count: int, sum: int): Result<Output, Overflow> {
    if count == 0 then Ok(Null) else if IsInt64(sum) then Ok(Number(sum)) else Err(OutOfRange)
  }

  lemma FinishExact(s: Aggregate, count: nat, sum: int)
    requires Exact(s, count, sum)
    ensures FinishSum(s) == SumOutput(count, sum)
  {
  }

  // ----- what each function means for a row --------------------------------------------------

  /** The rows a window function is computed over: their partition, their order key and the aggregate's argument. */
  datatype Input<P, K> = Input(parts: seq<P>, keys: seq<K>, args: seq<Option<int>>)

  predicate Aligned<P, K>(rows: Input<P, K>) { |rows.parts| == |rows.keys| == |rows.args| }

  predicate Together<P(==), K>(rows: Input<P, K>, q: nat, r: nat)
    requires Aligned(rows) && r < |rows.keys|
  {
    q < |rows.keys| && rows.parts[q] == rows.parts[r]
  }

  function Order<P, K>(rows: Input<P, K>, cmp: (K, K) -> int, q: nat, r: nat): int
    requires Aligned(rows) && q < |rows.keys| && r < |rows.keys|
  {
    cmp(rows.keys[q], rows.keys[r])
  }

  function Indicator(b: bool): int { if b then 1 else 0 }

  /** 1 for the rows that come before r: smaller keys, and earlier rows among equal keys. */
  function Earlier<P(==), K>(rows: Input<P, K>, cmp: (K, K) -> int, r: nat): nat -> int
    requires Aligned(rows) && r < |rows.keys|
  {
    (q: nat) => Indicator(Together(rows, q, r)
      && (Order(rows, cmp, q, r) < 0 || (Order(rows, cmp, q, r) == 0 && q < r)))
  }

  function Smaller<P(==), K>(rows: Input<P, K>, cmp: (K, K) -> int, r: nat): nat -> int
    requires Aligned(rows) && r < |rows.keys|
  {
    (q: nat) => Indicator(Together(rows, q, r) && Order(rows, cmp, q, r) < 0)
  }

  /** The first row of its peers. */
  predicate FirstPeer<P(==), K>(rows: Input<P, K>, cmp: (K, K) -> int, q: nat)
    requires Aligned(rows) && q < |rows.keys|
  {
    forall p :: 0 <= p < q && Together(rows, p, q) ==> Order(rows, cmp, p, q) != 0
  }

  function SmallerKey<P(==), K>(rows: Input<P, K>, cmp: (K, K) -> int, r: nat): nat -> int
    requires Aligned(rows) && r < |rows.keys|
  {
    (q: nat) => Indicator(Together(rows, q, r) && Order(rows, cmp, q, r) < 0 && FirstPeer(rows, cmp, q))
  }

  /** The default frame: the rows of the partition up to and including the peers of r. */
  predicate InFrame<P(==), K>(rows: Input<P, K>, cmp: (K, K) -> int, q: nat, r: nat)
    requires Aligned(rows) && r < |rows.keys|
  {
    Together(rows, q, r) && Order(rows, cmp, q, r) <= 0
  }

  /** What is counted and framed, in terms of partitions and keys. */
  lemma CountedRows<P, K>(rows: Input<P, K>, cmp: (K, K) -> int, q: nat, r: nat)
    requires Aligned(rows) && q < |rows.keys| && r < |rows.keys|
    ensures var same, order := rows.parts[q] == rows.parts[r], cmp(rows.keys[q], rows.keys[r]);
            && Earlier(rows, cmp, r)(q) == (if same && (order < 0 || (order == 0 && q < r)) then 1 else 0)
            && Smaller(rows, cmp, r)(q) == (if same && order < 0 then 1 else 0)
            && SmallerKey(rows, cmp, r)(q) == (if same && order < 0 && FirstPeer(rows, cmp, q) then 1 else 0)
            && (InFrame(rows, cmp, q, r) <==> same && order <= 0)
    ensures FirstPeer(rows, cmp, q) <==>
            forall p :: 0 <= p < q && rows.parts[p] == rows.parts[q] ==> cmp(rows.keys[p], rows.keys[q]) != 0
  {
    forall p | 0 <= p < q
      ensures Together(rows, p, q) <==> rows.parts[p] == rows.parts[q]
      ensures Order(rows, cmp, p, q) == cmp(rows.keys[p], rows.keys[q]) {}
  }

  function Framed<P(==), K>(rows: Input<P, K>, cmp: (K, K) -> int, weight: nat -> int, r: nat): nat -> int
    requires Aligned(rows) && r < |rows.keys|
  {
    (q: nat) => if InFrame(rows, cmp, q, r) then weight(q) else 0
  }

  function CountWeight<P, K>(rows: Input<P, K>, star: bool): nat -> int {
    (q: nat) => Indicator(star || (q < |rows.args| && rows.args[q].Some?))
  }

  function SumWeight<P, K>(rows: Input<P, K>): nat -> int {
    (q: nat) => if q < |rows.args| && rows.args[q].Some? then rows.args[q].value else 0
  }

  datatype Kind = RowNumber | RankOf | DenseRank | Count(star: bool) | Sum

  function RankOutput<P(==), K>(dense: bool, rows: Input<P, K>, cmp: (K, K) -> int, r: nat): Output
    requires Aligned(rows) && r < |rows.keys|
  {
    Number(1 + if dense then Tally(|rows.keys|, SmallerKey(rows, cmp, r))
      else Tally(|rows.keys|, Smaller(rows, cmp, r)))
  }

  /** COUNT and SUM over a frame. */
  function FrameOutput<P(==), K>(kind: Kind, rows: Input<P, K>, cmp: (K, K) -> int, r: nat): Result<Output, Overflow>
    requires Aligned(rows) && r < |rows.keys| && (kind.Count? || kind.Sum?)
  {
    var n := |rows.keys|;
    if kind.Count? then Ok(Number(Tally(n, Framed(rows, cmp, CountWeight(rows, kind.star), r))))
    else SumOutput(Tally(n, Framed(rows, cmp, CountWeight(rows, false), r)),
      Tally(n, Framed(rows, cmp, SumWeight(rows), r)))
  }

  /** The value SQL defines for row r. */
  function Meaning<P(==), K>(kind: Kind, rows: Input<P, K>, cmp: (K, K) -> int, r: nat): Result<Output, Overflow>
    requires Aligned(rows) && r < |rows.keys|
  {
    var n := |rows.keys|;
    match kind
    case RowNumber => Ok(Number(1 + Tally(n, Earlier(rows, cmp, r))))
    case RankOf => Ok(RankOutput(false, rows, cmp, r))
    case DenseRank => Ok(RankOutput(true, rows, cmp, r))
    case _ => FrameOutput(kind, rows, cmp, r)
  }

  // ----- a sorted partition ------------------------------------------------------------------

  predicate InOrder<P, K>(rows: Input<P, K>, cmp: (K, K) -> int, q: nat, r: nat)
    requires Aligned(rows) && q < |rows.keys| && r < |rows.keys|
  {
    Order(rows, cmp, q, r) < 0 || (Order(rows, cmp, q, r) == 0 && q < r)
  }

  /** `order` lists the rows of one partition by key, equal keys by row. */
  ghost predicate Sorts<P, K>(rows: Input<P, K>, cmp: (K, K) -> int, p: P, order: seq<nat>) {
    && Aligned(rows)
    && (forall i :: 0 <= i < |order| ==> order[i] < |rows.keys| && rows.parts[order[i]] == p)
    && (forall q :: 0 <= q < |rows.keys| && rows.parts[q] == p ==> q in order)
    && (forall i, j {:trigger InOrder(rows, cmp, order[i], order[j])} :: 0 <= i < j < |order| ==>
      InOrder(rows, cmp, order[i], order[j]))
  }

  lemma SortsDistinct<P, K(!new)>(rows: Input<P, K>, cmp: (K, K) -> int, p: P, order: seq<nat>)
    requires TotalPreorder(cmp) && Sorts(rows, cmp, p, order)
    ensures Distinct(order)
  {
    forall i, j | 0 <= i < j < |order| ensures order[i] != order[j] {
      assert InOrder(rows, cmp, order[i], order[j]);
      assert Opposite(cmp, rows.keys[order[i]], rows.keys[order[j]]);
    }
  }

  /** Comparing by position is comparing by key. */
  lemma ByPosition<P, K(!new)>(rows: Input<P, K>, cmp: (K, K) -> int, p: P, order: seq<nat>, i: nat, j: nat)
    requires TotalPreorder(cmp) && Sorts(rows, cmp, p, order) && i < |order| && j < |order|
    ensures i < j ==> Order(rows, cmp, order[i], order[j]) <= 0
    ensures i >= j ==> Order(rows, cmp, order[i], order[j]) >= 0
    ensures i == j ==> Order(rows, cmp, order[i], order[j]) == 0
    ensures Order(rows, cmp, order[i], order[j]) == 0 ==> (i < j <==> order[i] < order[j])
  {
    var a, b := rows.keys[order[i]], rows.keys[order[j]];
    assert Opposite(cmp, a, b) && Opposite(cmp, b, a);
    if i < j { assert InOrder(rows, cmp, order[i], order[j]); }
    if j < i { assert InOrder(rows, cmp, order[j], order[i]); }
  }

  /** The rank of a row is decided by the position of its first peer. */
  predicate IsStart<P, K>(rows: Input<P, K>, cmp: (K, K) -> int, order: seq<nat>, i: nat)
    requires Aligned(rows) && i < |order| && forall k :: 0 <= k < |order| ==> order[k] < |rows.keys|
  {
    i == 0 || Order(rows, cmp, order[i - 1], order[i]) != 0
  }

  function Start<P, K>(rows: Input<P, K>, cmp: (K, K) -> int, order: seq<nat>, i: nat): (s: nat)
    requires Aligned(rows) && i < |order| && forall k :: 0 <= k < |order| ==> order[k] < |rows.keys|
    ensures s <= i
  {
    if IsStart(rows, cmp, order, i) then i else Start(rows, cmp, order, i - 1)
  }

  function Starts<P, K>(rows: Input<P, K>, cmp: (K, K) -> int, order: seq<nat>, i: nat): nat
    requires Aligned(rows) && i <= |order| && forall k :: 0 <= k < |order| ==> order[k] < |rows.keys|
  {
    if i == 0 then 0 else Starts(rows, cmp, order, i - 1) + Indicator(IsStart(rows, cmp, order, i - 1))
  }

  lemma {:induction false} StartMeaning<P,
    K(!new)>(rows: Input<P, K>, cmp: (K, K) -> int, p: P, order: seq<nat>, i: nat, j: nat)
    requires TotalPreorder(cmp) && Sorts(rows, cmp, p, order) && i < |order| && j <= i
    ensures j < Start(rows, cmp, order, i) ==> Order(rows, cmp, order[j], order[i]) < 0
    ensures j >= Start(rows, cmp, order, i) ==> Order(rows, cmp, order[j], order[i]) == 0
    decreases i
  {
    if j == i {
      ByPosition(rows, cmp, p, order, i, i);
    } else {
      ByPosition(rows, cmp, p, order, j, i);
      ByPosition(rows, cmp, p, order, i - 1, i);
      ByPosition(rows, cmp, p, order, j, i - 1);
      var a, b, c := rows.keys[order[j]], rows.keys[order[i - 1]], rows.keys[order[i]];
      assert Chains(cmp, b, c, a) && Chains(cmp, c, a, b) && Chains(cmp, a, b, c) && Chains(cmp, c, b, a);
      assert Opposite(cmp, a, b) && Opposite(cmp, b, a) && Opposite(cmp, b, c) && Opposite(cmp, c, b)
        && Opposite(cmp, a, c) && Opposite(cmp, c, a);
      if !IsStart(rows, cmp, order, i) { StartMeaning(rows, cmp, p, order, i - 1, j); }
    }
  }

  lemma OverPartition<P, K(!new)>(rows: Input<P, K>, cmp: (K, K) -> int, p: P, order: seq<nat>, weight: nat -> int)
    requires TotalPreorder(cmp) && Sorts(rows, cmp, p, order)
    requires forall q :: 0 <= q < |rows.keys| && rows.parts[q] != p ==> weight(q) == 0
    ensures Tally(|rows.keys|, weight) == ListSum(order, weight)
  {
    SortsDistinct(rows, cmp, p, order);
    SumInAnyOrder(|rows.keys|, order, weight);
  }

  /** Weight one up to a position and zero from there on. */
  lemma CountTo<P, K(!new)>(rows: Input<P, K>, cmp: (K, K) -> int, p: P, order: seq<nat>, weight: nat -> int, m: nat)
    requires TotalPreorder(cmp) && Sorts(rows, cmp, p, order) && m <= |order|
    requires forall q :: 0 <= q < |rows.keys| && rows.parts[q] != p ==> weight(q) == 0
    requires forall j :: 0 <= j < |order| ==> weight(order[j]) == Indicator(j < m)
    ensures Tally(|rows.keys|, weight) == m
  {
    OverPartition(rows, cmp, p, order, weight);
    SumStops(order, weight, m);
    SumOfOnes(order[..m], weight);
  }

  lemma RowNumberAt<P, K(!new)>(rows: Input<P, K>, cmp: (K, K) -> int, p: P, order: seq<nat>, i: nat)
    requires TotalPreorder(cmp) && Sorts(rows, cmp, p, order) && i < |order|
    ensures Tally(|rows.keys|, Earlier(rows, cmp, order[i])) == i
  {
    var weight := Earlier(rows, cmp, order[i]);
    forall j | 0 <= j < |order| ensures weight(order[j]) == Indicator(j < i) {
      ByPosition(rows, cmp, p, order, j, i);
      if j < i { assert InOrder(rows, cmp, order[j], order[i]); }
    }
    CountTo(rows, cmp, p, order, weight, i);
  }

  lemma SmallerAt<P, K(!new)>(rows: Input<P, K>, cmp: (K, K) -> int, p: P, order: seq<nat>, i: nat, j: nat)
    requires TotalPreorder(cmp) && Sorts(rows, cmp, p, order) && i < |order| && j < |order|
    ensures Order(rows, cmp, order[j], order[i]) < 0 <==> j < Start(rows, cmp, order, i)
  {
    ByPosition(rows, cmp, p, order, j, i);
    if j <= i { StartMeaning(rows, cmp, p, order, i, j); }
  }

  lemma RankAt<P, K(!new)>(rows: Input<P, K>, cmp: (K, K) -> int, p: P, order: seq<nat>, i: nat)
    requires TotalPreorder(cmp) && Sorts(rows, cmp, p, order) && i < |order|
    ensures Tally(|rows.keys|, Smaller(rows, cmp, order[i])) == Start(rows, cmp, order, i)
  {
    var weight, m := Smaller(rows, cmp, order[i]), Start(rows, cmp, order, i);
    forall j | 0 <= j < |order| ensures weight(order[j]) == Indicator(j < m) { SmallerAt(rows, cmp, p, order, i, j); }
    CountTo(rows, cmp, p, order, weight, m);
  }

  lemma FirstPeerIsStart<P, K(!new)>(rows: Input<P, K>, cmp: (K, K) -> int, p: P, order: seq<nat>, j: nat)
    requires TotalPreorder(cmp) && Sorts(rows, cmp, p, order) && j < |order|
    ensures FirstPeer(rows, cmp, order[j]) <==> IsStart(rows, cmp, order, j)
  {
    if IsStart(rows, cmp, order, j) {
      forall q | 0 <= q < order[j] && Together(rows, q, order[j]) ensures Order(rows, cmp, q, order[j]) != 0 {
        var k :| 0 <= k < |order| && order[k] == q;
        ByPosition(rows, cmp, p, order, k, j);
        if k < j { StartMeaning(rows, cmp, p, order, j, k); }
      }
    } else {
      ByPosition(rows, cmp, p, order, j - 1, j);
      assert Together(rows, order[j - 1], order[j]);
    }
  }

  lemma {:induction false} CountStarts<P,
    K>(rows: Input<P, K>, cmp: (K, K) -> int, order: seq<nat>, weight: nat -> int, m: nat)
    requires Aligned(rows) && m <= |order| && forall k :: 0 <= k < |order| ==> order[k] < |rows.keys|
    requires forall j :: 0 <= j < m ==> weight(order[j]) == Indicator(IsStart(rows, cmp, order, j))
    ensures ListSum(order[..m], weight) == Starts(rows, cmp, order, m)
  {
    if m > 0 {
      CountStarts(rows, cmp, order, weight, m - 1);
      assert order[..m][..m - 1] == order[..m - 1];
    }
  }

  lemma {:induction false} StartsUpTo<P, K>(rows: Input<P, K>, cmp: (K, K) -> int, order: seq<nat>, i: nat, m: nat)
    requires Aligned(rows) && i < |order| && forall k :: 0 <= k < |order| ==> order[k] < |rows.keys|
    requires m == Start(rows, cmp, order, i)
    ensures Starts(rows, cmp, order, i + 1) == Starts(rows, cmp, order, m) + 1
  {
    if !IsStart(rows, cmp, order, i) { StartsUpTo(rows, cmp, order, i - 1, m); }
  }

  lemma DenseRankAt<P, K(!new)>(rows: Input<P, K>, cmp: (K, K) -> int, p: P, order: seq<nat>, i: nat)
    requires TotalPreorder(cmp) && Sorts(rows, cmp, p, order) && i < |order|
    ensures 1 + Tally(|rows.keys|, SmallerKey(rows, cmp, order[i])) == Starts(rows, cmp, order, i + 1)
  {
    var m := Start(rows, cmp, order, i);
    DenseTally(rows, cmp, p, order, i, m);
    StartsUpTo(rows, cmp, order, i, m);
  }

  lemma DenseTally<P, K(!new)>(rows: Input<P, K>, cmp: (K, K) -> int, p: P, order: seq<nat>, i: nat, m: nat)
    requires TotalPreorder(cmp) && Sorts(rows, cmp, p, order) && i < |order| && m == Start(rows, cmp, order, i)
    ensures Tally(|rows.keys|, SmallerKey(rows, cmp, order[i])) == Starts(rows, cmp, order, m)
  {
    var weight := SmallerKey(rows, cmp, order[i]);
    forall j | 0 <= j < |order|
      ensures weight(order[j]) == if j < m then Indicator(IsStart(rows, cmp, order, j)) else 0
    {
      SmallerAt(rows, cmp, p, order, i, j);
      FirstPeerIsStart(rows, cmp, p, order, j);
    }
    OverPartition(rows, cmp, p, order, weight);
    SumStops(order, weight, m);
    CountStarts(rows, cmp, order, weight, m);
  }

  /** Positions [start, end) hold one group of peers, and later positions hold larger keys. */
  ghost predicate IsGroup<P, K>(rows: Input<P, K>, cmp: (K, K) -> int, order: seq<nat>, start: nat, end: nat)
    requires Aligned(rows) && forall k :: 0 <= k < |order| ==> order[k] < |rows.keys|
  {
    && start < end <= |order|
    && (forall j :: start <= j < end ==> Order(rows, cmp, order[start], order[j]) == 0)
    && (end < |order| ==> Order(rows, cmp, order[start], order[end]) != 0)
  }

  lemma FrameEnds<P, K(!new)>(rows: Input<P, K>, cmp: (K, K) -> int, p: P, order: seq<nat>, start: nat, end: nat,
                       i: nat, j: nat)
    requires TotalPreorder(cmp) && Sorts(rows, cmp, p, order) && IsGroup(rows, cmp, order, start, end)
    requires start <= i < end && j < |order|
    ensures Order(rows, cmp, order[j], order[i]) <= 0 <==> j < end
  {
    var s, x, y := rows.keys[order[start]], rows.keys[order[i]], rows.keys[order[j]];
    assert Opposite(cmp, s, x) && Opposite(cmp, x, s) && Opposite(cmp, x, y) && Opposite(cmp, y, x)
      && Opposite(cmp, s, y) && Opposite(cmp, y, s);
    ByPosition(rows, cmp, p, order, j, i);
    if j < end {
      if j >= i { assert Chains(cmp, y, s, x); }
    } else {
      var e := rows.keys[order[end]];
      ByPosition(rows, cmp, p, order, start, end);
      ByPosition(rows, cmp, p, order, end, j);
      ByPosition(rows, cmp, p, order, j, end);
      assert Opposite(cmp, s, e) && Opposite(cmp, e, s) && Opposite(cmp, e, y) && Opposite(cmp, y, e);
      assert Chains(cmp, e, y, x) && Chains(cmp, e, x, s);
    }
  }

  /** The frame of any row of a group is everything up to the end of the group. */
  lemma FrameAt<P, K(!new)>(rows: Input<P, K>, cmp: (K, K) -> int, p: P, order: seq<nat>, start: nat, end: nat, i: nat,
                     weight: nat -> int)
    requires TotalPreorder(cmp) && Sorts(rows, cmp, p, order) && IsGroup(rows, cmp, order, start, end)
             && start <= i < end
    ensures Tally(|rows.keys|, Framed(rows, cmp, weight, order[i])) == ListSum(order[..end], weight)
  {
    var framed := Framed(rows, cmp, weight, order[i]);
    forall j | 0 <= j < |order| ensures framed(order[j]) == if j < end then weight(order[j]) else 0 {
      FrameEnds(rows, cmp, p, order, start, end, i, j);
    }
    forall q | 0 <= q < |rows.keys| && rows.parts[q] != p ensures framed(q) == 0 {
      assert rows.parts[order[i]] == p && !InFrame(rows, cmp, q, order[i]);
    }
    OverPartition(rows, cmp, p, order, framed);
    SumStops(order, framed, end);
    ListSame(order[..end], framed, weight);
  }

  // ----- filling the output column -----------------------------------------------------------

  /** Rows outside the partition are not touched. */
  twostate predicate OthersKept(order: seq<nat>, output: array<Output>)
    reads output
  {
    forall q :: 0 <= q < output.Length && q !in order ==> output[q] == old(output[q])
  }

  method FillNumbers<P,
    K(!new)>(rows: Input<P, K>, cmp: (K, K) -> int, ghost p: P, order: seq<nat>, output: array<Output>)
    requires TotalPreorder(cmp) && Sorts(rows, cmp, p, order) && output.Length == |rows.keys|
    modifies output
    ensures OthersKept(order, output)
    ensures forall i :: 0 <= i < |order| ==>
            output[order[i]] == Number(1 + Tally(|rows.keys|, Earlier(rows, cmp, order[i])))
  {
    SortsDistinct(rows, cmp, p, order);
    for i := 0 to |order|
      invariant OthersKept(order, output)
      invariant forall j :: 0 <= j < i ==> output[order[j]] == Number(j + 1)
    {
      output[order[i]] := Number(i + 1);
    }
    forall i | 0 <= i < |order|
      ensures output[order[i]] == Number(1 + Tally(|rows.keys|, Earlier(rows, cmp, order[i]))) {
      RowNumberAt(rows, cmp, p, order, i);
    }
  }

  function PositionRank<P, K>(dense: bool, rows: Input<P, K>, cmp: (K, K) -> int, order: seq<nat>, i: nat): Output
    requires Aligned(rows) && i < |order| && forall k :: 0 <= k < |order| ==> order[k] < |rows.keys|
  {
    Number(if dense then Starts(rows, cmp, order, i + 1) else Start(rows, cmp, order, i) + 1)
  }

  lemma PositionRankMeaning<P,
    K(!new)>(dense: bool, rows: Input<P, K>, cmp: (K, K) -> int, p: P, order: seq<nat>, i: nat)
    requires TotalPreorder(cmp) && Sorts(rows, cmp, p, order) && i < |order|
    ensures PositionRank(dense, rows, cmp, order, i) == RankOutput(dense, rows, cmp, order[i])
  {
    if dense {
      DenseRankAt(rows, cmp, p, order, i);
    } else {
      RankAt(rows, cmp, p, order, i);
    }
  }

  /** The two counters before position i: 1 and 1 at the start, those of the previous row afterwards. */
  ghost predicate Counters<P, K>(rows: Input<P, K>, cmp: (K, K) -> int, order: seq<nat>, i: nat, rank: int, dense: int)
    requires Aligned(rows) && i <= |order| && forall k :: 0 <= k < |order| ==> order[k] < |rows.keys|
  {
    if i == 0 then rank == 1 && dense == 1
    else rank == Start(rows, cmp, order, i - 1) + 1 && dense == Starts(rows, cmp, order, i)
  }

  method NextRank<P(==),
    K(!new)>(dense: bool, rows: Input<P, K>, cmp: (K, K) -> int, ghost p: P, order: seq<nat>, i: nat, rank: int,
      denseRank: int)
    returns (rank': int, denseRank': int, value: Output)
    requires TotalPreorder(cmp) && Sorts(rows, cmp, p, order) && i < |order|
             && Counters(rows, cmp, order, i, rank, denseRank)
    ensures Counters(rows, cmp, order, i + 1, rank', denseRank')
    ensures value == RankOutput(dense, rows, cmp, order[i])
  {
    rank', denseRank' := rank, denseRank;
    if i > 0 && Order(rows, cmp, order[i - 1], order[i]) != 0 {
      rank', denseRank' := i + 1, denseRank + 1;
    }
    value := Number(if dense then denseRank' else rank');
    PositionRankMeaning(dense, rows, cmp, p, order, i);
  }

  method FillRanks<P(==), K(!new)>(dense: bool, rows: Input<P, K>, cmp: (K, K) -> int, ghost p: P, order: seq<nat>,
                     output: array<Output>)
    requires TotalPreorder(cmp) && Sorts(rows, cmp, p, order) && output.Length == |rows.keys|
    modifies output
    ensures OthersKept(order, output)
    ensures forall i :: 0 <= i < |order| ==> output[order[i]] == RankOutput(dense, rows, cmp, order[i])
  {
    SortsDistinct(rows, cmp, p, order);
    var rank, denseRank := 1, 1;
    for i := 0 to |order|
      invariant OthersKept(order, output) && Counters(rows, cmp, order, i, rank, denseRank)
      invariant forall j :: 0 <= j < i ==> output[order[j]] == RankOutput(dense, rows, cmp, order[j])
    {
      var value;
      rank, denseRank, value := NextRank(dense, rows, cmp, p, order, i, rank, denseRank);
      output[order[i]] := value;
    }
  }

  /** The positions of the group that starts at `start`. */
  method GroupEnd<P, K(!new)>(rows: Input<P, K>, cmp: (K, K) -> int, ghost p: P, order: seq<nat>, start: nat)
    returns (end: nat)
    requires TotalPreorder(cmp) && Sorts(rows, cmp, p, order) && start < |order|
    ensures IsGroup(rows, cmp, order, start, end)
  {
    end := start + 1;
    ByPosition(rows, cmp, p, order, start, start);
    while end < |order| && Order(rows, cmp, order[start], order[end]) == 0
      invariant start < end <= |order| && forall j :: start <= j < end ==> Order(rows, cmp, order[start], order[j]) == 0
    {
      end := end + 1;
    }
  }

  /** updateAggregate for COUNT and SUM; `star` is COUNT(*). */
  function Accumulate(kind: Kind, s: Aggregate, candidate: Option<int>): Aggregate
    requires kind.Count? || kind.Sum?
  {
    if kind.Count? then (if kind.star || candidate.Some? then s.(count := s.count + 1) else s) else Update(s, candidate)
  }

  function Finish(kind: Kind, s: Aggregate): Result<Output, Overflow> {
    if kind.Count? then Ok(Number(s.count)) else FinishSum(s)
  }

  /** The state after the first rows of the order. */
  ghost predicate Accumulated<P, K>(kind: Kind, rows: Input<P, K>, order: seq<nat>, m: nat, s: Aggregate)
    requires m <= |order|
  {
    if kind.Count? then s.count == ListSum(order[..m], CountWeight(rows, kind.star))
    else
      var count := ListSum(order[..m], CountWeight(rows, false));
      count >= 0 && Exact(s, count, ListSum(order[..m], SumWeight(rows)))
  }

  lemma AccumulateStep<P, K>(kind: Kind, rows: Input<P, K>, order: seq<nat>, m: nat, s: Aggregate)
    requires (kind.Count? || kind.Sum?) && m < |order| && order[m] < |rows.args| && Accumulated(kind, rows, order, m, s)
    requires rows.args[order[m]].Some? ==> IsInt64(rows.args[order[m]].value)
    ensures Accumulated(kind, rows, order, m + 1, Accumulate(kind, s, rows.args[order[m]]))
  {
    var candidate := rows.args[order[m]];
    assert order[..m + 1][..m] == order[..m];
    if kind.Sum? {
      UpdateExact(s, candidate, ListSum(order[..m], CountWeight(rows, false)), ListSum(order[..m], SumWeight(rows)));
    }
  }

  lemma FrameFinished<P, K(!new)>(kind: Kind, rows: Input<P, K>, cmp: (K, K) -> int, p: P, order: seq<nat>, start: nat,
                           end: nat, i: nat, s: Aggregate)
    requires TotalPreorder(cmp) && Sorts(rows, cmp, p, order) && IsGroup(rows, cmp, order, start, end)
             && start <= i < end
    requires (kind.Count? || kind.Sum?) && Accumulated(kind, rows, order, end, s)
    ensures Finish(kind, s) == FrameOutput(kind, rows, cmp, order[i])
  {
    if kind.Count? {
      FrameAt(rows, cmp, p, order, start, end, i, CountWeight(rows, kind.star));
    } else {
      FrameAt(rows, cmp, p, order, start, end, i, CountWeight(rows, false));
      FrameAt(rows, cmp, p, order, start, end, i, SumWeight(rows));
      FinishExact(s, ListSum(order[..end], CountWeight(rows, false)), ListSum(order[..end], SumWeight(rows)));
    }
  }

  predicate Int64Args<P, K>(rows: Input<P, K>) {
    forall q :: 0 <= q < |rows.args| && rows.args[q].Some? ==> IsInt64(rows.args[q].value)
  }

  /** Adding the rows of one group to the running state. */
  method AccumulateGroup<P, K>(kind: Kind, rows: Input<P, K>, order: seq<nat>, start: nat, end: nat, before: Aggregate)
    returns (s: Aggregate)
    requires (kind.Count? || kind.Sum?) && start <= end <= |order| && Int64Args(rows)
    requires (forall i :: 0 <= i < |order| ==> order[i] < |rows.args|) && Accumulated(kind, rows, order, start, before)
    ensures Accumulated(kind, rows, order, end, s)
  {
    s := before;
    for i := start to end
      invariant Accumulated(kind, rows, order, i, s)
    {
      AccumulateStep(kind, rows, order, i, s);
      s := Accumulate(kind, s, rows.args[order[i]]);
    }
  }

  /** Ordered COUNT and SUM: one value for every group of peers; a sum that does not fit ends the statement. */
  method FillFrames<P(==),
    K(!new)>(kind: Kind, rows: Input<P, K>, cmp: (K, K) -> int, ghost p: P, order: seq<nat>, output: array<Output>)
    returns (ok: bool)
    requires TotalPreorder(cmp) && Sorts(rows, cmp, p, order) && output.Length == |rows.keys| && Int64Args(rows)
    requires kind.Count? || kind.Sum?
    modifies output
    ensures OthersKept(order, output)
    ensures ok ==> forall i :: 0 <= i < |order| ==> FrameOutput(kind, rows, cmp, order[i]) == Ok(output[order[i]])
    ensures !ok ==> exists i :: 0 <= i < |order| && FrameOutput(kind, rows, cmp, order[i]).Err?
  {
    SortsDistinct(rows, cmp, p, order);
    var state, start := EMPTY, 0;
    while start < |order|
      invariant start <= |order| && OthersKept(order, output) && Accumulated(kind, rows, order, start, state)
      invariant forall i :: 0 <= i < start ==> FrameOutput(kind, rows, cmp, order[i]) == Ok(output[order[i]])
      decreases |order| - start
    {
      var end := GroupEnd(rows, cmp, p, order, start);
      state := AccumulateGroup(kind, rows, order, start, end, state);
      forall i | start <= i < end ensures Finish(kind, state) == FrameOutput(kind, rows, cmp, order[i]) {
        FrameFinished(kind, rows, cmp, p, order, start, end, i, state);
      }
      var value := Finish(kind, state);
      if value.Err? { return false; }
      for i := start to end
        invariant OthersKept(order, output)
        invariant forall j :: 0 <= j < i ==> FrameOutput(kind, rows, cmp, order[j]) == Ok(output[order[j]])
      {
        output[order[i]] := value.value;
      }
      start := end;
    }
    return true;
  }

  /** Without ORDER BY all rows are peers. */
  ghost predicate AllPeers<K(!new)>(cmp: (K, K) -> int) { forall a, b :: cmp(a, b) == 0 }

  /** COUNT and SUM without ORDER BY: one value for the whole partition. */
  method FillWhole<P(==),
    K(!new)>(kind: Kind, rows: Input<P, K>, cmp: (K, K) -> int, ghost p: P, order: seq<nat>, output: array<Output>)
    returns (ok: bool)
    requires TotalPreorder(cmp) && AllPeers(cmp) && Sorts(rows, cmp, p, order) && output.Length == |rows.keys|
             && Int64Args(rows)
    requires (kind.Count? || kind.Sum?) && order != []
    modifies output
    ensures OthersKept(order, output)
    ensures ok ==> forall i :: 0 <= i < |order| ==> FrameOutput(kind, rows, cmp, order[i]) == Ok(output[order[i]])
    ensures !ok ==> exists i :: 0 <= i < |order| && FrameOutput(kind, rows, cmp, order[i]).Err?
  {
    SortsDistinct(rows, cmp, p, order);
    var state := AccumulateGroup(kind, rows, order, 0, |order|, EMPTY);
    forall i | 0 <= i < |order| ensures Finish(kind, state) == FrameOutput(kind, rows, cmp, order[i]) {
      FrameFinished(kind, rows, cmp, p, order, 0, |order|, i, state);
    }
    var value := Finish(kind, state);
    if value.Err? { return false; }
    for i := 0 to |order|
      invariant OthersKept(order, output)
      invariant forall j :: 0 <= j < i ==> output[order[j]] == value.value
    {
      output[order[i]] := value.value;
    }
    return true;
  }

  method FillPartition<P(==),
    K(!new)>(kind: Kind, ordered: bool, rows: Input<P, K>, cmp: (K, K) -> int, ghost p: P, order: seq<nat>,
                                       output: array<Output>)
    returns (ok: bool)
    requires TotalPreorder(cmp) && Sorts(rows, cmp, p, order) && output.Length == |rows.keys| && Int64Args(rows)
    requires (ordered || AllPeers(cmp)) && order != []
    modifies output
    ensures OthersKept(order, output)
    ensures ok ==> forall i :: 0 <= i < |order| ==> Meaning(kind, rows, cmp, order[i]) == Ok(output[order[i]])
    ensures !ok ==> exists i :: 0 <= i < |order| && Meaning(kind, rows, cmp, order[i]).Err?
  {
    match kind
    case RowNumber =>
      FillNumbers(rows, cmp, p, order, output);
      ok := true;
    case RankOf =>
      FillRanks(false, rows, cmp, p, order, output);
      ok := true;
    case DenseRank =>
      FillRanks(true, rows, cmp, p, order, output);
      ok := true;
    case _ =>
      if ordered {
        ok := FillFrames(kind, rows, cmp, p, order, output);
      } else {
        ok := FillWhole(kind, rows, cmp, p, order, output);
      }
  }

  // ----- partitions --------------------------------------------------------------------------

  /** The rows of one partition, in row order. */
  function PartRows<P(==)>(parts: seq<P>, p: P): seq<nat> {
    if parts == [] then [] else
      var n := |parts| - 1;
      PartRows(parts[..n], p) + if parts[n] == p then [n] else []
  }

  lemma {:induction false} PartRowsMeaning<P>(parts: seq<P>, p: P)
    ensures forall i :: 0 <= i < |PartRows(parts, p)| ==>
              PartRows(parts, p)[i] < |parts| && parts[PartRows(parts, p)[i]] == p
    ensures forall q :: 0 <= q < |parts| && parts[q] == p ==> q in PartRows(parts, p)
    ensures forall i, j :: 0 <= i < j < |PartRows(parts, p)| ==> PartRows(parts, p)[i] < PartRows(parts, p)[j]
  {
    if parts != [] { PartRowsMeaning(parts[..|parts| - 1], p); }
  }

  datatype Keyed<K> = Keyed(row: nat, key: K)

  function ByKey<K>(cmp: (K, K) -> int): (Keyed<K>, Keyed<K>) -> int { (a: Keyed<K>, b: Keyed<K>) => cmp(a.key, b.key) }

  lemma ByKeyPreorder<K(!new)>(cmp: (K, K) -> int)
    requires TotalPreorder(cmp)
    ensures TotalPreorder(ByKey(cmp))
  {
    var f := ByKey(cmp);
    forall a, b ensures Opposite(f, a, b) { assert Opposite(cmp, a.key, b.key); }
    forall a, b, c ensures Chains(f, a, b, c) { assert Chains(cmp, a.key, b.key, c.key); }
  }

  function WithKeys<P, K>(rows: Input<P, K>, indexes: seq<nat>): (r: seq<Keyed<K>>)
    requires forall i :: 0 <= i < |indexes| ==> indexes[i] < |rows.keys|
    ensures |r| == |indexes| && forall i :: 0 <= i < |r| ==> r[i] == Keyed(indexes[i], rows.keys[indexes[i]])
  {
    seq(|indexes|, i requires 0 <= i < |indexes| => Keyed(indexes[i], rows.keys[indexes[i]]))
  }

  function RowsOf<K>(keyed: seq<Keyed<K>>): (r: seq<nat>)
    ensures |r| == |keyed| && forall i :: 0 <= i < |r| ==> r[i] == keyed[i].row
  {
    seq(|keyed|, i requires 0 <= i < |keyed| => keyed[i].row)
  }

  /** sort.SliceStable over the indexes of a partition, by order key. */
  function SortIndexes<P, K>(rows: Input<P, K>, cmp: (K, K) -> int, indexes: seq<nat>): seq<nat>
    requires forall i :: 0 <= i < |indexes| ==> indexes[i] < |rows.keys|
  {
    RowsOf(StableSort(ByKey(cmp), WithKeys(rows, indexes)))
  }

  lemma StableSortMembers<T>(cmp: (T, T) -> int, values: seq<T>, v: T)
    requires v in values
    ensures v in StableSort(cmp, values)
  {
    var i :| 0 <= i < |values| && values[i] == v;
    var ranked := Rank(values);
    assert ranked[i] in multiset(ranked);
    assert ranked[i] in multiset(Sorted(cmp, ranked));
    var j :| 0 <= j < |ranked| && Sorted(cmp, ranked)[j] == ranked[i];
    assert StableSort(cmp, values)[j] == v;
  }

  /** Sorting the rows of a partition stably lists them by key, equal keys in row order. */
  lemma PartitionSorted<P, K(!new)>(rows: Input<P, K>, cmp: (K, K) -> int, p: P, indexes: seq<nat>)
    requires TotalPreorder(cmp) && Aligned(rows) && indexes == PartRows(rows.parts, p)
    requires forall i :: 0 <= i < |indexes| ==> indexes[i] < |rows.keys|
    ensures Sorts(rows, cmp, p, SortIndexes(rows, cmp, indexes))
  {
    PartRowsMeaning(rows.parts, p);
    ByKeyPreorder(cmp);
    var keyed, order := WithKeys(rows, indexes), SortIndexes(rows, cmp, indexes);
    var from := StableSortMeaning(ByKey(cmp), keyed);
    forall i | 0 <= i < |order| ensures order[i] == indexes[from[i]] {}
    forall q | 0 <= q < |rows.keys| && rows.parts[q] == p ensures q in order {
      var k :| 0 <= k < |indexes| && indexes[k] == q;
      assert keyed[k] in keyed;
      StableSortMembers(ByKey(cmp), keyed, keyed[k]);
      var j :| 0 <= j < |order| && StableSort(ByKey(cmp), keyed)[j] == keyed[k];
      assert order[j] == q;
    }
    forall i, j | 0 <= i < j < |order| ensures InOrder(rows, cmp, order[i], order[j]) {
      assert ByKey(cmp)(keyed[from[i]], keyed[from[j]]) == Order(rows, cmp, order[i], order[j]);
    }
  }

  lemma PartRowsStep<P>(parts: seq<P>, i: nat, p: P)
    requires i < |parts|
    ensures PartRows(parts[..i + 1], p) == PartRows(parts[..i], p) + if parts[i] == p then [i] else []
  {
    assert parts[..i + 1][..i] == parts[..i];
  }

  function RowsIn<P>(partitions: map<P, seq<nat>>, p: P): seq<nat> { if p in partitions then partitions[p] else [] }

  /** The partitions of the first i rows, and the keys seen so far. */
  ghost predicate Grouped<P(!new)>(parts: seq<P>, i: nat, partitions: map<P, seq<nat>>, keys: seq<P>)
    requires i <= |parts|
  {
    && (forall p :: RowsIn(partitions, p) == PartRows(parts[..i], p))
    && (forall q :: 0 <= q < i ==> parts[q] in partitions)
    && (forall p :: p in partitions <==> p in keys)
    && (forall p :: p in partitions ==> partitions[p] != [])
  }

  lemma GroupStep<P(!new)>(parts: seq<P>, i: nat, partitions: map<P, seq<nat>>, keys: seq<P>)
    requires i < |parts| && Grouped(parts, i, partitions, keys)
    ensures var p := parts[i];
            Grouped(parts, i + 1, partitions[p := RowsIn(partitions, p) + [i]], if p in partitions then keys
              else keys + [p])
  {
    var p := parts[i];
    var after := partitions[p := RowsIn(partitions, p) + [i]];
    forall x ensures RowsIn(after, x) == PartRows(parts[..i + 1], x) {
      PartRowsStep(parts, i, x);
      assert RowsIn(partitions, x) == PartRows(parts[..i], x);
    }
  }

  lemma GroupedAll<P(!new)>(parts: seq<P>, partitions: map<P, seq<nat>>, keys: seq<P>)
    requires Grouped(parts, |parts|, partitions, keys)
    ensures forall p :: p in partitions ==> partitions[p] == PartRows(parts, p)
  {
    assert parts[..|parts|] == parts;
    forall p | p in partitions ensures partitions[p] == PartRows(parts, p) {
      assert RowsIn(partitions, p) == PartRows(parts, p);
    }
  }

  /** Grouping the rows by partition key, in the order the keys first occur. */
  method Partition<P(==, !new), K>(rows: Input<P, K>) returns (partitions: map<P, seq<nat>>, keys: seq<P>)
    ensures forall p :: p in partitions ==> partitions[p] == PartRows(rows.parts, p)
    ensures forall q :: 0 <= q < |rows.parts| ==> rows.parts[q] in partitions
    ensures forall p :: p in partitions <==> p in keys
    ensures forall p :: p in partitions ==> partitions[p] != []
  {
    partitions, keys := map[], [];
    for i := 0 to |rows.parts|
      invariant Grouped(rows.parts, i, partitions, keys)
    {
      var p := rows.parts[i];
      GroupStep(rows.parts, i, partitions, keys);
      if p !in partitions { keys := keys + [p]; }
      partitions := partitions[p := RowsIn(partitions, p) + [i]];
    }
    GroupedAll(rows.parts, partitions, keys);
  }

  /** One partition, from its indexes to its part of the output. */
  method FillKey<P(==),
    K(!new)>(kind: Kind, ordered: bool, rows: Input<P, K>, cmp: (K, K) -> int, p: P, indexes: seq<nat>,
      output: array<Output>)
    returns (ok: bool)
    requires TotalPreorder(cmp) && Aligned(rows) && Int64Args(rows) && output.Length == |rows.keys|
             && indexes == PartRows(rows.parts, p)
    requires (ordered || AllPeers(cmp)) && indexes != []
    modifies output
    ensures forall q :: 0 <= q < |rows.keys| && rows.parts[q] != p ==> output[q] == old(output[q])
    ensures ok ==> forall q :: 0 <= q < |rows.keys| && rows.parts[q] == p ==>
            Meaning(kind, rows, cmp, q) == Ok(output[q])
    ensures !ok ==> exists q :: 0 <= q < |rows.keys| && Meaning(kind, rows, cmp, q).Err?
  {
    PartRowsMeaning(rows.parts, p);
    PartitionSorted(rows, cmp, p, indexes);
    var order := SortIndexes(rows, cmp, indexes);
    ok := FillPartition(kind, ordered, rows, cmp, p, order, output);
  }

  /** The window column of a result: every row's value as SQL defines it, or an error when a sum does not fit. */
  method ApplyWindow<P(==, !new), K(!new)>(kind: Kind, ordered: bool, rows: Input<P, K>, cmp: (K, K) -> int)
    returns (r: Result<seq<Output>, Overflow>)
    requires TotalPreorder(cmp) && (ordered || AllPeers(cmp)) && Aligned(rows) && Int64Args(rows)
    ensures r.Ok? ==> |r.value| == |rows.keys| && forall q :: 0 <= q < |rows.keys| ==>
            Meaning(kind, rows, cmp, q) == Ok(r.value[q])
    ensures r.Err? <==> exists q :: 0 <= q < |rows.keys| && Meaning(kind, rows, cmp, q).Err?
  {
    var output := new Output[|rows.keys|](_ => Null);
    var partitions, keys := Partition(rows);
    for k := 0 to |keys|
      invariant forall q :: 0 <= q < |rows.keys| && rows.parts[q] in keys[..k] ==>
                Meaning(kind, rows, cmp, q) == Ok(output[q])
    {
      var ok := FillKey(kind, ordered, rows, cmp, keys[k], partitions[keys[k]], output);
      if !ok { return Err(OutOfRange); }
      assert keys[..k + 1] == keys[..k] + [keys[k]];
    }
    return Ok(output[..]);
  }
}
