/** Stable sorting as a mathematical function, shared by the sorter, the bounded heap, windows and staging. */
module Ordering {

  /** A value with the position at which it was added; ties of the comparator fall back to it. */
  datatype Ranked<T> = Ranked(value: T, ordinal: nat)

  predicate Opposite<T>(cmp: (T, T) -> int, a: T, b: T) { cmp(a, b) < 0 <==> cmp(b, a) > 0 }

  predicate Chains<T>(cmp: (T, T) -> int, a: T, b: T, c: T) { cmp(a, b) <= 0 && cmp(b, c) <= 0 ==> cmp(a, c) <= 0 }

  ghost predicate TotalPreorder<T(!new)>(cmp: (T, T) -> int) {
    (forall a, b :: Opposite(cmp, a, b)) && (forall a, b, c :: Chains(cmp, a, b, c))
  }

  /** The strict order of the engine's sorters: comparator first, ordinal second. */
  predicate Before<T>(cmp: (T, T) -> int, a: Ranked<T>, b: Ranked<T>) {
    cmp(a.value, b.value) < 0 || (cmp(a.value, b.value) == 0 && a.ordinal < b.ordinal)
  }

  lemma BeforeTransitive<T(!new)>(cmp: (T, T) -> int, a: Ranked<T>, b: Ranked<T>, c: Ranked<T>)
    requires TotalPreorder(cmp)
    requires Before(cmp, a, b) && Before(cmp, b, c)
    ensures Before(cmp, a, c)
  {
    assert Chains(cmp, a.value, b.value, c.value);
    assert Opposite(cmp, a.value, c.value) && Opposite(cmp, c.value, a.value);
    assert Opposite(cmp, b.value, a.value) && Opposite(cmp, a.value, b.value);
    assert Opposite(cmp, c.value, b.value) && Opposite(cmp, b.value, c.value);
    assert Chains(cmp, c.value, a.value, b.value) && Chains(cmp, b.value, c.value, a.value);
  }

  /** Distinct ordinals make the order total. */
  lemma BeforeTotal<T(!new)>(cmp: (T, T) -> int, a: Ranked<T>, b: Ranked<T>)
    requires TotalPreorder(cmp)
    ensures Before(cmp, a, b) ==> !Before(cmp, b, a)
    ensures a.ordinal != b.ordinal ==> Before(cmp, a, b) || Before(cmp, b, a)
  {
    assert Opposite(cmp, a.value, b.value) && Opposite(cmp, b.value, a.value);
  }

  ghost predicate StrictlySorted<T>(cmp: (T, T) -> int, s: seq<Ranked<T>>) {
    forall i, j :: 0 <= i < j < |s| ==> Before(cmp, s[i], s[j])
  }

  ghost predicate DistinctOrdinals<T>(s: seq<Ranked<T>>) {
    forall i, j :: 0 <= i < j < |s| ==> s[i].ordinal != s[j].ordinal
  }

  /** The rows of a list paired with their positions. */
  function Rank<T>(values: seq<T>): (r: seq<Ranked<T>>)
    ensures |r| == |values|
    ensures forall i :: 0 <= i < |r| ==> r[i] == Ranked(values[i], i)
  {
    seq(|values|, i requires 0 <= i < |values| => Ranked(values[i], i))
  }

  lemma RankDistinct<T>(values: seq<T>)
    ensures DistinctOrdinals(Rank(values))
  {
  }

  function Values<T>(s: seq<Ranked<T>>): (r: seq<T>)
    ensures |r| == |s| && forall i :: 0 <= i < |s| ==> r[i] == s[i].value
  {
    seq(|s|, i requires 0 <= i < |s| => s[i].value)
  }

  // ----- the reference sort ------------------------------------------------------------------

  function Insert<T>(cmp: (T, T) -> int, x: Ranked<T>, s: seq<Ranked<T>>): (r: seq<Ranked<T>>)
    ensures multiset(r) == multiset(s) + multiset{x}
    ensures |r| == |s| + 1
  {
    if s == [] || Before(cmp, x, s[0]) then
      [x] + s
    else
      assert s == [s[0]] + s[1..];
      [s[0]] + Insert(cmp, x, s[1..])
  }

  /** Insertion sort by (comparator, ordinal): on ranked rows this is the stable sort of the values. */
  function Sorted<T>(cmp: (T, T) -> int, s: seq<Ranked<T>>): (r: seq<Ranked<T>>)
    ensures multiset(r) == multiset(s)
    ensures |r| == |s|
  {
    if s == [] then [] else
      assert s == s[..|s| - 1] + [s[|s| - 1]];
      Insert(cmp, s[|s| - 1], Sorted(cmp, s[..|s| - 1]))
  }

  function StableSort<T>(cmp: (T, T) -> int, values: seq<T>): (r: seq<T>)
    ensures |r| == |values|
  {
    Values(Sorted(cmp, Rank(values)))
  }

  lemma {:induction false} InsertSorted<T(!new)>(cmp: (T, T) -> int, x: Ranked<T>, s: seq<Ranked<T>>)
    requires TotalPreorder(cmp) && StrictlySorted(cmp, s)
    requires forall y :: y in s ==> y.ordinal != x.ordinal
    ensures StrictlySorted(cmp, Insert(cmp, x, s))
  {
    if s == [] {
    } else if Before(cmp, x, s[0]) {
      forall j | 0 < j < |s| ensures Before(cmp, x, s[j]) { BeforeTransitive(cmp, x, s[0], s[j]); }
    } else {
      BeforeTotal(cmp, x, s[0]);
      InsertSorted(cmp, x, s[1..]);
      var t := Insert(cmp, x, s[1..]);
      forall j | 0 <= j < |t| ensures Before(cmp, s[0], t[j]) {
        assert t[j] in multiset(t);
        if t[j] != x { assert t[j] in s[1..]; }
      }
    }
  }

  lemma {:induction false} SortedIsStrict<T(!new)>(cmp: (T, T) -> int, s: seq<Ranked<T>>)
    requires TotalPreorder(cmp) && DistinctOrdinals(s)
    ensures StrictlySorted(cmp, Sorted(cmp, s))
  {
    if s != [] {
      var init := s[..|s| - 1];
      SortedIsStrict(cmp, init);
      forall y | y in Sorted(cmp, init) ensures y.ordinal != s[|s| - 1].ordinal {
        assert y in multiset(Sorted(cmp, init));
        assert y in init;
      }
      InsertSorted(cmp, s[|s| - 1], Sorted(cmp, init));
    }
  }

  /** The head of a strictly sorted list comes before every other element. */
  lemma HeadIsLeast<T(!new)>(cmp: (T, T) -> int, a: seq<Ranked<T>>, x: Ranked<T>)
    requires StrictlySorted(cmp, a) && a != [] && x in multiset(a)
    ensures x == a[0] || Before(cmp, a[0], x)
  {
    assert x in a;
  }

  lemma TailMultiset<T>(a: seq<T>)
    requires a != []
    ensures multiset(a[1..]) == multiset(a) - multiset{a[0]}
    ensures a == [a[0]] + a[1..]
  {
    assert a == [a[0]] + a[1..];
  }

  lemma SameHead<T(!new)>(cmp: (T, T) -> int, a: seq<Ranked<T>>, b: seq<Ranked<T>>)
    requires TotalPreorder(cmp)
    requires StrictlySorted(cmp, a) && StrictlySorted(cmp, b)
    requires multiset(a) == multiset(b) && a != [] && b != []
    ensures a[0] == b[0]
  {
    HeadIsLeast(cmp, b, a[0]);
    HeadIsLeast(cmp, a, b[0]);
    BeforeTotal(cmp, a[0], b[0]);
  }

  /** A strictly sorted list is determined by its elements. */
  lemma {:induction false} StrictSortUnique<T(!new)>(cmp: (T, T) -> int, a: seq<Ranked<T>>, b: seq<Ranked<T>>)
    requires TotalPreorder(cmp)
    requires StrictlySorted(cmp, a) && StrictlySorted(cmp, b)
    requires multiset(a) == multiset(b)
    ensures a == b
  {
    assert |a| == |multiset(a)| == |multiset(b)| == |b|;
    if a != [] {
      SameHead(cmp, a, b);
      TailMultiset(a);
      TailMultiset(b);
      StrictSortUnique(cmp, a[1..], b[1..]);
    }
  }

  /** Any strictly sorted rearrangement of the ranked rows is the reference sort. */
  lemma SortedFromPermutation<T(!new)>(cmp: (T, T) -> int, source: seq<Ranked<T>>, out: seq<Ranked<T>>)
    requires TotalPreorder(cmp) && DistinctOrdinals(source)
    requires StrictlySorted(cmp, out) && multiset(out) == multiset(source)
    ensures out == Sorted(cmp, source)
  {
    SortedIsStrict(cmp, source);
    StrictSortUnique(cmp, out, Sorted(cmp, source));
  }

  /** What the reference sort means for values: ordered, a permutation, and ties keep their input order. */
  lemma StableSortMeaning<T(!new)>(cmp: (T, T) -> int, values: seq<T>) returns (from: seq<nat>)
    requires TotalPreorder(cmp)
    ensures |from| == |values|
    ensures forall i :: 0 <= i < |from| ==> from[i] < |values| && StableSort(cmp, values)[i] == values[from[i]]
    ensures forall i, j :: 0 <= i < j < |from| ==> from[i] != from[j]
    ensures forall i, j :: 0 <= i < j < |from| ==>
              cmp(values[from[i]], values[from[j]]) < 0
              || (cmp(values[from[i]], values[from[j]]) == 0 && from[i] < from[j])
  {
    var ranked := Rank(values);
    var sorted := Sorted(cmp, ranked);
    RankDistinct(values);
    SortedIsStrict(cmp, ranked);
    from := seq(|sorted|, i requires 0 <= i < |sorted| => sorted[i].ordinal);
    forall i | 0 <= i < |sorted|
      ensures from[i] < |values| && sorted[i] == ranked[from[i]]
    {
      assert sorted[i] in multiset(sorted);
      assert sorted[i] in ranked;
    }
    forall i, j | 0 <= i < j < |from|
      ensures from[i] != from[j]
      ensures cmp(values[from[i]], values[from[j]]) < 0
              || (cmp(values[from[i]], values[from[j]]) == 0 && from[i] < from[j])
    {
      assert Before(cmp, sorted[i], sorted[j]);
      if from[i] == from[j] { BeforeTotal(cmp, sorted[i], sorted[j]); }
    }
  }
}
