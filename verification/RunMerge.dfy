/** Run files as bytes, and the k-way merge that reads them back row by row. */
module RunMerge {
  import opened Wrappers
  import opened Bytes
  import opened Ordering
  import opened SortCodec

  type Rows = seq<Ranked<Cells>>

  ghost predicate ValidRows(rows: Rows) { forall i :: 0 <= i < |rows| ==> ValidRow(rows[i]) }

  predicate SupportedRows(rows: Rows) { forall i :: 0 <= i < |rows| ==> Supported(rows[i].value) }

  /** Rows that have been through a run file already. */
  predicate Normal(rows: Rows) { forall i :: 0 <= i < |rows| ==> NormRow(rows[i]) == rows[i] }

  function PutRows(rows: Rows, tail: Data): Data
    requires ValidRows(rows)
  {
    if rows == [] then tail else PutRow(rows[0], PutRows(rows[1..], tail))
  }

  /** A run file that holds these rows, in order. */
  ghost predicate RunHolds(cmp: (Cells, Cells) -> int, file: Data, rows: Rows) {
    && ValidRows(rows) && SupportedRows(rows) && Normal(rows) && StrictlySorted(cmp, rows)
    && file == PutRows(rows, [])
  }

  ghost predicate RunsHold(cmp: (Cells, Cells) -> int, files: seq<Data>, runs: seq<Rows>) {
    |files| == |runs| && forall i {:trigger RunHolds(cmp, files[i], runs[i])} :: 0 <= i < |runs| ==>
      RunHolds(cmp, files[i], runs[i])
  }

  // ----- all rows of a set of runs -----------------------------------------------------------

  ghost function Total(runs: seq<Rows>): multiset<Ranked<Cells>> {
    if runs == [] then multiset{} else multiset(runs[0]) + Total(runs[1..])
  }

  lemma {:induction false} TotalUpdate(runs: seq<Rows>, i: nat, rows: Rows)
    requires i < |runs|
    ensures multiset(runs[i]) <= Total(runs)
    ensures Total(runs[i := rows]) == Total(runs) - multiset(runs[i]) + multiset(rows)
  {
    if i == 0 {
      assert runs[0 := rows][1..] == runs[1..];
    } else {
      TotalUpdate(runs[1..], i - 1, rows);
      assert runs[i := rows][1..] == runs[1..][i - 1 := rows];
    }
  }

  lemma {:induction false} TotalAppend(a: seq<Rows>, b: seq<Rows>)
    ensures Total(a + b) == Total(a) + Total(b)
  {
    if a == [] {
      assert a + b == b;
    } else {
      TotalAppend(a[1..], b);
      AppendHead(a, b);
      RegroupSum(multiset(a[0]), Total(a[1..]), Total(b));
    }
  }

  lemma AppendHead(a: seq<Rows>, b: seq<Rows>)
    requires a != []
    ensures Total(a + b) == multiset(a[0]) + Total(a[1..] + b)
  {
    assert (a + b)[1..] == a[1..] + b;
  }

  lemma RegroupSum(a: multiset<Ranked<Cells>>, b: multiset<Ranked<Cells>>, c: multiset<Ranked<Cells>>)
    ensures a + (b + c) == (a + b) + c
  {
  }

  lemma TotalOne(rows: Rows)
    ensures Total([rows]) == multiset(rows)
  {
    assert [rows][1..] == [];
  }

  lemma {:induction false} TotalMember(runs: seq<Rows>, r: Ranked<Cells>)
    requires r in Total(runs)
    ensures exists i :: 0 <= i < |runs| && r in runs[i]
  {
    if r !in runs[0] {
      TotalMember(runs[1..], r);
      var i :| 0 <= i < |runs[1..]| && r in runs[1..][i];
      assert r in runs[i + 1];
    } else {
      assert r in runs[0];
    }
  }

  predicate Once(m: multiset<Ranked<Cells>>, a: Ranked<Cells>) { m[a] <= 1 }

  predicate Apart(m: multiset<Ranked<Cells>>, a: Ranked<Cells>, b: Ranked<Cells>) {
    a in m && b in m && a != b ==> a.ordinal != b.ordinal
  }

  /** No ordinal occurs twice. */
  ghost predicate Distinct(m: multiset<Ranked<Cells>>) {
    (forall a :: Once(m, a)) && (forall a, b :: Apart(m, a, b))
  }

  lemma DistinctSub(m: multiset<Ranked<Cells>>, sub: multiset<Ranked<Cells>>)
    requires Distinct(m) && sub <= m
    ensures Distinct(sub)
  {
    forall a ensures Once(sub, a) { assert Once(m, a) && sub[a] <= m[a]; }
    forall a, b ensures Apart(sub, a, b) { assert Apart(m, a, b); }
  }

  lemma TwoRuns(runs: seq<Rows>, i: nat, j: nat)
    requires i < |runs| && j < |runs| && i != j
    ensures multiset(runs[i]) + multiset(runs[j]) <= Total(runs)
  {
    var emptied := runs[i := []];
    TotalUpdate(runs, i, []);
    TotalUpdate(emptied, j, []);
    assert emptied[j] == runs[j];
  }

  lemma HeadsDiffer(runs: seq<Rows>, i: nat, j: nat)
    requires Distinct(Total(runs)) && i < |runs| && j < |runs| && i != j && runs[i] != [] && runs[j] != []
    ensures runs[i][0].ordinal != runs[j][0].ordinal
  {
    var a, b := runs[i][0], runs[j][0];
    TwoRuns(runs, i, j);
    assert a in multiset(runs[i]) && b in multiset(runs[j]);
    assert a in Total(runs) && b in Total(runs);
    assert Once(Total(runs), a) && Apart(Total(runs), a, b);
    assert multiset(runs[i])[a] + multiset(runs[j])[a] <= Total(runs)[a] <= 1;
    assert multiset(runs[j])[a] == 0;
  }

  // ----- reading one run ---------------------------------------------------------------------

  /** The next row of a reader positioned at these rows. */
  lemma NextRow(cmp: (Cells, Cells) -> int, rows: Rows, limit: int)
    requires ValidRows(rows) && SupportedRows(rows) && Normal(rows)
    ensures rows == [] ==> GetRow(PutRows(rows, []), limit) == Err(EndOfRun)
    ensures rows != [] ==>
              GetRow(PutRows(rows, []), limit) ==
              if Readable(rows[0].value, limit) then Ok((rows[0], PutRows(rows[1..], []))) else Err(TooWide)
  {
    if rows != [] { RowRoundTrip(rows[0], PutRows(rows[1..], []), limit); }
  }

  // ----- merging -----------------------------------------------------------------------------

  /** What heap.Pop takes: the position of a least head, if any is left. */
  method LeastHead(cmp: (Cells, Cells) -> int, heads: seq<Option<Ranked<Cells>>>) returns (at: Option<nat>)
    requires TotalPreorder(cmp)
    ensures at.None? ==> forall j :: 0 <= j < |heads| ==> heads[j].None?
    ensures at.Some? ==> at.value < |heads| && heads[at.value].Some?
                         && forall j :: 0 <= j < |heads| && heads[j].Some? ==>
                           !Before(cmp, heads[j].value, heads[at.value].value)
  {
    at := None;
    for i := 0 to |heads|
      invariant at.None? ==> forall j :: 0 <= j < i ==> heads[j].None?
      invariant at.Some? ==> at.value < i && heads[at.value].Some?
      invariant at.Some? ==> forall j :: 0 <= j < i && heads[j].Some? ==>
                !Before(cmp, heads[j].value, heads[at.value].value)
    {
      if heads[i].Some? && (at.None? || Before(cmp, heads[i].value, heads[at.value].value)) {
        ghost var was := at;
        at := Some(i);
        BeforeTotal(cmp, heads[i].value, heads[i].value);
        forall j | 0 <= j < i && heads[j].Some? ensures !Before(cmp, heads[j].value, heads[i].value) {
          if Before(cmp, heads[j].value, heads[i].value) {
            BeforeTransitive(cmp, heads[j].value, heads[i].value, heads[was.value].value);
          }
        }
      }
    }
  }

  /** A reader that has delivered the first of these rows and stands before the others. */
  ghost predicate Positioned(cmp: (Cells, Cells) -> int, rows: Rows, head: Option<Ranked<Cells>>, reader: Data) {
    if rows == [] then head.None?
    else head == Some(rows[0]) && RunHolds(cmp, reader, rows[1..]) && StrictlySorted(cmp, rows)
  }

  /** The state between two steps of a merge: the unread rows of each run, their heads and their readers. */
  ghost predicate Merging(cmp: (Cells, Cells) -> int, rest: seq<Rows>, heads: seq<Option<Ranked<Cells>>>,
                          readers: seq<Data>)
  {
    |rest| == |heads| == |readers| && forall i :: 0 <= i < |rest| ==> Positioned(cmp, rest[i], heads[i], readers[i])
  }

  ghost predicate AllBefore(cmp: (Cells, Cells) -> int, out: Rows, m: multiset<Ranked<Cells>>) {
    forall o, r :: o in out && r in m ==> Before(cmp, o, r)
  }

  /** The least head comes before every other unread row. */
  lemma LeastOfAll(cmp: (Cells, Cells) -> int, rest: seq<Rows>, at: nat, r: Ranked<Cells>)
    requires TotalPreorder(cmp) && Distinct(Total(rest)) && at < |rest| && rest[at] != []
    requires forall i :: 0 <= i < |rest| ==> StrictlySorted(cmp, rest[i])
    requires forall j :: 0 <= j < |rest| && rest[j] != [] ==> !Before(cmp, rest[j][0], rest[at][0])
    requires r in Total(rest[at := rest[at][1..]])
    ensures Before(cmp, rest[at][0], r)
  {
    TotalMember(rest[at := rest[at][1..]], r);
    var i :| 0 <= i < |rest| && r in rest[at := rest[at][1..]][i];
    if i != at {
      HeadsDiffer(rest, i, at);
      BeforeTotal(cmp, rest[i][0], rest[at][0]);
      var k :| 0 <= k < |rest[i]| && rest[i][k] == r;
      if k > 0 { BeforeTransitive(cmp, rest[at][0], rest[i][0], r); }
    }
  }

  /** One step of the merge moves the least head to the output and keeps the output sorted and ahead. */
  lemma MergeStep(cmp: (Cells, Cells) -> int, out: Rows, rest: seq<Rows>, at: nat)
    requires TotalPreorder(cmp) && Distinct(Total(rest)) && at < |rest| && rest[at] != []
    requires forall i :: 0 <= i < |rest| ==> StrictlySorted(cmp, rest[i])
    requires forall j :: 0 <= j < |rest| && rest[j] != [] ==> !Before(cmp, rest[j][0], rest[at][0])
    requires StrictlySorted(cmp, out) && AllBefore(cmp, out, Total(rest))
    ensures var after := rest[at := rest[at][1..]];
            && Total(rest) == Total(after) + multiset{rest[at][0]}
            && StrictlySorted(cmp, out + [rest[at][0]]) && AllBefore(cmp, out + [rest[at][0]], Total(after))
            && Distinct(Total(after))
  {
    var head, after := rest[at][0], rest[at := rest[at][1..]];
    TotalUpdate(rest, at, rest[at][1..]);
    TailMultiset(rest[at]);
    assert head in multiset(rest[at]);
    assert Total(rest) == Total(after) + multiset{head};
    assert head in Total(rest);
    DistinctSub(Total(rest), Total(after));
    forall o, r | o in out + [head] && r in Total(after) ensures Before(cmp, o, r) {
      if o == head { LeastOfAll(cmp, rest, at, r); } else { assert r in Total(rest); }
    }
  }

  predicate HeadReadable(rows: Rows, limit: int) { rows != [] ==> Readable(rows[0].value, limit) }

  ghost predicate HeadsReadable(rest: seq<Rows>, limit: int) {
    forall k :: 0 <= k < |rest| ==> HeadReadable(rest[k], limit)
  }

  method ReadHead(cmp: (Cells, Cells) -> int, reader: Data, limit: int, ghost rows: Rows)
    returns (head: Option<Ranked<Cells>>, after: Data, ok: bool)
    requires RunHolds(cmp, reader, rows)
    ensures ok <==> HeadReadable(rows, limit)
    ensures ok ==> Positioned(cmp, rows, head, after)
  {
    NextRow(cmp, rows, limit);
    var next := GetRow(reader, limit);
    match next
    case Ok((row, rest)) => return Some(row), rest, true;
    case Err(e) => return None, [], e == EndOfRun;
  }

  /** Opening the runs: the first row of each. */
  method LoadHeads(cmp: (Cells, Cells) -> int, files: seq<Data>, limit: int, ghost runs: seq<Rows>)
    returns (heads: seq<Option<Ranked<Cells>>>, readers: seq<Data>, ok: bool)
    requires RunsHold(cmp, files, runs)
    ensures ok ==> Merging(cmp, runs, heads, readers) && HeadsReadable(runs, limit)
    ensures !ok ==> exists r :: r in Total(runs) && !Readable(r.value, limit)
  {
    heads, readers := [], [];
    for i := 0 to |files|
      invariant |heads| == |readers| == i
      invariant forall k :: 0 <= k < i ==> Positioned(cmp, runs[k], heads[k], readers[k])
      invariant forall k :: 0 <= k < i ==> HeadReadable(runs[k], limit)
    {
      var head, reader;
      head, reader, ok := ReadHead(cmp, files[i], limit, runs[i]);
      if !ok {
        Unreadable(runs, i, limit);
        return;
      }
      heads, readers := heads + [head], readers + [reader];
    }
    ok := true;
  }

  /** Reading the row that replaces a yielded head. */
  method Refill(cmp: (Cells, Cells) -> int, heads: seq<Option<Ranked<Cells>>>, readers: seq<Data>, at: nat, limit: int,
                ghost rest: seq<Rows>)
    returns (heads': seq<Option<Ranked<Cells>>>, readers': seq<Data>, ok: bool)
    requires Merging(cmp, rest, heads, readers) && HeadsReadable(rest, limit) && at < |rest| && rest[at] != []
    ensures var after := rest[at := rest[at][1..]];
            && (ok ==> Merging(cmp, after, heads', readers') && HeadsReadable(after, limit))
            && (!ok ==> exists r :: r in Total(after) && !Readable(r.value, limit))
  {
    ghost var after := rest[at := rest[at][1..]];
    assert Positioned(cmp, rest[at], heads[at], readers[at]);
    var head, reader;
    head, reader, ok := ReadHead(cmp, readers[at], limit, after[at]);
    if !ok {
      Unreadable(after, at, limit);
      return heads, readers, false;
    }
    heads', readers' := heads[at := head], readers[at := reader];
  }

  /** What has been yielded is sorted, comes before what is left, and nothing is lost. */
  ghost predicate Progress(cmp: (Cells, Cells) -> int, out: Rows, left: multiset<Ranked<Cells>>,
                           all: multiset<Ranked<Cells>>)
  {
    StrictlySorted(cmp, out) && AllBefore(cmp, out, left) && multiset(out) + left == all
  }

  lemma ProgressStep(cmp: (Cells, Cells) -> int, out: Rows, rest: seq<Rows>, heads: seq<Option<Ranked<Cells>>>,
                     readers: seq<Data>, at: nat,
                     all: multiset<Ranked<Cells>>)
    requires TotalPreorder(cmp) && Distinct(Total(rest)) && Merging(cmp, rest, heads, readers)
    requires at < |heads| && heads[at].Some?
    requires forall j :: 0 <= j < |heads| && heads[j].Some? ==> !Before(cmp, heads[j].value, heads[at].value)
    requires Progress(cmp, out, Total(rest), all)
    ensures rest[at] != [] && heads[at] == Some(rest[at][0])
    ensures var after := rest[at := rest[at][1..]];
            && Progress(cmp, out + [rest[at][0]], Total(after), all)
            && Distinct(Total(after)) && |Total(after)| < |Total(rest)|
  {
    assert Positioned(cmp, rest[at], heads[at], readers[at]);
    forall i | 0 <= i < |rest| ensures StrictlySorted(cmp, rest[i]) {
      assert Positioned(cmp, rest[i], heads[i], readers[i]);
    }
    forall j | 0 <= j < |rest| && rest[j] != [] ensures !Before(cmp, rest[j][0], rest[at][0]) {
      assert Positioned(cmp, rest[j], heads[j], readers[j]);
    }
    MergeStep(cmp, out, rest, at);
  }

  lemma MergeDone(cmp: (Cells, Cells) -> int, rest: seq<Rows>, heads: seq<Option<Ranked<Cells>>>, readers: seq<Data>)
    requires Merging(cmp, rest, heads, readers) && forall j :: 0 <= j < |heads| ==> heads[j].None?
    ensures Total(rest) == multiset{}
  {
    forall i | 0 <= i < |rest| ensures rest[i] == [] { assert Positioned(cmp, rest[i], heads[i], readers[i]); }
    NothingLeft(rest);
  }

  /**
   merge: every run contributes its head, the least head is yielded and its run advances. The rows left when it
   stops early all come after the rows it yielded.
   */
  method Merge(cmp: (Cells, Cells) -> int, files: seq<Data>, limit: int, ghost runs: seq<Rows>)
    returns (out: Rows, ok: bool, ghost left: multiset<Ranked<Cells>>)
    requires TotalPreorder(cmp) && RunsHold(cmp, files, runs) && Distinct(Total(runs))
    ensures Progress(cmp, out, left, Total(runs))
    ensures ok ==> left == multiset{}
    ensures ok <==> forall r :: r in Total(runs) ==> Readable(r.value, limit)
  {
    out, left := [], Total(runs);
    var heads, readers;
    heads, readers, ok := LoadHeads(cmp, files, limit, runs);
    if !ok { return; }
    ghost var rest := runs;
    while true
      invariant Merging(cmp, rest, heads, readers) && HeadsReadable(rest, limit)
      invariant Distinct(left) && left == Total(rest)
      invariant Progress(cmp, out, left, Total(runs))
      invariant forall r :: r in out ==> Readable(r.value, limit)
      decreases |left|
    {
      var least := LeastHead(cmp, heads);
      if least.None? {
        MergeDone(cmp, rest, heads, readers);
        forall r | r in Total(runs) ensures Readable(r.value, limit) { assert r in multiset(out); }
        return out, true, left;
      }
      var at := least.value;
      ProgressStep(cmp, out, rest, heads, readers, at, Total(runs));
      assert HeadReadable(rest[at], limit);
      out := out + [heads[at].value];
      heads, readers, ok := Refill(cmp, heads, readers, at, limit, rest);
      rest := rest[at := rest[at][1..]];
      left := Total(rest);
      if !ok {
        ghost var r :| r in left && !Readable(r.value, limit);
        assert r in Total(runs);
        return;
      }
    }
  }

  lemma Unreadable(runs: seq<Rows>, i: nat, limit: int)
    requires i < |runs| && runs[i] != [] && !Readable(runs[i][0].value, limit)
    ensures runs[i][0] in Total(runs)
  {
    TotalUpdate(runs, i, []);
    assert runs[i][0] in multiset(runs[i]);
  }

  lemma {:induction false} NothingLeft(rest: seq<Rows>)
    requires forall i :: 0 <= i < |rest| ==> rest[i] == []
    ensures Total(rest) == multiset{}
  {
    if rest != [] { NothingLeft(rest[1..]); }
  }

  lemma DropFromBoth(a: multiset<Ranked<Cells>>, left: multiset<Ranked<Cells>>, all: multiset<Ranked<Cells>>,
                     x: Ranked<Cells>)
    requires a + left == all && x in a
    ensures (a - multiset{x}) + left == all - multiset{x}
  {
  }

  lemma PrefixHead(cmp: (Cells, Cells) -> int, out: Rows, left: multiset<Ranked<Cells>>, all: Rows)
    requires TotalPreorder(cmp) && StrictlySorted(cmp, all) && out != []
    requires Progress(cmp, out, left, multiset(all))
    ensures all != [] && out[0] == all[0]
  {
    assert out[0] in multiset(out);
    assert out[0] in multiset(all);
    HeadIsLeast(cmp, all, out[0]);
    BeforeTotal(cmp, out[0], all[0]);
    assert all[0] in multiset(all);
    if all[0] in left {
      assert Before(cmp, out[0], all[0]);
    } else {
      HeadIsLeast(cmp, out, all[0]);
    }
  }

  /** Rows yielded in order before everything else are the beginning of the sorted sequence of all rows. */
  lemma {:induction false} PrefixOfSorted(cmp: (Cells, Cells) -> int, out: Rows, left: multiset<Ranked<Cells>>,
                                          all: Rows)
    requires TotalPreorder(cmp) && StrictlySorted(cmp, all)
    requires Progress(cmp, out, left, multiset(all))
    ensures out <= all
  {
    if out != [] {
      PrefixHead(cmp, out, left, all);
      TailMultiset(out);
      TailMultiset(all);
      assert out[0] in multiset(out);
      DropFromBoth(multiset(out), left, multiset(all), out[0]);
      PrefixOfSorted(cmp, out[1..], left, all[1..]);
    }
  }
}
