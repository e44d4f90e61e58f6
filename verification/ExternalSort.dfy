/**
 The external sorter: a bounded batch, sorted runs on disk, compaction and a final merge, and the proof that it
 yields the stable sort of the added rows, whatever it spilled, while its budget shares add up.
 */
module ExternalSort {
  import opened Wrappers
  import opened Bytes
  import opened Ordering
  import opened SortCodec
  import opened RunMerge
  import opened SortBudgets

  const MAX_RUNS := 64

  // ----- normalization and order -------------------------------------------------------------

  /** A comparator that is a total preorder and does not tell a value from its normalized form. */
  ghost predicate Comparable(cmp: (Cells, Cells) -> int) {
    TotalPreorder(cmp) && forall a, b :: NormBlind(cmp, a, b)
  }

  predicate NormBlind(cmp: (Cells, Cells) -> int, a: Cells, b: Cells) { cmp(NormCells(a), NormCells(b)) == cmp(a, b) }

  function NormRows(rows: Rows): (r: Rows)
    ensures |r| == |rows| && forall i :: 0 <= i < |rows| ==> r[i] == NormRow(rows[i])
  {
    seq(|rows|, i requires 0 <= i < |rows| => NormRow(rows[i]))
  }

  function NormAll(values: seq<Cells>): (r: seq<Cells>)
    ensures |r| == |values| && forall i :: 0 <= i < |values| ==> r[i] == NormCells(values[i])
  {
    seq(|values|, i requires 0 <= i < |values| => NormCells(values[i]))
  }

  lemma NormBefore(cmp: (Cells, Cells) -> int, a: Ranked<Cells>, b: Ranked<Cells>)
    requires Comparable(cmp)
    ensures Before(cmp, NormRow(a), NormRow(b)) == Before(cmp, a, b)
  {
    assert NormBlind(cmp, a.value, b.value);
  }

  lemma NormJoin(a: Rows, b: Rows)
    ensures NormRows(a + b) == NormRows(a) + NormRows(b)
  {
  }

  lemma {:induction false} InsertNorm(cmp: (Cells, Cells) -> int, x: Ranked<Cells>, s: Rows)
    requires Comparable(cmp)
    ensures NormRows(Insert(cmp, x, s)) == Insert(cmp, NormRow(x), NormRows(s))
  {
    if s != [] { NormBefore(cmp, x, s[0]); }
    if s != [] && !Before(cmp, x, s[0]) {
      InsertNorm(cmp, x, s[1..]);
      InsertNormLater(cmp, x, s);
    } else {
      InsertNormFirst(cmp, x, s);
    }
  }

  lemma InsertNormFirst(cmp: (Cells, Cells) -> int, x: Ranked<Cells>, s: Rows)
    requires s != [] ==> Before(cmp, x, s[0]) && Before(cmp, NormRow(x), NormRow(s[0]))
    ensures NormRows(Insert(cmp, x, s)) == Insert(cmp, NormRow(x), NormRows(s))
  {
    NormJoin([x], s);
    assert NormRows([x]) == [NormRow(x)];
  }

  lemma InsertNormLater(cmp: (Cells, Cells) -> int, x: Ranked<Cells>, s: Rows)
    requires s != [] && !Before(cmp, x, s[0]) && !Before(cmp, NormRow(x), NormRow(s[0]))
    requires NormRows(Insert(cmp, x, s[1..])) == Insert(cmp, NormRow(x), NormRows(s[1..]))
    ensures NormRows(Insert(cmp, x, s)) == Insert(cmp, NormRow(x), NormRows(s))
  {
    var later := Insert(cmp, x, s[1..]);
    NormJoin([s[0]], later);
    assert NormRows([s[0]]) == [NormRow(s[0])];
    assert NormRows(s)[1..] == NormRows(s[1..]);
  }

  lemma {:induction false} SortedNorm(cmp: (Cells, Cells) -> int, s: Rows)
    requires Comparable(cmp)
    ensures NormRows(Sorted(cmp, s)) == Sorted(cmp, NormRows(s))
  {
    if s != [] {
      var init := s[..|s| - 1];
      SortedNorm(cmp, init);
      InsertNorm(cmp, s[|s| - 1], Sorted(cmp, init));
      assert NormRows(s)[..|s| - 1] == NormRows(init);
    }
  }

  /** Going through run files normalizes the values and does not change their order. */
  lemma SpillKeepsOrder(cmp: (Cells, Cells) -> int, values: seq<Cells>)
    requires Comparable(cmp)
    ensures StableSort(cmp, NormAll(values)) == NormAll(StableSort(cmp, values))
  {
    SortedNorm(cmp, Rank(values));
    assert NormRows(Rank(values)) == Rank(NormAll(values));
    assert Values(NormRows(Sorted(cmp, Rank(values)))) == NormAll(Values(Sorted(cmp, Rank(values))));
  }

  // ----- normalization and bytes -------------------------------------------------------------

  lemma {:induction false} NormCellsBytes(cells: Cells, tail: Data)
    requires forall i :: 0 <= i < |cells| ==> ValidCell(cells[i])
    ensures forall i :: 0 <= i < |cells| ==> ValidCell(NormCells(cells)[i])
    ensures PutCells(NormCells(cells), tail) == PutCells(cells, tail)
  {
    if cells != [] {
      NormCellsBytes(cells[1..], tail);
      assert NormCells(cells)[1..] == NormCells(cells[1..]);
      NormCellBytes(cells[0], PutCells(cells[1..], tail));
    }
  }

  lemma NormCellBytes(c: Cell, tail: Data)
    requires ValidCell(c)
    ensures ValidCell(Norm(c)) && PutCell(Norm(c), tail) == PutCell(c, tail)
  {
  }

  lemma NormRowBytes(row: Ranked<Cells>, tail: Data)
    requires ValidRow(row)
    ensures ValidRow(NormRow(row)) && PutRow(NormRow(row), tail) == PutRow(row, tail)
    ensures Supported(row.value) ==> Supported(NormRow(row).value)
    ensures NormRow(NormRow(row)) == NormRow(row)
  {
    NormCellsBytes(row.value, tail);
    NormIsStable(row.value);
  }

  lemma {:induction false} NormRowsBytes(rows: Rows, tail: Data)
    requires ValidRows(rows)
    ensures ValidRows(NormRows(rows)) && Normal(NormRows(rows)) && PutRows(NormRows(rows), tail) == PutRows(rows, tail)
    ensures SupportedRows(rows) ==> SupportedRows(NormRows(rows))
  {
    forall i | 0 <= i < |rows|
      ensures ValidRow(NormRows(rows)[i]) && NormRow(NormRows(rows)[i]) == NormRows(rows)[i]
              && (Supported(rows[i].value) ==> Supported(NormRows(rows)[i].value))
    {
      NormRowBytes(rows[i], tail);
    }
    if rows != [] {
      NormRowsBytes(rows[1..], tail);
      assert NormRows(rows)[1..] == NormRows(rows[1..]);
      NormRowBytes(rows[0], PutRows(rows[1..], tail));
    }
  }

  // ----- the rows a sorter has ---------------------------------------------------------------

  ghost predicate ValidValues(v: Cells) { |v| < TWO_64 && forall i :: 0 <= i < |v| ==> ValidCell(v[i]) }

  ghost predicate ValidAdded(added: seq<Cells>) {
    |added| < TWO_64 && forall i :: 0 <= i < |added| ==> ValidValues(added[i])
  }

  predicate IsTail(added: seq<Cells>, batch: Rows) {
    |batch| <= |added| && batch == Rank(added)[|added| - |batch|..]
  }

  /** The rows that are not in the batch any more. */
  function Earlier(added: seq<Cells>, batch: Rows): Rows
    requires |batch| <= |added|
  {
    Rank(added)[..|added| - |batch|]
  }

  /** The latest rows are in the batch, in the order they came; the runs hold the earlier ones, sorted. */
  ghost predicate Intact(cmp: (Cells, Cells) -> int, added: seq<Cells>, batch: Rows, runs: seq<Data>, rowsOf: seq<Rows>)
  {
    && Comparable(cmp) && ValidAdded(added) && IsTail(added, batch)
    && RunsHold(cmp, runs, rowsOf)
    && Total(rowsOf) == multiset(NormRows(Earlier(added, batch)))
    && (runs == [] ==> |batch| == |added|)
  }

  lemma {:induction false} DistinctFromSeq(s: Rows)
    requires DistinctOrdinals(s)
    ensures Distinct(multiset(s))
  {
    if s != [] {
      var tail := s[1..];
      forall i, j | 0 <= i < j < |tail| ensures tail[i].ordinal != tail[j].ordinal {
        assert tail[i] == s[i + 1] && tail[j] == s[j + 1];
      }
      DistinctFromSeq(tail);
      TailMultiset(s);
      forall a | a in tail ensures a.ordinal != s[0].ordinal {
        var i :| 0 <= i < |tail| && tail[i] == a;
        assert s[0].ordinal != s[i + 1].ordinal;
      }
      DistinctCons(s[0], multiset(tail), multiset(s));
    }
  }

  lemma DistinctCons(x: Ranked<Cells>, m: multiset<Ranked<Cells>>, all: multiset<Ranked<Cells>>)
    requires Distinct(m) && m == all - multiset{x} && x in all
    requires forall a :: a in m ==> a.ordinal != x.ordinal
    ensures Distinct(all)
  {
    assert x !in m;
    forall a ensures Once(all, a) { assert Once(m, a) && all[a] == m[a] + if a == x then 1 else 0; }
    forall a, b ensures Apart(all, a, b) { assert Apart(m, a, b); }
  }

  lemma TailDistinct(added: seq<Cells>, batch: Rows)
    requires IsTail(added, batch)
    ensures DistinctOrdinals(batch)
  {
    forall i | 0 <= i < |batch| ensures batch[i].ordinal == |added| - |batch| + i {}
  }

  lemma EarlierDistinct(added: seq<Cells>, batch: Rows)
    requires |batch| <= |added|
    ensures DistinctOrdinals(NormRows(Earlier(added, batch)))
  {
    var rows := NormRows(Earlier(added, batch));
    forall i | 0 <= i < |rows| ensures rows[i].ordinal == i {}
  }

  lemma RunsDistinct(cmp: (Cells, Cells) -> int, added: seq<Cells>, batch: Rows, runs: seq<Data>, rowsOf: seq<Rows>)
    requires Intact(cmp, added, batch, runs, rowsOf)
    ensures Distinct(Total(rowsOf))
  {
    EarlierDistinct(added, batch);
    DistinctFromSeq(NormRows(Earlier(added, batch)));
  }

  lemma TailGrows(added: seq<Cells>, batch: Rows, v: Cells)
    requires IsTail(added, batch)
    ensures var more := batch + [Ranked(v, |added|)];
            IsTail(added + [v], more) && Earlier(added + [v], more) == Earlier(added, batch)
  {
    var m := |added| - |batch|;
    var ranked := Rank(added + [v]);
    assert ranked[..m] == Rank(added)[..m];
    assert ranked[m..] == Rank(added)[m..] + [Ranked(v, |added|)];
  }

  /** Adding a row extends the batch and nothing else. */
  lemma AddIntact(cmp: (Cells, Cells) -> int, added: seq<Cells>, batch: Rows, runs: seq<Data>, rowsOf: seq<Rows>,
                  v: Cells)
    requires Intact(cmp, added, batch, runs, rowsOf) && ValidValues(v) && |added| + 1 < TWO_64
    ensures Intact(cmp, added + [v], batch + [Ranked(v, |added|)], runs, rowsOf)
  {
    TailGrows(added, batch, v);
  }

  lemma BatchValid(cmp: (Cells, Cells) -> int, added: seq<Cells>, batch: Rows)
    requires TotalPreorder(cmp) && ValidAdded(added) && IsTail(added, batch)
    ensures ValidRows(Sorted(cmp, batch)) && StrictlySorted(cmp, Sorted(cmp, batch))
    ensures forall r :: r in Sorted(cmp, batch) ==> r.value in added
  {
    TailDistinct(added, batch);
    SortedIsStrict(cmp, batch);
    forall i | 0 <= i < |batch| ensures ValidRow(batch[i]) && batch[i].value in added {
      assert batch[i] == Ranked(added[|added| - |batch| + i], |added| - |batch| + i);
    }
    forall i | 0 <= i < |batch| ensures ValidRow(Sorted(cmp, batch)[i]) && Sorted(cmp, batch)[i].value in added {
      SortedElement(cmp, batch, i);
    }
  }

  lemma SortedElement(cmp: (Cells, Cells) -> int, batch: Rows, i: nat)
    requires i < |batch|
    ensures Sorted(cmp, batch)[i] in batch
  {
    assert Sorted(cmp, batch)[i] in multiset(Sorted(cmp, batch));
  }

  lemma NewRunHolds(cmp: (Cells, Cells) -> int, sorted: Rows)
    requires Comparable(cmp) && ValidRows(sorted) && SupportedRows(sorted) && StrictlySorted(cmp, sorted)
    ensures RunHolds(cmp, PutRows(sorted, []), NormRows(sorted))
  {
    NormRowsBytes(sorted, []);
    forall i, j | 0 <= i < j < |sorted| ensures Before(cmp, NormRows(sorted)[i], NormRows(sorted)[j]) {
      NormBefore(cmp, sorted[i], sorted[j]);
    }
  }

  lemma Rejoined(added: seq<Cells>, batch: Rows)
    requires IsTail(added, batch)
    ensures Earlier(added, []) == Earlier(added, batch) + batch
  {
    var ranked, m := Rank(added), |added| - |batch|;
    assert ranked[..|added|] == ranked == ranked[..m] + ranked[m..];
  }

  lemma SortedSameRows(cmp: (Cells, Cells) -> int, batch: Rows)
    requires Comparable(cmp)
    ensures multiset(NormRows(Sorted(cmp, batch))) == multiset(NormRows(batch))
  {
    SortedNorm(cmp, batch);
  }

  lemma NormJoinRows(a: Rows, b: Rows)
    ensures multiset(NormRows(a + b)) == multiset(NormRows(a)) + multiset(NormRows(b))
  {
    NormJoin(a, b);
  }

  lemma BatchJoins(cmp: (Cells, Cells) -> int, added: seq<Cells>, batch: Rows)
    requires Comparable(cmp) && IsTail(added, batch)
    ensures multiset(NormRows(Earlier(added, batch))) + multiset(NormRows(Sorted(cmp, batch)))
            == multiset(NormRows(Earlier(added, [])))
  {
    SortedSameRows(cmp, batch);
    Rejoined(added, batch);
    NormJoinRows(Earlier(added, batch), batch);
  }

  lemma RunAdded(cmp: (Cells, Cells) -> int, runs: seq<Data>, rowsOf: seq<Rows>, file: Data, rows: Rows)
    requires RunsHold(cmp, runs, rowsOf) && RunHolds(cmp, file, rows)
    ensures RunsHold(cmp, runs + [file], rowsOf + [rows])
    ensures Total(rowsOf + [rows]) == Total(rowsOf) + multiset(rows)
  {
    TotalAppend(rowsOf, [rows]);
    TotalOne(rows);
  }

  /** Writing the sorted batch as a new run leaves every added row in the runs. */
  lemma FlushIntact(cmp: (Cells, Cells) -> int, added: seq<Cells>, batch: Rows, runs: seq<Data>, rowsOf: seq<Rows>)
    requires Intact(cmp, added, batch, runs, rowsOf)
    requires ValidRows(Sorted(cmp, batch)) && SupportedRows(Sorted(cmp, batch))
    ensures Intact(cmp, added, [], runs + [PutRows(Sorted(cmp, batch), [])], rowsOf + [NormRows(Sorted(cmp, batch))])
  {
    BatchValid(cmp, added, batch);
    NewRunHolds(cmp, Sorted(cmp, batch));
    BatchJoins(cmp, added, batch);
    NewRunIntact(cmp, added, batch, runs, rowsOf, PutRows(Sorted(cmp, batch), []), NormRows(Sorted(cmp, batch)));
  }

  lemma NewRunIntact(cmp: (Cells, Cells) -> int, added: seq<Cells>, batch: Rows, runs: seq<Data>, rowsOf: seq<Rows>,
                     file: Data, rows: Rows)
    requires Intact(cmp, added, batch, runs, rowsOf) && RunHolds(cmp, file, rows)
    requires multiset(NormRows(Earlier(added, batch))) + multiset(rows) == multiset(NormRows(Earlier(added, [])))
    ensures Intact(cmp, added, [], runs + [file], rowsOf + [rows])
  {
    RunAdded(cmp, runs, rowsOf, file, rows);
  }

  // ----- writing runs ------------------------------------------------------------------------

  lemma {:induction false} RowsSnoc(rows: Rows, row: Ranked<Cells>, tail: Data)
    requires ValidRows(rows) && ValidRow(row)
    ensures ValidRows(rows + [row]) && PutRows(rows + [row], tail) == PutRows(rows, PutRow(row, tail))
  {
    if rows == [] {
      assert rows + [row] == [row] && [row][1..] == [];
    } else {
      RowsSnoc(rows[1..], row, tail);
      assert (rows + [row])[1..] == rows[1..] + [row];
    }
  }

  lemma RowAppend(row: Ranked<Cells>, tail: Data)
    requires ValidRow(row)
    ensures PutRow(row, tail) == PutRow(row, []) + tail
  {
    CellsAppend(row.value, tail);
    var body := PutCells(row.value, []);
    Regroup(LittleEndian(|row.value|, 8), body, tail);
    Regroup(LittleEndian(row.ordinal, 8), PutUint(|row.value|, body), tail);
  }

  lemma {:induction false} RowsAppend(rows: Rows, tail: Data)
    requires ValidRows(rows)
    ensures PutRows(rows, tail) == PutRows(rows, []) + tail
  {
    if rows != [] {
      var rest := PutRows(rows[1..], []);
      RowsAppend(rows[1..], tail);
      RowAppend(rows[0], rest + tail);
      RowAppend(rows[0], rest);
      Regroup(PutRow(rows[0], []), rest, tail);
    }
  }

  lemma RowsAppendOne(rows: Rows, row: Ranked<Cells>)
    requires ValidRows(rows) && ValidRow(row)
    ensures ValidRows(rows + [row]) && PutRows(rows + [row], []) == PutRows(rows, []) + PutRow(row, [])
  {
    RowsSnoc(rows, row, []);
    RowsAppend(rows, PutRow(row, []));
  }

  /** The bytes of rows written one after the other, up to the first that cannot be written. */
  method EncodeRows(rows: Rows) returns (content: Data, ok: bool)
    requires ValidRows(rows)
    ensures ok <==> SupportedRows(rows)
    ensures ok ==> content == PutRows(rows, [])
    ensures |content| <= |PutRows(rows, [])|
  {
    content := [];
    for i := 0 to |rows|
      invariant SupportedRows(rows[..i]) && ValidRows(rows[..i])
      invariant content == PutRows(rows[..i], [])
    {
      var record := WriteSortRow(rows[i]);
      if record.Err? {
        FirstRowsBytes(rows, i);
        return content, false;
      }
      RowsAppendOne(rows[..i], rows[i]);
      assert rows[..i + 1] == rows[..i] + [rows[i]];
      content := content + record.value;
    }
    assert rows[..|rows|] == rows;
    ok := true;
  }

  lemma FirstRowsBytes(rows: Rows, i: nat)
    requires ValidRows(rows) && i <= |rows|
    ensures ValidRows(rows[..i]) && |PutRows(rows[..i], [])| <= |PutRows(rows, [])|
  {
    WeighRows(rows);
    WeighRows(rows[..i]);
    WeighRows(rows[i..]);
    assert rows == rows[..i] + rows[i..];
    WeighJoin(multiset(rows[..i]), multiset(rows[i..]));
  }

  /** The bytes of one row in a run file. */
  ghost function Weight(row: Ranked<Cells>): nat { if ValidRow(row) then |PutRow(row, [])| else 0 }

  ghost function AnyOf(m: multiset<Ranked<Cells>>): (row: Ranked<Cells>)
    requires m != multiset{}
    ensures row in m
  {
    var row :| row in m; row
  }

  ghost function Weigh(m: multiset<Ranked<Cells>>): nat
    decreases |m|
  {
    if m == multiset{} then 0 else Weight(AnyOf(m)) + Weigh(m - multiset{AnyOf(m)})
  }

  lemma {:induction false} WeighOne(m: multiset<Ranked<Cells>>, row: Ranked<Cells>)
    requires row in m
    ensures Weigh(m) == Weight(row) + Weigh(m - multiset{row})
    decreases |m|
  {
    var x := AnyOf(m);
    if x != row {
      WeighOne(m - multiset{x}, row);
      WeighOne(m - multiset{row}, x);
      assert m - multiset{x} - multiset{row} == m - multiset{row} - multiset{x};
    }
  }

  lemma {:induction false} WeighJoin(a: multiset<Ranked<Cells>>, b: multiset<Ranked<Cells>>)
    ensures Weigh(a + b) == Weigh(a) + Weigh(b)
    decreases |a|
  {
    if a == multiset{} {
      assert a + b == b;
    } else {
      var x := AnyOf(a);
      WeighJoin(a - multiset{x}, b);
      WeighOne(a + b, x);
      assert a + b - multiset{x} == (a - multiset{x}) + b;
    }
  }

  lemma {:induction false} WeighRows(rows: Rows)
    requires ValidRows(rows)
    ensures Weigh(multiset(rows)) == |PutRows(rows, [])|
  {
    if rows != [] {
      WeighRows(rows[1..]);
      RowAppend(rows[0], PutRows(rows[1..], []));
      TailMultiset(rows);
      WeighOne(multiset(rows), rows[0]);
    }
  }

  lemma {:induction false} WeighRuns(cmp: (Cells, Cells) -> int, files: seq<Data>, rows: seq<Rows>)
    requires RunsHold(cmp, files, rows)
    ensures Weigh(Total(rows)) == FileBytes(files)
  {
    if files != [] {
      assert RunHolds(cmp, files[0], rows[0]);
      GroupHolds(cmp, files, rows, 1, |rows|);
      assert files[1..|rows|] == files[1..] && rows[1..|rows|] == rows[1..];
      WeighRuns(cmp, files[1..], rows[1..]);
      WeighRows(rows[0]);
      WeighJoin(multiset(rows[0]), Total(rows[1..]));
    }
  }

  /** The bytes of one run file that holds every added row. */
  ghost function RunBytes(added: seq<Cells>): nat
    requires ValidAdded(added)
  {
    assert forall i :: 0 <= i < |added| ==> Rank(added)[i] == Ranked(added[i], i) && ValidValues(added[i]);
    |PutRows(Rank(added), [])|
  }

  /** The live runs and a run of the batch together have as many bytes as one run of everything. */
  lemma BytesOfAll(cmp: (Cells, Cells) -> int, added: seq<Cells>, batch: Rows, runs: seq<Data>, rowsOf: seq<Rows>)
    requires Intact(cmp, added, batch, runs, rowsOf) && ValidRows(Sorted(cmp, batch))
    ensures FileBytes(runs) + |PutRows(Sorted(cmp, batch), [])| == RunBytes(added)
  {
    var sorted, all := Sorted(cmp, batch), Rank(added);
    assert Earlier(added, []) == all;
    forall i | 0 <= i < |all| ensures ValidRow(all[i]) { assert ValidValues(added[i]); }
    WeighRuns(cmp, runs, rowsOf);
    NormRowsBytes(sorted, []);
    NormRowsBytes(all, []);
    WeighRows(NormRows(sorted));
    WeighRows(NormRows(all));
    BatchJoins(cmp, added, batch);
    WeighJoin(Total(rowsOf), multiset(NormRows(sorted)));
  }

  lemma RunsWithinAll(cmp: (Cells, Cells) -> int, added: seq<Cells>, batch: Rows, runs: seq<Data>, rowsOf: seq<Rows>)
    requires Intact(cmp, added, batch, runs, rowsOf)
    ensures FileBytes(runs) <= RunBytes(added)
  {
    SortedBatchValid(cmp, added, batch);
    BytesOfAll(cmp, added, batch, runs, rowsOf);
  }

  /** Merging all rows of some runs writes as many bytes as the runs have; merging a part of them writes no more. */
  lemma MergedBytes(cmp: (Cells, Cells) -> int, files: seq<Data>, rows: seq<Rows>, out: Rows,
                    left: multiset<Ranked<Cells>>)
    requires RunsHold(cmp, files, rows) && ValidRows(out) && multiset(out) + left == Total(rows)
    ensures |PutRows(out, [])| + Weigh(left) == FileBytes(files)
    ensures left == multiset{} ==> |PutRows(out, [])| == FileBytes(files)
  {
    WeighRows(out);
    WeighRuns(cmp, files, rows);
    WeighJoin(multiset(out), left);
  }

  function FileBytes(files: seq<Data>): nat { if files == [] then 0 else |files[0]| + FileBytes(files[1..]) }

  lemma {:induction false} FileBytesAppend(a: seq<Data>, b: seq<Data>)
    ensures FileBytes(a + b) == FileBytes(a) + FileBytes(b)
  {
    if a == [] {
      assert a + b == b;
    } else {
      FileBytesAppend(a[1..], b);
      assert (a + b)[1..] == a[1..] + b;
    }
  }

  // ----- the sorter --------------------------------------------------------------------------

  datatype SortError =
    | ClosedSorter
    | RowTooWide
    | MemoryExhausted
    | TemporaryExceeded
    | UnsupportedValue
    | RunUnreadable

  /** newExternalRowSorter: the memory of a sorter, refused below 64 KiB. */
  function SorterMemory(configured: int, pool: Option<int>): Option<int> {
    var memory := if pool.Some? then pool.value else if configured > 0 then configured else 0x40_0000;
    if memory < 0x1_0000 then None else Some(memory)
  }

  /** queryRowBytes: the retained size of a row. */
  function CellBytes(c: Cell): nat { if c.Time? then 32 else CellLoad(c) }

  function RetainedCells(cells: Cells): nat {
    if cells == [] then 0 else CellBytes(cells[0]) + RetainedCells(cells[1..])
  }

  function RetainedBytes(cells: Cells): nat { 48 + 24 * |cells| + RetainedCells(cells) }

  /** The memory charged for a row covers its header, a slot for each value and everything its reader will count. */
  lemma {:induction false} RetainedCovers(cells: Cells)
    requires ValidValues(cells)
    ensures RetainedBytes(cells) >= 48 + 24 * |cells| + Load(cells)
    ensures (forall c :: c in cells ==> !c.Time?) ==> RetainedBytes(cells) == 48 + 24 * |cells| + Load(cells)
  {
    if cells != [] { RetainedCovers(cells[1..]); }
  }

  lemma {:induction false} ReadableTotal(rows: seq<Rows>, r: Ranked<Cells>, cmp: (Cells, Cells) -> int,
                                         files: seq<Data>)
    requires RunsHold(cmp, files, rows) && r in Total(rows)
    ensures ValidRow(r) && Supported(r.value) && NormRow(r) == r
  {
    TotalMember(rows, r);
    var i :| 0 <= i < |rows| && r in rows[i];
    assert RunHolds(cmp, files[i], rows[i]);
  }

  /** A row in the runs that cannot be read is an added row that cannot be read. */
  lemma BadRowWasAdded(cmp: (Cells, Cells) -> int, added: seq<Cells>, batch: Rows, runs: seq<Data>, rowsOf: seq<Rows>,
                       r: Ranked<Cells>, limit: int)
    requires Intact(cmp, added, batch, runs, rowsOf) && r in Total(rowsOf) && !Readable(r.value, limit)
    ensures exists v :: v in added && !Readable(v, limit)
  {
    var rows := NormRows(Earlier(added, batch));
    assert r in rows;
    var i :| 0 <= i < |rows| && rows[i] == r;
    NormLoad(added[i]);
    assert added[i] in added;
  }

  lemma SortedBatchValid(cmp: (Cells, Cells) -> int, added: seq<Cells>, batch: Rows)
    requires TotalPreorder(cmp) && ValidAdded(added) && IsTail(added, batch)
    ensures ValidRows(Sorted(cmp, batch))
  {
    BatchValid(cmp, added, batch);
  }

  lemma UnsupportedWasAdded(cmp: (Cells, Cells) -> int, added: seq<Cells>, batch: Rows)
    requires TotalPreorder(cmp) && ValidAdded(added) && IsTail(added, batch) && !SupportedRows(Sorted(cmp, batch))
    ensures exists v :: v in added && !Supported(v)
  {
    BatchValid(cmp, added, batch);
    var i :| 0 <= i < |Sorted(cmp, batch)| && !Supported(Sorted(cmp, batch)[i].value);
    assert Sorted(cmp, batch)[i].value in added;
  }

  /** With an empty batch the runs hold every added row. */
  lemma RunsHoldAll(cmp: (Cells, Cells) -> int, added: seq<Cells>, runs: seq<Data>, rowsOf: seq<Rows>, i: nat)
    requires Intact(cmp, added, [], runs, rowsOf) && i < |added|
    ensures Ranked(NormCells(added[i]), i) in Total(rowsOf)
    ensures Supported(added[i])
  {
    var rows := NormRows(Earlier(added, []));
    assert rows[i] == Ranked(NormCells(added[i]), i);
    assert rows[i] in multiset(rows);
    ReadableTotal(rowsOf, rows[i], cmp, runs);
    assert forall k :: 0 <= k < |added[i]| ==> NormCells(added[i])[k] == Norm(added[i][k]);
  }

  lemma ReadAll(cmp: (Cells, Cells) -> int, added: seq<Cells>, runs: seq<Data>, rowsOf: seq<Rows>, limit: int)
    requires Intact(cmp, added, [], runs, rowsOf) && forall r :: r in Total(rowsOf) ==> Readable(r.value, limit)
    ensures forall v :: v in added ==> Supported(v) && Readable(v, limit)
  {
    forall v | v in added ensures Supported(v) && Readable(v, limit) {
      var i :| 0 <= i < |added| && added[i] == v;
      RunsHoldAll(cmp, added, runs, rowsOf, i);
      NormLoad(v);
    }
  }

  /** What the final merge yields is the stable sort, or the beginning of it when the merge stops early. */
  lemma MergeMeaning(cmp: (Cells, Cells) -> int, added: seq<Cells>, runs: seq<Data>, rowsOf: seq<Rows>, out: Rows,
                     left: multiset<Ranked<Cells>>)
    requires Intact(cmp, added, [], runs, rowsOf) && Progress(cmp, out, left, Total(rowsOf))
    ensures Values(out) <= NormAll(StableSort(cmp, added))
    ensures left == multiset{} ==> Values(out) == NormAll(StableSort(cmp, added))
  {
    var source := Rank(NormAll(added));
    assert NormRows(Earlier(added, [])) == source;
    RankDistinct(NormAll(added));
    SortedIsStrict(cmp, source);
    PrefixOfSorted(cmp, out, left, Sorted(cmp, source));
    SpillKeepsOrder(cmp, added);
    if left == multiset{} { assert |multiset(out)| == |out| && |multiset(source)| == |source|; }
  }

  lemma WholeBatch(cmp: (Cells, Cells) -> int, added: seq<Cells>, batch: Rows)
    requires IsTail(added, batch) && |batch| == |added|
    ensures Values(Sorted(cmp, batch)) == StableSort(cmp, added)
  {
    assert Rank(added)[0..] == Rank(added);
  }

  predicate PlainRows(values: seq<Cells>) { forall i :: 0 <= i < |values| ==> PlainCells(values[i]) }

  predicate KeptRows(a: seq<Cells>, b: seq<Cells>) { |a| == |b| && forall i :: 0 <= i < |a| ==> KeptCells(a[i], b[i]) }

  /** Going through run files keeps the content of every value, and plain rows altogether. */
  lemma SpillKeepsContent(cmp: (Cells, Cells) -> int, added: seq<Cells>)
    requires TotalPreorder(cmp)
    ensures KeptRows(StableSort(cmp, added), NormAll(StableSort(cmp, added)))
    ensures PlainRows(added) ==> NormAll(StableSort(cmp, added)) == StableSort(cmp, added)
  {
    var sorted := StableSort(cmp, added);
    var from := StableSortMeaning(cmp, added);
    forall i | 0 <= i < |sorted|
      ensures KeptCells(sorted[i], NormAll(sorted)[i]) && (PlainRows(added) ==> NormAll(sorted)[i] == sorted[i])
    {
      NormKeeps(sorted[i]);
      assert sorted[i] == added[from[i]];
    }
  }

  function Groups(n: nat): nat { (n + 7) / 8 }

  /** Compaction leaves at least one run of one, and fewer runs of several. */
  lemma GroupsShrink(n: nat)
    ensures n >= 1 ==> Groups(n) >= 1
    ensures n >= 2 ==> Groups(n) < n
  {
  }

  function GroupEnd(i: nat, n: nat): nat { if i + 8 > n then n else i + 8 }

  lemma GroupsStep(i: nat, n: nat)
    requires i < n && i % 8 == 0
    ensures var end := GroupEnd(i, n);
            i < end <= n && (end % 8 == 0 || end == n) && Groups(end) == Groups(i) + 1
  {
  }

  /** A compaction that has replaced the first i runs. */
  ghost predicate Compacting(cmp: (Cells, Cells) -> int, files: seq<Data>, rows: seq<Rows>, i: nat, merged: seq<Data>,
                             mergedRows: seq<Rows>)
    requires i <= |rows|
  {
    RunsHold(cmp, merged, mergedRows) && Total(mergedRows) + Total(rows[i..]) == Total(rows)
  }

  lemma CompactStart(cmp: (Cells, Cells) -> int, files: seq<Data>, rows: seq<Rows>)
    ensures Compacting(cmp, files, rows, 0, [], []) && files[0..] == files
  {
    assert rows[0..] == rows;
  }

  lemma TotalSplit(rows: seq<Rows>, i: nat, j: nat)
    requires i <= j <= |rows|
    ensures Total(rows[i..]) == Total(rows[i..j]) + Total(rows[j..])
  {
    assert rows[i..] == rows[i..j] + rows[j..];
    TotalAppend(rows[i..j], rows[j..]);
  }

  lemma FileSplit(files: seq<Data>, i: nat, j: nat)
    requires i <= j <= |files|
    ensures FileBytes(files[i..]) == FileBytes(files[i..j]) + FileBytes(files[j..])
  {
    assert files[i..] == files[i..j] + files[j..];
    FileBytesAppend(files[i..j], files[j..]);
  }

  lemma TotalPart(rows: seq<Rows>, i: nat, j: nat)
    requires i <= j <= |rows|
    ensures Total(rows[i..j]) <= Total(rows)
  {
    TotalSplit(rows, 0, i);
    assert rows[0..] == rows;
    TotalSplit(rows, i, j);
  }

  lemma GroupHolds(cmp: (Cells, Cells) -> int, files: seq<Data>, rows: seq<Rows>, i: nat, end: nat)
    requires RunsHold(cmp, files, rows) && i <= end <= |rows|
    ensures RunsHold(cmp, files[i..end], rows[i..end])
  {
    var f, r := files[i..end], rows[i..end];
    forall k | 0 <= k < |r| ensures RunHolds(cmp, f[k], r[k]) {
      assert f[k] == files[i + k] && r[k] == rows[i + k];
    }
  }

  lemma GroupDistinct(rows: seq<Rows>, i: nat, end: nat)
    requires i <= end <= |rows| && Distinct(Total(rows))
    ensures Distinct(Total(rows[i..end]))
  {
    TotalPart(rows, i, end);
    DistinctSub(Total(rows), Total(rows[i..end]));
  }

  lemma CompactStep(cmp: (Cells, Cells) -> int, files: seq<Data>, rows: seq<Rows>, i: nat, end: nat, merged: seq<Data>,
                    mergedRows: seq<Rows>,
                    data: Data, group: Rows)
    requires i <= end <= |rows| && Compacting(cmp, files, rows, i, merged, mergedRows)
    requires RunHolds(cmp, data, group) && multiset(group) == Total(rows[i..end])
    ensures Compacting(cmp, files, rows, end, merged + [data], mergedRows + [group])
  {
    RunAdded(cmp, merged, mergedRows, data, group);
    TotalSplit(rows, i, end);
    RegroupSum(Total(mergedRows), multiset(group), Total(rows[end..]));
  }

  lemma CompactBytes(files: seq<Data>, i: nat, end: nat, merged: seq<Data>, data: Data)
    requires i <= end <= |files|
    ensures FileBytes(merged + [data]) == FileBytes(merged) + |data|
    ensures FileBytes(files[i..]) == FileBytes(files[i..end]) + FileBytes(files[end..])
  {
    FileBytesAppend(merged, [data]);
    assert FileBytes([data]) == |data|;
    FileSplit(files, i, end);
  }

  lemma CompactIntact(cmp: (Cells, Cells) -> int, added: seq<Cells>, batch: Rows, runs: seq<Data>, rowsOf: seq<Rows>,
                      merged: seq<Data>, mergedRows: seq<Rows>)
    requires Intact(cmp, added, batch, runs, rowsOf) && RunsHold(cmp, merged, mergedRows)
    requires Total(mergedRows) == Total(rowsOf) && |merged| == Groups(|runs|)
    ensures Intact(cmp, added, batch, merged, mergedRows)
  {
    GroupsShrink(|runs|);
  }

  /**
   externalRowSorter. A live file is its content: the listed runs, and the strays, which failed writes and failed
   compactions leave behind until the sorter is closed.
   */
  class Sorter {
    const cmp: (Cells, Cells) -> int
    const memory: int
    const budget: SorterBudget?
    const temporary: TemporaryBudget?
    var held: int
    var released: bool
    var batchBytes: int
    var next: nat
    var batch: Rows
    var runs: seq<Data>
    var strays: seq<Data>
    var tempBytes: int
    var closed: bool
    ghost var added: seq<Cells>
    ghost var rowsOf: seq<Rows>
    ghost var failed: bool

    constructor (order: (Cells, Cells) -> int, size: int, pool: SorterBudget?, files: TemporaryBudget?)
      requires Comparable(order) && size >= 0x1_0000
      requires pool != null ==> pool.total == size && 0 <= pool.used <= pool.total
      ensures cmp == order && memory == size && budget == pool && temporary == files
      ensures Valid() && added == [] && batch == [] && runs == [] && held == 0 && tempBytes == 0
    {
      cmp, memory, budget, temporary := order, size, pool, files;
      held, released, batchBytes, next, batch, runs, strays, tempBytes, closed := 0, false, 0, 0, [], [], [], 0, false;
      added, rowsOf, failed := [], [], false;
    }

    /** rowLimit. */
    function Limit(): int {
      var own := memory / 16;
      var limit := if budget != null && budget.total / 16 < own then budget.total / 16 else own;
      if limit < 1 then 1 else limit
    }

    /** The limit merge reads a head under. */
    function HeadLimit(): int { if Limit() < memory / 8 then Limit() else memory / 8 }

    /** A row may take a sixteenth of the memory, at least 4 KiB, and merge reads heads under the same limit. */
    lemma RowLimits()
      requires OwnMemory()
      ensures 16 * Limit() <= memory < 16 * (Limit() + 1) && Limit() >= 4096 && HeadLimit() == Limit()
    {
    }

    /** The batch is what the shared pool was charged for. */
    ghost predicate OwnMemory()
      reads this`held, this`batchBytes
    {
      && memory >= 0x1_0000 && held >= 0 && (budget == null ==> held == 0)
      && (budget != null ==> budget.total == memory && held == batchBytes)
    }

    /** The shared pool includes what this sorter holds, and is not overdrawn. */
    ghost predicate PoolCovers()
      reads this`held, budget
    {
      budget != null ==> held <= budget.used <= budget.total
    }

    ghost predicate MemoryAccounted()
      reads this`held, this`batchBytes, budget
    {
      OwnMemory() && PoolCovers()
    }

    /** The bytes in live files. */
    ghost function LiveBytes(): nat
      reads this`runs, this`strays
    {
      FileBytes(runs) + FileBytes(strays)
    }

    /** The temporary bytes are the live files. */
    ghost predicate FilesAccounted()
      reads this`tempBytes, this`runs, this`strays
    {
      tempBytes == LiveBytes()
    }

    /** Everything a sorter that can still be used knows about itself. */
    ghost predicate Usable()
      reads this
    {
      && OwnMemory() && FilesAccounted() && !closed && !released && !failed && strays == [] && next == |added|
      && Intact(cmp, added, batch, runs, rowsOf)
      && (|batch| <= 1 || batchBytes <= memory / 2) && batchBytes >= 0 && (batch == [] <==> batchBytes == 0)
    }

    ghost predicate Valid()
      reads this, budget
    {
      Usable() && PoolCovers()
    }

    /** What the other sorters of the statement hold of the shared memory. */
    ghost function MemoryOfOthers(): int
      reads this`held, budget
    {
      if budget == null then 0 else budget.used - held
    }

    /** The temporary bytes of the query that belong to others. */
    ghost function FilesOfOthers(): int
      reads this`tempBytes, temporary
    {
      if temporary == null then 0 else temporary.used - tempBytes
    }

    /** The temporary budget has room for n more bytes. */
    ghost predicate Room(n: nat)
      reads temporary
    {
      temporary == null || temporary.limit <= 0 || temporary.used + n <= temporary.limit
    }

    /** A step on files leaves the bytes of other sorters alone and does not take the query over its limit. */
    twostate predicate FilesOfOthersKept()
      reads this, temporary
    {
      FilesOfOthers() == old(FilesOfOthers()) && (old(Room(0)) ==> Room(0))
    }

    /** A step leaves the other sorters' shares of both budgets alone and the query within its limit. */
    twostate predicate OthersKept()
      reads this, budget, temporary
    {
      MemoryOfOthers() == old(MemoryOfOthers()) && FilesOfOthersKept()
    }

    /** Why spilling, compacting or merging may fail; other errors never come from there. */
    ghost predicate Explained(e: SortError)
      reads this, temporary
    {
      match e
      case UnsupportedValue => exists v :: v in added && !Supported(v)
      case RunUnreadable => exists v :: v in added && !Readable(v, HeadLimit())
      case TemporaryExceeded =>
        temporary != null && ValidAdded(added) && 0 < temporary.limit < FilesOfOthers() + 2 * RunBytes(added)
      case _ => false
    }

    /**
     sortRunWriter behind its buffer: the content in pieces of any size, all of it when `all`. However it is cut, the
     whole content is written if and only if the temporary budget has room for it.
     */
    method WriteBytes(content: Data, all: bool) returns (ok: bool, n: nat)
      modifies this`tempBytes, temporary
      ensures n <= |content| && (ok && all ==> n == |content|)
      ensures tempBytes == old(tempBytes) + n && FilesOfOthersKept()
      ensures !ok ==> !old(Room(|content|))
      ensures all && old(Room(0)) ==> (ok <==> old(Room(|content|)))
    {
      n, ok := 0, true;
      while n < |content|
        invariant n <= |content| && ok
        invariant tempBytes == old(tempBytes) + n && FilesOfOthersKept()
        decreases |content| - n
      {
        if !all {
          if * { break; }
        }
        var size :| 1 <= size <= |content| - n;
        if temporary != null {
          ok := temporary.Reserve(size);
          if !ok { return; }
        }
        tempBytes := tempBytes + size;
        n := n + size;
      }
    }

    method WriteRun(rows: Rows, all: bool) returns (err: Option<SortError>, data: Data)
      requires ValidRows(rows)
      modifies this`tempBytes, temporary
      ensures err.None? && all ==> SupportedRows(rows) && data == PutRows(rows, [])
      ensures err.Some? ==> || (err.value == UnsupportedValue && !SupportedRows(rows))
                            || (err.value == TemporaryExceeded && !old(Room(|PutRows(rows, [])|)))
      ensures tempBytes == old(tempBytes) + |data|
      ensures FilesOfOthersKept()
    {
      var content, encoded := EncodeRows(rows);
      var ok, n := WriteBytes(content, all && encoded);
      data := content[..n];
      err := if !ok then Some(TemporaryExceeded) else if !encoded then Some(UnsupportedValue) else None;
    }

    method ReleaseBatch()
      requires MemoryAccounted()
      modifies this`held, this`batch, this`batchBytes, budget
      ensures MemoryAccounted() && MemoryOfOthers() == old(MemoryOfOthers())
      ensures held == 0 && batch == [] && batchBytes == 0
    {
      if budget != null && held > 0 { budget.Release(held); }
      held, batch, batchBytes := 0, [], 0;
    }

    /** One group of a compaction: the merge of its runs, written as a new run. */
    method MergeGroup(files: seq<Data>, ghost rows: seq<Rows>)
      returns (err: Option<SortError>, data: Data, ghost merged: Rows)
      requires TotalPreorder(cmp) && RunsHold(cmp, files, rows) && Distinct(Total(rows))
      modifies this`tempBytes, temporary
      ensures err.None? ==> RunHolds(cmp, data, merged) && multiset(merged) == Total(rows) && |data| == FileBytes(files)
      ensures err.Some? ==>
              || (err.value == RunUnreadable && exists r :: r in Total(rows) && !Readable(r.value, HeadLimit()))
                            || (err.value == TemporaryExceeded && !old(Room(FileBytes(files))))
      ensures tempBytes == old(tempBytes) + |data|
      ensures FilesOfOthersKept()
    {
      var out, ok;
      ghost var left;
      out, ok, left := Merge(cmp, files, HeadLimit(), rows);
      merged := out;
      forall i | 0 <= i < |out| ensures ValidRow(out[i]) && Supported(out[i].value) && NormRow(out[i]) == out[i] {
        assert out[i] in multiset(out);
        ReadableTotal(rows, out[i], cmp, files);
      }
      MergedBytes(cmp, files, rows, out, left);
      err, data := WriteRun(out, ok);
      if err.None? && !ok { err := Some(RunUnreadable); }
    }

    method RemoveRun(data: Data)
      modifies this`tempBytes, temporary
      ensures tempBytes == old(tempBytes) - |data|
      ensures FilesOfOthersKept()
    {
      if temporary != null { temporary.Release(|data|); }
      tempBytes := tempBytes - |data|;
    }

    method RemoveRuns(files: seq<Data>)
      modifies this`tempBytes, temporary
      ensures tempBytes == old(tempBytes) - FileBytes(files)
      ensures FilesOfOthersKept()
    {
      for i := 0 to |files|
        invariant tempBytes == old(tempBytes) - FileBytes(files[..i])
        invariant FilesOfOthersKept()
      {
        RemoveRun(files[i]);
        assert files[..i + 1] == files[..i] + [files[i]];
        FileBytesAppend(files[..i], [files[i]]);
      }
      assert files[..|files|] == files;
    }

    /** One group of compact: a lone run is kept, several are replaced by their merge. */
    method CompactGroup(group: seq<Data>, ghost rows: seq<Rows>)
      returns (err: Option<SortError>, data: Data, ghost merged: Rows)
      requires TotalPreorder(cmp) && RunsHold(cmp, group, rows) && Distinct(Total(rows)) && group != []
      modifies this`tempBytes, temporary
      ensures err.None? ==> RunHolds(cmp, data, merged) && multiset(merged) == Total(rows) && |data| == FileBytes(group)
      ensures err.Some? ==>
              || (err.value == RunUnreadable && exists r :: r in Total(rows) && !Readable(r.value, HeadLimit()))
                            || (err.value == TemporaryExceeded && !old(Room(FileBytes(group))))
      ensures tempBytes == old(tempBytes) + if err.None? then 0 else |data|
      ensures FilesOfOthersKept()
    {
      if |group| == 1 {
        assert rows == [rows[0]] && group == [group[0]];
        TotalOne(rows[0]);
        assert FileBytes(group) == |group[0]|;
        return None, group[0], rows[0];
      }
      err, data, merged := MergeGroup(group, rows);
      if err.None? { RemoveRuns(group); }
    }

    /**
     The loop of compact. After a failure in group i the live files are the merged runs, the rest and one torn file.
     */
    method CompactRuns(files: seq<Data>, ghost rows: seq<Rows>)
      returns (err: Option<SortError>, merged: seq<Data>, ghost mergedRows: seq<Rows>, i: nat, torn: Data,
        ghost bad: Ranked<Cells>)
      requires TotalPreorder(cmp) && RunsHold(cmp, files, rows) && Distinct(Total(rows))
      modifies this`tempBytes, temporary
      ensures i <= |files| && (err.None? ==> i == |files| && torn == [] && |merged| == Groups(|files|))
      ensures Compacting(cmp, files, rows, i, merged, mergedRows)
      ensures FileBytes(merged) + FileBytes(files[i..]) == FileBytes(files) && tempBytes == old(tempBytes) + |torn|
      ensures FilesOfOthersKept()
      ensures err.Some? ==> || (err.value == RunUnreadable && bad in Total(rows) && !Readable(bad.value, HeadLimit()))
                            || (err.value == TemporaryExceeded && !old(Room(FileBytes(files))))
    {
      merged, mergedRows, i, torn, bad := [], [], 0, [], Ranked([], 0);
      CompactStart(cmp, files, rows);
      while i < |files|
        invariant i <= |files| && (i % 8 == 0 || i == |files|) && |merged| == Groups(i)
        invariant Compacting(cmp, files, rows, i, merged, mergedRows)
        invariant FileBytes(merged) + FileBytes(files[i..]) == FileBytes(files) && tempBytes == old(tempBytes)
        invariant FilesOfOthersKept()
        decreases |files| - i
      {
        var end := GroupEnd(i, |files|);
        GroupsStep(i, |files|);
        GroupHolds(cmp, files, rows, i, end);
        GroupDistinct(rows, i, end);
        var data;
        ghost var group;
        err, data, group := CompactGroup(files[i..end], rows[i..end]);
        if err.Some? {
          FileSplit(files, i, end);
          torn := data;
          if err.value == RunUnreadable {
            bad :| bad in Total(rows[i..end]) && !Readable(bad.value, HeadLimit());
            TotalPart(rows, i, end);
          }
          return;
        }
        CompactStep(cmp, files, rows, i, end, merged, mergedRows, data, group);
        CompactBytes(files, i, end, merged, data);
        merged, mergedRows, i := merged + [data], mergedRows + [group], end;
      }
      err := None;
    }

    /** compact: the runs merged in groups of eight, each group's files removed once its merge is written. */
    method Compact() returns (err: Option<SortError>, ghost bad: Ranked<Cells>)
      requires TotalPreorder(cmp) && RunsHold(cmp, runs, rowsOf) && Distinct(Total(rowsOf)) && FilesAccounted()
      modifies this`runs, this`strays, this`tempBytes, this`rowsOf, this`failed, temporary
      ensures FilesAccounted() && FilesOfOthersKept()
      ensures err.None? ==> failed == old(failed) && strays == old(strays) && RunsHold(cmp, runs, rowsOf)
                            && Total(rowsOf) == old(Total(rowsOf)) && |runs| == Groups(|old(runs)|)
      ensures err.Some? ==> failed
      ensures err.Some? ==>
              || (err.value == RunUnreadable && bad in old(Total(rowsOf)) && !Readable(bad.value, HeadLimit()))
                            || (err.value == TemporaryExceeded && !old(Room(FileBytes(runs))))
    {
      var merged, i, torn;
      ghost var mergedRows;
      err, merged, mergedRows, i, torn, bad := CompactRuns(runs, rowsOf);
      if err.Some? {
        Abandon(merged, runs[i..], torn);
      } else {
        assert runs[|runs|..] == [] && rowsOf[|runs|..] == [];
        runs, rowsOf := merged, mergedRows;
      }
    }

    /** What a failed compaction leaves: every live file, no longer a usable set of runs. */
    method Abandon(merged: seq<Data>, rest: seq<Data>, data: Data)
      requires tempBytes == FileBytes(merged) + FileBytes(rest) + |data| + FileBytes(strays)
      modifies this`runs, this`strays, this`rowsOf, this`failed
      ensures FilesAccounted() && failed
    {
      FileBytesAppend(merged, rest);
      FileBytesAppend(strays, [data]);
      FileBytesAppend(strays + [data], merged + rest);
      runs, strays, rowsOf, failed := [], (strays + [data]) + (merged + rest), [], true;
    }

    /** A run file with these rows; a failed write leaves a stray file. */
    method AppendRun(rows: Rows) returns (err: Option<SortError>)
      requires ValidRows(rows) && FilesAccounted()
      modifies this`runs, this`strays, this`tempBytes, this`failed, temporary
      ensures FilesAccounted() && FilesOfOthersKept()
      ensures err.None? ==> SupportedRows(rows) && runs == old(runs) + [PutRows(rows, [])]
      ensures err.None? ==> failed == old(failed) && strays == old(strays)
      ensures err.Some? ==> failed && runs == old(runs)
      ensures err.Some? ==> || (err.value == UnsupportedValue && !SupportedRows(rows))
                            || (err.value == TemporaryExceeded && !old(Room(|PutRows(rows, [])|)))
    {
      var data;
      err, data := WriteRun(rows, true);
      if err.Some? {
        FileBytesAppend(strays, [data]);
        strays, failed := strays + [data], true;
      } else {
        FileBytesAppend(runs, [data]);
        runs := runs + [data];
      }
    }

    /** The sorted batch as one more run file. */
    method WriteBatch() returns (err: Option<SortError>, ghost rows: Rows)
      requires Usable()
      modifies this`runs, this`strays, this`tempBytes, this`failed, temporary
      ensures FilesAccounted() && FilesOfOthersKept()
      ensures err.None? ==> !failed && strays == [] && |runs| == |old(runs)| + 1
      ensures err.None? ==> Intact(cmp, added, [], runs, rowsOf + [rows])
      ensures err.Some? ==> failed && Explained(err.value)
    {
      var sorted := Sorted(cmp, batch);
      SortedBatchValid(cmp, added, batch);
      rows := NormRows(sorted);
      err := AppendRun(sorted);
      if err.None? {
        FlushIntact(cmp, added, batch, old(runs), rowsOf);
      } else if err.value == UnsupportedValue {
        UnsupportedWasAdded(cmp, added, batch);
      } else {
        BytesOfAll(cmp, added, batch, runs, rowsOf);
      }
    }

    /** flush, first half: the sorted batch becomes a run and its memory goes back to the pool. */
    method Spill() returns (err: Option<SortError>)
      requires Valid()
      modifies this`runs, this`strays, this`tempBytes, this`rowsOf, this`failed, this`held, this`batch,
               this`batchBytes, budget, temporary
      ensures MemoryAccounted() && FilesAccounted()
      ensures OthersKept()
      ensures err.None? ==> Valid() && batch == [] && |runs| == |old(runs)| + 1
      ensures err.Some? ==> failed && Explained(err.value)
    {
      ghost var rows;
      err, rows := WriteBatch();
      if err.None? { Settle(rows); }
    }

    /** The batch has been written: its rows now belong to the new run. */
    method Settle(ghost rows: Rows)
      requires MemoryAccounted() && FilesAccounted() && !closed && !released && !failed && strays == []
               && next == |added|
      requires Intact(cmp, added, [], runs, rowsOf + [rows])
      modifies this`rowsOf, this`held, this`batch, this`batchBytes, budget
      ensures Valid() && batch == [] && MemoryOfOthers() == old(MemoryOfOthers())
    {
      rowsOf := rowsOf + [rows];
      ReleaseBatch();
    }

    /** compact on the runs of a usable sorter: no row is lost, or there is a reason for the failure. */
    method CompactIntactRuns() returns (err: Option<SortError>)
      requires Usable()
      modifies this`runs, this`strays, this`tempBytes, this`rowsOf, this`failed, temporary
      ensures FilesAccounted() && FilesOfOthersKept()
      ensures err.None? ==> !failed && strays == [] && |runs| == Groups(|old(runs)|)
      ensures err.None? ==> Intact(cmp, added, batch, runs, rowsOf)
      ensures err.Some? ==> failed && Explained(err.value)
    {
      RunsDistinct(cmp, added, batch, runs, rowsOf);
      ghost var bad;
      err, bad := Compact();
      if err.None? {
        CompactIntact(cmp, added, batch, old(runs), old(rowsOf), runs, rowsOf);
      } else if err.value == RunUnreadable {
        BadRowWasAdded(cmp, added, batch, old(runs), old(rowsOf), bad, HeadLimit());
      } else {
        RunsWithinAll(cmp, added, batch, old(runs), old(rowsOf));
      }
    }

    method CompactOnce() returns (err: Option<SortError>)
      requires Valid()
      modifies this`runs, this`strays, this`tempBytes, this`rowsOf, this`failed, temporary
      ensures MemoryAccounted() && FilesAccounted() && OthersKept()
      ensures err.None? ==> Valid() && |runs| == Groups(|old(runs)|)
      ensures err.Some? ==> failed && Explained(err.value)
    {
      err := CompactIntactRuns();
    }

    /** flush: spill the batch, and compact when there are too many runs. */
    method Flush() returns (err: Option<SortError>)
      requires Valid()
      modifies this`runs, this`strays, this`tempBytes, this`rowsOf, this`failed, this`held, this`batch,
               this`batchBytes, budget, temporary
      ensures MemoryAccounted() && FilesAccounted()
      ensures OthersKept()
      ensures err.None? ==> Valid() && batch == []
      ensures err.Some? ==> failed && Explained(err.value)
    {
      if batch == [] { return None; }
      err := Spill();
      if err.None? && |runs| >= MAX_RUNS { err := CompactOnce(); }
    }

    /** The compaction loops of Finish and mergeToSingleRun: they end, because every pass leaves fewer runs. */
    method Reduce(most: nat) returns (err: Option<SortError>)
      requires Valid() && most >= 1
      modifies this`runs, this`strays, this`tempBytes, this`rowsOf, this`failed, temporary
      ensures MemoryAccounted() && FilesAccounted()
      ensures OthersKept()
      ensures err.None? ==> Valid() && |runs| <= most
      ensures err.Some? ==> failed && Explained(err.value)
    {
      err := None;
      while |runs| > most
        invariant Valid() && err.None?
        invariant OthersKept()
        decreases |runs|
      {
        GroupsShrink(|runs|);
        err := CompactOnce();
        if err.Some? { return; }
      }
    }

    /** Close: every live file is removed and the held memory goes back to the pool, once. */
    method Close()
      requires MemoryAccounted() && FilesAccounted()
      modifies this, budget, temporary
      ensures old(closed) ==> unchanged(this)
      ensures !old(closed) ==> closed && held == 0 && tempBytes == 0 && batch == [] && runs == [] && strays == []
      ensures MemoryAccounted() && FilesAccounted() && added == old(added)
      ensures OthersKept()
    {
      if closed { return; }
      RemoveRuns(runs);
      RemoveRuns(strays);
      ReleaseBatch();
      released, runs, strays, closed, rowsOf := true, [], [], true, [];
    }

    /** The row joins the batch; its bytes have been reserved. */
    method Keep(values: Cells, granted: int)
      requires Usable() && ValidValues(values) && |added| + 1 < TWO_64
      requires granted >= 1 && (batch == [] || batchBytes + granted <= memory / 2)
      modifies this`held, this`batchBytes, this`batch, this`next, this`added
      ensures Usable() && added == old(added) + [values]
      ensures held == old(held) + if budget == null then 0 else granted
    {
      AddIntact(cmp, added, batch, runs, rowsOf, values);
      if budget != null { held := held + granted; }
      batch := batch + [Ranked(values, next)];
      added := added + [values];
      next := next + 1;
      batchBytes := batchBytes + granted;
    }

    /** One more row of the batch, under as many bytes as the shared pool grants; an exhausted pool grants none. */
    method Retain(values: Cells, size: int) returns (ok: bool)
      requires Valid() && ValidValues(values) && |added| + 1 < TWO_64
      requires size >= 1 && (batch == [] || batchBytes + size <= memory / 2)
      modifies this`held, this`batchBytes, this`batch, this`next, this`added, budget
      ensures Valid() && MemoryOfOthers() == old(MemoryOfOthers())
      ensures ok <==> budget == null || old(budget.used) < budget.total
      ensures budget != null ==> budget.used == Min(old(budget.used) + size, budget.total)
      ensures added == if ok then old(added) + [values] else old(added)
    {
      var granted := size;
      if budget != null {
        var reserved := budget.Reserve(size);
        if reserved.None? { return false; }
        granted := reserved.value;
      }
      Keep(values, granted);
      ok := true;
    }

    /** Another row of this size would take the batch over half of the memory. */
    predicate MustSpill(size: int)
      reads this
    {
      batch != [] && batchBytes + size > memory / 2
    }

    /** Spilling the batch when there is no room for another row; the pool is not exhausted afterwards. */
    method MakeRoom(size: int) returns (err: Option<SortError>)
      requires Valid()
      modifies this`runs, this`strays, this`tempBytes, this`rowsOf, this`failed, this`held, this`batch,
               this`batchBytes, budget, temporary
      ensures MemoryAccounted() && FilesAccounted() && OthersKept()
      ensures !old(MustSpill(size)) ==> err.None? && (budget != null ==> budget.used == old(budget.used))
      ensures err.None? ==> Valid() && (batch == [] || batchBytes + size <= memory / 2)
      ensures err.None? && old(MustSpill(size)) && budget != null ==> budget.used < budget.total
      ensures err.Some? ==> failed && Explained(err.value)
    {
      if batchBytes + size > memory / 2 && |batch| > 0 {
        err := Flush();
      } else {
        err := None;
      }
    }

    /**
     What storing a row of this size leaves of the shared memory: the row gets as much as is available, and is
     refused if and only if that is nothing and the sorter has no batch to spill.
     */
    twostate predicate Served(size: int, new err: Option<SortError>)
      reads this, budget
    {
      && (err == Some(MemoryExhausted) <==> budget != null && old(budget.used) == budget.total && !old(MustSpill(size)))
      && (!old(MustSpill(size)) ==> err.None? || err == Some(MemoryExhausted))
      && (!old(MustSpill(size)) && budget != null ==> budget.used == Min(old(budget.used) + size, budget.total))
    }

    /** Add behind its checks. */
    method Store(values: Cells, size: int) returns (err: Option<SortError>)
      requires Valid() && ValidValues(values) && |added| + 1 < TWO_64 && size >= 1
      modifies this, budget, temporary
      ensures Served(size, err) && OthersKept() && MemoryAccounted() && FilesAccounted() && !closed
      ensures err.None? ==> Valid() && added == old(added) + [values]
      ensures err == Some(MemoryExhausted) ==> Valid() && added == old(added)
      ensures err.Some? ==> err == Some(MemoryExhausted) || (failed && Explained(err.value))
    {
      err := MakeRoom(size);
      if err.None? {
        var ok := Retain(values, size);
        err := if ok then None else Some(MemoryExhausted);
      }
    }

    /**
     Add: a row wider than the limit is refused before anything else; a full batch is spilled first; a row is refused
     for want of memory, with the sorter still usable, if and only if the pool is exhausted and there is no spilling.
     */
    method Add(values: Cells) returns (err: Option<SortError>)
      requires !closed ==> Valid() && |added| + 1 < TWO_64
      requires ValidValues(values)
      modifies this, budget, temporary
      ensures old(closed) <==> err == Some(ClosedSorter)
      ensures old(closed) ==> unchanged(this)
      ensures !old(closed) ==> (err == Some(RowTooWide) <==> RowWidth(values) > Limit())
      ensures err == Some(RowTooWide) ==> unchanged(this)
      ensures closed == old(closed)
      ensures !old(closed) && RowWidth(values) <= Limit() ==> Served(RetainedBytes(values) + 32, err)
      ensures err.None? ==> Valid() && added == old(added) + [values]
      ensures err == Some(MemoryExhausted) ==> Valid() && added == old(added)
      ensures err.Some? && !err.value.ClosedSorter? && !err.value.RowTooWide? && !err.value.MemoryExhausted? ==>
                failed && Explained(err.value) && MemoryAccounted() && FilesAccounted()
      ensures OthersKept()
    {
      if closed { return Some(ClosedSorter); }
      if RowWidth(values) > Limit() { return Some(RowTooWide); }
      err := Store(values, RetainedBytes(values) + 32);
    }

    /** The merge phase of Finish, over runs that hold every row. */
    method MergeAll() returns (out: seq<Cells>, err: Option<SortError>)
      requires Valid() && batch == []
      ensures err.None? ==> out == NormAll(StableSort(cmp, added))
      ensures err.Some? ==> out <= NormAll(StableSort(cmp, added))
      ensures err.Some? ==> err == Some(RunUnreadable) && Explained(RunUnreadable)
      ensures err.None? ==> forall v :: v in added ==> Supported(v) && Readable(v, HeadLimit())
    {
      RunsDistinct(cmp, added, batch, runs, rowsOf);
      var rows, ok;
      ghost var left;
      rows, ok, left := Merge(cmp, runs, HeadLimit(), rowsOf);
      MergeMeaning(cmp, added, runs, rowsOf, rows, left);
      if ok {
        ReadAll(cmp, added, runs, rowsOf, HeadLimit());
        return Values(rows), None;
      }
      ghost var bad :| bad in Total(rowsOf) && !Readable(bad.value, HeadLimit());
      BadRowWasAdded(cmp, added, batch, runs, rowsOf, bad, HeadLimit());
      return Values(rows), Some(RunUnreadable);
    }

    /** Finish before Close, once rows have been spilled. */
    method FinishRuns() returns (out: seq<Cells>, err: Option<SortError>)
      requires Valid()
      modifies this`runs, this`strays, this`tempBytes, this`rowsOf, this`failed, this`held, this`batch,
               this`batchBytes, budget, temporary
      ensures MemoryAccounted() && FilesAccounted()
      ensures OthersKept()
      ensures err.None? ==> out == NormAll(StableSort(cmp, added))
      ensures err.Some? ==> out <= NormAll(StableSort(cmp, added)) && Explained(err.value)
      ensures err.None? ==> forall v :: v in added ==> Supported(v) && Readable(v, HeadLimit())
    {
      out := [];
      err := Flush();
      if err.Some? { return; }
      err := Reduce(8);
      if err.Some? { return; }
      out, err := MergeAll();
    }

    /**
     Finish: the rows in order, then Close. Without a spill the rows come back as they were added; after one they
     come back normalized, in the same order. A spilled sort fails when some row cannot be written or read back; it
     also fails for want of temporary space, but not when there is room for two run files with every row. What it has
     yielded by then is the beginning of the right answer.
     */
    method Finish() returns (out: seq<Cells>, err: Option<SortError>)
      requires !closed ==> Valid()
      modifies this, budget, temporary
      ensures old(closed) ==> err == Some(ClosedSorter) && out == [] && unchanged(this)
      ensures !old(closed) && old(runs) == [] ==> err.None? && out == StableSort(cmp, added)
      ensures !old(closed) && old(runs) != [] && err.None? ==> out == NormAll(StableSort(cmp, added))
      ensures !old(closed) && old(runs) != [] && err.None? ==> KeptRows(StableSort(cmp, added), out)
      ensures !old(closed) && PlainRows(added) ==> out <= StableSort(cmp, added)
      ensures !old(closed) && PlainRows(added) && err.None? ==> out == StableSort(cmp, added)
      ensures !old(closed) && err.Some? ==> out <= NormAll(StableSort(cmp, added)) && Explained(err.value)
      ensures !old(closed) && old(runs) != [] ==>
                (exists v :: v in added && !(Supported(v) && Readable(v, HeadLimit()))) ==> err.Some?
      ensures closed && added == old(added)
      ensures !old(closed) ==> held == 0 && tempBytes == 0 && MemoryAccounted() && FilesAccounted()
      ensures OthersKept()
    {
      if closed { return [], Some(ClosedSorter); }
      SpillKeepsContent(cmp, added);
      if runs == [] {
        WholeBatch(cmp, added, batch);
        out, err := Values(Sorted(cmp, batch)), None;
      } else {
        out, err := FinishRuns();
      }
      Close();
    }

    /** mergeToSingleRun: at most one run, which then holds every row in order. */
    method MergeToSingleRun() returns (err: Option<SortError>)
      requires !closed ==> Valid()
      modifies this`runs, this`strays, this`tempBytes, this`rowsOf, this`failed, this`held, this`batch,
               this`batchBytes, budget, temporary
      ensures old(closed) ==> err == Some(ClosedSorter) && unchanged(this)
      ensures err.None? ==> Valid() && batch == [] && |runs| <= 1
      ensures !old(closed) && err.Some? ==> failed && Explained(err.value) && MemoryAccounted() && FilesAccounted()
      ensures OthersKept()
    {
      if closed { return Some(ClosedSorter); }
      err := Flush();
      if err.Some? { return; }
      err := Reduce(1);
    }

    /** readSingleRun: a fresh pass over the one run; nothing is consumed, so it can be repeated. */
    method ReadSingleRun() returns (out: seq<Cells>, err: Option<SortError>)
      requires Valid() && batch == [] && |runs| <= 1
      ensures err.None? ==> out == NormAll(StableSort(cmp, added)) && KeptRows(StableSort(cmp, added), out)
      ensures err.None? && PlainRows(added) ==> out == StableSort(cmp, added)
      ensures err.Some? ==> err == Some(RunUnreadable) && exists v :: v in added && !Readable(v, HeadLimit())
    {
      SpillKeepsContent(cmp, added);
      if runs == [] {
        assert added == [];
        return [], None;
      }
      var rows, ok := ReadRun(cmp, runs[0], HeadLimit(), rowsOf[0]);
      assert rowsOf == [rowsOf[0]];
      TotalOne(rowsOf[0]);
      if !ok {
        ghost var bad :| bad in rowsOf[0] && !Readable(bad.value, HeadLimit());
        BadRowWasAdded(cmp, added, batch, runs, rowsOf, bad, HeadLimit());
        return [], Some(RunUnreadable);
      }
      MergeMeaning(cmp, added, runs, rowsOf, rows, multiset{});
      return Values(rows), None;
    }
  }

  method ReadRun(cmp: (Cells, Cells) -> int, file: Data, limit: int, ghost rows: Rows) returns (out: Rows, ok: bool)
    requires RunHolds(cmp, file, rows)
    ensures ok ==> out == rows
    ensures !ok ==> exists r :: r in rows && !Readable(r.value, limit)
  {
    out := [];
    var reader := file;
    ghost var rest := rows;
    while true
      invariant out + rest == rows && RunHolds(cmp, reader, rest)
      decreases |rest|
    {
      var head, after;
      head, after, ok := ReadHead(cmp, reader, limit, rest);
      if !ok {
        assert rest[0] in rows;
        return;
      }
      if head.None? { return out, true; }
      out, reader, rest := out + [head.value], after, rest[1..];
    }
  }
}
