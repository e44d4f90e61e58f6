/**
 The access planner with secondary indexes: which index it probes with which values, when it reads the covering record
 instead of the row, and the proof that the chosen access answers like the full scan.
 */
module SecondaryAccess {
  import opened Wrappers
  import opened Bytes
  import opened Schema
  import opened Float64
  import opened SecondaryKey
  import opened IndexMaintenance
  import opened Expressions
  import opened RangeAccess

  // ----- the values WHERE fixes --------------------------------------------------------------

  /**
   The column value one comparison fixes: an integer that fits its column, or a string compared under a binary
   collation (`binary` tells which columns have one, their own or the connection's).
   */
  function EqualValue(columns: seq<Column>, op: Op, l: Expr, r: Expr, fits: (DataType, int) -> bool,
                      binary: nat -> bool)
    : Option<(nat, Value)>
  {
    match Sides(l, r)
    case None => None
    case Some((p, literal, _)) =>
      if !(op.Eq? || op.NullSafe?) || p.None? || p.value >= |columns| then None
      else
        var typ := columns[p.value].typ;
        if IsIntegerType(typ) && literal.IntegerLiteral? && fits(typ, literal.n)
          then Some((p.value, Integer(typ, literal.n)))
        else if IsTextType(typ) && binary(p.value) && literal.StringLiteral?
          then Some((p.value, Text(typ, literal.text)))
        else None
  }

  /** The values an expression fixes, the later of two comparisons on one column winning. */
  function EqualValues(columns: seq<Column>, e: Expr, fits: (DataType, int) -> bool, binary: nat -> bool,
                       values: map<nat, Value>)
    : map<nat, Value>
  {
    match e
    case Binary(And, l, r) => EqualValues(columns, r, fits, binary, EqualValues(columns, l, fits, binary, values))
    case Binary(op, l, r) =>
      (match EqualValue(columns, op, l, r, fits, binary) case None => values case Some((p, v)) => values[p := v])
    case _ => values
  }

  /** Under a binary collation a column equals a string only when the bytes are the same. */
  predicate ExactText(env: Env, p: nat, v: Value, text: Data) {
    v.Text? ==> (env.compare(SColumn(p, v), SText(text)) == 0 <==> v.text == text)
                && (env.compare(SText(text), SColumn(p, v)) == 0 <==> v.text == text)
  }

  ghost predicate BinaryCollations(env: Env, binary: nat -> bool) {
    forall p, v, text :: binary(p) ==> ExactText(env, p, v, text)
  }

  lemma TrueText(env: Env, columns: seq<Column>, op: Op, l: Expr, r: Expr, row: Row, p: nat, text: Data)
    requires (op.Eq? || op.NullSafe?) && Sides(l, r).Some? && Sides(l, r).value.0 == Some(p)
             && Sides(l, r).value.1 == StringLiteral(text)
    requires p < |row| && (row[p].Null? || row[p].Text?) && ExactText(env, p, row[p], text)
    requires Eval(env, Binary(op, l, r), row).Ok? && Truthy(env, Eval(env, Binary(op, l, r), row).value)
    ensures row[p].Text? && row[p].text == text
  {
  }

  /** Under a binary collation a text column equals a string literal, on either side, exactly when the bytes agree. */
  lemma TextEqualMeans(env: Env, op: Op, row: Row, p: nat, text: Data)
    requires (op.Eq? || op.NullSafe?) && p < |row| && row[p].Text? && ExactText(env, p, row[p], text)
    ensures Eval(env, Binary(op, Ident(Some(p)), Lit(StringLiteral(text))), row) == Ok(SBool(row[p].text == text))
    ensures Eval(env, Binary(op, Lit(StringLiteral(text)), Ident(Some(p))), row) == Ok(SBool(row[p].text == text))
  {
  }

  lemma TrueEqual(env: Env, columns: seq<Column>, op: Op, l: Expr, r: Expr, fits: (DataType, int) -> bool,
                  binary: nat -> bool,
                  row: Row, p: nat, v: Value)
    requires SafeComparison(columns, op, l, r) && Conforms(columns, row) && BinaryCollations(env, binary)
    requires EqualValue(columns, op, l, r, fits, binary) == Some((p, v))
    requires Eval(env, Binary(op, l, r), row).Ok? && Truthy(env, Eval(env, Binary(op, l, r), row).value)
    ensures p < |row| && row[p] == v
  {
    var at, literal := Sides(l, r).value.0, Sides(l, r).value.1;
    assert at == Some(p) && p < |columns| && row[p].typ == columns[p].typ && WellTyped(row[p]);
    if literal.IntegerLiteral? {
      TrueEquality(env, columns, op, l, r, row, p, literal.n);
    } else {
      assert ExactText(env, p, row[p], literal.text);
      TrueText(env, columns, op, l, r, row, p, literal.text);
    }
  }

  /** Columns fixed by a true expression hold the fixed values. */
  lemma {:induction false} TrueMeansEqual(env: Env, columns: seq<Column>, e: Expr, fits: (DataType, int) -> bool,
                                          binary: nat -> bool, values: map<nat, Value>, row: Row, p: nat)
    requires SafeIndex(columns, e) && Conforms(columns, row) && BinaryCollations(env, binary)
    requires Eval(env, e, row).Ok? && Truthy(env, Eval(env, e, row).value)
    requires p in values ==> p < |row| && row[p] == values[p]
    requires p in EqualValues(columns, e, fits, binary, values)
    ensures p < |row| && row[p] == EqualValues(columns, e, fits, binary, values)[p]
  {
    if e.Binary? && e.op.And? {
      var first := EqualValues(columns, e.left, fits, binary, values);
      if p in first { TrueMeansEqual(env, columns, e.left, fits, binary, values, row, p); }
      TrueMeansEqual(env, columns, e.right, fits, binary, first, row, p);
    } else if e.Binary? {
      var fixed := EqualValue(columns, e.op, e.left, e.right, fits, binary);
      if fixed.Some? {
        TrueEqual(env, columns, e.op, e.left, e.right, fits, binary, row, fixed.value.0, fixed.value.1);
      }
    }
  }

  // ----- choosing an index -------------------------------------------------------------------

  /** The values of the leading columns, as far as they are fixed. */
  function Probe(columns: seq<nat>, values: map<nat, Value>): (r: seq<Value>)
    ensures |r| <= |columns| && forall i :: 0 <= i < |r| ==> columns[i] in values && r[i] == values[columns[i]]
  {
    if columns == [] || columns[0] !in values then [] else [values[columns[0]]] + Probe(columns[1..], values)
  }

  /** What a query reads of a row: the columns of WHERE and of the rest of the statement; None is every column. */
  function Columns(e: Expr): set<nat> {
    match e
    case Ident(p) => if p.Some? then {p.value} else {}
    case Binary(_, l, r) => Columns(l) + Columns(r)
    case Between(_, v, lo, hi) => Columns(v) + Columns(lo) + Columns(hi)
    case _ => {}
  }

  predicate Needed(where: Expr, rest: Option<set<nat>>, c: nat) { rest.None? || c in Columns(where) || c in rest.value }

  predicate CoversNeeded(t: Table, index: Index, where: Expr, rest: Option<set<nat>>) {
    forall c :: 0 <= c < |t.columns| && Needed(where, rest, c) ==> Covered(t, index, c)
  }

  /** An access through a secondary index: its position, the probe, and whether the covering record is enough. */
  datatype Ref = Ref(at: nat, probe: seq<Value>, covering: bool)

  /** The statement as the planner sees it: WHERE, the other columns it reads, and whether it has select items. */
  datatype Query = Query(where: Option<Expr>, rest: Option<set<nat>>, hasItems: bool)

  predicate RefOf(t: Table, q: Query, fits: (DataType, int) -> bool, binary: nat -> bool, ref: Ref) {
    && t.secondaryEncoding && q.where.Some? && SafeIndex(t.columns, q.where.value)
    && ref.at < |t.indexes| && KeptSecondary(t, t.indexes[ref.at])
    && ref.probe == Probe(t.indexes[ref.at].columns, EqualValues(t.columns, q.where.value, fits, binary, map[]))
    && ref.probe != []
    && ref.covering == (q.hasItems && CoversNeeded(t, t.indexes[ref.at], q.where.value, q.rest))
  }

  predicate Better(a: Ref, b: Ref) { |a.probe| > |b.probe| || (|a.probe| == |b.probe| && a.covering && !b.covering) }

  /** No usable index probes more columns, and none of those that probe as many covers unless this one does. */
  ghost predicate Best(t: Table, q: Query, fits: (DataType, int) -> bool, binary: nat -> bool, best: Ref) {
    forall ref :: RefOf(t, q, fits, binary, ref) ==>
      && |ref.probe| <= |best.probe|
      && (|ref.probe| == |best.probe| && ref.covering ==> best.covering)
      && (|ref.probe| == |best.probe| && ref.covering == best.covering ==> best.at <= ref.at)
  }

  /** planSQLSecondary: the longest probe, a covering one among equals, the first among those. */
  method PlanSecondary(t: Table, q: Query, fits: (DataType, int) -> bool, binary: nat -> bool) returns (r: Option<Ref>)
    ensures r.Some? ==> RefOf(t, q, fits, binary, r.value) && Best(t, q, fits, binary, r.value)
    ensures r.None? ==> forall ref :: !RefOf(t, q, fits, binary, ref)
  {
    r := None;
    if !t.secondaryEncoding || q.where.None? || !SafeIndex(t.columns, q.where.value) { return; }
    var values := EqualValues(t.columns, q.where.value, fits, binary, map[]);
    for i := 0 to |t.indexes|
      invariant r.Some? ==> RefOf(t, q, fits, binary, r.value) && r.value.at < i
      invariant forall ref :: RefOf(t, q, fits, binary, ref) && ref.at < i ==> r.Some? && !Better(ref, r.value)
      invariant forall ref :: RefOf(t, q, fits, binary, ref) && ref.at < i && !Better(r.value, ref) ==>
                  r.value.at <= ref.at
    {
      var index := t.indexes[i];
      if !KeptSecondary(t, index) { continue; }
      var probe := BuildProbe(index.columns, values);
      if probe == [] { continue; }
      var ref := Ref(i, probe, q.hasItems && CoversNeeded(t, index, q.where.value, q.rest));
      if r.None? || Better(ref, r.value) { r := Some(ref); }
    }
  }

  /** The loop that collects the probe. */
  method BuildProbe(columns: seq<nat>, values: map<nat, Value>) returns (probe: seq<Value>)
    ensures probe == Probe(columns, values)
  {
    probe := [];
    for i := 0 to |columns|
      invariant probe + Probe(columns[i..], values) == Probe(columns, values)
    {
      ProbeStep(columns, values, i, probe);
      if columns[i] !in values { return; }
      probe := probe + [values[columns[i]]];
    }
    assert columns[|columns|..] == [] && probe + [] == probe;
  }

  lemma ProbeStep(columns: seq<nat>, values: map<nat, Value>, i: nat, probe: seq<Value>)
    requires i < |columns|
    ensures columns[i] !in values ==> probe + Probe(columns[i..], values) == probe
    ensures columns[i] in values ==>
              probe + Probe(columns[i..], values) == (probe + [values[columns[i]]]) + Probe(columns[i + 1..], values)
  {
    assert columns[i..][1..] == columns[i + 1..];
  }

  /** The condition `column = literal` that an index on the column can serve. */
  predicate Serves(columns: seq<Column>, fits: (DataType, int) -> bool, binary: nat -> bool, p: nat, literal: Literal) {
    && p < |columns|
    && (|| (IsIntegerType(columns[p].typ) && literal.IntegerLiteral? && fits(columns[p].typ, literal.n))
        || (IsTextType(columns[p].typ) && literal.StringLiteral? && binary(p)))
  }

  lemma {:induction false} ConjunctEquals(columns: seq<Column>, e: Expr, fits: (DataType, int) -> bool,
                                          binary: nat -> bool, values: map<nat, Value>, p: nat, literal: Literal)
    requires Serves(columns, fits, binary, p, literal)
    requires p in values || Conjunct(e, Binary(Eq, Ident(Some(p)), Lit(literal)))
    ensures p in EqualValues(columns, e, fits, binary, values)
  {
    if e.Binary? && e.op.And? {
      var first := EqualValues(columns, e.left, fits, binary, values);
      if p in values || Conjunct(e.left, Binary(Eq, Ident(Some(p)), Lit(literal))) {
        ConjunctEquals(columns, e.left, fits, binary, values, p, literal);
      }
      ConjunctEquals(columns, e.right, fits, binary, first, p, literal);
    }
  }

  /** The index alone answers exactly when it or the primary key has every column the statement reads. */
  lemma CoveringIff(t: Table, q: Query, fits: (DataType, int) -> bool, binary: nat -> bool, ref: Ref)
    requires ValidTable(t) && RefOf(t, q, fits, binary, ref) && q.hasItems
    requires q.rest.Some? && forall c :: c in q.rest.value || c in Columns(q.where.value) ==> c < |t.columns|
    ensures ref.covering <==>
            forall c :: c in q.rest.value || c in Columns(q.where.value) ==>
              c in t.indexes[ref.at].columns || (PrimaryIndex(t).Some? && c in PrimaryIndex(t).value.columns)
  {
    var index := t.indexes[ref.at];
    forall c ensures Covered(t, index, c) <==>
                     c in index.columns || (PrimaryIndex(t).Some? && c in PrimaryIndex(t).value.columns)
    {
      if PrimaryIndex(t).Some? {
        var j :| 0 <= j < |t.indexes| && t.indexes[j] == PrimaryIndex(t).value;
        assert t.indexes[j].primary;
      }
    }
    if ref.covering {
      forall c | c in q.rest.value || c in Columns(q.where.value) ensures Covered(t, index, c) {
        assert Needed(q.where.value, q.rest, c);
      }
    }
  }

  /** A non-unique index over integer and text columns is used when WHERE has an equality on its leading column. */
  lemma IndexIsUsed(t: Table, q: Query, fits: (DataType, int) -> bool, binary: nat -> bool, at: nat, literal: Literal)
    requires t.secondaryEncoding && q.where.Some? && SafeIndex(t.columns, q.where.value)
    requires at < |t.indexes| && !t.indexes[at].primary && !t.indexes[at].unique && t.indexes[at].columns != []
    requires forall c :: c in t.indexes[at].columns ==>
               c < |t.columns| && !t.columns[c].json
               && (IsIntegerType(t.columns[c].typ) || IsTextType(t.columns[c].typ))
    requires var p := t.indexes[at].columns[0];
             Serves(t.columns, fits, binary, p, literal)
             && Conjunct(q.where.value, Binary(Eq, Ident(Some(p)), Lit(literal)))
    ensures exists ref :: RefOf(t, q, fits, binary, ref) && ref.at == at
  {
    var index, values := t.indexes[at], EqualValues(t.columns, q.where.value, fits, binary, map[]);
    assert forall i :: 0 <= i < |index.columns| ==> index.columns[i] in index.columns;
    assert KeptSecondary(t, index);
    ConjunctEquals(t.columns, q.where.value, fits, binary, map[], index.columns[0], literal);
    var ref := Ref(at, Probe(index.columns, values), q.hasItems && CoversNeeded(t, index, q.where.value, q.rest));
    assert RefOf(t, q, fits, binary, ref);
  }

  // ----- the probe and WHERE -----------------------------------------------------------------

  lemma {:induction false} EqualIndexable(columns: seq<Column>, e: Expr, fits: (DataType, int) -> bool,
                                          binary: nat -> bool,
                                          values: map<nat, Value>, p: nat)
    requires SafeIndex(columns, e) && p in EqualValues(columns, e, fits, binary, values)
    requires p in values ==> p < |columns| && Indexable(columns[p].typ, values[p])
    ensures p < |columns| && Indexable(columns[p].typ, EqualValues(columns, e, fits, binary, values)[p])
  {
    if e.Binary? && e.op.And? {
      var first := EqualValues(columns, e.left, fits, binary, values);
      if p in first { EqualIndexable(columns, e.left, fits, binary, values, p); }
      EqualIndexable(columns, e.right, fits, binary, first, p);
    }
  }

  lemma ProbeIsAProbe(t: Table, q: Query, fits: (DataType, int) -> bool, binary: nat -> bool, ref: Ref)
    requires RefOf(t, q, fits, binary, ref)
    ensures Probes(t, t.indexes[ref.at], ref.probe)
  {
    var index := t.indexes[ref.at];
    forall i | 0 <= i < |ref.probe| ensures Indexable(ColumnTypes(t, index.columns)[i], ref.probe[i]) {
      EqualIndexable(t.columns, q.where.value, fits, binary, map[], index.columns[i]);
    }
  }

  /** A row WHERE accepts has the probed values in the leading columns of the index. */
  lemma AcceptedMatchesProbe(env: Env, t: Table, q: Query, fits: (DataType, int) -> bool, binary: nat -> bool,
                             ref: Ref, row: Row)
    requires RefOf(t, q, fits, binary, ref) && Conforms(t.columns, row) && BinaryCollations(env, binary)
    requires Accepts(env, q.where, row)
    ensures Pick(row, t.indexes[ref.at].columns)[..|ref.probe|] == ref.probe
  {
    var index := t.indexes[ref.at];
    forall i | 0 <= i < |ref.probe| ensures Pick(row, index.columns)[i] == ref.probe[i] {
      TrueMeansEqual(env, t.columns, q.where.value, fits, binary, map[], row, index.columns[i]);
    }
  }

  // ----- what the scan yields ----------------------------------------------------------------

  /** scanSecondary hands on the covering record when it is enough, and the row otherwise. */
  ghost function Yielded(t: Table, index: Index, covering: bool, rows: map<Key, Row>): map<Key, Row> {
    if covering then map k | k in rows :: Project(t, index, rows[k]) else rows
  }

  lemma {:induction false} EvalAgrees(env: Env, columns: seq<Column>, e: Expr, a: Row, b: Row)
    requires SafeIndex(columns, e) && |a| == |b| && forall c :: c in Columns(e) && c < |a| ==> a[c] == b[c]
    ensures Eval(env, e, a) == Eval(env, e, b)
  {
    if e.Binary? {
      EvalAgrees(env, columns, e.left, a, b);
      EvalAgrees(env, columns, e.right, a, b);
    }
  }

  lemma {:induction false} SelectAgrees(env: Env, t: Table, where: Option<Expr>, rows: map<Key, Row>,
                                        views: map<Key, Row>, scan: seq<Key>)
    requires where.Some? && forall k :: k in scan ==> k in rows && k in views
    requires forall k :: k in scan ==> Eval(env, where.value, rows[k]) == Eval(env, where.value, views[k])
    ensures Select(env, where, rows, scan) == Select(env, where, views, scan)
  {
    if scan != [] { SelectAgrees(env, t, where, rows, views, scan[1..]); }
  }

  lemma YieldedAgrees(env: Env, t: Table, q: Query, fits: (DataType, int) -> bool, binary: nat -> bool, ref: Ref,
                      rows: map<Key, Row>, k: Key)
    requires RefOf(t, q, fits, binary, ref) && RowsConform(t, rows) && k in rows
    ensures var view := Yielded(t, t.indexes[ref.at], ref.covering, rows)[k];
            && |view| == |rows[k]| && Eval(env, q.where.value, view) == Eval(env, q.where.value, rows[k])
            && forall c :: 0 <= c < |view| && Needed(q.where.value, q.rest, c) ==> view[c] == rows[k][c]
  {
    EvalAgrees(env, t.columns, q.where.value, Yielded(t, t.indexes[ref.at], ref.covering, rows)[k], rows[k]);
  }

  /** What a covering read yields is what the index stores for the row. */
  lemma YieldedIsStored(t: Table, rows: map<Key, Row>, secondary: map<Slot, Covering>, at: nat, k: Key)
    requires ValidTable(t) && RowsConform(t, rows) && SecondaryExact(t, rows, secondary)
    requires at < |t.indexes| && KeptSecondary(t, t.indexes[at]) && k in rows
    ensures var e := SlotOf(t.indexes[at], k, rows[k]);
            e in secondary && secondary[e] == Covering(k, Yielded(t, t.indexes[at], true, rows)[k])
  {
    StoredSlots(t, rows, secondary, k);
  }

  // ----- the full scan's answer --------------------------------------------------------------

  /**
   The access planSQLSecondary chooses answers like the full scan: the same rows, each once, with every column the
   query reads, or the same error; the exception is an unusable literal when the probe visits no row.
   */
  lemma SecondaryMatchesFullScan(env: Env, t: Table, q: Query, fits: (DataType, int) -> bool, binary: nat -> bool,
                                 ref: Ref,
                                 rows: map<Key, Row>, secondary: map<Slot, Covering>, scan: seq<Key>, full: seq<Key>)
    requires ValidTable(t) && RowsConform(t, rows) && SecondaryExact(t, rows, secondary)
    requires RefOf(t, q, fits, binary, ref) && BinaryCollations(env, binary)
    requires Lists(scan, ScanOwners(t, secondary, t.indexes[ref.at], ref.probe)) && Lists(full, rows.Keys)
    requires forall k :: k in scan || k in full ==> k in rows
    ensures SameOutcome(Select(env, q.where, Yielded(t, t.indexes[ref.at], ref.covering, rows), scan),
            Select(env, q.where, rows, full))
            <==> !(WhereBad(q.where).Some? && rows != map[] && scan == [])
  {
    var views := Yielded(t, t.indexes[ref.at], ref.covering, rows);
    forall k | k in scan ensures k in views && Eval(env, q.where.value, rows[k]) == Eval(env, q.where.value, views[k]) {
      YieldedAgrees(env, t, q, fits, binary, ref, rows, k);
    }
    SelectAgrees(env, t, q.where, rows, views, scan);
    SafeIndexIsSafeRange(t.columns, q.where.value);
    if WhereBad(q.where).Some? {
      SelectBad(env, t, q.where, rows, scan);
      SelectBad(env, t, q.where, rows, full);
      EmptyListing(full, rows);
    } else {
      SameRowsByProbe(env, t, q, fits, binary, ref, rows, secondary, scan, full);
    }
  }

  lemma SameRowsByProbe(env: Env, t: Table, q: Query, fits: (DataType, int) -> bool, binary: nat -> bool, ref: Ref,
                        rows: map<Key, Row>, secondary: map<Slot, Covering>, scan: seq<Key>, full: seq<Key>)
    requires ValidTable(t) && RowsConform(t, rows) && SecondaryExact(t, rows, secondary)
    requires RefOf(t, q, fits, binary, ref) && BinaryCollations(env, binary) && SafeWhere(t, q.where)
             && WhereBad(q.where).None?
    requires Lists(scan, ScanOwners(t, secondary, t.indexes[ref.at], ref.probe)) && Lists(full, rows.Keys)
    requires forall k :: k in scan || k in full ==> k in rows
    ensures SameOutcome(Select(env, q.where, rows, scan), Select(env, q.where, rows, full))
  {
    SelectGood(env, t, q.where, rows, scan);
    SelectGood(env, t, q.where, rows, full);
    var owners := ScanOwners(t, secondary, t.indexes[ref.at], ref.probe);
    forall k | k in rows && Accepts(env, q.where, rows[k]) ensures k in owners {
      AcceptedIsProbedBySecondary(env, t, q, fits, binary, ref, rows, secondary, k);
    }
    SameAccepted(env, q.where, rows, owners, scan, full);
  }

  lemma SameAccepted(env: Env, where: Option<Expr>, rows: map<Key, Row>, owners: set<Key>, scan: seq<Key>,
                     full: seq<Key>)
    requires Lists(scan, owners) && Lists(full, rows.Keys) && forall k :: k in scan || k in full ==> k in rows
    requires forall k :: k in rows && Accepts(env, where, rows[k]) ==> k in owners
    requires SelectedIs(env, where, rows, scan) && SelectedIs(env, where, rows, full)
    ensures SameOutcome(Select(env, where, rows, scan), Select(env, where, rows, full))
  {
    var a, b := Select(env, where, rows, scan).value, Select(env, where, rows, full).value;
    forall k ensures multiset(a)[k] == multiset(b)[k] {}
  }

  /** The selected keys are the accepted keys of the scan, each as often as the scan lists it. */
  ghost predicate SelectedIs(env: Env, where: Option<Expr>, rows: map<Key, Row>, scan: seq<Key>)
    requires forall k :: k in scan ==> k in rows
  {
    var r := Select(env, where, rows, scan);
    r.Ok? && forall k :: multiset(r.value)[k] == if k in rows && Accepts(env, where, rows[k]) then multiset(scan)[k]
      else 0
  }

  lemma AcceptedIsProbedBySecondary(env: Env, t: Table, q: Query, fits: (DataType, int) -> bool, binary: nat -> bool,
                                    ref: Ref,
                                    rows: map<Key, Row>, secondary: map<Slot, Covering>, k: Key)
    requires ValidTable(t) && RowsConform(t, rows) && SecondaryExact(t, rows, secondary)
    requires RefOf(t, q, fits, binary, ref) && BinaryCollations(env, binary)
    requires k in rows && Accepts(env, q.where, rows[k])
    ensures k in ScanOwners(t, secondary, t.indexes[ref.at], ref.probe)
  {
    var index := t.indexes[ref.at];
    var filter := (row: Row) => Accepts(env, q.where, row);
    forall k | k in rows && filter(rows[k]) ensures Pick(rows[k], index.columns)[..|ref.probe|] == ref.probe {
      AcceptedMatchesProbe(env, t, q, fits, binary, ref, rows[k]);
    }
    ProbeIsAProbe(t, q, fits, binary, ref);
    SecondaryScanExact(t, rows, secondary, ref.at, ref.probe, filter);
  }

  // ----- the whole planner -------------------------------------------------------------------

  datatype Access = ByKey(plan: Plan) | ByIndex(ref: Ref)

  ghost predicate AccessOf(t: Table, q: Query, fits: (DataType, int) -> bool, binary: nat -> bool, access: Access) {
    match access
    case ByKey(plan) => PlanOf(t, q.where, fits, plan)
    case ByIndex(ref) => RefOf(t, q, fits, binary, ref)
  }

  /** planSQLAccess: a point or a unique value first, then a secondary index, then a range or the order of the key. */
  method PlanSQLAccess(t: Table, q: Query, fits: (DataType, int) -> bool, binary: nat -> bool, orderedByKey: bool,
                       descending: bool)
    returns (access: Access)
    requires orderedByKey ==> t.integerKey && IntegerPrimary(t).Some?
    ensures AccessOf(t, q, fits, binary, access)
    ensures access.ByIndex? ==> PointKey(t, q.where, fits).None?
    ensures access.ByIndex? ==> forall i, k :: !UniqueProbe(t, q.where, fits, i, k)
    ensures access.ByIndex? ==> Best(t, q, fits, binary, access.ref)
    ensures access.ByKey? && !access.plan.Point? && !access.plan.Unique? ==>
            forall ref :: !RefOf(t, q, fits, binary, ref)
  {
    var plan := PlanAccess(t, q.where, fits, orderedByKey, descending);
    if plan.Point? || plan.Unique? { return ByKey(plan); }
    var ref := PlanSecondary(t, q, fits, binary);
    return if ref.Some? then ByIndex(ref.value) else ByKey(plan);
  }

  ghost function VisitedBy(t: Table, access: Access, rows: map<Key, Row>, unique: map<Slot, Key>,
                           secondary: map<Slot, Covering>)
    : set<Key>
    requires access.ByIndex? ==> access.ref.at < |t.indexes|
  {
    match access
    case ByKey(plan) => Visited(plan, rows, unique)
    case ByIndex(ref) => ScanOwners(t, secondary, t.indexes[ref.at], ref.probe)
  }

  ghost function YieldedBy(t: Table, access: Access, rows: map<Key, Row>): (r: map<Key, Row>)
    requires access.ByIndex? ==> access.ref.at < |t.indexes|
    ensures r.Keys == rows.Keys
  {
    match access
    case ByKey(_) => rows
    case ByIndex(ref) => Yielded(t, t.indexes[ref.at], ref.covering, rows)
  }

  /** Whatever the planner chooses, filtering what it visits is filtering the whole table, up to unusable literals. */
  lemma AccessMatchesFullScan(env: Env, t: Table, q: Query, fits: (DataType, int) -> bool, binary: nat -> bool,
                              access: Access,
                              rows: map<Key, Row>, unique: map<Slot, Key>, secondary: map<Slot, Covering>,
                              scan: seq<Key>, full: seq<Key>)
    requires ValidTable(t) && KeysProject(t) && RowsConform(t, rows) && BinaryCollations(env, binary)
    requires UniqueExact(t, rows, unique) && SecondaryExact(t, rows, secondary)
    requires AccessOf(t, q, fits, binary, access) && access != ByKey(All)
    requires Lists(scan, VisitedBy(t, access, rows, unique, secondary)) && Lists(full, rows.Keys)
    requires forall k :: k in scan || k in full ==> k in rows
    ensures SameOutcome(Select(env, q.where, YieldedBy(t, access, rows), scan), Select(env, q.where, rows, full))
            <==> !(WhereBad(q.where).Some? && rows != map[] && scan == [])
  {
    match access
    case ByKey(plan) => PlanMatchesFullScan(env, t, q.where, fits, plan, rows, unique, scan, full);
    case ByIndex(ref) => SecondaryMatchesFullScan(env, t, q, fits, binary, ref, rows, secondary, scan, full);
  }
}
