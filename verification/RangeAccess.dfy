/**
 The access planner for tables with an integer primary key: point lookups, unique-index probes and ranges derived
 from WHERE, and the proof that filtering what they visit gives what filtering the whole table gives.
 */
module RangeAccess {
  import opened Wrappers
  import opened Bytes
  import opened Schema
  import opened Float64
  import opened IndexMaintenance
  import opened Expressions

  datatype KeyRange = KeyRange(lower: Option<Data>, upper: Option<Data>, lowerInclusive: bool, upperInclusive: bool)

  predicate InKeyRange(r: KeyRange, key: Data) {
    && (r.lower.Some? ==> Less(r.lower.value, key) || (r.lowerInclusive && key == r.lower.value))
    && (r.upper.Some? ==> Less(key, r.upper.value) || (r.upperInclusive && key == r.upper.value))
  }

  // ----- the comparisons a range uses --------------------------------------------------------

  function Flip(op: Op): Op {
    match op
    case Lt => Gt
    case Le => Ge
    case Gt => Lt
    case Ge => Le
    case _ => op
  }

  /** The bound one comparison puts on the primary key column, if any. */
  function Bound(op: Op, l: Expr, r: Expr, position: nat): Option<(Op, int)> {
    match Sides(l, r)
    case None => None
    case Some((p, literal, flipped)) =>
      if literal.IntegerLiteral? && p == Some(position) && WithinFloat(literal.n)
      then Some((if flipped then Flip(op) else op, literal.n))
      else None
  }

  predicate BoundHolds(op: Op, l: Expr, r: Expr, position: nat, x: int) {
    match Bound(op, l, r, position)
    case None => true
    case Some((o, n)) => OrderHolds(o, x - n)
  }

  lemma BoundMeans(op: Op, l: Expr, r: Expr, position: nat, x: int, o: Op, n: int)
    requires Bound(op, l, r, position) == Some((o, n))
    ensures BoundHolds(op, l, r, position, x) <==> (IsComparison(o) ==> OrderHolds(o, x - n))
  {
  }

  /** Every bound an expression puts on the primary key holds of x. */
  predicate Within(e: Expr, position: nat, x: int) {
    match e
    case Binary(And, l, r) => Within(l, position, x) && Within(r, position, x)
    case Binary(op, l, r) => BoundHolds(op, l, r, position, x)
    case Between(_, v, lo, hi) => BoundHolds(Ge, v, lo, position, x) && BoundHolds(Le, v, hi, position, x)
    case _ => true
  }

  predicate WhereWithin(where: Option<Expr>, position: nat, x: int) {
    where.Some? ==> Within(where.value, position, x)
  }

  /** A comparison that is true of a row holds of its integer column exactly, float64 promotion included. */
  lemma TrueComparison(env: Env, columns: seq<Column>, op: Op, l: Expr, r: Expr, row: Row, position: nat)
    requires SafeComparison(columns, op, l, r) && |row| == |columns|
    requires position < |row| && row[position].Integer?
    requires Eval(env, Binary(op, l, r), row).Ok? && Truthy(env, Eval(env, Binary(op, l, r), row).value)
    ensures BoundHolds(op, l, r, position, row[position].n)
  {
    var bound := Bound(op, l, r, position);
    if bound.Some? {
      FloatCompareExact(row[position].n, bound.value.1);
    }
  }

  lemma TrueBetween(env: Env, v: Expr, lo: Expr, hi: Expr, row: Row)
    requires Eval(env, Between(false, v, lo, hi), row).Ok?
             && Truthy(env, Eval(env, Between(false, v, lo, hi), row).value)
    ensures Eval(env, Binary(Ge, v, lo), row) == Ok(SBool(true)) && Eval(env, Binary(Le, v, hi), row) == Ok(SBool(true))
  {
  }

  lemma {:induction false} TrueMeansWithin(env: Env, columns: seq<Column>, e: Expr, row: Row, position: nat)
    requires SafeRange(columns, e) && |row| == |columns|
    requires position < |row| && row[position].Integer?
    requires Eval(env, e, row).Ok? && Truthy(env, Eval(env, e, row).value)
    ensures Within(e, position, row[position].n)
  {
    if e.Binary? && e.op.And? {
      TrueMeansWithin(env, columns, e.left, row, position);
      TrueMeansWithin(env, columns, e.right, row, position);
    } else if e.Binary? {
      TrueComparison(env, columns, e.op, e.left, e.right, row, position);
    } else if e.Between? {
      TrueBetween(env, e.value, e.lower, e.upper, row);
      TrueComparison(env, columns, Ge, e.value, e.lower, row, position);
      TrueComparison(env, columns, Le, e.value, e.upper, row, position);
    }
  }

  // ----- the ends of a range -----------------------------------------------------------------

  function OneBound(op: Op, l: Expr, r: Expr, position: nat): seq<(Op, int)> {
    match Bound(op, l, r, position)
    case None => []
    case Some(bound) => [bound]
  }

  /** Every bound WHERE puts on the primary key column, in the order it is visited. */
  function Bounds(e: Expr, position: nat): seq<(Op, int)> {
    match e
    case Binary(And, l, r) => Bounds(l, position) + Bounds(r, position)
    case Binary(op, l, r) => OneBound(op, l, r, position)
    case Between(_, v, lo, hi) => OneBound(Ge, v, lo, position) + OneBound(Le, v, hi, position)
    case _ => []
  }

  predicate BoundsBelow(op: Op) { op.Gt? || op.Ge? || op.Eq? || op.NullSafe? }

  predicate BoundsAbove(op: Op) { op.Lt? || op.Le? || op.Eq? || op.NullSafe? }

  predicate AboveBound(op: Op, x: int, n: int) { BoundsBelow(op) ==> n < x || (op != Gt && x == n) }

  predicate BelowBound(op: Op, x: int, n: int) { BoundsAbove(op) ==> x < n || (op != Lt && x == n) }

  lemma TwoEnds(op: Op, x: int, n: int)
    ensures (IsComparison(op) ==> OrderHolds(op, x - n)) <==> AboveBound(op, x, n) && BelowBound(op, x, n)
  {
  }

  /** The largest lower bound; its end is open when a strict bound is among the largest. */
  ghost predicate LowerEnd(bounds: seq<(Op, int)>, end: Option<int>, inclusive: bool) {
    && (end.None? ==> forall b :: b in bounds ==> !BoundsBelow(b.0))
    && (end.Some? ==> && (forall b :: b in bounds && BoundsBelow(b.0) ==> b.1 <= end.value)
                      && (exists b :: b in bounds && BoundsBelow(b.0) && b.1 == end.value)
                      && (inclusive <==> (Gt, end.value) !in bounds))
  }

  ghost predicate UpperEnd(bounds: seq<(Op, int)>, end: Option<int>, inclusive: bool) {
    && (end.None? ==> forall b :: b in bounds ==> !BoundsAbove(b.0))
    && (end.Some? ==> && (forall b :: b in bounds && BoundsAbove(b.0) ==> end.value <= b.1)
                      && (exists b :: b in bounds && BoundsAbove(b.0) && b.1 == end.value)
                      && (inclusive <==> (Lt, end.value) !in bounds))
  }

  /** Two bounds no number meets both of: the lower is above the upper, or they meet and one of them is strict. */
  predicate Clash(lower: (Op, int), upper: (Op, int)) {
    && BoundsBelow(lower.0) && BoundsAbove(upper.0)
    && (lower.1 > upper.1 || (lower.1 == upper.1 && (lower.0.Gt? || upper.0.Lt?)))
  }

  ghost predicate Contradict(bounds: seq<(Op, int)>) { exists a, b :: a in bounds && b in bounds && Clash(a, b) }

  /** The ends of a range cross exactly when two of its bounds contradict each other. */
  lemma EndsCrossIff(bounds: seq<(Op, int)>, lower: Option<int>, lowerInclusive: bool, upper: Option<int>,
                     upperInclusive: bool)
    requires LowerEnd(bounds, lower, lowerInclusive) && UpperEnd(bounds, upper, upperInclusive)
    ensures Contradict(bounds) <==>
            lower.Some? && upper.Some? && (lower.value > upper.value
                                           || (lower.value == upper.value && !(lowerInclusive && upperInclusive)))
  {
    if lower.Some? && upper.Some? {
      var a :| a in bounds && BoundsBelow(a.0) && a.1 == lower.value;
      var b :| b in bounds && BoundsAbove(b.0) && b.1 == upper.value;
      if lower.value > upper.value {
        assert Clash(a, b);
      } else if lower.value == upper.value && !lowerInclusive {
        assert Clash((Gt, lower.value), b);
      } else if lower.value == upper.value && !upperInclusive {
        assert Clash(a, (Lt, upper.value));
      }
    }
  }

  lemma LowerEndGrows(bounds: seq<(Op, int)>, end: Option<int>, inclusive: bool, op: Op, n: int)
    requires LowerEnd(bounds, end, inclusive)
    ensures !BoundsBelow(op) ==> LowerEnd(bounds + [(op, n)], end, inclusive)
    ensures BoundsBelow(op) && (end.None? || n > end.value) ==> LowerEnd(bounds + [(op, n)], Some(n), op != Gt)
    ensures BoundsBelow(op) && end.Some? && n == end.value ==> LowerEnd(bounds + [(op, n)], end, inclusive && op != Gt)
    ensures BoundsBelow(op) && end.Some? && n < end.value ==> LowerEnd(bounds + [(op, n)], end, inclusive)
  {
    var more := bounds + [(op, n)];
    assert forall b :: b in more <==> b in bounds || b == (op, n);
    if end.Some? {
      var b :| b in bounds && BoundsBelow(b.0) && b.1 == end.value;
      assert b in more;
    }
  }

  lemma UpperEndGrows(bounds: seq<(Op, int)>, end: Option<int>, inclusive: bool, op: Op, n: int)
    requires UpperEnd(bounds, end, inclusive)
    ensures !BoundsAbove(op) ==> UpperEnd(bounds + [(op, n)], end, inclusive)
    ensures BoundsAbove(op) && (end.None? || n < end.value) ==> UpperEnd(bounds + [(op, n)], Some(n), op != Lt)
    ensures BoundsAbove(op) && end.Some? && n == end.value ==> UpperEnd(bounds + [(op, n)], end, inclusive && op != Lt)
    ensures BoundsAbove(op) && end.Some? && n > end.value ==> UpperEnd(bounds + [(op, n)], end, inclusive)
  {
    var more := bounds + [(op, n)];
    assert forall b :: b in more <==> b in bounds || b == (op, n);
    if end.Some? {
      var b :| b in bounds && BoundsAbove(b.0) && b.1 == end.value;
      assert b in more;
    }
  }

  // ----- deriving the range ------------------------------------------------------------------

  /** The bounds sqlPrimaryRange tightens while it visits WHERE. */
  class RangeBuilder {
    const position: nat
    var lower: Option<int>
    var upper: Option<int>
    var lowerInclusive: bool
    var upperInclusive: bool
    var bounded: bool
    ghost var bounds: seq<(Op, int)>

    constructor (p: nat)
      ensures position == p && !bounded && forall x :: Admits(x)
      ensures lower.None? && upper.None? && bounds == [] && Tight()
    {
      position := p;
      lower, upper, lowerInclusive, upperInclusive, bounded := None, None, false, false, false;
      bounds := [];
    }

    /** The range is as tight as the bounds that have been visited. */
    ghost predicate Tight()
      reads this
    {
      LowerEnd(bounds, lower, lowerInclusive) && UpperEnd(bounds, upper, upperInclusive)
    }

    predicate AboveLower(x: int)
      reads this`lower, this`lowerInclusive
    {
      lower.Some? ==> lower.value < x || (lowerInclusive && x == lower.value)
    }

    predicate BelowUpper(x: int)
      reads this`upper, this`upperInclusive
    {
      upper.Some? ==> x < upper.value || (upperInclusive && x == upper.value)
    }

    predicate Admits(x: int)
      reads this
    {
      AboveLower(x) && BelowUpper(x)
    }

    predicate Int64Bounds()
      reads this
    {
      (lower.Some? ==> IsInt64(lower.value)) && (upper.Some? ==> IsInt64(upper.value))
    }

    /** The lower end after one more comparison. */
    method RaiseLower(op: Op, n: int)
      requires LowerEnd(bounds, lower, lowerInclusive)
      modifies this`lower, this`lowerInclusive
      ensures lower == old(lower) || lower == Some(n)
      ensures LowerEnd(bounds + [(op, n)], lower, lowerInclusive)
      ensures forall x :: AboveLower(x) <==> old(AboveLower(x)) && AboveBound(op, x, n)
    {
      LowerEndGrows(bounds, lower, lowerInclusive, op, n);
      if op.Gt? || op.Ge? || op.Eq? || op.NullSafe? {
        var inclusive := op != Gt;
        if lower.None? || n > lower.value {
          lower, lowerInclusive := Some(n), inclusive;
        } else if n == lower.value {
          lowerInclusive := lowerInclusive && inclusive;
        }
      }
    }

    /** The upper end after one more comparison. */
    method DropUpper(op: Op, n: int)
      requires UpperEnd(bounds, upper, upperInclusive)
      modifies this`upper, this`upperInclusive
      ensures upper == old(upper) || upper == Some(n)
      ensures UpperEnd(bounds + [(op, n)], upper, upperInclusive)
      ensures forall x :: BelowUpper(x) <==> old(BelowUpper(x)) && BelowBound(op, x, n)
    {
      UpperEndGrows(bounds, upper, upperInclusive, op, n);
      if op.Lt? || op.Le? || op.Eq? || op.NullSafe? {
        var inclusive := op != Lt;
        if upper.None? || n < upper.value {
          upper, upperInclusive := Some(n), inclusive;
        } else if n == upper.value {
          upperInclusive := upperInclusive && inclusive;
        }
      }
    }

    /** Both ends after one more comparison. */
    method Narrow(op: Op, n: int)
      requires Tight()
      modifies this`lower, this`lowerInclusive, this`upper, this`upperInclusive
      ensures (lower == old(lower) || lower == Some(n)) && (upper == old(upper) || upper == Some(n))
      ensures LowerEnd(bounds + [(op, n)], lower, lowerInclusive) && UpperEnd(bounds + [(op, n)], upper, upperInclusive)
      ensures forall x :: AboveLower(x) <==> old(AboveLower(x)) && AboveBound(op, x, n)
      ensures forall x :: BelowUpper(x) <==> old(BelowUpper(x)) && BelowBound(op, x, n)
    {
      RaiseLower(op, n);
      DropUpper(op, n);
    }

    method Add(op: Op, n: int)
      requires Int64Bounds() && IsInt64(n) && Tight()
      modifies this
      ensures Int64Bounds() && bounded && Tight() && bounds == old(bounds) + [(op, n)]
      ensures forall x :: Admits(x) <==> old(Admits(x)) && (IsComparison(op) ==> OrderHolds(op, x - n))
    {
      Narrow(op, n);
      bounds, bounded := bounds + [(op, n)], true;
      forall x ensures Admits(x) <==> old(Admits(x)) && (IsComparison(op) ==> OrderHolds(op, x - n)) {
        TwoEnds(op, x, n);
      }
    }

    method VisitComparison(op: Op, l: Expr, r: Expr)
      requires Int64Bounds() && !op.And? && Tight()
      modifies this
      ensures Int64Bounds() && Tight() && bounds == old(bounds) + OneBound(op, l, r, position)
      ensures forall x :: Admits(x) <==> old(Admits(x)) && BoundHolds(op, l, r, position, x)
      ensures !bounded ==> !old(bounded) && Bound(op, l, r, position).None?
    {
      var bound := Bound(op, l, r, position);
      if bound.Some? {
        Add(bound.value.0, bound.value.1);
        forall x ensures Admits(x) <==> old(Admits(x)) && BoundHolds(op, l, r, position, x) {
          BoundMeans(op, l, r, position, x, bound.value.0, bound.value.1);
        }
      }
    }

    method VisitBetween(v: Expr, lo: Expr, hi: Expr)
      requires Int64Bounds() && Tight()
      modifies this
      ensures Int64Bounds() && Tight()
      ensures bounds == old(bounds) + (OneBound(Ge, v, lo, position) + OneBound(Le, v, hi, position))
      ensures forall x :: Admits(x) <==>
                old(Admits(x)) && BoundHolds(Ge, v, lo, position, x) && BoundHolds(Le, v, hi, position, x)
      ensures !bounded ==> !old(bounded) && Bound(Ge, v, lo, position).None? && Bound(Le, v, hi, position).None?
    {
      VisitComparison(Ge, v, lo);
      VisitComparison(Le, v, hi);
    }

    method Visit(e: Expr)
      requires Int64Bounds() && Tight()
      modifies this
      ensures Int64Bounds() && Tight() && bounds == old(bounds) + Bounds(e, position)
      ensures forall x :: Admits(x) <==> old(Admits(x)) && Within(e, position, x)
      ensures !bounded ==> !old(bounded) && forall x :: Within(e, position, x)
      decreases e
    {
      match e
      case Between(_, v, lo, hi) =>
        VisitBetween(v, lo, hi);
      case Binary(op, l, r) =>
        if op.And? {
          Visit(l);
          Visit(r);
        } else {
          VisitComparison(op, l, r);
        }
      case _ =>
    }

    method Range() returns (r: KeyRange)
      requires Int64Bounds() && Tight()
      ensures TightRange(bounds, r)
      ensures forall x | IsInt64(x) :: InKeyRange(r, SignedInteger(x)) <==> Admits(x)
      ensures r.lower.None? <==> lower.None?
      ensures r.upper.None? <==> upper.None?
    {
      r := KeyRange(if lower.Some? then Some(SignedInteger(lower.value)) else None,
                    if upper.Some? then Some(SignedInteger(upper.value)) else None,
                    lowerInclusive, upperInclusive);
      assert HasEnds(bounds, r, lower, upper);
      forall x | IsInt64(x) ensures InKeyRange(r, SignedInteger(x)) <==> Admits(x) {
        if lower.Some? { SignedIntegerOrder(lower.value, x); }
        if upper.Some? { SignedIntegerOrder(x, upper.value); }
      }
    }
  }

  predicate IsKeyOf(key: Option<Data>, n: Option<int>) {
    match n
    case None => key.None?
    case Some(x) => IsInt64(x) && key == Some(SignedInteger(x))
  }

  ghost predicate HasEnds(bounds: seq<(Op, int)>, r: KeyRange, lower: Option<int>, upper: Option<int>) {
    && LowerEnd(bounds, lower, r.lowerInclusive) && UpperEnd(bounds, upper, r.upperInclusive)
    && IsKeyOf(r.lower, lower) && IsKeyOf(r.upper, upper)
  }

  /** A range whose ends are the keys of the tightest bounds. */
  ghost predicate TightRange(bounds: seq<(Op, int)>, r: KeyRange) {
    exists lower, upper :: HasEnds(bounds, r, lower, upper)
  }

  /** The bounds the range planner collects from WHERE. */
  function WhereBounds(t: Table, where: Option<Expr>): seq<(Op, int)> {
    if where.None? || IntegerPrimary(t).None? then [] else Bounds(where.value, IntegerPrimary(t).value)
  }

  predicate SafeWhere(t: Table, where: Option<Expr>) { where.Some? ==> SafeRange(t.columns, where.value) }

  predicate RangeApplies(t: Table, where: Option<Expr>) {
    t.integerKey && IntegerPrimary(t).Some? && SafeWhere(t, where)
  }

  /** A range that admits exactly the integer keys every bound of WHERE allows. */
  ghost predicate RangeOf(t: Table, where: Option<Expr>, r: KeyRange) {
    && RangeApplies(t, where)
    && forall x | IsInt64(x) :: InKeyRange(r, SignedInteger(x)) <==> WhereWithin(where, IntegerPrimary(t).value, x)
  }

  const UNBOUNDED := KeyRange(None, None, false, false)

  /** sqlPrimaryRange. */
  method PrimaryRange(t: Table, where: Option<Expr>) returns (r: KeyRange, bounded: bool)
    ensures RangeApplies(t, where) ==> RangeOf(t, where, r) && TightRange(WhereBounds(t, where), r)
    ensures !RangeApplies(t, where) ==> r == UNBOUNDED && !bounded
    ensures RangeApplies(t, where) && !bounded ==> forall x :: WhereWithin(where, IntegerPrimary(t).value, x)
  {
    var position := IntegerPrimary(t);
    if !t.integerKey || !SafeWhere(t, where) || position.None? { return UNBOUNDED, false; }
    var builder := new RangeBuilder(position.value);
    if where.Some? { builder.Visit(where.value); }
    assert builder.bounds == WhereBounds(t, where);
    r := builder.Range();
    bounded := builder.bounded;
  }

  // ----- point lookups and unique probes -----------------------------------------------------

  /** sqlPointKey on an integer primary key; `fits` is the range check of the column's type. */
  function PointKey(t: Table, where: Option<Expr>, fits: (DataType, int) -> bool): Option<Key> {
    if !RangeApplies(t, where) || where.None? || !SafeIndex(t.columns, where.value) then None else
      match where.value
      case Binary(Eq, Ident(p), Lit(IntegerLiteral(n))) =>
        if p == IntegerPrimary(t) && fits(t.columns[p.value].typ, n) && IsInt64(n) then Some(SignedInteger(n)) else None
      case _ => None
  }

  /** `key = n` is looked up directly, and accepts exactly the row stored under that key. */
  lemma PointIsUsed(env: Env, t: Table, n: int, fits: (DataType, int) -> bool, rows: map<Key, Row>, k: Key)
    requires t.integerKey && IntegerPrimary(t).Some? && fits(t.columns[IntegerPrimary(t).value].typ, n)
    requires WithinFloat(n) && RowsConform(t, rows) && k in rows
    ensures var where := Some(Binary(Eq, Ident(IntegerPrimary(t)), Lit(IntegerLiteral(n))));
            && PointKey(t, where, fits) == Some(SignedInteger(n))
            && (Accepts(env, where, rows[k]) <==> k == SignedInteger(n))
  {
    var p := IntegerPrimary(t).value;
    KeyOfRow(t, rows, k);
    ComparisonMeans(env, Eq, rows[k], p, n);
    SignedIntegerOrder(rows[k][p].n, n);
  }

  /** The integer a comparison fixes a column to. */
  function Fixed(columns: seq<Column>, op: Op, l: Expr, r: Expr, fits: (DataType, int) -> bool): Option<(nat, int)> {
    match Sides(l, r)
    case None => None
    case Some((p, literal, _)) =>
      if (op.Eq? || op.NullSafe?) && p.Some? && p.value < |columns| && IsIntegerType(columns[p.value].typ)
         && literal.IntegerLiteral? && fits(columns[p.value].typ, literal.n)
      then Some((p.value, literal.n))
      else None
  }

  /** The columns an expression fixes, the later of two comparisons on one column winning. */
  function FixedValues(columns: seq<Column>, e: Expr, fits: (DataType, int) -> bool, values: map<nat, int>)
    : map<nat, int>
  {
    match e
    case Binary(And, l, r) => FixedValues(columns, r, fits, FixedValues(columns, l, fits, values))
    case Binary(op, l, r) =>
      (match Fixed(columns, op, l, r, fits) case None => values case Some((p, n)) => values[p := n])
    case _ => values
  }

  /** c is one of the conditions WHERE joins with AND. */
  predicate Conjunct(e: Expr, c: Expr) {
    e == c || (e.Binary? && e.op.And? && (Conjunct(e.left, c) || Conjunct(e.right, c)))
  }

  /** Every condition `column = n` that fits its integer column fixes it, wherever it stands in WHERE. */
  lemma {:induction false} ConjunctFixes(columns: seq<Column>, e: Expr, fits: (DataType, int) -> bool,
                                         values: map<nat, int>, p: nat, n: int)
    requires p < |columns| && IsIntegerType(columns[p].typ) && fits(columns[p].typ, n)
    requires p in values || Conjunct(e, Binary(Eq, Ident(Some(p)), Lit(IntegerLiteral(n))))
    ensures p in FixedValues(columns, e, fits, values)
  {
    if e.Binary? && e.op.And? {
      var first := FixedValues(columns, e.left, fits, values);
      if p in values || Conjunct(e.left, Binary(Eq, Ident(Some(p)), Lit(IntegerLiteral(n)))) {
        ConjunctFixes(columns, e.left, fits, values, p, n);
      }
      ConjunctFixes(columns, e.right, fits, first, p, n);
    }
  }

  /** Columns fixed by a true expression hold the fixed values. */
  lemma {:induction false} TrueMeansFixed(env: Env, columns: seq<Column>, e: Expr, fits: (DataType, int) -> bool,
                                          values: map<nat, int>, row: Row, p: nat)
    requires SafeIndex(columns, e) && Conforms(columns, row)
    requires Eval(env, e, row).Ok? && Truthy(env, Eval(env, e, row).value)
    requires p in values ==> p < |row| && row[p] == Integer(columns[p].typ, values[p])
    requires p in FixedValues(columns, e, fits, values)
    ensures p < |row| && row[p] == Integer(columns[p].typ, FixedValues(columns, e, fits, values)[p])
  {
    if e.Binary? && e.op.And? {
      var first := FixedValues(columns, e.left, fits, values);
      if p in first { TrueMeansFixed(env, columns, e.left, fits, values, row, p); }
      TrueMeansFixed(env, columns, e.right, fits, first, row, p);
    } else if e.Binary? {
      var fixed := Fixed(columns, e.op, e.left, e.right, fits);
      if fixed.Some? && fixed.value.0 == p {
        assert row[p].typ == columns[p].typ && WellTyped(row[p]);
        TrueEquality(env, columns, e.op, e.left, e.right, row, p, fixed.value.1);
      }
    }
  }

  lemma TrueEquality(env: Env, columns: seq<Column>, op: Op, l: Expr, r: Expr, row: Row, p: nat, n: int)
    requires SafeComparison(columns, op, l, r) && |row| == |columns| && p < |row| && (op.Eq? || op.NullSafe?)
    requires Sides(l, r).Some? && Sides(l, r).value.0 == Some(p) && Sides(l, r).value.1 == IntegerLiteral(n)
    requires IsIntegerType(columns[p].typ) && row[p].typ == columns[p].typ && WellTyped(row[p])
    requires Eval(env, Binary(op, l, r), row).Ok? && Truthy(env, Eval(env, Binary(op, l, r), row).value)
    ensures row[p].Integer? && row[p].n == n
  {
    assert row[p].Null? || row[p].Integer?;
    if row[p].Integer? { FloatCompareExact(row[p].n, n); }
  }

  /** The row sqlUniqueCandidates probes with: the fixed columns, zero values elsewhere. */
  function ProbeRow(columns: seq<Column>, values: map<nat, int>): Row {
    seq(|columns|, i requires 0 <= i < |columns| => Integer(columns[i].typ, if i in values then values[i] else 0))
  }

  predicate AllFixed(index: Index, values: map<nat, int>) {
    index.columns != [] && forall c :: c in index.columns ==> c in values
  }

  predicate SameKeyWhenAlike(t: Table, index: Index, r1: Row, r2: Row) {
    index in t.indexes && |r1| == |t.columns| == |r2|
      && (forall c :: c in index.columns ==> c < |t.columns| && r1[c] == r2[c])
    ==> t.valueKey(index, r1) == t.valueKey(index, r2)
  }

  /** storage.IndexValueKey looks at nothing but the index's own columns. */
  ghost predicate KeysProject(t: Table) { forall index, r1, r2 :: SameKeyWhenAlike(t, index, r1, r2) }

  /** sqlUniqueCandidates: the first unique index whose columns are all fixed, and the value to probe. */
  method UniqueCandidate(t: Table, where: Option<Expr>, fits: (DataType, int) -> bool)
    returns (r: Option<(Index, Data)>)
    ensures r.Some? ==> UniqueProbe(t, where, fits, r.value.0, r.value.1)
    ensures r.None? ==> forall index, key :: !UniqueProbe(t, where, fits, index, key)
  {
    if where.None? || !SafeIndex(t.columns, where.value) { return None; }
    var values := FixedValues(t.columns, where.value, fits, map[]);
    for i := 0 to |t.indexes|
      invariant forall j, key :: 0 <= j < i ==> !UniqueProbe(t, where, fits, t.indexes[j], key)
    {
      var index := t.indexes[i];
      if index.unique && !index.primary && AllFixed(index, values) {
        var key := t.valueKey(index, ProbeRow(t.columns, values));
        if key.Some? { return Some((index, key.value)); }
      }
    }
    return None;
  }

  predicate UniqueProbe(t: Table, where: Option<Expr>, fits: (DataType, int) -> bool, index: Index, key: Data) {
    && where.Some? && SafeIndex(t.columns, where.value)
    && index in t.indexes && index.unique && !index.primary
    && var values := FixedValues(t.columns, where.value, fits, map[]);
    && AllFixed(index, values)
    && t.valueKey(index, ProbeRow(t.columns, values)) == Some(key)
  }

  /** A unique index whose columns WHERE all fixes is probed, unless the value has no key. */
  lemma UniqueIsUsed(t: Table, where: Expr, fits: (DataType, int) -> bool, index: Index)
    requires SafeIndex(t.columns, where) && index in t.indexes && index.unique && !index.primary && index.columns != []
    requires forall c :: c in index.columns ==> FixedByConjunct(t.columns, where, fits, c)
    ensures var values := FixedValues(t.columns, where, fits, map[]);
            t.valueKey(index, ProbeRow(t.columns, values)).Some? ==>
              exists key :: UniqueProbe(t, Some(where), fits, index, key)
  {
    var values := FixedValues(t.columns, where, fits, map[]);
    forall c | c in index.columns ensures c in values {
      var n :| Conjunct(where, Binary(Eq, Ident(Some(c)), Lit(IntegerLiteral(n)))) && fits(t.columns[c].typ, n);
      ConjunctFixes(t.columns, where, fits, map[], c, n);
    }
    var key := t.valueKey(index, ProbeRow(t.columns, values));
    if key.Some? { assert UniqueProbe(t, Some(where), fits, index, key.value); }
  }

  ghost predicate FixedByConjunct(columns: seq<Column>, where: Expr, fits: (DataType, int) -> bool, c: nat) {
    && c < |columns| && IsIntegerType(columns[c].typ)
    && exists n :: Conjunct(where, Binary(Eq, Ident(Some(c)), Lit(IntegerLiteral(n)))) && fits(columns[c].typ, n)
  }

  lemma ProbedRow(env: Env, t: Table, where: Expr, fits: (DataType, int) -> bool, index: Index, key: Data, row: Row)
    requires KeysProject(t) && Conforms(t.columns, row) && UniqueProbe(t, Some(where), fits, index, key)
    requires Eval(env, where, row).Ok? && Truthy(env, Eval(env, where, row).value)
    ensures t.valueKey(index, row) == Some(key)
  {
    var values := FixedValues(t.columns, where, fits, map[]);
    var probe := ProbeRow(t.columns, values);
    forall c | c in index.columns ensures c < |t.columns| && probe[c] == row[c] {
      assert c in values;
      TrueMeansFixed(env, t.columns, where, fits, map[], row, c);
    }
    assert SameKeyWhenAlike(t, index, probe, row);
  }

  // ----- plans -------------------------------------------------------------------------------

  datatype Plan =
    | Point(key: Key)
    | Unique(index: Index, key: Data)
    | Ranged(bounds: KeyRange, reverse: bool)
    | Ordered(bounds: KeyRange, reverse: bool)
    | All

  /** What makes each plan a plan for WHERE. */
  ghost predicate PlanOf(t: Table, where: Option<Expr>, fits: (DataType, int) -> bool, plan: Plan) {
    match plan
    case Point(key) => PointKey(t, where, fits) == Some(key)
    case Unique(index, key) => UniqueProbe(t, where, fits, index, key)
    case Ranged(bounds, _) => RangeOf(t, where, bounds)
    case Ordered(bounds, _) => RangeOf(t, where, bounds) && forall x :: WhereWithin(where, IntegerPrimary(t).value, x)
    case All => true
  }

  /**
   planSQLAccess without the secondary path. `orderedByKey` says that ORDER BY is exactly the primary key
   (sqlPrimaryOrder) and `descending` its direction.
   */
  method PlanAccess(t: Table, where: Option<Expr>, fits: (DataType, int) -> bool, orderedByKey: bool, descending: bool)
    returns (plan: Plan)
    requires orderedByKey ==> t.integerKey && IntegerPrimary(t).Some?
    ensures PlanOf(t, where, fits, plan)
    ensures plan.Point? || PointKey(t, where, fits).None?
    ensures plan.Point? || plan.Unique? || forall i, k :: !UniqueProbe(t, where, fits, i, k)
    ensures plan.All? ==> (SafeWhere(t, where) ==> !orderedByKey)
    ensures plan.Ranged? || plan.Ordered? ==> TightRange(WhereBounds(t, where), plan.bounds)
    ensures orderedByKey && (plan.Ranged? || plan.Ordered?) ==> plan.reverse == descending
  {
    var ordered := orderedByKey && SafeWhere(t, where);
    var point := PointKey(t, where, fits);
    if point.Some? { return Point(point.value); }
    var bounds, bounded := PrimaryRange(t, where);
    var candidate := UniqueCandidate(t, where, fits);
    if candidate.Some? { return Unique(candidate.value.0, candidate.value.1); }
    if bounded { return Ranged(bounds, ordered && descending); }
    if ordered { return Ordered(bounds, descending); }
    return All;
  }

  /** The keys a plan visits, in a table with these rows and unique entries. */
  ghost function Visited(plan: Plan, rows: map<Key, Row>, unique: map<Slot, Key>): set<Key> {
    match plan
    case Point(key) => set k | k in rows && k == key
    case Unique(index, key) => set k | k in rows && (index.name, key) in unique && k == unique[(index.name, key)]
    case Ranged(bounds, _) => set k | k in rows && InKeyRange(bounds, k)
    case Ordered(bounds, _) => set k | k in rows && InKeyRange(bounds, k)
    case All => rows.Keys
  }

  /** The WHERE filter over the visited rows; a row that fails to evaluate fails the statement. */
  function Select(env: Env, where: Option<Expr>, rows: map<Key, Row>, scan: seq<Key>): Result<seq<Key>, EvalError>
    requires forall k :: k in scan ==> k in rows
  {
    if scan == [] then Ok([]) else
      var kept := if where.None? then Ok(SBool(true)) else Eval(env, where.value, rows[scan[0]]);
      if kept.Err? then Err(kept.error) else
        var rest := Select(env, where, rows, scan[1..]);
        if rest.Err? then rest
        else Ok((if Truthy(env, kept.value) then [scan[0]] else []) + rest.value)
  }

  predicate Accepts(env: Env, where: Option<Expr>, row: Row) {
    where.None? || (Eval(env, where.value, row).Ok? && Truthy(env, Eval(env, where.value, row).value))
  }

  /** Only keys a plan visits can satisfy WHERE. */
  lemma AcceptedIsVisited(env: Env, t: Table, where: Option<Expr>, fits: (DataType, int) -> bool, plan: Plan,
                          rows: map<Key, Row>, unique: map<Slot, Key>, k: Key)
    requires KeysProject(t) && RowsConform(t, rows) && UniqueExact(t, rows, unique)
    requires PlanOf(t, where, fits, plan) && k in rows && Accepts(env, where, rows[k])
    ensures k in Visited(plan, rows, unique)
  {
    match plan
    case Unique(index, key) => AcceptedIsProbed(env, t, where, fits, index, key, rows, unique, k);
    case All =>
    case _ =>
      KeyOfRow(t, rows, k);
      if where.Some? { TrueMeansWithin(env, t.columns, where.value, rows[k], IntegerPrimary(t).value); }
  }

  lemma AcceptedIsProbed(env: Env, t: Table, where: Option<Expr>, fits: (DataType, int) -> bool, index: Index,
                         key: Data,
                         rows: map<Key, Row>, unique: map<Slot, Key>, k: Key)
    requires KeysProject(t) && RowsConform(t, rows) && UniqueExact(t, rows, unique)
    requires UniqueProbe(t, where, fits, index, key) && k in rows && Accepts(env, where, rows[k])
    ensures (index.name, key) in unique && unique[(index.name, key)] == k
  {
    ProbedRow(env, t, where.value, fits, index, key, rows[k]);
    var i :| 0 <= i < |t.indexes| && t.indexes[i] == index;
    UniqueUpToMember(t, rows[k], |t.indexes|, (index.name, key));
  }

  lemma KeyOfRow(t: Table, rows: map<Key, Row>, k: Key)
    requires RowsConform(t, rows) && k in rows && t.integerKey && IntegerPrimary(t).Some?
    ensures var p := IntegerPrimary(t).value;
            p < |rows[k]| && rows[k][p].Integer? && IsInt64(rows[k][p].n) && k == SignedInteger(rows[k][p].n)
  {
    assert PrimaryIndex(t).Some?;
    assert PrimaryKey(t, rows[k]) == Some(k);
  }

  // ----- the plan gives the full scan's answer -----------------------------------------------

  function WhereBad(where: Option<Expr>): Option<EvalError> { if where.None? then None else FirstBad(where.value) }

  lemma {:induction false} SelectBad(env: Env, t: Table, where: Option<Expr>, rows: map<Key, Row>, scan: seq<Key>)
    requires RowsConform(t, rows) && SafeWhere(t, where) && WhereBad(where).Some?
    requires forall k :: k in scan ==> k in rows
    ensures Select(env, where, rows, scan) == if scan == [] then Ok([]) else Err(WhereBad(where).value)
  {
    if scan != [] { SafeEval(env, t.columns, where.value, rows[scan[0]]); }
  }

  lemma {:induction false} SelectGood(env: Env, t: Table, where: Option<Expr>, rows: map<Key, Row>, scan: seq<Key>)
    requires RowsConform(t, rows) && SafeWhere(t, where) && WhereBad(where).None?
    requires forall k :: k in scan ==> k in rows
    ensures var r := Select(env, where, rows, scan);
            r.Ok? && forall k :: multiset(r.value)[k] == if k in rows && Accepts(env, where, rows[k])
              then multiset(scan)[k] else 0
  {
    if scan != [] {
      var head, tail := scan[0], scan[1..];
      if where.Some? { SafeEval(env, t.columns, where.value, rows[head]); }
      SelectGood(env, t, where, rows, tail);
      assert multiset(scan) == multiset{head} + multiset(tail) by { assert scan == [head] + tail; }
      var rest := Select(env, where, rows, tail).value;
      if Accepts(env, where, rows[head]) {
        assert Select(env, where, rows, scan) == Ok([head] + rest);
      } else {
        assert Select(env, where, rows, scan) == Ok(rest) by { assert [] + rest == rest; }
      }
    }
  }

  /** A scan visits every key of a set once. */
  ghost predicate Lists(scan: seq<Key>, keys: set<Key>) { multiset(scan) == multiset(keys) }

  lemma ListsMembers(scan: seq<Key>, keys: set<Key>, k: Key)
    requires Lists(scan, keys)
    ensures k in scan <==> k in keys
  {
    assert k in scan <==> k in multiset(scan);
  }

  ghost predicate SameOutcome(a: Result<seq<Key>, EvalError>, b: Result<seq<Key>, EvalError>) {
    if a.Ok? && b.Ok? then multiset(a.value) == multiset(b.value) else a == b
  }

  /**
   The planned access and the full scan answer alike: the same rows, each once, or the same error. The one
   exception is a literal that does not evaluate (a 70-digit number, say) when the plan visits no row: the full
   scan of a non-empty table reports it and the plan does not.
   */
  lemma PlanMatchesFullScan(env: Env, t: Table, where: Option<Expr>, fits: (DataType, int) -> bool, plan: Plan,
                            rows: map<Key, Row>, unique: map<Slot, Key>, scan: seq<Key>, full: seq<Key>)
    requires KeysProject(t) && RowsConform(t, rows) && UniqueExact(t, rows, unique)
    requires PlanOf(t, where, fits, plan) && !plan.All?
    requires Lists(scan, Visited(plan, rows, unique)) && Lists(full, rows.Keys)
    requires forall k :: k in scan || k in full ==> k in rows
    ensures SameOutcome(Select(env, where, rows, scan), Select(env, where, rows, full))
            <==> !(WhereBad(where).Some? && rows != map[] && scan == [])
  {
    if plan.Unique? { SafeIndexIsSafeRange(t.columns, where.value); }
    assert SafeWhere(t, where);
    if WhereBad(where).Some? {
      SelectBad(env, t, where, rows, scan);
      SelectBad(env, t, where, rows, full);
      EmptyListing(full, rows);
    } else {
      SameRows(env, t, where, fits, plan, rows, unique, scan, full);
    }
  }

  lemma SameRows(env: Env, t: Table, where: Option<Expr>, fits: (DataType, int) -> bool, plan: Plan,
                 rows: map<Key, Row>, unique: map<Slot, Key>, scan: seq<Key>, full: seq<Key>)
    requires KeysProject(t) && RowsConform(t, rows) && UniqueExact(t, rows, unique)
    requires PlanOf(t, where, fits, plan) && SafeWhere(t, where) && WhereBad(where).None?
    requires Lists(scan, Visited(plan, rows, unique)) && Lists(full, rows.Keys)
    requires forall k :: k in scan || k in full ==> k in rows
    ensures SameOutcome(Select(env, where, rows, scan), Select(env, where, rows, full))
  {
    SelectGood(env, t, where, rows, scan);
    SelectGood(env, t, where, rows, full);
    var a, b := Select(env, where, rows, scan).value, Select(env, where, rows, full).value;
    forall k ensures multiset(a)[k] == multiset(b)[k] {
      if k in rows && Accepts(env, where, rows[k]) {
        AcceptedIsVisited(env, t, where, fits, plan, rows, unique, k);
      }
    }
  }

  // ----- conditions on the key alone ---------------------------------------------------------

  /** A comparison of the key with a literal the planner accepts, on either side. */
  predicate KeyComparison(op: Op, l: Expr, r: Expr, p: nat) {
    && IsComparison(op) && Sides(l, r).Some? && Sides(l, r).value.0 == Some(p)
    && Sides(l, r).value.1.IntegerLiteral? && WithinFloat(Sides(l, r).value.1.n)
  }

  /** WHERE is built from such comparisons, BETWEEN and AND. */
  predicate KeyOnly(e: Expr, p: nat) {
    match e
    case Binary(And, l, r) => KeyOnly(l, p) && KeyOnly(r, p)
    case Binary(op, l, r) => KeyComparison(op, l, r, p)
    case Between(negated, v, lo, hi) => !negated && KeyComparison(Ge, v, lo, p) && KeyComparison(Le, v, hi, p)
    case _ => false
  }

  /** What such a comparison says of a key with the value x. */
  predicate Compares(op: Op, l: Expr, r: Expr, p: nat, x: int)
    requires KeyComparison(op, l, r, p)
  {
    if l.Ident? then IntegersCompare(op, x, r.literal.n) else IntegersCompare(op, l.literal.n, x)
  }

  predicate Meets(e: Expr, p: nat, x: int)
    requires KeyOnly(e, p)
  {
    match e
    case Binary(And, l, r) => Meets(l, p, x) && Meets(r, p, x)
    case Binary(op, l, r) => Compares(op, l, r, p, x)
    case Between(_, v, lo, hi) => Compares(Ge, v, lo, p, x) && Compares(Le, v, hi, p, x)
  }

  lemma ComparesMeans(env: Env, op: Op, l: Expr, r: Expr, p: nat, row: Row)
    requires KeyComparison(op, l, r, p) && p < |row| && row[p].Integer?
    ensures Eval(env, Binary(op, l, r), row) == Ok(SBool(Compares(op, l, r, p, row[p].n)))
    ensures BoundHolds(op, l, r, p, row[p].n) <==> Compares(op, l, r, p, row[p].n)
  {
    if l.Ident? {
      ComparisonMeans(env, op, row, p, r.literal.n);
    } else {
      ComparisonMeans(env, op, row, p, l.literal.n);
    }
  }

  lemma BetweenIsTwo(env: Env, v: Expr, lo: Expr, hi: Expr, row: Row, a: bool, b: bool)
    requires Eval(env, Binary(Ge, v, lo), row) == Ok(SBool(a)) && Eval(env, Binary(Le, v, hi), row) == Ok(SBool(b))
    ensures Eval(env, Between(false, v, lo, hi), row) == Ok(SBool(a && b))
  {
  }

  /** Such a WHERE is true of a row exactly when its key meets it, and exactly when the planner's bounds hold. */
  lemma {:induction false} KeyOnlyMeans(env: Env, e: Expr, p: nat, row: Row)
    requires KeyOnly(e, p) && p < |row| && row[p].Integer?
    ensures Eval(env, e, row) == Ok(SBool(Meets(e, p, row[p].n)))
    ensures Within(e, p, row[p].n) <==> Meets(e, p, row[p].n)
  {
    if e.Between? {
      ComparesMeans(env, Ge, e.value, e.lower, p, row);
      ComparesMeans(env, Le, e.value, e.upper, p, row);
      BetweenIsTwo(env, e.value, e.lower, e.upper, row,
                   Compares(Ge, e.value, e.lower, p, row[p].n), Compares(Le, e.value, e.upper, p, row[p].n));
    } else if e.op.And? {
      KeyOnlyMeans(env, e.left, p, row);
      KeyOnlyMeans(env, e.right, p, row);
    } else {
      ComparesMeans(env, e.op, e.left, e.right, p, row);
    }
  }

  /** Then a stored row is accepted exactly when its key meets WHERE, and exactly when it lies in the derived range. */
  lemma AcceptedIffInRange(env: Env, t: Table, where: Expr, bounds: KeyRange, rows: map<Key, Row>, k: Key)
    requires RowsConform(t, rows) && RangeOf(t, Some(where), bounds) && KeyOnly(where, IntegerPrimary(t).value)
    requires k in rows
    ensures var p := IntegerPrimary(t).value;
            && p < |rows[k]| && rows[k][p].Integer?
            && (Accepts(env, Some(where), rows[k]) <==> Meets(where, p, rows[k][p].n))
            && (Accepts(env, Some(where), rows[k]) <==> InKeyRange(bounds, k))
  {
    KeyOfRow(t, rows, k);
    KeyOnlyMeans(env, where, IntegerPrimary(t).value, rows[k]);
  }

  lemma {:induction false} KeyOnlyHasNoBad(e: Expr, p: nat)
    requires KeyOnly(e, p)
    ensures FirstBad(e).None?
  {
    if e.Binary? && e.op.And? {
      KeyOnlyHasNoBad(e.left, p);
      KeyOnlyHasNoBad(e.right, p);
    }
  }

  /**
   The answer of every plan, the full scan among them, is exactly the rows whose keys lie in the derived range: those
   whose keys meet WHERE.
   */
  lemma AnswerIsRange(env: Env, t: Table, where: Expr, fits: (DataType, int) -> bool, plan: Plan, bounds: KeyRange,
                      rows: map<Key, Row>, unique: map<Slot, Key>, scan: seq<Key>)
    requires KeysProject(t) && RowsConform(t, rows) && UniqueExact(t, rows, unique)
    requires RangeOf(t, Some(where), bounds) && KeyOnly(where, IntegerPrimary(t).value)
    requires PlanOf(t, Some(where), fits, plan) && Lists(scan, Visited(plan, rows, unique))
    requires forall k :: k in scan ==> k in rows
    ensures var r := Select(env, Some(where), rows, scan);
            r.Ok? && multiset(r.value) == multiset(set k | k in rows && InKeyRange(bounds, k))
  {
    KeyOnlyHasNoBad(where, IntegerPrimary(t).value);
    SelectGood(env, t, Some(where), rows, scan);
    var r := Select(env, Some(where), rows, scan);
    var answer := set k | k in rows && InKeyRange(bounds, k);
    forall k ensures multiset(r.value)[k] == multiset(answer)[k] {
      if k in rows {
        AcceptedIffInRange(env, t, where, bounds, rows, k);
        if k in answer { AcceptedIsVisited(env, t, Some(where), fits, plan, rows, unique, k); }
      }
    }
  }

  /** The exception occurs: `id = 5 AND <unusable number>` on a table without the key 5. */
  lemma HiddenLiteralError(env: Env, t: Table, rows: map<Key, Row>, unique: map<Slot, Key>, bounds: KeyRange,
                           full: seq<Key>,
                           error: EvalError)
    requires RowsConform(t, rows) && t.integerKey && IntegerPrimary(t).Some?
    requires SignedInteger(5) !in rows && rows != map[] && Lists(full, rows.Keys)
    requires forall k :: k in full ==> k in rows
    requires RangeOf(t, Some(UnusableWhere(t, error)), bounds)
    ensures Visited(Ranged(bounds, false), rows, unique) == {}
    ensures Select(env, Some(UnusableWhere(t, error)), rows, []) == Ok([])
    ensures Select(env, Some(UnusableWhere(t, error)), rows, full) == Err(error)
  {
    var where := Some(UnusableWhere(t, error));
    forall k | k in rows ensures !InKeyRange(bounds, k) {
      KeyOfRow(t, rows, k);
      UnusableMeaning(t, error, rows[k][IntegerPrimary(t).value].n);
    }
    UnusableMeaning(t, error, 5);
    EmptyListing(full, rows);
    SelectBad(env, t, where, rows, full);
  }

  lemma UnusableMeaning(t: Table, error: EvalError, x: int)
    requires IntegerPrimary(t).Some?
    ensures Within(UnusableWhere(t, error), IntegerPrimary(t).value, x) <==> x == 5
    ensures FirstBad(UnusableWhere(t, error)) == Some(error)
  {
    var left, right := UnusableWhere(t, error).left, UnusableWhere(t, error).right;
    assert FirstBad(left.left).None? && FirstBad(left.right).None? && FirstBad(left).None?;
    assert FirstBad(right) == Some(error);
    assert Within(left, IntegerPrimary(t).value, x) <==> x == 5;
  }

  function UnusableWhere(t: Table, error: EvalError): Expr {
    Binary(And, Binary(Eq, Ident(IntegerPrimary(t)), Lit(IntegerLiteral(5))), Lit(OtherNumber(Err(error))))
  }

  lemma EmptyListing(full: seq<Key>, rows: map<Key, Row>)
    requires Lists(full, rows.Keys)
    ensures full == [] <==> rows == map[]
  {
    if full == [] {
      forall k ensures k !in rows { ListsMembers(full, rows.Keys, k); }
    } else {
      ListsMembers(full, rows.Keys, full[0]);
    }
  }
}
