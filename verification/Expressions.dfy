/**
 WHERE expressions as the access planner sees them: three-valued evaluation with errors, comparison of integers
 through float64, and the expressions the planner considers safe to answer from an index.
 */
module Expressions {
  import opened Wrappers
  import opened Bytes
  import opened Schema
  import opened Float64

  datatype EvalError = UnknownColumn | BadLiteral(text: string) | OtherError(id: nat)

  datatype Scalar =
    | SNull
    | SInt(n: int)
    | SBool(b: bool)
    | SColumn(position: nat, value: Value)
    | SText(text: Data)
    | SNumber(text: Data)

  /** A number either parses as an int64 or is a decimal or a float, which may be out of range. */
  datatype Literal =
    | NullLiteral
    | StringLiteral(text: Data)
    | BooleanLiteral(b: bool)
    | IntegerLiteral(n: int)
    | OtherNumber(value: Result<Scalar, EvalError>)

  datatype Op = And | Eq | NullSafe | Lt | Gt | Le | Ge | OtherOp(id: nat)

  /** Identifiers carry the column position their name resolves to. */
  datatype Expr =
    | Lit(literal: Literal)
    | Ident(position: Option<nat>)
    | Binary(op: Op, left: Expr, right: Expr)
    | Between(negated: bool, value: Expr, lower: Expr, upper: Expr)
    | OtherExpr(id: nat)

  /** What the model leaves arbitrary: comparison and truth of non-integers, other operators and calls. */
  datatype Env = Env(
    compare: (Scalar, Scalar) -> int,
    truth: Scalar -> bool,
    operate: (nat, Scalar, Scalar) -> Result<Scalar, EvalError>,
    call: (nat, Row) -> Result<Scalar, EvalError>)

  function LiteralValue(l: Literal): Result<Scalar, EvalError> {
    match l
    case NullLiteral => Ok(SNull)
    case StringLiteral(text) => Ok(SText(text))
    case BooleanLiteral(b) => Ok(SBool(b))
    case IntegerLiteral(n) => Ok(SInt(n))
    case OtherNumber(value) => value
  }

  /** A column's value; text and dates keep the column, whose collation decides how they compare. */
  function ColumnValue(position: nat, v: Value): Scalar {
    match v
    case Null(_) => SNull
    case Integer(_, n) => SInt(n)
    case Boolean(_, b) => SBool(b)
    case _ => SColumn(position, v)
  }

  /** compareAny: two integers are compared as float64 values. */
  function Compare(env: Env, a: Scalar, b: Scalar): int {
    if a.SInt? && b.SInt? then
      (if ToFloat(a.n) < ToFloat(b.n) then -1 else if ToFloat(a.n) > ToFloat(b.n) then 1 else 0)
    else env.compare(a, b)
  }

  predicate Truthy(env: Env, v: Scalar) {
    match v
    case SNull => false
    case SInt(n) => n != 0
    case SBool(b) => b
    case _ => env.truth(v)
  }

  function SqlAnd(env: Env, a: Scalar, b: Scalar): Scalar {
    if (a != SNull && !Truthy(env, a)) || (b != SNull && !Truthy(env, b)) then SBool(false)
    else if a == SNull || b == SNull then SNull
    else SBool(true)
  }

  predicate OrderHolds(op: Op, order: int) {
    match op
    case Eq => order == 0
    case NullSafe => order == 0
    case Lt => order < 0
    case Gt => order > 0
    case Le => order <= 0
    case Ge => order >= 0
    case _ => true
  }

  predicate IsComparison(op: Op) { !op.And? && !op.OtherOp? }

  function Apply(env: Env, op: Op, a: Scalar, b: Scalar): Result<Scalar, EvalError> {
    if op.And? then Ok(SqlAnd(env, a, b))
    else if op.OtherOp? then env.operate(op.id, a, b)
    else if a == SNull || b == SNull then Ok(if op.NullSafe? then SBool(a == SNull && b == SNull) else SNull)
    else Ok(SBool(OrderHolds(op, Compare(env, a, b))))
  }

  function Eval(env: Env, e: Expr, row: Row): Result<Scalar, EvalError> {
    match e
    case Lit(l) => LiteralValue(l)
    case Ident(p) =>
      if p.Some? && p.value < |row| then Ok(ColumnValue(p.value, row[p.value])) else Err(UnknownColumn)
    case Binary(op, l, r) =>
      var a := Eval(env, l, row);
      if a.Err? then a else
        var b := Eval(env, r, row);
        if b.Err? then b else Apply(env, op, a.value, b.value)
    case Between(negated, v, lo, hi) =>
      var a := Eval(env, v, row);
      if a.Err? then a else
        var b := Eval(env, lo, row);
        if b.Err? then b else
          var c := Eval(env, hi, row);
          if c.Err? then c else if a.value == SNull || b.value == SNull || c.value == SNull then Ok(SNull)
          else
            Ok(SBool((Compare(env, a.value, b.value) >= 0 && Compare(env, a.value, c.value) <= 0) != negated))
    case OtherExpr(id) => env.call(id, row)
  }

  // ----- what comparisons and AND mean -------------------------------------------------------

  predicate WithinFloat(n: int) { -TWO_53 < n < TWO_53 }

  /** The comparison of two integers. */
  predicate IntegersCompare(op: Op, x: int, n: int) {
    match op
    case Eq => x == n
    case NullSafe => x == n
    case Lt => x < n
    case Gt => x > n
    case Le => x <= n
    case Ge => x >= n
    case _ => false
  }

  /** An integer column against a literal the planner accepts, on either side, compares as integers do. */
  lemma ComparisonMeans(env: Env, op: Op, row: Row, p: nat, n: int)
    requires IsComparison(op) && p < |row| && row[p].Integer? && WithinFloat(n)
    ensures Eval(env, Binary(op, Ident(Some(p)), Lit(IntegerLiteral(n))), row)
            == Ok(SBool(IntegersCompare(op, row[p].n, n)))
    ensures Eval(env, Binary(op, Lit(IntegerLiteral(n)), Ident(Some(p))), row)
            == Ok(SBool(IntegersCompare(op, n, row[p].n)))
  {
    FloatCompareExact(row[p].n, n);
  }

  /** BETWEEN includes both ends. */
  lemma BetweenMeans(env: Env, negated: bool, row: Row, p: nat, lo: int, hi: int)
    requires p < |row| && row[p].Integer? && WithinFloat(lo) && WithinFloat(hi)
    ensures Eval(env, Between(negated, Ident(Some(p)), Lit(IntegerLiteral(lo)), Lit(IntegerLiteral(hi))), row)
            == Ok(SBool((lo <= row[p].n <= hi) != negated))
  {
    FloatCompareExact(row[p].n, lo);
    FloatCompareExact(row[p].n, hi);
  }

  /** A NULL column compares as NULL, except under the NULL-safe comparison, which it fails. */
  lemma NullCompares(env: Env, op: Op, row: Row, p: nat, n: int)
    requires IsComparison(op) && p < |row| && row[p].Null?
    ensures Eval(env, Binary(op, Ident(Some(p)), Lit(IntegerLiteral(n))), row)
            == Ok(if op.NullSafe? then SBool(false) else SNull)
    ensures Eval(env, Binary(op, Lit(IntegerLiteral(n)), Ident(Some(p))), row)
            == Ok(if op.NullSafe? then SBool(false) else SNull)
  {
  }

  predicate IsTrue(env: Env, v: Scalar) { v != SNull && Truthy(env, v) }

  predicate IsFalse(env: Env, v: Scalar) { v != SNull && !Truthy(env, v) }

  /** AND is true exactly when both sides are, false exactly when one side is, and NULL otherwise. */
  lemma AndMeans(env: Env, l: Expr, r: Expr, row: Row)
    requires Eval(env, l, row).Ok? && Eval(env, r, row).Ok?
    ensures var a, b, both := Eval(env, l, row).value, Eval(env, r, row).value, Eval(env, Binary(And, l, r), row);
            && (both == Ok(SBool(true)) <==> IsTrue(env, a) && IsTrue(env, b))
            && (both == Ok(SBool(false)) <==> IsFalse(env, a) || IsFalse(env, b))
            && (both == Ok(SNull) <==>
                  !(IsTrue(env, a) && IsTrue(env, b)) && !(IsFalse(env, a) || IsFalse(env, b)))
  {
  }

  /** A bare literal: a number is true unless it is zero, and NULL is never true. */
  lemma LiteralTruth(env: Env, n: int, b: bool, row: Row)
    ensures Eval(env, Lit(IntegerLiteral(n)), row).Ok? && Eval(env, Lit(NullLiteral), row) == Ok(SNull)
    ensures IsTrue(env, Eval(env, Lit(IntegerLiteral(n)), row).value) <==> n != 0
    ensures Eval(env, Lit(BooleanLiteral(b)), row) == Ok(SBool(b)) && (IsTrue(env, SBool(b)) <==> b)
    ensures !Truthy(env, SNull)
  {
  }

  // ----- safe expressions --------------------------------------------------------------------

  /** The column and the literal of a comparison between the two, and whether the literal comes first. */
  function Sides(l: Expr, r: Expr): Option<(Option<nat>, Literal, bool)> {
    if l.Ident? && r.Lit? then Some((l.position, r.literal, false))
    else if r.Ident? && l.Lit? then Some((r.position, l.literal, true))
    else None
  }

  predicate SafeComparison(columns: seq<Column>, op: Op, l: Expr, r: Expr) {
    && IsComparison(op)
    && Sides(l, r).Some?
    && var (p, literal, _) := Sides(l, r).value;
    && p.Some? && p.value < |columns|
    && match columns[p.value].typ
       case TypeInt => literal.IntegerLiteral? && WithinFloat(literal.n)
       case TypeBigInt => literal.IntegerLiteral? && WithinFloat(literal.n)
       case TypeFloat => literal.IntegerLiteral? || literal.OtherNumber?
       case TypeDouble => literal.IntegerLiteral? || literal.OtherNumber?
       case TypeText => literal.StringLiteral?
       case TypeVarchar => literal.StringLiteral?
       case _ => false
  }

  /** safeMutationIndexExpression. */
  predicate SafeIndex(columns: seq<Column>, e: Expr) {
    match e
    case Lit(_) => true
    case Ident(p) => p.Some? && p.value < |columns|
    case Binary(op, l, r) =>
      if op.And? then SafeIndex(columns, l) && SafeIndex(columns, r) else SafeComparison(columns, op, l, r)
    case _ => false
  }

  /** sqlSafeRangeExpression of a present WHERE. */
  predicate SafeRange(columns: seq<Column>, e: Expr) {
    match e
    case Binary(And, l, r) => SafeRange(columns, l) && SafeRange(columns, r)
    case Between(negated, v, lo, hi) =>
      !negated && SafeComparison(columns, Ge, v, lo) && SafeComparison(columns, Le, v, hi)
    case _ => SafeIndex(columns, e)
  }

  lemma {:induction false} SafeIndexIsSafeRange(columns: seq<Column>, e: Expr)
    requires SafeIndex(columns, e)
    ensures SafeRange(columns, e)
  {
    if e.Binary? && e.op.And? {
      SafeIndexIsSafeRange(columns, e.left);
      SafeIndexIsSafeRange(columns, e.right);
    }
  }

  /** The first literal, in evaluation order, that does not evaluate. */
  function FirstBad(e: Expr): Option<EvalError> {
    match e
    case Lit(l) => if LiteralValue(l).Err? then Some(LiteralValue(l).error) else None
    case Binary(_, l, r) => if FirstBad(l).Some? then FirstBad(l) else FirstBad(r)
    case Between(_, v, lo, hi) =>
      if FirstBad(v).Some? then FirstBad(v) else if FirstBad(lo).Some? then FirstBad(lo) else FirstBad(hi)
    case _ => None
  }

  /** A safe expression fails on a row exactly when one of its literals does not evaluate, whatever the row. */
  lemma {:induction false} SafeEval(env: Env, columns: seq<Column>, e: Expr, row: Row)
    requires SafeRange(columns, e) && |row| == |columns|
    ensures Eval(env, e, row).Err? <==> FirstBad(e).Some?
    ensures FirstBad(e).Some? ==> Eval(env, e, row) == Err(FirstBad(e).value)
  {
    if e.Binary? && e.op.And? {
      SafeEval(env, columns, e.left, row);
      SafeEval(env, columns, e.right, row);
    }
  }
}
