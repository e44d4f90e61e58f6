/** The SET list of an UPDATE: assignments in statement order over rows that may share their storage. */
module RowAssignment {
  import opened Wrappers
  import opened Schema

  type EvalError = nat

  /** A resolved assignment: the target column, its place in the evaluation row, and the expression and conversion. */
  datatype Assignment = Assignment(position: nat, evaluated: nat, value: Row -> Result<Value, EvalError>)

  /** The rows while the list is worked through: the row being produced and the row expressions read. */
  datatype Progress = Progress(updated: Row, evaluation: Row)

  predicate InBounds(assignments: seq<Assignment>, width: nat, joined: nat) {
    forall i :: 0 <= i < |assignments| ==> assignments[i].position < width && assignments[i].evaluated < joined
  }

  /** The first n assignments, each seeing the ones before it. */
  function AssignFirst(assignments: seq<Assignment>, n: nat, start: Progress): Result<Progress, EvalError>
    requires n <= |assignments| && InBounds(assignments, |start.updated|, |start.evaluation|)
    ensures var r := AssignFirst(assignments, n, start);
            r.Ok? ==> |r.value.updated| == |start.updated| && |r.value.evaluation| == |start.evaluation|
  {
    if n == 0 then Ok(start) else
      match AssignFirst(assignments, n - 1, start)
      case Err(e) => Err(e)
      case Ok(p) =>
        var a := assignments[n - 1];
        match a.value(p.evaluation)
        case Err(e) => Err(e)
        case Ok(v) => Ok(Progress(p.updated[a.position := v], p.evaluation[a.evaluated := v]))
  }

  predicate Assigned(assignments: seq<Assignment>, position: nat) {
    exists i :: 0 <= i < |assignments| && assignments[i].position == position
  }

  /** The produced row: assigned columns as assigned, then ON UPDATE timestamps in the columns the list left alone. */
  function WithTimestamps(assignments: seq<Assignment>, row: Row, onUpdate: seq<bool>, now: Value): (r: Row)
    requires |onUpdate| == |row|
    ensures |r| == |row|
  {
    seq(|row|, i requires 0 <= i < |row| => if onUpdate[i] && !Assigned(assignments, i) then now else row[i])
  }

  // ----- what the list means -----------------------------------------------------------------

  /** A plain UPDATE: every expression sees the row as the earlier assignments left it. */
  ghost predicate Plain(assignments: seq<Assignment>) {
    forall i :: 0 <= i < |assignments| ==> assignments[i].evaluated == assignments[i].position
  }

  lemma {:induction false} PlainSeesUpdated(assignments: seq<Assignment>, n: nat, row: Row)
    requires Plain(assignments) && n <= |assignments| && InBounds(assignments, |row|, |row|)
    requires AssignFirst(assignments, n, Progress(row, row)).Ok?
    ensures var p := AssignFirst(assignments, n, Progress(row, row)).value;
            p.updated == p.evaluation
  {
    if n > 0 { PlainSeesUpdated(assignments, n - 1, row); }
  }

  /** An UPDATE over a join: the target's window inside the joined row follows the row being produced. */
  ghost predicate Window(assignments: seq<Assignment>, offset: int -> int, width: nat, joined: nat) {
    && (forall i :: 0 <= i < width ==> 0 <= offset(i) < joined)
    && (forall i, j :: 0 <= i < j < width ==> offset(i) != offset(j))
    && (forall i :: 0 <= i < |assignments| ==>
          assignments[i].position < width && assignments[i].evaluated == offset(assignments[i].position))
  }

  lemma {:induction false} JoinWindowFollows(assignments: seq<Assignment>, n: nat, start: Progress, offset: int -> int,
                                             c: nat)
    requires n <= |assignments| && InBounds(assignments, |start.updated|, |start.evaluation|)
    requires Window(assignments, offset, |start.updated|, |start.evaluation|)
    requires forall i :: 0 <= i < |start.updated| ==> start.evaluation[offset(i)] == start.updated[i]
    requires AssignFirst(assignments, n, start).Ok? && c < |start.updated|
    ensures var p := AssignFirst(assignments, n, start).value;
            p.evaluation[offset(c)] == p.updated[c]
  {
    if n > 0 { JoinWindowFollows(assignments, n - 1, start, offset, c); }
  }

  /** Joined columns outside the target's window, and target columns no assignment names, keep their values. */
  lemma {:induction false} UnnamedKept(assignments: seq<Assignment>, n: nat, start: Progress, c: nat)
    requires n <= |assignments| && InBounds(assignments, |start.updated|, |start.evaluation|)
    requires AssignFirst(assignments, n, start).Ok?
    ensures var p := AssignFirst(assignments, n, start).value;
            && (c < |start.updated| && (forall i :: 0 <= i < n ==> assignments[i].position != c) ==>
              p.updated[c] == start.updated[c])
            && (c < |start.evaluation| && (forall i :: 0 <= i < n ==> assignments[i].evaluated != c) ==>
              p.evaluation[c] == start.evaluation[c])
  {
    if n > 0 { UnnamedKept(assignments, n - 1, start, c); }
  }

  /** Assignment i is the last of the first n to its target column. */
  predicate LastFor(assignments: seq<Assignment>, n: nat, i: nat) {
    i < n <= |assignments| && forall j :: i < j < n ==> assignments[j].position != assignments[i].position
  }

  /** Assignment i is the last of the first n to its column of the evaluation row. */
  predicate LastRead(assignments: seq<Assignment>, n: nat, i: nat) {
    i < n <= |assignments| && forall j :: i < j < n ==> assignments[j].evaluated != assignments[i].evaluated
  }

  /** What assignment i computes, from the row the earlier ones leave. */
  predicate Computes(assignments: seq<Assignment>, i: nat, start: Progress, v: Result<Value, EvalError>)
    requires i < |assignments| && InBounds(assignments, |start.updated|, |start.evaluation|)
  {
    var before := AssignFirst(assignments, i, start);
    before.Ok? && assignments[i].value(before.value.evaluation) == v
  }

  /** The last assignment to a column decides its value, in the produced row and in the row expressions read. */
  lemma {:induction false} LastAssignmentStands(assignments: seq<Assignment>, n: nat, i: nat, start: Progress)
    requires i < n <= |assignments| && InBounds(assignments, |start.updated|, |start.evaluation|)
    requires AssignFirst(assignments, n, start).Ok?
    ensures AssignFirst(assignments, i, start).Ok?
    ensures var p, a := AssignFirst(assignments, n, start).value, assignments[i];
            && (LastFor(assignments, n, i) ==> Computes(assignments, i, start, Ok(p.updated[a.position])))
            && (LastRead(assignments, n, i) ==> Computes(assignments, i, start, Ok(p.evaluation[a.evaluated])))
  {
    if i < n - 1 { LastAssignmentStands(assignments, n - 1, i, start); }
  }

  /** The list fails exactly when some expression fails on the row the earlier ones leave, and with its error. */
  lemma {:induction false} FailsIff(assignments: seq<Assignment>, n: nat, start: Progress, e: EvalError)
    requires n <= |assignments| && InBounds(assignments, |start.updated|, |start.evaluation|)
    ensures AssignFirst(assignments, n, start) == Err(e) <==>
            exists i :: 0 <= i < n && Computes(assignments, i, start, Err(e))
  {
    if n > 0 {
      FailsIff(assignments, n - 1, start, e);
      var before := AssignFirst(assignments, n - 1, start);
      if before.Err? {
        assert forall i :: i == n - 1 ==> !Computes(assignments, i, start, Err(e));
      } else {
        assert before != Err(e);
        assert AssignFirst(assignments, n, start) == Err(e) <==> Computes(assignments, n - 1, start, Err(e));
      }
    }
  }

  /**
   What a column of the produced row holds: what the last assignment to it computed; without one, the time of the
   statement if the column is ON UPDATE, and its old value otherwise.
   */
  ghost predicate ColumnIs(assignments: seq<Assignment>, start: Progress, onUpdate: seq<bool>, now: Value, c: nat,
                           v: Value)
    requires InBounds(assignments, |start.updated|, |start.evaluation|) && c < |start.updated| == |onUpdate|
  {
    if Assigned(assignments, c) then
      exists i :: 0 <= i < |assignments| && assignments[i].position == c && LastFor(assignments, |assignments|, i)
                  && Computes(assignments, i, start, Ok(v))
    else v == if onUpdate[c] then now else start.updated[c]
  }

  lemma ProducedColumn(assignments: seq<Assignment>, start: Progress, onUpdate: seq<bool>, now: Value, c: nat)
    requires InBounds(assignments, |start.updated|, |start.evaluation|) && c < |start.updated| == |onUpdate|
    requires AssignFirst(assignments, |assignments|, start).Ok?
    ensures var updated := AssignFirst(assignments, |assignments|, start).value.updated;
            var row := WithTimestamps(assignments, updated, onUpdate, now);
            ColumnIs(assignments, start, onUpdate, now, c, row[c])
  {
    if Assigned(assignments, c) {
      var i := HasLast(assignments, |assignments|, c);
      LastAssignmentStands(assignments, |assignments|, i, start);
    }
    UnnamedKept(assignments, |assignments|, start, c);
  }

  /** A named column has a last assignment. */
  lemma {:induction false} HasLast(assignments: seq<Assignment>, n: nat, c: nat) returns (i: nat)
    requires n <= |assignments| && exists j :: 0 <= j < n && assignments[j].position == c
    ensures LastFor(assignments, n, i) && assignments[i].position == c
  {
    if assignments[n - 1].position == c { i := n - 1; } else { i := HasLast(assignments, n - 1, c); }
  }

  // ----- the loop over shared storage --------------------------------------------------------

  /**
   candidateEvalRow and assignUpdateRow. The old row may be the very storage the expressions read; it is never
   written, because the evaluation row is copied exactly then.
   */
  method AssignUpdateRow(oldRow: array<Value>, evalRow: array<Value>, assignments: seq<Assignment>,
                         onUpdate: seq<bool>, now: Value)
    returns (r: Result<array<Value>, EvalError>)
    requires InBounds(assignments, oldRow.Length, evalRow.Length) && |onUpdate| == oldRow.Length
    modifies evalRow
    ensures oldRow[..] == old(oldRow[..])
    ensures r.Ok? ==> fresh(r.value)
    ensures var outcome := AssignFirst(assignments, |assignments|, Progress(old(oldRow[..]), old(evalRow[..])));
            && (r.Ok? <==> outcome.Ok?)
            && (r.Ok? ==> r.value[..] == WithTimestamps(assignments, outcome.value.updated, onUpdate, now))
            && (r.Err? ==> r.error == outcome.error)
    ensures r.Ok? ==> r.value.Length == oldRow.Length
    ensures r.Ok? ==> forall c :: 0 <= c < oldRow.Length ==>
              ColumnIs(assignments, Progress(old(oldRow[..]), old(evalRow[..])), onUpdate, now, c, r.value[c])
    ensures r.Err? <==> exists i, e :: 0 <= i < |assignments|
                          && Computes(assignments, i, Progress(old(oldRow[..]), old(evalRow[..])), Err(e))
  {
    var evaluation := evalRow;
    if evalRow == oldRow { evaluation := Copy(evalRow); }
    var updated := Copy(oldRow);
    ghost var start := Progress(oldRow[..], evalRow[..]);
    for i := 0 to |assignments|
      invariant oldRow[..] == start.updated && evaluation.Length == evalRow.Length && updated.Length == oldRow.Length
      invariant AssignFirst(assignments, i, start) == Ok(Progress(updated[..], evaluation[..]))
    {
      PrefixFails(assignments, i + 1, start);
      var a := assignments[i];
      var value := a.value(evaluation[..]);
      if value.Err? {
        assert Computes(assignments, i, start, Err(value.error));
        return Err(value.error);
      }
      updated[a.position] := value.value;
      evaluation[a.evaluated] := value.value;
    }
    ghost var produced := updated[..];
    for i := 0 to updated.Length
      invariant updated.Length == |produced| && oldRow[..] == start.updated
      invariant forall k :: 0 <= k < i ==> updated[k] == WithTimestamps(assignments, produced, onUpdate, now)[k]
      invariant forall k :: i <= k < updated.Length ==> updated[k] == produced[k]
    {
      var named := IsAssigned(assignments, i);
      if !named && onUpdate[i] { updated[i] := now; }
    }
    forall c | 0 <= c < |produced| ensures ColumnIs(assignments, start, onUpdate, now, c, updated[c]) {
      ProducedColumn(assignments, start, onUpdate, now, c);
    }
    forall i, e | 0 <= i < |assignments| ensures !Computes(assignments, i, start, Err(e)) {
      FailsIff(assignments, |assignments|, start, e);
    }
    return Ok(updated);
  }

  /** assignedUpdateColumns. */
  method IsAssigned(assignments: seq<Assignment>, position: nat) returns (b: bool)
    ensures b <==> Assigned(assignments, position)
  {
    for i := 0 to |assignments|
      invariant forall k :: 0 <= k < i ==> assignments[k].position != position
    {
      if assignments[i].position == position { return true; }
    }
    return false;
  }

  method Copy(row: array<Value>) returns (r: array<Value>)
    ensures fresh(r) && r[..] == row[..]
  {
    r := new Value[row.Length](i requires 0 <= i < row.Length reads row => row[i]);
  }

  /** A list that fails part way fails as a whole, with the same error. */
  lemma {:induction false} PrefixFails(assignments: seq<Assignment>, n: nat, start: Progress)
    requires n <= |assignments| && InBounds(assignments, |start.updated|, |start.evaluation|)
    ensures AssignFirst(assignments, n, start).Err? ==>
            AssignFirst(assignments, |assignments|, start) == AssignFirst(assignments, n, start)
    decreases |assignments| - n
  {
    if n < |assignments| { PrefixFails(assignments, n + 1, start); }
  }
}
