/** Expressions evaluate a row to a value; filters test a row. */
module Expressions {
  import opened Rows

  /** A field reference by position, or a constant. */
  datatype Expression = FieldRef(index: nat) | Literal(value: Value)

  /** The row is long enough for every field the expression references. */
  predicate InScope(e: Expression, row: Row)
  {
    match e
    case FieldRef(i) => i < |row|
    case Literal(_) => true
  }

  function Eval(e: Expression, row: Row): Value
    requires InScope(e, row)
  {
    match e
    case FieldRef(i) => row[i]
    case Literal(v) => v
  }

  /** An expression over the left row means the same over the joined row. */
  lemma EvalJoinLeft(e: Expression, left: Row, right: Row)
    requires InScope(e, left)
    ensures InScope(e, Join(left, right))
    ensures Eval(e, Join(left, right)) == Eval(e, left)
  {
    var joined := Join(left, right);
    if e.FieldRef? {
      assert joined[e.index] == joined[..|left|][e.index];
    }
  }

  /** Field i of the right row is field |left| + i of the joined row. */
  lemma EvalJoinRight(i: nat, left: Row, right: Row)
    requires i < |right|
    ensures InScope(FieldRef(|left| + i), Join(left, right))
    ensures Eval(FieldRef(|left| + i), Join(left, right)) == right[i]
  {
    var joined := Join(left, right);
    assert joined[|left| + i] == joined[|left|..][i];
  }

  /** An equality comparison of two expressions. */
  datatype Filter = EqualFilter(left: Expression, right: Expression)

  predicate FilterInScope(f: Filter, row: Row)
  {
    InScope(f.left, row) && InScope(f.right, row)
  }

  /** Filter.apply: both sides are evaluated and compared by value. */
  predicate Test(f: Filter, row: Row)
    requires FilterInScope(f, row)
  {
    Eval(f.left, row) == Eval(f.right, row)
  }
}
