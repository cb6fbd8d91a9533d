/** Values and rows: the untyped tuples every table holds. */
module Rows {

  /** A field value. The engine never type-checks fields; two values are the
      same group key exactly when they are equal as values. */
  datatype Value = Null | Str(s: string) | Int(n: int) | Bool(b: bool)

  /** A row is a fixed-length tuple of values, indexed from 0. */
  type Row = seq<Value>

  /** Row.join: the left row's fields, in order, followed by the right row's. */
  function Join(left: Row, right: Row): (joined: Row)
    ensures |joined| == |left| + |right|
    ensures joined[..|left|] == left && joined[|left|..] == right
  {
    left + right
  }
}
