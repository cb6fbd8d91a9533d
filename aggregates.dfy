/** Aggregate expressions and their per-group accumulator state. */
module Aggregates {
  import opened Rows
  import opened Expressions

  /** The configuration an aggregate is declared with. */
  datatype AggregateExpression = Count | Sum(inner: Expression)

  /** The running state of one aggregate instance: a counter, or the inner
      expression together with the running total. */
  datatype Accumulator = CountState(count: int) | SumState(inner: Expression, total: int)

  /** The aggregate accepts the row: Sum needs its inner expression to give a number. */
  predicate Accepts(agg: AggregateExpression, row: Row)
  {
    match agg
    case Count => true
    case Sum(e) => InScope(e, row) && Eval(e, row).Int?
  }

  /** The aggregate accepts every one of the rows. */
  predicate AllAccepted(agg: AggregateExpression, rows: seq<Row>)
  {
    forall r :: r in rows ==> Accepts(agg, r)
  }

  lemma AcceptedPrefix(agg: AggregateExpression, rows: seq<Row>, p: nat)
    requires AllAccepted(agg, rows) && p <= |rows|
    ensures AllAccepted(agg, rows[..p])
  {
    forall r | r in rows[..p] ensures Accepts(agg, r)
    {
      var i :| 0 <= i < p && rows[..p][i] == r;
      assert rows[i] == r;
    }
  }

  /** The configuration an accumulator was made from. */
  function Config(acc: Accumulator): AggregateExpression
  {
    match acc
    case CountState(_) => Count
    case SumState(e, _) => Sum(e)
  }

  /** finalValue(): the counter, or the running total. */
  function FinalValue(acc: Accumulator): (v: Value)
    ensures v.Int?
  {
    match acc
    case CountState(n) => Int(n)
    case SumState(_, t) => Int(t)
  }

  /** fresh(): an independent instance with the same configuration and zero state. */
  function Fresh(agg: AggregateExpression): (acc: Accumulator)
    ensures Config(acc) == agg
    ensures FinalValue(acc) == Int(0)
  {
    match agg
    case Count => CountState(0)
    case Sum(e) => SumState(e, 0)
  }

  /** apply(row): Count increments its counter, Sum adds the inner value. */
  function Apply(acc: Accumulator, row: Row): (next: Accumulator)
    requires Accepts(Config(acc), row)
    ensures Config(next) == Config(acc)
  {
    match acc
    case CountState(n) => CountState(n + 1)
    case SumState(e, t) => SumState(e, t + Eval(e, row).n)
  }

  /** The state after apply has been called on each row, in order. */
  function Feed(acc: Accumulator, rows: seq<Row>): (last: Accumulator)
    requires AllAccepted(Config(acc), rows)
    ensures Config(last) == Config(acc)
  {
    if rows == [] then acc
    else Apply(Feed(acc, rows[..|rows| - 1]), rows[|rows| - 1])
  }

  /** The sum of the inner expression over the rows: the reference for Sum. */
  function SumOf(e: Expression, rows: seq<Row>): int
    requires AllAccepted(Sum(e), rows)
  {
    if rows == [] then 0
    else
      var last := rows[|rows| - 1];
      assert last in rows && Accepts(Sum(e), last);
      SumOf(e, rows[..|rows| - 1]) + Eval(e, last).n
  }

  lemma {:induction false} FeedCount(n: int, rows: seq<Row>)
    ensures Feed(CountState(n), rows) == CountState(n + |rows|)
  {
    if rows != [] {
      FeedCount(n, rows[..|rows| - 1]);
    }
  }

  lemma {:induction false} FeedSum(e: Expression, total: int, rows: seq<Row>)
    requires AllAccepted(Sum(e), rows)
    ensures Feed(SumState(e, total), rows) == SumState(e, total + SumOf(e, rows))
  {
    if rows != [] {
      FeedSum(e, total, rows[..|rows| - 1]);
    }
  }

  /** A fresh Count fed some rows reports how many rows it was fed. */
  lemma CountFinal(rows: seq<Row>)
    ensures FinalValue(Feed(Fresh(Count), rows)) == Int(|rows|)
  {
    FeedCount(0, rows);
  }

  /** A fresh Sum fed some rows reports the sum of its inner expression over them. */
  lemma SumFinal(e: Expression, rows: seq<Row>)
    requires AllAccepted(Sum(e), rows)
    ensures FinalValue(Feed(Fresh(Sum(e)), rows)) == Int(SumOf(e, rows))
  {
    FeedSum(e, 0, rows);
  }
}
