/** The table and its four operators, each a loop that materialises a new
    list-backed table and is proved equal to the operator's meaning. */
module Tables {
  import opened Rows
  import opened Expressions
  import opened Aggregates
  import FilterSpec
  import ProjectSpec
  import JoinSpec
  import opened AggregateSpec

  /** A table backed by a materialised list of rows. Iterating it is reading
      `rows` front to back, which gives the same rows every time. */
  class ListBackedTable {
    var rows: seq<Row>

    constructor (rows: seq<Row>)
      ensures this.rows == rows
    {
      this.rows := rows;
    }

    /** filter: the rows that pass, in order. */
    method Filter(f: Expressions.Filter) returns (t: ListBackedTable)
      requires FilterSpec.AllInScope(rows, f)
      ensures fresh(t) && t.rows == FilterSpec.FilterRows(rows, f)
    {
      var filtered: seq<Row> := [];
      var i := 0;
      while i < |rows|
        invariant 0 <= i <= |rows|
        invariant filtered == FilterSpec.FilterRows(rows[..i], f)
      {
        var row := rows[i];
        assert rows[..i + 1][..i] == rows[..i];
        if Test(f, row) {
          filtered := filtered + [row];
        }
        i := i + 1;
      }
      assert rows[..i] == rows;
      t := new ListBackedTable(filtered);
    }

    /** project: each row replaced by the values of the projections on it. */
    method Project(projections: seq<Expression>) returns (t: ListBackedTable)
      requires ProjectSpec.AllInScope(rows, projections)
      ensures fresh(t) && t.rows == ProjectSpec.ProjectRows(rows, projections)
    {
      var projected: seq<Row> := [];
      var i := 0;
      while i < |rows|
        invariant 0 <= i <= |rows|
        invariant projected == ProjectSpec.ProjectRows(rows[..i], projections)
      {
        var row := rows[i];
        assert row in rows;
        var projectedVal := new Value[|projections|];
        for j := 0 to |projections|
          invariant projectedVal[..j] == ProjectSpec.ProjectRow(row, projections[..j])
        {
          assert projections[j] in projections;
          assert projections[..j + 1][..j] == projections[..j];
          projectedVal[j] := Eval(projections[j], row);
        }
        assert projections[..|projections|] == projections;
        assert projectedVal[..] == projectedVal[..|projections|];
        assert rows[..i + 1][..i] == rows[..i];
        projected := projected + [projectedVal[..]];
        i := i + 1;
      }
      assert rows[..i] == rows;
      t := new ListBackedTable(projected);
    }

    /** join: the cross product, this table's rows in the outer loop. */
    method Join(input: ListBackedTable) returns (t: ListBackedTable)
      ensures fresh(t) && t.rows == JoinSpec.JoinRows(rows, input.rows)
    {
      var result: seq<Row> := [];
      var i := 0;
      while i < |rows|
        invariant 0 <= i <= |rows|
        invariant result == JoinSpec.JoinRows(rows[..i], input.rows)
      {
        var thisRow := rows[i];
        ghost var before := result;
        var j := 0;
        while j < |input.rows|
          invariant 0 <= j <= |input.rows|
          invariant result == before + JoinSpec.JoinOne(thisRow, input.rows[..j])
        {
          var thatRow := input.rows[j];
          assert input.rows[..j + 1][..j] == input.rows[..j];
          result := result + [Rows.Join(thisRow, thatRow)];
          j := j + 1;
        }
        assert input.rows[..j] == input.rows;
        assert rows[..i + 1][..i] == rows[..i];
        i := i + 1;
      }
      assert rows[..i] == rows;
      t := new ListBackedTable(result);
    }

    /** aggregate: bucket the rows by key, then emit one row per bucket. */
    method Aggregate(groupBy: Expression, aggs: seq<AggregateExpression>) returns (t: ListBackedTable)
      requires Groupable(rows, groupBy, aggs)
      ensures fresh(t) && AggregateResult(t.rows, rows, groupBy, aggs)
    {
      var grouped := GroupRows(rows, groupBy);
      var resultRows := EmitGroups(grouped, rows, groupBy, aggs);
      t := new ListBackedTable(resultRows);
    }
  }

  /** The first pass of aggregate: each row is appended to the list of its
      key in the grouping map, the list being created on the key's first row. */
  method GroupRows(rows: seq<Row>, groupBy: Expression) returns (grouped: map<Value, seq<Row>>)
    requires KeysInScope(rows, groupBy)
    ensures IsGrouping(grouped, rows, groupBy)
  {
    grouped := map[];
    ghost var seen: seq<Row> := [];
    var i := 0;
    while i < |rows|
      invariant 0 <= i <= |rows| && seen == rows[..i]
      invariant KeysInScope(seen, groupBy)
      invariant IsGrouping(grouped, seen, groupBy)
    {
      var row := rows[i];
      assert row in rows;
      var key := Eval(groupBy, row);
      var bucket := if key in grouped then grouped[key] else [];
      GroupingStep(grouped, seen, groupBy, row);
      grouped := grouped[key := bucket + [row]];
      PrefixExtend(rows, i);
      seen := seen + [row];
      i := i + 1;
    }
    assert seen == rows;
  }

  /** The prefix of length i + 1 is the prefix of length i followed by element i. */
  lemma PrefixExtend<T>(s: seq<T>, i: nat)
    requires i < |s|
    ensures s[..i + 1] == s[..i] + [s[i]]
  {
  }

  /** The second pass of aggregate: the grouping map's entries are visited in
      an unspecified order, as a hash map's are, and each yields one row. */
  method EmitGroups(grouped: map<Value, seq<Row>>, ghost rows: seq<Row>, groupBy: Expression, aggs: seq<AggregateExpression>)
    returns (resultRows: seq<Row>)
    requires Groupable(rows, groupBy, aggs)
    requires IsGrouping(grouped, rows, groupBy)
    ensures AggregateResult(resultRows, rows, groupBy, aggs)
  {
    resultRows := [];
    var remaining := grouped.Keys;
    while remaining != {}
      invariant remaining <= grouped.Keys
      invariant EmittedFor(resultRows, grouped.Keys - remaining, rows, groupBy, aggs)
      decreases remaining
    {
      var key :| key in remaining;
      EmitStep(resultRows, grouped.Keys - remaining, rows, groupBy, aggs, key);
      var row := AggregateGroup(key, grouped[key], aggs);
      resultRows := resultRows + [row];
      assert grouped.Keys - (remaining - {key}) == (grouped.Keys - remaining) + {key};
      remaining := remaining - {key};
    }
    assert grouped.Keys - remaining == GroupKeys(rows, groupBy);
  }

  /** One bucket of aggregate: fresh instances of every aggregate, each fed
      every row of the bucket in order, then the key and the final values. */
  method AggregateGroup(key: Value, bucket: seq<Row>, aggs: seq<AggregateExpression>) returns (row: Row)
    requires BucketAccepted(bucket, aggs)
    ensures row == GroupRow(key, bucket, aggs)
  {
    assert bucket[..0] == [];
    var aggInstances := new Accumulator[|aggs|];
    for j := 0 to |aggs|
      invariant forall l :: 0 <= l < j ==> aggInstances[l] == Fresh(aggs[l])
    {
      aggInstances[j] := Fresh(aggs[j]);
    }
    for p := 0 to |bucket|
      invariant BucketAccepted(bucket[..p], aggs)
      invariant forall l :: 0 <= l < |aggs| ==> aggInstances[l] == Feed(Fresh(aggs[l]), bucket[..p])
    {
      var r := bucket[p];
      assert bucket[..p + 1][..p] == bucket[..p];
      forall l | 0 <= l < |aggs| ensures AllAccepted(aggs[l], bucket[..p + 1])
      {
        AcceptedPrefix(aggs[l], bucket, p + 1);
      }
      for q := 0 to |aggs|
        invariant BucketAccepted(bucket[..p + 1], aggs)
        invariant forall l :: 0 <= l < q ==> aggInstances[l] == Feed(Fresh(aggs[l]), bucket[..p + 1])
        invariant forall l :: q <= l < |aggs| ==> aggInstances[l] == Feed(Fresh(aggs[l]), bucket[..p])
      {
        aggInstances[q] := Apply(aggInstances[q], r);
      }
    }
    assert bucket[..|bucket|] == bucket;
    var result := new Value[|aggs| + 1];
    result[0] := key;
    for j := 0 to |aggs|
      modifies result
      invariant result[0] == key
      invariant forall l :: 0 <= l < j ==> result[l + 1] == FinalValue(aggInstances[l])
    {
      result[j + 1] := FinalValue(aggInstances[j]);
    }
    row := result[..];
    ghost var spec := GroupRow(key, bucket, aggs);
    forall l | 0 <= l < |row| ensures row[l] == spec[l]
    {
      if l > 0 {
        assert aggInstances[l - 1] == Feed(Fresh(aggs[l - 1]), bucket);
      }
    }
  }
}
