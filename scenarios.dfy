/** The scenarios of the repository's table tests, stated over the model. */
module Scenarios {
  import opened Rows
  import opened Expressions
  import opened Aggregates
  import opened FilterSpec
  import opened ProjectSpec
  import opened JoinSpec
  import opened AggregateSpec

  /** Filtering on "field 1 equals 22" keeps the first and third rows. */
  lemma FilterScenario()
    ensures FilterRows([[Str("abc"), Int(22)], [Str("xyz"), Int(15)], [Str("zxc"), Int(22)]],
                       EqualFilter(FieldRef(1), Literal(Int(22))))
         == [[Str("abc"), Int(22)], [Str("zxc"), Int(22)]]
  {
    var rows := [[Str("abc"), Int(22)], [Str("xyz"), Int(15)], [Str("zxc"), Int(22)]];
    assert rows[..2][..1] == [rows[0]];
    assert [rows[0]][..0] == [];
  }

  /** Projecting fields 0 and 1 keeps three rows, starting ("abc", 22) and ("xyz", 15). */
  lemma ProjectScenario()
    ensures var out := ProjectRows([[Str("abc"), Int(22), Str("ngp")], [Str("xyz"), Int(15), Str("cwa")],
                                    [Str("zxc"), Int(22), Str("del")]], [FieldRef(0), FieldRef(1)]);
      |out| == 3 && out[0] == [Str("abc"), Int(22)] && out[1] == [Str("xyz"), Int(15)]
  {
    var rows := [[Str("abc"), Int(22), Str("ngp")], [Str("xyz"), Int(15), Str("cwa")],
                 [Str("zxc"), Int(22), Str("del")]];
    var exprs := [FieldRef(0), FieldRef(1)];
    ProjectAt(rows, exprs, 0, 0);
    ProjectAt(rows, exprs, 0, 1);
    ProjectAt(rows, exprs, 1, 0);
    ProjectAt(rows, exprs, 1, 1);
  }

  /** Joining rows of widths 2 and 2, then 1, gives a row of width 4 and then
      one of width 5 whose field 4 is the last row's only field. */
  lemma JoinScenario()
    ensures var once := Join([Str("ash"), Int(12)], [Int(898978045), Str("Chhindwara")]);
      && |once| == 4
      && var twice := Join(once, [Str("email@gmail.com")]);
      && |twice| == 5
      && InScope(FieldRef(4), twice) && Eval(FieldRef(4), twice) == Str("email@gmail.com")
  {
    var once := Join([Str("ash"), Int(12)], [Int(898978045), Str("Chhindwara")]);
    EvalJoinRight(0, once, [Str("email@gmail.com")]);
  }

  /** The same joins on one-row tables give one row each, of widths 4 and 5. */
  lemma JoinTableScenario()
    ensures var once := JoinRows([[Str("ash"), Int(12)]], [[Int(898978045), Str("Chhindwara")]]);
      && |once| == 1 && |once[0]| == 4
      && var twice := JoinRows(once, [[Str("email@gmail.com")]]);
      && |twice| == 1 && |twice[0]| == 5
      && InScope(FieldRef(4), twice[0]) && Eval(FieldRef(4), twice[0]) == Str("email@gmail.com")
  {
    var a, b, c := [[Str("ash"), Int(12)]], [[Int(898978045), Str("Chhindwara")]], [[Str("email@gmail.com")]];
    JoinAt(a, b, 0, 0);
    var once := JoinRows(a, b);
    JoinAt(once, c, 0, 0);
    EvalJoinRight(0, once[0], c[0]);
  }

  /** The rows the aggregate test groups: a name and an amount. */
  const People: seq<Row> := [[Str("Alice"), Int(10)], [Str("Bob"), Int(20)], [Str("Alice"), Int(30)], [Str("Bob"), Int(25)]]

  /** The test's grouping (by name) and aggregates (count, and sum of the amount). */
  const ByName: Expression := FieldRef(0)
  const CountAndSum: seq<AggregateExpression> := [Count, Sum(FieldRef(1))]

  lemma PeopleKeys()
    ensures KeysInScope(People, ByName)
    ensures GroupKeys(People, ByName) == {Str("Alice"), Str("Bob")}
  {
    var rows, g := People, ByName;
    assert rows[..3][..2] == rows[..2] && rows[..2][..1] == rows[..1] && rows[..1][..0] == [];
    assert GroupKeys(rows[..1], g) == {Str("Alice")};
    assert GroupKeys(rows[..2], g) == {Str("Alice"), Str("Bob")};
    assert GroupKeys(rows[..3], g) == {Str("Alice"), Str("Bob")};
  }

  /** The first three rows, to which the last one is appended. */
  lemma PeopleSplit()
    ensures KeysInScope(People[..3], ByName) && InScope(ByName, People[3])
    ensures People == People[..3] + [People[3]]
    ensures People[..3] == [People[0], People[1]] + [People[2]]
    ensures [People[0], People[1]] == [People[0]] + [People[1]]
  {
  }

  /** Alice's bucket holds her two rows, in input order. */
  lemma AliceBucket()
    ensures KeysInScope(People, ByName)
    ensures Bucket(People, ByName, Str("Alice")) == [People[0], People[2]]
  {
    var p0, p1, p2, p3, k := People[0], People[1], People[2], People[3], Str("Alice");
    PeopleSplit();
    BucketSnoc([], p0, ByName, k);
    assert [] + [p0] == [p0];
    BucketSnoc([p0], p1, ByName, k);
    BucketSnoc([p0, p1], p2, ByName, k);
    BucketSnoc([p0, p1, p2], p3, ByName, k);
  }

  /** Bob's bucket holds his two rows, in input order. */
  lemma BobBucket()
    ensures KeysInScope(People, ByName)
    ensures Bucket(People, ByName, Str("Bob")) == [People[1], People[3]]
  {
    var p0, p1, p2, p3, k := People[0], People[1], People[2], People[3], Str("Bob");
    PeopleSplit();
    BucketSnoc([], p0, ByName, k);
    assert [] + [p0] == [p0];
    BucketSnoc([p0], p1, ByName, k);
    BucketSnoc([p0, p1], p2, ByName, k);
    BucketSnoc([p0, p1, p2], p3, ByName, k);
  }

  /** The group row of a two-row group: its key, the count 2 and the sum of the amounts. */
  lemma PairGroupRow(key: Value, first: Row, second: Row)
    requires |first| == 2 && first[1].Int? && |second| == 2 && second[1].Int?
    ensures BucketAccepted([first, second], CountAndSum)
    ensures GroupRow(key, [first, second], CountAndSum) == [key, Int(2), Int(first[1].n + second[1].n)]
  {
    var bucket := [first, second];
    assert bucket[..1] == [first] && bucket[..1][..0] == [];
    assert forall r :: r in bucket ==> r == first || r == second;
    GroupRowCount(key, bucket, CountAndSum, 0);
    GroupRowSum(key, bucket, CountAndSum, 1, FieldRef(1));
    assert SumOf(FieldRef(1), bucket[..1]) == first[1].n;
  }

  /** A group whose row is known appears in every output aggregate may give. */
  lemma GroupRowEmitted(out: seq<Row>, key: Value, row: Row)
    requires Groupable(People, ByName, CountAndSum)
    requires AggregateResult(out, People, ByName, CountAndSum)
    requires key in GroupKeys(People, ByName)
    requires BucketAccepted(Bucket(People, ByName, key), CountAndSum)
    requires GroupRow(key, Bucket(People, ByName, key), CountAndSum) == row
    ensures row in out
  {
    var i :| 0 <= i < |out| && out[i][0] == key;
    assert out[i] == row;
  }

  /** Grouping by name with Count and Sum of field 1 gives exactly
      ("Alice", 2, 40) and ("Bob", 2, 45), in some order. */
  lemma AggregateScenario(out: seq<Row>)
    requires Groupable(People, ByName, CountAndSum)
    requires AggregateResult(out, People, ByName, CountAndSum)
    ensures |out| == 2
    ensures [Str("Alice"), Int(2), Int(40)] in out
    ensures [Str("Bob"), Int(2), Int(45)] in out
  {
    PeopleKeys();
    AliceBucket();
    BobBucket();
    AggregateCardinality(out, People, ByName, CountAndSum);
    PairGroupRow(Str("Alice"), People[0], People[2]);
    PairGroupRow(Str("Bob"), People[1], People[3]);
    GroupRowEmitted(out, Str("Alice"), [Str("Alice"), Int(2), Int(40)]);
    GroupRowEmitted(out, Str("Bob"), [Str("Bob"), Int(2), Int(45)]);
  }
}
