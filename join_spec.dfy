/** The meaning of Table.join: the cross product, outer rows varying slowest. */
module JoinSpec {
  import opened Rows

  /** One outer row joined with every inner row, in inner order. */
  function JoinOne(left: Row, rights: seq<Row>): (out: seq<Row>)
    ensures |out| == |rights|
  {
    if rights == [] then []
    else JoinOne(left, rights[..|rights| - 1]) + [Join(left, rights[|rights| - 1])]
  }

  /** Every outer row, in order, joined with every inner row. */
  function JoinRows(lefts: seq<Row>, rights: seq<Row>): (out: seq<Row>)
    ensures |out| == |lefts| * |rights|
  {
    if lefts == [] then []
    else
      var n := |lefts| - 1;
      assert n * |rights| + |rights| == |lefts| * |rights|;
      JoinRows(lefts[..n], rights) + JoinOne(lefts[n], rights)
  }

  lemma {:induction false} JoinOneAt(left: Row, rights: seq<Row>, j: nat)
    requires j < |rights|
    ensures JoinOne(left, rights)[j] == left + rights[j]
  {
    var n := |rights| - 1;
    if j < n {
      JoinOneAt(left, rights[..n], j);
    }
  }

  lemma RowBeforeLast(i: nat, j: nat, n: nat, m: nat)
    requires i < n && j < m
    ensures i * m + j < n * m
  {
    assert (i + 1) * m <= n * m;
  }

  /** The result row at position i * |rights| + j joins outer row i with inner row j. */
  lemma {:induction false} JoinAt(lefts: seq<Row>, rights: seq<Row>, i: nat, j: nat)
    requires i < |lefts| && j < |rights|
    ensures i * |rights| + j < |JoinRows(lefts, rights)|
    ensures JoinRows(lefts, rights)[i * |rights| + j] == lefts[i] + rights[j]
  {
    var n, m := |lefts| - 1, |rights|;
    RowBeforeLast(i, j, |lefts|, m);
    if i < n {
      JoinAt(lefts[..n], rights, i, j);
      RowBeforeLast(i, j, n, m);
    } else {
      JoinOneAt(lefts[n], rights, j);
    }
  }

  lemma SplitPosition(p: nat, n: nat, m: nat)
    requires p < n * m
    ensures 0 < m && 0 <= p / m < n && 0 <= p % m < m
    ensures p == (p / m) * m + p % m
  {
  }

  /** Conversely, result row p joins outer row p / |rights| with inner row p % |rights|. */
  lemma JoinPosition(lefts: seq<Row>, rights: seq<Row>, p: nat)
    requires p < |JoinRows(lefts, rights)|
    ensures 0 < |rights| && 0 <= p / |rights| < |lefts| && 0 <= p % |rights| < |rights|
    ensures JoinRows(lefts, rights)[p] == lefts[p / |rights|] + rights[p % |rights|]
  {
    var m := |rights|;
    SplitPosition(p, |lefts|, m);
    var i, j := p / m, p % m;
    JoinAt(lefts, rights, i, j);
    assert i * m + j == p;
  }

  predicate UniformWidth(rows: seq<Row>, w: nat)
  {
    forall r :: r in rows ==> |r| == w
  }

  /** Joining tables of uniform widths wa and wb gives rows of width wa + wb. */
  lemma JoinWidth(lefts: seq<Row>, rights: seq<Row>, wa: nat, wb: nat)
    requires UniformWidth(lefts, wa) && UniformWidth(rights, wb)
    ensures UniformWidth(JoinRows(lefts, rights), wa + wb)
  {
    var out := JoinRows(lefts, rights);
    forall r | r in out ensures |r| == wa + wb
    {
      var p :| 0 <= p < |out| && out[p] == r;
      JoinPosition(lefts, rights, p);
      var i, j := p / |rights|, p % |rights|;
      assert lefts[i] in lefts && rights[j] in rights;
      assert r == lefts[i] + rights[j];
    }
  }

  lemma {:induction false} JoinOneAppend(left: Row, a: seq<Row>, b: seq<Row>)
    ensures JoinOne(left, a + b) == JoinOne(left, a) + JoinOne(left, b)
  {
    if b == [] {
      assert a + b == a;
    } else {
      var n := |b| - 1;
      assert (a + b)[..|a + b| - 1] == a + b[..n];
      JoinOneAppend(left, a, b[..n]);
    }
  }

  lemma {:induction false} JoinRowsAppend(a: seq<Row>, b: seq<Row>, rights: seq<Row>)
    ensures JoinRows(a + b, rights) == JoinRows(a, rights) + JoinRows(b, rights)
  {
    if b == [] {
      assert a + b == a;
    } else {
      var n, ab := |b| - 1, a + b;
      assert ab[..|ab| - 1] == a + b[..n] && ab[|ab| - 1] == b[n];
      assert JoinRows(ab, rights) == JoinRows(a + b[..n], rights) + JoinOne(b[n], rights);
      JoinRowsAppend(a, b[..n], rights);
    }
  }

  /** Joining x with the rows of y joined with c is joining x + y with c. */
  lemma {:induction false} JoinOneNested(x: Row, y: Row, c: seq<Row>)
    ensures JoinOne(x, JoinOne(y, c)) == JoinOne(x + y, c)
  {
    if c != [] {
      var n := |c| - 1;
      JoinOneNested(x, y, c[..n]);
      JoinOneAppend(x, JoinOne(y, c[..n]), [y + c[n]]);
      assert JoinOne(x, [y + c[n]]) == [x + (y + c[n])] by {
        assert [y + c[n]][..0] == [];
      }
      assert x + (y + c[n]) == (x + y) + c[n];
    }
  }

  /** One outer row joined with b, then with c, is the row joined with b joined with c. */
  lemma {:induction false} JoinOneThenRows(x: Row, b: seq<Row>, c: seq<Row>)
    ensures JoinRows(JoinOne(x, b), c) == JoinOne(x, JoinRows(b, c))
  {
    if b != [] {
      var n := |b| - 1;
      JoinOneThenRows(x, b[..n], c);
      JoinRowsAppend(JoinOne(x, b[..n]), [x + b[n]], c);
      assert JoinRows([x + b[n]], c) == JoinOne(x + b[n], c) by {
        assert [x + b[n]][..0] == [];
      }
      JoinOneNested(x, b[n], c);
      JoinOneAppend(x, JoinRows(b[..n], c), JoinOne(b[n], c));
    }
  }

  /** Join is associative, both in row layout and in row order. */
  lemma {:induction false} JoinAssociative(a: seq<Row>, b: seq<Row>, c: seq<Row>)
    ensures JoinRows(JoinRows(a, b), c) == JoinRows(a, JoinRows(b, c))
  {
    if a != [] {
      var n := |a| - 1;
      JoinAssociative(a[..n], b, c);
      JoinRowsAppend(JoinRows(a[..n], b), JoinOne(a[n], b), c);
      JoinOneThenRows(a[n], b, c);
    }
  }
}
