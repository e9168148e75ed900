// The rows of a cross product, and equalities between their columns.

module ProductRows {
  import opened Objects
  import opened Expressions
  import opened SquashJoins
  import opened Relations
  import opened Layout
  import opened Tables

  lemma {:induction false} PairsHas(row: Row, tails: seq<Row>, r: Row) returns (tail: Row)
    requires r in Pairs(row, tails)
    ensures tail in tails && r == row + tail
  {
    if r == row + tails[0] {
      tail := tails[0];
    } else {
      tail := PairsHas(row, tails[1..], r);
    }
  }

  lemma {:induction false} CrossHas(rows: seq<Row>, tails: seq<Row>, r: Row) returns (row: Row, tail: Row)
    requires r in Cross(rows, tails)
    ensures row in rows && tail in tails && r == row + tail
  {
    if r in Pairs(rows[0], tails) {
      row := rows[0];
      tail := PairsHas(rows[0], tails, r);
    } else {
      row, tail := CrossHas(rows[1..], tails, r);
    }
  }

  // The columns of table t in a row are those of r.
  ghost predicate Holds(schema: Schema, row: Row, t: Table, r: Row) {
    |r| == |SchemaOf(t)| && forall i :: 0 <= i < |r| ==> ValueOf(schema, row, SchemaOf(t)[i]) == r[i]
  }

  lemma HoldsLonger(schema: Schema, row: Row, more: Schema, tail: Row, t: Table, r: Row)
    requires |row| == |schema| && Holds(schema, row, t, r)
    requires forall i :: 0 <= i < |SchemaOf(t)| ==> SchemaOf(t)[i] in schema
    ensures Holds(schema + more, row + tail, t, r)
  {
    forall i | 0 <= i < |r| ensures ValueOf(schema + more, row + tail, SchemaOf(t)[i]) == r[i] {
      FindInPrefix(schema, more, SchemaOf(t)[i]);
    }
  }

  lemma HoldsTail(schema: Schema, row: Row, t: Table, r: Row)
    requires |row| == |schema| && |r| == |SchemaOf(t)|
    requires forall c :: c in schema ==> c.table != t
    ensures Holds(schema + SchemaOf(t), row + r, t, r)
  {
    ColumnsAreDistinct(t);
    var more := SchemaOf(t);
    forall i | 0 <= i < |r| ensures ValueOf(schema + more, row + r, more[i]) == r[i] {
      FindAt(more, i);
      FindInPrefix(schema, more, more[i]);
    }
  }

  lemma HoldsInFront(ts: seq<Table>, head: Row, tail: Row, t: Table, r: Row)
    requires ts != [] && t in ts[..|ts| - 1] && |head| == |Concat(ts[..|ts| - 1])|
    requires Holds(Concat(ts[..|ts| - 1]), head, t, r)
    ensures Holds(Concat(ts), head + tail, t, r)
  {
    ConcatHasTable(ts[..|ts| - 1], t);
    HoldsLonger(Concat(ts[..|ts| - 1]), head, SchemaOf(ts[|ts| - 1]), tail, t, r);
  }

  lemma HoldsAtEnd(ts: seq<Table>, head: Row, tail: Row)
    requires ts != [] && Distinct(ts) && |head| == |Concat(ts[..|ts| - 1])| && |tail| == |SchemaOf(ts[|ts| - 1])|
    ensures Holds(Concat(ts), head + tail, ts[|ts| - 1], tail)
  {
    LastIsNew(ts);
    HoldsTail(Concat(ts[..|ts| - 1]), head, ts[|ts| - 1], tail);
  }

  lemma SplitRow(db: Db, ts: seq<Table>, row: Row) returns (head: Row, tail: Row)
    requires TypedDb(db) && ts != [] && row in Product(db, ts)
    ensures var front, last := ts[..|ts| - 1], ts[|ts| - 1];
            && row == head + tail && head in Product(db, front) && tail in db(last)
            && |head| == |Concat(front)| && |tail| == |SchemaOf(last)|
  {
    var front, last := ts[..|ts| - 1], ts[|ts| - 1];
    head, tail := CrossHas(Product(db, front), db(last), row);
    ProductTyped(db, front);
    assert Typed(db(last), SchemaOf(last));
  }

  // A row of a product holds, for each table, one of its rows.
  lemma {:induction false} ProductRow(db: Db, ts: seq<Table>, row: Row, t: Table) returns (r: Row)
    requires TypedDb(db) && Distinct(ts) && row in Product(db, ts) && t in ts
    ensures r in db(t) && Holds(Concat(ts), row, t, r)
    decreases |ts|
  {
    var n := |ts| - 1;
    var head, tail := SplitRow(db, ts, row);
    if t == ts[n] {
      r := tail;
      HoldsAtEnd(ts, head, tail);
    } else {
      r := ProductRow(db, ts[..n], head, t);
      HoldsInFront(ts, head, tail, t, r);
    }
  }

  lemma LastIsNew(ts: seq<Table>)
    requires Distinct(ts) && ts != []
    ensures forall c :: c in Concat(ts[..|ts| - 1]) ==> c.table != ts[|ts| - 1]
  {
    forall c | c in Concat(ts[..|ts| - 1]) ensures c.table != ts[|ts| - 1] {
      ConcatHas(ts[..|ts| - 1], c);
    }
  }

  lemma ConcatHasTable(ts: seq<Table>, t: Table)
    requires t in ts
    ensures forall i :: 0 <= i < |SchemaOf(t)| ==> SchemaOf(t)[i] in Concat(ts)
  {
    forall i | 0 <= i < |SchemaOf(t)| ensures SchemaOf(t)[i] in Concat(ts) {
      ConcatHas(ts, SchemaOf(t)[i]);
    }
  }

  // -------------------------------------------------------------------------
  // Equalities
  // -------------------------------------------------------------------------

  function Same(a: Col, b: Col): Expr {
    Equals(Field(a, 0), Field(b, 0))
  }

  lemma EvalPair(l: Expr, r: Expr, schema: Schema, row: Row)
    ensures EvalAll([l, r], schema, row) == [Eval(l, schema, row), Eval(r, schema, row)]
  {
    var es, rest := [l, r], [r];
    assert es[1..] == rest && rest[1..] == [];
    assert EvalAll(rest, schema, row) == [Eval(r, schema, row)] + EvalAll([], schema, row);
    assert EvalAll(es, schema, row) == [Eval(l, schema, row)] + EvalAll(rest, schema, row);
  }

  lemma SameMeans(a: Col, b: Col, schema: Schema, row: Row)
    ensures True(Same(a, b), schema, row) <==> ValueOf(schema, row, a) == ValueOf(schema, row, b)
  {
    EvalPair(Field(a, 0), Field(b, 0), schema, row);
  }

  lemma SameMentions(a: Col, b: Col)
    ensures Mentions(Same(a, b)) == {a, b}
  {
    var es, rest := [Field(a, 0), Field(b, 0)], [Field(b, 0)];
    assert es[1..] == rest && rest[1..] == [];
    assert MentionsAny(rest) == Mentions(Field(b, 0)) + MentionsAny([]);
    assert MentionsAny(es) == Mentions(Field(a, 0)) + MentionsAny(rest);
  }

  function Holding(c: Col, v: Value): Expr {
    Equals(Field(c, 0), Literal(v))
  }

  lemma HoldingMeans(c: Col, v: Value, schema: Schema, row: Row)
    ensures True(Holding(c, v), schema, row) <==> ValueOf(schema, row, c) == v
    ensures Mentions(Holding(c, v)) == {c}
  {
    EvalPair(Field(c, 0), Literal(v), schema, row);
    var es, rest := [Field(c, 0), Literal(v)], [Literal(v)];
    assert es[1..] == rest && rest[1..] == [];
    assert MentionsAny(rest) == Mentions(Literal(v)) + MentionsAny([]);
    assert MentionsAny(es) == Mentions(Field(c, 0)) + MentionsAny(rest);
  }

  // An equality of the query between two columns, whichever way round it is written.
  lemma IsEqMeans(f: Expr, a: Col, b: Col, schema: Schema, row: Row)
    requires IsEq(f, a, b)
    ensures True(f, schema, row) <==> ValueOf(schema, row, a) == ValueOf(schema, row, b)
    ensures Mentions(f) == {a, b}
  {
    var l, r := f.children[0], f.children[1];
    assert f.children == [l, r];
    EvalPair(l, r, schema, row);
    var es, rest := [l, r], [r];
    assert es[1..] == rest && rest[1..] == [];
    assert MentionsAny(rest) == Mentions(r) + MentionsAny([]);
    assert MentionsAny(es) == Mentions(l) + MentionsAny(rest);
  }

  // Wherever all filters are true, the two columns agree, whether an equality says so or several together.
  ghost predicate Entails(filters: seq<Expr>, a: Col, b: Col) {
    forall schema, row :: AllTrue(filters, schema, row) ==> ValueOf(schema, row, a) == ValueOf(schema, row, b)
  }

  lemma EqualityEntails(filters: seq<Expr>, a: Col, b: Col)
    requires HasEq(filters, a, b)
    ensures Entails(filters, a, b)
  {
    var i :| 0 <= i < |filters| && IsEq(filters[i], a, b);
    forall schema, row | AllTrue(filters, schema, row) ensures ValueOf(schema, row, a) == ValueOf(schema, row, b) {
      assert True(filters[i], schema, row);
      IsEqMeans(filters[i], a, b, schema, row);
    }
  }

  lemma EntailedBackwards(filters: seq<Expr>, a: Col, b: Col)
    requires Entails(filters, a, b)
    ensures Entails(filters, b, a)
  {}

  lemma EntailedThrough(filters: seq<Expr>, a: Col, b: Col, c: Col)
    requires Entails(filters, a, b) && (Entails(filters, b, c) || Entails(filters, c, b))
    ensures Entails(filters, a, c)
  {
    forall schema, row | AllTrue(filters, schema, row) ensures ValueOf(schema, row, a) == ValueOf(schema, row, c) {
      assert ValueOf(schema, row, a) == ValueOf(schema, row, b);
    }
  }

  lemma SameOnPair(a: Col, b: Col, schema: Schema, row: Row, more: Schema, tail: Row)
    requires |row| == |schema| && |tail| == |more| && a in schema && b in more && b !in schema
    ensures AllTrue([Same(a, b)], schema + more, row + tail) <==> tail[Find(more, b).value] == ValueOf(schema, row, a)
  {
    var all, whole := schema + more, row + tail;
    FindInPrefix(schema, more, a);
    FindInPrefix(schema, more, b);
    SameMeans(a, b, all, whole);
    assert AllTrue([Same(a, b)], all, whole) <==> True(Same(a, b), all, whole);
    assert ValueOf(all, whole, a) == ValueOf(schema, row, a) && ValueOf(all, whole, b) == tail[Find(more, b).value];
  }

  // Joining on an equality picks the rows with the value of the row at hand.
  lemma {:induction false} KeepSameIsWhere(a: Col, b: Col, schema: Schema, row: Row, more: Schema, tails: seq<Row>)
    requires |row| == |schema| && Typed(tails, more) && a in schema && b in more && b !in schema
    ensures Keep([Same(a, b)], schema + more, Pairs(row, tails))
            == Pairs(row, Where(tails, Find(more, b).value, ValueOf(schema, row, a)))
  {
    if tails != [] {
      var tail := tails[0];
      assert tail in tails;
      KeepSameIsWhere(a, b, schema, row, more, tails[1..]);
      var i, v := Find(more, b).value, ValueOf(schema, row, a);
      SameOnPair(a, b, schema, row, more, tail);
      var rest := Where(tails[1..], i, v);
      if tail[i] == v {
        assert ([tail] + rest)[1..] == rest;
      } else {
        assert [] + rest == rest;
      }
    }
  }

  // So does asking for a fixed value in a column.
  lemma {:induction false} KeepHoldingIsWhere(c: Col, v: Value, schema: Schema, row: Row, more: Schema, tails: seq<Row>)
    requires |row| == |schema| && Typed(tails, more) && c in more && c !in schema
    ensures Keep([Holding(c, v)], schema + more, Pairs(row, tails)) == Pairs(row, Where(tails, Find(more, c).value, v))
  {
    if tails != [] {
      var tail := tails[0];
      assert tail in tails;
      KeepHoldingIsWhere(c, v, schema, row, more, tails[1..]);
      var all, whole := schema + more, row + tail;
      FindInPrefix(schema, more, c);
      HoldingMeans(c, v, all, whole);
      assert AllTrue([Holding(c, v)], all, whole) <==> True(Holding(c, v), all, whole);
      var i := Find(more, c).value;
      var rest := Where(tails[1..], i, v);
      if tail[i] == v {
        assert ([tail] + rest)[1..] == rest;
      } else {
        assert [] + rest == rest;
      }
    }
  }

  lemma WhereTyped(tails: seq<Row>, more: Schema, i: nat, v: Value)
    requires Typed(tails, more)
    ensures Typed(Where(tails, i, v), more)
  {
    WhereHas(tails, i, v);
  }

  // Two equalities pick one after the other.
  lemma KeepTwoSame(a: Col, b: Col, c: Col, d: Col, schema: Schema, row: Row, more: Schema, tails: seq<Row>)
    requires |row| == |schema| && Typed(tails, more)
    requires a in schema && b in more && b !in schema && c in schema && d in more && d !in schema
    ensures Keep([Same(a, b), Same(c, d)], schema + more, Pairs(row, tails))
            == Pairs(row, Where(Where(tails, Find(more, b).value, ValueOf(schema, row, a)),
                                Find(more, d).value, ValueOf(schema, row, c)))
  {
    var first := Where(tails, Find(more, b).value, ValueOf(schema, row, a));
    KeepTwice([Same(c, d)], [Same(a, b)], schema + more, Pairs(row, tails));
    assert [Same(a, b)] + [Same(c, d)] == [Same(a, b), Same(c, d)];
    KeepSameIsWhere(a, b, schema, row, more, tails);
    WhereTyped(tails, more, Find(more, b).value, ValueOf(schema, row, a));
    KeepSameIsWhere(c, d, schema, row, more, first);
  }

  // An equality and a fixed value pick one after the other.
  lemma KeepSameHolding(a: Col, b: Col, c: Col, v: Value, schema: Schema, row: Row, more: Schema, tails: seq<Row>)
    requires |row| == |schema| && Typed(tails, more)
    requires a in schema && b in more && b !in schema && c in more && c !in schema
    ensures Keep([Same(a, b)] + [Holding(c, v)], schema + more, Pairs(row, tails))
            == Pairs(row, Where(Where(tails, Find(more, b).value, ValueOf(schema, row, a)), Find(more, c).value, v))
  {
    var first := Where(tails, Find(more, b).value, ValueOf(schema, row, a));
    KeepTwice([Holding(c, v)], [Same(a, b)], schema + more, Pairs(row, tails));
    KeepSameIsWhere(a, b, schema, row, more, tails);
    WhereTyped(tails, more, Find(more, b).value, ValueOf(schema, row, a));
    KeepHoldingIsWhere(c, v, schema, row, more, first);
  }

  // Without equalities every row is joined.
  lemma {:induction false} KeepAll(schema: Schema, rows: seq<Row>)
    ensures Keep([], schema, rows) == rows
  {
    if rows != [] {
      KeepAll(schema, rows[1..]);
      assert AllTrue([], schema, rows[0]);
    }
  }
}
