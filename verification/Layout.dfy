// Columns of concatenated schemas, and rows laid out in another column order.

module Layout {
  import opened Objects
  import opened Expressions
  import opened SquashJoins
  import opened Relations

  ghost predicate Distinct<T(!new)>(s: seq<T>) {
    forall i, j :: 0 <= i < j < |s| ==> s[i] != s[j]
  }

  // -------------------------------------------------------------------------
  // The columns of several tables
  // -------------------------------------------------------------------------

  lemma {:induction false} ConcatHas(ts: seq<Table>, c: Col)
    ensures c in Concat(ts) <==> c.table in ts && c.name in Columns(c.table)
  {
    if ts != [] {
      var front, last := ts[..|ts| - 1], ts[|ts| - 1];
      ConcatHas(front, c);
      assert ts == front + [last];
      var s := SchemaOf(last);
      if c in s {
        var i :| 0 <= i < |s| && s[i] == c;
        assert Columns(last)[i] == c.name;
      }
      if c.table == last && c.name in Columns(last) {
        var i :| 0 <= i < |Columns(last)| && Columns(last)[i] == c.name;
        assert s[i] == c;
      }
    }
  }

  lemma ColumnsAreDistinct(t: Table)
    ensures Distinct(Columns(t))
  {}

  lemma {:induction false} ConcatIsDistinct(ts: seq<Table>)
    requires Distinct(ts)
    ensures Distinct(Concat(ts))
  {
    if ts != [] {
      var front, last := ts[..|ts| - 1], ts[|ts| - 1];
      ConcatIsDistinct(front);
      ColumnsAreDistinct(last);
      var head, tail := Concat(front), SchemaOf(last);
      forall i, j | 0 <= i < |head| && 0 <= j < |tail| ensures head[i] != tail[j] {
        ConcatHas(front, head[i]);
      }
    }
  }

  lemma {:induction false} ConcatFromLeft(t: Table, ts: seq<Table>)
    ensures Concat([t] + ts) == SchemaOf(t) + Concat(ts)
  {
    var all := [t] + ts;
    if ts == [] {
      assert all[..0] == [];
    } else {
      var front, last := ts[..|ts| - 1], ts[|ts| - 1];
      ConcatFromLeft(t, front);
      assert all[..|all| - 1] == [t] + front && all[|all| - 1] == last;
      Associative(SchemaOf(t), Concat(front), SchemaOf(last));
    }
  }

  ghost function Elements<T(!new)>(s: seq<T>): set<T> {
    set x | x in s
  }

  lemma {:induction false} DistinctCount<T(!new)>(s: seq<T>)
    requires Distinct(s)
    ensures |Elements(s)| == |s|
  {
    if s != [] {
      DistinctCount(s[1..]);
      assert Elements(s) == {s[0]} + Elements(s[1..]);
    }
  }

  // Another order of the same tables has the same columns.
  lemma ConcatPermuted(ts: seq<Table>, us: seq<Table>)
    requires Distinct(ts) && Distinct(us) && forall t :: t in ts <==> t in us
    ensures |Concat(ts)| == |Concat(us)|
    ensures forall c :: c in Concat(ts) <==> c in Concat(us)
  {
    forall c ensures c in Concat(ts) <==> c in Concat(us) {
      ConcatHas(ts, c);
      ConcatHas(us, c);
    }
    ConcatIsDistinct(ts);
    ConcatIsDistinct(us);
    DistinctCount(Concat(ts));
    DistinctCount(Concat(us));
    assert Elements(Concat(ts)) == Elements(Concat(us));
  }

  // -------------------------------------------------------------------------
  // Columns to the left
  // -------------------------------------------------------------------------

  lemma {:induction false} EvalOnPrefixedRow(e: Expr, pre: Schema, head: Row, schema: Schema, row: Row)
    requires |head| == |pre| && |row| == |schema|
    requires forall c :: c in Mentions(e) ==> c in schema && c !in pre
    ensures Eval(e, pre + schema, head + row) == Eval(e, schema, row)
    decreases e, 1
  {
    match e
    case Field(col, _) =>
      assert col in Mentions(e);
      FindInPrefix(pre, schema, col);
    case Literal(_) =>
    case Node(_, children) => EvalAllOnPrefixedRow(children, pre, head, schema, row);
  }

  lemma {:induction false} EvalAllOnPrefixedRow(es: seq<Expr>, pre: Schema, head: Row, schema: Schema, row: Row)
    requires |head| == |pre| && |row| == |schema|
    requires forall c :: c in MentionsAny(es) ==> c in schema && c !in pre
    ensures EvalAll(es, pre + schema, head + row) == EvalAll(es, schema, row)
    decreases es, 0
  {
    if es != [] {
      EvalOnPrefixedRow(es[0], pre, head, schema, row);
      EvalAllOnPrefixedRow(es[1..], pre, head, schema, row);
    }
  }

  ghost predicate Apart(pre: Schema, schema: Schema) {
    forall c :: c in schema ==> c !in pre
  }

  lemma {:induction false} KeepPairsLeft(fs: seq<Expr>, pre: Schema, head: Row, schema: Schema, rows: seq<Row>)
    requires |head| == |pre| && Typed(rows, schema) && Over(fs, schema) && Apart(pre, schema)
    ensures Keep(fs, pre + schema, Pairs(head, rows)) == Pairs(head, Keep(fs, schema, rows))
  {
    if rows != [] {
      var row := rows[0];
      assert row in rows;
      KeepPairsLeft(fs, pre, head, schema, rows[1..]);
      forall f | f in fs ensures True(f, pre + schema, head + row) <==> True(f, schema, row) {
        EvalOnPrefixedRow(f, pre, head, schema, row);
      }
      var rest := Keep(fs, schema, rows[1..]);
      if AllTrue(fs, schema, row) {
        assert ([row] + rest)[1..] == rest;
      } else {
        assert [] + rest == rest;
      }
    }
  }

  // A filter over the inner tables may run before or after the outer loop.
  lemma {:induction false} KeepCrossLeft(fs: seq<Expr>, pre: Schema, heads: seq<Row>, schema: Schema, rows: seq<Row>)
    requires Typed(heads, pre) && Typed(rows, schema) && Over(fs, schema) && Apart(pre, schema)
    ensures Cross(heads, Keep(fs, schema, rows)) == Keep(fs, pre + schema, Cross(heads, rows))
  {
    if heads != [] {
      assert heads[0] in heads;
      KeepCrossLeft(fs, pre, heads[1..], schema, rows);
      KeepPairsLeft(fs, pre, heads[0], schema, rows);
      KeepAppend(fs, pre + schema, Pairs(heads[0], rows), Cross(heads[1..], rows));
    }
  }

  // -------------------------------------------------------------------------
  // Another order of the columns
  // -------------------------------------------------------------------------

  // The values of a row under the columns of another schema, by name.
  function Arrange(original: Schema, schema: Schema, row: Row): Row {
    seq(|original|, i requires 0 <= i < |original| => ValueOf(schema, row, original[i]))
  }

  function ArrangeAll(original: Schema, schema: Schema, rows: seq<Row>): seq<Row> {
    if rows == [] then [] else [Arrange(original, schema, rows[0])] + ArrangeAll(original, schema, rows[1..])
  }

  lemma {:induction false} FindAt(schema: Schema, i: nat)
    requires Distinct(schema) && i < |schema|
    ensures Find(schema, schema[i]) == Some(i)
  {
    if i > 0 {
      assert schema[0] != schema[i];
      FindAt(schema[1..], i - 1);
    }
  }

  lemma {:induction false} FindLastAt(schema: Schema, i: nat)
    requires Distinct(schema) && i < |schema|
    ensures FindLast(schema, schema[i]) == Some(i)
  {
    var n := |schema| - 1;
    if i < n {
      assert schema[n] != schema[i] && schema[..n][i] == schema[i];
      FindLastAt(schema[..n], i);
    }
  }

  lemma ArrangeSame(schema: Schema, row: Row)
    requires Distinct(schema) && |row| == |schema|
    ensures Arrange(schema, schema, row) == row
  {
    forall i | 0 <= i < |schema| ensures Arrange(schema, schema, row)[i] == row[i] {
      FindAt(schema, i);
    }
  }

  // Arranging a row changes no expression over the columns that stay.
  lemma {:induction false} EvalOnArranged(e: Expr, original: Schema, schema: Schema, row: Row)
    requires forall c :: c in Mentions(e) ==> c in original
    ensures Eval(e, original, Arrange(original, schema, row)) == Eval(e, schema, row)
    decreases e, 1
  {
    match e
    case Field(col, _) => assert col in Mentions(e);
    case Literal(_) =>
    case Node(_, children) => EvalAllOnArranged(children, original, schema, row);
  }

  lemma {:induction false} EvalAllOnArranged(es: seq<Expr>, original: Schema, schema: Schema, row: Row)
    requires forall c :: c in MentionsAny(es) ==> c in original
    ensures EvalAll(es, original, Arrange(original, schema, row)) == EvalAll(es, schema, row)
    decreases es, 0
  {
    if es != [] {
      EvalOnArranged(es[0], original, schema, row);
      EvalAllOnArranged(es[1..], original, schema, row);
    }
  }

  // Filtering arranged rows by position is arranging the rows filtered by name.
  lemma {:induction false} FilterArranged(fs: seq<Expr>, original: Schema, schema: Schema, rows: seq<Row>)
    requires Compile(fs, original).Some?
    ensures Filtered(Compile(fs, original).value, ArrangeAll(original, schema, rows))
            == ArrangeAll(original, schema, Keep(fs, schema, rows))
  {
    if rows != [] {
      var row := rows[0];
      var arranged := Arrange(original, schema, row);
      FilterArranged(fs, original, schema, rows[1..]);
      CompileIsFaithful(fs, original, arranged);
      forall f | f in fs ensures True(f, original, arranged) <==> True(f, schema, row) {
        MentionsAnyHas(fs, f);
        EvalOnArranged(f, original, schema, row);
      }
      var all, rest := ArrangeAll(original, schema, rows), Keep(fs, schema, rows[1..]);
      assert all[0] == arranged && all[1..] == ArrangeAll(original, schema, rows[1..]);
      if AllTrue(fs, schema, row) {
        assert ([row] + rest)[1..] == rest;
      } else {
        assert [] + rest == rest;
      }
    }
  }

  // The row a schema mapping or a projection makes of a row.
  function Pick(positions: seq<nat>, row: Row): Row {
    seq(|positions|, i requires 0 <= i < |positions| => if positions[i] < |row| then row[positions[i]] else Null)
  }

  function PickAll(positions: Option<seq<nat>>, rows: seq<Row>): seq<Row> {
    if positions.None? || rows == [] then rows
    else [Pick(positions.value, rows[0])] + PickAll(positions, rows[1..])
  }

  ghost predicate Rearranges(original: Schema, actual: Schema) {
    Distinct(actual) && |original| == |actual| && forall c :: c in original ==> c in actual
  }

  lemma SameSchemasAreEqual(original: Schema, actual: Schema)
    requires Rearranges(original, actual) && SameSchemas(original, actual)
    ensures original == actual
  {
    forall i | 0 <= i < |original| ensures original[i] == actual[i] {
      assert original[i] in actual;
    }
  }

  // The mapping gives every row the columns of the original schema, by name.
  lemma {:induction false} MappingArranges(original: Schema, actual: Schema, rows: seq<Row>)
    requires Rearranges(original, actual) && Typed(rows, actual)
    ensures PickAll(BuildSchemaMapping(original, actual), rows) == ArrangeAll(original, actual, rows)
  {
    if rows != [] {
      assert rows[0] in rows;
      MappingArranges(original, actual, rows[1..]);
      if SameSchemas(original, actual) {
        SameSchemasAreEqual(original, actual);
        ArrangeSame(actual, rows[0]);
        assert PickAll(None, rows[1..]) == rows[1..];
      } else {
        var positions := Positions(original, actual);
        assert Pick(positions, rows[0]) == Arrange(original, actual, rows[0]);
      }
    }
  }

  // So does the projection around joins that were not squashed.
  lemma {:induction false} ProjectionArranges(original: Schema, actual: Schema, rows: seq<Row>)
    requires Rearranges(original, actual) && Typed(rows, actual)
    ensures ProjectSchema(original, actual).Some?
    ensures PickAll(ProjectSchema(original, actual).value, rows) == ArrangeAll(original, actual, rows)
  {
    if rows != [] {
      assert rows[0] in rows;
      ProjectionArranges(original, actual, rows[1..]);
      if original == actual {
        ArrangeSame(actual, rows[0]);
        assert PickAll(None, rows[1..]) == rows[1..];
      } else {
        var positions := ProjectSchema(original, actual).value.value;
        forall i | 0 <= i < |original|
          ensures Pick(positions, rows[0])[i] == Arrange(original, actual, rows[0])[i]
        {
          var j :| 0 <= j < |actual| && actual[j] == original[i];
          FindAt(actual, j);
          FindLastAt(actual, j);
        }
        assert Pick(positions, rows[0]) == Arrange(original, actual, rows[0]);
        assert PickAll(Some(positions), rows) == [Pick(positions, rows[0])] + PickAll(Some(positions), rows[1..]);
      }
    }
  }
}
