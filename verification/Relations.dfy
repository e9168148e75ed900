// Joins as nested loops over plain tables, and chains of generators.

module Relations {
  import opened Objects
  import opened Expressions
  import opened SquashJoins

  // The rows of each plain table.
  type Db = Table -> seq<Row>

  ghost predicate Typed(rows: seq<Row>, schema: Schema) {
    forall row :: row in rows ==> |row| == |schema|
  }

  ghost predicate TypedDb(db: Db) {
    forall t :: Typed(db(t), SchemaOf(t))
  }

  // -------------------------------------------------------------------------
  // Nested loops
  // -------------------------------------------------------------------------

  function Pairs(row: Row, tails: seq<Row>): seq<Row> {
    if tails == [] then [] else [row + tails[0]] + Pairs(row, tails[1..])
  }

  function Cross(rows: seq<Row>, tails: seq<Row>): seq<Row> {
    if rows == [] then [] else Pairs(rows[0], tails) + Cross(rows[1..], tails)
  }

  // The cross product of tables, the first one in the outermost loop.
  function Product(db: Db, tables: seq<Table>): seq<Row> {
    if tables == [] then [[]] else Cross(Product(db, tables[..|tables| - 1]), db(tables[|tables| - 1]))
  }

  // The rows on which every filter is true.
  ghost function Keep(fs: seq<Expr>, schema: Schema, rows: seq<Row>): seq<Row> {
    if rows == [] then []
    else (if AllTrue(fs, schema, rows[0]) then [rows[0]] else []) + Keep(fs, schema, rows[1..])
  }

  lemma {:induction false} PairsAppend(row: Row, a: seq<Row>, b: seq<Row>)
    ensures Pairs(row, a + b) == Pairs(row, a) + Pairs(row, b)
  {
    if a == [] {
      assert a + b == b;
    } else {
      PairsAppend(row, a[1..], b);
      assert (a + b)[1..] == a[1..] + b;
    }
  }

  lemma {:induction false} PairsPairs(head: Row, row: Row, tails: seq<Row>)
    ensures Pairs(head, Pairs(row, tails)) == Pairs(head + row, tails)
  {
    if tails != [] {
      PairsPairs(head, row, tails[1..]);
      assert head + (row + tails[0]) == head + row + tails[0];
    }
  }

  lemma {:induction false} PairsCross(head: Row, rows: seq<Row>, tails: seq<Row>)
    ensures Pairs(head, Cross(rows, tails)) == Cross(Pairs(head, rows), tails)
  {
    if rows != [] {
      PairsAppend(head, Pairs(rows[0], tails), Cross(rows[1..], tails));
      PairsPairs(head, rows[0], tails);
      PairsCross(head, rows[1..], tails);
    }
  }

  lemma {:induction false} CrossAppend(a: seq<Row>, b: seq<Row>, tails: seq<Row>)
    ensures Cross(a + b, tails) == Cross(a, tails) + Cross(b, tails)
  {
    if a == [] {
      assert a + b == b;
    } else {
      CrossAppend(a[1..], b, tails);
      assert (a + b)[1..] == a[1..] + b;
    }
  }

  lemma {:induction false} CrossAssociative(a: seq<Row>, b: seq<Row>, c: seq<Row>)
    ensures Cross(a, Cross(b, c)) == Cross(Cross(a, b), c)
  {
    if a != [] {
      CrossAssociative(a[1..], b, c);
      PairsCross(a[0], b, c);
      CrossAppend(Pairs(a[0], b), Cross(a[1..], b), c);
    }
  }

  lemma {:induction false} PairsUnit(rows: seq<Row>)
    ensures Pairs([], rows) == rows && Cross(rows, [[]]) == rows
  {
    if rows != [] {
      PairsUnit(rows[1..]);
      assert [] + rows[0] == rows[0] && rows[0] + [] == rows[0];
      assert Pairs(rows[0], [[]]) == [rows[0] + []] + Pairs(rows[0], []);
    }
  }

  // Joining one more table from the left puts it in the outermost loop.
  lemma {:induction false} ProductFromLeft(db: Db, t: Table, tables: seq<Table>)
    ensures Product(db, [t] + tables) == Cross(db(t), Product(db, tables))
  {
    var all := [t] + tables;
    if tables == [] {
      assert all[..0] == [];
      PairsUnit(db(t));
      assert Cross([[]], db(t)) == Pairs([], db(t)) + Cross([], db(t));
    } else {
      var front := tables[..|tables| - 1];
      ProductFromLeft(db, t, front);
      assert all[..|all| - 1] == [t] + front;
      CrossAssociative(db(t), Product(db, front), db(tables[|tables| - 1]));
    }
  }

  // -------------------------------------------------------------------------
  // Filters
  // -------------------------------------------------------------------------

  lemma {:induction false} KeepAppend(fs: seq<Expr>, schema: Schema, a: seq<Row>, b: seq<Row>)
    ensures Keep(fs, schema, a + b) == Keep(fs, schema, a) + Keep(fs, schema, b)
  {
    if a == [] {
      assert a + b == b;
    } else {
      KeepAppend(fs, schema, a[1..], b);
      assert (a + b)[1..] == a[1..] + b;
    }
  }

  lemma {:induction false} KeepTwice(fs: seq<Expr>, gs: seq<Expr>, schema: Schema, rows: seq<Row>)
    ensures Keep(fs, schema, Keep(gs, schema, rows)) == Keep(gs + fs, schema, rows)
  {
    if rows != [] {
      var row, rest := rows[0], Keep(gs, schema, rows[1..]);
      KeepTwice(fs, gs, schema, rows[1..]);
      AllTrueAppend(gs, fs, schema, row);
      if AllTrue(gs, schema, row) {
        assert ([row] + rest)[1..] == rest;
      } else {
        assert [] + rest == rest;
      }
    }
  }

  lemma AllTrueAppend(fs: seq<Expr>, gs: seq<Expr>, schema: Schema, row: Row)
    ensures AllTrue(fs + gs, schema, row) <==> AllTrue(fs, schema, row) && AllTrue(gs, schema, row)
  {
    assert forall f :: f in fs + gs <==> f in fs || f in gs;
  }

  // Two lists that agree on every row keep the same rows.
  lemma {:induction false} KeepSame(fs: seq<Expr>, gs: seq<Expr>, schema: Schema, rows: seq<Row>)
    requires forall row :: row in rows ==> (AllTrue(fs, schema, row) <==> AllTrue(gs, schema, row))
    ensures Keep(fs, schema, rows) == Keep(gs, schema, rows)
  {
    if rows != [] {
      assert rows[0] in rows;
      KeepSame(fs, gs, schema, rows[1..]);
    }
  }

  lemma {:induction false} KeepIsPart(fs: seq<Expr>, schema: Schema, rows: seq<Row>)
    ensures forall row :: row in Keep(fs, schema, rows) <==> row in rows && AllTrue(fs, schema, row)
  {
    if rows != [] {
      KeepIsPart(fs, schema, rows[1..]);
    }
  }

  ghost predicate Over(fs: seq<Expr>, schema: Schema) {
    forall f, c :: f in fs && c in Mentions(f) ==> c in schema
  }

  lemma AllTrueOnLongerRow(fs: seq<Expr>, schema: Schema, row: Row, more: Schema, tail: Row)
    requires Over(fs, schema) && |row| == |schema|
    ensures AllTrue(fs, schema + more, row + tail) <==> AllTrue(fs, schema, row)
  {
    forall f | f in fs ensures True(f, schema + more, row + tail) <==> True(f, schema, row) {
      EvalOnLongerRow(f, schema, row, more, tail);
    }
  }

  lemma {:induction false} KeepPairs(fs: seq<Expr>, schema: Schema, row: Row, more: Schema, tails: seq<Row>)
    requires Over(fs, schema) && |row| == |schema|
    ensures Keep(fs, schema + more, Pairs(row, tails)) == if AllTrue(fs, schema, row) then Pairs(row, tails) else []
  {
    if tails != [] {
      KeepPairs(fs, schema, row, more, tails[1..]);
      AllTrueOnLongerRow(fs, schema, row, more, tails[0]);
    }
  }

  // A filter over the outer tables may run before or after the inner loop.
  lemma {:induction false} KeepCross(fs: seq<Expr>, schema: Schema, rows: seq<Row>, more: Schema, tails: seq<Row>)
    requires Over(fs, schema) && Typed(rows, schema)
    ensures Cross(Keep(fs, schema, rows), tails) == Keep(fs, schema + more, Cross(rows, tails))
  {
    if rows != [] {
      assert rows[0] in rows;
      KeepCross(fs, schema, rows[1..], more, tails);
      KeepPairs(fs, schema, rows[0], more, tails);
      KeepAppend(fs, schema + more, Pairs(rows[0], tails), Cross(rows[1..], tails));
      var rest := Keep(fs, schema, rows[1..]);
      if AllTrue(fs, schema, rows[0]) {
        CrossAppend([rows[0]], rest, tails);
        assert Cross([rows[0]], tails) == Pairs(rows[0], tails) + Cross([], tails);
      } else {
        assert [] + rest == rest;
      }
    }
  }

  lemma {:induction false} PairsTyped(row: Row, tails: seq<Row>, schema: Schema, more: Schema)
    requires |row| == |schema| && Typed(tails, more)
    ensures Typed(Pairs(row, tails), schema + more)
  {
    if tails != [] {
      assert tails[0] in tails;
      PairsTyped(row, tails[1..], schema, more);
    }
  }

  lemma {:induction false} CrossTyped(rows: seq<Row>, tails: seq<Row>, schema: Schema, more: Schema)
    requires Typed(rows, schema) && Typed(tails, more)
    ensures Typed(Cross(rows, tails), schema + more)
  {
    if rows != [] {
      assert rows[0] in rows;
      PairsTyped(rows[0], tails, schema, more);
      CrossTyped(rows[1..], tails, schema, more);
    }
  }

  lemma {:induction false} ProductTyped(db: Db, tables: seq<Table>)
    requires TypedDb(db)
    ensures Typed(Product(db, tables), Concat(tables))
  {
    if tables != [] {
      var front, last := tables[..|tables| - 1], tables[|tables| - 1];
      ProductTyped(db, front);
      assert Typed(db(last), SchemaOf(last));
      CrossTyped(Product(db, front), db(last), Concat(front), SchemaOf(last));
    }
  }

  // -------------------------------------------------------------------------
  // Chains
  // -------------------------------------------------------------------------

  // A generator makes the rows a stage appends to one row of the stage before.
  type Generator = Row -> seq<Row>

  function Filtered(filter: Option<Expr>, rows: seq<Row>): seq<Row> {
    if rows == [] then []
    else (if Passes(filter, rows[0]) then [rows[0]] else []) + Filtered(filter, rows[1..])
  }

  function RunStage(rows: seq<Row>, gen: Generator, filter: Option<Expr>): seq<Row> {
    if rows == [] then []
    else Filtered(filter, Pairs(rows[0], gen(rows[0]))) + RunStage(rows[1..], gen, filter)
  }

  function RunStages(stages: seq<Stage>, gens: seq<Generator>): seq<Row>
    requires |gens| == |stages|
  {
    if stages == [] then [[]]
    else
      var n := |stages| - 1;
      RunStage(RunStages(stages[..n], gens[..n]), gens[n], stages[n].filter)
  }

  lemma {:induction false} FilteredIsKeep(fs: seq<Expr>, schema: Schema, rows: seq<Row>)
    requires Typed(rows, schema) && Compile(fs, schema).Some?
    ensures Filtered(Compile(fs, schema).value, rows) == Keep(fs, schema, rows)
  {
    if rows != [] {
      assert rows[0] in rows;
      CompileIsFaithful(fs, schema, rows[0]);
      FilteredIsKeep(fs, schema, rows[1..]);
    }
  }

  // On this row the generator makes the rows of the plain table that the joins ask for.
  ghost predicate ExactOn(gen: Generator, joins: seq<Expr>, schema: Schema, row: Row, more: Schema, plain: seq<Row>) {
    Pairs(row, gen(row)) == Keep(joins, schema + more, Pairs(row, plain))
  }

  // A stage over exact generators is a filtered inner loop over the plain table.
  lemma {:induction false} StageIsLoop(rows: seq<Row>, gen: Generator, kept: seq<Expr>, joins: seq<Expr>,
                                       schema: Schema, more: Schema, plain: seq<Row>)
    requires Typed(rows, schema) && Typed(plain, more) && Compile(kept, schema + more).Some?
    requires forall row :: row in rows ==> ExactOn(gen, joins, schema, row, more, plain)
    ensures RunStage(rows, gen, Compile(kept, schema + more).value)
            == Keep(joins + kept, schema + more, Cross(rows, plain))
  {
    if rows != [] {
      var row, all := rows[0], schema + more;
      assert row in rows && ExactOn(gen, joins, schema, row, more, plain);
      StageIsLoop(rows[1..], gen, kept, joins, schema, more, plain);
      KeepTwice(kept, joins, all, Pairs(row, plain));
      KeepAppend(joins + kept, all, Pairs(row, plain), Cross(rows[1..], plain));
      PairsTyped(row, plain, schema, more);
      KeepIsPart(joins, all, Pairs(row, plain));
      FilteredIsKeep(kept, all, Pairs(row, gen(row)));
    }
  }
}
