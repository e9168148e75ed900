// Runs without filters, told apart by counting rows, and what that says of whole queries.

module RunCounts {
  import opened Objects
  import opened Expressions
  import opened SquashJoins
  import opened Relations
  import opened Layout
  import opened SquashMeaning
  import opened ExactChains
  import opened RefHistoryQueries
  import opened QueryOrder

  lemma {:induction false} FilteredNone(rows: seq<Row>)
    ensures Filtered(None, rows) == rows
  {
    if rows != [] {
      FilteredNone(rows[1..]);
    }
  }

  lemma RunStageOnOne(row: Row, gen: Generator)
    ensures RunStage([row], gen, None) == Pairs(row, gen(row))
  {
    assert [row][1..] == [];
    FilteredNone(Pairs(row, gen(row)));
  }

  lemma {:induction false} RunStageSame(rows: seq<Row>, g: Generator, h: Generator)
    requires forall row :: row in rows ==> g(row) == h(row)
    ensures RunStage(rows, g, None) == RunStage(rows, h, None)
  {
    if rows != [] {
      assert rows[0] in rows;
      RunStageSame(rows[1..], g, h);
    }
  }

  lemma {:induction false} RunStageTyped(rows: seq<Row>, gen: Generator, schema: Schema, more: Schema)
    requires Typed(rows, schema) && forall row :: row in rows ==> Typed(gen(row), more)
    ensures Typed(RunStage(rows, gen, None), schema + more)
  {
    if rows != [] {
      assert rows[0] in rows;
      RunStageTyped(rows[1..], gen, schema, more);
      FilteredNone(Pairs(rows[0], gen(rows[0])));
      PairsTyped(rows[0], gen(rows[0]), schema, more);
    }
  }

  // A run of an exact generator is the filtered cross product.
  lemma ExactRun(rows: seq<Row>, gen: Generator, joins: seq<Expr>, schema: Schema, more: Schema, plain: seq<Row>)
    requires Typed(rows, schema) && Typed(plain, more)
    requires forall row :: row in rows ==> ExactOn(gen, joins, schema, row, more, plain)
    ensures Keep(joins, schema + more, Cross(rows, plain)) == RunStage(rows, gen, None)
  {
    assert Compile([], schema + more) == Some(None) && joins + [] == joins;
    StageIsLoop(rows, gen, [], joins, schema, more, plain);
  }

  // -------------------------------------------------------------------------
  // Counting
  // -------------------------------------------------------------------------

  // The rows that begin with this one.
  function Starting(rows: seq<Row>, head: Row): nat {
    if rows == [] then 0
    else (if |head| <= |rows[0]| && rows[0][..|head|] == head then 1 else 0) + Starting(rows[1..], head)
  }

  lemma {:induction false} StartingAppend(a: seq<Row>, b: seq<Row>, head: Row)
    ensures Starting(a + b, head) == Starting(a, head) + Starting(b, head)
  {
    if a == [] {
      assert a + b == b;
    } else {
      StartingAppend(a[1..], b, head);
      assert (a + b)[1..] == a[1..] + b;
    }
  }

  lemma {:induction false} StartingPairs(row: Row, tails: seq<Row>, head: Row)
    requires |row| == |head|
    ensures Starting(Pairs(row, tails), head) == if row == head then |tails| else 0
  {
    if tails != [] {
      var first := row + tails[0];
      StartingPairs(row, tails[1..], head);
      assert first[..|head|] == row;
      assert ([first] + Pairs(row, tails[1..]))[1..] == Pairs(row, tails[1..]);
    }
  }

  lemma OneMore(rows: seq<Row>, head: Row, m: nat)
    requires rows != []
    ensures multiset(rows)[head] * m == (if rows[0] == head then m else 0) + multiset(rows[1..])[head] * m
  {
    assert rows == [rows[0]] + rows[1..];
  }

  lemma SameFactor(n: nat, a: nat, b: nat)
    requires n > 0 && n * a == n * b
    ensures a == b
  {
    if a < b {
      Grows(n, a, b);
    } else if b < a {
      Grows(n, b, a);
    }
  }

  lemma Grows(n: nat, a: nat, b: nat)
    requires n > 0 && a < b
    ensures n * a < n * b
  {
    assert n * b == n * a + n * (b - a);
  }

  // A run without filters has as many rows for a row as the generator makes, each time the row is there.
  lemma {:induction false} RunStageCounts(rows: seq<Row>, gen: Generator, head: Row)
    requires forall row :: row in rows ==> |row| == |head|
    ensures Starting(RunStage(rows, gen, None), head) == multiset(rows)[head] * |gen(head)|
  {
    if rows != [] {
      var row := rows[0];
      assert row in rows;
      RunStageCounts(rows[1..], gen, head);
      FilteredNone(Pairs(row, gen(row)));
      StartingPairs(row, gen(row), head);
      StartingAppend(Pairs(row, gen(row)), RunStage(rows[1..], gen, None), head);
      OneMore(rows, head, |gen(head)|);
    }
  }

  lemma {:induction false} StartingWithout(rows: seq<Row>, i: nat, head: Row)
    requires i < |rows|
    ensures Starting(rows, head) == Starting(rows[..i] + rows[i + 1..], head) + Starting([rows[i]], head)
  {
    assert rows == rows[..i] + ([rows[i]] + rows[i + 1..]);
    StartingAppend(rows[..i], [rows[i]] + rows[i + 1..], head);
    StartingAppend([rows[i]], rows[i + 1..], head);
    StartingAppend(rows[..i], rows[i + 1..], head);
  }

  // The count does not depend on the order of the rows.
  lemma {:induction false} StartingPermuted(a: seq<Row>, b: seq<Row>, head: Row)
    requires multiset(a) == multiset(b)
    ensures Starting(a, head) == Starting(b, head)
    decreases |a|
  {
    if a == [] {
      SameSize(a, b);
    } else {
      var i := InBoth(a, b);
      MultisetWithout(a, 0);
      MultisetWithout(b, i);
      assert a[..0] + a[1..] == a[1..];
      StartingPermuted(a[1..], b[..i] + b[i + 1..], head);
      StartingWithout(a, 0, head);
      StartingWithout(b, i, head);
    }
  }

  lemma InBoth(a: seq<Row>, b: seq<Row>) returns (i: nat)
    requires multiset(a) == multiset(b) && a != []
    ensures i < |b| && b[i] == a[0]
  {
    assert a[0] in multiset(a) && a[0] in multiset(b);
    i :| i < |b| && b[i] == a[0];
  }

  lemma MultisetWithout(rows: seq<Row>, i: nat)
    requires i < |rows|
    ensures multiset(rows[..i] + rows[i + 1..]) == multiset(rows) - multiset{rows[i]}
  {
    assert rows == rows[..i] + ([rows[i]] + rows[i + 1..]);
  }

  lemma SameSize(a: seq<Row>, b: seq<Row>)
    requires multiset(a) == multiset(b)
    ensures |a| == |b|
  {
    assert |multiset(a)| == |multiset(b)|;
  }

  // As many rows from both generators are the same rows.
  ghost predicate AlikeOn(g: Generator, h: Generator, row: Row) {
    |g(row)| == |h(row)| ==> g(row) == h(row)
  }

  lemma EqualRunsMakeEqualCounts(rows: seq<Row>, g: Generator, h: Generator, row: Row)
    requires multiset(RunStage(rows, g, None)) == multiset(RunStage(rows, h, None)) && row in rows
    requires forall r :: r in rows ==> |r| == |row|
    ensures |g(row)| == |h(row)|
  {
    StartingPermuted(RunStage(rows, g, None), RunStage(rows, h, None), row);
    RunStageCounts(rows, g, row);
    RunStageCounts(rows, h, row);
    SameFactor(multiset(rows)[row], |g(row)|, |h(row)|);
  }

  // Two such runs have the same rows, in whatever order, exactly if the generators agree on every row.
  lemma RunsAlike(rows: seq<Row>, g: Generator, h: Generator, n: nat)
    requires forall row :: row in rows ==> |row| == n && AlikeOn(g, h, row)
    ensures RunStage(rows, g, None) == RunStage(rows, h, None) <==> forall row :: row in rows ==> g(row) == h(row)
    ensures multiset(RunStage(rows, g, None)) == multiset(RunStage(rows, h, None))
            <==> forall row :: row in rows ==> g(row) == h(row)
  {
    if forall row :: row in rows ==> g(row) == h(row) {
      RunStageSame(rows, g, h);
    }
    if multiset(RunStage(rows, g, None)) == multiset(RunStage(rows, h, None)) {
      forall row | row in rows ensures g(row) == h(row) {
        EqualRunsMakeEqualCounts(rows, g, h, row);
      }
    }
  }

  // -------------------------------------------------------------------------
  // Whole queries
  // -------------------------------------------------------------------------

  // The node returns the rows of the join as it was written, in some order.
  ghost predicate AsWritten(repo: Repository, readContent: bool, db: Db, tables: seq<Table>, filters: seq<Expr>) {
    Squash(tables, filters, false).Success? &&
    var sq := Squash(tables, filters, false).value;
    multiset(Execute(sq, db, Gens(repo, readContent, sq.plan.stages)))
    == multiset(Keep(filters, Concat(tables), Product(db, tables)))
  }

  lemma ArrangedMultisets(a: Schema, b: Schema, rows: seq<Row>, others: seq<Row>)
    requires SameCols(a, b) && |a| == |b| && Typed(rows, b) && Typed(others, b)
    requires multiset(ArrangeAll(a, b, rows)) == multiset(ArrangeAll(a, b, others))
    ensures multiset(rows) == multiset(others)
  {
    forall row ensures multiset(rows)[row] == multiset(others)[row] {
      if |row| == |b| {
        ArrangeAllCount(a, b, rows, Arrange(a, b, row));
        ArrangeAllCount(a, b, others, Arrange(a, b, row));
        ArrangeBack(b, a, row);
      } else {
        assert row !in rows && row !in others;
      }
    }
  }

  // A node that returns arranged rows preserves its query exactly if those are the rows of the plan.
  lemma PreservedIffRows(repo: Repository, readContent: bool, db: Db, tables: seq<Table>, filters: seq<Expr>, rows: seq<Row>)
    requires TypedDb(db) && Distinct(tables) && Over(filters, Concat(tables)) && Squash(tables, filters, false).Success?
    requires var sq := Squash(tables, filters, false).value;
             var order := Order(sq.plan);
             && Covers(sq.plan, tables) && Typed(rows, Concat(order))
             && Execute(sq, db, Gens(repo, readContent, sq.plan.stages)) == ArrangeAll(Concat(tables), Concat(order), rows)
             && (multiset(rows) == multiset(Keep(filters, Concat(order), Product(db, order)))
                 ==> rows == Keep(filters, Concat(order), Product(db, order)))
    ensures var order := Order(Squash(tables, filters, false).value.plan);
            var plain := Keep(filters, Concat(order), Product(db, order));
            && (Preserved(repo, readContent, db, tables, filters) <==> rows == plain)
            && (AsWritten(repo, readContent, db, tables, filters) <==> rows == plain)
  {
    var order := Order(Squash(tables, filters, false).value.plan);
    var plain := Keep(filters, Concat(order), Product(db, order));
    KeptTyped(filters, db, order);
    SameColumnsOf(tables, order);
    QueryPermuted(db, filters, tables, order);
    if multiset(ArrangeAll(Concat(tables), Concat(order), rows)) == multiset(ArrangeAll(Concat(tables), Concat(order), plain)) {
      ArrangedMultisets(Concat(tables), Concat(order), rows, plain);
    }
  }
}
