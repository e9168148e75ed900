// The rows of a query do not depend on the order of its tables, except for the order of the rows.

module QueryOrder {
  import opened Objects
  import opened Expressions
  import opened SquashJoins
  import opened Relations
  import opened Layout
  import opened SquashMeaning
  import opened ExactChains
  import opened RefHistoryQueries

  // -------------------------------------------------------------------------
  // How often a row is in a product
  // -------------------------------------------------------------------------

  lemma CountNext(rows: seq<Row>, s: Row)
    requires rows != []
    ensures multiset(rows)[s] == (if rows[0] == s then 1 else 0) + multiset(rows[1..])[s]
  {
    assert rows == [rows[0]] + rows[1..];
  }

  lemma SplitsInto(row: Row, tail: Row, s: Row)
    requires |row| <= |s|
    ensures row + tail == s <==> s[..|row|] == row && s[|row|..] == tail
  {
    assert s == s[..|row|] + s[|row|..];
    assert (row + tail)[..|row|] == row && (row + tail)[|row|..] == tail;
  }

  lemma {:induction false} PairsCount(row: Row, tails: seq<Row>, s: Row)
    requires |row| <= |s|
    ensures multiset(Pairs(row, tails))[s] == if s[..|row|] == row then multiset(tails)[s[|row|..]] else 0
  {
    if tails != [] {
      PairsCount(row, tails[1..], s);
      CountNext(tails, s[|row|..]);
      CountNext(Pairs(row, tails), s);
      assert Pairs(row, tails)[1..] == Pairs(row, tails[1..]);
      SplitsInto(row, tails[0], s);
    }
  }

  lemma {:induction false} CrossCount(rows: seq<Row>, tails: seq<Row>, schema: Schema, s: Row)
    requires Typed(rows, schema) && |schema| <= |s|
    ensures multiset(Cross(rows, tails))[s] == multiset(rows)[s[..|schema|]] * multiset(tails)[s[|schema|..]]
  {
    if rows != [] {
      assert rows[0] in rows;
      CrossCount(rows[1..], tails, schema, s);
      PairsCount(rows[0], tails, s);
      FirstCounts(rows, s[..|schema|], multiset(tails)[s[|schema|..]]);
    }
  }

  lemma FirstCounts(rows: seq<Row>, row: Row, m: nat)
    requires rows != []
    ensures multiset(rows)[row] * m == (if rows[0] == row then m else 0) + multiset(rows[1..])[row] * m
  {
    CountNext(rows, row);
  }

  // The columns of one table in a row.
  function Part(t: Table, schema: Schema, row: Row): Row {
    Arrange(SchemaOf(t), schema, row)
  }

  function Times(db: Db, t: Table, part: Row): nat {
    multiset(db(t))[part]
  }

  // A row is in a product as often as the choices of its parts multiply to.
  function Choices(db: Db, ts: seq<Table>, schema: Schema, row: Row): nat {
    if ts == [] then 1
    else
      var n := |ts| - 1;
      Choices(db, ts[..n], schema, row) * Times(db, ts[n], Part(ts[n], schema, row))
  }

  ghost predicate SameParts(ts: seq<Table>, a: Schema, row: Row, b: Schema, other: Row) {
    forall t :: t in ts ==> Part(t, a, row) == Part(t, b, other)
  }

  lemma {:induction false} SameChoices(db: Db, ts: seq<Table>, a: Schema, row: Row, b: Schema, other: Row)
    requires SameParts(ts, a, row, b, other)
    ensures Choices(db, ts, a, row) == Choices(db, ts, b, other)
    decreases |ts|
  {
    if ts != [] {
      var n := |ts| - 1;
      SameChoices(db, ts[..n], a, row, b, other);
      assert Part(ts[n], a, row) == Part(ts[n], b, other);
    }
  }

  lemma PartInFront(t: Table, schema: Schema, more: Schema, row: Row)
    requires |schema| <= |row| && forall c :: c in SchemaOf(t) ==> c in schema
    ensures Part(t, schema, row[..|schema|]) == Part(t, schema + more, row)
  {
    var cols := SchemaOf(t);
    forall i | 0 <= i < |cols| ensures Part(t, schema, row[..|schema|])[i] == Part(t, schema + more, row)[i] {
      FindInPrefix(schema, more, cols[i]);
    }
  }

  lemma PartAtEnd(t: Table, schema: Schema, row: Row)
    requires |row| == |schema| + |SchemaOf(t)| && forall c :: c in schema ==> c.table != t
    ensures Part(t, schema + SchemaOf(t), row) == row[|schema|..]
  {
    var cols := SchemaOf(t);
    ColumnsAreDistinct(t);
    forall i | 0 <= i < |cols| ensures Part(t, schema + cols, row)[i] == row[|schema|..][i] {
      FindInPrefix(schema, cols, cols[i]);
      FindAt(cols, i);
    }
  }

  lemma FrontParts(ts: seq<Table>, row: Row)
    requires ts != [] && |row| == |Concat(ts)|
    ensures var front := ts[..|ts| - 1];
            |Concat(front)| <= |row| && SameParts(front, Concat(front), row[..|Concat(front)|], Concat(ts), row)
  {
    var front, last := ts[..|ts| - 1], ts[|ts| - 1];
    forall t | t in front ensures Part(t, Concat(front), row[..|Concat(front)|]) == Part(t, Concat(ts), row) {
      forall c | c in SchemaOf(t) ensures c in Concat(front) {
        ConcatHas(front, c);
      }
      PartInFront(t, Concat(front), SchemaOf(last), row);
    }
  }

  lemma LastPart(ts: seq<Table>, row: Row)
    requires ts != [] && Distinct(ts) && |row| == |Concat(ts)|
    ensures var n := |ts| - 1;
            |Concat(ts[..n])| <= |row| && Part(ts[n], Concat(ts), row) == row[|Concat(ts[..n])|..]
  {
    var n := |ts| - 1;
    forall c | c in Concat(ts[..n]) ensures c.table != ts[n] {
      ConcatHas(ts[..n], c);
    }
    PartAtEnd(ts[n], Concat(ts[..n]), row);
  }

  lemma {:induction false} ProductCount(db: Db, ts: seq<Table>, row: Row)
    requires TypedDb(db) && Distinct(ts) && |row| == |Concat(ts)|
    ensures multiset(Product(db, ts))[row] == Choices(db, ts, Concat(ts), row)
    decreases |ts|
  {
    if ts == [] {
      assert row == [];
      assert Product(db, ts) == [[]];
      assert multiset([row])[row] == 1;
    } else {
      var front, last := ts[..|ts| - 1], ts[|ts| - 1];
      var w := |Concat(front)|;
      ProductTyped(db, front);
      CrossCount(Product(db, front), db(last), Concat(front), row);
      ProductCount(db, front, row[..w]);
      FrontParts(ts, row);
      LastPart(ts, row);
      SameChoices(db, front, Concat(front), row[..w], Concat(ts), row);
    }
  }

  // -------------------------------------------------------------------------
  // Another order of the tables
  // -------------------------------------------------------------------------

  lemma {:induction false} ChoicesWithout(db: Db, ts: seq<Table>, i: nat, schema: Schema, row: Row)
    requires i < |ts|
    ensures Choices(db, ts, schema, row)
            == Choices(db, ts[..i] + ts[i + 1..], schema, row) * Times(db, ts[i], Part(ts[i], schema, row))
    decreases |ts|
  {
    var n := |ts| - 1;
    var front := ts[..n];
    assert ts == front + [ts[n]];
    ChoicesOf(db, front, ts[n], schema, row);
    if i == n {
      assert ts[..i] + ts[i + 1..] == front;
    } else {
      var others := front[..i] + front[i + 1..];
      ChoicesWithout(db, front, i, schema, row);
      WithoutLast(ts, i);
      ChoicesOf(db, others, ts[n], schema, row);
      Commutes(Choices(db, front, schema, row), Choices(db, others, schema, row),
               Times(db, ts[i], Part(ts[i], schema, row)), Times(db, ts[n], Part(ts[n], schema, row)));
    }
  }

  lemma WithoutLast(ts: seq<Table>, i: nat)
    requires i < |ts| - 1
    ensures var n := |ts| - 1;
            ts[..n][i] == ts[i] && ts[..i] + ts[i + 1..] == (ts[..n][..i] + ts[..n][i + 1..]) + [ts[n]]
  {}

  lemma ChoicesOf(db: Db, front: seq<Table>, t: Table, schema: Schema, row: Row)
    ensures Choices(db, front + [t], schema, row) == Choices(db, front, schema, row) * Times(db, t, Part(t, schema, row))
  {
    assert (front + [t])[..|front|] == front;
  }

  lemma Commutes(front: nat, others: nat, mine: nat, last: nat)
    requires front == others * mine
    ensures front * last == others * last * mine
  {}

  lemma {:induction false} ChoicesPermuted(db: Db, ts: seq<Table>, us: seq<Table>, schema: Schema, row: Row)
    requires Distinct(ts) && Distinct(us) && forall t :: t in ts <==> t in us
    ensures Choices(db, ts, schema, row) == Choices(db, us, schema, row)
    decreases |ts|
  {
    if ts == [] {
      NoneRising(us);
    } else {
      var n := |ts| - 1;
      assert ts[n] in us;
      var i :| 0 <= i < |us| && us[i] == ts[n];
      Removed(us, i);
      Removed(ts, n);
      assert ts[..n] + ts[n + 1..] == ts[..n];
      ChoicesPermuted(db, ts[..n], us[..i] + us[i + 1..], schema, row);
      ChoicesWithout(db, us, i, schema, row);
    }
  }

  lemma Removed(ts: seq<Table>, i: nat)
    requires Distinct(ts) && i < |ts|
    ensures var others := ts[..i] + ts[i + 1..]; Distinct(others) && forall t :: t in others <==> t in ts && t != ts[i]
  {
    var others := ts[..i] + ts[i + 1..];
    assert forall k :: 0 <= k < |others| ==> others[k] == ts[if k < i then k else k + 1];
    forall t | t in ts && t != ts[i] ensures t in others {
      var k :| 0 <= k < |ts| && ts[k] == t;
      assert others[if k < i then k else k - 1] == t;
    }
  }

  // -------------------------------------------------------------------------
  // Putting the columns back and forth
  // -------------------------------------------------------------------------

  ghost predicate SameCols(a: Schema, b: Schema) {
    Distinct(a) && Distinct(b) && forall c :: c in a <==> c in b
  }

  lemma ArrangeBack(a: Schema, b: Schema, row: Row)
    requires SameCols(a, b) && |row| == |a|
    ensures Arrange(a, b, Arrange(b, a, row)) == row
  {
    var there := Arrange(b, a, row);
    forall i | 0 <= i < |a| ensures Arrange(a, b, there)[i] == row[i] {
      assert a[i] in b;
      var j :| 0 <= j < |b| && b[j] == a[i];
      FindAt(b, j);
      FindAt(a, i);
    }
  }

  // Arranged rows are counted before they are arranged.
  lemma {:induction false} ArrangeAllCount(a: Schema, b: Schema, rows: seq<Row>, row: Row)
    requires SameCols(a, b) && Typed(rows, b) && |row| == |a|
    ensures multiset(ArrangeAll(a, b, rows))[row] == multiset(rows)[Arrange(b, a, row)]
  {
    if rows != [] {
      var rest := ArrangeAll(a, b, rows[1..]);
      ArrangeAllCount(a, b, rows[1..], row);
      ArrangeBack(a, b, row);
      assert rows[0] in rows && rows == [rows[0]] + rows[1..];
      ArrangeBack(b, a, rows[0]);
    }
  }

  lemma {:induction false} ArrangeAllTyped(a: Schema, b: Schema, rows: seq<Row>)
    ensures Typed(ArrangeAll(a, b, rows), a)
  {
    if rows != [] {
      ArrangeAllTyped(a, b, rows[1..]);
    }
  }

  lemma PartsArranged(ts: seq<Table>, a: Schema, b: Schema, row: Row)
    requires Distinct(b) && forall t, c :: t in ts && c in SchemaOf(t) ==> c in b
    ensures SameParts(ts, a, row, b, Arrange(b, a, row))
  {
    forall t | t in ts ensures Part(t, a, row) == Part(t, b, Arrange(b, a, row)) {
      var cols := SchemaOf(t);
      forall i | 0 <= i < |cols| ensures Part(t, a, row)[i] == Part(t, b, Arrange(b, a, row))[i] {
        assert cols[i] in b;
        var j :| 0 <= j < |b| && b[j] == cols[i];
        FindAt(b, j);
      }
    }
  }

  lemma SameColumnsOf(ts: seq<Table>, us: seq<Table>)
    requires Distinct(ts) && Distinct(us) && forall t :: t in ts <==> t in us
    ensures SameCols(Concat(ts), Concat(us)) && |Concat(ts)| == |Concat(us)|
    ensures forall t, c :: t in ts && c in SchemaOf(t) ==> c in Concat(us)
  {
    ConcatPermuted(ts, us);
    ConcatIsDistinct(ts);
    ConcatIsDistinct(us);
    forall t, c | t in ts && c in SchemaOf(t) ensures c in Concat(us) {
      ConcatHas(us, c);
    }
  }

  // The products in two orders have the same rows, each as often.
  lemma ProductPermuted(db: Db, ts: seq<Table>, us: seq<Table>)
    requires TypedDb(db) && Distinct(ts) && Distinct(us) && forall t :: t in ts <==> t in us
    ensures multiset(ArrangeAll(Concat(ts), Concat(us), Product(db, us))) == multiset(Product(db, ts))
  {
    var a, b := Concat(ts), Concat(us);
    var arranged := ArrangeAll(a, b, Product(db, us));
    SameColumnsOf(ts, us);
    ProductTyped(db, us);
    ProductTyped(db, ts);
    ArrangeAllTyped(a, b, Product(db, us));
    forall row ensures multiset(arranged)[row] == multiset(Product(db, ts))[row] {
      if |row| == |a| {
        ArrangeAllCount(a, b, Product(db, us), row);
        ProductCount(db, us, Arrange(b, a, row));
        ProductCount(db, ts, row);
        PartsArranged(ts, a, b, row);
        SameChoices(db, ts, a, row, b, Arrange(b, a, row));
        ChoicesPermuted(db, ts, us, b, Arrange(b, a, row));
      } else {
        assert row !in arranged && row !in Product(db, ts);
      }
    }
  }

  // -------------------------------------------------------------------------
  // Filters
  // -------------------------------------------------------------------------

  lemma {:induction false} KeepCount(fs: seq<Expr>, schema: Schema, rows: seq<Row>, row: Row)
    ensures multiset(Keep(fs, schema, rows))[row] == if AllTrue(fs, schema, row) then multiset(rows)[row] else 0
  {
    if rows != [] {
      KeepCount(fs, schema, rows[1..], row);
      assert rows == [rows[0]] + rows[1..];
    }
  }

  lemma {:induction false} KeepArranged(fs: seq<Expr>, original: Schema, schema: Schema, rows: seq<Row>)
    requires Over(fs, original)
    ensures Keep(fs, original, ArrangeAll(original, schema, rows)) == ArrangeAll(original, schema, Keep(fs, schema, rows))
  {
    if rows != [] {
      var row := rows[0];
      var arranged := Arrange(original, schema, row);
      KeepArranged(fs, original, schema, rows[1..]);
      forall f | f in fs ensures True(f, original, arranged) <==> True(f, schema, row) {
        EvalOnArranged(f, original, schema, row);
      }
      var all, rest := ArrangeAll(original, schema, rows), Keep(fs, schema, rows[1..]);
      assert all[0] == arranged && all[1..] == ArrangeAll(original, schema, rows[1..]);
      if AllTrue(fs, schema, row) {
        assert ([row] + rest)[1..] == rest;
      } else {
        assert [] + rest == rest;
      }
    }
  }

  // A query has the same rows, each as often, in whatever order its tables are joined.
  lemma QueryPermuted(db: Db, filters: seq<Expr>, ts: seq<Table>, us: seq<Table>)
    requires TypedDb(db) && Distinct(ts) && Distinct(us) && forall t :: t in ts <==> t in us
    requires Over(filters, Concat(ts))
    ensures multiset(ArrangeAll(Concat(ts), Concat(us), Keep(filters, Concat(us), Product(db, us))))
            == multiset(Keep(filters, Concat(ts), Product(db, ts)))
  {
    var arranged, plain := ArrangeAll(Concat(ts), Concat(us), Product(db, us)), Product(db, ts);
    ProductPermuted(db, ts, us);
    KeepArranged(filters, Concat(ts), Concat(us), Product(db, us));
    forall row ensures multiset(Keep(filters, Concat(ts), arranged))[row] == multiset(Keep(filters, Concat(ts), plain))[row] {
      KeepCount(filters, Concat(ts), arranged, row);
      KeepCount(filters, Concat(ts), plain, row);
    }
  }

  // So what a squashed node keeps of its query are the rows of the join as it was written.
  lemma PreservedAsWritten(db: Db, repo: Repository, readContent: bool, tables: seq<Table>, filters: seq<Expr>)
    requires TypedDb(db) && Distinct(tables) && Over(filters, Concat(tables))
    requires Preserved(repo, readContent, db, tables, filters)
    ensures var sq := Squash(tables, filters, false).value;
            multiset(Execute(sq, db, Gens(repo, readContent, sq.plan.stages)))
            == multiset(Keep(filters, Concat(tables), Product(db, tables)))
  {
    var sq := Squash(tables, filters, false).value;
    QueryPermuted(db, filters, tables, Order(sq.plan));
  }
}
