// What the squashed node returns: the filtered cross product of the plain tables.

module SquashMeaning {
  import opened Objects
  import opened Expressions
  import opened SquashJoins
  import opened FilterConservation
  import opened Relations
  import opened Layout

  // -------------------------------------------------------------------------
  // Running a squashed node
  // -------------------------------------------------------------------------

  function RunJoins(joins: seq<Join>, db: Db, rows: seq<Row>): seq<Row> {
    if joins == [] then rows
    else RunJoins(joins[1..], db, Filtered(joins[0].filter, Cross(db(joins[0].table), rows)))
  }

  function Execute(sq: Squashed, db: Db, gens: seq<Generator>): seq<Row>
    requires |gens| == |sq.plan.stages|
  {
    Filtered(sq.filter, PickAll(sq.positions, RunJoins(sq.joins, db, RunStages(sq.plan.stages, gens))))
  }

  // -------------------------------------------------------------------------
  // What the rule builds
  // -------------------------------------------------------------------------

  function StageTables(stages: seq<Stage>): seq<Table> {
    if stages == [] then [] else StageTables(stages[..|stages| - 1]) + [Added(stages[|stages| - 1].link)]
  }

  // Each join goes around the ones before it, so the last one is the outermost loop.
  function JoinTables(us: seq<Unsquashed>): seq<Table> {
    if us == [] then [] else JoinTables(us[1..]) + [us[0].table]
  }

  function Order(p: Plan): seq<Table> {
    JoinTables(p.unsquashable) + StageTables(p.stages)
  }

  // The filter of every stage is the compiled conjunction of what it keeps.
  ghost predicate WellBuilt(stages: seq<Stage>) {
    stages == [] ||
    var n := |stages| - 1;
    && WellBuilt(stages[..n])
    && Compile(Kept(stages[n].link, stages[n].dealt), Concat(StageTables(stages))) == Some(stages[n].filter)
  }

  ghost predicate BuiltWell(p: Plan) {
    WellBuilt(p.stages) && p.schema == Concat(StageTables(p.stages))
  }

  lemma StageIsWellBuilt(p: Plan, link: Link, next: Iter, indexed: bool)
    requires BuiltWell(p) && AddStage(p, link, next, indexed).Success?
    ensures BuiltWell(AddStage(p, link, next, indexed).value)
  {
    var q := AddStage(p, link, next, indexed).value;
    var n := |p.stages|;
    assert q.stages[..n] == p.stages;
    assert StageTables(q.stages)[..n] == StageTables(p.stages) by { StageTablesLength(p.stages); }
    StageTablesLength(q.stages);
  }

  lemma TableIsWellBuilt(p: Plan, t: Table, indexed: bool)
    requires BuiltWell(p) && AddTable(p, t, indexed).Success?
    ensures BuiltWell(AddTable(p, t, indexed).value)
  {
    var q := p.(used := p.used + {t});
    if Choose(q.iter, t).Chain? {
      StageIsWellBuilt(q, Choose(q.iter, t).link, Choose(q.iter, t).next, indexed);
    }
  }

  lemma {:induction false} StagesAreWellBuilt(filters: seq<Expr>, ts: seq<Table>, indexed: bool)
    requires AddTables(EmptyPlan(filters), ts, indexed).Success?
    ensures BuiltWell(AddTables(EmptyPlan(filters), ts, indexed).value)
  {
    if ts != [] {
      StagesAreWellBuilt(filters, ts[..|ts| - 1], indexed);
      TableIsWellBuilt(AddTables(EmptyPlan(filters), ts[..|ts| - 1], indexed).value, ts[|ts| - 1], indexed);
    }
  }

  lemma {:induction false} StageTablesLength(stages: seq<Stage>)
    ensures |StageTables(stages)| == |stages|
  {
    if stages != [] {
      StageTablesLength(stages[..|stages| - 1]);
    }
  }

  // -------------------------------------------------------------------------
  // The chain
  // -------------------------------------------------------------------------

  // The equalities each generator makes true, and the filters each stage runs.
  function Chained(stages: seq<Stage>, joins: seq<seq<Expr>>): seq<Expr>
    requires |joins| == |stages|
  {
    if stages == [] then []
    else
      var n := |stages| - 1;
      Chained(stages[..n], joins[..n]) + (joins[n] + Kept(stages[n].link, stages[n].dealt))
  }

  // Every generator makes, for any row of the product before it, the rows its joins ask for.
  ghost predicate Exact(stages: seq<Stage>, gens: seq<Generator>, joins: seq<seq<Expr>>, db: Db)
    requires |gens| == |stages| == |joins|
  {
    stages == [] ||
    var n := |stages| - 1;
    var before, t := StageTables(stages[..n]), Added(stages[n].link);
    && Exact(stages[..n], gens[..n], joins[..n], db)
    && Over(joins[n], Concat(before) + SchemaOf(t))
    && forall row :: row in Product(db, before) ==> ExactOn(gens[n], joins[n], Concat(before), row, SchemaOf(t), db(t))
  }

  lemma {:induction false} ChainedIsOver(stages: seq<Stage>, gens: seq<Generator>, joins: seq<seq<Expr>>, db: Db)
    requires |gens| == |stages| == |joins| && WellBuilt(stages) && Exact(stages, gens, joins, db)
    ensures Over(Chained(stages, joins), Concat(StageTables(stages)))
  {
    if stages != [] {
      var n := |stages| - 1;
      var kept := Kept(stages[n].link, stages[n].dealt);
      ChainedIsOver(stages[..n], gens[..n], joins[..n], db);
      var schema := Concat(StageTables(stages));
      StageTablesLength(stages[..n]);
      assert StageTables(stages)[..n] == StageTables(stages[..n]);
      CompileIsFaithful(kept, schema, seq(|schema|, i => Null));
      forall f, c | f in Chained(stages, joins) && c in Mentions(f) ensures c in schema {
        if f in kept {
          MentionsAnyHas(kept, f);
        }
      }
    }
  }

  // A chain of exact generators is the filtered cross product of its tables.
  lemma {:induction false} ChainIsProduct(stages: seq<Stage>, gens: seq<Generator>, joins: seq<seq<Expr>>, db: Db)
    requires |gens| == |stages| == |joins| && TypedDb(db)
    requires WellBuilt(stages) && Exact(stages, gens, joins, db)
    ensures RunStages(stages, gens)
            == Keep(Chained(stages, joins), Concat(StageTables(stages)), Product(db, StageTables(stages)))
  {
    if stages == [] {
      assert AllTrue([], [], []);
      assert Keep([], [], [[]]) == [[]] + Keep([], [], []);
    } else {
      var n := |stages| - 1;
      var before, t := StageTables(stages[..n]), Added(stages[n].link);
      var schema, more := Concat(before), SchemaOf(t);
      var kept := Kept(stages[n].link, stages[n].dealt);
      var earlier := Chained(stages[..n], joins[..n]);
      ChainIsProduct(stages[..n], gens[..n], joins[..n], db);
      assert StageTables(stages)[..n] == before by { StageTablesLength(stages[..n]); }
      StageTablesLength(stages);
      ProductTyped(db, before);
      KeepIsPart(earlier, schema, Product(db, before));
      assert Typed(db(t), more);
      StageIsLoop(RunStages(stages[..n], gens[..n]), gens[n], kept, joins[n], schema, more, db(t));
      ChainedIsOver(stages[..n], gens[..n], joins[..n], db);
      KeepCross(earlier, schema, Product(db, before), more, db(t));
      KeepTwice(joins[n] + kept, earlier, schema + more, Cross(Product(db, before), db(t)));
    }
  }

  // -------------------------------------------------------------------------
  // The joins around the chain
  // -------------------------------------------------------------------------

  function JoinFilters(us: seq<Unsquashed>): seq<Expr> {
    if us == [] then [] else us[0].filters + JoinFilters(us[1..])
  }

  lemma {:induction false} JoinsAreProduct(us: seq<Unsquashed>, db: Db, ts: seq<Table>, fs: seq<Expr>)
    requires TypedDb(db) && CompileJoins(us, Concat(ts)).Some? && Over(fs, Concat(ts))
    requires Distinct(JoinTables(us) + ts)
    ensures var order := JoinTables(us) + ts;
            && JoinedSchema(us, Concat(ts)) == Concat(order)
            && RunJoins(CompileJoins(us, Concat(ts)).value, db, Keep(fs, Concat(ts), Product(db, ts)))
               == Keep(fs + JoinFilters(us), Concat(order), Product(db, order))
  {
    var order := JoinTables(us) + ts;
    if us == [] {
      assert order == ts && fs + [] == fs;
    } else {
      var u := us[0];
      FirstJoinFits(us, db, ts, fs);
      FirstJoinRuns(us, db, ts, fs);
      JoinsAreProduct(us[1..], db, [u.table] + ts, fs + u.filters);
      Associative(fs, u.filters, JoinFilters(us[1..]));
    }
  }

  lemma FirstJoinFits(us: seq<Unsquashed>, db: Db, ts: seq<Table>, fs: seq<Expr>)
    requires us != [] && CompileJoins(us, Concat(ts)).Some? && Over(fs, Concat(ts))
    requires Distinct(JoinTables(us) + ts)
    ensures var u := us[0];
            var ts' := [u.table] + ts;
            && JoinTables(us) + ts == JoinTables(us[1..]) + ts' && Distinct(ts')
            && Concat(ts') == SchemaOf(u.table) + Concat(ts) && Over(fs + u.filters, Concat(ts'))
            && CompileJoins(us[1..], Concat(ts')).Some?
            && JoinedSchema(us, Concat(ts)) == JoinedSchema(us[1..], Concat(ts'))
  {
    var u := us[0];
    Associative(JoinTables(us[1..]), [u.table], ts);
    DistinctSuffix(JoinTables(us[1..]), [u.table] + ts);
    ConcatFromLeft(u.table, ts);
    JoinedFiltersAreOver(u, ts, fs);
  }

  lemma FirstJoinRuns(us: seq<Unsquashed>, db: Db, ts: seq<Table>, fs: seq<Expr>)
    requires TypedDb(db) && us != [] && CompileJoins(us, Concat(ts)).Some? && Over(fs, Concat(ts))
    requires var ts' := [us[0].table] + ts;
             Distinct(ts') && Concat(ts') == SchemaOf(us[0].table) + Concat(ts) && CompileJoins(us[1..], Concat(ts')).Some?
    ensures var u := us[0];
            var ts' := [u.table] + ts;
            RunJoins(CompileJoins(us, Concat(ts)).value, db, Keep(fs, Concat(ts), Product(db, ts)))
            == RunJoins(CompileJoins(us[1..], Concat(ts')).value, db, Keep(fs + u.filters, Concat(ts'), Product(db, ts')))
  {
    OneJoin(us[0], db, ts, fs);
    var joins := CompileJoins(us, Concat(ts)).value;
    assert joins[1..] == CompileJoins(us[1..], SchemaOf(us[0].table) + Concat(ts)).value;
  }

  lemma DistinctSuffix<T(!new)>(a: seq<T>, b: seq<T>)
    requires Distinct(a + b)
    ensures Distinct(b)
  {
    forall i, j | 0 <= i < j < |b| ensures b[i] != b[j] {
      assert (a + b)[|a| + i] == b[i] && (a + b)[|a| + j] == b[j];
    }
  }

  lemma JoinedFiltersAreOver(u: Unsquashed, ts: seq<Table>, fs: seq<Expr>)
    requires Over(fs, Concat(ts)) && Compile(u.filters, SchemaOf(u.table) + Concat(ts)).Some?
    ensures Over(fs + u.filters, SchemaOf(u.table) + Concat(ts))
  {
    var wider := SchemaOf(u.table) + Concat(ts);
    CompileIsFaithful(u.filters, wider, seq(|wider|, i => Null));
    forall f, c | f in fs + u.filters && c in Mentions(f) ensures c in wider {
      if f in u.filters {
        MentionsAnyHas(u.filters, f);
      }
    }
  }

  lemma OtherTablesAreApart(t: Table, ts: seq<Table>)
    requires Distinct([t] + ts)
    ensures Apart(SchemaOf(t), Concat(ts))
  {
    forall c | c in Concat(ts) ensures c !in SchemaOf(t) {
      ConcatHas(ts, c);
      var i :| 0 <= i < |ts| && ts[i] == c.table;
      assert ([t] + ts)[1 + i] == ts[i] && ([t] + ts)[0] == t;
    }
  }

  lemma OneJoin(u: Unsquashed, db: Db, ts: seq<Table>, fs: seq<Expr>)
    requires TypedDb(db) && Over(fs, Concat(ts)) && Distinct([u.table] + ts)
    requires Compile(u.filters, SchemaOf(u.table) + Concat(ts)).Some?
    ensures var wider := SchemaOf(u.table) + Concat(ts);
            Filtered(Compile(u.filters, wider).value, Cross(db(u.table), Keep(fs, Concat(ts), Product(db, ts))))
            == Keep(fs + u.filters, wider, Product(db, [u.table] + ts))
  {
    var schema, pre, rows := Concat(ts), SchemaOf(u.table), Product(db, ts);
    ProductTyped(db, ts);
    assert Typed(db(u.table), pre);
    OtherTablesAreApart(u.table, ts);
    KeepCrossLeft(fs, pre, db(u.table), schema, rows);
    ProductFromLeft(db, u.table, ts);
    var all := Cross(db(u.table), rows);
    CrossTyped(db(u.table), rows, pre, schema);
    KeepIsPart(fs, pre + schema, all);
    FilteredIsKeep(u.filters, pre + schema, Keep(fs, pre + schema, all));
    KeepTwice(u.filters, fs, pre + schema, all);
  }

  // -------------------------------------------------------------------------
  // The whole node
  // -------------------------------------------------------------------------

  // Every table of the query is in the chain or joined around it, and none twice.
  ghost predicate Covers(p: Plan, tables: seq<Table>) {
    Distinct(Order(p)) && forall t :: t in tables <==> t in Order(p)
  }

  // What the generators make true follows from the query, and makes true what was dropped or moved.
  ghost predicate JoinsAgree(p: Plan, joins: seq<seq<Expr>>, filters: seq<Expr>, schema: Schema, row: Row)
    requires |joins| == |p.stages|
  {
    && (AllTrue(filters, schema, row) ==> AllTrue(Chained(p.stages, joins), schema, row))
    && (AllTrue(Chained(p.stages, joins), schema, row) ==>
          forall f :: f in Moved(p.stages) + Implied(p.stages) ==> True(f, schema, row))
  }

  lemma {:induction false} ChainedHasRun(stages: seq<Stage>, joins: seq<seq<Expr>>, f: Expr)
    requires |joins| == |stages| && f in Run(stages)
    ensures f in Chained(stages, joins)
  {
    if stages != [] {
      var n := |stages| - 1;
      if f in Kept(stages[n].link, stages[n].dealt) {
      } else {
        ChainedHasRun(stages[..n], joins[..n], f);
      }
    }
  }

  lemma {:induction false} JoinFiltersAreOnJoins(us: seq<Unsquashed>)
    ensures multiset(JoinFilters(us)) == OnJoins(us)
  {
    if us != [] {
      JoinFiltersAreOnJoins(us[1..]);
      OnJoinsFromLeft(us);
    }
  }

  lemma {:induction false} OnJoinsFromLeft(us: seq<Unsquashed>)
    requires us != []
    ensures OnJoins(us) == multiset(us[0].filters) + OnJoins(us[1..])
  {
    if |us| == 1 {
      assert us[..0] == [] && us[1..] == [];
    } else {
      var n := |us| - 1;
      var front, rest := us[..n], us[1..];
      OnJoinsFromLeft(front);
      assert front[1..] == rest[..n - 1] && rest[n - 1] == us[n];
      assert OnJoins(us) == OnJoins(front) + multiset(us[n].filters);
      assert OnJoins(rest) == OnJoins(rest[..n - 1]) + multiset(us[n].filters);
    }
  }

  // On a row of the product, what runs somewhere in the node is true exactly when the query is.
  lemma NodeChecksQuery(p: Plan, joins: seq<seq<Expr>>, filters: seq<Expr>, schema: Schema, row: Row)
    requires |joins| == |p.stages| && Everywhere(p) == multiset(filters)
    requires JoinsAgree(p, joins, filters, schema, row)
    ensures AllTrue(Chained(p.stages, joins) + JoinFilters(p.unsquashable) + p.filters, schema, row)
            <==> AllTrue(filters, schema, row)
  {
    var chained, around := Chained(p.stages, joins), JoinFilters(p.unsquashable);
    JoinFiltersAreOnJoins(p.unsquashable);
    AllTrueAppend(chained + around, p.filters, schema, row);
    AllTrueAppend(chained, around, schema, row);
    if AllTrue(filters, schema, row) {
      forall f | f in around || f in p.filters ensures True(f, schema, row) {
        assert f in multiset(around) || f in multiset(p.filters);
        assert f in Everywhere(p);
      }
    }
    if AllTrue(chained, schema, row) && AllTrue(around, schema, row) && AllTrue(p.filters, schema, row) {
      forall f | f in filters ensures True(f, schema, row) {
        assert f in multiset(filters);
        if f in Run(p.stages) {
          ChainedHasRun(p.stages, joins, f);
        } else if f in OnJoins(p.unsquashable) {
          assert f in around;
        }
      }
    }
  }

  // The squashed node returns, in the columns of the original join, the rows of the cross product of
  // the plain tables on which all filters of the query are true.
  lemma SquashPreservesMeaning(tables: seq<Table>, filters: seq<Expr>, indexed: bool, db: Db,
                               gens: seq<Generator>, joins: seq<seq<Expr>>)
    requires Distinct(tables) && TypedDb(db)
    requires Squash(tables, filters, indexed).Success?
    requires var p := Squash(tables, filters, indexed).value.plan;
             && |gens| == |joins| == |p.stages|
             && Covers(p, tables)
             && Exact(p.stages, gens, joins, db)
             && forall row :: row in Product(db, Order(p)) ==> JoinsAgree(p, joins, filters, Concat(Order(p)), row)
    ensures var sq := Squash(tables, filters, indexed).value;
            var order := Order(sq.plan);
            Execute(sq, db, gens)
            == ArrangeAll(Concat(tables), Concat(order), Keep(filters, Concat(order), Product(db, order)))
  {
    var sq := Squash(tables, filters, indexed).value;
    var p := sq.plan;
    var order, original := Order(p), Concat(tables);
    StagesAreWellBuilt(filters, Ordered(tables), indexed);
    var chained := Chained(p.stages, joins);
    ChainIsProduct(p.stages, gens, joins, db);
    ChainedIsOver(p.stages, gens, joins, db);
    JoinsAreProduct(p.unsquashable, db, StageTables(p.stages), chained);
    FiltersAreConserved(tables, filters, indexed);
    Finally(tables, filters, indexed, db, chained + JoinFilters(p.unsquashable));
    NodeKeepsQuery(p, joins, filters, Concat(order), Product(db, order));
  }

  lemma NodeKeepsQuery(p: Plan, joins: seq<seq<Expr>>, filters: seq<Expr>, schema: Schema, rows: seq<Row>)
    requires |joins| == |p.stages| && Everywhere(p) == multiset(filters)
    requires forall row :: row in rows ==> JoinsAgree(p, joins, filters, schema, row)
    ensures Keep(Chained(p.stages, joins) + JoinFilters(p.unsquashable) + p.filters, schema, rows) == Keep(filters, schema, rows)
  {
    var all := Chained(p.stages, joins) + JoinFilters(p.unsquashable) + p.filters;
    forall row | row in rows ensures AllTrue(all, schema, row) <==> AllTrue(filters, schema, row) {
      NodeChecksQuery(p, joins, filters, schema, row);
    }
    KeepSame(all, filters, schema, rows);
  }

  // The columns are put back.
  lemma ColumnsAreBack(tables: seq<Table>, p: Plan, rows: seq<Row>)
    requires Distinct(tables) && Covers(p, tables) && Typed(rows, Concat(Order(p)))
    requires JoinedSchema(p.unsquashable, p.schema) == Concat(Order(p))
             && (p.unsquashable == [] ==> p.schema == Concat(Order(p)))
    ensures var original := Concat(tables);
            var positions := if p.unsquashable == [] then Some(BuildSchemaMapping(original, p.schema))
                             else ProjectSchema(original, JoinedSchema(p.unsquashable, p.schema));
            positions.Some? && PickAll(positions.value, rows) == ArrangeAll(original, Concat(Order(p)), rows)
  {
    var order, original := Order(p), Concat(tables);
    ConcatIsDistinct(order);
    ConcatPermuted(tables, order);
    MappingArranges(original, Concat(order), rows);
    ProjectionArranges(original, Concat(order), rows);
  }

  // What the rule leaves for the end.
  lemma LastParts(tables: seq<Table>, filters: seq<Expr>, indexed: bool)
    requires Squash(tables, filters, indexed).Success?
    ensures var sq := Squash(tables, filters, indexed).value;
            var p, original := sq.plan, Concat(tables);
            && Compile(p.filters, original) == Some(sq.filter)
            && Some(sq.positions) == if p.unsquashable == [] then Some(BuildSchemaMapping(original, p.schema))
                                     else ProjectSchema(original, JoinedSchema(p.unsquashable, p.schema))
  {}

  lemma KeptRowsFinish(tables: seq<Table>, p: Plan, positions: Option<seq<nat>>, filter: Option<Expr>, rows: seq<Row>)
    requires Distinct(tables) && Covers(p, tables) && Typed(rows, Concat(Order(p)))
    requires JoinedSchema(p.unsquashable, p.schema) == Concat(Order(p))
             && (p.unsquashable == [] ==> p.schema == Concat(Order(p)))
    requires Compile(p.filters, Concat(tables)) == Some(filter)
    requires Some(positions) == if p.unsquashable == [] then Some(BuildSchemaMapping(Concat(tables), p.schema))
                                else ProjectSchema(Concat(tables), JoinedSchema(p.unsquashable, p.schema))
    ensures Filtered(filter, PickAll(positions, rows))
            == ArrangeAll(Concat(tables), Concat(Order(p)), Keep(p.filters, Concat(Order(p)), rows))
  {
    ColumnsAreBack(tables, p, rows);
    FilterArranged(p.filters, Concat(tables), Concat(Order(p)), rows);
  }

  lemma KeptTyped(fs: seq<Expr>, db: Db, order: seq<Table>)
    requires TypedDb(db)
    ensures Typed(Keep(fs, Concat(order), Product(db, order)), Concat(order))
  {
    ProductTyped(db, order);
    KeepIsPart(fs, Concat(order), Product(db, order));
  }

  // The columns are put back and the remaining filters run.
  lemma Finally(tables: seq<Table>, filters: seq<Expr>, indexed: bool, db: Db, fs: seq<Expr>)
    requires Distinct(tables) && TypedDb(db) && Squash(tables, filters, indexed).Success?
    requires Covers(Squash(tables, filters, indexed).value.plan, tables)
    requires var p := Squash(tables, filters, indexed).value.plan;
             JoinedSchema(p.unsquashable, p.schema) == Concat(Order(p))
             && (p.unsquashable == [] ==> p.schema == Concat(Order(p)))
    ensures var sq := Squash(tables, filters, indexed).value;
            var order := Order(sq.plan);
            Filtered(sq.filter, PickAll(sq.positions, Keep(fs, Concat(order), Product(db, order))))
            == ArrangeAll(Concat(tables), Concat(order), Keep(fs + sq.plan.filters, Concat(order), Product(db, order)))
  {
    var sq := Squash(tables, filters, indexed).value;
    var order := Order(sq.plan);
    var rows := Keep(fs, Concat(order), Product(db, order));
    KeptTyped(fs, db, order);
    LastParts(tables, filters, indexed);
    KeptRowsFinish(tables, sq.plan, sq.positions, sq.filter, rows);
    KeepTwice(sq.plan.filters, fs, Concat(order), Product(db, order));
  }
}
