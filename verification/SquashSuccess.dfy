// When the rule builds a node for a join, and when that node has all the tables of the join.

module SquashSuccess {
  import opened Objects
  import opened Expressions
  import opened SquashJoins
  import opened FilterConservation
  import opened Relations
  import opened Layout
  import opened SquashMeaning
  import opened PlanTrace

  // Some table can open a chain.
  predicate Opens(tables: set<Table>) {
    exists t :: t in tables && t != Blobs && t != Files
  }

  // commit_trees would be chained directly to the repositories, where the code chains tree_entries.
  predicate MixesUp(tables: set<Table>) {
    {Repositories, CommitTrees} <= tables && tables !! {Remotes, References, RefCommits, Commits}
  }

  const NOT_FROM_REPOSITORIES: set<Table> := {CommitBlobs, CommitFiles, Files}

  // What the iterator at hand says about the tables that were added.
  ghost predicate Shape(p: Plan) {
    && (p.iter == NoIter <==> !Opens(p.used))
    && (p.iter == ReposIter <==> Repositories in p.used && p.used <= {Repositories} + NOT_FROM_REPOSITORIES)
    && (p.iter == BlobsIter && Blobs !in p.used ==> CommitBlobs in StageTables(p.stages))
  }

  lemma ChooseShapes(p: Plan, t: Table)
    requires Shape(p) && forall u :: u in p.used ==> Rank(u) < Rank(t)
    ensures Choose(p.iter, t) != Invalid
    ensures Choose(p.iter, t).Unsquashable? ==> Shape(p.(used := p.used + {t}))
  {
    if t == Repositories {
      assert !Opens(p.used);
    }
    var used := p.used + {t};
    assert Opens(used) <==> Opens(p.used) || (t != Blobs && t != Files) by {
      assert t in used;
      if Opens(p.used) {
        var u :| u in p.used && u != Blobs && u != Files;
        assert u in used;
      }
    }
  }

  // The tables of the plan are those that were added, each once.
  ghost predicate Placed(p: Plan) {
    Distinct(Order(p)) && forall t :: t in p.used <==> t in Order(p)
  }

  // A chain link adds the table it is for, but for the one mix-up.
  lemma ChosenTable(p: Plan, t: Table)
    requires Shape(p) && Choose(p.iter, t).Chain? && (forall u :: u in p.used ==> Rank(u) < Rank(t))
    ensures Added(Choose(p.iter, t).link) == t || (p.used == {Repositories} && t == CommitTrees)
    ensures p.used == {Repositories} && t == CommitTrees ==> Added(Choose(p.iter, t).link) == TreeEntries
  {
    if p.iter == ReposIter && t == CommitTrees {
      assert p.used == {Repositories};
    }
  }

  lemma ChainShapes(p: Plan, t: Table, q: Plan)
    requires Shape(p) && Choose(p.iter, t).Chain? && (forall u :: u in p.used ==> Rank(u) < Rank(t))
    requires q.iter == Choose(p.iter, t).next && q.used == p.used + {t}
    requires StageTables(q.stages) == StageTables(p.stages) + [t]
    ensures Shape(q)
  {
    assert Opens(q.used) by {
      if p.iter == NoIter {
        assert t in q.used;
      } else {
        var u :| u in p.used && u != Blobs && u != Files;
        assert u in q.used;
      }
    }
  }

  // -------------------------------------------------------------------------
  // Every stage filter compiles
  // -------------------------------------------------------------------------

  ghost predicate ComesNext(p: Plan, t: Table, tables: seq<Table>) {
    t in tables && forall u :: u in p.used <==> u in tables && Rank(u) < Rank(t)
  }

  lemma LeftIsOffered(iter: Iter, t: Table, before: seq<Table>)
    requires Choose(iter, t).Chain? && Choose(iter, t).link.Joined?
    ensures var left := Choose(iter, t).link.left;
            && (left == Commits ==> iter == CommitsIter || (iter == RefCommitsIter && Rank(t) > Rank(Commits)))
            && (left == CommitBlobs ==> iter == BlobsIter && t == Blobs)
            && (left == RefCommits ==> iter == RefCommitsIter || (iter == CommitsIter && t == Commits))
  {}

  // The table a link reads on its left is in the chain, or not in the query.
  lemma LeftThere(iter: Iter, link: Link, t: Table, before: seq<Table>, used: set<Table>, tables: seq<Table>)
    requires link.Joined? && link.left in tables && Offers(iter, before)
    requires link.left !in {Commits, CommitBlobs, RefCommits} ==> link.left in before
    requires link.left == Commits ==> iter == CommitsIter || (iter == RefCommitsIter && Rank(t) > Rank(Commits))
    requires link.left == CommitBlobs ==> iter == BlobsIter && t == Blobs
    requires link.left == RefCommits ==> iter == RefCommitsIter || (iter == CommitsIter && t == Commits)
    requires forall u :: u in used <==> u in tables && Rank(u) < Rank(t)
    requires iter == RefCommitsIter ==> Commits !in used
    requires iter == CommitsIter ==> Commits in used
    requires iter == BlobsIter && Blobs !in used ==> CommitBlobs in before
    ensures link.left in before
  {}

  // A table that a link reads and the query mentions is in the chain.
  lemma SourceThere(p: Plan, t: Table, u: Table, tables: seq<Table>)
    requires Offers(p.iter, StageTables(p.stages)) && Shape(p) && ComesNext(p, t, tables) && Choose(p.iter, t).Chain?
    requires (p.iter == RefCommitsIter ==> Commits !in p.used) && (p.iter == CommitsIter ==> Commits in p.used)
    requires u in Sources(Choose(p.iter, t).link) && u in tables
    ensures u in StageTables(p.stages) || u == Added(Choose(p.iter, t).link)
  {
    var iter, link, before := p.iter, Choose(p.iter, t).link, StageTables(p.stages);
    if u != Added(link) {
      ChosenSource(iter, t, before);
      LeftIsOffered(iter, t, before);
      LeftThere(iter, link, t, before, p.used, tables);
    }
  }

  lemma MatchingHas(fs: seq<Expr>, ts: set<Table>, f: Expr)
    requires f in Matching(fs, ts)
    ensures f in fs && Only(f, ts)
  {
    MatchingSubset(fs, ts);
    MatchingSplits(fs, ts);
  }

  lemma {:induction false} AnyMentions(fs: seq<Expr>, c: Col) returns (f: Expr)
    requires c in MentionsAny(fs)
    ensures f in fs && c in Mentions(f)
  {
    if c in Mentions(fs[0]) {
      f := fs[0];
    } else {
      f := AnyMentions(fs[1..], c);
    }
  }

  lemma OverCompiles(fs: seq<Expr>, schema: Schema)
    ensures Compile(fs, schema).Some? <==> Over(fs, schema)
  {
    CompileIsFaithful(fs, schema, seq(|schema|, i => Null));
    if Over(fs, schema) {
      forall c | c in MentionsAny(fs) ensures c in schema {
        var f := AnyMentions(fs, c);
      }
    } else {
      var f, c :| f in fs && c in Mentions(f) && c !in schema;
      MentionsAnyHas(fs, f);
    }
  }

  lemma MovedCompiles(moved: seq<Expr>)
    requires forall f :: f in moved ==> Only(f, {RefCommits}) && OnlyColumns(f, REF_COLUMNS)
    ensures Transfer(moved).Some?
  {
    if moved != [] {
      var e, row: Row := JoinAnd(moved).value, [Null, Null, Null];
      JoinAndMeans(moved, [], []);
      forall c | c in Mentions(e) ensures SameValue(References, row, [], [], c) {
        var f := AnyMentions(moved, c);
        assert OnlyColumns(f, REF_COLUMNS);
        assert SchemaOf(References)[0].name == RepositoryId && SchemaOf(References)[1].name == RefName;
      }
      MovedFilterIsFaithful(e, References, row, [], []);
    }
  }

  lemma DealtIsOver(fs: seq<Expr>, link: Link, before: seq<Table>, tables: seq<Table>)
    requires Over(fs, Concat(tables))
    requires forall u :: u in Sources(link) && u in tables ==> u in before || u == Added(link)
    ensures Over(Kept(link, Matching(fs, Sources(link))), Concat(before) + SchemaOf(Added(link)))
  {
    var dealt := Matching(fs, Sources(link));
    KeptSubset(link, dealt);
    forall f, c | f in Kept(link, dealt) && c in Mentions(f) ensures c in Concat(before) + SchemaOf(Added(link)) {
      MatchingHas(fs, Sources(link), f);
      ConcatHas(tables, c);
      ConcatHas(before, c);
      InSchemaOf(c);
    }
  }

  lemma InSchemaOf(c: Col)
    requires c.name in Columns(c.table)
    ensures c in SchemaOf(c.table)
  {
    var i :| 0 <= i < |Columns(c.table)| && Columns(c.table)[i] == c.name;
    assert SchemaOf(c.table)[i] == c;
  }

  lemma AddStageSucceeds(p: Plan, link: Link, next: Iter, indexed: bool, before: seq<Table>, tables: seq<Table>)
    requires p.schema == Concat(before) && Over(p.filters, Concat(tables))
    requires forall u :: u in Sources(link) && u in tables ==> u in before || u == Added(link)
    ensures AddStage(p, link, next, indexed).Success?
  {
    var moves := link == Alone(RefCommits) && !indexed;
    var fs := if moves then Unmovable(p.filters) else p.filters;
    TransferSubset(p.filters);
    TransferSplits(p.filters);
    MovedCompiles(if moves then Movable(p.filters) else []);
    DealtIsOver(fs, link, before, tables);
    OverCompiles(Kept(link, Matching(fs, Sources(link))), p.schema + SchemaOf(Added(link)));
  }

  lemma SourcesThere(p: Plan, t: Table, tables: seq<Table>)
    requires Offers(p.iter, StageTables(p.stages)) && Shape(p) && ComesNext(p, t, tables) && Choose(p.iter, t).Chain?
    requires (p.iter == RefCommitsIter ==> Commits !in p.used) && (p.iter == CommitsIter ==> Commits in p.used)
    ensures var link := Choose(p.iter, t).link;
            forall u :: u in Sources(link) && u in tables ==> u in StageTables(p.stages) || u == Added(link)
  {
    var link := Choose(p.iter, t).link;
    forall u | u in Sources(link) && u in tables ensures u in StageTables(p.stages) || u == Added(link) {
      SourceThere(p, t, u, tables);
    }
  }

  // -------------------------------------------------------------------------
  // Adding tables
  // -------------------------------------------------------------------------

  ghost predicate FiltersFit(fs: seq<Expr>, joined: seq<Table>, stageTables: seq<Table>, tables: seq<Table>) {
    forall f, c :: f in fs && c in Mentions(f) ==> c in Concat(tables) && (c.table in joined || c.table in stageTables)
  }

  // The filters of a join are over the tables to its right and its own.
  ghost predicate JoinsFit(us: seq<Unsquashed>, stageTables: seq<Table>, tables: seq<Table>) {
    forall i :: 0 <= i < |us| ==> FiltersFit(us[i].filters, JoinTables(us[..i + 1]), stageTables, tables)
  }

  lemma {:induction false} JoinTablesLast(us: seq<Unsquashed>, u: Unsquashed)
    ensures JoinTables(us + [u]) == [u.table] + JoinTables(us)
  {
    if us == [] {
      assert us + [u] == [u];
      assert JoinTables([u]) == JoinTables([]) + [u.table];
    } else {
      JoinTablesLast(us[1..], u);
      assert (us + [u])[1..] == us[1..] + [u];
    }
  }

  lemma PlacedChained(p: Plan, q: Plan, t: Table)
    requires Placed(p) && t !in p.used && q.used == p.used + {t} && q.unsquashable == p.unsquashable
    requires StageTables(q.stages) == StageTables(p.stages) + [t]
    ensures Placed(q)
  {
    assert Order(q) == Order(p) + [t];
  }

  lemma PlacedUnsquashed(p: Plan, q: Plan, u: Unsquashed)
    requires Placed(p) && u.table !in p.used && q.used == p.used + {u.table}
    requires q.unsquashable == p.unsquashable + [u] && q.stages == p.stages
    ensures Placed(q)
  {
    JoinTablesLast(p.unsquashable, u);
    assert Order(q) == [u.table] + Order(p);
  }

  lemma JoinsFitLonger(us: seq<Unsquashed>, ts: seq<Table>, more: seq<Table>, tables: seq<Table>)
    requires JoinsFit(us, ts, tables)
    ensures JoinsFit(us, ts + more, tables)
  {
    forall i | 0 <= i < |us| ensures FiltersFit(us[i].filters, JoinTables(us[..i + 1]), ts + more, tables) {
      assert FiltersFit(us[i].filters, JoinTables(us[..i + 1]), ts, tables);
    }
  }

  lemma UnsquashedFits(p: Plan, u: Unsquashed, tables: seq<Table>)
    requires Placed(p) && Over(p.filters, Concat(tables))
    requires forall f :: f in u.filters ==> f in p.filters && Only(f, p.used + {u.table})
    ensures FiltersFit(u.filters, [u.table] + JoinTables(p.unsquashable), StageTables(p.stages), tables)
  {
    forall f, c | f in u.filters && c in Mentions(f)
      ensures c in Concat(tables) && (c.table in [u.table] + JoinTables(p.unsquashable) || c.table in StageTables(p.stages))
    {
      assert f in p.filters && Only(f, p.used + {u.table});
      assert c.table in Order(p) || c.table == u.table;
    }
  }

  lemma JoinsFitUnsquashed(p: Plan, u: Unsquashed, tables: seq<Table>)
    requires Placed(p) && JoinsFit(p.unsquashable, StageTables(p.stages), tables)
    requires forall f :: f in u.filters ==> f in p.filters && Only(f, p.used + {u.table})
    requires Over(p.filters, Concat(tables))
    ensures JoinsFit(p.unsquashable + [u], StageTables(p.stages), tables)
  {
    var us, ts := p.unsquashable, StageTables(p.stages);
    var all := us + [u];
    JoinTablesLast(us, u);
    UnsquashedFits(p, u, tables);
    forall i | 0 <= i < |all| ensures FiltersFit(all[i].filters, JoinTables(all[..i + 1]), ts, tables) {
      if i < |us| {
        assert all[..i + 1] == us[..i + 1];
        assert FiltersFit(us[i].filters, JoinTables(us[..i + 1]), ts, tables);
      } else {
        assert all[..i + 1] == all;
      }
    }
  }

  ghost predicate Progress(p: Plan, tables: seq<Table>, filters: seq<Expr>) {
    && PlanTraced(p, tables, filters)
    && (p.iter == CommitsIter ==> Commits in p.used)
    && Shape(p) && Placed(p)
    && JoinsFit(p.unsquashable, StageTables(p.stages), tables)
    && p.schema == Concat(StageTables(p.stages))
  }

  lemma OverPart(fs: seq<Expr>, filters: seq<Expr>, schema: Schema)
    requires Over(filters, schema) && forall f :: f in fs ==> f in filters
    ensures Over(fs, schema)
  {}

  lemma ChainSucceeds(p: Plan, t: Table, tables: seq<Table>, filters: seq<Expr>, indexed: bool)
    requires Progress(p, tables, filters) && ComesNext(p, t, tables) && Over(filters, Concat(tables))
    requires Choose(p.iter, t).Chain?
    ensures AddTable(p, t, indexed).Success?
  {
    var q := p.(used := p.used + {t});
    OverPart(p.filters, filters, Concat(tables));
    SourcesThere(p, t, tables);
    AddStageSucceeds(q, Choose(p.iter, t).link, Choose(p.iter, t).next, indexed, StageTables(p.stages), tables);
  }

  lemma ChainProgresses(p: Plan, t: Table, tables: seq<Table>, filters: seq<Expr>, indexed: bool)
    requires Progress(p, tables, filters) && ComesNext(p, t, tables) && Over(filters, Concat(tables))
    requires Choose(p.iter, t).Chain? && AddTable(p, t, indexed).Success?
    requires !(p.used == {Repositories} && t == CommitTrees)
    ensures Progress(AddTable(p, t, indexed).value, tables, filters)
    ensures AddTable(p, t, indexed).value.used == p.used + {t}
  {
    var r := AddTable(p, t, indexed).value;
    AddTableTraces(p, t, indexed, tables, filters);
    ChosenTable(p, t);
    var stage := r.stages[|p.stages|];
    assert r.stages == p.stages + [stage] && stage.link == Choose(p.iter, t).link;
    StageTablesExtend(p.stages, stage);
    ChainShapes(p, t, r);
    PlacedChained(p, r, t);
    JoinsFitLonger(p.unsquashable, StageTables(p.stages), [t], tables);
    assert Concat(StageTables(p.stages) + [t]) == Concat(StageTables(p.stages)) + SchemaOf(t) by {
      assert (StageTables(p.stages) + [t])[..|StageTables(p.stages)|] == StageTables(p.stages);
    }
  }

  lemma JoinProgresses(p: Plan, t: Table, tables: seq<Table>, filters: seq<Expr>, indexed: bool)
    requires Progress(p, tables, filters) && ComesNext(p, t, tables) && Over(filters, Concat(tables))
    requires Choose(p.iter, t).Unsquashable?
    ensures AddTable(p, t, indexed).Success?
    ensures Progress(AddTable(p, t, indexed).value, tables, filters)
    ensures AddTable(p, t, indexed).value.used == p.used + {t}
  {
    var r := AddTable(p, t, indexed).value;
    var u := Unsquashed(t, Matching(p.filters, p.used + {t}));
    AddTableTraces(p, t, indexed, tables, filters);
    ChooseShapes(p, t);
    PlacedUnsquashed(p, r, u);
    MatchingSubset(p.filters, p.used + {t});
    MatchingSplits(p.filters, p.used + {t});
    OverPart(p.filters, filters, Concat(tables));
    JoinsFitUnsquashed(p, u, tables);
  }

  // -------------------------------------------------------------------------
  // All tables
  // -------------------------------------------------------------------------

  lemma NextInOrder(ts: seq<Table>, tables: seq<Table>, n: nat, p: Plan)
    requires InHierarchy(ts, tables) && n < |ts| && forall u :: u in p.used <==> u in ts[..n]
    ensures ComesNext(p, ts[n], tables)
  {
    EarlierTables(ts, tables, n);
  }

  lemma ChainedOrder(p: Plan, link: Link, next: Iter, indexed: bool)
    requires AddStage(p, link, next, indexed).Success?
    ensures Order(AddStage(p, link, next, indexed).value) == Order(p) + [Added(link)]
  {
    var r := AddStage(p, link, next, indexed).value;
    StageTablesExtend(p.stages, r.stages[|p.stages|]);
  }

  lemma LinkAdds(iter: Iter, t: Table)
    requires Choose(iter, t).Chain? && (t == CommitTrees ==> iter == ReposIter)
    ensures Added(Choose(iter, t).link) != CommitTrees
  {}

  // After a mix-up, commit_trees is not in the chain and no later table puts it there.
  lemma MixUpStays(p: Plan, t: Table, indexed: bool)
    requires CommitTrees !in Order(p) && AddTable(p, t, indexed).Success?
    requires t == CommitTrees ==> p.iter == ReposIter
    ensures CommitTrees !in Order(AddTable(p, t, indexed).value)
  {
    var q := p.(used := p.used + {t});
    assert Order(q) == Order(p);
    if Choose(p.iter, t).Chain? {
      LinkAdds(p.iter, t);
      ChainedOrder(q, Choose(p.iter, t).link, Choose(p.iter, t).next, indexed);
    } else {
      JoinTablesLast(p.unsquashable, Unsquashed(t, Matching(q.filters, q.used)));
    }
  }

  ghost predicate ProgressTo(p: Plan, done: seq<Table>, tables: seq<Table>, filters: seq<Expr>) {
    Progress(p, tables, filters) && forall u :: u in p.used <==> u in done
  }

  lemma NoTables(tables: seq<Table>, filters: seq<Expr>)
    ensures ProgressTo(EmptyPlan(filters), [], tables, filters)
  {}

  lemma TableProgresses(p: Plan, t: Table, tables: seq<Table>, filters: seq<Expr>, indexed: bool)
    requires Progress(p, tables, filters) && ComesNext(p, t, tables) && Over(filters, Concat(tables))
    requires !(p.used == {Repositories} && t == CommitTrees)
    ensures AddTable(p, t, indexed).Success?
    ensures Progress(AddTable(p, t, indexed).value, tables, filters)
    ensures AddTable(p, t, indexed).value.used == p.used + {t}
  {
    ChooseShapes(p, t);
    if Choose(p.iter, t).Chain? {
      ChainSucceeds(p, t, tables, filters, indexed);
      ChainProgresses(p, t, tables, filters, indexed);
    } else {
      JoinProgresses(p, t, tables, filters, indexed);
    }
  }

  // One more table, which is no mix-up.
  lemma AddNext(p: Plan, ts: seq<Table>, n: nat, tables: seq<Table>, filters: seq<Expr>, indexed: bool)
    requires InHierarchy(ts, tables) && n < |ts| && Over(filters, Concat(tables))
    requires ProgressTo(p, ts[..n], tables, filters) && !(p.used == {Repositories} && ts[n] == CommitTrees)
    ensures AddTable(p, ts[n], indexed).Success?
    ensures ProgressTo(AddTable(p, ts[n], indexed).value, ts[..n + 1], tables, filters)
  {
    NextInOrder(ts, tables, n, p);
    TableProgresses(p, ts[n], tables, filters, indexed);
    OneMoreUsed(p.used, ts, n);
  }

  lemma MixUpBefore(ts: seq<Table>, tables: seq<Table>, n: nat)
    requires InHierarchy(ts, tables) && n < |ts|
    requires MixesUp(Elements(ts[..n])) || (Elements(ts[..n]) == {Repositories} && ts[n] == CommitTrees)
    ensures MixesUp(Elements(ts[..n + 1]))
  {
    EarlierTables(ts, tables, n);
    assert ts[..n + 1] == ts[..n] + [ts[n]];
    assert Elements(ts[..n + 1]) == Elements(ts[..n]) + {ts[n]};
    if MixesUp(Elements(ts[..n])) {
      assert CommitTrees in Elements(ts[..n]);
      assert Rank(ts[n]) > Rank(CommitTrees);
    }
  }

  lemma {:induction false} Progresses(ts: seq<Table>, n: nat, tables: seq<Table>, filters: seq<Expr>, indexed: bool)
    requires InHierarchy(ts, tables) && n <= |ts| && Over(filters, Concat(tables)) && !MixesUp(Elements(ts[..n]))
    ensures AddTables(EmptyPlan(filters), ts[..n], indexed).Success?
    ensures ProgressTo(AddTables(EmptyPlan(filters), ts[..n], indexed).value, ts[..n], tables, filters)
    decreases n
  {
    if n == 0 {
      NoTables(tables, filters);
    } else {
      if MixesUp(Elements(ts[..n - 1])) {
        MixUpBefore(ts, tables, n - 1);
      }
      Progresses(ts, n - 1, tables, filters, indexed);
      var p := AddTables(EmptyPlan(filters), ts[..n - 1], indexed).value;
      if p.used == {Repositories} && ts[n - 1] == CommitTrees {
        assert Elements(ts[..n - 1]) == p.used;
        MixUpBefore(ts, tables, n - 1);
      }
      AddNext(p, ts, n - 1, tables, filters, indexed);
      AddOneMore(filters, ts, indexed, n - 1);
    }
  }

  lemma AddOneMore(filters: seq<Expr>, ts: seq<Table>, indexed: bool, n: nat)
    requires n < |ts| && AddTables(EmptyPlan(filters), ts[..n], indexed).Success?
    ensures AddTables(EmptyPlan(filters), ts[..n + 1], indexed)
            == AddTable(AddTables(EmptyPlan(filters), ts[..n], indexed).value, ts[n], indexed)
  {
    assert ts[..n + 1][..n] == ts[..n];
  }

  // -------------------------------------------------------------------------
  // The node
  // -------------------------------------------------------------------------

  // The joins around the chain compile when each filter is over the tables to its right and its own.
  lemma {:induction false} JoinsCompile(us: seq<Unsquashed>, ts: seq<Table>, tables: seq<Table>)
    requires JoinsFit(us, ts, tables)
    ensures CompileJoins(us, Concat(ts)).Some?
    ensures JoinedSchema(us, Concat(ts)) == Concat(JoinTables(us) + ts)
  {
    if us == [] {
      assert JoinTables(us) + ts == ts;
    } else {
      var u, ts' := us[0], [us[0].table] + ts;
      FirstJoinCompiles(us, ts, tables);
      RestFits(us, ts, tables);
      ConcatFromLeft(u.table, ts);
      JoinsCompile(us[1..], ts', tables);
      Associative(JoinTables(us[1..]), [u.table], ts);
    }
  }

  lemma FirstJoinCompiles(us: seq<Unsquashed>, ts: seq<Table>, tables: seq<Table>)
    requires us != [] && JoinsFit(us, ts, tables)
    ensures Compile(us[0].filters, SchemaOf(us[0].table) + Concat(ts)).Some?
  {
    var u := us[0];
    assert us[..1] == [u] && JoinTables([u]) == JoinTables([]) + [u.table];
    forall f, c | f in u.filters && c in Mentions(f) ensures c in SchemaOf(u.table) + Concat(ts) {
      JoinFits(us, ts, tables, 0, f, c);
      ConcatHas(tables, c);
      ConcatHas(ts, c);
      InSchemaOf(c);
    }
    OverCompiles(u.filters, SchemaOf(u.table) + Concat(ts));
  }

  lemma JoinFits(us: seq<Unsquashed>, ts: seq<Table>, tables: seq<Table>, i: nat, f: Expr, c: Col)
    requires JoinsFit(us, ts, tables) && i < |us| && f in us[i].filters && c in Mentions(f)
    ensures c in Concat(tables) && (c.table in JoinTables(us[..i + 1]) || c.table in ts)
  {
    assert FiltersFit(us[i].filters, JoinTables(us[..i + 1]), ts, tables);
  }

  lemma RestFits(us: seq<Unsquashed>, ts: seq<Table>, tables: seq<Table>)
    requires us != [] && JoinsFit(us, ts, tables)
    ensures JoinsFit(us[1..], [us[0].table] + ts, tables)
  {
    var rest, ts' := us[1..], [us[0].table] + ts;
    forall i | 0 <= i < |rest| ensures FiltersFit(rest[i].filters, JoinTables(rest[..i + 1]), ts', tables) {
      var first := us[..i + 1 + 1];
      assert FiltersFit(us[i + 1].filters, JoinTables(first), ts, tables) && rest[i] == us[i + 1];
      assert first[1..] == rest[..i + 1] && first[0] == us[0];
      assert JoinTables(first) == JoinTables(rest[..i + 1]) + [us[0].table];
    }
  }

  lemma FinishSucceeds(p: Plan, tables: seq<Table>, filters: seq<Expr>)
    requires JoinsFit(p.unsquashable, StageTables(p.stages), tables) && p.schema == Concat(StageTables(p.stages))
    requires Distinct(Order(p)) && (forall u :: u in tables <==> u in Order(p)) && !p.iter.NoIter?
    requires Distinct(tables) && Over(p.filters, Concat(tables))
    ensures Finish(p, Concat(tables)).Success?
  {
    var order, original := Order(p), Concat(tables);
    JoinsCompile(p.unsquashable, StageTables(p.stages), tables);
    OverCompiles(p.filters, original);
    ConcatIsDistinct(order);
    ConcatPermuted(tables, order);
    ProjectionArranges(original, Concat(order), []);
  }

  lemma AllPlaced(p: Plan, tables: seq<Table>, filters: seq<Expr>)
    requires ProgressTo(p, Ordered(tables), tables, filters) && Over(filters, Concat(tables)) && Opens(Elements(tables))
    ensures Covers(p, tables) && !p.iter.NoIter? && Over(p.filters, Concat(tables))
  {
    OrderedRises(tables);
    assert p.used == Elements(tables);
    OverPart(p.filters, filters, Concat(tables));
  }

  lemma CoveringSucceeds(tables: seq<Table>, filters: seq<Expr>, indexed: bool)
    requires Distinct(tables) && Over(filters, Concat(tables))
    requires Opens(Elements(tables)) && !MixesUp(Elements(tables))
    ensures Squash(tables, filters, indexed).Success?
    ensures Covers(Squash(tables, filters, indexed).value.plan, tables)
  {
    var ts := Ordered(tables);
    OrderedRises(tables);
    assert ts[..|ts|] == ts;
    assert Elements(ts) == Elements(tables);
    Progresses(ts, |ts|, tables, filters, indexed);
    var p := AddTables(EmptyPlan(filters), ts, indexed).value;
    AllPlaced(p, tables, filters);
    FinishSucceeds(p, tables, filters);
  }

  lemma UpTo(ts: seq<Table>, n: nat, tables: seq<Table>)
    requires InHierarchy(ts, tables) && n < |ts| && ts[n] == CommitTrees && MixesUp(Elements(tables))
    ensures Elements(ts[..n]) == {Repositories}
  {
    EarlierTables(ts, tables, n);
    forall u ensures u in Elements(ts[..n]) <==> u == Repositories {
      assert u in tables && Rank(u) < Rank(CommitTrees) ==> u == Repositories;
      assert Repositories in Elements(tables);
    }
  }

  lemma ReposAtMixUp(ts: seq<Table>, n: nat, tables: seq<Table>, filters: seq<Expr>, indexed: bool)
    requires InHierarchy(ts, tables) && n < |ts| && Over(filters, Concat(tables))
    requires ts[n] == CommitTrees && MixesUp(Elements(tables))
    ensures AddTables(EmptyPlan(filters), ts[..n], indexed).Success?
    ensures AddTables(EmptyPlan(filters), ts[..n], indexed).value.iter == ReposIter
  {
    UpTo(ts, n, tables);
    assert CommitTrees !in Elements(ts[..n]);
    Progresses(ts, n, tables, filters, indexed);
    var p := AddTables(EmptyPlan(filters), ts[..n], indexed).value;
    assert p.used == Elements(ts[..n]);
  }

  lemma {:induction false} MixUpLosesTable(ts: seq<Table>, n: nat, tables: seq<Table>, filters: seq<Expr>, indexed: bool)
    requires InHierarchy(ts, tables) && n <= |ts| && Over(filters, Concat(tables)) && MixesUp(Elements(tables))
    requires AddTables(EmptyPlan(filters), ts[..n], indexed).Success?
    ensures CommitTrees !in Order(AddTables(EmptyPlan(filters), ts[..n], indexed).value)
    decreases n
  {
    if n > 0 {
      AddTablesLast(EmptyPlan(filters), ts, indexed, n - 1);
      MixUpLosesTable(ts, n - 1, tables, filters, indexed);
      if ts[n - 1] == CommitTrees {
        ReposAtMixUp(ts, n - 1, tables, filters, indexed);
      }
      MixUpStays(AddTables(EmptyPlan(filters), ts[..n - 1], indexed).value, ts[n - 1], indexed);
    }
  }

  lemma UnopenedFails(ts: seq<Table>, tables: seq<Table>, filters: seq<Expr>, indexed: bool)
    requires InHierarchy(ts, tables) && Over(filters, Concat(tables)) && !Opens(Elements(tables))
    ensures AddTables(EmptyPlan(filters), ts, indexed).Success?
    ensures AddTables(EmptyPlan(filters), ts, indexed).value.iter == NoIter
  {
    assert ts[..|ts|] == ts;
    assert Elements(ts) == Elements(tables);
    assert Repositories !in Elements(tables);
    Progresses(ts, |ts|, tables, filters, indexed);
    assert AddTables(EmptyPlan(filters), ts, indexed).value.used == Elements(tables);
  }

  // The rule builds a node with all the tables of the join exactly when some table can open a chain and
  // commit_trees does not come right after repositories.
  lemma SquashSucceedsIff(tables: seq<Table>, filters: seq<Expr>, indexed: bool)
    requires Distinct(tables) && Over(filters, Concat(tables))
    ensures Squash(tables, filters, indexed).Success? && Covers(Squash(tables, filters, indexed).value.plan, tables)
            <==> Opens(Elements(tables)) && !MixesUp(Elements(tables))
  {
    var ts := Ordered(tables);
    OrderedRises(tables);
    assert ts[..|ts|] == ts;
    if Opens(Elements(tables)) && !MixesUp(Elements(tables)) {
      CoveringSucceeds(tables, filters, indexed);
    } else if !Opens(Elements(tables)) {
      UnopenedFails(ts, tables, filters, indexed);
    } else if Squash(tables, filters, indexed).Success? {
      MixUpLosesTable(ts, |ts|, tables, filters, indexed);
      assert CommitTrees in Elements(tables);
    }
  }
}
