// Joins of refs with ref_commits on the name and with commits on the hash of the reference. The rule
// takes the second equality for a sign that only head commits are wanted and chains commits to them:
// the node has one row where the plain join has one for every entry of the history.

module NarrowedJoins {
  import opened Objects
  import opened Expressions
  import opened SquashJoins
  import opened FilterConservation
  import opened Relations
  import opened Layout
  import opened SquashMeaning
  import opened PlanTrace
  import opened Tables
  import opened JoinFacts
  import opened ProductRows
  import opened ChainStages
  import opened StageExactness
  import opened ExactChains
  import opened SquashSuccess
  import opened RefHistoryQueries
  import opened RunCounts
  import opened HashJoins
  import IndexedCommits
  import CommitWalk

  ghost predicate SameNames(f: Expr) {
    IsEq(f, Col(References, RefName), Col(RefCommits, RefName))
  }

  ghost predicate SameHashes(f: Expr) {
    IsEq(f, Col(References, CommitHash), Col(Commits, CommitHash))
  }

  // -------------------------------------------------------------------------
  // The plan
  // -------------------------------------------------------------------------

  lemma MatchingTwo(f: Expr, g: Expr, ts: set<Table>)
    ensures Matching([f, g], ts) == (if Only(f, ts) then [f] else []) + Matching([g], ts)
    ensures Others([f, g], ts) == (if Only(f, ts) then [] else [f]) + Others([g], ts)
  {
    assert [f, g][1..] == [g];
  }

  lemma FirstOfThree(n: Expr, h: Expr)
    requires SameNames(n) && SameHashes(h)
    ensures var r := AddTable(EmptyPlan([n, h]), References, false);
            && r.Success? && r.value.iter == RefsIter && r.value.filters == [n, h] && r.value.unsquashable == []
            && r.value.stages == [Stage(Alone(References), false, [], None, [], None)]
  {
    IsEqMeans(n, Col(References, RefName), Col(RefCommits, RefName), [], []);
    IsEqMeans(h, Col(References, CommitHash), Col(Commits, CommitHash), [], []);
    assert Col(RefCommits, RefName) in Mentions(n) && Col(Commits, CommitHash) in Mentions(h);
    assert !Only(n, {References}) && !Only(h, {References});
    MatchingTwo(n, h, {References});
    MatchingOne(h, {References});
    assert [n] + [h] == [n, h];
  }

  lemma NameIsDropped(n: Expr)
    requires SameNames(n)
    ensures Kept(Joined(References, RefCommits), [n]) == []
  {
    var fs := [n];
    assert fs[1..] == [];
    assert RefName in JoinColumns(References, RefCommits) && IsRedundant(n, References, RefCommits);
    assert RemoveRedundant(fs, References, RefCommits) == [] + RemoveRedundant([], References, RefCommits);
  }

  lemma HashIsHeadFilter(n: Expr, h: Expr)
    requires SameHashes(h)
    ensures HasRefHeadFilter([n, h])
  {
    var fs := [n, h];
    assert IsEq(fs[1], Col(References, CommitHash), Col(Commits, CommitHash));
    assert HasEq(fs, Col(References, CommitHash), Col(Commits, CommitHash));
  }

  lemma SecondOfThree(p: Plan, n: Expr, h: Expr)
    requires SameNames(n) && SameHashes(h) && p.iter == RefsIter && p.filters == [n, h] && p.unsquashable == []
    ensures var r := AddTable(p, RefCommits, false);
            && r.Success? && r.value.iter == RefCommitsIter && r.value.filters == [h] && r.value.unsquashable == []
            && r.value.stages == p.stages + [Stage(Joined(References, RefCommits), true, [], None, [n], None)]
  {
    var both := {References, RefCommits};
    IsEqMeans(n, Col(References, RefName), Col(RefCommits, RefName), [], []);
    IsEqMeans(h, Col(References, CommitHash), Col(Commits, CommitHash), [], []);
    assert Only(n, both) && Col(Commits, CommitHash) in Mentions(h) && !Only(h, both);
    MatchingTwo(n, h, both);
    MatchingOne(h, both);
    NameIsDropped(n);
    HashIsHeadFilter(n, h);
    assert [n] + [] == [n] && [] + [h] == [h];
  }

  lemma ThirdOfThree(p: Plan, h: Expr)
    requires SameHashes(h) && p.iter == RefCommitsIter && p.filters == [h] && p.unsquashable == []
    ensures var r := AddTable(p, Commits, false);
            && r.Success? && r.value.iter == CommitsIter && r.value.filters == [h] && r.value.unsquashable == []
            && r.value.stages == p.stages + [Stage(Joined(RefCommits, Commits), false, [], None, [], None)]
  {
    var both := {RefCommits, Commits};
    IsEqMeans(h, Col(References, CommitHash), Col(Commits, CommitHash), [], []);
    assert Col(References, CommitHash) in Mentions(h) && !Only(h, both);
    MatchingOne(h, both);
  }

  lemma HistoryPrefixes()
    ensures HISTORY_TABLES[..2] == BOTH && HISTORY_TABLES[2] == Commits && |HISTORY_TABLES| == 3
    ensures BOTH[..1] == [References] && BOTH[1] == RefCommits && |BOTH| == 2
    ensures [References][..0] == [] && [References][0] == References
  {}

  // The chain of all three, without filters of its own.
  ghost predicate NarrowedStages(stages: seq<Stage>) {
    && |stages| == 3 && stages[0].link == Alone(References) && stages[1].link == Joined(References, RefCommits)
    && stages[2].link == Joined(RefCommits, Commits) && stages[1].narrow
    && stages[0].filter == None && stages[1].filter == None && stages[2].filter == None
  }

  ghost predicate NarrowedPlan(p: Plan, h: Expr) {
    p.iter == CommitsIter && p.filters == [h] && p.unsquashable == [] && NarrowedStages(p.stages)
  }

  // The rule chains all three, head commits only, and leaves the second equality for the end.
  lemma PlanIsNarrowed(n: Expr, h: Expr)
    requires SameNames(n) && SameHashes(h)
    ensures var r := AddTables(EmptyPlan([n, h]), HISTORY_TABLES, false); r.Success? && NarrowedPlan(r.value, h)
  {
    var empty := EmptyPlan([n, h]);
    FirstOfThree(n, h);
    var one := AddTable(empty, References, false).value;
    SecondOfThree(one, n, h);
    var two := AddTable(one, RefCommits, false).value;
    ThirdOfThree(two, h);
    var three := AddTable(two, Commits, false).value;
    TablesOneByOne(empty, one, two);
    StagesOneByOne(one.stages, two.stages, three.stages);
  }

  lemma StagesOneByOne(one: seq<Stage>, two: seq<Stage>, three: seq<Stage>)
    requires |one| == 1 && one[0].link == Alone(References) && one[0].filter == None
    requires |two| == 2 && two[0] == one[0]
    requires two[1].link == Joined(References, RefCommits) && two[1].filter == None && two[1].narrow
    requires |three| == 3 && three[..2] == two && three[2].link == Joined(RefCommits, Commits) && three[2].filter == None
    ensures NarrowedStages(three)
  {
    assert three[0] == two[0] && three[1] == two[1];
  }

  lemma TablesOneByOne(empty: Plan, one: Plan, two: Plan)
    requires AddTable(empty, References, false) == Success(one) && AddTable(one, RefCommits, false) == Success(two)
    ensures AddTables(empty, HISTORY_TABLES, false) == AddTable(two, Commits, false)
  {
    HistoryPrefixes();
    assert AddTables(empty, [References], false) == AddTable(empty, References, false);
    assert AddTables(empty, BOTH, false) == AddTable(one, RefCommits, false);
  }

  // -------------------------------------------------------------------------
  // What the chain returns
  // -------------------------------------------------------------------------

  // Each head commit with its columns.
  function HeadCommits(repo: Repository, row: Row): seq<Row> {
    match Resolve(repo, HashOf(ValueOf(SchemaOf(References), row, Col(References, CommitHash))))
    case Found(c) =>
      var name := TextOf(ValueOf(SchemaOf(References), row, Col(References, RefName)));
      if IsCommit(repo, c) then [RefCommitRow(repo, name, c, 0) + CommitRow(repo, c)] else []
    case _ => []
  }

  function HeadCommitsGen(repo: Repository): Generator {
    row => HeadCommits(repo, row)
  }

  function CommitOf(repo: Repository, row: Row): seq<Row> {
    CommitRowsFor(repo, Found(HashOf(ValueOf(Concat(BOTH), row, Col(RefCommits, CommitHash)))))
  }

  lemma {:induction false} LastGen(repo: Repository, readContent: bool, stages: seq<Stage>, row: Row)
    requires |stages| == 3 && stages[0].link == Alone(References) && stages[1].link == Joined(References, RefCommits)
    requires stages[2].link == Joined(RefCommits, Commits)
    ensures var gens := Gens(repo, readContent, stages);
            gens[..2] == Gens(repo, readContent, stages[..2]) && gens[2](row) == CommitOf(repo, row)
  {
    var two := stages[..2];
    StageTablesOf(two);
    assert StageTables(two) == BOTH;
  }

  lemma {:induction false} RunThree(repo: Repository, readContent: bool, stages: seq<Stage>)
    requires NarrowedStages(stages)
    ensures RunStages(stages, Gens(repo, readContent, stages))
            == RunStage(RunStage(RefRows(repo), HeadsGen(repo), None), row => CommitOf(repo, row), None)
  {
    var two, gens := stages[..2], Gens(repo, readContent, stages);
    var rows := RunStage(RefRows(repo), HeadsGen(repo), None);
    LastGen(repo, readContent, stages, []);
    TwoStages(repo, readContent, two);
    assert RunStages(stages, gens) == RunStage(RunStages(two, gens[..2]), gens[2], None);
    forall row | row in rows ensures gens[2](row) == CommitOf(repo, row) {
      LastGen(repo, readContent, stages, row);
    }
    RunStageSame(rows, gens[2], row => CommitOf(repo, row));
  }

  lemma {:induction false} RunStageAppend(a: seq<Row>, b: seq<Row>, gen: Generator)
    ensures RunStage(a + b, gen, None) == RunStage(a, gen, None) + RunStage(b, gen, None)
  {
    if a == [] {
      assert a + b == b;
    } else {
      RunStageAppend(a[1..], b, gen);
      assert (a + b)[1..] == a[1..] + b;
      Associative(Filtered(None, Pairs(a[0], gen(a[0]))), RunStage(a[1..], gen, None), RunStage(b, gen, None));
    }
  }

  // Two generators, one after the other, are one.
  lemma {:induction false} RunStageThrough(rows: seq<Row>, first: Generator, second: Generator, both: Generator)
    requires forall row :: row in rows ==> RunStage(Pairs(row, first(row)), second, None) == Pairs(row, both(row))
    ensures RunStage(RunStage(rows, first, None), second, None) == RunStage(rows, both, None)
  {
    if rows != [] {
      var row := rows[0];
      assert row in rows;
      FilteredNone(Pairs(row, first(row)));
      FilteredNone(Pairs(row, both(row)));
      RunStageAppend(Pairs(row, first(row)), RunStage(rows[1..], first, None), second);
      RunStageThrough(rows[1..], first, second, both);
    }
  }

  lemma RefCommitAt(repo: Repository, row: Row, name: string, c: Hash)
    requires |row| == 3
    ensures ValueOf(Concat(BOTH), row + RefCommitRow(repo, name, c, 0), Col(RefCommits, CommitHash)) == Digest(c)
  {
    ConcatBoth();
    ColumnsOfJoin();
    SchemaWidths();
    FindInPrefix(SchemaOf(References), SchemaOf(RefCommits), Col(RefCommits, CommitHash));
  }

  lemma HeadWithCommit(repo: Repository, row: Row)
    requires |row| == 3
    ensures RunStage(Pairs(row, HeadsOf(repo, row)), r => CommitOf(repo, r), None) == Pairs(row, HeadCommits(repo, row))
  {
    var hash := HashOf(ValueOf(SchemaOf(References), row, Col(References, CommitHash)));
    var name := TextOf(ValueOf(SchemaOf(References), row, Col(References, RefName)));
    if Resolve(repo, hash).Found? {
      var c := Resolve(repo, hash).commit;
      var tail := RefCommitRow(repo, name, c, 0);
      ResolveFindsCommit(repo, hash);
      RefCommitAt(repo, row, name, c);
      assert CommitOf(repo, row + tail) == [CommitRow(repo, c)];
      OneThrough(row, tail, CommitRow(repo, c), r => CommitOf(repo, r));
    }
  }

  lemma OneThrough(row: Row, tail: Row, end: Row, gen: Generator)
    requires gen(row + tail) == [end]
    ensures RunStage(Pairs(row, [tail]), gen, None) == Pairs(row, [tail + end])
  {
    PairsOne(row, tail);
    RunStageOnOne(row + tail, gen);
    PairsOne(row + tail, end);
    PairsOne(row, tail + end);
    assert row + tail + end == row + (tail + end);
  }

  lemma PairsOne(row: Row, tail: Row)
    ensures Pairs(row, [tail]) == [row + tail]
  {
    assert [tail][1..] == [];
  }

  lemma ChainOfThree(repo: Repository, readContent: bool, stages: seq<Stage>)
    requires NarrowedStages(stages)
    ensures RunStages(stages, Gens(repo, readContent, stages)) == RunStage(RefRows(repo), HeadCommitsGen(repo), None)
  {
    RunThree(repo, readContent, stages);
    RowsAreWide(repo, false);
    forall row | row in RefRows(repo)
      ensures RunStage(Pairs(row, HeadsGen(repo)(row)), r => CommitOf(repo, r), None) == Pairs(row, HeadCommitsGen(repo)(row))
    {
      HeadWithCommit(repo, row);
    }
    RunStageThrough(RefRows(repo), HeadsGen(repo), row => CommitOf(repo, row), HeadCommitsGen(repo));
  }

  // -------------------------------------------------------------------------
  // What the node returns
  // -------------------------------------------------------------------------

  const MORE: Schema := SchemaOf(RefCommits) + SchemaOf(Commits)

  lemma ConcatThree()
    ensures Concat(HISTORY_TABLES) == SchemaOf(References) + MORE
  {
    HistoryPrefixes();
    ConcatBoth();
    Associative(SchemaOf(References), SchemaOf(RefCommits), SchemaOf(Commits));
    assert Concat(HISTORY_TABLES) == Concat(BOTH) + SchemaOf(Commits);
  }

  lemma PositionsInMore()
    ensures Find(MORE, Col(RefCommits, RefName)) == Some(2) && Col(RefCommits, RefName) in MORE
    ensures Find(MORE, Col(Commits, CommitHash)) == Some(5) && Col(Commits, CommitHash) in MORE
    ensures Col(RefCommits, RefName) !in SchemaOf(References) && Col(Commits, CommitHash) !in SchemaOf(References)
    ensures Col(References, RefName) in SchemaOf(References) && Col(References, CommitHash) in SchemaOf(References)
  {
    JoinedPositions();
    SchemaWidths();
    ColumnIn(RefCommits, RefName);
    ColumnIn(Commits, CommitHash);
    ColumnIn(References, RefName);
    ColumnIn(References, CommitHash);
    FindInPrefix(SchemaOf(RefCommits), SchemaOf(Commits), Col(RefCommits, RefName));
    FindInPrefix(SchemaOf(RefCommits), SchemaOf(Commits), Col(Commits, CommitHash));
  }

  function RefHashOf(row: Row): Value {
    ValueOf(SchemaOf(References), row, Col(References, CommitHash))
  }

  function RefNameOf(row: Row): Value {
    ValueOf(SchemaOf(References), row, Col(References, RefName))
  }

  // The node keeps a head commit if the reference holds its hash.
  function NarrowedGen(repo: Repository): Generator {
    row => Where(HeadCommits(repo, row), 5, RefHashOf(row))
  }

  lemma {:induction false} KeepOfRun(fs: seq<Expr>, schema: Schema, rows: seq<Row>, gen: Generator, kept: Generator)
    requires forall row :: row in rows ==> Keep(fs, schema, Pairs(row, gen(row))) == Pairs(row, kept(row))
    ensures Keep(fs, schema, RunStage(rows, gen, None)) == RunStage(rows, kept, None)
  {
    if rows != [] {
      var row := rows[0];
      assert row in rows;
      FilteredNone(Pairs(row, gen(row)));
      FilteredNone(Pairs(row, kept(row)));
      KeepAppend(fs, schema, Pairs(row, gen(row)), RunStage(rows[1..], gen, None));
      KeepOfRun(fs, schema, rows[1..], gen, kept);
    }
  }

  lemma CommitRowWidth()
    ensures |SchemaOf(Commits)| == 11
  {}

  lemma HeadCommitsAreTyped(repo: Repository, row: Row)
    ensures Typed(HeadCommits(repo, row), MORE)
  {
    SchemaWidths();
    CommitRowWidth();
  }

  lemma NodeRowsAreKept(repo: Repository, h: Expr)
    requires SameHashes(h)
    ensures Keep([h], Concat(HISTORY_TABLES), RunStage(RefRows(repo), HeadCommitsGen(repo), None))
            == RunStage(RefRows(repo), NarrowedGen(repo), None)
  {
    var a, b, schema := Col(References, CommitHash), Col(Commits, CommitHash), SchemaOf(References);
    ConcatThree();
    PositionsInMore();
    SchemaWidths();
    RowsAreWide(repo, false);
    KeepSameEq(h, a, b, schema + MORE, RunStage(RefRows(repo), HeadCommitsGen(repo), None));
    forall row | row in RefRows(repo)
      ensures Keep([Same(a, b)], schema + MORE, Pairs(row, HeadCommitsGen(repo)(row))) == Pairs(row, NarrowedGen(repo)(row))
    {
      HeadCommitsAreTyped(repo, row);
      KeepSameIsWhere(a, b, schema, row, MORE, HeadCommits(repo, row));
    }
    KeepOfRun([Same(a, b)], schema + MORE, RefRows(repo), HeadCommitsGen(repo), NarrowedGen(repo));
  }

  lemma {:induction false} TablesOfThree(stages: seq<Stage>)
    requires NarrowedStages(stages)
    ensures StageTables(stages) == HISTORY_TABLES
  {
    var two := stages[..2];
    assert two[0] == stages[0] && two[1] == stages[1];
    StageTablesOf(two);
    assert StageTables(stages) == StageTables(two) + [Commits];
  }

  lemma NarrowedIsOver(tables: seq<Table>, n: Expr, h: Expr)
    requires AreTables(tables, HISTORY_TABLES) && SameNames(n) && SameHashes(h)
    ensures Over([n, h], Concat(tables))
  {
    IsEqMeans(n, Col(References, RefName), Col(RefCommits, RefName), [], []);
    IsEqMeans(h, Col(References, CommitHash), Col(Commits, CommitHash), [], []);
    var ts := HISTORY_TABLES;
    assert ts[0] in ts && ts[1] in ts && ts[2] in ts;
    forall c | c in Mentions(n) || c in Mentions(h) ensures c in Concat(tables) {
      ConcatHas(tables, c);
    }
  }

  lemma NarrowedSucceeds(tables: seq<Table>, n: Expr, h: Expr)
    requires AreTables(tables, HISTORY_TABLES) && SameNames(n) && SameHashes(h)
    ensures Squash(tables, [n, h], false).Success?
    ensures SquashMeaning.Covers(Squash(tables, [n, h], false).value.plan, tables)
  {
    NarrowedIsOver(tables, n, h);
    assert References in HISTORY_TABLES by { assert HISTORY_TABLES[0] == References; }
    StartsAtRefs(tables, HISTORY_TABLES);
    SquashSucceedsIff(tables, [n, h], false);
  }

  lemma OrderOfThree(p: Plan, h: Expr)
    requires NarrowedPlan(p, h)
    ensures Order(p) == HISTORY_TABLES
  {
    TablesOfThree(p.stages);
    assert JoinTables([]) == [] && [] + HISTORY_TABLES == HISTORY_TABLES;
  }

  lemma SquashNarrowed(tables: seq<Table>, n: Expr, h: Expr)
    requires AreTables(tables, HISTORY_TABLES) && SameNames(n) && SameHashes(h)
    ensures Squash(tables, [n, h], false).Success?
    ensures var p := Squash(tables, [n, h], false).value.plan;
            && NarrowedPlan(p, h) && Order(p) == HISTORY_TABLES && SquashMeaning.Covers(p, tables)
            && p.schema == Concat(HISTORY_TABLES)
  {
    NarrowedSucceeds(tables, n, h);
    InOrder(tables, HISTORY_TABLES);
    SquashedPlan(tables, [n, h], false);
    PlanIsNarrowed(n, h);
    StagesAreWellBuilt([n, h], HISTORY_TABLES, false);
    var p := Squash(tables, [n, h], false).value.plan;
    OrderOfThree(p, h);
    TablesOfThree(p.stages);
  }

  // A node without joins around its chain puts the columns back and runs the filters that are left.
  lemma NodeFinishes(repo: Repository, readContent: bool, db: Db, tables: seq<Table>, filters: seq<Expr>, rows: seq<Row>)
    requires Distinct(tables) && Squash(tables, filters, false).Success?
    requires var sq := Squash(tables, filters, false).value;
             && SquashMeaning.Covers(sq.plan, tables) && sq.plan.unsquashable == [] && sq.plan.schema == Concat(Order(sq.plan))
             && Typed(rows, Concat(Order(sq.plan))) && RunStages(sq.plan.stages, Gens(repo, readContent, sq.plan.stages)) == rows
    ensures var sq := Squash(tables, filters, false).value;
            var order := Order(sq.plan);
            Execute(sq, db, Gens(repo, readContent, sq.plan.stages))
            == ArrangeAll(Concat(tables), Concat(order), Keep(sq.plan.filters, Concat(order), rows))
  {
    var sq := Squash(tables, filters, false).value;
    LastParts(tables, filters, false);
    NothingAround(tables, filters);
    KeptRowsFinish(tables, sq.plan, sq.positions, sq.filter, rows);
  }

  lemma NothingAround(tables: seq<Table>, filters: seq<Expr>)
    requires Squash(tables, filters, false).Success? && Squash(tables, filters, false).value.plan.unsquashable == []
    ensures Squash(tables, filters, false).value.joins == []
  {}

  lemma NodeOfNarrowed(repo: Repository, readContent: bool, db: Db, tables: seq<Table>, n: Expr, h: Expr)
    requires AreTables(tables, HISTORY_TABLES) && SameNames(n) && SameHashes(h)
    ensures Squash(tables, [n, h], false).Success?
    ensures var sq := Squash(tables, [n, h], false).value;
            Execute(sq, db, Gens(repo, readContent, sq.plan.stages))
            == ArrangeAll(Concat(tables), Concat(HISTORY_TABLES), RunStage(RefRows(repo), NarrowedGen(repo), None))
  {
    SquashNarrowed(tables, n, h);
    ChainOfThree(repo, readContent, Squash(tables, [n, h], false).value.plan.stages);
    ChainIsTyped(repo);
    NodeFinishes(repo, readContent, db, tables, [n, h], RunStage(RefRows(repo), HeadCommitsGen(repo), None));
    NodeRowsAreKept(repo, h);
  }

  lemma ChainIsTyped(repo: Repository)
    ensures Typed(RunStage(RefRows(repo), HeadCommitsGen(repo), None), Concat(HISTORY_TABLES))
    ensures Typed(RunStage(RefRows(repo), NarrowedGen(repo), None), Concat(HISTORY_TABLES))
  {
    ConcatThree();
    RowsAreWide(repo, false);
    SchemaWidths();
    forall row | row in RefRows(repo)
      ensures Typed(HeadCommitsGen(repo)(row), MORE) && Typed(NarrowedGen(repo)(row), MORE)
    {
      HeadCommitsAreTyped(repo, row);
      WhereHas(HeadCommits(repo, row), 5, RefHashOf(row));
    }
    RunStageTyped(RefRows(repo), HeadCommitsGen(repo), SchemaOf(References), MORE);
    RunStageTyped(RefRows(repo), NarrowedGen(repo), SchemaOf(References), MORE);
  }

  // -------------------------------------------------------------------------
  // What the plain tables return
  // -------------------------------------------------------------------------

  function PlainGen(repo: Repository): Generator {
    row => Where(Where(Cross(RefCommitRows(repo), CommitRows(repo)), 2, RefNameOf(row)), 5, RefHashOf(row))
  }

  lemma ProductOfThree(db: Db)
    ensures Product(db, HISTORY_TABLES) == Cross(db(References), Cross(db(RefCommits), db(Commits)))
  {
    HistoryPrefixes();
    ProductBoth(db);
    CrossAssociative(db(References), db(RefCommits), db(Commits));
    assert Product(db, HISTORY_TABLES) == Cross(Product(db, BOTH), db(Commits));
  }

  lemma KeepTwoEq(n: Expr, h: Expr, schema: Schema, rows: seq<Row>)
    requires SameNames(n) && SameHashes(h)
    ensures Keep([n, h], schema, rows)
            == Keep([Same(Col(References, RefName), Col(RefCommits, RefName)),
                     Same(Col(References, CommitHash), Col(Commits, CommitHash))], schema, rows)
  {
    var a, b, c, d := Col(References, RefName), Col(RefCommits, RefName), Col(References, CommitHash), Col(Commits, CommitHash);
    KeepTwice([h], [n], schema, rows);
    KeepTwice([Same(c, d)], [Same(a, b)], schema, rows);
    KeepSameEq(n, a, b, schema, rows);
    KeepSameEq(h, c, d, schema, Keep([n], schema, rows));
    assert [n] + [h] == [n, h] && [Same(a, b)] + [Same(c, d)] == [Same(a, b), Same(c, d)];
  }

  lemma PlainIsTyped(repo: Repository, readContent: bool, db: Db)
    requires Plain(db, repo, readContent)
    ensures Typed(RefRows(repo), SchemaOf(References)) && Typed(Cross(RefCommitRows(repo), CommitRows(repo)), MORE)
  {
    assert Typed(db(References), SchemaOf(References));
    assert Typed(db(RefCommits), SchemaOf(RefCommits)) && Typed(db(Commits), SchemaOf(Commits));
    CrossTyped(RefCommitRows(repo), CommitRows(repo), SchemaOf(RefCommits), SchemaOf(Commits));
  }

  lemma PlainRow(repo: Repository, row: Row)
    requires |row| == 3 && Typed(Cross(RefCommitRows(repo), CommitRows(repo)), MORE)
    ensures ExactOn(PlainGen(repo), [Same(Col(References, RefName), Col(RefCommits, RefName)),
                                     Same(Col(References, CommitHash), Col(Commits, CommitHash))],
                    SchemaOf(References), row, MORE, Cross(RefCommitRows(repo), CommitRows(repo)))
  {
    PositionsInMore();
    SchemaWidths();
    KeepTwoSame(Col(References, RefName), Col(RefCommits, RefName), Col(References, CommitHash), Col(Commits, CommitHash),
                SchemaOf(References), row, MORE, Cross(RefCommitRows(repo), CommitRows(repo)));
  }

  lemma PlainOfNarrowed(repo: Repository, readContent: bool, db: Db, n: Expr, h: Expr)
    requires Plain(db, repo, readContent) && SameNames(n) && SameHashes(h)
    ensures Keep([n, h], Concat(HISTORY_TABLES), Product(db, HISTORY_TABLES)) == RunStage(RefRows(repo), PlainGen(repo), None)
  {
    var joins := [Same(Col(References, RefName), Col(RefCommits, RefName)),
                  Same(Col(References, CommitHash), Col(Commits, CommitHash))];
    ConcatThree();
    ProductOfThree(db);
    PlainIsTyped(repo, readContent, db);
    RowsAreWide(repo, false);
    forall row | row in RefRows(repo)
      ensures ExactOn(PlainGen(repo), joins, SchemaOf(References), row, MORE, Cross(RefCommitRows(repo), CommitRows(repo)))
    {
      PlainRow(repo, row);
    }
    ExactRun(RefRows(repo), PlainGen(repo), joins, SchemaOf(References), MORE, Cross(RefCommitRows(repo), CommitRows(repo)));
    KeepTwoEq(n, h, SchemaOf(References) + MORE, Product(db, HISTORY_TABLES));
  }

  // -------------------------------------------------------------------------
  // When both return the same
  // -------------------------------------------------------------------------

  lemma {:induction false} WherePairsLeft(row: Row, tails: seq<Row>, i: nat, v: Value)
    requires i < |row|
    ensures Where(Pairs(row, tails), i, v) == if row[i] == v then Pairs(row, tails) else []
  {
    if tails != [] {
      var rest := Pairs(row, tails[1..]);
      WherePairsLeft(row, tails[1..], i, v);
      assert ([row + tails[0]] + rest)[1..] == rest && (row + tails[0])[i] == row[i];
    }
  }

  lemma {:induction false} WherePairsRight(row: Row, tails: seq<Row>, i: nat, v: Value)
    ensures Where(Pairs(row, tails), |row| + i, v) == Pairs(row, Where(tails, i, v))
  {
    if tails != [] {
      var tail, rest := tails[0], Where(tails[1..], i, v);
      WherePairsRight(row, tails[1..], i, v);
      assert (Pairs(row, tails))[0] == row + tail && Pairs(row, tails)[1..] == Pairs(row, tails[1..]);
      assert i < |tail| ==> (row + tail)[|row| + i] == tail[i];
      assert ([tail] + rest)[1..] == rest && [] + rest == rest;
    }
  }

  // Where a value is asked of the rows of one side, the cross product is taken of those alone.
  lemma {:induction false} WhereCrossLeft(rows: seq<Row>, tails: seq<Row>, n: nat, i: nat, v: Value)
    requires i < n && forall row :: row in rows ==> |row| == n
    ensures Where(Cross(rows, tails), i, v) == Cross(Where(rows, i, v), tails)
  {
    if rows != [] {
      var row, rest := rows[0], Where(rows[1..], i, v);
      assert row in rows;
      WhereCrossLeft(rows[1..], tails, n, i, v);
      WherePairsLeft(row, tails, i, v);
      WhereAppend(Pairs(row, tails), Cross(rows[1..], tails), i, v);
      assert ([row] + rest)[1..] == rest && [] + rest == rest;
      assert [] + Cross(rest, tails) == Cross(rest, tails);
    }
  }

  lemma {:induction false} WhereCrossRight(rows: seq<Row>, tails: seq<Row>, n: nat, i: nat, v: Value)
    requires forall row :: row in rows ==> |row| == n
    ensures Where(Cross(rows, tails), n + i, v) == Cross(rows, Where(tails, i, v))
  {
    if rows != [] {
      assert rows[0] in rows;
      WhereCrossRight(rows[1..], tails, n, i, v);
      WherePairsRight(rows[0], tails, i, v);
      WhereAppend(Pairs(rows[0], tails), Cross(rows[1..], tails), n + i, v);
    }
  }

  lemma WhereBoth(rows: seq<Row>, tails: seq<Row>, n: nat, i: nat, v: Value, j: nat, u: Value)
    requires i < n && forall row :: row in rows ==> |row| == n
    ensures Where(Where(Cross(rows, tails), i, v), n + j, u) == Cross(Where(rows, i, v), Where(tails, j, u))
  {
    WhereHas(rows, i, v);
    WhereCrossLeft(rows, tails, n, i, v);
    WhereCrossRight(Where(rows, i, v), tails, n, j, u);
  }

  lemma {:induction false} CrossSize(rows: seq<Row>, tails: seq<Row>)
    ensures |Cross(rows, tails)| == |rows| * |tails|
  {
    if rows != [] {
      PairsSize(rows[0], tails);
      CrossSize(rows[1..], tails);
      assert |rows| * |tails| == |tails| + |rows[1..]| * |tails|;
    }
  }

  lemma {:induction false} PairsSize(row: Row, tails: seq<Row>)
    ensures |Pairs(row, tails)| == |tails|
  {
    if tails != [] {
      PairsSize(row, tails[1..]);
    }
  }

  // The rows of ref_commits and of commits that a reference meets.
  function Entries(repo: Repository, r: Reference): seq<Row> {
    Where(RefCommitRows(repo), 2, Text(r.name))
  }

  function Commitments(repo: Repository, h: Hash): seq<Row> {
    Where(CommitRows(repo), 1, Digest(h))
  }

  lemma GensAt(repo: Repository, k: nat)
    requires k < |RefList(repo)|
    ensures var r := RefList(repo)[k];
            && PlainGen(repo)(RefRow(repo, r)) == Cross(Entries(repo, r), Commitments(repo, r.hash))
            && NarrowedGen(repo)(RefRow(repo, r))
               == if IsCommit(repo, r.hash) then [RefCommitRow(repo, r.name, r.hash, 0) + CommitRow(repo, r.hash)] else []
  {
    NarrowedAt(repo, RefList(repo)[k]);
    PlainAt(repo, RefList(repo)[k]);
  }

  lemma RefColumns(repo: Repository, r: Reference)
    requires r.HashRef?
    ensures RefHashOf(RefRow(repo, r)) == Digest(r.hash) && RefNameOf(RefRow(repo, r)) == Text(r.name)
  {
    ColumnAt(References, 1);
    ColumnAt(References, 2);
  }

  lemma PlainAt(repo: Repository, r: Reference)
    requires r.HashRef?
    ensures PlainGen(repo)(RefRow(repo, r)) == Cross(Entries(repo, r), Commitments(repo, r.hash))
  {
    RefColumns(repo, r);
    RefCommitRowsAreWide(repo);
    WhereBoth(RefCommitRows(repo), CommitRows(repo), 4, 2, Text(r.name), 1, Digest(r.hash));
  }

  lemma NarrowedAt(repo: Repository, r: Reference)
    requires r.HashRef?
    ensures NarrowedGen(repo)(RefRow(repo, r))
            == if IsCommit(repo, r.hash) then [RefCommitRow(repo, r.name, r.hash, 0) + CommitRow(repo, r.hash)] else []
  {
    var row := RefRow(repo, r);
    RefColumns(repo, r);
    ResolveFindsCommit(repo, r.hash);
    if Resolve(repo, r.hash).Found? {
      var c := Resolve(repo, r.hash).commit;
      var made := RefCommitRow(repo, r.name, c, 0) + CommitRow(repo, c);
      var rows := HeadCommits(repo, row);
      assert rows == [made] && made[5] == Digest(c);
      assert Where(rows, 5, RefHashOf(row)) == (if c == r.hash then [made] else []) + Where(rows[1..], 5, RefHashOf(row));
    }
  }

  // No other commit can be reached from c.
  ghost predicate IsRootCommit(repo: Repository, c: Hash) {
    forall x :: Reachable(repo, c, x) && IsCommit(repo, x) ==> x == c
  }

  lemma HistoryIsOneIff(repo: Repository, name: string, c: Hash)
    requires IsCommit(repo, c)
    ensures HistoryOf(repo, name, c) != [] && HistoryOf(repo, name, c)[0] == RefCommitRow(repo, name, c, 0)
    ensures |HistoryOf(repo, name, c)| == 1 <==> IsRootCommit(repo, c)
  {
    var rows := HistoryOf(repo, name, c);
    ResolveFindsCommit(repo, c);
    HistoryOfOpens(repo, name, c);
    if |rows| > 1 {
      SecondEntry(repo, name, c);
    }
    if x :| Reachable(repo, c, x) && IsCommit(repo, x) && x != c {
      EntryOf(repo, name, c, x);
    }
  }

  lemma SecondEntry(repo: Repository, name: string, c: Hash)
    requires IsCommit(repo, c) && |HistoryOf(repo, name, c)| > 1
    ensures !IsRootCommit(repo, c)
  {
    var rows := HistoryOf(repo, name, c);
    var row := rows[1];
    ResolveFindsCommit(repo, c);
    HistoryOfOpens(repo, name, c);
    assert row in rows[1..] && row in rows;
    HistoryOfHas(repo, name, c, row);
  }

  lemma EntryOf(repo: Repository, name: string, c: Hash, x: Hash)
    requires IsCommit(repo, c) && Reachable(repo, c, x) && IsCommit(repo, x) && x != c
    requires HistoryOf(repo, name, c) != [] && HistoryOf(repo, name, c)[0] == RefCommitRow(repo, name, c, 0)
    ensures |HistoryOf(repo, name, c)| > 1
  {
    var rows := HistoryOf(repo, name, c);
    var found := Where(rows, 1, Digest(x));
    ResolveFindsCommit(repo, c);
    HistoryLists(repo, name, c, x);
    WhereHas(rows, 1, Digest(x));
    assert found[0] in found;
    assert found[0] in rows && found[0] != rows[0];
  }

  // A reference with a name of its own, if it leads to a commit.
  ghost predicate NamedAlone(repo: Repository, k: nat)
    requires k < |RefList(repo)|
  {
    var refs := RefList(repo);
    forall j :: 0 <= j < |refs| && j != k && refs[j].name == refs[k].name ==> !Resolve(repo, refs[j].hash).Found?
  }

  lemma {:induction false} NoEntriesIff(repo: Repository, refs: seq<Reference>, name: string)
    requires HashRefsOnly(refs)
    ensures Where(RefCommitRowsOf(repo, refs), 2, Text(name)) == []
            <==> forall r :: r in refs && r.name == name ==> !Resolve(repo, r.hash).Found?
  {
    if forall r :: r in refs && r.name == name ==> !Resolve(repo, r.hash).Found? {
      NoHistoryOfName(repo, refs, name);
    } else {
      var r :| r in refs && r.name == name && Resolve(repo, r.hash).Found?;
      var j :| 0 <= j < |refs| && refs[j] == r;
      HistoryIsThere(repo, refs, j);
      HistoryOfNothing(repo, name, r.hash);
    }
  }

  lemma EntriesAre(repo: Repository, k: nat)
    requires k < |RefList(repo)| && IsCommit(repo, RefList(repo)[k].hash)
    ensures var r := RefList(repo)[k];
            && |Entries(repo, r)| >= 1
            && (|Entries(repo, r)| == 1 <==> IsRootCommit(repo, r.hash) && NamedAlone(repo, k))
            && (|Entries(repo, r)| == 1 ==> Entries(repo, r) == [RefCommitRow(repo, r.name, r.hash, 0)])
  {
    var refs := RefList(repo);
    var r, before, after := refs[k], refs[..k], refs[k + 1..];
    var own := HistoryOf(repo, r.name, r.hash);
    var first := Where(RefCommitRowsOf(repo, before), 2, Text(r.name));
    var last := Where(RefCommitRowsOf(repo, after), 2, Text(r.name));
    RefCommitRowsSplit(repo, refs, k);
    WhereAppend(RefCommitRowsOf(repo, before), own + RefCommitRowsOf(repo, after), 2, Text(r.name));
    WhereAppend(own, RefCommitRowsOf(repo, after), 2, Text(r.name));
    WhereHistory(repo, r.name, r.hash, r.name);
    assert Entries(repo, r) == first + (own + last);
    HistoryIsOneIff(repo, r.name, r.hash);
    NoEntriesIff(repo, before, r.name);
    NoEntriesIff(repo, after, r.name);
    NamedAloneAround(repo, k);
    OneOfThree(first, own, last);
  }

  lemma OneOfThree(a: seq<Row>, b: seq<Row>, c: seq<Row>)
    requires b != []
    ensures |a + (b + c)| >= 1
    ensures |a + (b + c)| == 1 <==> a == [] && |b| == 1 && c == []
    ensures |a + (b + c)| == 1 ==> a + (b + c) == [b[0]]
  {}

  lemma NamedAloneAround(repo: Repository, k: nat)
    requires k < |RefList(repo)|
    ensures var refs := RefList(repo);
            NamedAlone(repo, k)
            <==> forall r :: r in refs[..k] || r in refs[k + 1..] ==> r.name == refs[k].name ==> !Resolve(repo, r.hash).Found?
  {
    var refs := RefList(repo);
    if NamedAlone(repo, k) {
      forall r | r in refs[..k] || r in refs[k + 1..] ensures r.name == refs[k].name ==> !Resolve(repo, r.hash).Found? {
        var j := IndexAround(refs, k, r);
      }
    } else {
      var j :| 0 <= j < |refs| && j != k && refs[j].name == refs[k].name && Resolve(repo, refs[j].hash).Found?;
      OtherIsAround(refs, k, j);
    }
  }

  lemma CommitmentsAre(repo: Repository, k: nat)
    requires Wellformed(repo) && k < |RefList(repo)|
    ensures var h := RefList(repo)[k].hash;
            if IsCommit(repo, h) then
              && |Commitments(repo, h)| >= 1
              && (|Commitments(repo, h)| == 1 <==> |CommitWalk.Names(repo, h)| <= 1)
              && (|Commitments(repo, h)| == 1 ==> Commitments(repo, h) == [CommitRow(repo, h)])
            else Commitments(repo, h) == []
  {
    var r := RefList(repo)[k];
    if IsCommit(repo, r.hash) {
      ResolveFindsCommit(repo, r.hash);
      ListedRefIsNamed(repo, r);
      assert CommitWalk.Root(repo, r.hash) && Path(repo, r.hash, r.hash, 0);
      assert CommitWalk.Crawled(repo, r.hash);
      CommitListCounts(repo, r.hash);
      WhereCommit(repo, CommitList(repo), r.hash);
      CommitJoinIsExactIff(repo, r.hash);
      assert multiset(CommitList(repo))[r.hash] > 0;
    } else {
      WhereCommit(repo, CommitList(repo), r.hash);
      assert r.hash !in CommitList(repo);
    }
  }

  // The reference has one entry, under a name of its own, and the commit one row.
  ghost predicate Single(repo: Repository, k: nat)
    requires k < |RefList(repo)|
  {
    var h := RefList(repo)[k].hash;
    IsCommit(repo, h) ==> IsRootCommit(repo, h) && NamedAlone(repo, k) && |CommitWalk.Names(repo, h)| <= 1
  }

  lemma OneByOne(m: nat, n: nat)
    requires m >= 1 && n >= 1
    ensures m * n == 1 <==> m == 1 && n == 1
  {
    if m > 1 {
      assert m * n >= m;
    }
  }

  lemma AlikeWhereSingle(repo: Repository, k: nat)
    requires Wellformed(repo) && k < |RefList(repo)|
    ensures var row := RefRow(repo, RefList(repo)[k]);
            && AlikeOn(NarrowedGen(repo), PlainGen(repo), row)
            && (NarrowedGen(repo)(row) == PlainGen(repo)(row) <==> Single(repo, k))
  {
    var r := RefList(repo)[k];
    var entries, commitments := Entries(repo, r), Commitments(repo, r.hash);
    GensAt(repo, k);
    CommitmentsAre(repo, k);
    CrossSize(entries, commitments);
    if IsCommit(repo, r.hash) {
      EntriesAre(repo, k);
      OneByOne(|entries|, |commitments|);
      CrossOfOne(RefCommitRow(repo, r.name, r.hash, 0), CommitRow(repo, r.hash));
    } else {
      assert |entries| * 0 == 0;
    }
  }

  lemma CrossOfOne(row: Row, tail: Row)
    ensures Cross([row], [tail]) == [row + tail]
  {
    var rows := [row];
    PairsOne(row, tail);
    assert rows[1..] == [];
    assert Cross(rows, [tail]) == Pairs(row, [tail]) + Cross(rows[1..], [tail]);
  }

  // The node returns the rows of the plain join, in whatever order, exactly if every reference that holds
  // the hash of a commit has a history of one entry, a name of its own and a commit listed once.
  lemma NarrowedQueryIsPreservedIff(repo: Repository, readContent: bool, db: Db, tables: seq<Table>, n: Expr, h: Expr)
    requires Wellformed(repo) && Plain(db, repo, readContent)
    requires AreTables(tables, HISTORY_TABLES) && SameNames(n) && SameHashes(h)
    ensures Preserved(repo, readContent, db, tables, [n, h]) <==> forall k :: 0 <= k < |RefList(repo)| ==> Single(repo, k)
    ensures AsWritten(repo, readContent, db, tables, [n, h]) <==> forall k :: 0 <= k < |RefList(repo)| ==> Single(repo, k)
  {
    var rows := RunStage(RefRows(repo), NarrowedGen(repo), None);
    SquashNarrowed(tables, n, h);
    NodeOfNarrowed(repo, readContent, db, tables, n, h);
    PlainOfNarrowed(repo, readContent, db, n, h);
    NarrowedIsOver(tables, n, h);
    ChainIsTyped(repo);
    NarrowedRunsAgreeIff(repo);
    PreservedIffRows(repo, readContent, db, tables, [n, h], rows);
  }

  lemma NarrowedRunsAgreeIff(repo: Repository)
    requires Wellformed(repo)
    ensures var node, plain := RunStage(RefRows(repo), NarrowedGen(repo), None), RunStage(RefRows(repo), PlainGen(repo), None);
            && (node == plain <==> forall k :: 0 <= k < |RefList(repo)| ==> Single(repo, k))
            && (multiset(node) == multiset(plain) <==> forall k :: 0 <= k < |RefList(repo)| ==> Single(repo, k))
  {
    var refs, rows, g, h := RefList(repo), RefRows(repo), NarrowedGen(repo), PlainGen(repo);
    RowsAreWide(repo, false);
    forall row | row in rows ensures AlikeOn(g, h, row) {
      var k := RefRowsHave(repo, refs, row);
      AlikeWhereSingle(repo, k);
    }
    RunsAlike(rows, g, h, 3);
    if forall k :: 0 <= k < |refs| ==> Single(repo, k) {
      forall row | row in rows ensures g(row) == h(row) {
        var k := RefRowsHave(repo, refs, row);
        AlikeWhereSingle(repo, k);
      }
    } else {
      var k :| 0 <= k < |refs| && !Single(repo, k);
      RefRowAt(repo, refs, k);
      AlikeWhereSingle(repo, k);
    }
  }
}
