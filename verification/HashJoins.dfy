// Joins of refs with ref_commits on the hash of the commit alone, which the rule chains as well: the
// node then returns the plain rows exactly where no commit of a reference is listed by another.

module HashJoins {
  import opened Objects
  import opened Expressions
  import opened SquashJoins
  import opened FilterConservation
  import opened Relations
  import opened Layout
  import opened SquashMeaning
  import opened PlanTrace
  import opened Tables
  import opened JoinFacts
  import opened ProductRows
  import opened ChainStages
  import opened StageExactness
  import opened ExactChains
  import opened SquashSuccess
  import opened RefHistoryQueries
  import opened RunCounts

  const BOTH: seq<Table> := [References, RefCommits]

  ghost predicate JoinsHashes(f: Expr) {
    IsEq(f, Col(References, CommitHash), Col(RefCommits, CommitHash))
  }

  // -------------------------------------------------------------------------
  // The plan
  // -------------------------------------------------------------------------

  lemma ConcatBoth()
    ensures BOTH[..1] == [References] && Concat([References]) == SchemaOf(References)
    ensures Concat(BOTH) == SchemaOf(References) + SchemaOf(RefCommits)
  {
    var one := [References];
    assert one[..0] == [] && BOTH[..1] == one;
    assert Concat(one) == Concat([]) + SchemaOf(References);
    assert [] + SchemaOf(References) == SchemaOf(References);
  }

  lemma MatchingOne(f: Expr, ts: set<Table>)
    ensures Matching([f], ts) == (if Only(f, ts) then [f] else [])
    ensures Others([f], ts) == if Only(f, ts) then [] else [f]
  {
    assert [f][1..] == [];
    assert Matching([f], ts) == (if Only(f, ts) then [f] else []) + Matching([], ts);
    assert Others([f], ts) == (if Only(f, ts) then [] else [f]) + Others([], ts);
  }

  lemma NothingKept(f: Expr)
    requires JoinsHashes(f)
    ensures Kept(Joined(References, RefCommits), [f]) == [] && HasRefHeadFilter([f])
  {
    var fs := [f];
    assert fs[1..] == [];
    assert CommitHash in JoinColumns(References, RefCommits) && IsRedundant(f, References, RefCommits);
    assert RemoveRedundant(fs, References, RefCommits) == [] + RemoveRedundant([], References, RefCommits);
    assert IsEq(fs[0], Col(References, CommitHash), Col(RefCommits, CommitHash));
    assert HasEq(fs, Col(References, CommitHash), Col(RefCommits, CommitHash));
  }

  lemma FirstStage(f: Expr)
    requires JoinsHashes(f)
    ensures var r := AddTable(EmptyPlan([f]), References, false);
            && r.Success? && r.value.iter == RefsIter && r.value.filters == [f] && r.value.unsquashable == []
            && r.value.stages == [Stage(Alone(References), false, [], None, [], None)]
  {
    MatchingOne(f, {References});
    IsEqMeans(f, Col(References, CommitHash), Col(RefCommits, CommitHash), [], []);
    assert Col(RefCommits, CommitHash) in Mentions(f) && !Only(f, {References});
  }

  lemma SecondStage(p: Plan, f: Expr)
    requires JoinsHashes(f) && p.iter == RefsIter && p.filters == [f] && p.unsquashable == []
    ensures var r := AddTable(p, RefCommits, false);
            && r.Success? && r.value.iter == RefCommitsIter && r.value.filters == [] && r.value.unsquashable == []
            && r.value.stages == p.stages + [Stage(Joined(References, RefCommits), true, [], None, [f], None)]
  {
    var both := {References, RefCommits};
    IsEqMeans(f, Col(References, CommitHash), Col(RefCommits, CommitHash), [], []);
    assert Only(f, both);
    MatchingOne(f, both);
    NothingKept(f);
  }

  // What the rule makes of the query: a chain of two iterators without a filter.
  lemma PlanOfHashJoin(f: Expr)
    requires JoinsHashes(f)
    ensures var r := AddTables(EmptyPlan([f]), BOTH, false);
            && r.Success? && r.value.iter == RefCommitsIter && r.value.filters == [] && r.value.unsquashable == []
            && r.value.stages == [Stage(Alone(References), false, [], None, [], None),
                                  Stage(Joined(References, RefCommits), true, [], None, [f], None)]
  {
    ConcatBoth();
    FirstStage(f);
    assert [References][..0] == [];
    assert AddTables(EmptyPlan([f]), [References], false) == AddTable(EmptyPlan([f]), References, false);
    SecondStage(AddTables(EmptyPlan([f]), [References], false).value, f);
  }

  // -------------------------------------------------------------------------
  // What the node returns
  // -------------------------------------------------------------------------

  function HeadsOf(repo: Repository, row: Row): seq<Row> {
    HeadRows(repo, TextOf(ValueOf(SchemaOf(References), row, Col(References, RefName))),
             HashOf(ValueOf(SchemaOf(References), row, Col(References, CommitHash))))
  }

  function HeadsGen(repo: Repository): Generator {
    row => HeadsOf(repo, row)
  }

  lemma {:induction false} StageTablesOf(stages: seq<Stage>)
    requires |stages| == 2 && stages[0].link == Alone(References) && stages[1].link == Joined(References, RefCommits)
    ensures StageTables(stages[..1]) == [References] && StageTables(stages) == BOTH
  {
    var one := stages[..1];
    assert one[..0] == [] && one[0] == stages[0];
    assert StageTables(one) == StageTables(one[..0]) + [Added(one[0].link)];
    assert StageTables(stages) == StageTables(one) + [Added(stages[1].link)];
  }

  lemma {:induction false} GensOfTwo(repo: Repository, readContent: bool, stages: seq<Stage>)
    requires |stages| == 2
    ensures var gens := Gens(repo, readContent, stages);
            && gens[0]([]) == MakeRows(repo, readContent, stages[0], [], [])
            && forall row :: gens[1](row) == MakeRows(repo, readContent, stages[1], Concat(StageTables(stages[..1])), row)
  {
    var one, gens := stages[..1], Gens(repo, readContent, stages);
    assert one[..0] == [] && one[0] == stages[0];
    assert StageTables(one[..0]) == [] && Concat([]) == [];
    assert Gens(repo, readContent, one)[0]([]) == MakeRows(repo, readContent, stages[0], [], []);
    assert gens[0] == Gens(repo, readContent, one)[0];
  }

  lemma {:induction false} GensAre(repo: Repository, readContent: bool, stages: seq<Stage>, row: Row)
    requires |stages| == 2
    requires stages[0].link == Alone(References) && stages[1].link == Joined(References, RefCommits) && stages[1].narrow
    ensures Gens(repo, readContent, stages)[0]([]) == RefRows(repo)
    ensures Gens(repo, readContent, stages)[1](row) == HeadsOf(repo, row)
  {
    StageTablesOf(stages);
    ConcatBoth();
    GensOfTwo(repo, readContent, stages);
  }

  lemma {:induction false} RunTwo(stages: seq<Stage>, gens: seq<Generator>)
    requires |stages| == |gens| == 2 && stages[0].filter == None && stages[1].filter == None
    ensures RunStages(stages, gens) == RunStage(gens[0]([]), gens[1], None)
  {
    var one, first := stages[..1], gens[..1];
    assert one[..0] == [] && first[..0] == [];
    assert RunStages(one, first) == RunStage([[]], gens[0], None);
    RunStageOnOne([], gens[0]);
    PairsUnit(gens[0]([]));
  }

  lemma TwoStages(repo: Repository, readContent: bool, stages: seq<Stage>)
    requires |stages| == 2 && stages[0].filter == None && stages[1].filter == None
    requires stages[0].link == Alone(References) && stages[1].link == Joined(References, RefCommits) && stages[1].narrow
    ensures RunStages(stages, Gens(repo, readContent, stages)) == RunStage(RefRows(repo), HeadsGen(repo), None)
  {
    var gens := Gens(repo, readContent, stages);
    RunTwo(stages, gens);
    GensAre(repo, readContent, stages, []);
    forall row | row in RefRows(repo) ensures gens[1](row) == HeadsGen(repo)(row) {
      GensAre(repo, readContent, stages, row);
    }
    RunStageSame(RefRows(repo), gens[1], HeadsGen(repo));
  }

  lemma ExecuteBare(sq: Squashed, db: Db, gens: seq<Generator>)
    requires |gens| == |sq.plan.stages| && sq.joins == [] && sq.filter == None
    ensures Execute(sq, db, gens) == PickAll(sq.positions, RunStages(sq.plan.stages, gens))
  {
    FilteredNone(PickAll(sq.positions, RunStages(sq.plan.stages, gens)));
  }

  lemma FinishBare(p: Plan, original: Schema)
    requires !p.iter.NoIter? && p.filters == [] && p.unsquashable == []
    ensures Finish(p, original) == Success(Squashed(p, [], BuildSchemaMapping(original, p.schema), None))
  {}

  lemma SquashHashJoin(tables: seq<Table>, f: Expr)
    requires JoinsHashes(f) && AreTables(tables, BOTH)
    ensures var p := AddTables(EmptyPlan([f]), BOTH, false);
            && p.Success?
            && Squash(tables, [f], false)
               == Success(Squashed(p.value, [], BuildSchemaMapping(Concat(tables), Concat(BOTH)), None))
            && Order(p.value) == BOTH
  {
    InOrder(tables, BOTH);
    PlanOfHashJoin(f);
    BothStages(f);
    FinishBare(AddTables(EmptyPlan([f]), BOTH, false).value, Concat(tables));
  }

  lemma BothStages(f: Expr)
    requires JoinsHashes(f) && AddTables(EmptyPlan([f]), BOTH, false).Success?
    ensures var p := AddTables(EmptyPlan([f]), BOTH, false).value; Order(p) == BOTH && p.schema == Concat(BOTH)
  {
    PlanOfHashJoin(f);
    var p := AddTables(EmptyPlan([f]), BOTH, false).value;
    StagesAreWellBuilt([f], BOTH, false);
    StageTablesOf(p.stages);
    assert JoinTables([]) == [] && [] + BOTH == BOTH;
  }

  lemma NodeOfHashJoin(repo: Repository, readContent: bool, db: Db, tables: seq<Table>, f: Expr)
    requires JoinsHashes(f) && AreTables(tables, BOTH)
    ensures Squash(tables, [f], false).Success?
    ensures var sq := Squash(tables, [f], false).value;
            && Order(sq.plan) == BOTH && Covers(sq.plan, tables)
            && Execute(sq, db, Gens(repo, readContent, sq.plan.stages))
               == PickAll(BuildSchemaMapping(Concat(tables), Concat(BOTH)), RunStage(RefRows(repo), HeadsGen(repo), None))
  {
    SquashHashJoin(tables, f);
    PlanOfHashJoin(f);
    var sq := Squash(tables, [f], false).value;
    TwoStages(repo, readContent, sq.plan.stages);
    ExecuteBare(sq, db, Gens(repo, readContent, sq.plan.stages));
  }

  // -------------------------------------------------------------------------
  // What the plain tables return
  // -------------------------------------------------------------------------

  function ListedGen(repo: Repository): Generator {
    row => Where(RefCommitRows(repo), 1, ValueOf(SchemaOf(References), row, Col(References, CommitHash)))
  }

  lemma ColumnsOfJoin()
    ensures Col(References, CommitHash) in SchemaOf(References) && Col(RefCommits, CommitHash) in SchemaOf(RefCommits)
    ensures Col(RefCommits, CommitHash) !in SchemaOf(References)
    ensures Find(SchemaOf(RefCommits), Col(RefCommits, CommitHash)) == Some(1)
  {
    ColumnIn(References, CommitHash);
    ColumnIn(RefCommits, CommitHash);
    JoinedPositions();
  }

  lemma PlainIsRun(repo: Repository, db: Db, f: Expr)
    requires TypedDb(db) && db(References) == RefRows(repo) && db(RefCommits) == RefCommitRows(repo) && JoinsHashes(f)
    ensures Keep([f], Concat(BOTH), Product(db, BOTH)) == RunStage(RefRows(repo), ListedGen(repo), None)
  {
    var a, b := Col(References, CommitHash), Col(RefCommits, CommitHash);
    var schema, more := SchemaOf(References), SchemaOf(RefCommits);
    ConcatBoth();
    ColumnsOfJoin();
    ProductBoth(db);
    assert Typed(db(References), schema) && Typed(db(RefCommits), more);
    forall row | row in RefRows(repo)
      ensures ExactOn(ListedGen(repo), [Same(a, b)], schema, row, more, RefCommitRows(repo))
    {
      KeepSameIsWhere(a, b, schema, row, more, RefCommitRows(repo));
    }
    ExactRun(RefRows(repo), ListedGen(repo), [Same(a, b)], schema, more, RefCommitRows(repo));
    KeepSameEq(f, a, b, schema + more, Product(db, BOTH));
  }

  lemma KeepSameEq(f: Expr, a: Col, b: Col, schema: Schema, rows: seq<Row>)
    requires IsEq(f, a, b)
    ensures Keep([f], schema, rows) == Keep([Same(a, b)], schema, rows)
  {
    forall row | row in rows ensures AllTrue([f], schema, row) <==> AllTrue([Same(a, b)], schema, row) {
      IsEqMeans(f, a, b, schema, row);
      SameMeans(a, b, schema, row);
      assert f in [f] && Same(a, b) in [Same(a, b)];
    }
    KeepSame([f], [Same(a, b)], schema, rows);
  }

  lemma ProductBoth(db: Db)
    ensures Product(db, BOTH) == Cross(db(References), db(RefCommits))
  {
    var one := [References];
    assert one[..0] == [] && BOTH[..1] == one && BOTH[1] == RefCommits && |BOTH| == 2;
    PairsUnit(db(References));
    assert Product(db, one) == Cross([[]], db(References));
    assert Cross([[]], db(References)) == Pairs([], db(References)) + Cross([], db(References));
    assert db(References) + [] == db(References);
    assert Product(db, BOTH) == Cross(Product(db, BOTH[..1]), db(RefCommits));
  }

  // -------------------------------------------------------------------------
  // When both return the same
  // -------------------------------------------------------------------------

  lemma RefRowColumns(repo: Repository, k: nat)
    requires k < |RefList(repo)|
    ensures var r := RefList(repo)[k];
            && HeadsGen(repo)(RefRow(repo, r)) == HeadRows(repo, r.name, r.hash)
            && ListedGen(repo)(RefRow(repo, r)) == Where(RefCommitRows(repo), 1, Digest(r.hash))
  {
    ColumnAt(References, 1);
    ColumnAt(References, 2);
  }

  // No commit of a reference is listed by another.
  ghost predicate Unshared(repo: Repository, k: nat)
    requires k < |RefList(repo)|
  {
    var refs := RefList(repo);
    Resolve(repo, refs[k].hash).Found? ==>
      && Resolve(repo, refs[k].hash) == Found(refs[k].hash)
      && forall j :: 0 <= j < |refs| && j != k ==> !Lists(repo, refs[j], refs[k].hash)
  }

  lemma SolitaryIsUnshared(repo: Repository)
    ensures Solitary(repo) <==> forall k :: 0 <= k < |RefList(repo)| ==> Unshared(repo, k)
  {
    var refs := RefList(repo);
    if forall k :: 0 <= k < |refs| ==> Unshared(repo, k) {
      forall r | r in refs && Resolve(repo, r.hash).Found? ensures Resolve(repo, r.hash) == Found(r.hash) {
        var k :| 0 <= k < |refs| && refs[k] == r;
        assert Unshared(repo, k);
      }
      forall j, k | 0 <= j < |refs| && 0 <= k < |refs| && j != k && Resolve(repo, refs[k].hash).Found?
        ensures !Lists(repo, refs[j], refs[k].hash)
      {
        assert Unshared(repo, k);
      }
    }
    if Solitary(repo) {
      forall k | 0 <= k < |refs| ensures Unshared(repo, k) {
        assert refs[k] in refs;
      }
    }
  }

  // The rows of ref_commits with the hash of a tag, or of nothing, are none.
  lemma NotListed(repo: Repository, hash: Hash)
    requires !IsCommit(repo, hash)
    ensures Where(RefCommitRows(repo), 1, Digest(hash)) == []
  {
    var rows := RefCommitRows(repo);
    forall row | row in rows ensures |row| == 4 && row[1] != Digest(hash) {
      RefCommitRowsHave(repo, RefList(repo), row);
      var r :| r in RefList(repo) && row in HistoryOf(repo, r.name, r.hash);
      HistoryOfHas(repo, r.name, r.hash, row);
    }
    WhereNone(rows, 1, Digest(hash));
  }

  lemma {:induction false} HeadIsListed(repo: Repository, refs: seq<Reference>, k: nat)
    requires HashRefsOnly(refs) && k < |refs| && Resolve(repo, refs[k].hash) == Found(refs[k].hash)
    ensures |Where(RefCommitRowsOf(repo, refs), 1, Digest(refs[k].hash))| >= 1
    ensures |Where(RefCommitRowsOf(repo, refs), 1, Digest(refs[k].hash))| == 1 ==>
              Where(RefCommitRowsOf(repo, refs), 1, Digest(refs[k].hash)) == HeadRows(repo, refs[k].name, refs[k].hash)
  {
    var h, before, after := refs[k].hash, refs[..k], refs[k + 1..];
    var own := HistoryOf(repo, refs[k].name, h);
    RefCommitRowsSplit(repo, refs, k);
    WhereAppend(RefCommitRowsOf(repo, before), own + RefCommitRowsOf(repo, after), 1, Digest(h));
    WhereAppend(own, RefCommitRowsOf(repo, after), 1, Digest(h));
    HeadIsRefHashIff(repo, refs[k].name, h);
    OnlyOne(Where(RefCommitRowsOf(repo, before), 1, Digest(h)), HeadRows(repo, refs[k].name, h),
            Where(RefCommitRowsOf(repo, after), 1, Digest(h)));
  }

  lemma OnlyOne<T>(a: seq<T>, b: seq<T>, c: seq<T>)
    requires |b| == 1
    ensures |a + (b + c)| == 1 ==> a + (b + c) == b
  {}

  // As many rows of a reference are the right rows.
  lemma AlikeByCount(repo: Repository, k: nat)
    requires k < |RefList(repo)|
    ensures var r := RefList(repo)[k];
            var heads, listed := HeadRows(repo, r.name, r.hash), Where(RefCommitRows(repo), 1, Digest(r.hash));
            && (|heads| == |listed| ==> heads == listed)
            && (heads == listed <==> Unshared(repo, k))
  {
    var refs := RefList(repo);
    var r := refs[k];
    ResolveFindsCommit(repo, r.hash);
    if Resolve(repo, r.hash) == Found(r.hash) {
      HashJoinIsExactIff(repo, refs, k);
      HeadIsListed(repo, refs, k);
    } else {
      NotListed(repo, r.hash);
    }
  }

  lemma {:induction false} RefRowAt(repo: Repository, refs: seq<Reference>, k: nat)
    requires HashRefsOnly(refs) && k < |refs|
    ensures RefRow(repo, refs[k]) in RefRowsOf(repo, refs)
  {
    if k > 0 {
      RefRowAt(repo, refs[1..], k - 1);
    }
  }

  // The rows of head commits are those of the join exactly where no commit of a reference is listed by
  // another, repeated references included; otherwise they differ even as multisets.
  lemma RunsAgreeIff(repo: Repository)
    ensures var heads, listed := RunStage(RefRows(repo), HeadsGen(repo), None), RunStage(RefRows(repo), ListedGen(repo), None);
            && (heads == listed <==> Solitary(repo))
            && (multiset(heads) == multiset(listed) <==> Solitary(repo))
  {
    var refs, rows := RefList(repo), RefRows(repo);
    SolitaryIsUnshared(repo);
    RowsAreWide(repo, false);
    forall k | 0 <= k < |refs|
      ensures AlikeOn(HeadsGen(repo), ListedGen(repo), RefRow(repo, refs[k]))
      ensures HeadsGen(repo)(RefRow(repo, refs[k])) == ListedGen(repo)(RefRow(repo, refs[k])) <==> Unshared(repo, k)
    {
      RefRowColumns(repo, k);
      AlikeByCount(repo, k);
    }
    forall row | row in rows ensures AlikeOn(HeadsGen(repo), ListedGen(repo), row) {
      var k := RefRowsHave(repo, refs, row);
    }
    RunsAlike(rows, HeadsGen(repo), ListedGen(repo), 3);
    if Solitary(repo) {
      forall row | row in rows ensures HeadsGen(repo)(row) == ListedGen(repo)(row) {
        var k := RefRowsHave(repo, refs, row);
      }
    } else {
      var k :| 0 <= k < |refs| && !Unshared(repo, k);
      RefRowAt(repo, refs, k);
    }
  }

  lemma HeadsAreTyped(repo: Repository)
    ensures Typed(RunStage(RefRows(repo), HeadsGen(repo), None), Concat(BOTH))
  {
    ConcatBoth();
    RowsAreWide(repo, false);
    SchemaWidths();
    forall row | row in RefRows(repo) ensures Typed(HeadsGen(repo)(row), SchemaOf(RefCommits)) {
      HeadsAreWide(repo, row);
    }
    RunStageTyped(RefRows(repo), HeadsGen(repo), SchemaOf(References), SchemaOf(RefCommits));
  }

  lemma SchemaWidths()
    ensures |SchemaOf(References)| == 3 && |SchemaOf(RefCommits)| == 4
  {}

  lemma HeadsAreWide(repo: Repository, row: Row)
    ensures Wide(HeadsOf(repo, row), 4)
  {
  }

  // refs joined with ref_commits on the hash alone: the node returns the rows of the plain join exactly
  // where references hold hashes of commits and no other reference lists the commit of one. Elsewhere it
  // does not even return them in another order.
  lemma HashQueryIsPreservedIff(repo: Repository, readContent: bool, db: Db, tables: seq<Table>, f: Expr)
    requires Plain(db, repo, readContent) && AreTables(tables, BOTH) && JoinsHashes(f)
    ensures Preserved(repo, readContent, db, tables, [f]) <==> Solitary(repo)
    ensures AsWritten(repo, readContent, db, tables, [f]) <==> Solitary(repo)
  {
    var heads := RunStage(RefRows(repo), HeadsGen(repo), None);
    NodeOfHashJoin(repo, readContent, db, tables, f);
    PlainIsRun(repo, db, f);
    RunsAgreeIff(repo);
    HeadsAreTyped(repo);
    SameColumns(tables);
    MappingArranges(Concat(tables), Concat(BOTH), heads);
    HashIsOver(tables, f);
    PreservedIffRows(repo, readContent, db, tables, [f], heads);
  }

  lemma HashIsOver(tables: seq<Table>, f: Expr)
    requires AreTables(tables, BOTH) && JoinsHashes(f)
    ensures Over([f], Concat(tables))
  {
    IsEqMeans(f, Col(References, CommitHash), Col(RefCommits, CommitHash), [], []);
    ConcatHas(tables, Col(References, CommitHash));
    ConcatHas(tables, Col(RefCommits, CommitHash));
    assert References in BOTH && RefCommits in BOTH;
  }

  lemma SameColumns(tables: seq<Table>)
    requires AreTables(tables, BOTH)
    ensures Rearranges(Concat(tables), Concat(BOTH)) && forall c :: c in Concat(BOTH) ==> c in Concat(tables)
  {
    assert Distinct(BOTH);
    ConcatIsDistinct(BOTH);
    ConcatPermuted(tables, BOTH);
    forall c ensures c in Concat(BOTH) <==> c in Concat(tables) {
      ConcatHas(BOTH, c);
      ConcatHas(tables, c);
    }
  }
}
