// The iterators a plan stands for, chained, return what its stages are said to return.

module IteratorPlans {
  import opened Objects
  import opened Expressions
  import opened SquashJoins
  import opened Relations
  import opened Layout
  import opened SquashMeaning
  import opened FilterConservation
  import opened PlanTrace
  import opened Tables
  import opened JoinFacts
  import opened ProductRows
  import opened ChainStages
  import opened ExactChains
  import opened SquashedQueries
  import opened ChainEvents
  import opened ChainRuns
  import opened ChainKnowledge

  // What one iterator of a chain hands to the next.
  datatype Events =
    | Nothing
    | OfRefs(refs: seq<RefEvent>)
    | OfCommits(commits: seq<CommitEvent>)
    | OfFiles(files: seq<FileEvent>)

  function Rows(up: Events): seq<Row> {
    match up
    case Nothing => [[]]
    case OfRefs(es) => RowsOfRefs(es)
    case OfCommits(es) => RowsOfCommits(es)
    case OfFiles(es) => RowsOfFiles(es)
  }

  // The iterator a stage stands for, over the one before it.
  function RunIter(repo: Repository, skip: bool, readContent: bool, stage: Stage, up: Events): Events {
    match (stage.link, up)
    case (Alone(References), Nothing) => OfRefs(RefEvents(repo, stage.filter, false, HeadAndRefs(repo)))
    case (Alone(RefCommits), Nothing) =>
      OfCommits(RefCommitEvents(repo, skip, stage.filter, RefEvents(repo, stage.movedFilter, true, HeadAndRefs(repo))))
    case (Joined(References, RefCommits), OfRefs(es)) =>
      OfCommits(if stage.narrow then HeadEvents(repo, skip, stage.filter, WithRefCommit(repo), es)
                else RefCommitEvents(repo, skip, stage.filter, es))
    case (Joined(References, Commits), OfRefs(es)) =>
      OfCommits(HeadEvents(repo, skip, stage.filter, WithCommit(repo, false), es))
    case (Joined(RefCommits, Commits), OfCommits(es)) => OfCommits(CommitsEvents(repo, stage.filter, es))
    case (Joined(References, CommitFiles), OfRefs(es)) =>
      OfFiles(CommitFileEvents(repo, skip, stage.filter, HeadEvents(repo, skip, None, WithCommit(repo, true), es)))
    case (Joined(Commits, CommitFiles), OfCommits(es)) => OfFiles(CommitFileEvents(repo, skip, stage.filter, es))
    case (Joined(CommitFiles, Files), OfFiles(es)) => OfFiles(FilesEvents(repo, readContent, stage.filter, es))
    case _ => Nothing
  }

  function RunIters(repo: Repository, skip: bool, readContent: bool, stages: seq<Stage>): Events {
    if stages == [] then Nothing
    else RunIter(repo, skip, readContent, stages[|stages| - 1], RunIters(repo, skip, readContent, stages[..|stages| - 1]))
  }

  // -------------------------------------------------------------------------
  // One stage
  // -------------------------------------------------------------------------

  predicate Feeds(up: Events, link: Link) {
    match link
    case Alone(t) => up.Nothing? && t in {References, RefCommits}
    case Joined(References, t) => up.OfRefs? && t in {RefCommits, Commits, CommitFiles}
    case Joined(RefCommits, Commits) => up.OfCommits?
    case Joined(Commits, CommitFiles) => up.OfCommits?
    case Joined(CommitFiles, Files) => up.OfFiles?
    case _ => false
  }

  // What an iterator knows of its current reference, commit or file is what its row says.
  ghost predicate Knowing(repo: Repository, up: Events, before: seq<Table>) {
    match up
    case Nothing => before == []
    case OfRefs(es) => before == [References] && AllAtRef(Concat(before), es)
    case OfCommits(es) => NoErrors(es) && AllKnowCommit(repo, Concat(before), CommitSource(Concat(before)), es)
    case OfFiles(es) => OnlyFiles(es) && AllKnowFile(repo, Concat(before), es)
  }

  // A stage does what its generator says, and hands on what it knows.
  ghost predicate Runs(repo: Repository, readContent: bool, stage: Stage, before: seq<Table>, up: Events, gen: Generator) {
    var down := RunIter(repo, true, readContent, stage, up);
    && Rows(down) == RunStage(Rows(up), gen, stage.filter)
    && Knowing(repo, down, before + [Added(stage.link)])
  }

  lemma RunsBy(repo: Repository, readContent: bool, stage: Stage, before: seq<Table>, up: Events, gen: Generator, down: Events)
    requires RunIter(repo, true, readContent, stage, up) == down
    requires Rows(down) == RunStage(Rows(up), gen, stage.filter)
    requires Knowing(repo, down, before + [Added(stage.link)])
    ensures Runs(repo, readContent, stage, before, up, gen)
  {}

  lemma WithoutTable(before: seq<Table>, t: Table)
    requires t !in before
    ensures Without(Concat(before), t)
    ensures Concat(before + [t]) == Concat(before) + SchemaOf(t)
  {
    forall c | c in Concat(before) ensures c.table != t {
      ConcatHas(before, c);
    }
    assert (before + [t])[..|before|] == before;
  }

  lemma SourceIs(before: seq<Table>, t: Table)
    ensures t == Commits ==> CommitSource(Concat(before + [t])) == Col(Commits, CommitHash)
    ensures t == RefCommits && Commits !in before ==> CommitSource(Concat(before + [t])) == Col(RefCommits, CommitHash)
    ensures Commits !in before ==> CommitSource(Concat(before)) == Col(RefCommits, CommitHash)
  {
    ConcatHas(before + [t], Col(Commits, CommitHash));
    ConcatHas(before, Col(Commits, CommitHash));
  }

  lemma RunStageOnce(gen: Generator, filter: Option<Expr>)
    ensures RunStage([[]], gen, filter) == Filtered(filter, gen([]))
  {
    PairsUnit(gen([]));
    var rows: seq<Row> := [[]];
    assert rows[1..] == [];
    assert RunStage(rows, gen, filter) == Filtered(filter, Pairs([], gen([]))) + RunStage([], gen, filter);
  }

  lemma RefListIs(repo: Repository)
    ensures HashRefs(HeadAndRefs(repo)) == RefList(repo)
  {
    if repo.head.Some? {
      assert HeadAndRefs(repo)[1..] == repo.refs;
    } else {
      assert HeadAndRefs(repo) == repo.refs && [] + HashRefs(repo.refs) == HashRefs(repo.refs);
    }
  }

  lemma RefsStageRuns(repo: Repository, readContent: bool, stage: Stage, gen: Generator)
    requires stage.link == Alone(References) && Generates(gen, repo, readContent, stage, [])
    ensures Runs(repo, readContent, stage, [], Nothing, gen)
  {
    RunStageOnce(gen, stage.filter);
    RefsRun(repo, stage.filter, HeadAndRefs(repo));
    RefListIs(repo);
    RefsKnow(repo, stage.filter, HeadAndRefs(repo));
    assert [] + [References] == [References];
    WithoutTable([], References);
    assert Concat([]) + SchemaOf(References) == SchemaOf(References);
  }

  // References that hold no columns of their own.
  lemma {:induction false} VirtualRefsRun(repo: Repository, filter: Option<Expr>, moved: Option<Expr>, refs: seq<Reference>)
    ensures RowsOfCommits(RefCommitEvents(repo, true, filter, RefEvents(repo, moved, true, refs)))
            == Filtered(filter, RefCommitRowsOf(repo, PassingRefs(repo, moved, HashRefs(refs))))
    ensures forall e :: e in RefEvents(repo, moved, true, refs) ==> e.row == []
  {
    if refs != [] {
      var es, tail := RefEvents(repo, moved, true, refs[1..]), HashRefs(refs[1..]);
      var rest := PassingRefs(repo, moved, tail);
      VirtualRefsRun(repo, filter, moved, refs[1..]);
      if refs[0].HashRef? {
        var r := refs[0];
        var own := HistoryOf(repo, r.name, r.hash);
        assert ([r] + tail)[1..] == tail;
        if Passes(moved, RefRow(repo, r)) {
          var e := RefEvent([], r);
          assert ([e] + es)[1..] == es && ([r] + rest)[1..] == rest;
          HistoryOfEvent(repo, filter, e);
          PairsUnit(own);
          RowsOfCommitsAppend(RefHistory(repo, true, filter, e), RefCommitEvents(repo, true, filter, es));
          FilteredAppend(filter, own, RefCommitRowsOf(repo, rest));
        } else {
          assert [] + es == es && [] + rest == rest;
        }
      } else {
        assert [] + es == es && [] + tail == tail;
      }
    }
  }

  lemma {:induction false} FilteredAppend(filter: Option<Expr>, a: seq<Row>, b: seq<Row>)
    ensures Filtered(filter, a + b) == Filtered(filter, a) + Filtered(filter, b)
  {
    if a == [] {
      assert a + b == b;
    } else {
      FilteredAppend(filter, a[1..], b);
      assert (a + b)[1..] == a[1..] + b;
      Associative(if Passes(filter, a[0]) then [a[0]] else [], Filtered(filter, a[1..]), Filtered(filter, b));
    }
  }

  lemma MovedStageRuns(repo: Repository, readContent: bool, stage: Stage, gen: Generator)
    requires stage.link == Alone(RefCommits) && Generates(gen, repo, readContent, stage, [])
    ensures Runs(repo, readContent, stage, [], Nothing, gen)
  {
    var es := RefEvents(repo, stage.movedFilter, true, HeadAndRefs(repo));
    RunStageOnce(gen, stage.filter);
    MovedRows(repo, readContent, stage, [], []);
    VirtualRefsRun(repo, stage.filter, stage.movedFilter, HeadAndRefs(repo));
    RefListIs(repo);
    RefCommitsKnow(repo, stage.filter, [], es);
    WithoutTable([], RefCommits);
    SourceIs([], RefCommits);
    assert Concat([]) == [];
  }

  lemma RefCommitsStageRuns(repo: Repository, readContent: bool, stage: Stage, es: seq<RefEvent>, gen: Generator)
    requires stage.link == Joined(References, RefCommits) && Knowing(repo, OfRefs(es), [References])
    requires Generates(gen, repo, readContent, stage, Concat([References]))
    ensures Runs(repo, readContent, stage, [References], OfRefs(es), gen)
  {
    var schema := Concat([References]);
    WithoutTable([References], RefCommits);
    SourceIs([References], RefCommits);
    if stage.narrow {
      HeadsRun(repo, readContent, stage, schema, gen, es);
      RefHeadsKnow(repo, stage.filter, schema, es);
    } else {
      RefCommitsRun(repo, readContent, stage, schema, gen, es);
      RefCommitsKnow(repo, stage.filter, schema, es);
    }
  }

  lemma RefHeadCommitsStageRuns(repo: Repository, readContent: bool, stage: Stage, es: seq<RefEvent>, gen: Generator)
    requires stage.link == Joined(References, Commits) && Knowing(repo, OfRefs(es), [References])
    requires Generates(gen, repo, readContent, stage, Concat([References]))
    ensures Runs(repo, readContent, stage, [References], OfRefs(es), gen)
  {
    var schema := Concat([References]);
    WithoutTable([References], Commits);
    SourceIs([References], Commits);
    RefHeadCommitsRun(repo, readContent, stage, schema, gen, es);
    RefHeadCommitsKnow(repo, stage.filter, schema, es);
  }

  lemma CommitsStageRuns(repo: Repository, readContent: bool, stage: Stage, before: seq<Table>, es: seq<CommitEvent>,
                         gen: Generator)
    requires stage.link == Joined(RefCommits, Commits) && Knowing(repo, OfCommits(es), before) && Commits !in before
    requires Generates(gen, repo, readContent, stage, Concat(before))
    ensures Runs(repo, readContent, stage, before, OfCommits(es), gen)
  {
    var schema := Concat(before);
    WithoutTable(before, Commits);
    SourceIs(before, Commits);
    CommitsRun(repo, readContent, stage, schema, gen, es);
    CommitsKnow(repo, stage.filter, schema, Col(RefCommits, CommitHash), es);
    RunOfCommits(repo, readContent, stage, es);
    RunsBy(repo, readContent, stage, before, OfCommits(es), gen, OfCommits(CommitsEvents(repo, stage.filter, es)));
  }

  lemma RunOfCommits(repo: Repository, readContent: bool, stage: Stage, es: seq<CommitEvent>)
    ensures stage.link == Joined(RefCommits, Commits) ==>
              RunIter(repo, true, readContent, stage, OfCommits(es)) == OfCommits(CommitsEvents(repo, stage.filter, es))
    ensures stage.link == Joined(Commits, CommitFiles) ==>
              RunIter(repo, true, readContent, stage, OfCommits(es)) == OfFiles(CommitFileEvents(repo, true, stage.filter, es))
  {}

  lemma CommitFilesStageRuns(repo: Repository, readContent: bool, stage: Stage, before: seq<Table>, es: seq<CommitEvent>,
                             gen: Generator)
    requires stage.link == Joined(Commits, CommitFiles) && Knowing(repo, OfCommits(es), before)
    requires CommitFiles !in before && Generates(gen, repo, readContent, stage, Concat(before))
    ensures Runs(repo, readContent, stage, before, OfCommits(es), gen)
  {
    var schema := Concat(before);
    WithoutTable(before, CommitFiles);
    CommitFilesRun(repo, readContent, stage, schema, gen, es);
    RowsAreWide(repo, schema, CommitSource(schema), es);
    CommitFilesKnow(repo, stage.filter, schema, es);
    RunOfCommits(repo, readContent, stage, es);
    RunsBy(repo, readContent, stage, before, OfCommits(es), gen, OfFiles(CommitFileEvents(repo, true, stage.filter, es)));
  }

  lemma RowsAreWide(repo: Repository, schema: Schema, col: Col, es: seq<CommitEvent>)
    requires NoErrors(es) && AllKnowCommit(repo, schema, col, es)
    ensures forall e :: e in es ==> |e.row| == |schema| && IsCommit(repo, e.commit)
  {
    forall e | e in es ensures |e.row| == |schema| && IsCommit(repo, e.commit) {
      assert KnowsCommit(repo, schema, col, e);
    }
  }

  // The commit of each reference, without columns of its own, and then its files.
  lemma RefFilesGenerated(repo: Repository, readContent: bool, stage: Stage, schema: Schema, e: RefEvent)
    requires AtRef(schema, e) && stage.link == Joined(References, CommitFiles)
    ensures var heads := RefHead(repo, true, None, WithCommit(repo, true), e);
            && RowsOfFiles(CommitFileEvents(repo, true, stage.filter, heads))
               == Filtered(stage.filter, Pairs(e.row, MakeRows(repo, readContent, stage, schema, e.row)))
            && forall c :: c in heads ==> c.AtCommit? && |c.row| == |schema| && IsCommit(repo, c.commit)
  {
    assert MakeRows(repo, readContent, stage, schema, e.row) == FilesFor(repo, Resolve(repo, e.ref.hash));
    ResolveFindsCommit(repo, e.ref.hash);
    if Resolve(repo, e.ref.hash).Found? {
      var c := Resolve(repo, e.ref.hash).commit;
      var heads := [AtCommit(e.row, c)];
      assert RefHead(repo, true, None, WithCommit(repo, true), e) == heads;
      var files := FilesOfEvent(repo, true, stage.filter, heads[0]);
      assert heads[1..] == [];
      assert CommitFileEvents(repo, true, stage.filter, heads) == files + [] == files;
      ListEventsAreRows(repo, stage.filter, e.row, c, FilesIn(repo, TreeOf(repo, c)));
    }
  }

  lemma {:induction false} CommitFileEventsAppend(repo: Repository, filter: Option<Expr>, a: seq<CommitEvent>,
                                                  b: seq<CommitEvent>)
    ensures CommitFileEvents(repo, true, filter, a + b)
            == CommitFileEvents(repo, true, filter, a) + CommitFileEvents(repo, true, filter, b)
  {
    if a == [] {
      assert a + b == b;
    } else {
      CommitFileEventsAppend(repo, filter, a[1..], b);
      assert (a + b)[1..] == a[1..] + b;
      Associative(FilesOfEvent(repo, true, filter, a[0]), CommitFileEvents(repo, true, filter, a[1..]),
                  CommitFileEvents(repo, true, filter, b));
    }
  }

  lemma {:induction false} RefFilesRun(repo: Repository, readContent: bool, stage: Stage, schema: Schema, gen: Generator,
                                       es: seq<RefEvent>)
    requires AllAtRef(schema, es) && Generates(gen, repo, readContent, stage, schema)
    requires stage.link == Joined(References, CommitFiles)
    ensures var heads := HeadEvents(repo, true, None, WithCommit(repo, true), es);
            && RowsOfFiles(CommitFileEvents(repo, true, stage.filter, heads)) == RunStage(RowsOfRefs(es), gen, stage.filter)
            && forall c :: c in heads ==> c.AtCommit? && |c.row| == |schema| && IsCommit(repo, c.commit)
  {
    if es != [] {
      var first := RefHead(repo, true, None, WithCommit(repo, true), es[0]);
      var rest := HeadEvents(repo, true, None, WithCommit(repo, true), es[1..]);
      RefFilesGenerated(repo, readContent, stage, schema, es[0]);
      RefFilesRun(repo, readContent, stage, schema, gen, es[1..]);
      CommitFileEventsAppend(repo, stage.filter, first, rest);
      RowsOfFilesAppend(CommitFileEvents(repo, true, stage.filter, first), CommitFileEvents(repo, true, stage.filter, rest));
    }
  }

  lemma RefFilesStageRuns(repo: Repository, readContent: bool, stage: Stage, es: seq<RefEvent>, gen: Generator)
    requires stage.link == Joined(References, CommitFiles) && Knowing(repo, OfRefs(es), [References])
    requires Generates(gen, repo, readContent, stage, Concat([References]))
    ensures Runs(repo, readContent, stage, [References], OfRefs(es), gen)
  {
    var schema := Concat([References]);
    WithoutTable([References], CommitFiles);
    RefFilesRun(repo, readContent, stage, schema, gen, es);
    CommitFilesKnow(repo, stage.filter, schema, HeadEvents(repo, true, None, WithCommit(repo, true), es));
  }

  lemma KnowingFiles(repo: Repository, before: seq<Table>, t: Table, fs: seq<FileEvent>)
    requires t !in before && OnlyFiles(fs) && AllKnowFile(repo, Concat(before) + SchemaOf(t), fs)
    ensures Knowing(repo, OfFiles(fs), before + [t])
  {
    WithoutTable(before, t);
  }

  lemma FilesStageRuns(repo: Repository, readContent: bool, stage: Stage, before: seq<Table>, es: seq<FileEvent>,
                       gen: Generator)
    requires stage.link == Joined(CommitFiles, Files) && Knowing(repo, OfFiles(es), before) && Files !in before
    requires DistinctPaths(repo) && Generates(gen, repo, readContent, stage, Concat(before))
    ensures Runs(repo, readContent, stage, before, OfFiles(es), gen)
  {
    var schema, fs := Concat(before), FilesEvents(repo, readContent, stage.filter, es);
    FilesRun(repo, readContent, stage, schema, gen, es);
    FilesKnow(repo, readContent, stage.filter, schema, es);
    KnowingFiles(repo, before, Files, fs);
    RunsBy(repo, readContent, stage, before, OfFiles(es), gen, OfFiles(fs));
  }

  // -------------------------------------------------------------------------
  // The whole chain
  // -------------------------------------------------------------------------

  lemma StageRuns(repo: Repository, readContent: bool, stage: Stage, before: seq<Table>, up: Events, gen: Generator)
    requires Wellformed(repo) && Feeds(up, stage.link) && Knowing(repo, up, before) && Added(stage.link) !in before
    requires Generates(gen, repo, readContent, stage, Concat(before))
    ensures Runs(repo, readContent, stage, before, up, gen)
  {
    match (stage.link, up)
    case (Alone(References), _) => RefsStageRuns(repo, readContent, stage, gen);
    case (Alone(RefCommits), _) => MovedStageRuns(repo, readContent, stage, gen);
    case (Joined(References, RefCommits), OfRefs(es)) => RefCommitsStageRuns(repo, readContent, stage, es, gen);
    case (Joined(References, Commits), OfRefs(es)) => RefHeadCommitsStageRuns(repo, readContent, stage, es, gen);
    case (Joined(References, CommitFiles), OfRefs(es)) => RefFilesStageRuns(repo, readContent, stage, es, gen);
    case (Joined(RefCommits, Commits), OfCommits(es)) => CommitsStageRuns(repo, readContent, stage, before, es, gen);
    case (Joined(Commits, CommitFiles), OfCommits(es)) => CommitFilesStageRuns(repo, readContent, stage, before, es, gen);
    case (Joined(CommitFiles, Files), OfFiles(es)) => FilesStageRuns(repo, readContent, stage, before, es, gen);
  }

  ghost predicate WellFed(repo: Repository, readContent: bool, stages: seq<Stage>) {
    stages == [] ||
    var n := |stages| - 1;
    WellFed(repo, readContent, stages[..n]) && Feeds(RunIters(repo, true, readContent, stages[..n]), stages[n].link)
  }

  lemma LastGenerates(repo: Repository, readContent: bool, stages: seq<Stage>)
    requires stages != []
    ensures var n := |stages| - 1;
            Generates(Gens(repo, readContent, stages)[n], repo, readContent, stages[n], Concat(StageTables(stages[..n])))
  {}

  // The chained iterators of a plan return the rows its stages are defined to make.
  lemma {:induction false} IteratorsRunPlan(repo: Repository, readContent: bool, stages: seq<Stage>)
    requires Wellformed(repo) && Distinct(StageTables(stages)) && WellFed(repo, readContent, stages)
    ensures var up := RunIters(repo, true, readContent, stages);
            Rows(up) == RunStages(stages, Gens(repo, readContent, stages)) && Knowing(repo, up, StageTables(stages))
  {
    if stages != [] {
      var n := |stages| - 1;
      var before := StageTables(stages[..n]);
      DistinctFront(before, Added(stages[n].link));
      IteratorsRunPlan(repo, readContent, stages[..n]);
      GensFront(repo, readContent, stages);
      LastGenerates(repo, readContent, stages);
      StageRuns(repo, readContent, stages[n], before, RunIters(repo, true, readContent, stages[..n]),
                Gens(repo, readContent, stages)[n]);
    }
  }

  // -------------------------------------------------------------------------
  // Every plan feeds its iterators
  // -------------------------------------------------------------------------

  // The kind of iterator the rule thinks it has is the one it has.
  predicate Kinds(iter: Iter, up: Events) {
    match iter
    case NoIter => up.Nothing?
    case RefsIter => up.OfRefs?
    case RefCommitsIter => up.OfCommits?
    case CommitsIter => up.OfCommits?
    case FilesIter => up.OfFiles?
    case LastIter => true
    case _ => false
  }

  lemma ChosenFeeds(iter: Iter, t: Table, up: Events)
    requires Kinds(iter, up) && Choose(iter, t).Chain? && Modelled(Choose(iter, t).link) && t != Repositories
    ensures Feeds(up, Choose(iter, t).link)
  {}

  lemma ChosenKinds(repo: Repository, readContent: bool, stage: Stage, iter: Iter, t: Table, up: Events)
    requires Kinds(iter, up) && Choose(iter, t).Chain? && Modelled(Choose(iter, t).link) && t != Repositories
    requires stage.link == Choose(iter, t).link
    ensures Kinds(Choose(iter, t).next, RunIter(repo, true, readContent, stage, up))
  {
    ChosenFeeds(iter, t, up);
  }

  ghost predicate AllModelled(stages: seq<Stage>) {
    forall stage :: stage in stages ==> Modelled(stage.link)
  }

  ghost predicate Fed(repo: Repository, readContent: bool, p: Plan) {
    WellFed(repo, readContent, p.stages) && Kinds(p.iter, RunIters(repo, true, readContent, p.stages))
  }

  lemma TableIsFed(repo: Repository, readContent: bool, p: Plan, t: Table, indexed: bool)
    requires Fed(repo, readContent, p) && AddTable(p, t, indexed).Success? && t != Repositories
    requires AllModelled(AddTable(p, t, indexed).value.stages)
    ensures Fed(repo, readContent, AddTable(p, t, indexed).value)
  {
    var r := AddTable(p, t, indexed).value;
    if Choose(p.iter, t).Chain? {
      var n := |p.stages|;
      var up := RunIters(repo, true, readContent, p.stages);
      assert r.stages[..n] == p.stages && r.stages[n] in r.stages;
      ChosenFeeds(p.iter, t, up);
      ChosenKinds(repo, readContent, r.stages[n], p.iter, t, up);
    }
  }

  lemma ModelledBefore(p: Plan, t: Table, indexed: bool)
    requires AddTable(p, t, indexed).Success? && AllModelled(AddTable(p, t, indexed).value.stages)
    ensures AllModelled(p.stages)
  {
    var r := AddTable(p, t, indexed).value;
    assert r.stages[..|p.stages|] == p.stages;
  }

  lemma {:induction false} TablesAreFed(repo: Repository, readContent: bool, filters: seq<Expr>, ts: seq<Table>,
                                        indexed: bool, n: nat)
    requires n <= |ts| && AddTables(EmptyPlan(filters), ts[..n], indexed).Success? && Repositories !in ts
    requires AllModelled(AddTables(EmptyPlan(filters), ts[..n], indexed).value.stages)
    ensures Fed(repo, readContent, AddTables(EmptyPlan(filters), ts[..n], indexed).value)
    decreases n
  {
    if n > 0 {
      AddTablesLast(EmptyPlan(filters), ts, indexed, n - 1);
      var p := AddTables(EmptyPlan(filters), ts[..n - 1], indexed).value;
      ModelledBefore(p, ts[n - 1], indexed);
      TablesAreFed(repo, readContent, filters, ts, indexed, n - 1);
      TableIsFed(repo, readContent, p, ts[n - 1], indexed);
    }
  }

  // The node that is run: the chained iterators, the joins around them, the columns put back, the filter.
  function RunNode(sq: Squashed, repo: Repository, readContent: bool, db: Db): seq<Row> {
    Filtered(sq.filter,
             PickAll(sq.positions, RunJoins(sq.joins, db, Rows(RunIters(repo, true, readContent, sq.plan.stages)))))
  }

  lemma PlanIsFed(repo: Repository, readContent: bool, tables: seq<Table>, filters: seq<Expr>)
    requires Squash(tables, filters, false).Success? && Repositories !in tables
    requires AllModelled(Squash(tables, filters, false).value.plan.stages)
    ensures WellFed(repo, readContent, Squash(tables, filters, false).value.plan.stages)
  {
    var ts := Ordered(tables);
    OrderedRises(tables);
    assert ts[..|ts|] == ts;
    SquashedPlan(tables, filters, false);
    TablesAreFed(repo, readContent, filters, ts, false, |ts|);
  }

  lemma ReadyIsModelled(repo: Repository, stages: seq<Stage>, filters: seq<Expr>)
    requires Ready(repo, stages, filters)
    ensures AllModelled(stages)
  {
    forall stage | stage in stages ensures Modelled(stage.link) {
      var k :| 0 <= k < |stages| && stages[k] == stage;
      assert StageReady(repo, stages[k], StageTables(stages[..k]), filters);
    }
  }

  // Running the chained iterators returns the filtered cross product of the plain tables.
  lemma IteratorsReturnPlainRows(repo: Repository, readContent: bool, db: Db, tables: seq<Table>, filters: seq<Expr>)
    requires Wellformed(repo) && Plain(db, repo, readContent)
    requires Distinct(tables) && Repositories !in tables && Over(filters, Concat(tables))
    requires Squash(tables, filters, false).Success?
    requires var p := Squash(tables, filters, false).value.plan; Covers(p, tables) && Ready(repo, p.stages, filters)
    ensures var sq := Squash(tables, filters, false).value;
            var order := Order(sq.plan);
            RunNode(sq, repo, readContent, db)
            == ArrangeAll(Concat(tables), Concat(order), Keep(filters, Concat(order), Product(db, order)))
  {
    var p := Squash(tables, filters, false).value.plan;
    ReadyIsModelled(repo, p.stages, filters);
    PlanIsFed(repo, readContent, tables, filters);
    DistinctSuffix(JoinTables(p.unsquashable), StageTables(p.stages));
    IteratorsRunPlan(repo, readContent, p.stages);
    SquashedQueryIsPlainQuery(repo, readContent, db, tables, filters);
  }
}
