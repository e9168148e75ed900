// What the rule guarantees about the stages of a plan.

module PlanTrace {
  import opened Objects
  import opened Expressions
  import opened SquashJoins
  import opened FilterConservation
  import opened Layout
  import opened SquashMeaning

  function Rank(t: Table): nat {
    match t
    case Repositories => 0
    case Remotes => 1
    case References => 2
    case RefCommits => 3
    case Commits => 4
    case CommitTrees => 5
    case TreeEntries => 6
    case CommitBlobs => 7
    case CommitFiles => 8
    case Blobs => 9
    case Files => 10
  }

  ghost predicate Rising(ts: seq<Table>) {
    forall i, j :: 0 <= i < j < |ts| ==> Rank(ts[i]) < Rank(ts[j])
  }

  lemma {:induction false} WithinHas(ts: seq<Table>, tables: seq<Table>)
    ensures forall t :: t in Within(ts, tables) <==> t in ts && t in tables
  {
    if ts != [] {
      WithinHas(ts[1..], tables);
      assert ts == [ts[0]] + ts[1..];
    }
  }

  lemma {:induction false} WithinRises(ts: seq<Table>, tables: seq<Table>)
    requires Rising(ts)
    ensures Rising(Within(ts, tables))
  {
    if ts != [] {
      var rest := Within(ts[1..], tables);
      WithinRises(ts[1..], tables);
      WithinHas(ts[1..], tables);
      forall i | 0 <= i < |rest| ensures Rank(ts[0]) < Rank(rest[i]) {
        assert rest[i] in ts[1..];
      }
      assert ts[0] in tables ==> Within(ts, tables) == [ts[0]] + rest;
      assert ts[0] !in tables ==> Within(ts, tables) == rest;
    }
  }

  lemma OrderedRises(tables: seq<Table>)
    ensures Rising(Ordered(tables))
    ensures forall t :: t in Ordered(tables) <==> t in tables
  {
    assert forall i :: 0 <= i < |HIERARCHY| ==> Rank(HIERARCHY[i]) == i;
    WithinRises(HIERARCHY, tables);
    WithinHas(HIERARCHY, tables);
    forall t ensures t in HIERARCHY {
      assert HIERARCHY[Rank(t)] == t;
    }
  }

  // -------------------------------------------------------------------------
  // Stages
  // -------------------------------------------------------------------------

  // What an iterator offers comes from a table of the chain.
  ghost predicate Offers(iter: Iter, before: seq<Table>) {
    match iter
    case NoIter => before == []
    case ReposIter => Repositories in before
    case RemotesIter => Remotes in before
    case RefsIter => References in before
    case RefCommitsIter => RefCommits in before
    case CommitsIter => Commits in before
    case TreesIter => CommitTrees in before
    case TreeEntriesIter => TreeEntries in before
    case FilesIter => CommitFiles in before
    case _ => true
  }

  // A stage after the tables `before`, in a query over `tables` with these filters.
  ghost predicate StageTraced(stage: Stage, before: seq<Table>, tables: seq<Table>, filters: seq<Expr>) {
    && (stage.link.Alone? ==> before == [])
    && (stage.link.Joined? && stage.link.left !in {Commits, CommitBlobs} ==> stage.link.left in before)
    && (stage.link == Joined(Commits, CommitFiles) ==>
          Commits in before || (RefCommits in before && Commits !in tables))
    && (forall f :: f in stage.dealt || f in stage.moved ==> f in filters)
    && (stage.moved != [] ==> stage.link == Alone(RefCommits))
    && (forall f :: f in stage.moved ==> Only(f, {RefCommits}) && OnlyColumns(f, REF_COLUMNS))
    && Transfer(stage.moved) == Some(stage.movedFilter)
    && (stage.link == Joined(References, RefCommits) ==>
          if stage.narrow then HasRefHeadFilter(filters)
          else forall f :: f in stage.dealt ==> !IsEq(f, Col(References, CommitHash), Col(RefCommits, CommitHash)))
  }

  ghost predicate Traced(stages: seq<Stage>, tables: seq<Table>, filters: seq<Expr>) {
    forall k :: 0 <= k < |stages| ==> StageTraced(stages[k], StageTables(stages[..k]), tables, filters)
  }

  ghost predicate PlanTraced(p: Plan, tables: seq<Table>, filters: seq<Expr>) {
    && Offers(p.iter, StageTables(p.stages))
    && (p.iter == RefCommitsIter ==> Commits !in p.used)
    && Traced(p.stages, tables, filters)
    && forall f :: f in p.filters ==> f in filters
  }

  lemma MatchingSubset(fs: seq<Expr>, tables: set<Table>)
    ensures forall f :: f in Matching(fs, tables) || f in Others(fs, tables) ==> f in fs
  {
    MatchingSplits(fs, tables);
    forall f | f in Matching(fs, tables) || f in Others(fs, tables) ensures f in fs {
      assert f in multiset(Matching(fs, tables)) || f in multiset(Others(fs, tables));
      assert f in multiset(fs);
    }
  }

  lemma TransferSubset(fs: seq<Expr>)
    ensures forall f :: f in Movable(fs) || f in Unmovable(fs) ==> f in fs
  {
    TransferSplits(fs);
    forall f | f in Movable(fs) || f in Unmovable(fs) ensures f in fs {
      assert f in multiset(Movable(fs)) || f in multiset(Unmovable(fs));
      assert f in multiset(fs);
    }
  }

  lemma KeptSubset(link: Link, dealt: seq<Expr>)
    ensures forall f :: f in Kept(link, dealt) || f in Dropped(link, dealt) ==> f in dealt
  {
    DealtSplits(link, dealt);
    forall f | f in Kept(link, dealt) || f in Dropped(link, dealt) ensures f in dealt {
      assert f in multiset(Kept(link, dealt)) || f in multiset(Dropped(link, dealt));
      assert f in multiset(dealt);
    }
  }

  lemma HasEqSubset(fs: seq<Expr>, filters: seq<Expr>, a: Col, b: Col)
    requires forall f :: f in fs ==> f in filters
    ensures HasEq(fs, a, b) ==> HasEq(filters, a, b)
  {
    if i :| 0 <= i < |fs| && IsEq(fs[i], a, b) {
      assert fs[i] in filters;
    }
  }

  // What filters a new stage takes.
  lemma NewStageFilters(p: Plan, link: Link, next: Iter, indexed: bool, filters: seq<Expr>)
    requires AddStage(p, link, next, indexed).Success? && forall f :: f in p.filters ==> f in filters
    ensures var q := AddStage(p, link, next, indexed).value;
            var stage := q.stages[|p.stages|];
            && q.stages == p.stages + [stage] && stage.link == link && q.iter == next && q.used == p.used
            && (forall f :: f in q.filters ==> f in filters)
            && (forall f :: f in stage.dealt || f in stage.moved ==> f in filters)
            && (stage.moved != [] ==> link == Alone(RefCommits))
            && (forall f :: f in stage.moved ==> Only(f, {RefCommits}) && OnlyColumns(f, REF_COLUMNS))
            && Transfer(stage.moved) == Some(stage.movedFilter)
  {
    var moves := link == Alone(RefCommits) && !indexed;
    TransferSplits(p.filters);
    TransferSubset(p.filters);
    var rest := if moves then Unmovable(p.filters) else p.filters;
    MatchingSubset(rest, Sources(link));
  }

  lemma NewStageNarrow(p: Plan, link: Link, next: Iter, indexed: bool, filters: seq<Expr>)
    requires AddStage(p, link, next, indexed).Success? && forall f :: f in p.filters ==> f in filters
    requires link == Joined(References, RefCommits)
    ensures var stage := AddStage(p, link, next, indexed).value.stages[|p.stages|];
            if stage.narrow then HasRefHeadFilter(filters)
            else forall f :: f in stage.dealt ==> !IsEq(f, Col(References, CommitHash), Col(RefCommits, CommitHash))
  {
    var stage := AddStage(p, link, next, indexed).value.stages[|p.stages|];
    if stage.narrow {
      HasEqSubset(p.filters, filters, Col(References, CommitHash), Col(Commits, CommitHash));
      HasEqSubset(p.filters, filters, Col(References, CommitHash), Col(RefCommits, CommitHash));
    } else {
      MatchingSubset(p.filters, Sources(link));
      forall f | f in stage.dealt ensures !IsEq(f, Col(References, CommitHash), Col(RefCommits, CommitHash)) {
        var i :| 0 <= i < |p.filters| && p.filters[i] == f;
      }
    }
  }

  // The source of a link is in the chain before it.
  lemma ChosenSource(iter: Iter, t: Table, before: seq<Table>)
    requires Choose(iter, t).Chain? && Offers(iter, before)
    ensures var link := Choose(iter, t).link;
            && (link.Alone? ==> before == [])
            && (link.Joined? && link.left !in {Commits, CommitBlobs, RefCommits} ==> link.left in before)
            && (link.Joined? && link.left == RefCommits ==> RefCommits in before || iter == CommitsIter)
            && (link == Joined(Commits, CommitFiles) ==> Commits in before || (RefCommits in before && iter == RefCommitsIter))
    ensures Offers(Choose(iter, t).next, before + [Added(Choose(iter, t).link)])
  {}

  lemma StageTablesExtend(stages: seq<Stage>, stage: Stage)
    ensures StageTables(stages + [stage]) == StageTables(stages) + [Added(stage.link)]
    ensures forall k :: 0 <= k <= |stages| ==> (stages + [stage])[..k] == stages[..k]
  {
    assert (stages + [stage])[..|stages|] == stages;
  }

  lemma AddStageTraces(q: Plan, t: Table, link: Link, next: Iter, indexed: bool, tables: seq<Table>, filters: seq<Expr>)
    requires AddStage(q, link, next, indexed).Success? && Choose(q.iter, t) == Chain(link, next)
    requires Offers(q.iter, StageTables(q.stages)) && Traced(q.stages, tables, filters)
    requires forall f :: f in q.filters ==> f in filters
    requires q.iter == CommitsIter ==> t != Commits
    requires q.iter == RefCommitsIter && t == CommitFiles ==> Commits !in tables
    ensures var r := AddStage(q, link, next, indexed).value;
            && Offers(r.iter, StageTables(r.stages)) && Traced(r.stages, tables, filters)
            && r.used == q.used && r.iter == next
            && forall f :: f in r.filters ==> f in filters
  {
    var stage := AddStage(q, link, next, indexed).value.stages[|q.stages|];
    NewStageFilters(q, link, next, indexed, filters);
    ChosenSource(q.iter, t, StageTables(q.stages));
    StageTablesExtend(q.stages, stage);
    NewStageTraced(q, t, link, next, indexed, tables, filters);
    ExtendTrace(q.stages, stage, tables, filters);
  }

  lemma NewStageTraced(q: Plan, t: Table, link: Link, next: Iter, indexed: bool, tables: seq<Table>, filters: seq<Expr>)
    requires AddStage(q, link, next, indexed).Success? && Choose(q.iter, t) == Chain(link, next)
    requires Offers(q.iter, StageTables(q.stages)) && forall f :: f in q.filters ==> f in filters
    requires q.iter == CommitsIter ==> t != Commits
    requires q.iter == RefCommitsIter && t == CommitFiles ==> Commits !in tables
    ensures |AddStage(q, link, next, indexed).value.stages| > |q.stages|
    ensures StageTraced(AddStage(q, link, next, indexed).value.stages[|q.stages|], StageTables(q.stages), tables, filters)
  {
    NewStageFilters(q, link, next, indexed, filters);
    if link == Joined(References, RefCommits) {
      NewStageNarrow(q, link, next, indexed, filters);
    }
    ChosenSource(q.iter, t, StageTables(q.stages));
    LinkOfTable(q.iter, t);
  }

  // Only commits are chained to the commits of references, and only commit_files to those of commits.
  lemma LinkOfTable(iter: Iter, t: Table)
    requires Choose(iter, t).Chain?
    ensures var link := Choose(iter, t).link;
            && (link.Joined? && link.left == RefCommits && iter == CommitsIter ==> t == Commits)
            && (link == Joined(Commits, CommitFiles) ==> t == CommitFiles)
  {}

  lemma ExtendTrace(stages: seq<Stage>, stage: Stage, tables: seq<Table>, filters: seq<Expr>)
    requires Traced(stages, tables, filters) && StageTraced(stage, StageTables(stages), tables, filters)
    ensures Traced(stages + [stage], tables, filters)
  {
    StageTablesExtend(stages, stage);
    assert stages[..|stages|] == stages;
  }

  lemma UnsquashedTraces(p: Plan, t: Table, indexed: bool, tables: seq<Table>, filters: seq<Expr>)
    requires PlanTraced(p, tables, filters) && Choose(p.iter, t).Unsquashable?
    requires p.iter == RefCommitsIter ==> t != Commits
    ensures AddTable(p, t, indexed).Success? && PlanTraced(AddTable(p, t, indexed).value, tables, filters)
    ensures AddTable(p, t, indexed).value.used == p.used + {t} && AddTable(p, t, indexed).value.iter == p.iter
  {
    MatchingSubset(p.filters, p.used + {t});
  }

  lemma ChainedTraces(p: Plan, t: Table, indexed: bool, tables: seq<Table>, filters: seq<Expr>)
    requires AddTable(p, t, indexed).Success? && PlanTraced(p, tables, filters) && Choose(p.iter, t).Chain?
    requires p.iter == CommitsIter ==> t != Commits
    requires p.iter == RefCommitsIter && t == CommitFiles ==> Commits !in tables
    requires t == RefCommits ==> Commits !in p.used
    ensures PlanTraced(AddTable(p, t, indexed).value, tables, filters)
    ensures AddTable(p, t, indexed).value.used == p.used + {t}
    ensures AddTable(p, t, indexed).value.iter == Choose(p.iter, t).next
  {
    var q := p.(used := p.used + {t});
    var link, next := Choose(p.iter, t).link, Choose(p.iter, t).next;
    ChainedIter(p.iter, t);
    assert AddTable(p, t, indexed) == AddStage(q, link, next, indexed);
    AddStageTraces(q, t, link, next, indexed, tables, filters);
  }

  // Adding the next table of the hierarchy keeps the trace.
  lemma AddTableTraces(p: Plan, t: Table, indexed: bool, tables: seq<Table>, filters: seq<Expr>)
    requires AddTable(p, t, indexed).Success? && PlanTraced(p, tables, filters)
    requires forall u :: u in p.used <==> u in tables && Rank(u) < Rank(t)
    requires p.iter == CommitsIter ==> Commits in p.used
    ensures PlanTraced(AddTable(p, t, indexed).value, tables, filters)
    ensures AddTable(p, t, indexed).value.used == p.used + {t}
    ensures AddTable(p, t, indexed).value.iter == CommitsIter ==> Commits in p.used + {t}
  {
    LaterThanCommits(p.used, t, tables);
    if Choose(p.iter, t).Unsquashable? {
      UnsquashedTraces(p, t, indexed, tables, filters);
    } else {
      ChainedTraces(p, t, indexed, tables, filters);
      ChainedIter(p.iter, t);
    }
  }

  lemma LaterThanCommits(used: set<Table>, t: Table, tables: seq<Table>)
    requires forall u :: u in used <==> u in tables && Rank(u) < Rank(t)
    ensures Commits in used ==> t != Commits && t != RefCommits
    ensures t == CommitFiles ==> (Commits in used <==> Commits in tables)
  {}

  lemma ChainedIter(iter: Iter, t: Table)
    requires Choose(iter, t).Chain?
    ensures Choose(iter, t).next == CommitsIter ==> t == Commits
    ensures Choose(iter, t).next == RefCommitsIter ==> t == RefCommits
  {}

  ghost predicate InHierarchy(ts: seq<Table>, tables: seq<Table>) {
    Rising(ts) && forall t :: t in ts <==> t in tables
  }

  // The tables before position n are those that come earlier in the hierarchy.
  lemma EarlierTables(ts: seq<Table>, tables: seq<Table>, n: nat)
    requires InHierarchy(ts, tables) && n < |ts|
    ensures forall u :: u in ts[..n] <==> u in tables && Rank(u) < Rank(ts[n])
  {
    forall u ensures u in ts[..n] <==> u in tables && Rank(u) < Rank(ts[n]) {
      if u in ts[..n] {
        var j :| 0 <= j < n && ts[j] == u;
      }
      if u in tables && Rank(u) < Rank(ts[n]) {
        var j :| 0 <= j < |ts| && ts[j] == u;
        assert j < n;
        assert ts[..n][j] == u;
      }
    }
  }

  lemma AddTablesLast(p: Plan, ts: seq<Table>, indexed: bool, n: nat)
    requires n < |ts| && AddTables(p, ts[..n + 1], indexed).Success?
    ensures AddTables(p, ts[..n], indexed).Success?
    ensures AddTables(p, ts[..n + 1], indexed) == AddTable(AddTables(p, ts[..n], indexed).value, ts[n], indexed)
  {
    assert ts[..n + 1][..n] == ts[..n];
  }

  ghost predicate TracedAfter(p: Plan, done: seq<Table>, tables: seq<Table>, filters: seq<Expr>) {
    && PlanTraced(p, tables, filters)
    && (p.iter == CommitsIter ==> Commits in p.used)
    && (forall u :: u in p.used <==> u in done)
  }

  lemma OneMoreUsed(used: set<Table>, ts: seq<Table>, n: nat)
    requires n < |ts| && forall u :: u in used <==> u in ts[..n]
    ensures forall u :: u in used + {ts[n]} <==> u in ts[..n + 1]
  {
    assert ts[..n + 1] == ts[..n] + [ts[n]];
  }

  lemma TraceStep(p: Plan, ts: seq<Table>, tables: seq<Table>, filters: seq<Expr>, indexed: bool, n: nat)
    requires InHierarchy(ts, tables) && n < |ts| && TracedAfter(p, ts[..n], tables, filters)
    requires AddTable(p, ts[n], indexed).Success?
    ensures TracedAfter(AddTable(p, ts[n], indexed).value, ts[..n + 1], tables, filters)
  {
    EarlierTables(ts, tables, n);
    AddTableTraces(p, ts[n], indexed, tables, filters);
    OneMoreUsed(p.used, ts, n);
  }

  lemma {:induction false} TablesTrace(ts: seq<Table>, tables: seq<Table>, filters: seq<Expr>, indexed: bool, n: nat)
    requires InHierarchy(ts, tables)
    requires n <= |ts| && AddTables(EmptyPlan(filters), ts[..n], indexed).Success?
    ensures TracedAfter(AddTables(EmptyPlan(filters), ts[..n], indexed).value, ts[..n], tables, filters)
    decreases n
  {
    if n > 0 {
      AddTablesLast(EmptyPlan(filters), ts, indexed, n - 1);
      TablesTrace(ts, tables, filters, indexed, n - 1);
      TraceStep(AddTables(EmptyPlan(filters), ts[..n - 1], indexed).value, ts, tables, filters, indexed, n - 1);
    }
  }

  lemma SquashTraces(tables: seq<Table>, filters: seq<Expr>, indexed: bool)
    requires Squash(tables, filters, indexed).Success?
    ensures Traced(Squash(tables, filters, indexed).value.plan.stages, tables, filters)
  {
    var ts := Ordered(tables);
    OrderedRises(tables);
    assert ts[..|ts|] == ts;
    TablesTrace(ts, tables, filters, indexed, |ts|);
  }
}
