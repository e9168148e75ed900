// Building the iterators of a plan over refs, ref_commits and commits, and draining them.

module SquashedRuns {
  import opened Objects
  import opened Expressions
  import opened SquashJoins
  import opened Relations
  import opened SquashMeaning
  import opened Layout
  import opened Tables
  import opened ChainStages
  import opened ChainEvents
  import opened ChainRuns
  import opened ChainIterators
  import opened IteratorPlans
  import opened ExactChains
  import opened RefHistoryQueries
  import opened QueryContents
  import opened SquashRule

  // Every row up to the end or the first git error.
  method Drain(it: CommitsIter) returns (rows: seq<Row>, failed: bool)
    requires it.Valid()
    modifies it.Repr
    ensures failed <==> !NoErrors(old(it.Pending))
    ensures !failed ==> rows == RowsOfCommits(old(it.Pending))
  {
    rows, failed := [], false;
    ghost var all, done := it.Pending, [];
    while true
      invariant it.Valid() && fresh(it.Repr - old(it.Repr)) && all == done + it.Pending
      invariant NoErrors(done) && rows == RowsOfCommits(done)
      decreases |it.Pending|
    {
      ghost var before := it.Pending;
      var s := it.Advance();
      if s == Finished {
        assert done + [] == done;
        return;
      }
      if s == Errored {
        assert CommitError in before && CommitError in all;
        return rows, true;
      }
      ghost var e := AtCommit(it.row, it.commit);
      OneCommitRow(e);
      RowsOfCommitsAppend(done, [e]);
      Associative(done, [e], it.Pending);
      done := done + [e];
      rows := rows + [it.row];
    }
  }

  // The plan of a query over refs, ref_commits and commits.
  ghost predicate IsHistoryPlan(stages: seq<Stage>) {
    LinksOf(stages) == HISTORY_LINKS
  }

  lemma HistoryPlanRuns(repo: Repository, skip: bool, readContent: bool, stages: seq<Stage>)
    requires IsHistoryPlan(stages)
    ensures var refs := RefEvents(repo, stages[0].filter, false, HeadAndRefs(repo));
            var refCommits := if stages[1].narrow then HeadEvents(repo, skip, stages[1].filter, WithRefCommit(repo), refs)
                              else RefCommitEvents(repo, skip, stages[1].filter, refs);
            RunIters(repo, skip, readContent, stages) == OfCommits(CommitsEvents(repo, stages[2].filter, refCommits))
  {
    assert |stages| == 3;
    assert stages[0].link == Alone(References) && stages[1].link == Joined(References, RefCommits);
    assert stages[2].link == Joined(RefCommits, Commits);
    RunThree(repo, skip, readContent, stages);
  }

  lemma RunThree(repo: Repository, skip: bool, readContent: bool, stages: seq<Stage>)
    requires |stages| == 3
    ensures var one := RunIter(repo, skip, readContent, stages[0], Nothing);
            var two := RunIter(repo, skip, readContent, stages[1], one);
            RunIters(repo, skip, readContent, stages) == RunIter(repo, skip, readContent, stages[2], two)
  {
    var two, one := stages[..2], stages[..1];
    assert two[..1] == one && one[..0] == [];
    assert RunIters(repo, skip, readContent, one) == RunIter(repo, skip, readContent, stages[0], Nothing);
    assert RunIters(repo, skip, readContent, two)
           == RunIter(repo, skip, readContent, stages[1], RunIters(repo, skip, readContent, one));
  }

  method BuildRefCommits(refs: RefIter, skip: bool, filters: Option<Expr>, narrow: bool) returns (it: CommitsIter)
    ensures it.Valid() && fresh(it.Repr - {refs}) && it.repo == refs.repo
    ensures it.Pending == if narrow then HeadEvents(refs.repo, skip, filters, WithRefCommit(refs.repo), refs.Pending())
                          else RefCommitEvents(refs.repo, skip, filters, refs.Pending())
  {
    if narrow {
      var heads := new RefHeadRefCommitsIter(refs, skip, filters);
      it := new CommitsIter.OfHeads(heads);
    } else {
      var full := new RefRefCommitsIter(refs, skip, filters);
      it := new CommitsIter.OfFull(full);
    }
  }

  method BuildHistoryChain(repo: Repository, skip: bool, stages: seq<Stage>) returns (it: CommitsIter)
    requires IsHistoryPlan(stages)
    ensures it.Valid() && fresh(it.Repr)
    ensures RunIters(repo, skip, false, stages) == OfCommits(it.Pending)
  {
    HistoryPlanRuns(repo, skip, false, stages);
    var first, second, third := stages[0], stages[1], stages[2];
    var refs := new RefIter(repo, first.filter, false);
    var refCommits := BuildRefCommits(refs, skip, second.filter, second.narrow);
    var commits := new RefCommitCommitsIter(refCommits, third.filter);
    it := new CommitsIter.OfCommits(commits);
  }

  lemma HistoryStageTables(stages: seq<Stage>)
    requires IsHistoryPlan(stages)
    ensures StageTables(stages) == HISTORY_TABLES
  {
    var links := LinksOf(stages);
    AddsAreStageTables(stages);
    assert links[..2][..1] == [Alone(References)] && links[..2][..1][..0] == [];
    assert Adds(links[..2][..1]) == [References];
    assert Adds(links[..2]) == [References] + [RefCommits];
  }

  lemma NotTwice(ts: seq<Table>, us: seq<Table>, t: Table)
    requires Distinct(ts + us) && t in ts
    ensures t !in us
  {
    var i :| 0 <= i < |ts| && ts[i] == t;
    forall j | 0 <= j < |us| ensures us[j] != t {
      assert (ts + us)[i] == t && (ts + us)[|ts| + j] == us[j];
    }
  }

  // A chain with all the tables leaves nothing to join around it.
  lemma NothingAround(p: Plan, tables: seq<Table>)
    requires Covers(p, tables) && AreTables(tables, StageTables(p.stages))
    ensures p.unsquashable == [] && Order(p) == StageTables(p.stages)
  {
    var around := JoinTables(p.unsquashable);
    if p.unsquashable != [] {
      var t := around[|around| - 1];
      assert t in around && t in Order(p);
      NotTwice(around, StageTables(p.stages), t);
    }
  }

  lemma HistoryPlanIs(tables: seq<Table>, filters: seq<Expr>)
    requires AreTables(tables, HISTORY_TABLES) && Squash(tables, filters, false).Success?
    ensures IsHistoryPlan(Squash(tables, filters, false).value.plan.stages)
  {
    InOrder(tables, HISTORY_TABLES);
    HistoryLinks();
    PlanLinks(filters, Ordered(tables), false);
  }

  lemma HistoryOrder(p: Plan, tables: seq<Table>)
    requires AreTables(tables, HISTORY_TABLES) && IsHistoryPlan(p.stages) && Covers(p, tables)
    ensures p.unsquashable == [] && Order(p) == HISTORY_TABLES
  {
    HistoryStageTables(p.stages);
    NothingAround(p, tables);
  }

  lemma HistoryIsFed(repo: Repository, tables: seq<Table>, filters: seq<Expr>)
    requires AreTables(tables, HISTORY_TABLES) && Squash(tables, filters, false).Success?
    ensures WellFed(repo, false, Squash(tables, filters, false).value.plan.stages)
  {
    HistoryPlanIs(tables, filters);
    HistoryIsModelled(Squash(tables, filters, false).value.plan.stages);
    PlanIsFed(repo, false, tables, filters);
  }

  lemma HistoryNode(repo: Repository, db: Db, tables: seq<Table>, filters: seq<Expr>)
    requires Preserved(repo, false, db, tables, filters) && AreTables(tables, HISTORY_TABLES)
    ensures IsHistoryPlan(Squash(tables, filters, false).value.plan.stages)
    ensures WellFed(repo, false, Squash(tables, filters, false).value.plan.stages)
    ensures var p := Squash(tables, filters, false).value.plan;
            p.unsquashable == [] && Order(p) == HISTORY_TABLES
  {
    HistoryPlanIs(tables, filters);
    HistoryIsFed(repo, tables, filters);
    HistoryOrder(Squash(tables, filters, false).value.plan, tables);
  }

  lemma HistoryIsModelled(stages: seq<Stage>)
    requires IsHistoryPlan(stages)
    ensures AllModelled(stages)
  {
    forall stage | stage in stages ensures Modelled(stage.link) {
      var k :| 0 <= k < |stages| && stages[k] == stage;
      assert LinksOf(stages)[k] == stage.link;
    }
  }

  lemma HistoryRunIs(repo: Repository, stages: seq<Stage>, pending: seq<CommitEvent>)
    requires Wellformed(repo) && IsHistoryPlan(stages) && WellFed(repo, false, stages)
    requires RunIters(repo, true, false, stages) == OfCommits(pending)
    ensures NoErrors(pending) && RowsOfCommits(pending) == RunStages(stages, Gens(repo, false, stages))
  {
    HistoryStageTables(stages);
    IteratorsRunPlan(repo, false, stages);
  }

  // A node with nothing around the chain, run over its iterators.
  lemma NodeOfChain(repo: Repository, db: Db, tables: seq<Table>, filters: seq<Expr>, chained: seq<Row>)
    requires Preserved(repo, false, db, tables, filters)
    requires var p := Squash(tables, filters, false).value.plan;
             p.unsquashable == [] && chained == RunStages(p.stages, Gens(repo, false, p.stages))
    ensures var sq := Squash(tables, filters, false).value;
            var order := Order(sq.plan);
            Filtered(sq.filter, PickAll(sq.positions, chained))
            == ArrangeAll(Concat(tables), Concat(order), Keep(filters, Concat(order), Product(db, order)))
  {}

  lemma HistoryRowsAreDescribed(repo: Repository, db: Db, tables: seq<Table>, filters: seq<Expr>, rows: seq<Row>)
    requires Plain(db, repo, false) && AreTables(tables, HISTORY_TABLES)
    requires var order := HISTORY_TABLES;
             rows == ArrangeAll(Concat(tables), Concat(order), Keep(filters, Concat(order), Product(db, order)))
    ensures forall row :: row in rows ==> Described(repo, false, HISTORY_TABLES, Concat(tables), row)
  {
    forall row | row in rows ensures Described(repo, false, HISTORY_TABLES, Concat(tables), row) {
      JoinedRowsAreDescribed(repo, false, db, tables, HISTORY_TABLES, filters, row);
    }
  }

  // From the query to the rows: the rule builds the plan, the iterators of the plan are drained, and
  // the columns and the last filter are applied.
  method RunHistoryQuery(repo: Repository, db: Db, tables: seq<Table>, filters: seq<Expr>) returns (rows: seq<Row>)
    requires Wellformed(repo) && Plain(db, repo, false)
    requires AreTables(tables, HISTORY_TABLES) && Over(filters, Concat(tables))
    requires HistoryAsked(repo, filters)
    ensures var order := HISTORY_TABLES;
            rows == ArrangeAll(Concat(tables), Concat(order), Keep(filters, Concat(order), Product(db, order)))
    ensures forall row :: row in rows ==> Described(repo, false, HISTORY_TABLES, Concat(tables), row)
  {
    HistoryQueriesArePreserved(repo, false, db, tables, filters);
    HistoryNode(repo, db, tables, filters);
    var built := BuildSquashedTable(tables, filters, false);
    var sq := built.value;
    var it := BuildHistoryChain(repo, true, sq.plan.stages);
    HistoryRunIs(repo, sq.plan.stages, it.Pending);
    var chained, failed := Drain(it);
    NodeOfChain(repo, db, tables, filters, chained);
    rows := Filtered(sq.filter, PickAll(sq.positions, chained));
    HistoryRowsAreDescribed(repo, db, tables, filters, rows);
  }

  // The iterator that puts the columns back; None leaves the rows as they are. `rows` are those its
  // child has yet to return.
  class SchemaMapperIter {
    const mappings: Option<seq<nat>>
    var rows: seq<Row>

    constructor (rows: seq<Row>, mappings: Option<seq<nat>>)
      ensures this.rows == rows && this.mappings == mappings
    {
      this.rows, this.mappings := rows, mappings;
    }

    method Next() returns (r: Option<Row>)
      requires mappings.Some? && rows != [] ==> forall k :: 0 <= k < |mappings.value| ==> mappings.value[k] < |rows[0]|
      modifies this
      ensures old(rows) == [] ==> r == None && rows == []
      ensures old(rows) != [] ==>
                rows == old(rows)[1..] && r.Some? && PickAll(mappings, old(rows)) == [r.value] + PickAll(mappings, rows)
    {
      if |rows| == 0 {
        return None;
      }
      var childRow := rows[0];
      assert rows == [childRow] + rows[1..];
      rows := rows[1..];
      assert mappings.Some? ==> PickAll(mappings, old(rows)) == [Pick(mappings.value, childRow)] + PickAll(mappings, rows);
      if mappings.None? {
        return Some(childRow);
      }
      var row := new Value[|mappings.value|];
      for i := 0 to row.Length
        invariant rows == old(rows)[1..]
        invariant forall k :: 0 <= k < i ==> row[k] == Pick(mappings.value, childRow)[k]
      {
        row[i] := childRow[mappings.value[i]];
      }
      r := Some(row[..]);
      assert r.value == Pick(mappings.value, childRow);
    }
  }
}
