// The stages of a plan over refs, ref_commits, commits, commit_files and files make exactly the rows
// their joins ask for, with filters moved to the references as well.

module ExactChains {
  import opened Objects
  import opened Expressions
  import opened SquashJoins
  import opened FilterConservation
  import opened Relations
  import opened Layout
  import opened SquashMeaning
  import opened PlanTrace
  import opened Tables
  import opened JoinFacts
  import opened ProductRows
  import opened ChainStages
  import opened StageExactness
  import CommitWalk

  // -------------------------------------------------------------------------
  // The generators of a plan
  // -------------------------------------------------------------------------

  function Gens(repo: Repository, readContent: bool, stages: seq<Stage>): (gens: seq<Generator>)
    ensures |gens| == |stages|
  {
    if stages == [] then []
    else
      var n := |stages| - 1;
      var schema := Concat(StageTables(stages[..n]));
      Gens(repo, readContent, stages[..n]) + [row => MakeRows(repo, readContent, stages[n], schema, row)]
  }

  function Joins(stages: seq<Stage>): (joins: seq<seq<Expr>>)
    ensures |joins| == |stages|
  {
    if stages == [] then []
    else
      var n := |stages| - 1;
      Joins(stages[..n]) + [JoinsOf(stages[n], Concat(StageTables(stages[..n])))]
  }

  // -------------------------------------------------------------------------
  // References filtered early
  // -------------------------------------------------------------------------

  // The filters moved to the references say of a reference what they say of its rows.
  lemma MovedFiltersAgree(repo: Repository, moved: seq<Expr>, r: Reference, row: Row)
    requires forall f :: f in moved ==> Only(f, {RefCommits}) && OnlyColumns(f, REF_COLUMNS)
    requires Transfer(moved).Some? && r.HashRef? && row in HistoryOf(repo, r.name, r.hash)
    ensures Passes(Transfer(moved).value, RefRow(repo, r)) <==> AllTrue(moved, SchemaOf(RefCommits), row)
  {
    if moved != [] {
      var schema, e := SchemaOf(RefCommits), JoinAnd(moved).value;
      JoinAndMeans(moved, schema, row);
      HistoryOfHas(repo, r.name, r.hash, row);
      forall c | c in Mentions(e) ensures SameValue(References, RefRow(repo, r), schema, row, c) {
        MentionsOfMoved(moved, c);
        RefColumnsAgree(repo, r, row, c);
      }
      MovedFilterIsFaithful(e, References, RefRow(repo, r), schema, row);
    }
  }

  lemma {:induction false} MentionsOfMoved(moved: seq<Expr>, c: Col)
    requires forall f :: f in moved ==> Only(f, {RefCommits}) && OnlyColumns(f, REF_COLUMNS)
    requires c in MentionsAny(moved)
    ensures c.table == RefCommits && c.name in REF_COLUMNS
  {
    if c in Mentions(moved[0]) {
      assert Only(moved[0], {RefCommits}) && OnlyColumns(moved[0], REF_COLUMNS);
    } else {
      MentionsOfMoved(moved[1..], c);
    }
  }

  lemma RefColumnsAgree(repo: Repository, r: Reference, row: Row, c: Col)
    requires r.HashRef? && |row| == 4 && row[0] == Text(repo.id) && row[2] == Text(r.name)
    requires c.table == RefCommits && c.name in REF_COLUMNS
    ensures SameValue(References, RefRow(repo, r), SchemaOf(RefCommits), row, c)
  {
    var refs := SchemaOf(References);
    assert refs[0].name == RepositoryId && refs[1].name == RefName;
    assert refs[1..][0].name == RefName;
    ColumnAt(RefCommits, 0);
    ColumnAt(RefCommits, 2);
  }

  lemma {:induction false} KeepHistory(repo: Repository, moved: seq<Expr>, r: Reference, rows: seq<Row>)
    requires forall f :: f in moved ==> Only(f, {RefCommits}) && OnlyColumns(f, REF_COLUMNS)
    requires Transfer(moved).Some? && r.HashRef? && forall row :: row in rows ==> row in HistoryOf(repo, r.name, r.hash)
    ensures Keep(moved, SchemaOf(RefCommits), rows)
            == if Passes(Transfer(moved).value, RefRow(repo, r)) then rows else []
  {
    if rows != [] {
      assert rows[0] in rows;
      MovedFiltersAgree(repo, moved, r, rows[0]);
      KeepHistory(repo, moved, r, rows[1..]);
    }
  }

  // Filtering the references early is filtering the table of ref_commits.
  lemma {:induction false} EarlyFilteringIsSound(repo: Repository, moved: seq<Expr>, refs: seq<Reference>)
    requires forall f :: f in moved ==> Only(f, {RefCommits}) && OnlyColumns(f, REF_COLUMNS)
    requires Transfer(moved).Some? && HashRefsOnly(refs)
    ensures RefCommitRowsOf(repo, PassingRefs(repo, Transfer(moved).value, refs))
            == Keep(moved, SchemaOf(RefCommits), RefCommitRowsOf(repo, refs))
  {
    if refs != [] {
      var r := refs[0];
      var own := HistoryOf(repo, r.name, r.hash);
      EarlyFilteringIsSound(repo, moved, refs[1..]);
      KeepHistory(repo, moved, r, own);
      KeepAppend(moved, SchemaOf(RefCommits), own, RefCommitRowsOf(repo, refs[1..]));
      var rest := PassingRefs(repo, Transfer(moved).value, refs[1..]);
      if Passes(Transfer(moved).value, RefRow(repo, r)) {
        assert ([r] + rest)[1..] == rest;
      } else {
        assert [] + rest == rest;
      }
    }
  }

  // -------------------------------------------------------------------------
  // Every stage is exact
  // -------------------------------------------------------------------------

  // What the query has to ask for, in one equality or in several, so that the stage may be chained.
  ghost predicate Asks(filters: seq<Expr>, stage: Stage, schema: Schema) {
    && (forall k :: 0 <= k < |Asked(stage.link, schema)| ==>
          Entails(filters, Asked(stage.link, schema)[k].0, Asked(stage.link, schema)[k].1))
    && (stage.link == Joined(References, RefCommits) && stage.narrow ==>
          Entails(filters, Col(References, CommitHash), Col(RefCommits, CommitHash)))
  }

  // The equality of hashes alone, which the rule also takes for a join of refs with ref_commits, is
  // enough where no other reference lists the commit of one.
  ghost predicate AsksHash(repo: Repository, filters: seq<Expr>, link: Link) {
    && link == Joined(References, RefCommits) && Solitary(repo)
    && Entails(filters, Col(References, CommitHash), Col(RefCommits, CommitHash))
  }

  // The iterator over head commits is meant for references to commits. Tags matter only to a query that
  // compares the hash of a reference with that of ref_commits, which is the equality the rule drops.
  ghost predicate HeadsFit(repo: Repository, stage: Stage, filters: seq<Expr>) {
    stage.link == Joined(References, RefCommits) && HasEq(filters, Col(References, CommitHash), Col(RefCommits, CommitHash))
    ==> Untagged(repo)
  }

  ghost predicate StageReady(repo: Repository, stage: Stage, before: seq<Table>, filters: seq<Expr>) {
    && Modelled(stage.link) && Fits(repo, stage) && HeadsFit(repo, stage, filters)
    && (Asks(filters, stage, Concat(before)) || AsksHash(repo, filters, stage.link))
  }

  ghost predicate Ready(repo: Repository, stages: seq<Stage>, filters: seq<Expr>) {
    forall k :: 0 <= k < |stages| ==> StageReady(repo, stages[k], StageTables(stages[..k]), filters)
  }

  ghost predicate MovedIsTraced(stage: Stage) {
    && Transfer(stage.moved) == Some(stage.movedFilter)
    && forall f :: f in stage.moved ==> Only(f, {RefCommits}) && OnlyColumns(f, REF_COLUMNS)
  }

  lemma ExactByRows(repo: Repository, readContent: bool, db: Db, before: seq<Table>, stage: Stage, row: Row,
                    joins: seq<Expr>, rows: seq<Row>)
    requires JoinsOf(stage, Concat(before)) == joins && MakeRows(repo, readContent, stage, Concat(before), row) == rows
    requires Pairs(row, rows)
             == Keep(joins, Concat(before) + SchemaOf(Added(stage.link)), Pairs(row, db(Added(stage.link))))
    ensures ExactStage(repo, readContent, db, before, stage, row)
  {}

  lemma MovedRows(repo: Repository, readContent: bool, stage: Stage, schema: Schema, row: Row)
    requires stage.link == Alone(RefCommits)
    ensures MakeRows(repo, readContent, stage, schema, row)
            == RefCommitRowsOf(repo, PassingRefs(repo, stage.movedFilter, RefList(repo)))
    ensures JoinsOf(stage, schema) == stage.moved
  {}

  lemma MovedStage(repo: Repository, readContent: bool, db: Db, stage: Stage)
    requires db(RefCommits) == RefCommitRows(repo) && stage.link == Alone(RefCommits) && MovedIsTraced(stage)
    ensures ExactStage(repo, readContent, db, [], stage, [])
  {
    var rows := RefCommitRowsOf(repo, PassingRefs(repo, stage.movedFilter, RefList(repo)));
    MovedRows(repo, readContent, stage, [], []);
    EarlyFilteringIsSound(repo, stage.moved, RefList(repo));
    PairsUnit(rows);
    PairsUnit(RefCommitRows(repo));
    assert Concat([]) + SchemaOf(RefCommits) == SchemaOf(RefCommits);
    ExactByRows(repo, readContent, db, [], stage, [], stage.moved, rows);
  }

  predicate Whole(link: Link) {
    link in {Alone(Repositories), Alone(References), Joined(Repositories, References), Joined(Repositories, RefCommits)}
  }

  lemma NoJoins(stage: Stage, schema: Schema)
    requires Whole(stage.link)
    ensures JoinsOf(stage, schema) == []
  {}

  lemma WholeRows(repo: Repository, readContent: bool, db: Db, stage: Stage, schema: Schema, row: Row)
    requires Whole(stage.link)
    requires db(Repositories) == [RepositoryRow(repo)] && db(References) == RefRows(repo)
    requires db(RefCommits) == RefCommitRows(repo)
    ensures MakeRows(repo, readContent, stage, schema, row) == db(Added(stage.link))
  {}

  lemma WholeStage(repo: Repository, readContent: bool, db: Db, before: seq<Table>, stage: Stage, row: Row)
    requires Plain(db, repo, readContent) && Whole(stage.link)
    ensures ExactStage(repo, readContent, db, before, stage, row)
  {
    var t := Added(stage.link);
    NoJoins(stage, Concat(before));
    WholeRows(repo, readContent, db, stage, Concat(before), row);
    KeepAll(Concat(before) + SchemaOf(t), Pairs(row, db(t)));
    ExactByRows(repo, readContent, db, before, stage, row, [], db(t));
  }

  lemma ReadyStageIsExact(repo: Repository, readContent: bool, db: Db, before: seq<Table>, stage: Stage, row: Row,
                          tables: seq<Table>, filters: seq<Expr>)
    requires Wellformed(repo) && Arrives(repo, readContent, db, before, Added(stage.link), row)
    requires StageReady(repo, stage, before, filters) && StageTraced(stage, before, tables, filters)
    ensures ExactStage(repo, readContent, db, before, stage, row)
  {
    match stage.link
    case Joined(References, RefCommits) => RefCommitsStage(repo, readContent, db, before, stage, row);
    case Joined(References, Commits) => CommitsOfRefsStage(repo, readContent, db, before, stage, row);
    case Joined(RefCommits, Commits) => CommitsOfRefCommitsStage(repo, readContent, db, before, stage, row);
    case Joined(References, CommitFiles) => FilesOfRefsStage(repo, readContent, db, before, stage, row);
    case Joined(Commits, CommitFiles) => FilesOfCommitsStage(repo, readContent, db, before, stage, row);
    case Joined(CommitFiles, Files) => FilesStage(repo, readContent, db, before, stage, row);
    case Alone(RefCommits) =>
      assert row == [];
      MovedStage(repo, readContent, db, stage);
    case _ => WholeStage(repo, readContent, db, before, stage, row);
  }

  // -------------------------------------------------------------------------
  // The chain is exact
  // -------------------------------------------------------------------------

  // Each equality is between a column of the rows before and one of the table chained.
  ghost predicate Spans(pairs: seq<(Col, Col)>, schema: Schema, more: Schema) {
    forall k :: 0 <= k < |pairs| ==> pairs[k].0 in schema && pairs[k].1 in more
  }

  lemma {:induction false} SamesHave(pairs: seq<(Col, Col)>, f: Expr) returns (k: nat)
    requires f in Sames(pairs)
    ensures k < |pairs| && f == Same(pairs[k].0, pairs[k].1)
  {
    if f == Same(pairs[0].0, pairs[0].1) {
      k := 0;
    } else {
      k := SamesHave(pairs[1..], f);
      k := k + 1;
    }
  }

  lemma {:induction false} SamesAt(pairs: seq<(Col, Col)>, k: nat)
    requires k < |pairs|
    ensures Same(pairs[k].0, pairs[k].1) in Sames(pairs)
  {
    if k > 0 {
      SamesAt(pairs[1..], k - 1);
    }
  }

  lemma SamesAreOver(pairs: seq<(Col, Col)>, schema: Schema, more: Schema)
    requires Spans(pairs, schema, more)
    ensures Over(Sames(pairs), schema + more)
  {
    forall f, c | f in Sames(pairs) && c in Mentions(f) ensures c in schema + more {
      var k := SamesHave(pairs, f);
      SameMentions(pairs[k].0, pairs[k].1);
    }
  }

  lemma ColumnIn(t: Table, name: Column)
    ensures Col(t, name) in SchemaOf(t) <==> name in Columns(t)
  {
    if name in Columns(t) {
      var i :| 0 <= i < |Columns(t)| && Columns(t)[i] == name;
      assert SchemaOf(t)[i] == Col(t, name);
    }
  }

  // Two tables with a column of the same name.
  lemma Share(before: seq<Table>, t: Table, u: Table, name: Column)
    requires t in before && name in Columns(t) && name in Columns(u)
    ensures Col(t, name) in Concat(before) && Col(u, name) in SchemaOf(u)
  {
    ConcatHas(before, Col(t, name));
    ColumnIn(u, name);
  }

  lemma SpansOne(pairs: seq<(Col, Col)>, before: seq<Table>, t: Table, u: Table, name: Column)
    requires t in before && name in Columns(t) && name in Columns(u)
    requires pairs == [(Col(t, name), Col(u, name))]
    ensures Spans(pairs, Concat(before), SchemaOf(u))
  {
    Share(before, t, u, name);
  }

  lemma FileSpans(pairs: seq<(Col, Col)>, before: seq<Table>)
    requires CommitFiles in before && pairs == Asked(Joined(CommitFiles, Files), Concat(before))
    ensures Spans(pairs, Concat(before), SchemaOf(Files))
  {
    Share(before, CommitFiles, Files, TreeHash);
    Share(before, CommitFiles, Files, FilePath);
    Share(before, CommitFiles, Files, BlobHash);
  }

  lemma AskedSpans(stage: Stage, before: seq<Table>, tables: seq<Table>, filters: seq<Expr>)
    requires Modelled(stage.link) && StageTraced(stage, before, tables, filters)
    ensures Spans(Asked(stage.link, Concat(before)), Concat(before), SchemaOf(Added(stage.link)))
  {
    var pairs := Asked(stage.link, Concat(before));
    match stage.link
    case Joined(References, RefCommits) => SpansOne(pairs, before, References, RefCommits, RefName);
    case Joined(References, Commits) => SpansOne(pairs, before, References, Commits, CommitHash);
    case Joined(RefCommits, Commits) => SpansOne(pairs, before, RefCommits, Commits, CommitHash);
    case Joined(References, CommitFiles) => SpansOne(pairs, before, References, CommitFiles, CommitHash);
    case Joined(Commits, CommitFiles) =>
      SourceColumn(before);
      SpansOne(pairs, before, CommitSource(Concat(before)).table, CommitFiles, CommitHash);
    case Joined(CommitFiles, Files) => FileSpans(pairs, before);
    case _ =>
  }

  lemma JoinsAreOver(stage: Stage, before: seq<Table>, tables: seq<Table>, filters: seq<Expr>)
    requires Modelled(stage.link) && StageTraced(stage, before, tables, filters)
    ensures Over(JoinsOf(stage, Concat(before)), Concat(before) + SchemaOf(Added(stage.link)))
  {
    var schema, more := Concat(before), SchemaOf(Added(stage.link));
    if stage.link == Alone(RefCommits) {
      forall f, c | f in stage.moved && c in Mentions(f) ensures c in schema + more {
        assert Only(f, {RefCommits}) && OnlyColumns(f, REF_COLUMNS);
        ColumnIn(RefCommits, c.name);
      }
    } else {
      AskedSpans(stage, before, tables, filters);
      SamesAreOver(Asked(stage.link, schema), schema, more);
      ColumnIn(RefCommits, HistoryIndex);
      HoldingMeans(Col(RefCommits, HistoryIndex), Number(0), [], []);
    }
  }

  lemma GensFront(repo: Repository, readContent: bool, stages: seq<Stage>)
    requires stages != []
    ensures var n := |stages| - 1;
            && Gens(repo, readContent, stages)[..n] == Gens(repo, readContent, stages[..n])
            && Joins(stages)[..n] == Joins(stages[..n])
            && Joins(stages)[n] == JoinsOf(stages[n], Concat(StageTables(stages[..n])))
  {}

  lemma LastGenIs(repo: Repository, readContent: bool, db: Db, stages: seq<Stage>, row: Row)
    requires stages != []
    requires ExactStage(repo, readContent, db, StageTables(stages[..|stages| - 1]), stages[|stages| - 1], row)
    ensures var n := |stages| - 1;
            var before, t := StageTables(stages[..n]), Added(stages[n].link);
            ExactOn(Gens(repo, readContent, stages)[n], Joins(stages)[n], Concat(before), row, SchemaOf(t), db(t))
  {}

  lemma {:induction false} ChainIsExact(repo: Repository, readContent: bool, db: Db, stages: seq<Stage>,
                                        tables: seq<Table>, filters: seq<Expr>)
    requires Wellformed(repo) && Plain(db, repo, readContent) && Distinct(StageTables(stages))
    requires Ready(repo, stages, filters) && Traced(stages, tables, filters)
    ensures Exact(stages, Gens(repo, readContent, stages), Joins(stages), db)
  {
    if stages != [] {
      var n := |stages| - 1;
      var stage, before := stages[n], StageTables(stages[..n]);
      ReadyFront(repo, stages, filters);
      TracedFront(stages, tables, filters);
      DistinctFront(before, Added(stage.link));
      ChainIsExact(repo, readContent, db, stages[..n], tables, filters);
      JoinsAreOver(stage, before, tables, filters);
      GensFront(repo, readContent, stages);
      forall row | row in Product(db, before)
        ensures ExactOn(Gens(repo, readContent, stages)[n], Joins(stages)[n], Concat(before), row,
                        SchemaOf(Added(stage.link)), db(Added(stage.link)))
      {
        ReadyStageIsExact(repo, readContent, db, before, stage, row, tables, filters);
        LastGenIs(repo, readContent, db, stages, row);
      }
    }
  }

  lemma DistinctFront(ts: seq<Table>, t: Table)
    requires Distinct(ts + [t])
    ensures Distinct(ts) && t !in ts
  {
    var all := ts + [t];
    assert all[|ts|] == t;
    forall i | 0 <= i < |ts| ensures ts[i] != t {
      assert all[i] == ts[i];
    }
    forall i, j | 0 <= i < j < |ts| ensures ts[i] != ts[j] {
      assert all[i] == ts[i] && all[j] == ts[j];
    }
  }

  lemma ReadyFront(repo: Repository, stages: seq<Stage>, filters: seq<Expr>)
    requires stages != [] && Ready(repo, stages, filters)
    ensures var n := |stages| - 1;
            Ready(repo, stages[..n], filters) && StageReady(repo, stages[n], StageTables(stages[..n]), filters)
  {
    var n := |stages| - 1;
    forall k | 0 <= k < n ensures StageReady(repo, stages[..n][k], StageTables(stages[..n][..k]), filters) {
      assert stages[..n][..k] == stages[..k];
      assert StageReady(repo, stages[k], StageTables(stages[..k]), filters);
    }
    assert StageReady(repo, stages[n], StageTables(stages[..n]), filters);
  }

  lemma TracedFront(stages: seq<Stage>, tables: seq<Table>, filters: seq<Expr>)
    requires stages != [] && Traced(stages, tables, filters)
    ensures var n := |stages| - 1;
            Traced(stages[..n], tables, filters) && StageTraced(stages[n], StageTables(stages[..n]), tables, filters)
  {
    var n := |stages| - 1;
    forall k | 0 <= k < n ensures StageTraced(stages[..n][k], StageTables(stages[..n][..k]), tables, filters) {
      assert stages[..n][..k] == stages[..k];
      assert StageTraced(stages[k], StageTables(stages[..k]), tables, filters);
    }
    assert StageTraced(stages[n], StageTables(stages[..n]), tables, filters);
  }
}
