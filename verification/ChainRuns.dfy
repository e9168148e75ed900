// Draining the chained iterators is running the stages of the plan over their generators.

module ChainRuns {
  import opened Objects
  import opened Expressions
  import opened SquashJoins
  import opened Relations
  import opened Layout
  import opened Tables
  import opened JoinFacts
  import opened ProductRows
  import opened ChainStages
  import opened StageExactness
  import opened ExactChains
  import opened ChainEvents
  import IndexedCommits

  // -------------------------------------------------------------------------
  // One event makes what the generator makes of its row
  // -------------------------------------------------------------------------

  lemma RefHistoryIsGenerated(repo: Repository, readContent: bool, stage: Stage, schema: Schema, e: RefEvent)
    requires AtRef(schema, e) && stage.link == Joined(References, RefCommits) && !stage.narrow
    ensures RowsOfCommits(RefHistory(repo, true, stage.filter, e))
            == Filtered(stage.filter, Pairs(e.row, MakeRows(repo, readContent, stage, schema, e.row)))
  {
    assert MakeRows(repo, readContent, stage, schema, e.row) == HistoryOf(repo, e.ref.name, e.ref.hash);
    HistoryOfEvent(repo, stage.filter, e);
  }

  lemma HistoryOfEvent(repo: Repository, filter: Option<Expr>, e: RefEvent)
    requires e.ref.HashRef?
    ensures RowsOfCommits(RefHistory(repo, true, filter, e))
            == Filtered(filter, Pairs(e.row, HistoryOf(repo, e.ref.name, e.ref.hash)))
  {
    match Resolve(repo, e.ref.hash)
    case Found(c) =>
      ResolveFindsCommit(repo, e.ref.hash);
      HistoryEventsAreRows(repo, filter, e.row, e.ref.name, IndexedCommits.History(repo, true, c));
    case _ =>
  }

  lemma FilteredOne(filter: Option<Expr>, row: Row, tail: Row)
    ensures Filtered(filter, Pairs(row, [tail])) == if Passes(filter, row + tail) then [row + tail] else []
  {
    assert [tail][1..] == [] && Pairs(row, [tail]) == [row + tail] + Pairs(row, []);
    assert Filtered(filter, [row + tail]) == (if Passes(filter, row + tail) then [row + tail] else []) + Filtered(filter, []);
  }

  lemma OneCommitRow(e: CommitEvent)
    ensures RowsOfCommits([e]) == match e case AtCommit(row, _) => [row] case CommitError => []
  {
    assert [e][1..] == [];
    assert RowsOfCommits([e]) == (match e case AtCommit(row, _) => [row] case CommitError => []) + RowsOfCommits([]);
  }

  // The head of a reference, made into a row by adding the columns of `tail`.
  lemma HeadOfEvent(repo: Repository, filter: Option<Expr>, make: (Row, string, Hash) -> Row, e: RefEvent, tail: Row)
    requires e.ref.HashRef? && Resolve(repo, e.ref.hash).Found?
    requires make(e.row, e.ref.name, Resolve(repo, e.ref.hash).commit) == e.row + tail
    ensures RowsOfCommits(RefHead(repo, true, filter, make, e)) == Filtered(filter, Pairs(e.row, [tail]))
  {
    FilteredOne(filter, e.row, tail);
    OneCommitRow(AtCommit(e.row + tail, Resolve(repo, e.ref.hash).commit));
  }

  lemma RefHeadIsGenerated(repo: Repository, readContent: bool, stage: Stage, schema: Schema, e: RefEvent)
    requires AtRef(schema, e) && stage.link == Joined(References, RefCommits) && stage.narrow
    ensures RowsOfCommits(RefHead(repo, true, stage.filter, WithRefCommit(repo), e))
            == Filtered(stage.filter, Pairs(e.row, MakeRows(repo, readContent, stage, schema, e.row)))
  {
    assert MakeRows(repo, readContent, stage, schema, e.row) == HeadRows(repo, e.ref.name, e.ref.hash);
    if Resolve(repo, e.ref.hash).Found? {
      var c := Resolve(repo, e.ref.hash).commit;
      HeadOfEvent(repo, stage.filter, WithRefCommit(repo), e, RefCommitRow(repo, e.ref.name, c, 0));
    }
  }

  lemma RefCommitIsGenerated(repo: Repository, readContent: bool, stage: Stage, schema: Schema, e: RefEvent)
    requires AtRef(schema, e) && stage.link == Joined(References, Commits)
    ensures RowsOfCommits(RefHead(repo, true, stage.filter, WithCommit(repo, false), e))
            == Filtered(stage.filter, Pairs(e.row, MakeRows(repo, readContent, stage, schema, e.row)))
  {
    assert MakeRows(repo, readContent, stage, schema, e.row) == CommitRowsFor(repo, Resolve(repo, e.ref.hash));
    ResolveFindsCommit(repo, e.ref.hash);
    if Resolve(repo, e.ref.hash).Found? {
      var c := Resolve(repo, e.ref.hash).commit;
      HeadOfEvent(repo, stage.filter, WithCommit(repo, false), e, CommitRow(repo, c));
    }
  }

  lemma CommitIsGenerated(repo: Repository, readContent: bool, stage: Stage, schema: Schema, e: CommitEvent)
    requires e.AtCommit? && KnowsCommit(repo, schema, Col(RefCommits, CommitHash), e)
    requires stage.link == Joined(RefCommits, Commits)
    ensures Pairs(e.row, MakeRows(repo, readContent, stage, schema, e.row)) == [e.row + CommitRow(repo, e.commit)]
  {
    var tail := CommitRow(repo, e.commit);
    assert MakeRows(repo, readContent, stage, schema, e.row) == [tail];
    assert [tail][1..] == [];
    assert Pairs(e.row, [tail]) == [e.row + tail] + Pairs(e.row, []);
  }

  lemma {:induction false} ListEventsAreRows(repo: Repository, filter: Option<Expr>, prefix: Row, c: Hash, files: seq<File>)
    requires IsCommit(repo, c)
    ensures RowsOfFiles(ListEvents(repo, filter, prefix, c, files))
            == Filtered(filter, Pairs(prefix, CommitFileRowsIn(repo, c, files)))
  {
    if files != [] {
      var rest, tail := ListEvents(repo, filter, prefix, c, files[1..]), CommitFileRowsIn(repo, c, files[1..]);
      var row := prefix + CommitFileRow(repo, c, files[0]);
      ListEventsAreRows(repo, filter, prefix, c, files[1..]);
      assert ([CommitFileRow(repo, c, files[0])] + tail)[1..] == tail;
      assert ([row] + Pairs(prefix, tail))[1..] == Pairs(prefix, tail);
      if Passes(filter, row) {
        assert ([AtFile(row, TreeOf(repo, c), files[0])] + rest)[1..] == rest;
      } else {
        assert [] + rest == rest;
      }
    }
  }

  lemma FilesAreGenerated(repo: Repository, readContent: bool, stage: Stage, schema: Schema, e: CommitEvent)
    requires e.AtCommit? && KnowsCommit(repo, schema, CommitSource(schema), e)
    requires stage.link == Joined(Commits, CommitFiles)
    ensures RowsOfFiles(FilesOfEvent(repo, true, stage.filter, e))
            == Filtered(stage.filter, Pairs(e.row, MakeRows(repo, readContent, stage, schema, e.row)))
  {
    assert MakeRows(repo, readContent, stage, schema, e.row) == FilesOfCommit(repo, e.commit);
    ListEventsAreRows(repo, stage.filter, e.row, e.commit, FilesIn(repo, TreeOf(repo, e.commit)));
  }

  lemma FileIsGenerated(repo: Repository, readContent: bool, stage: Stage, schema: Schema, e: FileEvent)
    requires e.AtFile? && KnowsFile(repo, schema, e) && PathsDistinct(FilesIn(repo, e.tree))
    requires stage.link == Joined(CommitFiles, Files)
    ensures Pairs(e.row, MakeRows(repo, readContent, stage, schema, e.row))
            == [e.row + FileRow(repo, e.tree, e.file, readContent)]
  {
    var files, tail := FilesIn(repo, e.tree), FileRow(repo, e.tree, e.file, readContent);
    var k :| 0 <= k < |files| && files[k] == e.file;
    FileNamedIs(repo, e.tree, files, k, readContent);
    assert MakeRows(repo, readContent, stage, schema, e.row) == [tail];
    assert [tail][1..] == [];
    assert Pairs(e.row, [tail]) == [e.row + tail] + Pairs(e.row, []);
  }

  // -------------------------------------------------------------------------
  // A whole run of each iterator
  // -------------------------------------------------------------------------

  ghost predicate Generates(gen: Generator, repo: Repository, readContent: bool, stage: Stage, schema: Schema) {
    forall row :: gen(row) == MakeRows(repo, readContent, stage, schema, row)
  }

  lemma {:induction false} RefsRun(repo: Repository, filter: Option<Expr>, refs: seq<Reference>)
    ensures RowsOfRefs(RefEvents(repo, filter, false, refs)) == Filtered(filter, RefRowsOf(repo, HashRefs(refs)))
  {
    if refs != [] {
      RefsRun(repo, filter, refs[1..]);
      var rest, tail := RefEvents(repo, filter, false, refs[1..]), HashRefs(refs[1..]);
      if refs[0].HashRef? {
        var row := RefRow(repo, refs[0]);
        assert ([refs[0]] + tail)[1..] == tail;
        assert ([row] + RefRowsOf(repo, tail))[1..] == RefRowsOf(repo, tail);
        if Passes(filter, row) {
          assert ([RefEvent(row, refs[0])] + rest)[1..] == rest;
        } else {
          assert [] + rest == rest;
        }
      } else {
        assert [] + tail == tail;
        assert [] + rest == rest;
      }
    }
  }

  lemma {:induction false} RefCommitsRun(repo: Repository, readContent: bool, stage: Stage, schema: Schema,
                                         gen: Generator, es: seq<RefEvent>)
    requires AllAtRef(schema, es) && Generates(gen, repo, readContent, stage, schema)
    requires stage.link == Joined(References, RefCommits) && !stage.narrow
    ensures RowsOfCommits(RefCommitEvents(repo, true, stage.filter, es)) == RunStage(RowsOfRefs(es), gen, stage.filter)
  {
    if es != [] {
      RefHistoryIsGenerated(repo, readContent, stage, schema, es[0]);
      RefCommitsRun(repo, readContent, stage, schema, gen, es[1..]);
      RowsOfCommitsAppend(RefHistory(repo, true, stage.filter, es[0]), RefCommitEvents(repo, true, stage.filter, es[1..]));
    }
  }

  lemma {:induction false} HeadsRun(repo: Repository, readContent: bool, stage: Stage, schema: Schema,
                                    gen: Generator, es: seq<RefEvent>)
    requires AllAtRef(schema, es) && Generates(gen, repo, readContent, stage, schema)
    requires stage.link == Joined(References, RefCommits) && stage.narrow
    ensures RowsOfCommits(HeadEvents(repo, true, stage.filter, WithRefCommit(repo), es))
            == RunStage(RowsOfRefs(es), gen, stage.filter)
  {
    if es != [] {
      RefHeadIsGenerated(repo, readContent, stage, schema, es[0]);
      HeadsRun(repo, readContent, stage, schema, gen, es[1..]);
      RowsOfCommitsAppend(RefHead(repo, true, stage.filter, WithRefCommit(repo), es[0]),
                          HeadEvents(repo, true, stage.filter, WithRefCommit(repo), es[1..]));
    }
  }

  lemma {:induction false} RefHeadCommitsRun(repo: Repository, readContent: bool, stage: Stage, schema: Schema,
                                             gen: Generator, es: seq<RefEvent>)
    requires AllAtRef(schema, es) && Generates(gen, repo, readContent, stage, schema)
    requires stage.link == Joined(References, Commits)
    ensures RowsOfCommits(HeadEvents(repo, true, stage.filter, WithCommit(repo, false), es))
            == RunStage(RowsOfRefs(es), gen, stage.filter)
  {
    if es != [] {
      RefCommitIsGenerated(repo, readContent, stage, schema, es[0]);
      RefHeadCommitsRun(repo, readContent, stage, schema, gen, es[1..]);
      RowsOfCommitsAppend(RefHead(repo, true, stage.filter, WithCommit(repo, false), es[0]),
                          HeadEvents(repo, true, stage.filter, WithCommit(repo, false), es[1..]));
    }
  }

  ghost predicate NoErrors(es: seq<CommitEvent>) {
    forall e :: e in es ==> e.AtCommit?
  }

  lemma {:induction false} CommitsRun(repo: Repository, readContent: bool, stage: Stage, schema: Schema,
                                      gen: Generator, es: seq<CommitEvent>)
    requires AllKnowCommit(repo, schema, Col(RefCommits, CommitHash), es) && NoErrors(es)
    requires Generates(gen, repo, readContent, stage, schema) && stage.link == Joined(RefCommits, Commits)
    ensures RowsOfCommits(CommitsEvents(repo, stage.filter, es)) == RunStage(RowsOfCommits(es), gen, stage.filter)
  {
    if es != [] {
      var e, rest := es[0], CommitsEvents(repo, stage.filter, es[1..]);
      assert e in es;
      var row := e.row + CommitRow(repo, e.commit);
      CommitIsGenerated(repo, readContent, stage, schema, e);
      CommitsRun(repo, readContent, stage, schema, gen, es[1..]);
      FilteredOne(stage.filter, e.row, CommitRow(repo, e.commit));
      var tail := CommitRow(repo, e.commit);
      assert Pairs(e.row, [tail]) == Pairs(e.row, gen(e.row)) by {
        assert [tail][1..] == [];
        assert Pairs(e.row, [tail]) == [e.row + tail] + Pairs(e.row, []);
      }
      RowsOfFirst(e, RowsOfCommits(es[1..]), es);
      if Passes(stage.filter, row) {
        assert ([AtCommit(row, e.commit)] + rest)[1..] == rest;
      } else {
        assert [] + rest == rest;
      }
    }
  }

  lemma RowsOfFirst(e: CommitEvent, rest: seq<Row>, es: seq<CommitEvent>)
    requires es != [] && e == es[0] && e.AtCommit? && rest == RowsOfCommits(es[1..])
    ensures RowsOfCommits(es) != [] && RowsOfCommits(es)[0] == e.row && RowsOfCommits(es)[1..] == rest
  {}

  lemma {:induction false} CommitFilesRun(repo: Repository, readContent: bool, stage: Stage, schema: Schema,
                                          gen: Generator, es: seq<CommitEvent>)
    requires AllKnowCommit(repo, schema, CommitSource(schema), es) && NoErrors(es)
    requires Generates(gen, repo, readContent, stage, schema) && stage.link == Joined(Commits, CommitFiles)
    ensures RowsOfFiles(CommitFileEvents(repo, true, stage.filter, es)) == RunStage(RowsOfCommits(es), gen, stage.filter)
  {
    if es != [] {
      assert es[0] in es;
      FilesAreGenerated(repo, readContent, stage, schema, es[0]);
      CommitFilesRun(repo, readContent, stage, schema, gen, es[1..]);
      RowsOfFirst(es[0], RowsOfCommits(es[1..]), es);
      RowsOfFilesAppend(FilesOfEvent(repo, true, stage.filter, es[0]), CommitFileEvents(repo, true, stage.filter, es[1..]));
    }
  }

  ghost predicate OnlyFiles(es: seq<FileEvent>) {
    forall e :: e in es ==> e.AtFile?
  }

  lemma PathsInTree(repo: Repository, tree: Hash)
    requires DistinctPaths(repo)
    ensures PathsDistinct(FilesIn(repo, tree))
  {}

  lemma {:induction false} FilesRun(repo: Repository, readContent: bool, stage: Stage, schema: Schema,
                                    gen: Generator, es: seq<FileEvent>)
    requires AllKnowFile(repo, schema, es) && OnlyFiles(es) && DistinctPaths(repo)
    requires Generates(gen, repo, readContent, stage, schema) && stage.link == Joined(CommitFiles, Files)
    ensures RowsOfFiles(FilesEvents(repo, readContent, stage.filter, es)) == RunStage(RowsOfFiles(es), gen, stage.filter)
  {
    if es != [] {
      var e, rest := es[0], FilesEvents(repo, readContent, stage.filter, es[1..]);
      assert e in es;
      var tail := FileRow(repo, e.tree, e.file, readContent);
      PathsInTree(repo, e.tree);
      FileIsGenerated(repo, readContent, stage, schema, e);
      FilesRun(repo, readContent, stage, schema, gen, es[1..]);
      FilteredOne(stage.filter, e.row, tail);
      assert Pairs(e.row, [tail]) == Pairs(e.row, gen(e.row)) by {
        assert [tail][1..] == [];
        assert Pairs(e.row, [tail]) == [e.row + tail] + Pairs(e.row, []);
      }
      assert RowsOfFiles(es)[1..] == RowsOfFiles(es[1..]);
      if Passes(stage.filter, e.row + tail) {
        assert ([AtFile(e.row + tail, e.tree, e.file)] + rest)[1..] == rest;
      } else {
        assert [] + rest == rest;
      }
    }
  }
}
