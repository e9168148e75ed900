// Each chained iterator appends the rows that the join on its columns would.

module StageExactness {
  import opened Objects
  import opened Expressions
  import opened SquashJoins
  import opened FilterConservation
  import opened Relations
  import opened Layout
  import opened Tables
  import opened JoinFacts
  import opened ProductRows
  import opened ChainStages
  import CommitWalk

  lemma ColumnAt(t: Table, i: nat)
    requires i < |Columns(t)|
    ensures Find(SchemaOf(t), Col(t, Columns(t)[i])) == Some(i)
  {
    ColumnsAreDistinct(t);
    FindAt(SchemaOf(t), i);
  }

  // A row of the product of the tables before t, over the plain tables.
  ghost predicate Arrives(repo: Repository, readContent: bool, db: Db, before: seq<Table>, t: Table, row: Row) {
    Plain(db, repo, readContent) && Distinct(before) && t !in before && row in Product(db, before)
  }

  lemma ArrivingRow(repo: Repository, readContent: bool, db: Db, before: seq<Table>, t: Table, row: Row)
    requires Arrives(repo, readContent, db, before, t, row)
    ensures |row| == |Concat(before)| && Typed(db(t), SchemaOf(t))
    ensures forall name :: Col(t, name) !in Concat(before)
    ensures forall s, name :: s in before && name in Columns(s) ==> Col(s, name) in Concat(before)
  {
    ProductTyped(db, before);
    forall name ensures Col(t, name) !in Concat(before) {
      ConcatHas(before, Col(t, name));
    }
    forall s, name | s in before && name in Columns(s) ensures Col(s, name) in Concat(before) {
      ConcatHas(before, Col(s, name));
    }
  }

  // The positions of the joined columns.
  lemma JoinedPositions()
    ensures Find(SchemaOf(RefCommits), Col(RefCommits, RefName)) == Some(2)
    ensures Find(SchemaOf(RefCommits), Col(RefCommits, CommitHash)) == Some(1)
    ensures Find(SchemaOf(Commits), Col(Commits, CommitHash)) == Some(1)
    ensures Find(SchemaOf(CommitFiles), Col(CommitFiles, CommitHash)) == Some(1)
    ensures Find(SchemaOf(Files), Col(Files, FilePath)) == Some(1)
    ensures Find(SchemaOf(Files), Col(Files, BlobHash)) == Some(2)
    ensures Find(SchemaOf(Files), Col(Files, TreeHash)) == Some(3)
  {
    ColumnAt(RefCommits, 2);
    ColumnAt(RefCommits, 1);
    ColumnAt(Commits, 1);
    ColumnAt(CommitFiles, 1);
    ColumnAt(Files, 1);
    ColumnAt(Files, 2);
    ColumnAt(Files, 3);
  }

  // Joining on one equality, between column a of the row and column b of table t.
  lemma OneEquality(repo: Repository, readContent: bool, db: Db, before: seq<Table>, t: Table, row: Row,
                    a: Col, b: Col, i: nat)
    requires Arrives(repo, readContent, db, before, t, row) && a in Concat(before)
    requires b.table == t && Find(SchemaOf(t), b) == Some(i)
    ensures Keep([Same(a, b)], Concat(before) + SchemaOf(t), Pairs(row, db(t)))
            == Pairs(row, Where(db(t), i, ValueOf(Concat(before), row, a)))
  {
    ArrivingRow(repo, readContent, db, before, t, row);
    KeepSameIsWhere(a, b, Concat(before), row, SchemaOf(t), db(t));
  }

  lemma TwoEqualities(repo: Repository, readContent: bool, db: Db, before: seq<Table>, t: Table, row: Row,
                      a: Col, b: Col, i: nat, c: Col, d: Col, j: nat)
    requires Arrives(repo, readContent, db, before, t, row) && a in Concat(before) && c in Concat(before)
    requires b.table == t && Find(SchemaOf(t), b) == Some(i)
    requires d.table == t && Find(SchemaOf(t), d) == Some(j)
    ensures Keep([Same(a, b), Same(c, d)], Concat(before) + SchemaOf(t), Pairs(row, db(t)))
            == Pairs(row, Where(Where(db(t), i, ValueOf(Concat(before), row, a)), j, ValueOf(Concat(before), row, c)))
  {
    ArrivingRow(repo, readContent, db, before, t, row);
    KeepTwoSame(a, b, c, d, Concat(before), row, SchemaOf(t), db(t));
  }

  lemma JoinsOfOne(stage: Stage, schema: Schema, a: Col, b: Col)
    requires stage.link.Joined? && Asked(stage.link, schema) == [(a, b)]
    requires stage.link == Joined(References, RefCommits) ==> !stage.narrow
    ensures JoinsOf(stage, schema) == [Same(a, b)]
  {
    var pairs := [(a, b)];
    assert pairs[1..] == [];
    assert Sames(pairs) == [Same(a, b)];
  }

  // A stage over one equality is exact if it makes the rows with that value.
  lemma ExactByOne(repo: Repository, readContent: bool, db: Db, before: seq<Table>, stage: Stage, row: Row,
                   a: Col, b: Col, i: nat)
    requires stage.link.Joined? && Arrives(repo, readContent, db, before, stage.link.right, row)
    requires a in Concat(before) && b.table == stage.link.right && Find(SchemaOf(stage.link.right), b) == Some(i)
    requires Asked(stage.link, Concat(before)) == [(a, b)]
    requires stage.link == Joined(References, RefCommits) ==> !stage.narrow
    requires MakeRows(repo, readContent, stage, Concat(before), row)
             == Where(db(stage.link.right), i, ValueOf(Concat(before), row, a))
    ensures ExactStage(repo, readContent, db, before, stage, row)
  {
    JoinsOfOne(stage, Concat(before), a, b);
    OneEquality(repo, readContent, db, before, stage.link.right, row, a, b, i);
  }

  // What a stage appends to a row, over its schema.
  ghost predicate ExactStage(repo: Repository, readContent: bool, db: Db, before: seq<Table>, stage: Stage, row: Row) {
    var schema, t := Concat(before), Added(stage.link);
    Pairs(row, MakeRows(repo, readContent, stage, schema, row))
    == Keep(JoinsOf(stage, schema), schema + SchemaOf(t), Pairs(row, db(t)))
  }

  // -------------------------------------------------------------------------
  // refs to ref_commits
  // -------------------------------------------------------------------------

  lemma FullHistory(repo: Repository, readContent: bool, stage: Stage, schema: Schema, row: Row, k: nat)
    requires stage.link == Joined(References, RefCommits) && !stage.narrow && Fits(repo, stage) && k < |RefList(repo)|
    requires ValueOf(schema, row, Col(References, RefName)) == Text(RefList(repo)[k].name)
    requires ValueOf(schema, row, Col(References, CommitHash)) == Digest(RefList(repo)[k].hash)
    ensures MakeRows(repo, readContent, stage, schema, row) == Where(RefCommitRows(repo), 2, Text(RefList(repo)[k].name))
  {
    RefMeetsItsHistory(repo, RefList(repo), k);
  }

  lemma HeadHistory(repo: Repository, readContent: bool, stage: Stage, schema: Schema, row: Row, k: nat)
    requires stage.link == Joined(References, RefCommits) && stage.narrow && Fits(repo, stage) && k < |RefList(repo)|
    requires ValueOf(schema, row, Col(References, RefName)) == Text(RefList(repo)[k].name)
    requires ValueOf(schema, row, Col(References, CommitHash)) == Digest(RefList(repo)[k].hash)
    ensures MakeRows(repo, readContent, stage, schema, row)
            == Where(Where(RefCommitRows(repo), 2, Text(RefList(repo)[k].name)), 3, Number(0))
  {
    var r := RefList(repo)[k];
    RefMeetsItsHistory(repo, RefList(repo), k);
    HeadIsIndexZero(repo, r.name, r.hash);
  }

  lemma NarrowJoins(stage: Stage, schema: Schema)
    requires stage.link == Joined(References, RefCommits) && stage.narrow
    ensures JoinsOf(stage, schema) == [Same(Col(References, RefName), Col(RefCommits, RefName))]
                                      + [Holding(Col(RefCommits, HistoryIndex), Number(0))]
  {
    var pair := (Col(References, RefName), Col(RefCommits, RefName));
    var pairs: seq<(Col, Col)> := [pair];
    assert pairs[1..] == [];
    assert Sames(pairs) == [Same(pair.0, pair.1)];
  }

  lemma HistoryPositions()
    ensures Find(SchemaOf(RefCommits), Col(RefCommits, RefName)) == Some(2)
    ensures Find(SchemaOf(RefCommits), Col(RefCommits, HistoryIndex)) == Some(3)
  {
    ColumnAt(RefCommits, 2);
    ColumnAt(RefCommits, 3);
  }

  lemma HeadEqualities(repo: Repository, readContent: bool, db: Db, before: seq<Table>, row: Row, a: Col)
    requires Arrives(repo, readContent, db, before, RefCommits, row) && a in Concat(before)
    ensures Keep([Same(a, Col(RefCommits, RefName))] + [Holding(Col(RefCommits, HistoryIndex), Number(0))],
                 Concat(before) + SchemaOf(RefCommits), Pairs(row, db(RefCommits)))
            == Pairs(row, Where(Where(db(RefCommits), 2, ValueOf(Concat(before), row, a)), 3, Number(0)))
  {
    var name, index := Col(RefCommits, RefName), Col(RefCommits, HistoryIndex);
    HistoryPositions();
    ArrivingRow(repo, readContent, db, before, RefCommits, row);
    KeepSameHolding(a, name, index, Number(0), Concat(before), row, SchemaOf(RefCommits), db(RefCommits));
  }

  lemma RefCommitsStage(repo: Repository, readContent: bool, db: Db, before: seq<Table>, stage: Stage, row: Row)
    requires Arrives(repo, readContent, db, before, RefCommits, row) && References in before
    requires stage.link == Joined(References, RefCommits) && Fits(repo, stage)
    ensures ExactStage(repo, readContent, db, before, stage, row)
  {
    var k := CurrentRef(repo, readContent, db, before, row);
    var name, hash := Col(References, RefName), Col(References, CommitHash);
    ConcatHas(before, name);
    ConcatHas(before, hash);
    JoinedPositions();
    if stage.narrow {
      HeadHistory(repo, readContent, stage, Concat(before), row, k);
      NarrowJoins(stage, Concat(before));
      HeadEqualities(repo, readContent, db, before, row, name);
    } else {
      FullHistory(repo, readContent, stage, Concat(before), row, k);
      ExactByOne(repo, readContent, db, before, stage, row, name, Col(RefCommits, RefName), 2);
    }
  }

  // -------------------------------------------------------------------------
  // To commits
  // -------------------------------------------------------------------------

  // A crawled commit meets its one row.
  lemma CommitMeetsItsRow(repo: Repository, h: Hash)
    requires Wellformed(repo) && Unambiguous(repo)
    ensures Where(CommitRows(repo), 1, Digest(h)) == if CommitWalk.Crawled(repo, h) then [CommitRow(repo, h)] else []
  {
    if CommitWalk.Crawled(repo, h) {
      CommitJoinIsExactIff(repo, h);
    } else {
      CommitListCounts(repo, h);
      WhereCommit(repo, CommitList(repo), h);
      assert multiset(CommitList(repo))[h] == 0;
    }
  }

  lemma CommitRowMade(repo: Repository, readContent: bool, stage: Stage, schema: Schema, row: Row, h: Hash)
    requires stage.link == Joined(RefCommits, Commits) && Wellformed(repo) && Unambiguous(repo)
    requires ValueOf(schema, row, Col(RefCommits, CommitHash)) == Digest(h) && CommitWalk.Crawled(repo, h)
    ensures MakeRows(repo, readContent, stage, schema, row) == Where(CommitRows(repo), 1, Digest(h))
  {
    CommitMeetsItsRow(repo, h);
  }

  lemma CommitsOfRefCommitsStage(repo: Repository, readContent: bool, db: Db, before: seq<Table>, stage: Stage, row: Row)
    requires Arrives(repo, readContent, db, before, Commits, row) && RefCommits in before
    requires stage.link == Joined(RefCommits, Commits) && Wellformed(repo) && Fits(repo, stage)
    ensures ExactStage(repo, readContent, db, before, stage, row)
  {
    var h := CurrentRefCommit(repo, readContent, db, before, row);
    var a := Col(RefCommits, CommitHash);
    ConcatHas(before, a);
    CommitRowMade(repo, readContent, stage, Concat(before), row, h);
    JoinedPositions();
    ExactByOne(repo, readContent, db, before, stage, row, a, Col(Commits, CommitHash), 1);
  }

  // Without annotated tags the commit of a reference is crawled, and any other hash is no commit.
  lemma RefHashCrawled(repo: Repository, r: Reference)
    requires Wellformed(repo) && Untagged(repo) && r in RefList(repo)
    ensures Resolve(repo, r.hash).Found? <==> CommitWalk.Crawled(repo, r.hash)
    ensures Resolve(repo, r.hash).Found? ==> Resolve(repo, r.hash) == Found(r.hash) && IsCommit(repo, r.hash)
  {
    ResolveFindsCommit(repo, r.hash);
    if Resolve(repo, r.hash).Found? {
      ListedRefIsNamed(repo, r);
      assert Path(repo, r.hash, r.hash, 0) && CommitWalk.Root(repo, r.hash);
    }
  }

  lemma CommitForRef(repo: Repository, r: Reference)
    requires Wellformed(repo) && Untagged(repo) && Unambiguous(repo) && r in RefList(repo)
    ensures CommitRowsFor(repo, Resolve(repo, r.hash)) == Where(CommitRows(repo), 1, Digest(r.hash))
  {
    RefHashCrawled(repo, r);
    CommitMeetsItsRow(repo, r.hash);
  }

  lemma RefCommitRowMade(repo: Repository, readContent: bool, stage: Stage, schema: Schema, row: Row, h: Hash)
    requires stage.link == Joined(References, Commits)
    requires ValueOf(schema, row, Col(References, CommitHash)) == Digest(h)
    ensures MakeRows(repo, readContent, stage, schema, row) == CommitRowsFor(repo, Resolve(repo, h))
  {}

  lemma CurrentRefHash(repo: Repository, readContent: bool, db: Db, before: seq<Table>, row: Row) returns (r: Reference)
    requires Plain(db, repo, readContent) && Distinct(before) && row in Product(db, before) && References in before
    ensures r in RefList(repo) && Col(References, CommitHash) in Concat(before)
    ensures ValueOf(Concat(before), row, Col(References, CommitHash)) == Digest(r.hash)
  {
    var k := CurrentRef(repo, readContent, db, before, row);
    r := RefList(repo)[k];
    ConcatHas(before, Col(References, CommitHash));
  }

  lemma CommitsOfRefsStage(repo: Repository, readContent: bool, db: Db, before: seq<Table>, stage: Stage, row: Row)
    requires Arrives(repo, readContent, db, before, Commits, row) && References in before
    requires stage.link == Joined(References, Commits) && Wellformed(repo) && Fits(repo, stage)
    ensures ExactStage(repo, readContent, db, before, stage, row)
  {
    var r := CurrentRefHash(repo, readContent, db, before, row);
    RefCommitRowMade(repo, readContent, stage, Concat(before), row, r.hash);
    CommitForRef(repo, r);
    JoinedPositions();
    ExactByOne(repo, readContent, db, before, stage, row, Col(References, CommitHash), Col(Commits, CommitHash), 1);
  }

  // -------------------------------------------------------------------------
  // To commit_files
  // -------------------------------------------------------------------------

  // A commit meets the rows of its files.
  lemma CommitMeetsItsFileRows(repo: Repository, h: Hash)
    requires Wellformed(repo) && Unambiguous(repo)
    ensures Where(CommitFileRows(repo), 1, Digest(h))
            == if CommitWalk.Crawled(repo, h) then FilesOfCommit(repo, h) else []
  {
    CommitListCounts(repo, h);
    if IsCommit(repo, h) {
      ListedAtMostOnce(repo, h);
      CommitMeetsItsFiles(repo, CommitList(repo), h);
    } else {
      NoFilesOfOthers(repo, h);
    }
  }

  lemma ListedAtMostOnce(repo: Repository, h: Hash)
    requires Wellformed(repo) && Unambiguous(repo)
    ensures multiset(CommitList(repo))[h] <= 1
  {
    CommitListCounts(repo, h);
    if !CommitWalk.Crawled(repo, h) {
      assert multiset(CommitList(repo))[h] == 0;
    }
  }

  lemma NoFilesOfOthers(repo: Repository, h: Hash)
    requires !IsCommit(repo, h)
    ensures Where(CommitFileRows(repo), 1, Digest(h)) == []
  {
    var rows := Where(CommitFileRows(repo), 1, Digest(h));
    WhereHas(CommitFileRows(repo), 1, Digest(h));
    if rows != [] {
      assert rows[0] in rows;
      var c, k := CommitFileRowsHave(repo, CommitList(repo), rows[0]);
      assert false;
    }
  }

  lemma FilesForCommit(repo: Repository, h: Hash)
    requires Wellformed(repo) && Unambiguous(repo) && CommitWalk.Crawled(repo, h)
    ensures FilesFor(repo, Found(h)) == Where(CommitFileRows(repo), 1, Digest(h))
  {
    CommitMeetsItsFileRows(repo, h);
  }

  lemma SourceFilesMade(repo: Repository, readContent: bool, stage: Stage, schema: Schema, row: Row, h: Hash)
    requires stage.link == Joined(Commits, CommitFiles)
    requires ValueOf(schema, row, CommitSource(schema)) == Digest(h)
    ensures MakeRows(repo, readContent, stage, schema, row) == FilesFor(repo, Found(h))
  {}

  lemma FilesOfCommitsStage(repo: Repository, readContent: bool, db: Db, before: seq<Table>, stage: Stage, row: Row)
    requires Arrives(repo, readContent, db, before, CommitFiles, row) && (Commits in before || RefCommits in before)
    requires stage.link == Joined(Commits, CommitFiles) && Wellformed(repo) && Fits(repo, stage)
    ensures ExactStage(repo, readContent, db, before, stage, row)
  {
    var h := CurrentSource(repo, readContent, db, before, row);
    SourceFilesMade(repo, readContent, stage, Concat(before), row, h);
    FilesForCommit(repo, h);
    JoinedPositions();
    ExactByOne(repo, readContent, db, before, stage, row, CommitSource(Concat(before)), Col(CommitFiles, CommitHash), 1);
  }

  lemma SourceColumn(before: seq<Table>)
    requires Commits in before || RefCommits in before
    ensures CommitSource(Concat(before)) == Col(if Commits in before then Commits else RefCommits, CommitHash)
    ensures CommitSource(Concat(before)) in Concat(before)
  {
    ConcatHas(before, Col(Commits, CommitHash));
    ConcatHas(before, Col(RefCommits, CommitHash));
  }

  lemma CurrentSource(repo: Repository, readContent: bool, db: Db, before: seq<Table>, row: Row) returns (h: Hash)
    requires Arrives(repo, readContent, db, before, CommitFiles, row) && (Commits in before || RefCommits in before)
    requires Wellformed(repo)
    ensures CommitSource(Concat(before)) in Concat(before) && CommitWalk.Crawled(repo, h)
    ensures ValueOf(Concat(before), row, CommitSource(Concat(before))) == Digest(h)
  {
    SourceColumn(before);
    if Commits in before {
      h := CurrentCommit(repo, readContent, db, before, row);
    } else {
      h := CurrentRefCommit(repo, readContent, db, before, row);
    }
  }

  lemma FilesForRef(repo: Repository, r: Reference)
    requires Wellformed(repo) && Untagged(repo) && Unambiguous(repo) && r in RefList(repo)
    ensures FilesFor(repo, Resolve(repo, r.hash)) == Where(CommitFileRows(repo), 1, Digest(r.hash))
  {
    RefHashCrawled(repo, r);
    CommitMeetsItsFileRows(repo, r.hash);
  }

  lemma RefFilesMade(repo: Repository, readContent: bool, stage: Stage, schema: Schema, row: Row, h: Hash)
    requires stage.link == Joined(References, CommitFiles)
    requires ValueOf(schema, row, Col(References, CommitHash)) == Digest(h)
    ensures MakeRows(repo, readContent, stage, schema, row) == FilesFor(repo, Resolve(repo, h))
  {}

  lemma FilesOfRefsStage(repo: Repository, readContent: bool, db: Db, before: seq<Table>, stage: Stage, row: Row)
    requires Arrives(repo, readContent, db, before, CommitFiles, row) && References in before
    requires stage.link == Joined(References, CommitFiles) && Wellformed(repo) && Fits(repo, stage)
    ensures ExactStage(repo, readContent, db, before, stage, row)
  {
    var r := CurrentRefHash(repo, readContent, db, before, row);
    RefFilesMade(repo, readContent, stage, Concat(before), row, r.hash);
    FilesForRef(repo, r);
    JoinedPositions();
    ExactByOne(repo, readContent, db, before, stage, row, Col(References, CommitHash), Col(CommitFiles, CommitHash), 1);
  }

  // -------------------------------------------------------------------------
  // commit_files to files
  // -------------------------------------------------------------------------

  // The file of that name is the one at hand.
  lemma {:induction false} FileNamedIs(repo: Repository, tree: Hash, files: seq<File>, k: nat, readContent: bool)
    requires k < |files| && PathsDistinct(files)
    ensures FileNamed(repo, tree, files, files[k].name, readContent) == [FileRow(repo, tree, files[k], readContent)]
  {
    if k > 0 {
      FileNamedIs(repo, tree, files[1..], k - 1, readContent);
    }
  }

  lemma FileJoins(stage: Stage, schema: Schema)
    requires stage.link == Joined(CommitFiles, Files)
    ensures JoinsOf(stage, schema)
            == [Same(Col(CommitFiles, TreeHash), Col(Files, TreeHash)), Same(Col(CommitFiles, FilePath), Col(Files, FilePath))]
               + [Same(Col(CommitFiles, BlobHash), Col(Files, BlobHash))]
  {
    var pairs := Asked(stage.link, schema);
    assert pairs[1..][1..][1..] == [];
    assert Sames(pairs[1..][1..]) == [Same(pairs[2].0, pairs[2].1)];
    assert Sames(pairs[1..]) == [Same(pairs[1].0, pairs[1].1)] + Sames(pairs[1..][1..]);
  }

  lemma ThreeEqualities(repo: Repository, readContent: bool, db: Db, before: seq<Table>, row: Row, a: Col, b: Col, c: Col)
    requires Arrives(repo, readContent, db, before, Files, row)
    requires a in Concat(before) && b in Concat(before) && c in Concat(before)
    ensures var schema := Concat(before);
            Keep([Same(a, Col(Files, TreeHash)), Same(b, Col(Files, FilePath))] + [Same(c, Col(Files, BlobHash))],
                 schema + SchemaOf(Files), Pairs(row, db(Files)))
            == Pairs(row, Where(Where(Where(db(Files), 3, ValueOf(schema, row, a)), 1, ValueOf(schema, row, b)),
                                2, ValueOf(schema, row, c)))
  {
    var schema, more := Concat(before), SchemaOf(Files);
    var one := Where(db(Files), 3, ValueOf(schema, row, a));
    var two := Where(one, 1, ValueOf(schema, row, b));
    JoinedPositions();
    ArrivingRow(repo, readContent, db, before, Files, row);
    TwoEqualities(repo, readContent, db, before, Files, row, a, Col(Files, TreeHash), 3, b, Col(Files, FilePath), 1);
    WhereTyped(db(Files), more, 3, ValueOf(schema, row, a));
    WhereTyped(one, more, 1, ValueOf(schema, row, b));
    KeepSameIsWhere(c, Col(Files, BlobHash), schema, row, more, two);
    KeepTwice([Same(c, Col(Files, BlobHash))], [Same(a, Col(Files, TreeHash)), Same(b, Col(Files, FilePath))],
              schema + more, Pairs(row, db(Files)));
  }

  lemma FileRowMade(repo: Repository, readContent: bool, stage: Stage, schema: Schema, row: Row, c: Hash, k: nat)
    requires stage.link == Joined(CommitFiles, Files) && Wellformed(repo) && Describes(repo, schema, row, c, k)
    ensures MakeRows(repo, readContent, stage, schema, row)
            == Where(Where(Where(FileRows(repo, readContent),
                                 3, ValueOf(schema, row, Col(CommitFiles, TreeHash))),
                           1, ValueOf(schema, row, Col(CommitFiles, FilePath))),
                     2, ValueOf(schema, row, Col(CommitFiles, BlobHash)))
  {
    var files := FilesIn(repo, TreeOf(repo, c));
    assert PathsDistinct(files);
    FileNamedIs(repo, TreeOf(repo, c), files, k, readContent);
    FileMeetsItsRow(repo, c, k, readContent);
  }

  lemma ExactByThree(repo: Repository, readContent: bool, db: Db, before: seq<Table>, stage: Stage, row: Row)
    requires Arrives(repo, readContent, db, before, Files, row) && CommitFiles in before
    requires stage.link == Joined(CommitFiles, Files)
    requires MakeRows(repo, readContent, stage, Concat(before), row)
             == Where(Where(Where(db(Files), 3, ValueOf(Concat(before), row, Col(CommitFiles, TreeHash))),
                            1, ValueOf(Concat(before), row, Col(CommitFiles, FilePath))),
                      2, ValueOf(Concat(before), row, Col(CommitFiles, BlobHash)))
    ensures ExactStage(repo, readContent, db, before, stage, row)
  {
    FileColumnsThere(before);
    FileJoins(stage, Concat(before));
    ThreeEqualities(repo, readContent, db, before, row, Col(CommitFiles, TreeHash), Col(CommitFiles, FilePath),
                    Col(CommitFiles, BlobHash));
  }

  lemma FileColumnsThere(before: seq<Table>)
    requires CommitFiles in before
    ensures Col(CommitFiles, TreeHash) in Concat(before) && Col(CommitFiles, FilePath) in Concat(before)
            && Col(CommitFiles, BlobHash) in Concat(before)
  {
    ConcatHas(before, Col(CommitFiles, TreeHash));
    ConcatHas(before, Col(CommitFiles, FilePath));
    ConcatHas(before, Col(CommitFiles, BlobHash));
  }

  lemma FilesStage(repo: Repository, readContent: bool, db: Db, before: seq<Table>, stage: Stage, row: Row)
    requires Arrives(repo, readContent, db, before, Files, row) && CommitFiles in before
    requires stage.link == Joined(CommitFiles, Files) && Wellformed(repo)
    ensures ExactStage(repo, readContent, db, before, stage, row)
  {
    var c, k := CurrentFile(repo, readContent, db, before, row);
    FileRowMade(repo, readContent, stage, Concat(before), row, c, k);
    ExactByThree(repo, readContent, db, before, stage, row);
  }
}
