// Every row a squashed query returns describes a reference, a commit of its history, a commit and a file of
// the repository, under the names of their columns.

module QueryContents {
  import opened Objects
  import opened Expressions
  import opened SquashJoins
  import opened Relations
  import opened Layout
  import opened SquashMeaning
  import opened Tables
  import opened JoinFacts
  import opened ProductRows
  import opened ChainStages
  import opened ExactChains
  import opened RefHistoryQueries
  import opened RowContents
  import IndexedCommits

  // HEAD counts as a reference of its own.
  predicate Names(repo: Repository, name: string, hash: Hash) {
    (name == "HEAD" && repo.head == Some(hash)) || HashRef(name, hash) in repo.refs
  }

  ghost predicate DescribesRef(repo: Repository, schema: Schema, row: Row) {
    exists name, hash :: Names(repo, name, hash) && ShowsRef(repo, schema, row, name, hash)
  }

  // The walk from what a reference of that name leads to returns commit h with index i.
  ghost predicate HistoryReturns(repo: Repository, name: string, h: Hash, i: nat) {
    exists hash ::
      && Names(repo, name, hash) && Resolve(repo, hash).Found? && IsCommit(repo, Resolve(repo, hash).commit)
      && IndexedCommits.Emit(h, i) in IndexedCommits.History(repo, true, Resolve(repo, hash).commit)
  }

  ghost predicate DescribesRefCommit(repo: Repository, schema: Schema, row: Row) {
    exists name, h, i: nat :: HistoryReturns(repo, name, h, i) && ShowsRefCommit(repo, schema, row, name, h, i)
  }

  ghost predicate DescribesCommit(repo: Repository, schema: Schema, row: Row) {
    exists h :: ShowsCommit(repo, schema, row, h)
  }

  ghost predicate DescribesCommitFile(repo: Repository, schema: Schema, row: Row) {
    exists h, f ::
      && h in repo.objects && repo.objects[h].Commit? && repo.objects[h].tree in repo.files
      && f in repo.files[repo.objects[h].tree] && ShowsCommitFile(repo, schema, row, h, f)
  }

  ghost predicate DescribesFile(repo: Repository, schema: Schema, row: Row, readContent: bool) {
    exists tree, f ::
      tree in repo.files && f in repo.files[tree] && ShowsFile(repo, schema, row, tree, f, readContent)
  }

  // All that the columns of these tables say is so.
  ghost predicate Described(repo: Repository, readContent: bool, tables: seq<Table>, schema: Schema, row: Row) {
    && (References in tables ==> DescribesRef(repo, schema, row))
    && (RefCommits in tables ==> DescribesRefCommit(repo, schema, row))
    && (Commits in tables ==> DescribesCommit(repo, schema, row))
    && (CommitFiles in tables ==> DescribesCommitFile(repo, schema, row))
    && (Files in tables ==> DescribesFile(repo, schema, row, readContent))
  }

  // -------------------------------------------------------------------------
  // Rows of the plain tables
  // -------------------------------------------------------------------------

  lemma RefIsDescribed(repo: Repository, schema: Schema, row: Row, r: Row)
    requires r in RefRows(repo) && Holds(schema, row, References, r)
    ensures DescribesRef(repo, schema, row)
  {
    var k := RefRowsHave(repo, RefList(repo), r);
    var ref := RefList(repo)[k];
    assert ref in RefList(repo);
    ListedIsNamed(repo, ref);
    HeldRef(repo, schema, row, ref);
  }

  lemma ListedIsNamed(repo: Repository, ref: Reference)
    requires ref in RefList(repo)
    ensures ref.HashRef? && Names(repo, ref.name, ref.hash)
  {
    if ref in HashRefs(repo.refs) {
      assert ref == HashRef(ref.name, ref.hash);
    }
  }

  lemma HistoryRowIs(repo: Repository, ref: Reference, r: Row) returns (h: Hash, i: nat)
    requires ref in RefList(repo) && r in HistoryOf(repo, ref.name, ref.hash)
    ensures HistoryReturns(repo, ref.name, h, i) && r == RefCommitRow(repo, ref.name, h, i)
  {
    ListedIsNamed(repo, ref);
    ResolveFindsCommit(repo, ref.hash);
    var items := IndexedCommits.History(repo, true, Resolve(repo, ref.hash).commit);
    HistoryRowsHave(repo, ref.name, items);
    h, i :| IndexedCommits.Emit(h, i) in items && r == RefCommitRow(repo, ref.name, h, i);
  }

  lemma RefCommitIsDescribed(repo: Repository, schema: Schema, row: Row, r: Row)
    requires r in RefCommitRows(repo) && Holds(schema, row, RefCommits, r)
    ensures DescribesRefCommit(repo, schema, row)
  {
    RefCommitRowsHave(repo, RefList(repo), r);
    var ref :| ref in RefList(repo) && r in HistoryOf(repo, ref.name, ref.hash);
    var h, i := HistoryRowIs(repo, ref, r);
    HeldRefCommit(repo, schema, row, ref.name, h, i);
  }

  lemma CommitIsDescribed(repo: Repository, schema: Schema, row: Row, r: Row)
    requires r in CommitRows(repo) && Holds(schema, row, Commits, r)
    ensures DescribesCommit(repo, schema, row)
  {
    var h := CommitRowsHave(repo, CommitList(repo), r);
    HeldCommit(repo, schema, row, h);
  }

  lemma CommitFileIsDescribed(repo: Repository, schema: Schema, row: Row, r: Row)
    requires r in CommitFileRows(repo) && Holds(schema, row, CommitFiles, r)
    ensures DescribesCommitFile(repo, schema, row)
  {
    var h, k := CommitFileRowsHave(repo, CommitList(repo), r);
    var files := FilesIn(repo, TreeOf(repo, h));
    assert files[k] in files;
    HeldCommitFile(repo, schema, row, h, files[k]);
  }

  lemma {:induction false} FileRowsInHave(repo: Repository, tree: Hash, files: seq<File>, readContent: bool, r: Row)
    returns (f: File)
    requires r in FileRowsIn(repo, tree, files, readContent)
    ensures f in files && r == FileRow(repo, tree, f, readContent)
  {
    if r == FileRow(repo, tree, files[0], readContent) {
      f := files[0];
    } else {
      f := FileRowsInHave(repo, tree, files[1..], readContent, r);
    }
  }

  lemma {:induction false} FileRowsHave(repo: Repository, cs: seq<Hash>, seen: set<Hash>, readContent: bool, r: Row)
    returns (tree: Hash, f: File)
    requires AllCommits(repo, cs) && r in FileRowsOf(repo, cs, seen, readContent)
    ensures f in FilesIn(repo, tree) && r == FileRow(repo, tree, f, readContent)
    decreases cs
  {
    assert cs[0] in cs;
    tree := TreeOf(repo, cs[0]);
    if tree in seen {
      tree, f := FileRowsHave(repo, cs[1..], seen, readContent, r);
    } else if r in FileRowsIn(repo, tree, FilesIn(repo, tree), readContent) {
      f := FileRowsInHave(repo, tree, FilesIn(repo, tree), readContent, r);
    } else {
      tree, f := FileRowsHave(repo, cs[1..], seen + {tree}, readContent, r);
    }
  }

  lemma FileIsDescribed(repo: Repository, readContent: bool, schema: Schema, row: Row, r: Row)
    requires r in FileRows(repo, readContent) && Holds(schema, row, Files, r)
    ensures DescribesFile(repo, schema, row, readContent)
  {
    var tree, f := FileRowsHave(repo, CommitList(repo), {}, readContent, r);
    HeldFile(repo, schema, row, tree, f, readContent);
  }

  // -------------------------------------------------------------------------
  // Rows of queries
  // -------------------------------------------------------------------------

  // For each table of the query the row holds a row of that table.
  ghost predicate HoldsAll(db: Db, tables: seq<Table>, schema: Schema, row: Row) {
    forall t :: t in tables ==> exists r :: r in db(t) && Holds(schema, row, t, r)
  }

  lemma HeldIsDescribed(repo: Repository, readContent: bool, db: Db, tables: seq<Table>, schema: Schema, row: Row)
    requires Plain(db, repo, readContent) && HoldsAll(db, tables, schema, row)
    ensures Described(repo, readContent, tables, schema, row)
  {
    if References in tables {
      var r :| r in db(References) && Holds(schema, row, References, r);
      RefIsDescribed(repo, schema, row, r);
    }
    if RefCommits in tables {
      var r :| r in db(RefCommits) && Holds(schema, row, RefCommits, r);
      RefCommitIsDescribed(repo, schema, row, r);
    }
    if Commits in tables {
      var r :| r in db(Commits) && Holds(schema, row, Commits, r);
      CommitIsDescribed(repo, schema, row, r);
    }
    if CommitFiles in tables {
      var r :| r in db(CommitFiles) && Holds(schema, row, CommitFiles, r);
      CommitFileIsDescribed(repo, schema, row, r);
    }
    if Files in tables {
      var r :| r in db(Files) && Holds(schema, row, Files, r);
      FileIsDescribed(repo, readContent, schema, row, r);
    }
  }

  lemma ProductHolds(db: Db, order: seq<Table>, row: Row)
    requires TypedDb(db) && Distinct(order) && row in Product(db, order)
    ensures HoldsAll(db, order, Concat(order), row)
  {
    forall t | t in order ensures exists r :: r in db(t) && Holds(Concat(order), row, t, r) {
      var r := ProductRow(db, order, row, t);
    }
  }

  // Putting the columns in another order keeps what is under each name.
  lemma ArrangedHolds(db: Db, tables: seq<Table>, order: seq<Table>, row: Row)
    requires HoldsAll(db, order, Concat(order), row) && forall t :: t in tables ==> t in order
    ensures HoldsAll(db, tables, Concat(tables), Arrange(Concat(tables), Concat(order), row))
  {
    var arranged := Arrange(Concat(tables), Concat(order), row);
    forall t | t in tables ensures exists r :: r in db(t) && Holds(Concat(tables), arranged, t, r) {
      var r :| r in db(t) && Holds(Concat(order), row, t, r);
      ArrangedTable(tables, order, row, t, r);
    }
  }

  lemma ArrangedTable(tables: seq<Table>, order: seq<Table>, row: Row, t: Table, r: Row)
    requires t in tables && Holds(Concat(order), row, t, r)
    ensures Holds(Concat(tables), Arrange(Concat(tables), Concat(order), row), t, r)
  {
    forall i | 0 <= i < |r|
      ensures ValueOf(Concat(tables), Arrange(Concat(tables), Concat(order), row), SchemaOf(t)[i]) == r[i]
    {
      ConcatHas(tables, SchemaOf(t)[i]);
      ArrangedValue(Concat(tables), Concat(order), row, SchemaOf(t)[i]);
    }
  }

  lemma ArrangedValue(original: Schema, schema: Schema, row: Row, c: Col)
    requires c in original
    ensures ValueOf(original, Arrange(original, schema, row), c) == ValueOf(schema, row, c)
  {}

  lemma {:induction false} ArrangedFrom(original: Schema, schema: Schema, rows: seq<Row>, row: Row) returns (source: Row)
    requires row in ArrangeAll(original, schema, rows)
    ensures source in rows && row == Arrange(original, schema, source)
  {
    if row == Arrange(original, schema, rows[0]) {
      source := rows[0];
    } else {
      source := ArrangedFrom(original, schema, rows[1..], row);
    }
  }

  // Each row of a join over the plain tables, whatever its order and filters, describes the repository.
  lemma JoinedRowsAreDescribed(repo: Repository, readContent: bool, db: Db, tables: seq<Table>, order: seq<Table>,
                               filters: seq<Expr>, row: Row)
    requires Plain(db, repo, readContent) && Distinct(order) && forall t :: t in tables ==> t in order
    requires row in ArrangeAll(Concat(tables), Concat(order), Keep(filters, Concat(order), Product(db, order)))
    ensures Described(repo, readContent, tables, Concat(tables), row)
  {
    var source := ArrangedFrom(Concat(tables), Concat(order), Keep(filters, Concat(order), Product(db, order)), row);
    KeepIsPart(filters, Concat(order), Product(db, order));
    ProductHolds(db, order, source);
    ArrangedHolds(db, tables, order, source);
    HeldIsDescribed(repo, readContent, db, tables, Concat(tables), row);
  }

  // So does each row that the node returns for a query that is preserved.
  lemma SquashedRowsAreDescribed(repo: Repository, readContent: bool, db: Db, tables: seq<Table>, filters: seq<Expr>, row: Row)
    requires Plain(db, repo, readContent) && Preserved(repo, readContent, db, tables, filters)
    requires var sq := Squash(tables, filters, false).value;
             row in Execute(sq, db, Gens(repo, readContent, sq.plan.stages))
    ensures Described(repo, readContent, tables, Concat(tables), row)
  {
    var order := Order(Squash(tables, filters, false).value.plan);
    JoinedRowsAreDescribed(repo, readContent, db, tables, order, filters, row);
  }
}
