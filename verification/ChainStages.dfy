// The iterators a chain is built from, as generators of rows, and why each computes a join.

module ChainStages {
  import opened Objects
  import opened Expressions
  import opened SquashJoins
  import opened FilterConservation
  import opened Relations
  import opened Layout
  import opened Tables
  import opened JoinFacts
  import opened ProductRows
  import CommitWalk

  // -------------------------------------------------------------------------
  // Generators
  // -------------------------------------------------------------------------

  function TextOf(v: Value): string {
    if v.Text? then v.text else ""
  }

  function HashOf(v: Value): Hash {
    if v.Digest? then v.hash else Hash(0)
  }

  // The references that pass the filter moved to them.
  function PassingRefs(repo: Repository, filter: Option<Expr>, refs: seq<Reference>): (rs: seq<Reference>)
    requires forall r :: r in refs ==> r.HashRef?
    ensures forall r :: r in rs ==> r.HashRef?
  {
    if refs == [] then []
    else (if Passes(filter, RefRow(repo, refs[0])) then [refs[0]] else []) + PassingRefs(repo, filter, refs[1..])
  }

  function CommitRowsFor(repo: Repository, r: Resolution): seq<Row> {
    if r.Found? && IsCommit(repo, r.commit) then [CommitRow(repo, r.commit)] else []
  }

  function FilesFor(repo: Repository, r: Resolution): seq<Row> {
    if r.Found? && IsCommit(repo, r.commit) then FilesOfCommit(repo, r.commit) else []
  }

  function FileNamed(repo: Repository, tree: Hash, files: seq<File>, name: string, readContent: bool): seq<Row> {
    if files == [] then []
    else if files[0].name == name then [FileRow(repo, tree, files[0], readContent)]
    else FileNamed(repo, tree, files[1..], name, readContent)
  }

  // The commit column that commit_files is chained to.
  function CommitSource(schema: Schema): Col {
    if Col(Commits, CommitHash) in schema then Col(Commits, CommitHash) else Col(RefCommits, CommitHash)
  }

  // The rows a stage appends to a row of the stages before it. The iterators know the current
  // reference, commit or file; here they are read off the columns of the row.
  function MakeRows(repo: Repository, readContent: bool, stage: Stage, schema: Schema, row: Row): seq<Row> {
    match stage.link
    case Alone(Repositories) => [RepositoryRow(repo)]
    case Alone(References) => RefRows(repo)
    case Alone(RefCommits) => RefCommitRowsOf(repo, PassingRefs(repo, stage.movedFilter, RefList(repo)))
    case Joined(Repositories, References) => RefRows(repo)
    case Joined(Repositories, RefCommits) => RefCommitRows(repo)
    case Joined(References, RefCommits) =>
      var name := TextOf(ValueOf(schema, row, Col(References, RefName)));
      var hash := HashOf(ValueOf(schema, row, Col(References, CommitHash)));
      if stage.narrow then HeadRows(repo, name, hash) else HistoryOf(repo, name, hash)
    case Joined(References, Commits) =>
      CommitRowsFor(repo, Resolve(repo, HashOf(ValueOf(schema, row, Col(References, CommitHash)))))
    case Joined(RefCommits, Commits) =>
      CommitRowsFor(repo, Found(HashOf(ValueOf(schema, row, Col(RefCommits, CommitHash)))))
    case Joined(References, CommitFiles) =>
      FilesFor(repo, Resolve(repo, HashOf(ValueOf(schema, row, Col(References, CommitHash)))))
    case Joined(Commits, CommitFiles) =>
      FilesFor(repo, Found(HashOf(ValueOf(schema, row, CommitSource(schema)))))
    case Joined(CommitFiles, Files) =>
      var tree := HashOf(ValueOf(schema, row, Col(CommitFiles, TreeHash)));
      FileNamed(repo, tree, FilesIn(repo, tree), TextOf(ValueOf(schema, row, Col(CommitFiles, FilePath))), readContent)
    case _ => []
  }

  predicate Modelled(link: Link) {
    link in {Alone(Repositories), Alone(References), Alone(RefCommits), Joined(Repositories, References),
             Joined(Repositories, RefCommits), Joined(References, RefCommits), Joined(References, Commits),
             Joined(RefCommits, Commits), Joined(References, CommitFiles), Joined(Commits, CommitFiles),
             Joined(CommitFiles, Files)}
  }

  // -------------------------------------------------------------------------
  // The equalities a link stands for
  // -------------------------------------------------------------------------

  // The equalities the query has to ask for.
  function Asked(link: Link, schema: Schema): seq<(Col, Col)> {
    match link
    case Joined(References, RefCommits) => [(Col(References, RefName), Col(RefCommits, RefName))]
    case Joined(References, Commits) => [(Col(References, CommitHash), Col(Commits, CommitHash))]
    case Joined(RefCommits, Commits) => [(Col(RefCommits, CommitHash), Col(Commits, CommitHash))]
    case Joined(References, CommitFiles) => [(Col(References, CommitHash), Col(CommitFiles, CommitHash))]
    case Joined(Commits, CommitFiles) => [(CommitSource(schema), Col(CommitFiles, CommitHash))]
    case Joined(CommitFiles, Files) => [(Col(CommitFiles, TreeHash), Col(Files, TreeHash)),
                                        (Col(CommitFiles, FilePath), Col(Files, FilePath)),
                                        (Col(CommitFiles, BlobHash), Col(Files, BlobHash))]
    case _ => []
  }

  function Sames(pairs: seq<(Col, Col)>): seq<Expr> {
    if pairs == [] then [] else [Same(pairs[0].0, pairs[0].1)] + Sames(pairs[1..])
  }

  // What the generator of a stage makes true.
  function JoinsOf(stage: Stage, schema: Schema): seq<Expr> {
    if stage.link == Alone(RefCommits) then stage.moved
    else Sames(Asked(stage.link, schema))
         + if stage.link == Joined(References, RefCommits) && stage.narrow
           then [Holding(Col(RefCommits, HistoryIndex), Number(0))] else []
  }

  // -------------------------------------------------------------------------
  // What the repository has to be like
  // -------------------------------------------------------------------------

  // No commit has two names, so the table of commits lists none twice.
  ghost predicate Unambiguous(repo: Repository) {
    forall c :: CommitWalk.Crawled(repo, c) ==> |CommitWalk.Names(repo, c)| <= 1
  }

  // References hold the hashes of commits and not of annotated tags of commits.
  ghost predicate Untagged(repo: Repository) {
    forall r :: r in RefList(repo) && Resolve(repo, r.hash).Found? ==> Resolve(repo, r.hash) == Found(r.hash)
  }

  // References hold the hashes of commits, and no other reference lists the commit of one.
  ghost predicate Solitary(repo: Repository) {
    var refs := RefList(repo);
    Untagged(repo) &&
    forall j, k :: 0 <= j < |refs| && 0 <= k < |refs| && j != k && Resolve(repo, refs[k].hash).Found? ==>
      !Lists(repo, refs[j], refs[k].hash)
  }

  ghost predicate DistinctPaths(repo: Repository) {
    forall t :: t in repo.files ==> PathsDistinct(repo.files[t])
  }

  ghost predicate Wellformed(repo: Repository) {
    CommitWalk.ParentsAreCommits(repo) && HeadListed(repo)
    && DistinctPaths(repo)
  }

  // What a stage needs beyond that.
  ghost predicate Fits(repo: Repository, stage: Stage) {
    match stage.link
    case Joined(References, RefCommits) => NamesApart(repo, RefList(repo))
    case Joined(References, Commits) => Untagged(repo) && Unambiguous(repo)
    case Joined(RefCommits, Commits) => Unambiguous(repo)
    case Joined(References, CommitFiles) => Untagged(repo) && Unambiguous(repo)
    case Joined(Commits, CommitFiles) => Unambiguous(repo)
    case _ => true
  }

  ghost predicate Plain(db: Db, repo: Repository, readContent: bool) {
    && TypedDb(db)
    && db(Repositories) == [RepositoryRow(repo)]
    && db(References) == RefRows(repo)
    && db(RefCommits) == RefCommitRows(repo)
    && db(Commits) == CommitRows(repo)
    && db(CommitFiles) == CommitFileRows(repo)
    && db(Files) == FileRows(repo, readContent)
  }

  // -------------------------------------------------------------------------
  // Reading the current reference, commit and file off a row
  // -------------------------------------------------------------------------

  lemma {:induction false} RefRowsHave(repo: Repository, refs: seq<Reference>, r: Row) returns (k: nat)
    requires HashRefsOnly(refs) && r in RefRowsOf(repo, refs)
    ensures k < |refs| && r == RefRow(repo, refs[k])
  {
    if r == RefRow(repo, refs[0]) {
      k := 0;
    } else {
      k := RefRowsHave(repo, refs[1..], r);
      k := k + 1;
    }
  }

  lemma HeldAt(schema: Schema, row: Row, t: Table, r: Row, i: nat)
    requires Holds(schema, row, t, r) && i < |Columns(t)|
    ensures i < |r| && ValueOf(schema, row, Col(t, Columns(t)[i])) == r[i]
  {
    assert SchemaOf(t)[i] == Col(t, Columns(t)[i]);
  }

  lemma ReadRef(repo: Repository, schema: Schema, row: Row, ref: Reference, r: Row)
    requires ref.HashRef? && r == RefRow(repo, ref) && Holds(schema, row, References, r)
    ensures ValueOf(schema, row, Col(References, RepositoryId)) == Text(repo.id)
    ensures ValueOf(schema, row, Col(References, RefName)) == Text(ref.name)
    ensures ValueOf(schema, row, Col(References, CommitHash)) == Digest(ref.hash)
  {
    HeldAt(schema, row, References, r, 0);
    HeldAt(schema, row, References, r, 1);
    HeldAt(schema, row, References, r, 2);
  }

  lemma CurrentRef(repo: Repository, readContent: bool, db: Db, before: seq<Table>, row: Row) returns (k: nat)
    requires Plain(db, repo, readContent) && Distinct(before) && row in Product(db, before) && References in before
    ensures k < |RefList(repo)|
    ensures var r := RefList(repo)[k];
            && ValueOf(Concat(before), row, Col(References, RepositoryId)) == Text(repo.id)
            && ValueOf(Concat(before), row, Col(References, RefName)) == Text(r.name)
            && ValueOf(Concat(before), row, Col(References, CommitHash)) == Digest(r.hash)
  {
    var r := ProductRow(db, before, row, References);
    k := RefRowsHave(repo, RefList(repo), r);
    ReadRef(repo, Concat(before), row, RefList(repo)[k], r);
  }

  lemma RefCommitIsCrawled(repo: Repository, r: Row) returns (h: Hash)
    requires Wellformed(repo) && r in RefCommitRows(repo)
    ensures CommitWalk.Crawled(repo, h) && |r| == 4 && r[0] == Text(repo.id) && r[1] == Digest(h)
  {
    RefCommitRowsHave(repo, RefList(repo), r);
    var ref :| ref in RefList(repo) && r in HistoryOf(repo, ref.name, ref.hash);
    HistoryOfHas(repo, ref.name, ref.hash, r);
    h := r[1].hash;
    ListedRefIsNamed(repo, ref);
    assert CommitWalk.Root(repo, Resolve(repo, ref.hash).commit);
  }

  lemma ReadRefCommit(repo: Repository, schema: Schema, row: Row, r: Row) returns (h: Hash)
    requires Wellformed(repo) && r in RefCommitRows(repo) && Holds(schema, row, RefCommits, r)
    ensures CommitWalk.Crawled(repo, h)
    ensures ValueOf(schema, row, Col(RefCommits, RepositoryId)) == Text(repo.id)
    ensures ValueOf(schema, row, Col(RefCommits, CommitHash)) == Digest(h)
  {
    h := RefCommitIsCrawled(repo, r);
    ReadFirstTwo(schema, row, RefCommits, r);
  }

  lemma CurrentRefCommit(repo: Repository, readContent: bool, db: Db, before: seq<Table>, row: Row) returns (h: Hash)
    requires Wellformed(repo)
    requires Plain(db, repo, readContent) && Distinct(before) && row in Product(db, before) && RefCommits in before
    ensures CommitWalk.Crawled(repo, h)
    ensures ValueOf(Concat(before), row, Col(RefCommits, RepositoryId)) == Text(repo.id)
    ensures ValueOf(Concat(before), row, Col(RefCommits, CommitHash)) == Digest(h)
  {
    var r := ProductRow(db, before, row, RefCommits);
    h := ReadRefCommit(repo, Concat(before), row, r);
  }

  lemma {:induction false} CommitRowsHave(repo: Repository, cs: seq<Hash>, r: Row) returns (c: Hash)
    requires AllCommits(repo, cs) && r in CommitRowsOf(repo, cs)
    ensures c in cs && r == CommitRow(repo, c)
  {
    if r == CommitRow(repo, cs[0]) {
      c := cs[0];
    } else {
      c := CommitRowsHave(repo, cs[1..], r);
    }
  }

  lemma CommitRowIs(repo: Repository, r: Row) returns (c: Hash)
    requires r in CommitRows(repo)
    ensures c in CommitList(repo) && |r| >= 2 && r[0] == Text(repo.id) && r[1] == Digest(c)
  {
    c := CommitRowsHave(repo, CommitList(repo), r);
  }

  // The repository and the commit, the first columns of ref_commits, commits and commit_files.
  lemma ReadFirstTwo(schema: Schema, row: Row, t: Table, r: Row)
    requires Holds(schema, row, t, r) && t in {RefCommits, Commits, CommitFiles}
    ensures |r| >= 2 && ValueOf(schema, row, Col(t, RepositoryId)) == r[0] && ValueOf(schema, row, Col(t, CommitHash)) == r[1]
  {
    HeldAt(schema, row, t, r, 0);
    HeldAt(schema, row, t, r, 1);
  }

  lemma ReadCommit(repo: Repository, schema: Schema, row: Row, r: Row) returns (h: Hash)
    requires Wellformed(repo) && r in CommitRows(repo) && Holds(schema, row, Commits, r)
    ensures CommitWalk.Crawled(repo, h)
    ensures ValueOf(schema, row, Col(Commits, RepositoryId)) == Text(repo.id)
    ensures ValueOf(schema, row, Col(Commits, CommitHash)) == Digest(h)
  {
    h := CommitRowIs(repo, r);
    CommitListCounts(repo, h);
    ReadFirstTwo(schema, row, Commits, r);
  }

  lemma CurrentCommit(repo: Repository, readContent: bool, db: Db, before: seq<Table>, row: Row) returns (h: Hash)
    requires Wellformed(repo)
    requires Plain(db, repo, readContent) && Distinct(before) && row in Product(db, before) && Commits in before
    ensures CommitWalk.Crawled(repo, h)
    ensures ValueOf(Concat(before), row, Col(Commits, RepositoryId)) == Text(repo.id)
    ensures ValueOf(Concat(before), row, Col(Commits, CommitHash)) == Digest(h)
  {
    var r := ProductRow(db, before, row, Commits);
    h := ReadCommit(repo, Concat(before), row, r);
  }

  lemma {:induction false} FilesOfCommitHave(repo: Repository, c: Hash, files: seq<File>, r: Row) returns (k: nat)
    requires IsCommit(repo, c) && r in CommitFileRowsIn(repo, c, files)
    ensures k < |files| && r == CommitFileRow(repo, c, files[k])
  {
    if r == CommitFileRow(repo, c, files[0]) {
      k := 0;
    } else {
      k := FilesOfCommitHave(repo, c, files[1..], r);
      k := k + 1;
    }
  }

  lemma {:induction false} CommitFileRowsHave(repo: Repository, cs: seq<Hash>, r: Row) returns (c: Hash, k: nat)
    requires AllCommits(repo, cs) && r in CommitFileRowsOf(repo, cs)
    ensures c in cs && k < |FilesIn(repo, TreeOf(repo, c))|
    ensures r == CommitFileRow(repo, c, FilesIn(repo, TreeOf(repo, c))[k])
  {
    if r in FilesOfCommit(repo, cs[0]) {
      c := cs[0];
      k := FilesOfCommitHave(repo, c, FilesIn(repo, TreeOf(repo, c)), r);
    } else {
      c, k := CommitFileRowsHave(repo, cs[1..], r);
    }
  }

  // File k of commit c is the one the columns of commit_files describe.
  ghost predicate Describes(repo: Repository, schema: Schema, row: Row, c: Hash, k: nat) {
    && c in CommitList(repo) && k < |FilesIn(repo, TreeOf(repo, c))|
    && var f := FilesIn(repo, TreeOf(repo, c))[k];
    && ValueOf(schema, row, Col(CommitFiles, FilePath)) == Text(f.name)
    && ValueOf(schema, row, Col(CommitFiles, BlobHash)) == Digest(f.hash)
    && ValueOf(schema, row, Col(CommitFiles, TreeHash)) == Digest(TreeOf(repo, c))
  }

  lemma ReadFile(repo: Repository, schema: Schema, row: Row, r: Row) returns (c: Hash, k: nat)
    requires r in CommitFileRows(repo) && Holds(schema, row, CommitFiles, r)
    ensures Describes(repo, schema, row, c, k)
    ensures ValueOf(schema, row, Col(CommitFiles, RepositoryId)) == Text(repo.id)
  {
    c, k := CommitFileRowsHave(repo, CommitList(repo), r);
    ReadFileColumns(schema, row, r);
  }

  lemma ReadFileColumns(schema: Schema, row: Row, r: Row)
    requires Holds(schema, row, CommitFiles, r)
    ensures |r| == 5
    ensures ValueOf(schema, row, Col(CommitFiles, RepositoryId)) == r[0]
    ensures ValueOf(schema, row, Col(CommitFiles, FilePath)) == r[2]
    ensures ValueOf(schema, row, Col(CommitFiles, BlobHash)) == r[3]
    ensures ValueOf(schema, row, Col(CommitFiles, TreeHash)) == r[4]
  {
    HeldAt(schema, row, CommitFiles, r, 0);
    HeldAt(schema, row, CommitFiles, r, 2);
    HeldAt(schema, row, CommitFiles, r, 3);
    HeldAt(schema, row, CommitFiles, r, 4);
  }

  lemma CurrentFile(repo: Repository, readContent: bool, db: Db, before: seq<Table>, row: Row)
    returns (c: Hash, k: nat)
    requires Plain(db, repo, readContent) && Distinct(before) && row in Product(db, before) && CommitFiles in before
    ensures Describes(repo, Concat(before), row, c, k)
    ensures ValueOf(Concat(before), row, Col(CommitFiles, RepositoryId)) == Text(repo.id)
  {
    var r := ProductRow(db, before, row, CommitFiles);
    c, k := ReadFile(repo, Concat(before), row, r);
  }
}
