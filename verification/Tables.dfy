// The rows of the plain tables of one repository, when git errors are skipped or do not occur.

module Tables {
  import opened Objects
  import opened Expressions
  import IndexedCommits
  import CommitWalk

  // -------------------------------------------------------------------------
  // Rows
  // -------------------------------------------------------------------------

  function RepositoryRow(repo: Repository): Row {
    [Text(repo.id)]
  }

  function RefRow(repo: Repository, r: Reference): Row
    requires r.HashRef?
  {
    [Text(repo.id), Text(r.name), Digest(r.hash)]
  }

  function RefCommitRow(repo: Repository, name: string, commit: Hash, idx: nat): Row {
    [Text(repo.id), Digest(commit), Text(name), Number(idx)]
  }

  function Digests(hashes: seq<Hash>): seq<Value> {
    seq(|hashes|, i requires 0 <= i < |hashes| => Digest(hashes[i]))
  }

  function CommitRow(repo: Repository, h: Hash): Row
    requires IsCommit(repo, h)
  {
    var c := repo.objects[h];
    [Text(repo.id), Digest(h), Text(c.author.name), Text(c.author.email), Time(c.author.time),
     Text(c.committer.name), Text(c.committer.email), Time(c.committer.time), Text(c.message),
     Digest(c.tree), List(Digests(c.parents))]
  }

  function CommitFileRow(repo: Repository, h: Hash, f: File): Row
    requires IsCommit(repo, h)
  {
    [Text(repo.id), Digest(h), Text(f.name), Digest(f.hash), Digest(repo.objects[h].tree)]
  }

  // The content is read only for queries that ask for it.
  function FileRow(repo: Repository, tree: Hash, f: File, readContent: bool): Row {
    [Text(repo.id), Text(f.name), Digest(f.hash), Digest(tree), Text(f.mode),
     if readContent then Text(f.content) else Null, Number(f.size)]
  }

  // -------------------------------------------------------------------------
  // refs
  // -------------------------------------------------------------------------

  function HashRefs(refs: seq<Reference>): (rs: seq<Reference>)
    ensures forall r :: r in rs <==> r in refs && r.HashRef?
  {
    if refs == [] then []
    else (if refs[0].HashRef? then [refs[0]] else []) + HashRefs(refs[1..])
  }

  // HEAD first, as a reference of its own, and then every reference that holds a hash.
  function RefList(repo: Repository): (rs: seq<Reference>)
    ensures forall r :: r in rs ==> r.HashRef?
  {
    (if repo.head.Some? then [HashRef("HEAD", repo.head.value)] else []) + HashRefs(repo.refs)
  }

  function RefRowsOf(repo: Repository, refs: seq<Reference>): seq<Row>
    requires forall r :: r in refs ==> r.HashRef?
  {
    if refs == [] then [] else [RefRow(repo, refs[0])] + RefRowsOf(repo, refs[1..])
  }

  function RefRows(repo: Repository): seq<Row> {
    RefRowsOf(repo, RefList(repo))
  }

  // -------------------------------------------------------------------------
  // ref_commits
  // -------------------------------------------------------------------------

  function HistoryRows(repo: Repository, name: string, items: seq<IndexedCommits.Item>): seq<Row> {
    if items == [] then []
    else
      (match items[0] case Emit(h, i) => [RefCommitRow(repo, name, h, i)] case Fail => [])
      + HistoryRows(repo, name, items[1..])
  }

  // The history of a hash; none when it resolves to no commit.
  function HistoryOf(repo: Repository, name: string, hash: Hash): seq<Row> {
    match Resolve(repo, hash)
    case Found(c) =>
      ResolveFindsCommit(repo, hash);
      HistoryRows(repo, name, IndexedCommits.History(repo, true, c))
    case _ => []
  }

  function RefCommitRowsOf(repo: Repository, refs: seq<Reference>): seq<Row>
    requires forall r :: r in refs ==> r.HashRef?
  {
    if refs == [] then [] else HistoryOf(repo, refs[0].name, refs[0].hash) + RefCommitRowsOf(repo, refs[1..])
  }

  function RefCommitRows(repo: Repository): seq<Row> {
    RefCommitRowsOf(repo, RefList(repo))
  }

  // -------------------------------------------------------------------------
  // commits, commit_files and files
  // -------------------------------------------------------------------------

  function Hashes(items: seq<CommitWalk.Item>): seq<Hash> {
    if items == [] then []
    else (match items[0] case Emit(c) => [c] case Fail => []) + Hashes(items[1..])
  }

  function CommitList(repo: Repository): (cs: seq<Hash>)
    ensures forall c :: c in cs ==> IsCommit(repo, c)
  {
    CommitsYieldCommits(repo, CommitWalk.Visits(repo, CommitWalk.Start(repo)));
    Hashes(CommitWalk.AllCommits(repo, true))
  }

  lemma {:induction false} CommitsYieldCommits(repo: Repository, visits: seq<CommitWalk.Visit>)
    ensures forall c :: c in Hashes(CommitWalk.Deliver(repo, true, visits)) ==> IsCommit(repo, c)
  {
    if visits != [] {
      var v := visits[0];
      CommitsYieldCommits(repo, visits[1..]);
      ResolveFindsCommit(repo, v.key);
      var rest := CommitWalk.Deliver(repo, true, visits[1..]);
      match CommitWalk.Yield(repo, v) {
        case Found(c) => assert ([CommitWalk.Emit(c)] + rest)[1..] == rest;
        case _ => assert [] + rest == rest;
      }
    }
  }

  function CommitRowsOf(repo: Repository, cs: seq<Hash>): seq<Row>
    requires forall c :: c in cs ==> IsCommit(repo, c)
  {
    if cs == [] then [] else [CommitRow(repo, cs[0])] + CommitRowsOf(repo, cs[1..])
  }

  function CommitRows(repo: Repository): seq<Row> {
    CommitRowsOf(repo, CommitList(repo))
  }

  // The files of a tree; none when the tree cannot be read.
  function FilesIn(repo: Repository, tree: Hash): seq<File> {
    if tree in repo.files then repo.files[tree] else []
  }

  function CommitFileRowsIn(repo: Repository, c: Hash, files: seq<File>): seq<Row>
    requires IsCommit(repo, c)
  {
    if files == [] then [] else [CommitFileRow(repo, c, files[0])] + CommitFileRowsIn(repo, c, files[1..])
  }

  function TreeOf(repo: Repository, c: Hash): Hash
    requires IsCommit(repo, c)
  {
    repo.objects[c].tree
  }

  function FilesOfCommit(repo: Repository, c: Hash): seq<Row>
    requires IsCommit(repo, c)
  {
    CommitFileRowsIn(repo, c, FilesIn(repo, TreeOf(repo, c)))
  }

  function CommitFileRowsOf(repo: Repository, cs: seq<Hash>): seq<Row>
    requires forall c :: c in cs ==> IsCommit(repo, c)
  {
    if cs == [] then []
    else FilesOfCommit(repo, cs[0]) + CommitFileRowsOf(repo, cs[1..])
  }

  function CommitFileRows(repo: Repository): seq<Row> {
    CommitFileRowsOf(repo, CommitList(repo))
  }

  function FileRowsIn(repo: Repository, tree: Hash, files: seq<File>, readContent: bool): seq<Row> {
    if files == [] then [] else [FileRow(repo, tree, files[0], readContent)] + FileRowsIn(repo, tree, files[1..], readContent)
  }

  // Each tree once, at the first commit that has it.
  function FileRowsOf(repo: Repository, cs: seq<Hash>, seen: set<Hash>, readContent: bool): seq<Row>
    requires forall c :: c in cs ==> IsCommit(repo, c)
  {
    if cs == [] then []
    else
      assert cs[0] in cs;
      var tree := TreeOf(repo, cs[0]);
      if tree in seen then FileRowsOf(repo, cs[1..], seen, readContent)
      else FileRowsIn(repo, tree, FilesIn(repo, tree), readContent) + FileRowsOf(repo, cs[1..], seen + {tree}, readContent)
  }

  function FileRows(repo: Repository, readContent: bool): seq<Row> {
    FileRowsOf(repo, CommitList(repo), {}, readContent)
  }

  // -------------------------------------------------------------------------
  // Rows with a given value in one position
  // -------------------------------------------------------------------------

  function Where(rows: seq<Row>, i: nat, v: Value): seq<Row> {
    if rows == [] then []
    else (if i < |rows[0]| && rows[0][i] == v then [rows[0]] else []) + Where(rows[1..], i, v)
  }

  lemma {:induction false} WhereAppend(a: seq<Row>, b: seq<Row>, i: nat, v: Value)
    ensures Where(a + b, i, v) == Where(a, i, v) + Where(b, i, v)
  {
    if a == [] {
      assert a + b == b;
    } else {
      WhereAppend(a[1..], b, i, v);
      assert (a + b)[1..] == a[1..] + b;
      var head := if i < |a[0]| && a[0][i] == v then [a[0]] else [];
      Associative(head, Where(a[1..], i, v), Where(b, i, v));
    }
  }

  lemma {:induction false} WhereAll(rows: seq<Row>, i: nat, v: Value)
    requires forall row :: row in rows ==> i < |row| && row[i] == v
    ensures Where(rows, i, v) == rows
  {
    if rows != [] {
      assert rows[0] in rows;
      WhereAll(rows[1..], i, v);
    }
  }

  lemma {:induction false} WhereNone(rows: seq<Row>, i: nat, v: Value)
    requires forall row :: row in rows ==> i < |row| && row[i] != v
    ensures Where(rows, i, v) == []
  {
    if rows != [] {
      assert rows[0] in rows;
      WhereNone(rows[1..], i, v);
    }
  }

  lemma {:induction false} WhereHas(rows: seq<Row>, i: nat, v: Value)
    ensures forall row :: row in Where(rows, i, v) <==> row in rows && i < |row| && row[i] == v
  {
    if rows != [] {
      WhereHas(rows[1..], i, v);
    }
  }
}
