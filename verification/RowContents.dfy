// What the columns of refs, ref_commits, commits, commit_files and files hold, said by name and read off
// the git objects, and that the rows of squashed queries hold just that.

module RowContents {
  import opened Objects
  import opened Expressions
  import opened SquashJoins
  import opened Relations
  import opened Layout
  import opened Tables
  import opened ProductRows
  import opened ChainStages

  // -------------------------------------------------------------------------
  // The columns, by name
  // -------------------------------------------------------------------------

  ghost predicate ShowsRef(repo: Repository, schema: Schema, row: Row, name: string, hash: Hash) {
    && ValueOf(schema, row, Col(References, RepositoryId)) == Text(repo.id)
    && ValueOf(schema, row, Col(References, RefName)) == Text(name)
    && ValueOf(schema, row, Col(References, CommitHash)) == Digest(hash)
  }

  ghost predicate ShowsRefCommit(repo: Repository, schema: Schema, row: Row, name: string, h: Hash, i: nat) {
    && ValueOf(schema, row, Col(RefCommits, RepositoryId)) == Text(repo.id)
    && ValueOf(schema, row, Col(RefCommits, CommitHash)) == Digest(h)
    && ValueOf(schema, row, Col(RefCommits, RefName)) == Text(name)
    && ValueOf(schema, row, Col(RefCommits, HistoryIndex)) == Number(i)
  }

  ghost predicate AreDigests(v: Value, hashes: seq<Hash>) {
    v.List? && |v.values| == |hashes| && forall k :: 0 <= k < |hashes| ==> v.values[k] == Digest(hashes[k])
  }

  ghost predicate ShowsSignatures(schema: Schema, row: Row, author: Signature, committer: Signature) {
    && ValueOf(schema, row, Col(Commits, AuthorName)) == Text(author.name)
    && ValueOf(schema, row, Col(Commits, AuthorEmail)) == Text(author.email)
    && ValueOf(schema, row, Col(Commits, AuthorWhen)) == Time(author.time)
    && ValueOf(schema, row, Col(Commits, CommitterName)) == Text(committer.name)
    && ValueOf(schema, row, Col(Commits, CommitterEmail)) == Text(committer.email)
    && ValueOf(schema, row, Col(Commits, CommitterWhen)) == Time(committer.time)
  }

  ghost predicate ShowsCommit(repo: Repository, schema: Schema, row: Row, h: Hash) {
    h in repo.objects && repo.objects[h].Commit? &&
    var c := repo.objects[h];
    && ValueOf(schema, row, Col(Commits, RepositoryId)) == Text(repo.id)
    && ValueOf(schema, row, Col(Commits, CommitHash)) == Digest(h)
    && ShowsSignatures(schema, row, c.author, c.committer)
    && ValueOf(schema, row, Col(Commits, CommitMessage)) == Text(c.message)
    && ValueOf(schema, row, Col(Commits, TreeHash)) == Digest(c.tree)
    && AreDigests(ValueOf(schema, row, Col(Commits, CommitParents)), c.parents)
  }

  ghost predicate ShowsCommitFile(repo: Repository, schema: Schema, row: Row, h: Hash, f: File) {
    && h in repo.objects && repo.objects[h].Commit?
    && ValueOf(schema, row, Col(CommitFiles, RepositoryId)) == Text(repo.id)
    && ValueOf(schema, row, Col(CommitFiles, CommitHash)) == Digest(h)
    && ValueOf(schema, row, Col(CommitFiles, FilePath)) == Text(f.name)
    && ValueOf(schema, row, Col(CommitFiles, BlobHash)) == Digest(f.hash)
    && ValueOf(schema, row, Col(CommitFiles, TreeHash)) == Digest(repo.objects[h].tree)
  }

  ghost predicate ShowsFile(repo: Repository, schema: Schema, row: Row, tree: Hash, f: File, readContent: bool) {
    && ValueOf(schema, row, Col(Files, RepositoryId)) == Text(repo.id)
    && ValueOf(schema, row, Col(Files, FilePath)) == Text(f.name)
    && ValueOf(schema, row, Col(Files, BlobHash)) == Digest(f.hash)
    && ValueOf(schema, row, Col(Files, TreeHash)) == Digest(tree)
    && ValueOf(schema, row, Col(Files, TreeEntryMode)) == Text(f.mode)
    && ValueOf(schema, row, Col(Files, BlobContent)) == (if readContent then Text(f.content) else Null)
    && ValueOf(schema, row, Col(Files, BlobSize)) == Number(f.size)
  }

  // -------------------------------------------------------------------------
  // Rows that are held
  // -------------------------------------------------------------------------

  lemma HeldColumn(schema: Schema, row: Row, t: Table, r: Row, i: nat, name: Column)
    requires Holds(schema, row, t, r) && i < |Columns(t)| && Columns(t)[i] == name
    ensures i < |r| && ValueOf(schema, row, Col(t, name)) == r[i]
  {
    HeldAt(schema, row, t, r, i);
  }

  lemma HeldRef(repo: Repository, schema: Schema, row: Row, ref: Reference)
    requires ref.HashRef? && Holds(schema, row, References, RefRow(repo, ref))
    ensures ShowsRef(repo, schema, row, ref.name, ref.hash)
  {
    HeldColumn(schema, row, References, RefRow(repo, ref), 0, RepositoryId);
    HeldColumn(schema, row, References, RefRow(repo, ref), 1, RefName);
    HeldColumn(schema, row, References, RefRow(repo, ref), 2, CommitHash);
  }

  lemma HeldRefCommit(repo: Repository, schema: Schema, row: Row, name: string, h: Hash, i: nat)
    requires Holds(schema, row, RefCommits, RefCommitRow(repo, name, h, i))
    ensures ShowsRefCommit(repo, schema, row, name, h, i)
  {
    var r := RefCommitRow(repo, name, h, i);
    HeldColumn(schema, row, RefCommits, r, 0, RepositoryId);
    HeldColumn(schema, row, RefCommits, r, 1, CommitHash);
    HeldColumn(schema, row, RefCommits, r, 2, RefName);
    HeldColumn(schema, row, RefCommits, r, 3, HistoryIndex);
  }

  // The row of a commit, by position.
  lemma CommitRowCells(repo: Repository, h: Hash)
    requires h in repo.objects && repo.objects[h].Commit?
    ensures var r, c := CommitRow(repo, h), repo.objects[h];
            && |r| == 11
            && r[0] == Text(repo.id) && r[1] == Digest(h)
            && r[2] == Text(c.author.name) && r[3] == Text(c.author.email) && r[4] == Time(c.author.time)
            && r[5] == Text(c.committer.name) && r[6] == Text(c.committer.email) && r[7] == Time(c.committer.time)
            && r[8] == Text(c.message) && r[9] == Digest(c.tree) && AreDigests(r[10], c.parents)
  {}

  lemma HeldSignatures(schema: Schema, row: Row, r: Row, author: Signature, committer: Signature)
    requires Holds(schema, row, Commits, r) && |r| == 11
    requires r[2] == Text(author.name) && r[3] == Text(author.email) && r[4] == Time(author.time)
    requires r[5] == Text(committer.name) && r[6] == Text(committer.email) && r[7] == Time(committer.time)
    ensures ShowsSignatures(schema, row, author, committer)
  {
    HeldColumn(schema, row, Commits, r, 2, AuthorName);
    HeldColumn(schema, row, Commits, r, 3, AuthorEmail);
    HeldColumn(schema, row, Commits, r, 4, AuthorWhen);
    HeldColumn(schema, row, Commits, r, 5, CommitterName);
    HeldColumn(schema, row, Commits, r, 6, CommitterEmail);
    HeldColumn(schema, row, Commits, r, 7, CommitterWhen);
  }

  lemma HeldCommit(repo: Repository, schema: Schema, row: Row, h: Hash)
    requires IsCommit(repo, h) && Holds(schema, row, Commits, CommitRow(repo, h))
    ensures ShowsCommit(repo, schema, row, h)
  {
    var r, c := CommitRow(repo, h), repo.objects[h];
    CommitRowCells(repo, h);
    HeldSignatures(schema, row, r, c.author, c.committer);
    HeldColumn(schema, row, Commits, r, 0, RepositoryId);
    HeldColumn(schema, row, Commits, r, 1, CommitHash);
    HeldColumn(schema, row, Commits, r, 8, CommitMessage);
    HeldColumn(schema, row, Commits, r, 9, TreeHash);
    HeldColumn(schema, row, Commits, r, 10, CommitParents);
  }

  lemma HeldCommitFile(repo: Repository, schema: Schema, row: Row, h: Hash, f: File)
    requires IsCommit(repo, h) && Holds(schema, row, CommitFiles, CommitFileRow(repo, h, f))
    ensures ShowsCommitFile(repo, schema, row, h, f)
  {
    var r := CommitFileRow(repo, h, f);
    HeldColumn(schema, row, CommitFiles, r, 0, RepositoryId);
    HeldColumn(schema, row, CommitFiles, r, 1, CommitHash);
    HeldColumn(schema, row, CommitFiles, r, 2, FilePath);
    HeldColumn(schema, row, CommitFiles, r, 3, BlobHash);
    HeldColumn(schema, row, CommitFiles, r, 4, TreeHash);
  }

  // The row of a file, by position.
  lemma FileRowCells(repo: Repository, tree: Hash, f: File, readContent: bool)
    ensures var r := FileRow(repo, tree, f, readContent);
            && |r| == 7
            && r[0] == Text(repo.id) && r[1] == Text(f.name) && r[2] == Digest(f.hash) && r[3] == Digest(tree)
            && r[4] == Text(f.mode) && r[5] == (if readContent then Text(f.content) else Null) && r[6] == Number(f.size)
  {}

  lemma HeldFile(repo: Repository, schema: Schema, row: Row, tree: Hash, f: File, readContent: bool)
    requires Holds(schema, row, Files, FileRow(repo, tree, f, readContent))
    ensures ShowsFile(repo, schema, row, tree, f, readContent)
  {
    var r := FileRow(repo, tree, f, readContent);
    FileRowCells(repo, tree, f, readContent);
    HeldColumn(schema, row, Files, r, 0, RepositoryId);
    HeldColumn(schema, row, Files, r, 1, FilePath);
    HeldColumn(schema, row, Files, r, 2, BlobHash);
    HeldColumn(schema, row, Files, r, 3, TreeHash);
    HeldColumn(schema, row, Files, r, 4, TreeEntryMode);
    HeldColumn(schema, row, Files, r, 5, BlobContent);
    HeldColumn(schema, row, Files, r, 6, BlobSize);
  }

  // -------------------------------------------------------------------------
  // Rows on their own, and behind other columns
  // -------------------------------------------------------------------------

  // A row on its own holds its columns.
  lemma OwnRow(t: Table, r: Row)
    requires |r| == |SchemaOf(t)|
    ensures Holds(SchemaOf(t), r, t, r)
  {
    HoldsTail([], [], t, r);
    assert [] + SchemaOf(t) == SchemaOf(t) && [] + r == r;
  }

  lemma OwnRef(repo: Repository, ref: Reference)
    requires ref.HashRef?
    ensures ShowsRef(repo, SchemaOf(References), RefRow(repo, ref), ref.name, ref.hash)
  {
    OwnRow(References, RefRow(repo, ref));
    HeldRef(repo, SchemaOf(References), RefRow(repo, ref), ref);
  }

  lemma OwnRefCommit(repo: Repository, name: string, h: Hash, i: nat)
    ensures ShowsRefCommit(repo, SchemaOf(RefCommits), RefCommitRow(repo, name, h, i), name, h, i)
  {
    OwnRow(RefCommits, RefCommitRow(repo, name, h, i));
    HeldRefCommit(repo, SchemaOf(RefCommits), RefCommitRow(repo, name, h, i), name, h, i);
  }

  lemma OwnCommit(repo: Repository, h: Hash)
    requires IsCommit(repo, h)
    ensures ShowsCommit(repo, SchemaOf(Commits), CommitRow(repo, h), h)
  {
    CommitRowCells(repo, h);
    OwnRow(Commits, CommitRow(repo, h));
    HeldCommit(repo, SchemaOf(Commits), CommitRow(repo, h), h);
  }

  lemma OwnCommitFile(repo: Repository, h: Hash, f: File)
    requires IsCommit(repo, h)
    ensures ShowsCommitFile(repo, SchemaOf(CommitFiles), CommitFileRow(repo, h, f), h, f)
  {
    OwnRow(CommitFiles, CommitFileRow(repo, h, f));
    HeldCommitFile(repo, SchemaOf(CommitFiles), CommitFileRow(repo, h, f), h, f);
  }

  lemma OwnFile(repo: Repository, tree: Hash, f: File, readContent: bool)
    ensures ShowsFile(repo, SchemaOf(Files), FileRow(repo, tree, f, readContent), tree, f, readContent)
  {
    FileRowCells(repo, tree, f, readContent);
    OwnRow(Files, FileRow(repo, tree, f, readContent));
    HeldFile(repo, SchemaOf(Files), FileRow(repo, tree, f, readContent), tree, f, readContent);
  }

  // The last n columns of a row, the ones an iterator appended.
  function Last(row: Row, n: nat): Row {
    if n <= |row| then row[|row| - n..] else row
  }

  ghost predicate EndsWithRefCommit(repo: Repository, row: Row, name: string, h: Hash) {
    exists i: nat :: ShowsRefCommit(repo, SchemaOf(RefCommits), Last(row, 4), name, h, i)
  }

  ghost predicate EndsWithHead(repo: Repository, row: Row, name: string, h: Hash) {
    ShowsRefCommit(repo, SchemaOf(RefCommits), Last(row, 4), name, h, 0)
  }

  ghost predicate EndsWithCommit(repo: Repository, row: Row, h: Hash) {
    ShowsCommit(repo, SchemaOf(Commits), Last(row, 11), h)
  }

  ghost predicate EndsWithCommitFile(repo: Repository, row: Row, h: Hash, f: File) {
    ShowsCommitFile(repo, SchemaOf(CommitFiles), Last(row, 5), h, f)
  }

  ghost predicate EndsWithFile(repo: Repository, row: Row, tree: Hash, f: File, readContent: bool) {
    ShowsFile(repo, SchemaOf(Files), Last(row, 7), tree, f, readContent)
  }

  lemma LastOf(prefix: Row, tail: Row)
    ensures Last(prefix + tail, |tail|) == tail
  {}

  lemma RefCommitAppended(repo: Repository, prefix: Row, name: string, h: Hash, i: nat)
    ensures EndsWithRefCommit(repo, prefix + RefCommitRow(repo, name, h, i), name, h)
  {
    OwnRefCommit(repo, name, h, i);
    LastOf(prefix, RefCommitRow(repo, name, h, i));
  }

  lemma HeadAppended(repo: Repository, prefix: Row, name: string, h: Hash)
    ensures EndsWithHead(repo, prefix + RefCommitRow(repo, name, h, 0), name, h)
  {
    OwnRefCommit(repo, name, h, 0);
    LastOf(prefix, RefCommitRow(repo, name, h, 0));
  }

  lemma CommitAppended(repo: Repository, prefix: Row, h: Hash)
    requires IsCommit(repo, h)
    ensures EndsWithCommit(repo, prefix + CommitRow(repo, h), h)
  {
    CommitRowCells(repo, h);
    OwnCommit(repo, h);
    LastOf(prefix, CommitRow(repo, h));
  }

  lemma CommitFileAppended(repo: Repository, prefix: Row, h: Hash, f: File)
    requires IsCommit(repo, h)
    ensures EndsWithCommitFile(repo, prefix + CommitFileRow(repo, h, f), h, f)
  {
    OwnCommitFile(repo, h, f);
    LastOf(prefix, CommitFileRow(repo, h, f));
  }

  lemma FileAppended(repo: Repository, prefix: Row, tree: Hash, f: File, readContent: bool)
    ensures EndsWithFile(repo, prefix + FileRow(repo, tree, f, readContent), tree, f, readContent)
  {
    FileRowCells(repo, tree, f, readContent);
    OwnFile(repo, tree, f, readContent);
    LastOf(prefix, FileRow(repo, tree, f, readContent));
  }
}
