// What the chained iterators return, one result after the other, and how that is a run of the stages.

module ChainEvents {
  import opened Objects
  import opened Expressions
  import opened SquashJoins
  import opened Relations
  import opened ProductRows
  import opened Layout
  import opened Tables
  import opened ChainStages
  import opened JoinFacts
  import IndexedCommits

  // A reference with its row, which is empty for a virtual iterator.
  datatype RefEvent = RefEvent(row: Row, ref: Reference)

  // A commit with its row, or a git error.
  datatype CommitEvent = AtCommit(row: Row, commit: Hash) | CommitError

  // A file with its row and the tree it was listed from, or a git error.
  datatype FileEvent = AtFile(row: Row, tree: Hash, file: File) | FileError

  // -------------------------------------------------------------------------
  // References
  // -------------------------------------------------------------------------

  // HEAD first, as a reference of its own.
  function HeadAndRefs(repo: Repository): seq<Reference> {
    (if repo.head.Some? then [HashRef("HEAD", repo.head.value)] else []) + repo.refs
  }

  function RefEvents(repo: Repository, filter: Option<Expr>, virtual: bool, refs: seq<Reference>): seq<RefEvent> {
    if refs == [] then []
    else
      (if refs[0].HashRef? && Passes(filter, RefRow(repo, refs[0]))
       then [RefEvent(if virtual then [] else RefRow(repo, refs[0]), refs[0])] else [])
      + RefEvents(repo, filter, virtual, refs[1..])
  }

  // -------------------------------------------------------------------------
  // Commits
  // -------------------------------------------------------------------------

  function HistoryEvents(repo: Repository, filter: Option<Expr>, prefix: Row, name: string, items: seq<IndexedCommits.Item>)
    : seq<CommitEvent>
  {
    if items == [] then []
    else
      (match items[0]
       case Fail => [CommitError]
       case Emit(h, i) =>
         var row := prefix + RefCommitRow(repo, name, h, i);
         if Passes(filter, row) then [AtCommit(row, h)] else [])
      + HistoryEvents(repo, filter, prefix, name, items[1..])
  }

  function RefHistory(repo: Repository, skip: bool, filter: Option<Expr>, e: RefEvent): seq<CommitEvent> {
    if !e.ref.HashRef? then []
    else
      match Resolve(repo, e.ref.hash)
      case NotACommit => []
      case Missing => if skip then [] else [CommitError]
      case Found(c) =>
        ResolveFindsCommit(repo, e.ref.hash);
        HistoryEvents(repo, filter, e.row, e.ref.name, IndexedCommits.History(repo, skip, c))
  }

  function RefCommitEvents(repo: Repository, skip: bool, filter: Option<Expr>, es: seq<RefEvent>): seq<CommitEvent> {
    if es == [] then [] else RefHistory(repo, skip, filter, es[0]) + RefCommitEvents(repo, skip, filter, es[1..])
  }

  // The one commit of a reference, with the row the iterator makes of it.
  function RefHead(repo: Repository, skip: bool, filter: Option<Expr>, make: (Row, string, Hash) -> Row, e: RefEvent)
    : seq<CommitEvent>
  {
    if !e.ref.HashRef? then []
    else
      match Resolve(repo, e.ref.hash)
      case NotACommit => []
      case Missing => if skip then [] else [CommitError]
      case Found(c) =>
        var row := make(e.row, e.ref.name, c);
        if Passes(filter, row) then [AtCommit(row, c)] else []
  }

  function HeadEvents(repo: Repository, skip: bool, filter: Option<Expr>, make: (Row, string, Hash) -> Row, es: seq<RefEvent>)
    : seq<CommitEvent>
  {
    if es == [] then [] else RefHead(repo, skip, filter, make, es[0]) + HeadEvents(repo, skip, filter, make, es[1..])
  }

  function WithRefCommit(repo: Repository): (Row, string, Hash) -> Row {
    (row, name, commit) => row + RefCommitRow(repo, name, commit, 0)
  }

  function WithCommit(repo: Repository, virtual: bool): (Row, string, Hash) -> Row {
    (row, name, commit) => if virtual || !IsCommit(repo, commit) then row else row + CommitRow(repo, commit)
  }

  // The columns of commits after those of ref_commits.
  function CommitsEvents(repo: Repository, filter: Option<Expr>, es: seq<CommitEvent>): seq<CommitEvent> {
    if es == [] then []
    else
      (match es[0]
       case CommitError => [CommitError]
       case AtCommit(prefix, c) =>
         var row := if IsCommit(repo, c) then prefix + CommitRow(repo, c) else prefix;
         if Passes(filter, row) then [AtCommit(row, c)] else [])
      + CommitsEvents(repo, filter, es[1..])
  }

  // -------------------------------------------------------------------------
  // Files
  // -------------------------------------------------------------------------

  function ListEvents(repo: Repository, filter: Option<Expr>, prefix: Row, c: Hash, files: seq<File>): seq<FileEvent>
    requires IsCommit(repo, c)
  {
    if files == [] then []
    else
      var row := prefix + CommitFileRow(repo, c, files[0]);
      (if Passes(filter, row) then [AtFile(row, TreeOf(repo, c), files[0])] else [])
      + ListEvents(repo, filter, prefix, c, files[1..])
  }

  function FilesOfEvent(repo: Repository, skip: bool, filter: Option<Expr>, e: CommitEvent): seq<FileEvent> {
    match e
    case CommitError => if skip then [] else [FileError]
    case AtCommit(prefix, c) =>
      if !IsCommit(repo, c) then []
      else if TreeOf(repo, c) !in repo.files then if skip then [] else [FileError]
      else ListEvents(repo, filter, prefix, c, repo.files[TreeOf(repo, c)])
  }

  function CommitFileEvents(repo: Repository, skip: bool, filter: Option<Expr>, es: seq<CommitEvent>): seq<FileEvent> {
    if es == [] then [] else FilesOfEvent(repo, skip, filter, es[0]) + CommitFileEvents(repo, skip, filter, es[1..])
  }

  function FilesEvents(repo: Repository, readContent: bool, filter: Option<Expr>, es: seq<FileEvent>): seq<FileEvent> {
    if es == [] then []
    else
      (match es[0]
       case FileError => [FileError]
       case AtFile(prefix, tree, f) =>
         var row := prefix + FileRow(repo, tree, f, readContent);
         if Passes(filter, row) then [AtFile(row, tree, f)] else [])
      + FilesEvents(repo, readContent, filter, es[1..])
  }

  // -------------------------------------------------------------------------
  // Rows
  // -------------------------------------------------------------------------

  function RowsOfRefs(es: seq<RefEvent>): seq<Row> {
    if es == [] then [] else [es[0].row] + RowsOfRefs(es[1..])
  }

  function RowsOfCommits(es: seq<CommitEvent>): seq<Row> {
    if es == [] then []
    else (match es[0] case AtCommit(row, _) => [row] case CommitError => []) + RowsOfCommits(es[1..])
  }

  function RowsOfFiles(es: seq<FileEvent>): seq<Row> {
    if es == [] then []
    else (match es[0] case AtFile(row, _, _) => [row] case FileError => []) + RowsOfFiles(es[1..])
  }

  // The columns of a row say which reference, commit or file the iterator is at.
  predicate AtRef(schema: Schema, e: RefEvent) {
    && |e.row| == |schema| && e.ref.HashRef?
    && ValueOf(schema, e.row, Col(References, RefName)) == Text(e.ref.name)
    && ValueOf(schema, e.row, Col(References, CommitHash)) == Digest(e.ref.hash)
  }

  predicate KnowsCommit(repo: Repository, schema: Schema, col: Col, e: CommitEvent) {
    e.AtCommit? ==> |e.row| == |schema| && IsCommit(repo, e.commit) && ValueOf(schema, e.row, col) == Digest(e.commit)
  }

  predicate KnowsFile(repo: Repository, schema: Schema, e: FileEvent) {
    e.AtFile? ==>
      && |e.row| == |schema|
      && ValueOf(schema, e.row, Col(CommitFiles, TreeHash)) == Digest(e.tree)
      && ValueOf(schema, e.row, Col(CommitFiles, FilePath)) == Text(e.file.name)
      && e.file in FilesIn(repo, e.tree)
  }

  ghost predicate AllAtRef(schema: Schema, es: seq<RefEvent>) {
    forall e :: e in es ==> AtRef(schema, e)
  }

  ghost predicate AllKnowCommit(repo: Repository, schema: Schema, col: Col, es: seq<CommitEvent>) {
    forall e :: e in es ==> KnowsCommit(repo, schema, col, e)
  }

  ghost predicate AllKnowFile(repo: Repository, schema: Schema, es: seq<FileEvent>) {
    forall e :: e in es ==> KnowsFile(repo, schema, e)
  }

  lemma {:induction false} RowsOfCommitsAppend(a: seq<CommitEvent>, b: seq<CommitEvent>)
    ensures RowsOfCommits(a + b) == RowsOfCommits(a) + RowsOfCommits(b)
  {
    if a == [] {
      assert a + b == b;
    } else {
      RowsOfCommitsAppend(a[1..], b);
      assert (a + b)[1..] == a[1..] + b;
      Associative(match a[0] case AtCommit(row, _) => [row] case CommitError => [], RowsOfCommits(a[1..]), RowsOfCommits(b));
    }
  }

  lemma {:induction false} RowsOfFilesAppend(a: seq<FileEvent>, b: seq<FileEvent>)
    ensures RowsOfFiles(a + b) == RowsOfFiles(a) + RowsOfFiles(b)
  {
    if a == [] {
      assert a + b == b;
    } else {
      RowsOfFilesAppend(a[1..], b);
      assert (a + b)[1..] == a[1..] + b;
      Associative(match a[0] case AtFile(row, _, _) => [row] case FileError => [], RowsOfFiles(a[1..]), RowsOfFiles(b));
    }
  }

  // Rows that pass, with columns in front.
  lemma {:induction false} HistoryEventsAreRows(repo: Repository, filter: Option<Expr>, prefix: Row, name: string,
                                                items: seq<IndexedCommits.Item>)
    ensures RowsOfCommits(HistoryEvents(repo, filter, prefix, name, items))
            == Filtered(filter, Pairs(prefix, HistoryRows(repo, name, items)))
  {
    if items != [] {
      var rest := HistoryEvents(repo, filter, prefix, name, items[1..]);
      HistoryEventsAreRows(repo, filter, prefix, name, items[1..]);
      match items[0]
      case Fail =>
        assert ([CommitError] + rest)[1..] == rest;
        assert [] + HistoryRows(repo, name, items[1..]) == HistoryRows(repo, name, items[1..]);
      case Emit(h, i) =>
        var row, tail := prefix + RefCommitRow(repo, name, h, i), HistoryRows(repo, name, items[1..]);
        assert ([RefCommitRow(repo, name, h, i)] + tail)[1..] == tail;
        assert ([row] + Pairs(prefix, tail))[1..] == Pairs(prefix, tail);
        if Passes(filter, row) {
          assert ([AtCommit(row, h)] + rest)[1..] == rest;
        } else {
          assert [] + rest == rest;
        }
    }
  }
}
