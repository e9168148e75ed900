// The iterator over the table of files, with the selectors it applies by itself.

module FilesTable {
  import opened Objects
  import opened Expressions
  import opened Relations
  import opened Layout
  import opened Tables
  import opened Selectors
  import opened StageExactness
  import opened JoinFacts
  import opened ChainStages
  import CommitWalk

  // Values that restrict trees, blobs and paths; none of a kind is no restriction.
  datatype Wanted = Wanted(trees: Selector, blobs: Selector, paths: Selector)

  const ANY: Wanted := Wanted([], [], [])

  // A row, or a git error.
  datatype FileAnswer = Got(row: Row) | Error

  predicate WantsTree(w: Wanted, tree: Hash) {
    Allows(w.trees, Digest(tree))
  }

  predicate WantsFile(w: Wanted, f: File) {
    Allows(w.paths, Text(f.name)) && Allows(w.blobs, Digest(f.hash))
  }

  function FilesOfTree(repo: Repository, w: Wanted, readContent: bool, tree: Hash, files: seq<File>): seq<FileAnswer> {
    if files == [] then []
    else
      (if WantsFile(w, files[0]) then [Got(FileRow(repo, tree, files[0], readContent))] else [])
      + FilesOfTree(repo, w, readContent, tree, files[1..])
  }

  // The files of a tree that is visited for the first time.
  function OpenTree(repo: Repository, skip: bool, w: Wanted, readContent: bool, tree: Hash): seq<FileAnswer> {
    if tree in repo.files then FilesOfTree(repo, w, readContent, tree, repo.files[tree])
    else if skip then [] else [Error]
  }

  predicate Visits(repo: Repository, w: Wanted, seen: set<Hash>, c: Hash) {
    IsCommit(repo, c) && TreeOf(repo, c) !in seen && WantsTree(w, TreeOf(repo, c))
  }

  // What the iterator returns while its commits come in; only visited trees are marked.
  function Results(repo: Repository, skip: bool, w: Wanted, readContent: bool, items: seq<CommitWalk.Item>, seen: set<Hash>)
    : seq<FileAnswer>
    decreases items
  {
    if items == [] then []
    else
      match items[0]
      case Fail => (if skip then [] else [Error]) + Results(repo, skip, w, readContent, items[1..], seen)
      case Emit(c) =>
        if Visits(repo, w, seen, c) then
          OpenTree(repo, skip, w, readContent, TreeOf(repo, c))
          + Results(repo, skip, w, readContent, items[1..], seen + {TreeOf(repo, c)})
        else Results(repo, skip, w, readContent, items[1..], seen)
  }

  function AnswerRows(rs: seq<FileAnswer>): seq<Row> {
    if rs == [] then [] else (match rs[0] case Got(row) => [row] case Error => []) + AnswerRows(rs[1..])
  }

  // -------------------------------------------------------------------------
  // The iterator
  // -------------------------------------------------------------------------

  class FilesRowIter {
    const repo: Repository
    const commits: CommitWalk.CommitIter
    const skipGitErrors: bool
    const readContent: bool
    const wanted: Wanted
    var seen: set<Hash>
    var files: Option<seq<File>>
    var treeHash: Hash

    ghost predicate Ready()
      reads this, commits
    {
      commits.Ready() && commits.repo == repo
    }

    ghost function Pending(): seq<FileAnswer>
      requires Ready()
      reads this, commits
    {
      (if files.None? then [] else FilesOfTree(repo, wanted, readContent, treeHash, files.value))
      + Results(repo, skipGitErrors, wanted, readContent, commits.Remaining(), seen)
    }

    constructor (repo: Repository, wanted: Wanted, readContent: bool, skipGitErrors: bool)
      ensures Ready() && fresh(commits)
      ensures Pending() == Results(repo, skipGitErrors, wanted, readContent, CommitWalk.AllCommits(repo, skipGitErrors), {})
    {
      this.repo, this.wanted, this.readContent, this.skipGitErrors := repo, wanted, readContent, skipGitErrors;
      seen, files, treeHash := {}, None, Hash(0);
      commits := new CommitWalk.CommitIter(repo, skipGitErrors);
    }

    // None stands for the end.
    method Next() returns (r: Option<FileAnswer>)
      requires Ready()
      modifies this, commits
      ensures Ready() && TakesFirst(old(Pending()), r, Pending())
    {
      while true
        invariant Ready() && Pending() == old(Pending())
        decreases |commits.Remaining()|, if files.None? then 0 else 1 + |files.value|
      {
        if files.None? {
          var end: Option<FileAnswer>, more := NextTree();
          if !more {
            return end;
          }
        } else {
          r := NextFile();
          if r.Some? {
            return r;
          }
        }
      }
    }

    // Takes one commit. `more` says that the loop goes on; otherwise r is the result.
    method NextTree() returns (r: Option<FileAnswer>, more: bool)
      requires Ready() && files.None?
      modifies this, commits
      ensures Ready()
      ensures more ==> Pending() == old(Pending()) && |commits.Remaining()| < |old(commits.Remaining())|
      ensures !more ==> TakesFirst(old(Pending()), r, Pending())
    {
      ghost var items := commits.Remaining();
      var item := commits.Next();
      if item.None? {
        return None, false;
      }
      assert items == [item.value] + commits.Remaining();
      assert items[1..] == commits.Remaining();
      if item.value.Fail? {
        return Some(Error), skipGitErrors;
      }
      var tree := TreeOf(repo, item.value.commit);
      if tree in seen || !WantsTree(wanted, tree) {
        return None, true;
      }
      treeHash, seen := tree, seen + {tree};
      if tree !in repo.files {
        return Some(Error), skipGitErrors;
      }
      files := Some(repo.files[tree]);
      return None, true;
    }

    method NextFile() returns (r: Option<FileAnswer>)
      requires Ready() && files.Some?
      modifies this
      ensures Ready()
      ensures r.Some? ==> TakesFirst(old(Pending()), r, Pending())
      ensures r.None? ==> Pending() == old(Pending()) && (files.Some? ==> |files.value| < |old(files.value)|)
      ensures commits.Remaining() == old(commits.Remaining())
    {
      if |files.value| == 0 {
        files := None;
        return None;
      }
      var f := files.value[0];
      ghost var more := Results(repo, skipGitErrors, wanted, readContent, commits.Remaining(), seen);
      ghost var rest := FilesOfTree(repo, wanted, readContent, treeHash, files.value[1..]);
      files := Some(files.value[1..]);
      if !WantsFile(wanted, f) {
        assert [] + rest == rest;
        return None;
      }
      r := Some(Got(FileRow(repo, treeHash, f, readContent)));
      Associative([r.value], rest, more);
    }
  }

  // -------------------------------------------------------------------------
  // Restricting early is restricting afterwards
  // -------------------------------------------------------------------------

  lemma {:induction false} AnswerRowsAppend(a: seq<FileAnswer>, b: seq<FileAnswer>)
    ensures AnswerRows(a + b) == AnswerRows(a) + AnswerRows(b)
  {
    if a == [] {
      assert a + b == b;
    } else {
      AnswerRowsAppend(a[1..], b);
      assert (a + b)[1..] == a[1..] + b;
      Associative(match a[0] case Got(row) => [row] case Error => [], AnswerRows(a[1..]), AnswerRows(b));
    }
  }

  predicate WantsRow(w: Wanted, row: Row)
    requires |row| == 7
  {
    Allows(w.trees, row[3]) && Allows(w.paths, row[1]) && Allows(w.blobs, row[2])
  }

  ghost predicate FileWidth(rows: seq<Row>) {
    forall row :: row in rows ==> |row| == 7
  }

  function Restrict(w: Wanted, rows: seq<Row>): seq<Row>
    requires FileWidth(rows)
  {
    if rows == [] then []
    else
      assert rows[0] in rows;
      (if WantsRow(w, rows[0]) then [rows[0]] else []) + Restrict(w, rows[1..])
  }

  lemma {:induction false} RestrictAppend(w: Wanted, a: seq<Row>, b: seq<Row>)
    requires FileWidth(a) && FileWidth(b)
    ensures FileWidth(a + b) && Restrict(w, a + b) == Restrict(w, a) + Restrict(w, b)
  {
    if a == [] {
      assert a + b == b;
    } else {
      assert a[0] in a;
      RestrictAppend(w, a[1..], b);
      assert (a + b)[1..] == a[1..] + b;
      Associative(if WantsRow(w, a[0]) then [a[0]] else [], Restrict(w, a[1..]), Restrict(w, b));
    }
  }

  // The files of one tree.
  lemma WantsFileRow(repo: Repository, w: Wanted, readContent: bool, tree: Hash, f: File)
    ensures WantsRow(w, FileRow(repo, tree, f, readContent)) <==> WantsTree(w, tree) && WantsFile(w, f)
  {}

  lemma {:induction false} FilesRestricted(repo: Repository, w: Wanted, readContent: bool, tree: Hash, files: seq<File>)
    requires WantsTree(w, tree)
    ensures var all := AnswerRows(FilesOfTree(repo, ANY, readContent, tree, files));
            FileWidth(all) && Restrict(w, all) == AnswerRows(FilesOfTree(repo, w, readContent, tree, files))
  {
    if files != [] {
      var row := FileRow(repo, tree, files[0], readContent);
      var all := FilesOfTree(repo, ANY, readContent, tree, files[1..]);
      var some := FilesOfTree(repo, w, readContent, tree, files[1..]);
      FilesRestricted(repo, w, readContent, tree, files[1..]);
      WantsFileRow(repo, w, readContent, tree, files[0]);
      assert ([Got(row)] + all)[1..] == all && ([row] + AnswerRows(all))[1..] == AnswerRows(all);
      if WantsFile(w, files[0]) {
        assert ([Got(row)] + some)[1..] == some;
      } else {
        assert [] + some == some;
      }
    }
  }

  lemma {:induction false} FilesOfUnwanted(repo: Repository, w: Wanted, readContent: bool, tree: Hash, files: seq<File>)
    requires !WantsTree(w, tree)
    ensures var all := AnswerRows(FilesOfTree(repo, ANY, readContent, tree, files)); FileWidth(all) && Restrict(w, all) == []
  {
    if files != [] {
      var row := FileRow(repo, tree, files[0], readContent);
      var all := FilesOfTree(repo, ANY, readContent, tree, files[1..]);
      FilesOfUnwanted(repo, w, readContent, tree, files[1..]);
      WantsFileRow(repo, w, readContent, tree, files[0]);
      assert ([Got(row)] + all)[1..] == all && ([row] + AnswerRows(all))[1..] == AnswerRows(all);
    }
  }

  // The trees marked with a restriction are the wanted ones of those marked without.
  ghost predicate SeenAlike(w: Wanted, some: set<Hash>, all: set<Hash>) {
    forall t :: t in some <==> t in all && WantsTree(w, t)
  }

  lemma AfterError(skip: bool, rest: seq<FileAnswer>)
    ensures AnswerRows((if skip then [] else [Error]) + rest) == AnswerRows(rest)
  {
    assert [] + rest == rest && ([Error] + rest)[1..] == rest;
  }

  // Although different trees are marked as seen, the restricted iterator returns the wanted rows.
  lemma {:induction false} PushdownIsExact(repo: Repository, skip: bool, w: Wanted, readContent: bool,
                                           items: seq<CommitWalk.Item>, some: set<Hash>, all: set<Hash>)
    requires SeenAlike(w, some, all)
    ensures var rows := AnswerRows(Results(repo, skip, ANY, readContent, items, all));
            FileWidth(rows) && AnswerRows(Results(repo, skip, w, readContent, items, some)) == Restrict(w, rows)
    decreases items, 1
  {
    if items != [] {
      match items[0]
      case Fail =>
        PushdownIsExact(repo, skip, w, readContent, items[1..], some, all);
        AfterError(skip, Results(repo, skip, w, readContent, items[1..], some));
        AfterError(skip, Results(repo, skip, ANY, readContent, items[1..], all));
      case Emit(c) =>
        if Visits(repo, ANY, all, c) {
          VisitRestricted(repo, skip, w, readContent, items, some, all);
        } else {
          PushdownIsExact(repo, skip, w, readContent, items[1..], some, all);
        }
    }
  }

  lemma {:induction false} VisitRestricted(repo: Repository, skip: bool, w: Wanted, readContent: bool,
                                           items: seq<CommitWalk.Item>, some: set<Hash>, all: set<Hash>)
    requires SeenAlike(w, some, all) && items != [] && items[0].Emit? && Visits(repo, ANY, all, items[0].commit)
    ensures var rows := AnswerRows(Results(repo, skip, ANY, readContent, items, all));
            FileWidth(rows) && AnswerRows(Results(repo, skip, w, readContent, items, some)) == Restrict(w, rows)
    decreases items, 0
  {
    var tree := TreeOf(repo, items[0].commit);
    var own := OpenTree(repo, skip, ANY, readContent, tree);
    var some' := if WantsTree(w, tree) then some + {tree} else some;
    var rest := Results(repo, skip, ANY, readContent, items[1..], all + {tree});
    PushdownIsExact(repo, skip, w, readContent, items[1..], some', all + {tree});
    OpenRestricted(repo, skip, w, readContent, tree);
    AnswerRowsAppend(own, rest);
    RestrictAppend(w, AnswerRows(own), AnswerRows(rest));
    AnswerRowsAppend(OpenTree(repo, skip, w, readContent, tree), Results(repo, skip, w, readContent, items[1..], some'));
    if !WantsTree(w, tree) {
      assert [] + Restrict(w, AnswerRows(rest)) == Restrict(w, AnswerRows(rest));
    }
  }

  lemma OpenRestricted(repo: Repository, skip: bool, w: Wanted, readContent: bool, tree: Hash)
    ensures var all := AnswerRows(OpenTree(repo, skip, ANY, readContent, tree));
            && FileWidth(all)
            && Restrict(w, all) == if WantsTree(w, tree) then AnswerRows(OpenTree(repo, skip, w, readContent, tree)) else []
  {
    if tree in repo.files {
      if WantsTree(w, tree) {
        FilesRestricted(repo, w, readContent, tree, repo.files[tree]);
      } else {
        FilesOfUnwanted(repo, w, readContent, tree, repo.files[tree]);
      }
    }
  }

  // -------------------------------------------------------------------------
  // The unrestricted iterator is the plain table
  // -------------------------------------------------------------------------

  lemma {:induction false} AnyFilesOfTree(repo: Repository, readContent: bool, tree: Hash, files: seq<File>)
    ensures AnswerRows(FilesOfTree(repo, ANY, readContent, tree, files)) == FileRowsIn(repo, tree, files, readContent)
  {
    if files != [] {
      var rest := FilesOfTree(repo, ANY, readContent, tree, files[1..]);
      AnyFilesOfTree(repo, readContent, tree, files[1..]);
      assert ([Got(FileRow(repo, tree, files[0], readContent))] + rest)[1..] == rest;
    }
  }

  lemma {:induction false} UnrestrictedIsPlain(repo: Repository, readContent: bool, items: seq<CommitWalk.Item>, seen: set<Hash>)
    requires forall item :: item in items && item.Emit? ==> IsCommit(repo, item.commit)
    ensures AllCommits(repo, Hashes(items))
    ensures AnswerRows(Results(repo, true, ANY, readContent, items, seen)) == FileRowsOf(repo, Hashes(items), seen, readContent)
    decreases items
  {
    if items != [] {
      assert items[0] in items;
      var cs := Hashes(items[1..]);
      match items[0]
      case Fail =>
        UnrestrictedIsPlain(repo, readContent, items[1..], seen);
        var rest := Results(repo, true, ANY, readContent, items[1..], seen);
        assert [] + cs == cs && [] + rest == rest;
      case Emit(c) =>
        var tree := TreeOf(repo, c);
        assert ([c] + cs)[1..] == cs;
        if tree in seen {
          UnrestrictedIsPlain(repo, readContent, items[1..], seen);
        } else {
          UnrestrictedIsPlain(repo, readContent, items[1..], seen + {tree});
          AnyFilesOfTree(repo, readContent, tree, FilesIn(repo, tree));
          AnswerRowsAppend(OpenTree(repo, true, ANY, readContent, tree),
                       Results(repo, true, ANY, readContent, items[1..], seen + {tree}));
        }
    }
  }

  // -------------------------------------------------------------------------
  // A filtered read of the table
  // -------------------------------------------------------------------------

  const SELECTED: set<Column> := {RepositoryId, TreeHash, BlobHash, FilePath}

  function WantedOf(s: Selection): Wanted {
    Wanted(TextValues(Of(s, TreeHash)), TextValues(Of(s, BlobHash)), TextValues(Of(s, FilePath)))
  }

  // The rows the iterator returns for these selectors; none for another repository.
  function SelectedRows(repo: Repository, readContent: bool, s: Selection): seq<Row> {
    if !Allows(TextValues(Of(s, RepositoryId)), Text(repo.id)) then []
    else AnswerRows(Results(repo, true, WantedOf(s), readContent, CommitWalk.AllCommits(repo, true), {}))
  }

  // The selectors of each column are all equal and not empty.
  ghost predicate Consistent(s: Selection) {
    forall name :: name in s ==> AllEqual(s[name]) && s[name] != [] && s[name][0] != []
  }

  lemma ColumnAllows(s: Selection, name: Column, row: Row, i: nat)
    requires Consistent(s) && |row| == 7 && i < 7 && Columns(Files)[i] == name
    ensures Allows(TextValues(Of(s, name)), row[i]) <==> (name in s ==> InAll(At(Files, row, name), s[name]))
  {
    ColumnAt(Files, i);
    TextValuesAreExactIff(Of(s, name));
  }

  lemma MatchesByColumn(s: Selection, row: Row)
    requires s.Keys <= SELECTED
    ensures Matches(s, Files, row)
            <==> && (RepositoryId in s ==> InAll(At(Files, row, RepositoryId), s[RepositoryId]))
                 && (FilePath in s ==> InAll(At(Files, row, FilePath), s[FilePath]))
                 && (BlobHash in s ==> InAll(At(Files, row, BlobHash), s[BlobHash]))
                 && (TreeHash in s ==> InAll(At(Files, row, TreeHash), s[TreeHash]))
  {}

  // On a row of the repository, the selectors are what the iterator checks.
  lemma SelectorsAreChecked(repo: Repository, s: Selection, row: Row)
    requires Consistent(s) && s.Keys <= SELECTED && |row| == 7 && row[0] == Text(repo.id)
    ensures Matches(s, Files, row)
            <==> Allows(TextValues(Of(s, RepositoryId)), Text(repo.id)) && WantsRow(WantedOf(s), row)
  {
    MatchesByColumn(s, row);
    ColumnAllows(s, RepositoryId, row, 0);
    ColumnAllows(s, FilePath, row, 1);
    ColumnAllows(s, BlobHash, row, 2);
    ColumnAllows(s, TreeHash, row, 3);
  }

  lemma {:induction false} KeepRestricted(repo: Repository, fs: seq<Expr>, rows: seq<Row>)
    requires forall row :: row in rows ==> |row| == 7 && row[0] == Text(repo.id)
    requires Consistent(Classify(fs, Files, SELECTED).0)
    ensures var (s, conditions) := Classify(fs, Files, SELECTED);
            var selected := if Allows(TextValues(Of(s, RepositoryId)), Text(repo.id)) then Restrict(WantedOf(s), rows) else [];
            Keep(conditions, SchemaOf(Files), selected) == Keep(fs, SchemaOf(Files), rows)
  {
    if rows != [] {
      var row := rows[0];
      var (s, conditions) := Classify(fs, Files, SELECTED);
      assert row in rows;
      KeepRestricted(repo, fs, rows[1..]);
      ClassifyNames(fs, Files, SELECTED);
      ClassifyIsExact(fs, Files, SELECTED, row);
      SelectorsAreChecked(repo, s, row);
      var rest := Restrict(WantedOf(s), rows[1..]);
      assert ([row] + rest)[1..] == rest && [] + rest == rest;
      assert [] + Keep(fs, SchemaOf(Files), rows[1..]) == Keep(fs, SchemaOf(Files), rows[1..]);
    }
  }

  lemma {:induction false} FilesAreOfRepository(repo: Repository, readContent: bool, items: seq<CommitWalk.Item>, seen: set<Hash>)
    ensures forall row :: row in AnswerRows(Results(repo, true, ANY, readContent, items, seen)) ==>
              |row| == 7 && row[0] == Text(repo.id)
    decreases items
  {
    if items != [] {
      match items[0]
      case Fail =>
        FilesAreOfRepository(repo, readContent, items[1..], seen);
        AfterError(true, Results(repo, true, ANY, readContent, items[1..], seen));
      case Emit(c) =>
        if Visits(repo, ANY, seen, c) {
          var tree := TreeOf(repo, c);
          FilesAreOfRepository(repo, readContent, items[1..], seen + {tree});
          AnswerRowsAppend(OpenTree(repo, true, ANY, readContent, tree),
                       Results(repo, true, ANY, readContent, items[1..], seen + {tree}));
          AnyFilesOfTree(repo, readContent, tree, FilesIn(repo, tree));
          RowsInTree(repo, readContent, tree, FilesIn(repo, tree));
        } else {
          FilesAreOfRepository(repo, readContent, items[1..], seen);
        }
    }
  }

  lemma {:induction false} RowsInTree(repo: Repository, readContent: bool, tree: Hash, files: seq<File>)
    ensures forall row :: row in FileRowsIn(repo, tree, files, readContent) ==> |row| == 7 && row[0] == Text(repo.id)
  {
    if files != [] {
      RowsInTree(repo, readContent, tree, files[1..]);
    }
  }

  lemma PlainFiles(repo: Repository, readContent: bool)
    ensures AnswerRows(Results(repo, true, ANY, readContent, CommitWalk.AllCommits(repo, true), {}))
            == FileRows(repo, readContent)
  {
    CommitsAreCommits(repo, CommitWalk.Visits(repo, CommitWalk.Start(repo)));
    UnrestrictedIsPlain(repo, readContent, CommitWalk.AllCommits(repo, true), {});
  }

  lemma {:induction false} CommitsAreCommits(repo: Repository, visits: seq<CommitWalk.Visit>)
    ensures forall item :: item in CommitWalk.Deliver(repo, true, visits) && item.Emit? ==> IsCommit(repo, item.commit)
  {
    if visits != [] {
      CommitsAreCommits(repo, visits[1..]);
      ResolveFindsCommit(repo, visits[0].key);
    }
  }

  // Reading the table with the selectors taken out of the filters, and checking the other filters
  // afterwards, gives the rows of the table on which all filters are true.
  lemma SelectionIsExact(repo: Repository, readContent: bool, fs: seq<Expr>)
    requires Consistent(Classify(fs, Files, SELECTED).0)
    ensures var (s, conditions) := Classify(fs, Files, SELECTED);
            Keep(conditions, SchemaOf(Files), SelectedRows(repo, readContent, s))
            == Keep(fs, SchemaOf(Files), FileRows(repo, readContent))
  {
    var (s, conditions) := Classify(fs, Files, SELECTED);
    var items := CommitWalk.AllCommits(repo, true);
    PlainFiles(repo, readContent);
    FilesAreOfRepository(repo, readContent, items, {});
    PushdownIsExact(repo, true, WantedOf(s), readContent, items, {}, {});
    KeepRestricted(repo, fs, FileRows(repo, readContent));
  }
}
