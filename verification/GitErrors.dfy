// When the iterators report git errors, and that skipping them loses no row.

module GitErrors {
  import opened Objects
  import opened Expressions
  import opened Tables
  import opened ChainEvents
  import opened MainTrees
  import IndexedCommits
  import CommitWalk
  import TableIterators
  import FilesTable

  // -------------------------------------------------------------------------
  // The chain from references
  // -------------------------------------------------------------------------

  // The reference leads to an object that is not there, or its commit to a parent that is no commit.
  ghost predicate IsBroken(repo: Repository, r: RefEvent) {
    r.ref.HashRef? &&
    match Resolve(repo, r.ref.hash)
    case Missing => true
    case NotACommit => false
    case Found(c) => exists h :: Reachable(repo, c, h) && !IsCommit(repo, h)
  }

  lemma {:induction false} HistoryFails(repo: Repository, filter: Option<Expr>, prefix: Row, name: string,
                                        items: seq<IndexedCommits.Item>)
    ensures CommitError in HistoryEvents(repo, filter, prefix, name, items) <==> IndexedCommits.Fail in items
  {
    if items != [] {
      HistoryFails(repo, filter, prefix, name, items[1..]);
      assert items == [items[0]] + items[1..];
    }
  }

  lemma RefHistoryFails(repo: Repository, skip: bool, filter: Option<Expr>, r: RefEvent)
    ensures CommitError in RefHistory(repo, skip, filter, r) <==> !skip && IsBroken(repo, r)
  {
    if r.ref.HashRef? && Resolve(repo, r.ref.hash).Found? {
      ResolveFindsCommit(repo, r.ref.hash);
      var c := Resolve(repo, r.ref.hash).commit;
      IndexedCommits.HistoryIsExact(repo, skip, c);
      HistoryFails(repo, filter, r.row, r.ref.name, IndexedCommits.History(repo, skip, c));
    }
  }

  // The histories of references report an error exactly if one of the references is broken.
  lemma {:induction false} RefCommitsFailIff(repo: Repository, skip: bool, filter: Option<Expr>, es: seq<RefEvent>)
    ensures CommitError in RefCommitEvents(repo, skip, filter, es) <==> !skip && exists r :: r in es && IsBroken(repo, r)
  {
    if es != [] {
      RefCommitsFailIff(repo, skip, filter, es[1..]);
      RefHistoryFails(repo, skip, filter, es[0]);
      assert es == [es[0]] + es[1..];
    }
  }

  ghost predicate IsDangling(repo: Repository, r: RefEvent) {
    r.ref.HashRef? && Resolve(repo, r.ref.hash) == Missing
  }

  // Head commits are reported as missing exactly if a reference leads to an object that is not there.
  lemma {:induction false} HeadsFailIff(repo: Repository, skip: bool, filter: Option<Expr>, make: (Row, string, Hash) -> Row,
                                        es: seq<RefEvent>)
    ensures CommitError in HeadEvents(repo, skip, filter, make, es) <==> !skip && exists r :: r in es && IsDangling(repo, r)
  {
    if es != [] {
      HeadsFailIff(repo, skip, filter, make, es[1..]);
      assert es == [es[0]] + es[1..];
      assert CommitError in RefHead(repo, skip, filter, make, es[0]) <==> !skip && IsDangling(repo, es[0]);
    }
  }

  lemma {:induction false} CommitsFailIff(repo: Repository, filter: Option<Expr>, es: seq<CommitEvent>)
    ensures CommitError in CommitsEvents(repo, filter, es) <==> CommitError in es
  {
    if es != [] {
      CommitsFailIff(repo, filter, es[1..]);
      assert es == [es[0]] + es[1..];
    }
  }

  // -------------------------------------------------------------------------
  // The chain from commits
  // -------------------------------------------------------------------------

  // The files of the commit cannot be listed.
  ghost predicate HasNoFiles(repo: Repository, e: CommitEvent) {
    e.AtCommit? && IsCommit(repo, e.commit) && repo.objects[e.commit].tree !in repo.files
  }

  lemma {:induction false} ListsAreWhole(repo: Repository, filter: Option<Expr>, prefix: Row, c: Hash, files: seq<File>)
    requires IsCommit(repo, c)
    ensures FileError !in ListEvents(repo, filter, prefix, c, files)
  {
    if files != [] {
      ListsAreWhole(repo, filter, prefix, c, files[1..]);
    }
  }

  lemma {:induction false} CommitFilesFailIff(repo: Repository, skip: bool, filter: Option<Expr>, es: seq<CommitEvent>)
    ensures FileError in CommitFileEvents(repo, skip, filter, es)
            <==> !skip && (CommitError in es || exists e :: e in es && HasNoFiles(repo, e))
  {
    if es != [] {
      var e := es[0];
      CommitFilesFailIff(repo, skip, filter, es[1..]);
      assert es == [e] + es[1..];
      FilesOfEventFail(repo, skip, filter, e);
    }
  }

  lemma FilesOfEventFail(repo: Repository, skip: bool, filter: Option<Expr>, e: CommitEvent)
    ensures FileError in FilesOfEvent(repo, skip, filter, e) <==> !skip && (e == CommitError || HasNoFiles(repo, e))
  {
    if e.AtCommit? && IsCommit(repo, e.commit) && TreeOf(repo, e.commit) in repo.files {
      ListsAreWhole(repo, filter, e.row, e.commit, repo.files[TreeOf(repo, e.commit)]);
    }
  }

  lemma {:induction false} FilesFailIff(repo: Repository, readContent: bool, filter: Option<Expr>, es: seq<FileEvent>)
    ensures FileError in FilesEvents(repo, readContent, filter, es) <==> FileError in es
  {
    if es != [] {
      FilesFailIff(repo, readContent, filter, es[1..]);
      assert es == [es[0]] + es[1..];
    }
  }

  // The tree of the commit is not stored.
  ghost predicate HasNoTree(repo: Repository, e: CommitEvent) {
    e.AtCommit? && IsCommit(repo, e.commit) &&
    var t := repo.objects[e.commit].tree;
    !(t in repo.objects && repo.objects[t].Tree?)
  }

  lemma {:induction false} MainTreesFailIff(repo: Repository, skip: bool, filter: Option<Expr>, virtual: bool,
                                            es: seq<CommitEvent>)
    ensures TreeError in MainTreeEvents(repo, skip, filter, virtual, es)
            <==> CommitError in es || (!skip && exists e :: e in es && HasNoTree(repo, e))
  {
    if es != [] {
      MainTreesFailIff(repo, skip, filter, virtual, es[1..]);
      assert es == [es[0]] + es[1..];
      assert TreeError in MainTreeOf(repo, skip, filter, virtual, es[0])
             <==> es[0] == CommitError || (!skip && HasNoTree(repo, es[0]));
    }
  }

  // -------------------------------------------------------------------------
  // The plain tables
  // -------------------------------------------------------------------------

  lemma {:induction false} FilesAtAreWhole(repo: Repository, paths: seq<string>, c: Hash, files: seq<File>)
    requires IsCommit(repo, c)
    ensures TableIterators.Error !in TableIterators.FilesAt(repo, paths, c, files)
  {
    if files != [] {
      FilesAtAreWhole(repo, paths, c, files[1..]);
    }
  }

  // An error of the commits comes before any commit that the iterator crashes on.
  ghost predicate FailsFirst(repo: Repository, items: seq<CommitWalk.Item>) {
    exists i :: 0 <= i < |items| && items[i].Fail? && forall j :: 0 <= j < i ==> Listable(repo, items[j])
  }

  ghost predicate Listable(repo: Repository, item: CommitWalk.Item) {
    item.Emit? && IsCommit(repo, item.commit) ==> repo.objects[item.commit].tree in repo.files
  }

  lemma FailsLater(repo: Repository, items: seq<CommitWalk.Item>)
    requires items != []
    ensures FailsFirst(repo, items) <==> items[0].Fail? || (Listable(repo, items[0]) && FailsFirst(repo, items[1..]))
  {
    if FailsFirst(repo, items) && !items[0].Fail? {
      var i :| 0 <= i < |items| && items[i].Fail? && forall j :: 0 <= j < i ==> Listable(repo, items[j]);
      assert items[1..][i - 1].Fail?;
      assert Listable(repo, items[0]);
      assert forall j :: 0 <= j < i - 1 ==> items[1..][j] == items[j + 1];
    }
    if Listable(repo, items[0]) && FailsFirst(repo, items[1..]) {
      var i :| 0 <= i < |items[1..]| && items[1..][i].Fail? && forall j :: 0 <= j < i ==> Listable(repo, items[1..][j]);
      assert items[i + 1].Fail?;
      forall j | 0 <= j < i + 1 ensures Listable(repo, items[j]) {
        if j > 0 {
          assert items[j] == items[1..][j - 1];
        }
      }
    }
  }

  lemma {:induction false} CommitFilesTableFailsIff(repo: Repository, skip: bool, paths: seq<string>, items: seq<CommitWalk.Item>)
    ensures TableIterators.Error in TableIterators.CommitFileResults(repo, skip, paths, items)
            <==> !skip && FailsFirst(repo, items)
  {
    if items != [] {
      FailsLater(repo, items);
      CommitFilesTableFailsIff(repo, skip, paths, items[1..]);
      if items[0].Emit? && IsCommit(repo, items[0].commit) && TreeOf(repo, items[0].commit) in repo.files {
        FilesAtAreWhole(repo, paths, items[0].commit, repo.files[TreeOf(repo, items[0].commit)]);
      }
    }
  }

  lemma {:induction false} FilesOfTreeAreWhole(repo: Repository, w: FilesTable.Wanted, readContent: bool, tree: Hash,
                                               files: seq<File>)
    ensures FilesTable.Error !in FilesTable.FilesOfTree(repo, w, readContent, tree, files)
  {
    if files != [] {
      FilesOfTreeAreWhole(repo, w, readContent, tree, files[1..]);
    }
  }

  // A commit whose tree is wanted and has not been visited, but has no files.
  ghost predicate HasNoWanted(repo: Repository, w: FilesTable.Wanted, seen: set<Hash>, item: CommitWalk.Item) {
    item.Emit? && IsCommit(repo, item.commit) &&
    var tree := repo.objects[item.commit].tree;
    tree !in seen && FilesTable.WantsTree(w, tree) && tree !in repo.files
  }

  // The table of files reports an error exactly if one of the commits does or has no files; trees that
  // are not wanted are not opened.
  lemma {:induction false} FilesTableFailsIff(repo: Repository, skip: bool, w: FilesTable.Wanted, readContent: bool,
                                              items: seq<CommitWalk.Item>, seen: set<Hash>)
    ensures FilesTable.Error in FilesTable.Results(repo, skip, w, readContent, items, seen)
            <==> !skip && (CommitWalk.Fail in items || exists item :: item in items && HasNoWanted(repo, w, seen, item))
    decreases items
  {
    if items != [] {
      var item := items[0];
      assert items == [item] + items[1..];
      if item.Emit? && FilesTable.Visits(repo, w, seen, item.commit) {
        var tree := TreeOf(repo, item.commit);
        FilesTableFailsIff(repo, skip, w, readContent, items[1..], seen + {tree});
        if tree in repo.files {
          FilesOfTreeAreWhole(repo, w, readContent, tree, repo.files[tree]);
          assert forall other :: HasNoWanted(repo, w, seen + {tree}, other) <==> HasNoWanted(repo, w, seen, other);
        } else {
          assert HasNoWanted(repo, w, seen, item);
        }
      } else {
        FilesTableFailsIff(repo, skip, w, readContent, items[1..], seen);
      }
    }
  }

  // -------------------------------------------------------------------------
  // Skipping errors loses no row
  // -------------------------------------------------------------------------

  lemma {:induction false} RowsWithoutErrors(repo: Repository, filter: Option<Expr>, prefix: Row, name: string,
                                             items: seq<IndexedCommits.Item>)
    ensures RowsOfCommits(HistoryEvents(repo, filter, prefix, name, items))
            == RowsOfCommits(HistoryEvents(repo, filter, prefix, name, IndexedCommits.WithoutErrors(items)))
  {
    if items != [] {
      var kept := IndexedCommits.WithoutErrors(items[1..]);
      RowsWithoutErrors(repo, filter, prefix, name, items[1..]);
      if items[0].Fail? {
        assert [] + kept == kept;
        RowsOfCommitsAppend([CommitError], HistoryEvents(repo, filter, prefix, name, items[1..]));
        assert [] + RowsOfCommits(HistoryEvents(repo, filter, prefix, name, kept))
               == RowsOfCommits(HistoryEvents(repo, filter, prefix, name, kept));
      } else {
        var row := prefix + RefCommitRow(repo, name, items[0].hash, items[0].idx);
        var own := if Passes(filter, row) then [AtCommit(row, items[0].hash)] else [];
        assert ([items[0]] + kept)[1..] == kept;
        RowsOfCommitsAppend(own, HistoryEvents(repo, filter, prefix, name, items[1..]));
        RowsOfCommitsAppend(own, HistoryEvents(repo, filter, prefix, name, kept));
      }
    }
  }

  lemma RefHistoryRows(repo: Repository, filter: Option<Expr>, r: RefEvent)
    ensures RowsOfCommits(RefHistory(repo, false, filter, r)) == RowsOfCommits(RefHistory(repo, true, filter, r))
  {
    if r.ref.HashRef? && Resolve(repo, r.ref.hash).Found? {
      ResolveFindsCommit(repo, r.ref.hash);
      var c := Resolve(repo, r.ref.hash).commit;
      IndexedCommits.StartIsValid(repo, c);
      IndexedCommits.SkippingDropsErrors(repo, IndexedCommits.Visits(repo, IndexedCommits.Start(c)));
      RowsWithoutErrors(repo, filter, r.row, r.ref.name, IndexedCommits.History(repo, false, c));
    }
  }

  lemma {:induction false} RefCommitsKeepRows(repo: Repository, filter: Option<Expr>, es: seq<RefEvent>)
    ensures RowsOfCommits(RefCommitEvents(repo, false, filter, es)) == RowsOfCommits(RefCommitEvents(repo, true, filter, es))
  {
    if es != [] {
      RefCommitsKeepRows(repo, filter, es[1..]);
      RefHistoryRows(repo, filter, es[0]);
      RowsOfCommitsAppend(RefHistory(repo, false, filter, es[0]), RefCommitEvents(repo, false, filter, es[1..]));
      RowsOfCommitsAppend(RefHistory(repo, true, filter, es[0]), RefCommitEvents(repo, true, filter, es[1..]));
    }
  }

  lemma {:induction false} HeadsKeepRows(repo: Repository, filter: Option<Expr>, make: (Row, string, Hash) -> Row,
                                         es: seq<RefEvent>)
    ensures RowsOfCommits(HeadEvents(repo, false, filter, make, es)) == RowsOfCommits(HeadEvents(repo, true, filter, make, es))
  {
    if es != [] {
      HeadsKeepRows(repo, filter, make, es[1..]);
      RowsOfCommitsAppend(RefHead(repo, false, filter, make, es[0]), HeadEvents(repo, false, filter, make, es[1..]));
      RowsOfCommitsAppend(RefHead(repo, true, filter, make, es[0]), HeadEvents(repo, true, filter, make, es[1..]));
      assert RowsOfCommits([CommitError]) == RowsOfCommits([]);
    }
  }

  lemma {:induction false} CommitFilesKeepRows(repo: Repository, filter: Option<Expr>, es: seq<CommitEvent>)
    ensures RowsOfFiles(CommitFileEvents(repo, false, filter, es)) == RowsOfFiles(CommitFileEvents(repo, true, filter, es))
  {
    if es != [] {
      CommitFilesKeepRows(repo, filter, es[1..]);
      RowsOfFilesAppend(FilesOfEvent(repo, false, filter, es[0]), CommitFileEvents(repo, false, filter, es[1..]));
      RowsOfFilesAppend(FilesOfEvent(repo, true, filter, es[0]), CommitFileEvents(repo, true, filter, es[1..]));
      assert RowsOfFiles([FileError]) == RowsOfFiles([]);
    }
  }
}
