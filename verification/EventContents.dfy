// What the chained iterators append to their rows, under the names of the columns: the reference, commit or
// file that the iterator is at.

module EventContents {
  import opened Objects
  import opened Expressions
  import opened Tables
  import opened ChainEvents
  import opened RowContents
  import IndexedCommits

  lemma {:induction false} RefsShow(repo: Repository, filter: Option<Expr>, refs: seq<Reference>)
    ensures forall e :: e in RefEvents(repo, filter, false, refs) ==>
              e.ref.HashRef? && ShowsRef(repo, SchemaOf(References), e.row, e.ref.name, e.ref.hash)
  {
    if refs != [] {
      RefsShow(repo, filter, refs[1..]);
      if refs[0].HashRef? {
        OwnRef(repo, refs[0]);
      }
    }
  }

  // An entry of the history of a reference.
  ghost predicate EndsAsHistory(repo: Repository, name: string, e: CommitEvent) {
    e.AtCommit? ==> EndsWithRefCommit(repo, e.row, name, e.commit)
  }

  lemma {:induction false} HistoryShows(repo: Repository, filter: Option<Expr>, prefix: Row, name: string,
                                        items: seq<IndexedCommits.Item>)
    ensures forall e :: e in HistoryEvents(repo, filter, prefix, name, items) ==> EndsAsHistory(repo, name, e)
  {
    if items != [] {
      HistoryShows(repo, filter, prefix, name, items[1..]);
      if items[0].Emit? {
        RefCommitAppended(repo, prefix, name, items[0].hash, items[0].idx);
      }
    }
  }

  // The event is one of the reference that the iterator of references was at.
  ghost predicate ComesFrom(repo: Repository, skip: bool, filter: Option<Expr>, es: seq<RefEvent>, e: CommitEvent) {
    exists r :: r in es && r.ref.HashRef? && e in RefHistory(repo, skip, filter, r) && EndsAsHistory(repo, r.ref.name, e)
  }

  lemma RefHistoryShows(repo: Repository, skip: bool, filter: Option<Expr>, r: RefEvent)
    ensures forall e :: e in RefHistory(repo, skip, filter, r) ==> r.ref.HashRef? && EndsAsHistory(repo, r.ref.name, e)
  {
    if r.ref.HashRef? && Resolve(repo, r.ref.hash).Found? {
      ResolveFindsCommit(repo, r.ref.hash);
      var items := IndexedCommits.History(repo, skip, Resolve(repo, r.ref.hash).commit);
      HistoryShows(repo, filter, r.row, r.ref.name, items);
    }
  }

  lemma {:induction false} RefCommitsShow(repo: Repository, skip: bool, filter: Option<Expr>, es: seq<RefEvent>, e: CommitEvent)
    requires e in RefCommitEvents(repo, skip, filter, es)
    ensures ComesFrom(repo, skip, filter, es, e)
  {
    if e in RefHistory(repo, skip, filter, es[0]) {
      RefHistoryShows(repo, skip, filter, es[0]);
      assert es[0] in es;
    } else {
      RefCommitsShow(repo, skip, filter, es[1..], e);
    }
  }

  // The head commit of each reference, as a row of ref_commits with index 0.
  lemma {:induction false} HeadsShow(repo: Repository, skip: bool, filter: Option<Expr>, es: seq<RefEvent>, e: CommitEvent)
    requires e in HeadEvents(repo, skip, filter, WithRefCommit(repo), es) && e.AtCommit?
    ensures exists r :: r in es && EndsWithHead(repo, e.row, r.ref.name, e.commit)
  {
    var r := es[0];
    if e in RefHead(repo, skip, filter, WithRefCommit(repo), r) {
      assert r in es;
      HeadAppended(repo, r.row, r.ref.name, e.commit);
    } else {
      HeadsShow(repo, skip, filter, es[1..], e);
    }
  }

  // The head commit of each reference, as a row of commits.
  lemma {:induction false} HeadCommitsShow(repo: Repository, skip: bool, filter: Option<Expr>, es: seq<RefEvent>, e: CommitEvent)
    requires e in HeadEvents(repo, skip, filter, WithCommit(repo, false), es) && e.AtCommit?
    ensures EndsWithCommit(repo, e.row, e.commit)
  {
    var r := es[0];
    if e in RefHead(repo, skip, filter, WithCommit(repo, false), r) {
      ResolveFindsCommit(repo, r.ref.hash);
      CommitAppended(repo, r.row, e.commit);
    } else {
      HeadCommitsShow(repo, skip, filter, es[1..], e);
    }
  }

  lemma {:induction false} CommitsShow(repo: Repository, filter: Option<Expr>, es: seq<CommitEvent>)
    ensures forall e :: e in CommitsEvents(repo, filter, es) && e.AtCommit? && IsCommit(repo, e.commit) ==>
              EndsWithCommit(repo, e.row, e.commit)
  {
    if es != [] {
      CommitsShow(repo, filter, es[1..]);
      if es[0].AtCommit? && IsCommit(repo, es[0].commit) {
        CommitAppended(repo, es[0].row, es[0].commit);
      }
    }
  }

  lemma {:induction false} ListShows(repo: Repository, filter: Option<Expr>, prefix: Row, c: Hash, files: seq<File>)
    requires IsCommit(repo, c)
    ensures forall e :: e in ListEvents(repo, filter, prefix, c, files) ==>
              e.AtFile? && e.tree == repo.objects[c].tree && EndsWithCommitFile(repo, e.row, c, e.file)
  {
    if files != [] {
      ListShows(repo, filter, prefix, c, files[1..]);
      CommitFileAppended(repo, prefix, c, files[0]);
    }
  }

  // The file is one of the commit that the iterator of commits was at.
  lemma {:induction false} CommitFilesShow(repo: Repository, skip: bool, filter: Option<Expr>, es: seq<CommitEvent>, e: FileEvent)
    requires e in CommitFileEvents(repo, skip, filter, es) && e.AtFile?
    ensures exists d :: d in es && d.AtCommit? && IsCommit(repo, d.commit) && e.tree == repo.objects[d.commit].tree
                        && EndsWithCommitFile(repo, e.row, d.commit, e.file)
  {
    var d := es[0];
    if e in FilesOfEvent(repo, skip, filter, d) {
      assert d in es;
      ListShows(repo, filter, d.row, d.commit, repo.files[TreeOf(repo, d.commit)]);
    } else {
      CommitFilesShow(repo, skip, filter, es[1..], e);
    }
  }

  lemma {:induction false} FilesShow(repo: Repository, readContent: bool, filter: Option<Expr>, es: seq<FileEvent>)
    ensures forall e :: e in FilesEvents(repo, readContent, filter, es) && e.AtFile? ==>
              EndsWithFile(repo, e.row, e.tree, e.file, readContent)
  {
    if es != [] {
      FilesShow(repo, readContent, filter, es[1..]);
      if es[0].AtFile? {
        FileAppended(repo, es[0].row, es[0].tree, es[0].file, readContent);
      }
    }
  }
}
