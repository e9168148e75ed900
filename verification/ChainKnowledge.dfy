// The columns of a chained row say which reference, commit or file its iterator is at.

module ChainKnowledge {
  import opened Objects
  import opened Expressions
  import opened SquashJoins
  import opened Relations
  import opened Layout
  import opened Tables
  import opened JoinFacts
  import opened ProductRows
  import opened ChainStages
  import opened ChainEvents
  import opened ChainRuns
  import IndexedCommits

  ghost predicate Without(schema: Schema, t: Table) {
    forall c :: c in schema ==> c.table != t
  }

  // Column i of the table appended last.
  lemma Appended(schema: Schema, row: Row, t: Table, tail: Row, i: nat)
    requires |row| == |schema| && |tail| == |Columns(t)| && Without(schema, t) && i < |tail|
    ensures ValueOf(schema + SchemaOf(t), row + tail, Col(t, Columns(t)[i])) == tail[i]
    ensures |row + tail| == |schema + SchemaOf(t)|
  {
    HoldsTail(schema, row, t, tail);
    HeldAt(schema + SchemaOf(t), row + tail, t, tail, i);
  }

  lemma AppendedRefCommit(repo: Repository, schema: Schema, row: Row, name: string, c: Hash, idx: nat)
    requires |row| == |schema| && Without(schema, RefCommits) && IsCommit(repo, c)
    ensures KnowsCommit(repo, schema + SchemaOf(RefCommits), Col(RefCommits, CommitHash),
                        AtCommit(row + RefCommitRow(repo, name, c, idx), c))
  {
    Appended(schema, row, RefCommits, RefCommitRow(repo, name, c, idx), 1);
  }

  lemma AppendedCommit(repo: Repository, schema: Schema, row: Row, c: Hash)
    requires |row| == |schema| && Without(schema, Commits) && IsCommit(repo, c)
    ensures KnowsCommit(repo, schema + SchemaOf(Commits), Col(Commits, CommitHash), AtCommit(row + CommitRow(repo, c), c))
  {
    Appended(schema, row, Commits, CommitRow(repo, c), 1);
  }

  lemma AppendedCommitFile(repo: Repository, schema: Schema, row: Row, c: Hash, f: File)
    requires |row| == |schema| && Without(schema, CommitFiles) && IsCommit(repo, c) && f in FilesIn(repo, TreeOf(repo, c))
    ensures KnowsFile(repo, schema + SchemaOf(CommitFiles), AtFile(row + CommitFileRow(repo, c, f), TreeOf(repo, c), f))
  {
    Appended(schema, row, CommitFiles, CommitFileRow(repo, c, f), 2);
    Appended(schema, row, CommitFiles, CommitFileRow(repo, c, f), 4);
  }

  lemma RefRowKnows(repo: Repository, r: Reference)
    requires r.HashRef?
    ensures AtRef(SchemaOf(References), RefEvent(RefRow(repo, r), r))
  {
    var row := RefRow(repo, r);
    assert [] + SchemaOf(References) == SchemaOf(References) && [] + row == row;
    Appended([], [], References, row, 1);
    Appended([], [], References, row, 2);
  }

  lemma {:induction false} RefsKnow(repo: Repository, filter: Option<Expr>, refs: seq<Reference>)
    ensures AllAtRef(SchemaOf(References), RefEvents(repo, filter, false, refs))
  {
    if refs != [] {
      RefsKnow(repo, filter, refs[1..]);
      if refs[0].HashRef? {
        RefRowKnows(repo, refs[0]);
      }
    }
  }

  lemma {:induction false} HistoryKnows(repo: Repository, filter: Option<Expr>, schema: Schema, prefix: Row, name: string,
                                        items: seq<IndexedCommits.Item>)
    requires |prefix| == |schema| && Without(schema, RefCommits)
    requires forall item :: item in items ==> item.Emit? && IsCommit(repo, item.hash)
    ensures var es := HistoryEvents(repo, filter, prefix, name, items);
            NoErrors(es) && AllKnowCommit(repo, schema + SchemaOf(RefCommits), Col(RefCommits, CommitHash), es)
  {
    if items != [] {
      assert items[0] in items;
      HistoryKnows(repo, filter, schema, prefix, name, items[1..]);
      AppendedRefCommit(repo, schema, prefix, name, items[0].hash, items[0].idx);
    }
  }

  lemma {:induction false} DeliversCommits(repo: Repository, visits: seq<IndexedCommits.Visit>)
    ensures forall item :: item in IndexedCommits.Deliver(repo, true, visits) ==> item.Emit? && IsCommit(repo, item.hash)
  {
    if visits != [] {
      DeliversCommits(repo, visits[1..]);
    }
  }

  lemma HistoryHasCommits(repo: Repository, c: Hash)
    requires c in Known(repo)
    ensures forall item :: item in IndexedCommits.History(repo, true, c) ==> item.Emit? && IsCommit(repo, item.hash)
  {
    IndexedCommits.StartIsValid(repo, c);
    DeliversCommits(repo, IndexedCommits.Visits(repo, IndexedCommits.Start(c)));
  }

  lemma RefHistoryKnows(repo: Repository, filter: Option<Expr>, schema: Schema, e: RefEvent)
    requires |e.row| == |schema| && Without(schema, RefCommits)
    ensures var es := RefHistory(repo, true, filter, e);
            NoErrors(es) && AllKnowCommit(repo, schema + SchemaOf(RefCommits), Col(RefCommits, CommitHash), es)
  {
    if e.ref.HashRef? && Resolve(repo, e.ref.hash).Found? {
      var c := Resolve(repo, e.ref.hash).commit;
      ResolveFindsCommit(repo, e.ref.hash);
      HistoryHasCommits(repo, c);
      HistoryKnows(repo, filter, schema, e.row, e.ref.name, IndexedCommits.History(repo, true, c));
    }
  }

  lemma {:induction false} RefCommitsKnow(repo: Repository, filter: Option<Expr>, schema: Schema, es: seq<RefEvent>)
    requires (forall e :: e in es ==> |e.row| == |schema|) && Without(schema, RefCommits)
    ensures var cs := RefCommitEvents(repo, true, filter, es);
            NoErrors(cs) && AllKnowCommit(repo, schema + SchemaOf(RefCommits), Col(RefCommits, CommitHash), cs)
  {
    if es != [] {
      assert es[0] in es;
      RefHistoryKnows(repo, filter, schema, es[0]);
      RefCommitsKnow(repo, filter, schema, es[1..]);
    }
  }

  // Heads with the columns of `more`, of which `col` is the hash of the commit.
  lemma {:induction false} HeadsKnow(repo: Repository, filter: Option<Expr>, make: (Row, string, Hash) -> Row,
                                     schema: Schema, col: Col, es: seq<RefEvent>)
    requires forall e, c :: e in es && IsCommit(repo, c) ==>
               KnowsCommit(repo, schema, col, AtCommit(make(e.row, e.ref.name, c), c))
    ensures var cs := HeadEvents(repo, true, filter, make, es); NoErrors(cs) && AllKnowCommit(repo, schema, col, cs)
  {
    if es != [] {
      assert es[0] in es;
      HeadsKnow(repo, filter, make, schema, col, es[1..]);
      if es[0].ref.HashRef? {
        ResolveFindsCommit(repo, es[0].ref.hash);
      }
    }
  }

  lemma RefHeadsKnow(repo: Repository, filter: Option<Expr>, schema: Schema, es: seq<RefEvent>)
    requires AllAtRef(schema, es) && Without(schema, RefCommits)
    ensures var cs := HeadEvents(repo, true, filter, WithRefCommit(repo), es);
            NoErrors(cs) && AllKnowCommit(repo, schema + SchemaOf(RefCommits), Col(RefCommits, CommitHash), cs)
  {
    var wider, col := schema + SchemaOf(RefCommits), Col(RefCommits, CommitHash);
    forall e, c | e in es && IsCommit(repo, c)
      ensures KnowsCommit(repo, wider, col, AtCommit(WithRefCommit(repo)(e.row, e.ref.name, c), c))
    {
      AppendedRefCommit(repo, schema, e.row, e.ref.name, c, 0);
    }
    HeadsKnow(repo, filter, WithRefCommit(repo), wider, col, es);
  }

  lemma RefHeadCommitsKnow(repo: Repository, filter: Option<Expr>, schema: Schema, es: seq<RefEvent>)
    requires AllAtRef(schema, es) && Without(schema, Commits)
    ensures var cs := HeadEvents(repo, true, filter, WithCommit(repo, false), es);
            NoErrors(cs) && AllKnowCommit(repo, schema + SchemaOf(Commits), Col(Commits, CommitHash), cs)
  {
    var wider, col := schema + SchemaOf(Commits), Col(Commits, CommitHash);
    forall e, c | e in es && IsCommit(repo, c)
      ensures KnowsCommit(repo, wider, col, AtCommit(WithCommit(repo, false)(e.row, e.ref.name, c), c))
    {
      AppendedCommit(repo, schema, e.row, c);
    }
    HeadsKnow(repo, filter, WithCommit(repo, false), wider, col, es);
  }

  lemma {:induction false} CommitsKnow(repo: Repository, filter: Option<Expr>, schema: Schema, col: Col, es: seq<CommitEvent>)
    requires AllKnowCommit(repo, schema, col, es) && NoErrors(es) && Without(schema, Commits)
    ensures var cs := CommitsEvents(repo, filter, es);
            NoErrors(cs) && AllKnowCommit(repo, schema + SchemaOf(Commits), Col(Commits, CommitHash), cs)
  {
    if es != [] {
      assert es[0] in es;
      CommitsKnow(repo, filter, schema, col, es[1..]);
      AppendedCommit(repo, schema, es[0].row, es[0].commit);
    }
  }

  lemma {:induction false} ListKnows(repo: Repository, filter: Option<Expr>, schema: Schema, prefix: Row, c: Hash,
                                     files: seq<File>)
    requires |prefix| == |schema| && Without(schema, CommitFiles) && IsCommit(repo, c)
    requires forall f :: f in files ==> f in FilesIn(repo, TreeOf(repo, c))
    ensures var es := ListEvents(repo, filter, prefix, c, files);
            OnlyFiles(es) && AllKnowFile(repo, schema + SchemaOf(CommitFiles), es)
  {
    if files != [] {
      ListKnows(repo, filter, schema, prefix, c, files[1..]);
      AppendedCommitFile(repo, schema, prefix, c, files[0]);
    }
  }

  lemma {:induction false} CommitFilesKnow(repo: Repository, filter: Option<Expr>, schema: Schema, es: seq<CommitEvent>)
    requires NoErrors(es) && Without(schema, CommitFiles)
    requires forall e :: e in es ==> |e.row| == |schema| && IsCommit(repo, e.commit)
    ensures var fs := CommitFileEvents(repo, true, filter, es);
            OnlyFiles(fs) && AllKnowFile(repo, schema + SchemaOf(CommitFiles), fs)
  {
    if es != [] {
      var e := es[0];
      assert e in es;
      CommitFilesKnow(repo, filter, schema, es[1..]);
      if TreeOf(repo, e.commit) in repo.files {
        ListKnows(repo, filter, schema, e.row, e.commit, repo.files[TreeOf(repo, e.commit)]);
      }
    }
  }

  // The columns of files change nothing that is known.
  lemma {:induction false} FilesKnow(repo: Repository, readContent: bool, filter: Option<Expr>, schema: Schema,
                                     es: seq<FileEvent>)
    requires AllKnowFile(repo, schema, es) && OnlyFiles(es)
    ensures var fs := FilesEvents(repo, readContent, filter, es);
            OnlyFiles(fs) && AllKnowFile(repo, schema + SchemaOf(Files), fs)
  {
    if es != [] {
      var e := es[0];
      assert e in es;
      var tail := FileRow(repo, e.tree, e.file, readContent);
      FilesKnow(repo, readContent, filter, schema, es[1..]);
      FindInPrefix(schema, SchemaOf(Files), Col(CommitFiles, TreeHash));
      FindInPrefix(schema, SchemaOf(Files), Col(CommitFiles, FilePath));
      assert KnowsFile(repo, schema + SchemaOf(Files), AtFile(e.row + tail, e.tree, e.file));
    }
  }
}
