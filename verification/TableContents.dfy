// Which rows the plain tables have and where: a row for each reference, for each result of a history, for
// each commit of the walk and for each file of a tree, in their order.

module TableContents {
  import opened Objects
  import opened Expressions
  import opened Relations
  import opened Layout
  import opened Tables
  import opened JoinFacts
  import opened ProductRows
  import opened RowContents
  import CommitWalk
  import IndexedCommits

  // -------------------------------------------------------------------------
  // refs
  // -------------------------------------------------------------------------

  lemma {:induction false} HashRefsSplit(a: seq<Reference>, b: seq<Reference>)
    ensures HashRefs(a + b) == HashRefs(a) + HashRefs(b)
  {
    if a == [] {
      assert a + b == b;
    } else {
      HashRefsSplit(a[1..], b);
      assert (a + b)[1..] == a[1..] + b;
      Associative(if a[0].HashRef? then [a[0]] else [], HashRefs(a[1..]), HashRefs(b));
    }
  }

  lemma {:induction false} HashRefsCount(refs: seq<Reference>, r: Reference)
    ensures multiset(HashRefs(refs))[r] == if r.HashRef? then multiset(refs)[r] else 0
  {
    if refs != [] {
      assert refs == [refs[0]] + refs[1..];
      HashRefsCount(refs[1..], r);
    }
  }

  // HEAD comes first, as a reference of its own, and each reference that holds a hash as often as it is
  // in the repository.
  lemma RefListHas(repo: Repository, r: Reference)
    ensures repo.head.Some? ==> RefList(repo) != [] && RefList(repo)[0] == HashRef("HEAD", repo.head.value)
    ensures multiset(RefList(repo))[r]
            == (if r.HashRef? then multiset(repo.refs)[r] else 0)
               + if repo.head.Some? && r == HashRef("HEAD", repo.head.value) then 1 else 0
  {
    HashRefsCount(repo.refs, r);
  }

  lemma {:induction false} HashRefsAt(refs: seq<Reference>, k: nat)
    requires k < |refs| && refs[k].HashRef?
    ensures |HashRefs(refs[..k])| < |HashRefs(refs)| && HashRefs(refs)[|HashRefs(refs[..k])|] == refs[k]
  {
    var front, back := refs[..k], refs[k..];
    assert refs == front + back && back[0] == refs[k];
    HashRefsSplit(front, back);
    assert HashRefs(back) == [refs[k]] + HashRefs(back[1..]);
  }

  // They keep their order.
  lemma RefListAt(repo: Repository, k: nat)
    requires k < |repo.refs| && repo.refs[k].HashRef?
    ensures var before := (if repo.head.Some? then 1 else 0) + |HashRefs(repo.refs[..k])|;
            before < |RefList(repo)| && RefList(repo)[before] == repo.refs[k]
  {
    HashRefsAt(repo.refs, k);
  }

  lemma {:induction false} RefRowsAt(repo: Repository, refs: seq<Reference>, k: nat)
    requires HashRefsOnly(refs) && k < |refs|
    ensures |RefRowsOf(repo, refs)| == |refs| && RefRowsOf(repo, refs)[k] == RefRow(repo, refs[k])
  {
    if |refs| > 1 {
      RefRowsAt(repo, refs[1..], if k == 0 then 0 else k - 1);
    }
  }

  // Row k of refs is that of reference k.
  lemma RefsAre(repo: Repository, k: nat)
    requires k < |RefList(repo)|
    ensures |RefRows(repo)| == |RefList(repo)|
    ensures ShowsRef(repo, SchemaOf(References), RefRows(repo)[k], RefList(repo)[k].name, RefList(repo)[k].hash)
  {
    RefRowsAt(repo, RefList(repo), k);
    OwnRow(References, RefRow(repo, RefList(repo)[k]));
    HeldRef(repo, SchemaOf(References), RefRows(repo)[k], RefList(repo)[k]);
  }

  // -------------------------------------------------------------------------
  // ref_commits
  // -------------------------------------------------------------------------

  lemma {:induction false} HistoryRowsAt(repo: Repository, name: string, items: seq<IndexedCommits.Item>, k: nat)
    requires IndexedCommits.Fail !in items && k < |items|
    ensures |HistoryRows(repo, name, items)| == |items|
    ensures items[k].Emit? && HistoryRows(repo, name, items)[k] == RefCommitRow(repo, name, items[k].hash, items[k].idx)
  {
    assert items[0] in items && items[0].Emit?;
    if |items| > 1 {
      HistoryRowsAt(repo, name, items[1..], if k == 0 then 0 else k - 1);
    }
  }

  // The results of the walk from the commit of a reference, errors skipped; none if it leads to no commit.
  function ResultsOf(repo: Repository, hash: Hash): seq<IndexedCommits.Item> {
    match Resolve(repo, hash)
    case Found(c) =>
      ResolveFindsCommit(repo, hash);
      IndexedCommits.History(repo, true, c)
    case _ => []
  }

  lemma HistoryOfAt(repo: Repository, name: string, hash: Hash, j: nat)
    ensures |HistoryOf(repo, name, hash)| == |ResultsOf(repo, hash)|
    ensures var items := ResultsOf(repo, hash);
            j < |items| ==>
              items[j].Emit? && HistoryOf(repo, name, hash)[j] == RefCommitRow(repo, name, items[j].hash, items[j].idx)
  {
    if Resolve(repo, hash).Found? {
      ResolveFindsCommit(repo, hash);
      var c := Resolve(repo, hash).commit;
      IndexedCommits.HistoryIsExact(repo, true, c);
      IndexedCommits.HistoryStartsOnce(repo, true, c);
      HistoryRowsAt(repo, name, ResultsOf(repo, hash), if j < |ResultsOf(repo, hash)| then j else 0);
    }
  }

  // The rows before those of reference k, and these.
  function RefCommitsBefore(repo: Repository, k: nat): nat
    requires k <= |RefList(repo)|
  {
    |RefCommitRowsOf(repo, RefList(repo)[..k])|
  }

  lemma {:induction false} RefCommitRowsAppend(repo: Repository, a: seq<Reference>, b: seq<Reference>)
    requires HashRefsOnly(a) && HashRefsOnly(b) && HashRefsOnly(a + b)
    ensures RefCommitRowsOf(repo, a + b) == RefCommitRowsOf(repo, a) + RefCommitRowsOf(repo, b)
  {
    if a == [] {
      assert a + b == b && RefCommitRowsOf(repo, a) == [];
    } else {
      RefCommitRowsAppend(repo, a[1..], b);
      assert (a + b)[1..] == a[1..] + b;
      Associative(HistoryOf(repo, a[0].name, a[0].hash), RefCommitRowsOf(repo, a[1..]), RefCommitRowsOf(repo, b));
    }
  }

  lemma RefCommitRowsAt(repo: Repository, k: nat)
    requires k < |RefList(repo)|
    ensures var n, own := RefCommitsBefore(repo, k), HistoryOf(repo, RefList(repo)[k].name, RefList(repo)[k].hash);
            && RefCommitsBefore(repo, k + 1) == n + |own| <= |RefCommitRows(repo)|
            && RefCommitRows(repo)[n..n + |own|] == own
  {
    RowsOfOneRef(repo, RefList(repo), k);
    OneMoreRef(repo, k);
  }

  lemma RowsOfOneRef(repo: Repository, refs: seq<Reference>, k: nat)
    requires HashRefsOnly(refs) && k < |refs|
    ensures HashRefsOnly(refs[..k])
    ensures var n, own := |RefCommitRowsOf(repo, refs[..k])|, HistoryOf(repo, refs[k].name, refs[k].hash);
            n + |own| <= |RefCommitRowsOf(repo, refs)| && RefCommitRowsOf(repo, refs)[n..n + |own|] == own
  {
    assert HashRefsOnly(refs[..k]) && HashRefsOnly(refs[k + 1..]);
    RefCommitRowsSplit(repo, refs, k);
    ghost var own := HistoryOf(repo, refs[k].name, refs[k].hash);
    ghost var before, after := RefCommitRowsOf(repo, refs[..k]), RefCommitRowsOf(repo, refs[k + 1..]);
    ghost var all := RefCommitRowsOf(repo, refs);
    InTheMiddle(before, own, after, all);
  }

  lemma OneMoreRef(repo: Repository, k: nat)
    requires k < |RefList(repo)|
    ensures RefCommitsBefore(repo, k + 1)
            == RefCommitsBefore(repo, k) + |HistoryOf(repo, RefList(repo)[k].name, RefList(repo)[k].hash)|
  {
    var refs := RefList(repo);
    assert refs[..k + 1] == refs[..k] + [refs[k]] && [refs[k]][1..] == [];
    RefCommitRowsAppend(repo, refs[..k], [refs[k]]);
  }

  lemma InTheMiddle<T>(a: seq<T>, b: seq<T>, c: seq<T>, all: seq<T>)
    requires all == a + (b + c)
    ensures |a| + |b| <= |all| && all[|a|..|a| + |b|] == b
  {}

  lemma ResultIsShown(repo: Repository, name: string, hash: Hash, j: nat, row: Row)
    requires j < |HistoryOf(repo, name, hash)| && row == HistoryOf(repo, name, hash)[j]
    ensures var items := ResultsOf(repo, hash);
            && j < |items| && items[j].Emit?
            && ShowsRefCommit(repo, SchemaOf(RefCommits), row, name, items[j].hash, items[j].idx)
  {
    HistoryOfAt(repo, name, hash, j);
    var items := ResultsOf(repo, hash);
    OwnRow(RefCommits, row);
    HeldRefCommit(repo, SchemaOf(RefCommits), row, name, items[j].hash, items[j].idx);
  }

  // Each reference has a row for each result of its walk, in order, and there are no other rows.
  lemma RefCommitsAre(repo: Repository, k: nat, j: nat)
    requires k < |RefList(repo)| && j < |ResultsOf(repo, RefList(repo)[k].hash)|
    ensures RefCommitsBefore(repo, 0) == 0 && RefCommitsBefore(repo, |RefList(repo)|) == |RefCommitRows(repo)|
    ensures RefCommitsBefore(repo, k + 1) == RefCommitsBefore(repo, k) + |ResultsOf(repo, RefList(repo)[k].hash)|
    ensures RefCommitsBefore(repo, k) + j < |RefCommitRows(repo)|
    ensures var r, items := RefList(repo)[k], ResultsOf(repo, RefList(repo)[k].hash);
            items[j].Emit? && ShowsRefCommit(repo, SchemaOf(RefCommits), RefCommitRows(repo)[RefCommitsBefore(repo, k) + j],
                                             r.name, items[j].hash, items[j].idx)
  {
    var r, n := RefList(repo)[k], RefCommitsBefore(repo, k);
    var own := HistoryOf(repo, r.name, r.hash);
    assert RefList(repo)[..|RefList(repo)|] == RefList(repo);
    HistoryOfAt(repo, r.name, r.hash, j);
    RefCommitRowsAt(repo, k);
    assert RefCommitRows(repo)[n..n + |own|][j] == RefCommitRows(repo)[n + j];
    ResultIsShown(repo, r.name, r.hash, j, RefCommitRows(repo)[n + j]);
  }

  // -------------------------------------------------------------------------
  // commits
  // -------------------------------------------------------------------------

  lemma {:induction false} HashesAt(items: seq<CommitWalk.Item>, k: nat)
    requires CommitWalk.Fail !in items && k < |items|
    ensures |Hashes(items)| == |items| && items[k] == CommitWalk.Emit(Hashes(items)[k])
  {
    assert items[0] in items && items[0].Emit?;
    if |items| > 1 {
      HashesAt(items[1..], if k == 0 then 0 else k - 1);
    }
  }

  lemma {:induction false} CommitRowsAt(repo: Repository, cs: seq<Hash>, k: nat)
    requires AllCommits(repo, cs) && k < |cs|
    ensures |CommitRowsOf(repo, cs)| == |cs| && IsCommit(repo, cs[k]) && CommitRowsOf(repo, cs)[k] == CommitRow(repo, cs[k])
  {
    assert cs[0] in cs;
    if |cs| > 1 {
      CommitRowsAt(repo, cs[1..], if k == 0 then 0 else k - 1);
    }
  }

  // Row k of commits is that of result k of the walk over all references, errors skipped.
  lemma CommitsAre(repo: Repository, k: nat)
    ensures |CommitRows(repo)| == |CommitWalk.AllCommits(repo, true)|
    ensures k < |CommitRows(repo)| ==>
              var item := CommitWalk.AllCommits(repo, true)[k];
              item.Emit? && ShowsCommit(repo, SchemaOf(Commits), CommitRows(repo)[k], item.commit)
  {
    var items, cs := CommitWalk.AllCommits(repo, true), CommitList(repo);
    CommitWalk.ErrorsAreDelivered(repo, true, CommitWalk.Visits(repo, CommitWalk.Start(repo)));
    if items != [] {
      var i := if k < |items| then k else 0;
      HashesAt(items, i);
      CommitRowsAt(repo, cs, i);
      CommitRowCells(repo, cs[i]);
      OwnRow(Commits, CommitRow(repo, cs[i]));
      HeldCommit(repo, SchemaOf(Commits), CommitRow(repo, cs[i]), cs[i]);
    }
  }

  // -------------------------------------------------------------------------
  // commit_files and files
  // -------------------------------------------------------------------------

  lemma {:induction false} CommitFileRowsAt(repo: Repository, c: Hash, files: seq<File>, j: nat)
    requires IsCommit(repo, c) && j < |files|
    ensures |CommitFileRowsIn(repo, c, files)| == |files|
    ensures CommitFileRowsIn(repo, c, files)[j] == CommitFileRow(repo, c, files[j])
  {
    if |files| > 1 {
      CommitFileRowsAt(repo, c, files[1..], if j == 0 then 0 else j - 1);
    }
  }

  lemma FilesOfCommitCount(repo: Repository, c: Hash)
    requires IsCommit(repo, c)
    ensures |FilesOfCommit(repo, c)| == |FilesIn(repo, TreeOf(repo, c))|
  {
    if FilesIn(repo, TreeOf(repo, c)) != [] {
      CommitFileRowsAt(repo, c, FilesIn(repo, TreeOf(repo, c)), 0);
    }
  }

  // The rows of the commits before position k.
  function CommitFilesBefore(repo: Repository, k: nat): nat
    requires k <= |CommitList(repo)|
  {
    |CommitFileRowsOf(repo, CommitList(repo)[..k])|
  }

  lemma {:induction false} CommitFileRowsAppend(repo: Repository, a: seq<Hash>, b: seq<Hash>)
    requires AllCommits(repo, a) && AllCommits(repo, b) && AllCommits(repo, a + b)
    ensures CommitFileRowsOf(repo, a + b) == CommitFileRowsOf(repo, a) + CommitFileRowsOf(repo, b)
  {
    if a == [] {
      assert a + b == b;
    } else {
      assert a[0] in a && a[0] in a + b;
      CommitFileRowsAppend(repo, a[1..], b);
      assert (a + b)[1..] == a[1..] + b;
      Associative(FilesOfCommit(repo, a[0]), CommitFileRowsOf(repo, a[1..]), CommitFileRowsOf(repo, b));
    }
  }

  lemma CommitFilesAt(repo: Repository, k: nat)
    requires k < |CommitList(repo)|
    ensures IsCommit(repo, CommitList(repo)[k])
    ensures var n, own := CommitFilesBefore(repo, k), FilesOfCommit(repo, CommitList(repo)[k]);
            && CommitFilesBefore(repo, k + 1) == n + |own| <= |CommitFileRows(repo)|
            && CommitFileRows(repo)[n..n + |own|] == own
  {
    var cs := CommitList(repo);
    assert cs[k] in cs;
    var own, rest := FilesOfCommit(repo, cs[k]), CommitFileRowsOf(repo, cs[k + 1..]);
    OneMoreCommit(repo, cs, k);
    assert cs == cs[..k + 1] + cs[k + 1..];
    CommitFileRowsAppend(repo, cs[..k + 1], cs[k + 1..]);
    Associative(CommitFileRowsOf(repo, cs[..k]), own, rest);
    InTheMiddle(CommitFileRowsOf(repo, cs[..k]), own, rest, CommitFileRows(repo));
  }

  lemma OneMoreCommit(repo: Repository, cs: seq<Hash>, k: nat)
    requires AllCommits(repo, cs) && k < |cs|
    ensures IsCommit(repo, cs[k])
    ensures CommitFileRowsOf(repo, cs[..k + 1]) == CommitFileRowsOf(repo, cs[..k]) + FilesOfCommit(repo, cs[k])
  {
    var c := cs[k];
    assert c in cs;
    assert cs[..k + 1] == cs[..k] + [c] && [c][1..] == [];
    CommitFileRowsAppend(repo, cs[..k], [c]);
    assert CommitFileRowsOf(repo, [c]) == FilesOfCommit(repo, c) + CommitFileRowsOf(repo, []);
    assert FilesOfCommit(repo, c) + [] == FilesOfCommit(repo, c);
  }

  // Each commit of the walk has a row for each file of its tree, in order, and there are no other rows.
  lemma CommitFilesAre(repo: Repository, k: nat, j: nat)
    requires k < |CommitList(repo)|
    ensures IsCommit(repo, CommitList(repo)[k])
    ensures CommitFilesBefore(repo, 0) == 0 && CommitFilesBefore(repo, |CommitList(repo)|) == |CommitFileRows(repo)|
    ensures var c := CommitList(repo)[k];
            var files := FilesIn(repo, repo.objects[c].tree);
            && CommitFilesBefore(repo, k + 1) == CommitFilesBefore(repo, k) + |files|
            && (j < |files| ==>
                  && CommitFilesBefore(repo, k) + j < |CommitFileRows(repo)|
                  && ShowsCommitFile(repo, SchemaOf(CommitFiles), CommitFileRows(repo)[CommitFilesBefore(repo, k) + j],
                                     c, files[j]))
  {
    var c, n := CommitList(repo)[k], CommitFilesBefore(repo, k);
    assert CommitList(repo)[..|CommitList(repo)|] == CommitList(repo);
    CommitFilesAt(repo, k);
    FilesOfCommitCount(repo, c);
    var own, files := FilesOfCommit(repo, c), FilesIn(repo, TreeOf(repo, c));
    if j < |files| {
      assert CommitFileRows(repo)[n..n + |own|][j] == CommitFileRows(repo)[n + j];
      CommitFileRowsAt(repo, c, files, j);
      OwnRow(CommitFiles, CommitFileRow(repo, c, files[j]));
      HeldCommitFile(repo, SchemaOf(CommitFiles), CommitFileRow(repo, c, files[j]), c, files[j]);
    }
  }

  lemma {:induction false} FileRowsAt(repo: Repository, tree: Hash, files: seq<File>, readContent: bool, j: nat)
    requires j < |files|
    ensures |FileRowsIn(repo, tree, files, readContent)| == |files|
    ensures FileRowsIn(repo, tree, files, readContent)[j] == FileRow(repo, tree, files[j], readContent)
  {
    if |files| > 1 {
      FileRowsAt(repo, tree, files[1..], readContent, if j == 0 then 0 else j - 1);
    }
  }

  // The rows of a tree in files: one for each of its files, in order, if a commit of the walk has that
  // tree, and none otherwise.
  lemma FilesAre(repo: Repository, tree: Hash, readContent: bool, j: nat)
    ensures var rows := Where(FileRows(repo, readContent), 3, Digest(tree));
            var files := FilesIn(repo, tree);
            if exists c :: c in CommitList(repo) && IsCommit(repo, c) && repo.objects[c].tree == tree then
              && |rows| == |files|
              && (j < |files| ==> ShowsFile(repo, SchemaOf(Files), rows[j], tree, files[j], readContent))
            else rows == []
  {
    var files := FilesIn(repo, tree);
    TreeMeetsItsFiles(repo, CommitList(repo), {}, readContent, tree);
    if files != [] {
      var i := if j < |files| then j else 0;
      FileRowsAt(repo, tree, files, readContent, i);
      OwnFile(repo, tree, files[i], readContent);
    }
  }

}
