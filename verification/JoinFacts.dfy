// Which rows of a plain table a join on the chained columns picks.

module JoinFacts {
  import opened Objects
  import opened Expressions
  import opened Tables
  import IndexedCommits
  import CommitWalk

  // -------------------------------------------------------------------------
  // ref_commits of one reference
  // -------------------------------------------------------------------------

  lemma {:induction false} HistoryRowsHave(repo: Repository, name: string, items: seq<IndexedCommits.Item>)
    ensures forall row :: row in HistoryRows(repo, name, items) ==>
              exists h, i: nat :: IndexedCommits.Emit(h, i) in items && row == RefCommitRow(repo, name, h, i)
  {
    if items != [] {
      HistoryRowsHave(repo, name, items[1..]);
      forall row | row in HistoryRows(repo, name, items)
        ensures exists h, i: nat :: IndexedCommits.Emit(h, i) in items && row == RefCommitRow(repo, name, h, i)
      {
        if row !in HistoryRows(repo, name, items[1..]) {
          assert items[0] == IndexedCommits.Emit(items[0].hash, items[0].idx) && items[0] in items;
        }
      }
    }
  }

  // Every row of a history names its reference and a commit reachable from it.
  lemma HistoryOfHas(repo: Repository, name: string, hash: Hash, row: Row)
    requires row in HistoryOf(repo, name, hash)
    ensures |row| == 4 && row[0] == Text(repo.id) && row[2] == Text(name)
    ensures Resolve(repo, hash).Found?
    ensures row[1].Digest? && IsCommit(repo, row[1].hash) && Reachable(repo, Resolve(repo, hash).commit, row[1].hash)
  {
    var c := Resolve(repo, hash).commit;
    ResolveFindsCommit(repo, hash);
    var items := IndexedCommits.History(repo, true, c);
    HistoryRowsHave(repo, name, items);
    IndexedCommits.HistoryIsExact(repo, true, c);
    var h, i: nat :| IndexedCommits.Emit(h, i) in items && row == RefCommitRow(repo, name, h, i);
  }

  // The history of a commit opens with the commit itself, and has it and index 0 nowhere else.
  lemma HistoryOfOpens(repo: Repository, name: string, hash: Hash)
    requires Resolve(repo, hash).Found?
    ensures var rows, c := HistoryOf(repo, name, hash), Resolve(repo, hash).commit;
            && rows != [] && rows[0] == RefCommitRow(repo, name, c, 0)
            && forall row :: row in rows[1..] ==> |row| == 4 && row[1] != Digest(c) && row[3] != Number(0)
  {
    var c := Resolve(repo, hash).commit;
    ResolveFindsCommit(repo, hash);
    IndexedCommits.HistoryStartsOnce(repo, true, c);
    var items := IndexedCommits.History(repo, true, c);
    HistoryRowsHave(repo, name, items[1..]);
    var rest := HistoryRows(repo, name, items[1..]);
    assert HistoryOf(repo, name, hash) == [RefCommitRow(repo, name, c, 0)] + rest;
    forall row | row in rest ensures |row| == 4 && row[1] != Digest(c) && row[3] != Number(0) {
      var h, i: nat :| IndexedCommits.Emit(h, i) in items[1..] && row == RefCommitRow(repo, name, h, i);
    }
  }

  ghost predicate HashRefsOnly(refs: seq<Reference>) {
    forall r :: r in refs ==> r.HashRef?
  }

  lemma {:induction false} RefCommitRowsHave(repo: Repository, refs: seq<Reference>, row: Row)
    requires HashRefsOnly(refs) && row in RefCommitRowsOf(repo, refs)
    ensures exists r :: r in refs && row in HistoryOf(repo, r.name, r.hash)
  {
    if row !in HistoryOf(repo, refs[0].name, refs[0].hash) {
      RefCommitRowsHave(repo, refs[1..], row);
    }
  }

  lemma WhereHistory(repo: Repository, name: string, hash: Hash, n: string)
    ensures Where(HistoryOf(repo, name, hash), 2, Text(n)) == if name == n then HistoryOf(repo, name, hash) else []
  {
    var rows := HistoryOf(repo, name, hash);
    forall row | row in rows ensures |row| == 4 && row[2] == Text(name) {
      HistoryOfHas(repo, name, hash, row);
    }
    if name == n {
      WhereAll(rows, 2, Text(n));
    } else {
      WhereNone(rows, 2, Text(n));
    }
  }

  // Two references may share a name only if neither leads to a commit.
  ghost predicate NamesApart(repo: Repository, refs: seq<Reference>)
    requires HashRefsOnly(refs)
  {
    forall i, j :: 0 <= i < j < |refs| && refs[i].name == refs[j].name ==>
      !Resolve(repo, refs[i].hash).Found? && !Resolve(repo, refs[j].hash).Found?
  }

  lemma HistoryOfNothing(repo: Repository, name: string, hash: Hash)
    ensures HistoryOf(repo, name, hash) == [] <==> !Resolve(repo, hash).Found?
  {
    if Resolve(repo, hash).Found? {
      HistoryOfOpens(repo, name, hash);
    }
  }

  lemma RestApart(repo: Repository, refs: seq<Reference>)
    requires refs != [] && HashRefsOnly(refs) && NamesApart(repo, refs)
    ensures HashRefsOnly(refs[1..]) && NamesApart(repo, refs[1..])
  {
    var rest := refs[1..];
    forall i, j | 0 <= i < j < |rest| && rest[i].name == rest[j].name
      ensures !Resolve(repo, rest[i].hash).Found? && !Resolve(repo, rest[j].hash).Found?
    {
      assert refs[i + 1] == rest[i] && refs[j + 1] == rest[j];
    }
  }

  // Joined by name, a reference meets the rows of its own history.
  lemma {:induction false} RefMeetsItsHistory(repo: Repository, refs: seq<Reference>, k: nat)
    requires HashRefsOnly(refs) && NamesApart(repo, refs) && k < |refs|
    ensures Where(RefCommitRowsOf(repo, refs), 2, Text(refs[k].name)) == HistoryOf(repo, refs[k].name, refs[k].hash)
  {
    var r, n, rest := refs[0], refs[k].name, refs[1..];
    WhereAppend(HistoryOf(repo, r.name, r.hash), RefCommitRowsOf(repo, rest), 2, Text(n));
    WhereHistory(repo, r.name, r.hash, n);
    if k > 0 {
      assert rest[k - 1] == refs[k];
      RestApart(repo, refs);
      RefMeetsItsHistory(repo, rest, k - 1);
      HistoryOfNothing(repo, r.name, r.hash);
      HistoryOfNothing(repo, n, refs[k].hash);
      assert [] + HistoryOf(repo, n, refs[k].hash) == HistoryOf(repo, n, refs[k].hash);
    } else {
      forall r | r in rest && r.name == n ensures !Resolve(repo, r.hash).Found? {
        var j :| 0 <= j < |rest| && rest[j] == r;
        assert refs[j + 1] == r;
      }
      NoHistoryOfName(repo, rest, n);
    }
  }

  lemma {:induction false} NoHistoryOfName(repo: Repository, refs: seq<Reference>, n: string)
    requires HashRefsOnly(refs) && forall r :: r in refs && r.name == n ==> !Resolve(repo, r.hash).Found?
    ensures Where(RefCommitRowsOf(repo, refs), 2, Text(n)) == []
  {
    if refs != [] {
      var r := refs[0];
      assert r in refs;
      WhereAppend(HistoryOf(repo, r.name, r.hash), RefCommitRowsOf(repo, refs[1..]), 2, Text(n));
      WhereHistory(repo, r.name, r.hash, n);
      NoHistoryOfName(repo, refs[1..], n);
    }
  }

  // Every history of that name is among the rows of that name.
  lemma {:induction false} HistoriesAdd(repo: Repository, refs: seq<Reference>, i: nat, j: nat)
    requires HashRefsOnly(refs) && i < j < |refs| && refs[i].name == refs[j].name
    ensures |Where(RefCommitRowsOf(repo, refs), 2, Text(refs[i].name))|
            >= |HistoryOf(repo, refs[i].name, refs[i].hash)| + |HistoryOf(repo, refs[j].name, refs[j].hash)|
  {
    var r, n, rest := refs[0], refs[i].name, refs[1..];
    WhereAppend(HistoryOf(repo, r.name, r.hash), RefCommitRowsOf(repo, rest), 2, Text(n));
    WhereHistory(repo, r.name, r.hash, n);
    assert rest[j - 1] == refs[j];
    if i > 0 {
      assert rest[i - 1] == refs[i];
      HistoriesAdd(repo, rest, i - 1, j - 1);
    } else {
      HistoryIsThere(repo, rest, j - 1);
    }
  }

  lemma {:induction false} HistoryIsThere(repo: Repository, refs: seq<Reference>, j: nat)
    requires HashRefsOnly(refs) && j < |refs|
    ensures |Where(RefCommitRowsOf(repo, refs), 2, Text(refs[j].name))| >= |HistoryOf(repo, refs[j].name, refs[j].hash)|
  {
    var r, n, rest := refs[0], refs[j].name, refs[1..];
    WhereAppend(HistoryOf(repo, r.name, r.hash), RefCommitRowsOf(repo, rest), 2, Text(n));
    WhereHistory(repo, r.name, r.hash, n);
    if j > 0 {
      assert rest[j - 1] == refs[j];
      HistoryIsThere(repo, rest, j - 1);
    }
  }

  // The join by name is what chaining computes exactly when no name is shared.
  lemma HistoryJoinIsExactIff(repo: Repository, refs: seq<Reference>)
    requires HashRefsOnly(refs)
    ensures (forall k :: 0 <= k < |refs| ==>
              Where(RefCommitRowsOf(repo, refs), 2, Text(refs[k].name)) == HistoryOf(repo, refs[k].name, refs[k].hash))
            <==> NamesApart(repo, refs)
  {
    if NamesApart(repo, refs) {
      forall k | 0 <= k < |refs|
        ensures Where(RefCommitRowsOf(repo, refs), 2, Text(refs[k].name)) == HistoryOf(repo, refs[k].name, refs[k].hash)
      {
        RefMeetsItsHistory(repo, refs, k);
      }
    }
    if forall k :: 0 <= k < |refs| ==>
              Where(RefCommitRowsOf(repo, refs), 2, Text(refs[k].name)) == HistoryOf(repo, refs[k].name, refs[k].hash)
    {
      forall i, j | 0 <= i < j < |refs| && refs[i].name == refs[j].name
        ensures !Resolve(repo, refs[i].hash).Found? && !Resolve(repo, refs[j].hash).Found?
      {
        HistoriesAdd(repo, refs, i, j);
        HistoryOfNothing(repo, refs[i].name, refs[i].hash);
        HistoryOfNothing(repo, refs[j].name, refs[j].hash);
      }
    }
  }

  // The slice of index 0 is the head row.
  lemma HeadIsIndexZero(repo: Repository, name: string, hash: Hash)
    ensures Where(HistoryOf(repo, name, hash), 3, Number(0)) == HeadRows(repo, name, hash)
  {
    if Resolve(repo, hash).Found? {
      HistoryOfOpens(repo, name, hash);
      WhereHead(HistoryOf(repo, name, hash), 3, Number(0));
    }
  }

  // What the iterator over head commits returns for one reference.
  function HeadRows(repo: Repository, name: string, hash: Hash): seq<Row> {
    match Resolve(repo, hash)
    case Found(c) => [RefCommitRow(repo, name, c, 0)]
    case _ => []
  }

  lemma WhereHead(rows: seq<Row>, i: nat, v: Value)
    requires rows != [] && forall row :: row in rows[1..] ==> i < |row| && row[i] != v
    ensures Where(rows, i, v) == if i < |rows[0]| && rows[0][i] == v then [rows[0]] else []
  {
    WhereNone(rows[1..], i, v);
  }

  // The slice of the hash of the reference is the head row exactly when that hash, if it leads to a
  // commit at all, is the commit and no annotated tag.
  lemma HeadIsRefHashIff(repo: Repository, name: string, hash: Hash)
    ensures Where(HistoryOf(repo, name, hash), 1, Digest(hash)) == HeadRows(repo, name, hash)
            <==> (Resolve(repo, hash).Found? ==> Resolve(repo, hash) == Found(hash))
  {
    if Resolve(repo, hash).Found? {
      var rows, c := HistoryOf(repo, name, hash), Resolve(repo, hash).commit;
      HistoryOfOpens(repo, name, hash);
      if c == hash {
        WhereHead(rows, 1, Digest(hash));
      } else {
        ResolveFindsCommit(repo, hash);
        forall row | row in rows ensures |row| == 4 && row[1] != Digest(hash) {
          HistoryOfHas(repo, name, hash, row);
        }
        WhereNone(rows, 1, Digest(hash));
      }
    }
  }

  // The history of a hash has a commit exactly when the commit is reachable.
  lemma HistoryLists(repo: Repository, name: string, hash: Hash, h: Hash)
    requires IsCommit(repo, h)
    ensures Where(HistoryOf(repo, name, hash), 1, Digest(h)) != []
            <==> Resolve(repo, hash).Found? && Reachable(repo, Resolve(repo, hash).commit, h)
  {
    var rows := HistoryOf(repo, name, hash);
    WhereHas(rows, 1, Digest(h));
    if Where(rows, 1, Digest(h)) != [] {
      var row := Where(rows, 1, Digest(h))[0];
      assert row in Where(rows, 1, Digest(h));
      HistoryOfHas(repo, name, hash, row);
    }
    if Resolve(repo, hash).Found? && Reachable(repo, Resolve(repo, hash).commit, h) {
      var c := Resolve(repo, hash).commit;
      ResolveFindsCommit(repo, hash);
      IndexedCommits.HistoryIsExact(repo, true, c);
      var i: nat :| IndexedCommits.Emit(h, i) in IndexedCommits.History(repo, true, c);
      HistoryRowsInclude(repo, name, IndexedCommits.History(repo, true, c), h, i);
      assert RefCommitRow(repo, name, h, i) in Where(rows, 1, Digest(h));
    }
  }

  lemma {:induction false} HistoryRowsInclude(repo: Repository, name: string, items: seq<IndexedCommits.Item>, h: Hash, i: nat)
    requires IndexedCommits.Emit(h, i) in items
    ensures RefCommitRow(repo, name, h, i) in HistoryRows(repo, name, items)
  {
    if items[0] != IndexedCommits.Emit(h, i) {
      HistoryRowsInclude(repo, name, items[1..], h, i);
    }
  }

  ghost predicate Lists(repo: Repository, r: Reference, h: Hash)
    requires r.HashRef?
  {
    Resolve(repo, r.hash).Found? && Reachable(repo, Resolve(repo, r.hash).commit, h)
  }

  lemma {:induction false} NoRefLists(repo: Repository, refs: seq<Reference>, h: Hash)
    requires HashRefsOnly(refs) && IsCommit(repo, h)
    ensures Where(RefCommitRowsOf(repo, refs), 1, Digest(h)) == [] <==> forall r :: r in refs ==> !Lists(repo, r, h)
  {
    if refs != [] {
      var r := refs[0];
      var own, rest := HistoryOf(repo, r.name, r.hash), RefCommitRowsOf(repo, refs[1..]);
      WhereAppend(own, rest, 1, Digest(h));
      HistoryLists(repo, r.name, r.hash, h);
      NoRefLists(repo, refs[1..], h);
      assert refs == [r] + refs[1..];
    }
  }

  lemma {:induction false} RefCommitRowsSplit(repo: Repository, refs: seq<Reference>, k: nat)
    requires HashRefsOnly(refs) && k < |refs|
    ensures RefCommitRowsOf(repo, refs)
            == RefCommitRowsOf(repo, refs[..k])
               + (HistoryOf(repo, refs[k].name, refs[k].hash) + RefCommitRowsOf(repo, refs[k + 1..]))
  {
    var own := HistoryOf(repo, refs[0].name, refs[0].hash);
    if k == 0 {
      assert RefCommitRowsOf(repo, refs[..0]) == [];
    } else {
      var rest := refs[1..];
      RefCommitRowsSplit(repo, rest, k - 1);
      assert rest[..k - 1] == refs[..k][1..] && rest[k..] == refs[k + 1..] && rest[k - 1] == refs[k];
      Associative(own, RefCommitRowsOf(repo, rest[..k - 1]),
                  HistoryOf(repo, refs[k].name, refs[k].hash) + RefCommitRowsOf(repo, refs[k + 1..]));
    }
  }

  // A join by the hash of the reference alone, which the rule also chains, keeps the name of the
  // reference: that is exact for a reference to a commit only when no other reference lists the commit.
  lemma HashJoinIsExactIff(repo: Repository, refs: seq<Reference>, k: nat)
    requires HashRefsOnly(refs) && k < |refs| && Resolve(repo, refs[k].hash) == Found(refs[k].hash)
    ensures Where(RefCommitRowsOf(repo, refs), 1, Digest(refs[k].hash)) == HeadRows(repo, refs[k].name, refs[k].hash)
            <==> forall j :: 0 <= j < |refs| && j != k ==> !Lists(repo, refs[j], refs[k].hash)
  {
    var h, before, after := refs[k].hash, refs[..k], refs[k + 1..];
    var own := HistoryOf(repo, refs[k].name, h);
    ResolveFindsCommit(repo, h);
    RefCommitRowsSplit(repo, refs, k);
    WhereAppend(RefCommitRowsOf(repo, before), own + RefCommitRowsOf(repo, after), 1, Digest(h));
    WhereAppend(own, RefCommitRowsOf(repo, after), 1, Digest(h));
    HeadIsRefHashIff(repo, refs[k].name, h);
    NoRefLists(repo, before, h);
    NoRefLists(repo, after, h);
    if forall j :: 0 <= j < |refs| && j != k ==> !Lists(repo, refs[j], h) {
      forall r | r in before || r in after ensures !Lists(repo, r, h) {
        var j := IndexAround(refs, k, r);
      }
    }
    if forall r :: r in before || r in after ==> !Lists(repo, r, h) {
      forall j | 0 <= j < |refs| && j != k ensures !Lists(repo, refs[j], h) {
        OtherIsAround(refs, k, j);
      }
    }
  }

  lemma IndexAround(refs: seq<Reference>, k: nat, r: Reference) returns (j: nat)
    requires k < |refs| && (r in refs[..k] || r in refs[k + 1..])
    ensures j < |refs| && j != k && refs[j] == r
  {
    if r in refs[..k] {
      j :| j < k && refs[..k][j] == r;
    } else {
      var i :| 0 <= i < |refs| - k - 1 && refs[k + 1..][i] == r;
      j := k + 1 + i;
    }
  }

  lemma OtherIsAround(refs: seq<Reference>, k: nat, j: nat)
    requires k < |refs| && j < |refs| && j != k
    ensures refs[j] in refs[..k] || refs[j] in refs[k + 1..]
  {
    assert j < k ==> refs[..k][j] == refs[j];
    assert j > k ==> refs[k + 1..][j - k - 1] == refs[j];
  }

  // -------------------------------------------------------------------------
  // commits
  // -------------------------------------------------------------------------

  // References that hold the hash of HEAD, which is no reference of the walk over commits.
  ghost predicate HeadListed(repo: Repository) {
    repo.head.Some? ==> CommitWalk.NamedByRef(repo, repo.head.value)
  }

  lemma ListedRefIsNamed(repo: Repository, r: Reference)
    requires HeadListed(repo) && r in RefList(repo)
    ensures CommitWalk.NamedByRef(repo, r.hash)
  {
    if r in HashRefs(repo.refs) {
      assert r in repo.refs;
    }
  }

  lemma {:induction false} HashesCount(items: seq<CommitWalk.Item>, c: Hash)
    ensures multiset(Hashes(items))[c] == multiset(items)[CommitWalk.Emit(c)]
  {
    if items != [] {
      assert items == [items[0]] + items[1..];
      HashesCount(items[1..], c);
    }
  }

  // How often the plain table lists a commit.
  lemma CommitListCounts(repo: Repository, c: Hash)
    requires CommitWalk.ParentsAreCommits(repo)
    ensures multiset(CommitList(repo))[c] == |CommitWalk.Names(repo, c)|
    ensures CommitWalk.Crawled(repo, c) <==> c in CommitList(repo)
  {
    HashesCount(CommitWalk.AllCommits(repo, true), c);
    CommitWalk.CommitsReturnedPerName(repo, true, c);
    CommitWalk.CommitsAreExact(repo, true, c);
    assert c in CommitList(repo) <==> multiset(CommitList(repo))[c] > 0;
    assert CommitWalk.Emit(c) in CommitWalk.AllCommits(repo, true)
           <==> multiset(CommitWalk.AllCommits(repo, true))[CommitWalk.Emit(c)] > 0;
  }

  ghost predicate AllCommits(repo: Repository, cs: seq<Hash>) {
    forall c :: c in cs ==> IsCommit(repo, c)
  }

  lemma CommitRowHash(repo: Repository, c: Hash)
    requires IsCommit(repo, c)
    ensures |CommitRow(repo, c)| > 1 && CommitRow(repo, c)[1] == Digest(c)
  {}

  lemma WhereFirst(row: Row, rest: seq<Row>, i: nat, v: Value)
    ensures Where([row] + rest, i, v) == (if i < |row| && row[i] == v then [row] else []) + Where(rest, i, v)
  {
    assert ([row] + rest)[1..] == rest;
  }

  lemma {:induction false} WhereCommit(repo: Repository, cs: seq<Hash>, h: Hash)
    requires AllCommits(repo, cs)
    ensures |Where(CommitRowsOf(repo, cs), 1, Digest(h))| == multiset(cs)[h]
    ensures IsCommit(repo, h) ==>
              forall row :: row in Where(CommitRowsOf(repo, cs), 1, Digest(h)) ==> row == CommitRow(repo, h)
  {
    if cs != [] {
      assert cs == [cs[0]] + cs[1..];
      WhereCommit(repo, cs[1..], h);
      CommitRowHash(repo, cs[0]);
      WhereFirst(CommitRow(repo, cs[0]), CommitRowsOf(repo, cs[1..]), 1, Digest(h));
    }
  }

  // Joined by hash, a crawled commit meets its one row exactly when it has one name.
  lemma CommitJoinIsExactIff(repo: Repository, h: Hash)
    requires CommitWalk.ParentsAreCommits(repo) && CommitWalk.Crawled(repo, h)
    ensures Where(CommitRows(repo), 1, Digest(h)) == [CommitRow(repo, h)] <==> |CommitWalk.Names(repo, h)| <= 1
  {
    CommitListCounts(repo, h);
    WhereCommit(repo, CommitList(repo), h);
    var rows := Where(CommitRows(repo), 1, Digest(h));
    assert h in CommitList(repo) ==> multiset(CommitList(repo))[h] > 0;
    if |rows| == 1 {
      assert rows[0] in rows;
      assert rows == [CommitRow(repo, h)];
    }
  }

  lemma {:induction false} WhereFilesOfCommit(repo: Repository, c: Hash, files: seq<File>, h: Hash)
    requires IsCommit(repo, c)
    ensures Where(CommitFileRowsIn(repo, c, files), 1, Digest(h)) == if c == h then CommitFileRowsIn(repo, c, files) else []
  {
    if files != [] {
      WhereFilesOfCommit(repo, c, files[1..], h);
    }
  }

  // Joined by hash, a commit listed once meets the rows of its own files.
  lemma {:induction false} CommitMeetsItsFiles(repo: Repository, cs: seq<Hash>, h: Hash)
    requires AllCommits(repo, cs) && IsCommit(repo, h) && multiset(cs)[h] <= 1
    ensures Where(CommitFileRowsOf(repo, cs), 1, Digest(h)) == if h in cs then FilesOfCommit(repo, h) else []
  {
    if cs != [] {
      var c := cs[0];
      assert cs == [c] + cs[1..];
      assert c in cs;
      WhereAppend(FilesOfCommit(repo, c), CommitFileRowsOf(repo, cs[1..]), 1, Digest(h));
      WhereFilesOfCommit(repo, c, FilesIn(repo, TreeOf(repo, c)), h);
      if c == h {
        assert h !in multiset(cs[1..]);
      }
      CommitMeetsItsFiles(repo, cs[1..], h);
      assert FilesOfCommit(repo, h) + [] == FilesOfCommit(repo, h) && [] + FilesOfCommit(repo, h) == FilesOfCommit(repo, h);
    }
  }

  // -------------------------------------------------------------------------
  // files
  // -------------------------------------------------------------------------

  lemma {:induction false} WhereFilesOfTree(repo: Repository, tree: Hash, files: seq<File>, readContent: bool, t: Hash)
    ensures Where(FileRowsIn(repo, tree, files, readContent), 3, Digest(t))
            == if tree == t then FileRowsIn(repo, tree, files, readContent) else []
  {
    if files != [] {
      WhereFilesOfTree(repo, tree, files[1..], readContent, t);
    }
  }

  // Although trees are shared between commits, the table has the files of each tree once.
  lemma {:induction false} TreeMeetsItsFiles(repo: Repository, cs: seq<Hash>, seen: set<Hash>, readContent: bool, t: Hash)
    requires AllCommits(repo, cs)
    ensures Where(FileRowsOf(repo, cs, seen, readContent), 3, Digest(t))
            == if t !in seen && exists c :: c in cs && TreeOf(repo, c) == t
               then FileRowsIn(repo, t, FilesIn(repo, t), readContent) else []
    decreases cs
  {
    if cs != [] {
      assert cs[0] in cs;
      var tree := TreeOf(repo, cs[0]);
      if tree in seen {
        TreeMeetsItsFiles(repo, cs[1..], seen, readContent, t);
      } else {
        var own := FileRowsIn(repo, tree, FilesIn(repo, tree), readContent);
        var rest := FileRowsOf(repo, cs[1..], seen + {tree}, readContent);
        WhereAppend(own, rest, 3, Digest(t));
        WhereFilesOfTree(repo, tree, FilesIn(repo, tree), readContent, t);
        TreeMeetsItsFiles(repo, cs[1..], seen + {tree}, readContent, t);
        assert own + [] == own;
        assert [] + Where(rest, 3, Digest(t)) == Where(rest, 3, Digest(t));
      }
    }
  }

  ghost predicate PathsDistinct(files: seq<File>) {
    forall i, j :: 0 <= i < j < |files| ==> files[i].name != files[j].name
  }

  lemma {:induction false} NoFileOfName(repo: Repository, tree: Hash, files: seq<File>, readContent: bool, name: string)
    requires forall f :: f in files ==> f.name != name
    ensures Where(FileRowsIn(repo, tree, files, readContent), 1, Text(name)) == []
  {
    if files != [] {
      assert files[0] in files;
      NoFileOfName(repo, tree, files[1..], readContent, name);
    }
  }

  lemma {:induction false} PathMeetsItsFile(repo: Repository, tree: Hash, files: seq<File>, readContent: bool, k: nat)
    requires PathsDistinct(files) && k < |files|
    ensures Where(FileRowsIn(repo, tree, files, readContent), 1, Text(files[k].name))
            == [FileRow(repo, tree, files[k], readContent)]
  {
    if k == 0 {
      NoFileOfName(repo, tree, files[1..], readContent, files[0].name);
    } else {
      PathMeetsItsFile(repo, tree, files[1..], readContent, k - 1);
    }
  }

  // Joined by tree, path and hash, a file of a listed commit meets its one row.
  lemma FileMeetsItsRow(repo: Repository, c: Hash, k: nat, readContent: bool)
    requires c in CommitList(repo)
    requires var files := FilesIn(repo, TreeOf(repo, c)); k < |files| && PathsDistinct(files)
    ensures var t := TreeOf(repo, c);
            var f := FilesIn(repo, t)[k];
            Where(Where(Where(FileRows(repo, readContent), 3, Digest(t)), 1, Text(f.name)), 2, Digest(f.hash))
            == [FileRow(repo, t, f, readContent)]
  {
    var t := TreeOf(repo, c);
    var f := FilesIn(repo, t)[k];
    TreeMeetsItsFiles(repo, CommitList(repo), {}, readContent, t);
    assert Where(FileRows(repo, readContent), 3, Digest(t)) == FileRowsIn(repo, t, FilesIn(repo, t), readContent);
    PathMeetsItsFile(repo, t, FilesIn(repo, t), readContent, k);
    HashMeetsItsRow(repo, t, f, readContent);
  }

  lemma HashMeetsItsRow(repo: Repository, tree: Hash, f: File, readContent: bool)
    ensures Where([FileRow(repo, tree, f, readContent)], 2, Digest(f.hash)) == [FileRow(repo, tree, f, readContent)]
  {
    WhereAll([FileRow(repo, tree, f, readContent)], 2, Digest(f.hash));
  }
}
