// The iterators of the plain tables of refs, ref_commits and commit_files, with their selectors.

module TableIterators {
  import opened Objects
  import opened Expressions
  import opened Relations
  import opened Layout
  import opened Tables
  import opened ChainStages
  import opened ChainEvents
  import opened IteratorPlans
  import IndexedCommits
  import opened CommitSelection
  import CommitWalk

  // -------------------------------------------------------------------------
  // Selected references
  // -------------------------------------------------------------------------

  // Hashes and names to select; none of a kind is no restriction. The names are in lower case, and
  // `lower` is how the name of a reference is put in lower case.
  datatype RefChoice = RefChoice(lower: string -> string, hashes: seq<Hash>, names: seq<string>) {
    predicate Wants(r: Reference) {
      r.HashRef? && (hashes == [] || r.hash in hashes) && (names == [] || lower(r.name) in names)
    }
  }

  // The references that hold a hash and are selected.
  function Chosen(w: RefChoice, refs: seq<Reference>): (rs: seq<Reference>)
    ensures forall r :: r in rs ==> r.HashRef?
  {
    if refs == [] then [] else (if w.Wants(refs[0]) then [refs[0]] else []) + Chosen(w, refs[1..])
  }

  lemma {:induction false} NothingChosen(w: RefChoice, refs: seq<Reference>)
    requires w.hashes == [] && w.names == []
    ensures Chosen(w, refs) == HashRefs(refs)
  {
    if refs != [] {
      NothingChosen(w, refs[1..]);
    }
  }

  function LowerAll(lower: string -> string, names: seq<string>): (ns: seq<string>)
    ensures |ns| == |names| && forall i :: 0 <= i < |names| ==> ns[i] == lower(names[i])
  {
    if names == [] then [] else [lower(names[0])] + LowerAll(lower, names[1..])
  }

  // The references with one of these names, as a filter on the name selects them.
  function Named(names: seq<string>, refs: seq<Reference>): seq<Reference> {
    if refs == [] then []
    else (if refs[0].HashRef? && refs[0].name in names then [refs[0]] else []) + Named(names, refs[1..])
  }

  // Selecting by lower-case names selects what the filter selects exactly if no reference has one of
  // the names up to case only.
  lemma {:induction false} NamesAreExactIff(lower: string -> string, names: seq<string>, refs: seq<Reference>)
    requires names != []
    ensures Chosen(RefChoice(lower, [], LowerAll(lower, names)), refs) == Named(names, refs)
            <==> forall r :: r in refs && r.HashRef? && lower(r.name) in LowerAll(lower, names) ==> r.name in names
    ensures |Named(names, refs)| <= |Chosen(RefChoice(lower, [], LowerAll(lower, names)), refs)|
  {
    if refs != [] {
      var w, r := RefChoice(lower, [], LowerAll(lower, names)), refs[0];
      var chosen, named := Chosen(w, refs[1..]), Named(names, refs[1..]);
      NamesAreExactIff(lower, names, refs[1..]);
      assert refs == [r] + refs[1..];
      if r.HashRef? && r.name in names {
        var i :| 0 <= i < |names| && names[i] == r.name;
        assert LowerAll(lower, names)[i] == lower(r.name);
        assert ([r] + chosen)[1..] == chosen && ([r] + named)[1..] == named;
      } else {
        assert [] + named == named && [] + chosen == chosen;
      }
    }
  }

  // -------------------------------------------------------------------------
  // refs
  // -------------------------------------------------------------------------

  class RefRowIter {
    const repo: Repository
    const choice: RefChoice
    var head: Option<Hash>
    var refs: seq<Reference>

    ghost predicate Valid() {
      choice.lower("HEAD") == "head"
    }

    ghost function Pending(): seq<Row>
      reads this
    {
      RefRowsOf(repo, Chosen(choice, (if head.Some? then [HashRef("HEAD", head.value)] else []) + refs))
    }

    constructor (repo: Repository, choice: RefChoice)
      requires choice.lower("HEAD") == "head"
      ensures Valid() && Pending() == RefRowsOf(repo, Chosen(choice, HeadAndRefs(repo)))
    {
      this.repo, this.choice, head, refs := repo, choice, repo.head, repo.refs;
    }

    // None stands for the end.
    method Next() returns (r: Option<Row>)
      requires Valid()
      modifies this
      ensures TakesFirst(old(Pending()), r, Pending())
    {
      while true
        invariant Pending() == old(Pending())
        decreases |refs|, if head.Some? then 1 else 0
      {
        if head.None? && |refs| == 0 {
          return None;
        }
        ghost var all := (if head.Some? then [HashRef("HEAD", head.value)] else []) + refs;
        FirstChosen(repo, choice, all);
        if head.Some? {
          var o := HashRef("HEAD", head.value);
          head := None;
          assert all[0] == o && all[1..] == [] + refs;
          if |choice.hashes| > 0 && o.hash !in choice.hashes {
            continue;
          }
          if |choice.names| > 0 && "head" !in choice.names {
            continue;
          }
          return Some(RefRow(repo, o));
        }
        var o := refs[0];
        refs := refs[1..];
        assert all[0] == o && all[1..] == [] + refs;
        if !o.HashRef? {
          continue;
        }
        if |choice.hashes| > 0 && o.hash !in choice.hashes {
          continue;
        }
        if |choice.names| > 0 && choice.lower(o.name) !in choice.names {
          continue;
        }
        return Some(RefRow(repo, o));
      }
    }
  }

  lemma FirstChosen(repo: Repository, w: RefChoice, refs: seq<Reference>)
    requires refs != []
    ensures RefRowsOf(repo, Chosen(w, refs))
            == (if w.Wants(refs[0]) then [RefRow(repo, refs[0])] else []) + RefRowsOf(repo, Chosen(w, refs[1..]))
  {
    var rest := Chosen(w, refs[1..]);
    assert ([refs[0]] + rest)[1..] == rest && [] + rest == rest;
    assert [] + RefRowsOf(repo, rest) == RefRowsOf(repo, rest);
  }

  // Without selectors its rows are those of the table.
  lemma UnselectedRefsAreRows(repo: Repository, w: RefChoice)
    requires w.hashes == [] && w.names == []
    ensures RefRowsOf(repo, Chosen(w, HeadAndRefs(repo))) == RefRows(repo)
  {
    NothingChosen(w, HeadAndRefs(repo));
    RefListIs(repo);
  }

  ghost predicate HasHash(row: Row, hashes: seq<Hash>) {
    |row| == 3 && exists h :: h in hashes && row[2] == Digest(h)
  }

  ghost predicate HasName(row: Row, lower: string -> string, names: seq<string>) {
    |row| == 3 && exists name :: row[1] == Text(name) && lower(name) in names
  }

  // The rows with one of these hashes as commit_hash, in order.
  ghost function WithHashes(rows: seq<Row>, hashes: seq<Hash>): seq<Row> {
    if rows == [] then [] else (if HasHash(rows[0], hashes) then [rows[0]] else []) + WithHashes(rows[1..], hashes)
  }

  // The rows with one of these names, put in lower case, as ref_name.
  ghost function WithNames(rows: seq<Row>, lower: string -> string, names: seq<string>): seq<Row> {
    if rows == [] then []
    else (if HasName(rows[0], lower, names) then [rows[0]] else []) + WithNames(rows[1..], lower, names)
  }

  lemma SelectedIff(repo: Repository, w: RefChoice, r: Reference)
    requires r.HashRef?
    ensures w.Wants(r) <==> (w.hashes != [] ==> HasHash(RefRow(repo, r), w.hashes))
                            && (w.names != [] ==> HasName(RefRow(repo, r), w.lower, w.names))
  {
    assert RefRow(repo, r)[1] == Text(r.name) && RefRow(repo, r)[2] == Digest(r.hash);
  }

  lemma {:induction false} ChosenByHash(repo: Repository, w: RefChoice, refs: seq<Reference>)
    requires w.hashes != [] && w.names == []
    ensures RefRowsOf(repo, Chosen(w, refs)) == WithHashes(RefRowsOf(repo, HashRefs(refs)), w.hashes)
  {
    if refs != [] {
      ChosenByHash(repo, w, refs[1..]);
      FirstChosen(repo, w, refs);
      if refs[0].HashRef? {
        SelectedIff(repo, w, refs[0]);
        FirstHashRef(repo, refs);
      } else {
        assert HashRefs(refs) == [] + HashRefs(refs[1..]) == HashRefs(refs[1..]);
      }
    }
  }

  lemma {:induction false} ChosenByName(repo: Repository, w: RefChoice, refs: seq<Reference>)
    requires w.hashes == [] && w.names != []
    ensures RefRowsOf(repo, Chosen(w, refs)) == WithNames(RefRowsOf(repo, HashRefs(refs)), w.lower, w.names)
  {
    if refs != [] {
      ChosenByName(repo, w, refs[1..]);
      FirstChosen(repo, w, refs);
      if refs[0].HashRef? {
        SelectedIff(repo, w, refs[0]);
        FirstHashRef(repo, refs);
      } else {
        assert HashRefs(refs) == [] + HashRefs(refs[1..]) == HashRefs(refs[1..]);
      }
    }
  }

  lemma {:induction false} ChosenByBoth(repo: Repository, w: RefChoice, refs: seq<Reference>)
    requires w.hashes != [] && w.names != []
    ensures RefRowsOf(repo, Chosen(w, refs))
            == WithNames(WithHashes(RefRowsOf(repo, HashRefs(refs)), w.hashes), w.lower, w.names)
  {
    if refs != [] {
      ChosenByBoth(repo, w, refs[1..]);
      FirstChosen(repo, w, refs);
      if refs[0].HashRef? {
        SelectedIff(repo, w, refs[0]);
        FirstHashRef(repo, refs);
        var row, rest := RefRow(repo, refs[0]), WithHashes(RefRowsOf(repo, HashRefs(refs[1..])), w.hashes);
        assert ([row] + rest)[1..] == rest && [] + rest == rest;
      } else {
        assert HashRefs(refs) == [] + HashRefs(refs[1..]) == HashRefs(refs[1..]);
      }
    }
  }

  lemma FirstHashRef(repo: Repository, refs: seq<Reference>)
    requires refs != [] && refs[0].HashRef?
    ensures var rows := RefRowsOf(repo, HashRefs(refs));
            rows != [] && rows[0] == RefRow(repo, refs[0]) && rows[1..] == RefRowsOf(repo, HashRefs(refs[1..]))
  {
    assert ([refs[0]] + HashRefs(refs[1..]))[1..] == HashRefs(refs[1..]);
  }

  // With selectors its rows are those of the table whose commit_hash is one of the hashes and whose
  // ref_name, in lower case, is one of the names, in order.
  lemma SelectedRefsAreRows(repo: Repository, w: RefChoice)
    ensures var rows := RefRows(repo);
            var some := if w.hashes == [] then rows else WithHashes(rows, w.hashes);
            RefRowsOf(repo, Chosen(w, HeadAndRefs(repo)))
            == if w.names == [] then some else WithNames(some, w.lower, w.names)
  {
    RefListIs(repo);
    if w.hashes == [] && w.names == [] {
      UnselectedRefsAreRows(repo, w);
    } else if w.names == [] {
      ChosenByHash(repo, w, HeadAndRefs(repo));
    } else if w.hashes == [] {
      ChosenByName(repo, w, HeadAndRefs(repo));
    } else {
      ChosenByBoth(repo, w, HeadAndRefs(repo));
    }
  }

  // -------------------------------------------------------------------------
  // ref_commits
  // -------------------------------------------------------------------------

  // What the iterator returns for some references: what the chained one returns over virtual ones.
  function RefCommitResults(repo: Repository, skip: bool, w: RefChoice, refs: seq<Reference>): seq<CommitEvent> {
    RefCommitEvents(repo, skip, None, RefEvents(repo, None, true, Chosen(w, refs)))
  }

  // With git errors skipped, its rows are the histories of the selected references.
  lemma RefCommitResultsAreRows(repo: Repository, w: RefChoice, refs: seq<Reference>)
    ensures RowsOfCommits(RefCommitResults(repo, true, w, refs)) == RefCommitRowsOf(repo, Chosen(w, refs))
  {
    VirtualRefsRun(repo, None, None, Chosen(w, refs));
    HashRefsOfHashRefs(Chosen(w, refs));
    AllRefsPass(repo, Chosen(w, refs));
    AllRowsPass(RefCommitRowsOf(repo, Chosen(w, refs)));
  }

  lemma {:induction false} HashRefsOfHashRefs(refs: seq<Reference>)
    requires forall r :: r in refs ==> r.HashRef?
    ensures HashRefs(refs) == refs
  {
    if refs != [] {
      assert refs[0] in refs;
      HashRefsOfHashRefs(refs[1..]);
    }
  }

  // Without selectors they are those of the table.
  lemma UnselectedRefCommitsAreRows(repo: Repository, w: RefChoice)
    requires w.hashes == [] && w.names == []
    ensures RowsOfCommits(RefCommitResults(repo, true, w, HeadAndRefs(repo))) == RefCommitRows(repo)
  {
    RefCommitResultsAreRows(repo, w, HeadAndRefs(repo));
    NothingChosen(w, HeadAndRefs(repo));
    RefListIs(repo);
  }

  lemma {:induction false} AllRefsPass(repo: Repository, refs: seq<Reference>)
    requires forall r :: r in refs ==> r.HashRef?
    ensures PassingRefs(repo, None, refs) == refs
  {
    if refs != [] {
      AllRefsPass(repo, refs[1..]);
    }
  }

  lemma {:induction false} AllRowsPass(rows: seq<Row>)
    ensures Filtered(None, rows) == rows
  {
    if rows != [] {
      AllRowsPass(rows[1..]);
    }
  }

  class RefCommitsRowIter {
    const repo: Repository
    const skipGitErrors: bool
    const choice: RefChoice
    var head: Option<Hash>
    var refs: seq<Reference>
    var ref: Reference
    var commits: IndexedCommits.IndexedCommitIter?

    ghost function Repr(): set<object>
      reads this
    {
      {this} + if commits == null then {} else {commits}
    }

    ghost predicate Valid()
      reads this, Repr()
    {
      && choice.hashes == []
      && (commits != null ==> commits.repo == repo && commits.skipGitErrors == skipGitErrors && commits.Ready())
    }

    ghost function More(): seq<CommitEvent>
      reads this
    {
      RefCommitResults(repo, skipGitErrors, choice, (if head.Some? then [HashRef("HEAD", head.value)] else []) + refs)
    }

    ghost function Pending(): seq<CommitEvent>
      requires Valid()
      reads this, Repr()
    {
      (if commits == null then [] else HistoryEvents(repo, None, [], ref.name, commits.Remaining())) + More()
    }

    // This table selects references by name only.
    constructor (repo: Repository, skipGitErrors: bool, choice: RefChoice)
      requires choice.hashes == []
      ensures Valid() && Repr() == {this} && Pending() == RefCommitResults(repo, skipGitErrors, choice, HeadAndRefs(repo))
    {
      this.repo, this.skipGitErrors, this.choice, head, refs := repo, skipGitErrors, choice, repo.head, repo.refs;
      ref, commits := SymbolicRef("", ""), null;
    }

    // None stands for the end.
    method Next() returns (r: Option<CommitEvent>)
      requires Valid()
      modifies Repr()
      ensures Valid() && fresh(Repr() - old(Repr()))
      ensures TakesFirst(old(Pending()), r, Pending())
    {
      while true
        invariant Valid() && fresh(Repr() - old(Repr())) && Pending() == old(Pending())
        decreases |refs|, if head.Some? then 1 else 0, if commits == null then 0 else 1 + |commits.Remaining()|
      {
        if commits == null {
          if head.None? && |refs| == 0 {
            return None;
          }
          var error := NextRef();
          if error {
            return Some(CommitError);
          }
        } else {
          r := NextCommit();
          if r.Some? {
            return r;
          }
        }
      }
    }

    // Takes one reference.
    method TakeRef()
      requires head.Some? || |refs| > 0
      modifies this`head, this`refs, this`ref
      ensures |refs| < |old(refs)| || (refs == old(refs) && head.None? && old(head).Some?)
      ensures old(More()) == (if choice.Wants(ref) then RefHistory(repo, skipGitErrors, None, RefEvent([], ref)) else []) + More()
    {
      ghost var before := (if head.Some? then [HashRef("HEAD", head.value)] else []) + refs;
      FirstRef(repo, skipGitErrors, choice, before);
      if head.Some? {
        ref, head := HashRef("HEAD", head.value), None;
      } else {
        ref, refs := refs[0], refs[1..];
      }
      assert before[1..] == [] + refs && before[0] == ref;
    }

    // Takes one reference and resolves it.
    method NextRef() returns (error: bool)
      requires Valid() && commits == null && (head.Some? || |refs| > 0)
      modifies this
      ensures Valid() && fresh(Repr() - {this})
      ensures |refs| < |old(refs)| || (refs == old(refs) && head.None? && old(head).Some?)
      ensures old(Pending()) == (if error then [CommitError] else []) + Pending()
    {
      TakeRef();
      error := false;
      if (|choice.names| > 0 && choice.lower(ref.name) !in choice.names) || !ref.HashRef? {
        return;
      }
      match Resolve(repo, ref.hash) {
        case NotACommit =>
        case Missing =>
          error := !skipGitErrors;
        case Found(c) =>
          ResolveFindsCommit(repo, ref.hash);
          commits := new IndexedCommits.IndexedCommitIter(skipGitErrors, repo, c);
      }
    }

    method NextCommit() returns (r: Option<CommitEvent>)
      requires Valid() && commits != null
      modifies this, commits
      ensures Valid() && Repr() <= old(Repr()) && refs == old(refs) && head == old(head)
      ensures r.Some? ==> TakesFirst(old(Pending()), r, Pending())
      ensures r.None? ==> Pending() == old(Pending()) && commits == null
    {
      ghost var items := commits.Remaining();
      ghost var more := More();
      assert Pending() == HistoryEvents(repo, None, [], ref.name, items) + more;
      var item := commits.Next();
      assert More() == more;
      if item.None? {
        commits := null;
        return None;
      }
      assert items == [item.value] + commits.Remaining();
      FirstOfHistory(repo, ref.name, item.value, commits.Remaining(), more);
      match item.value {
        case Fail =>
          r := Some(CommitError);
        case Emit(h, idx) =>
          r := Some(AtCommit([] + RefCommitRow(repo, ref.name, h, idx), h));
      }
    }
  }

  lemma FirstOfHistory(repo: Repository, name: string, item: IndexedCommits.Item, items: seq<IndexedCommits.Item>,
                       more: seq<CommitEvent>)
    ensures var event := match item
                         case Fail => CommitError
                         case Emit(h, idx) => AtCommit([] + RefCommitRow(repo, name, h, idx), h);
            HistoryEvents(repo, None, [], name, [item] + items) + more
            == [event] + (HistoryEvents(repo, None, [], name, items) + more)
  {
    var event := match item case Fail => CommitError case Emit(h, idx) => AtCommit([] + RefCommitRow(repo, name, h, idx), h);
    assert ([item] + items)[1..] == items;
    Associative([event], HistoryEvents(repo, None, [], name, items), more);
  }

  lemma FirstRef(repo: Repository, skip: bool, w: RefChoice, refs: seq<Reference>)
    requires refs != []
    ensures RefCommitResults(repo, skip, w, refs)
            == (if w.Wants(refs[0]) then RefHistory(repo, skip, None, RefEvent([], refs[0])) else [])
               + RefCommitResults(repo, skip, w, refs[1..])
  {
    var chosen := Chosen(w, refs[1..]);
    var rest := RefEvents(repo, None, true, chosen);
    if w.Wants(refs[0]) {
      assert ([refs[0]] + chosen)[1..] == chosen;
      assert ([RefEvent([], refs[0])] + rest)[1..] == rest;
    } else {
      assert [] + chosen == chosen && [] + rest == rest;
    }
  }

  // -------------------------------------------------------------------------
  // commit_files
  // -------------------------------------------------------------------------

  // A row, a git error, or the crash of reading files that could not be listed.
  datatype Listed = Got(row: Row) | Error | Panic

  // No paths are no restriction.
  predicate WantsPath(paths: seq<string>, f: File) {
    paths == [] || f.name in paths
  }

  function FilesAt(repo: Repository, paths: seq<string>, c: Hash, files: seq<File>): seq<Listed>
    requires IsCommit(repo, c)
  {
    if files == [] then []
    else
      (if WantsPath(paths, files[0]) then [Got(CommitFileRow(repo, c, files[0]))] else [])
      + FilesAt(repo, paths, c, files[1..])
  }

  // The files of this commit cannot be listed.
  predicate Unlisted(repo: Repository, c: Hash) {
    IsCommit(repo, c) && TreeOf(repo, c) !in repo.files
  }

  // After a crash nothing follows.
  function CommitFileResults(repo: Repository, skip: bool, paths: seq<string>, items: seq<CommitWalk.Item>): seq<Listed> {
    if items == [] then []
    else if items[0].Emit? && Unlisted(repo, items[0].commit) && !skip then [Panic]
    else
      (match items[0]
       case Fail => if skip then [] else [Error]
       case Emit(c) =>
         if !IsCommit(repo, c) || Unlisted(repo, c) then [] else FilesAt(repo, paths, c, repo.files[TreeOf(repo, c)]))
      + CommitFileResults(repo, skip, paths, items[1..])
  }

  function ListedRows(rs: seq<Listed>): seq<Row> {
    if rs == [] then [] else (if rs[0].Got? then [rs[0].row] else []) + ListedRows(rs[1..])
  }

  lemma {:induction false} ListedRowsAppend(a: seq<Listed>, b: seq<Listed>)
    ensures ListedRows(a + b) == ListedRows(a) + ListedRows(b)
  {
    if a == [] {
      assert a + b == b;
    } else {
      ListedRowsAppend(a[1..], b);
      assert (a + b)[1..] == a[1..] + b;
      Associative(if a[0].Got? then [a[0].row] else [], ListedRows(a[1..]), ListedRows(b));
    }
  }

  predicate AtPath(paths: seq<string>, row: Row) {
    paths == [] || (|row| > 2 && row[2].Text? && row[2].text in paths)
  }

  // The rows at one of the paths.
  function RowsAt(paths: seq<string>, rows: seq<Row>): seq<Row> {
    if rows == [] then [] else (if AtPath(paths, rows[0]) then [rows[0]] else []) + RowsAt(paths, rows[1..])
  }

  lemma {:induction false} RowsAtAppend(paths: seq<string>, a: seq<Row>, b: seq<Row>)
    ensures RowsAt(paths, a + b) == RowsAt(paths, a) + RowsAt(paths, b)
  {
    if a == [] {
      assert a + b == b;
    } else {
      RowsAtAppend(paths, a[1..], b);
      assert (a + b)[1..] == a[1..] + b;
      Associative(if AtPath(paths, a[0]) then [a[0]] else [], RowsAt(paths, a[1..]), RowsAt(paths, b));
    }
  }

  lemma {:induction false} FilesAtAreRows(repo: Repository, paths: seq<string>, c: Hash, files: seq<File>)
    requires IsCommit(repo, c)
    ensures ListedRows(FilesAt(repo, paths, c, files)) == RowsAt(paths, CommitFileRowsIn(repo, c, files))
  {
    if files != [] {
      var row, rest := CommitFileRow(repo, c, files[0]), FilesAt(repo, paths, c, files[1..]);
      var tail := CommitFileRowsIn(repo, c, files[1..]);
      FilesAtAreRows(repo, paths, c, files[1..]);
      assert ([row] + tail)[1..] == tail;
      if WantsPath(paths, files[0]) {
        assert ([Got(row)] + rest)[1..] == rest;
      } else {
        assert [] + rest == rest;
      }
    }
  }

  // With git errors skipped, its rows are those of the table at the selected paths.
  lemma {:induction false} CommitFileResultsAreRows(repo: Repository, paths: seq<string>, items: seq<CommitWalk.Item>)
    requires forall item :: item in items ==> item.Emit? && IsCommit(repo, item.commit)
    ensures forall c :: c in Hashes(items) ==> IsCommit(repo, c)
    ensures ListedRows(CommitFileResults(repo, true, paths, items)) == RowsAt(paths, CommitFileRowsOf(repo, Hashes(items)))
  {
    if items != [] {
      var c, rest := items[0].commit, Hashes(items[1..]);
      assert items[0] in items;
      CommitFileResultsAreRows(repo, paths, items[1..]);
      assert ([c] + rest)[1..] == rest;
      var own := if TreeOf(repo, c) in repo.files then FilesAt(repo, paths, c, repo.files[TreeOf(repo, c)]) else [];
      ListedRowsAppend(own, CommitFileResults(repo, true, paths, items[1..]));
      FilesAtAreRows(repo, paths, c, FilesIn(repo, TreeOf(repo, c)));
      RowsAtAppend(paths, FilesOfCommit(repo, c), CommitFileRowsOf(repo, rest));
    }
  }

  lemma {:induction false} SkippedHasCommits(repo: Repository, visits: seq<CommitWalk.Visit>)
    ensures forall item :: item in CommitWalk.Deliver(repo, true, visits) ==> item.Emit? && IsCommit(repo, item.commit)
  {
    if visits != [] {
      SkippedHasCommits(repo, visits[1..]);
      ResolveFindsCommit(repo, visits[0].key);
    }
  }

  // Looked up by their hashes, the commits found have the rows of their files.
  lemma SelectedFilesAreRows(repo: Repository, paths: seq<string>, hashes: seq<Hash>)
    ensures forall c :: c in Hashes(ByHash(repo, hashes)) ==> IsCommit(repo, c)
    ensures ListedRows(CommitFileResults(repo, true, paths, ByHash(repo, hashes)))
            == RowsAt(paths, CommitFileRowsOf(repo, Hashes(ByHash(repo, hashes))))
  {
    ByHashFinds(repo, hashes);
    CommitFileResultsAreRows(repo, paths, ByHash(repo, hashes));
  }

  lemma CommitFilesAreRows(repo: Repository, paths: seq<string>)
    ensures ListedRows(CommitFileResults(repo, true, paths, CommitWalk.AllCommits(repo, true)))
            == RowsAt(paths, CommitFileRows(repo))
  {
    SkippedHasCommits(repo, CommitWalk.Visits(repo, CommitWalk.Start(repo)));
    CommitFileResultsAreRows(repo, paths, CommitWalk.AllCommits(repo, true));
  }

  lemma {:induction false} FilesNeverPanic(repo: Repository, paths: seq<string>, c: Hash, files: seq<File>)
    requires IsCommit(repo, c)
    ensures Panic !in FilesAt(repo, paths, c, files)
  {
    if files != [] {
      FilesNeverPanic(repo, paths, c, files[1..]);
    }
  }

  lemma {:induction false} PanicIsUnlisted(repo: Repository, skip: bool, paths: seq<string>, items: seq<CommitWalk.Item>)
    ensures Panic in CommitFileResults(repo, skip, paths, items)
            <==> !skip && exists c :: CommitWalk.Emit(c) in items && Unlisted(repo, c)
  {
    if items != [] {
      PanicIsUnlisted(repo, skip, paths, items[1..]);
      assert items == [items[0]] + items[1..];
      if items[0].Emit? && IsCommit(repo, items[0].commit) && TreeOf(repo, items[0].commit) in repo.files {
        FilesNeverPanic(repo, paths, items[0].commit, repo.files[TreeOf(repo, items[0].commit)]);
      }
    }
  }

  // The iterator crashes exactly if errors are not skipped and the files of a listed commit are missing.
  lemma CommitFilesPanicIff(repo: Repository, skip: bool, paths: seq<string>)
    requires CommitWalk.ParentsAreCommits(repo)
    ensures Panic in CommitFileResults(repo, skip, paths, CommitWalk.AllCommits(repo, skip))
            <==> !skip && exists c :: CommitWalk.Crawled(repo, c) && Unlisted(repo, c)
  {
    PanicIsUnlisted(repo, skip, paths, CommitWalk.AllCommits(repo, skip));
    forall c ensures CommitWalk.Emit(c) in CommitWalk.AllCommits(repo, skip) <==> CommitWalk.Crawled(repo, c) {
      CommitWalk.CommitsAreExact(repo, skip, c);
    }
  }

  lemma FirstListed(repo: Repository, skip: bool, paths: seq<string>, item: CommitWalk.Item, items: seq<CommitWalk.Item>)
    ensures var more := CommitFileResults(repo, skip, paths, items);
            CommitFileResults(repo, skip, paths, [item] + items)
            == match item
               case Fail => if skip then more else [Error] + more
               case Emit(c) =>
                 if !IsCommit(repo, c) then more
                 else if Unlisted(repo, c) then if skip then more else [Panic]
                 else FilesAt(repo, paths, c, repo.files[TreeOf(repo, c)]) + more
  {
    var more := CommitFileResults(repo, skip, paths, items);
    assert ([item] + items)[1..] == items && [] + more == more;
  }

  class CommitFilesRowIter {
    const repo: Repository
    const skipGitErrors: bool
    const paths: seq<string>
    const commits: SelectedCommitsIter
    var commit: Hash
    var files: Option<seq<File>>
    var crashed: bool

    ghost predicate Ready()
      reads this, commits.Repr()
    {
      this !in commits.Repr() && commits.Ready() && commits.repo == repo && (files.Some? ==> IsCommit(repo, commit))
    }

    ghost function Pending(): seq<Listed>
      requires Ready()
      reads this, commits.Repr()
    {
      if crashed then []
      else
        (if files.None? then [] else FilesAt(repo, paths, commit, files.value))
        + CommitFileResults(repo, skipGitErrors, paths, commits.Remaining())
    }

    constructor (repo: Repository, skipGitErrors: bool, paths: seq<string>, hashes: seq<Hash>)
      ensures Ready() && fresh(commits.Repr())
      ensures Pending() == CommitFileResults(repo, skipGitErrors, paths, Selected(repo, skipGitErrors, hashes))
    {
      this.repo, this.skipGitErrors, this.paths := repo, skipGitErrors, paths;
      commit, files, crashed := Hash(0), None, false;
      commits := new SelectedCommitsIter(repo, skipGitErrors, hashes);
    }

    // None stands for the end.
    method Next() returns (r: Option<Listed>)
      requires Ready()
      modifies this, commits.Repr()
      ensures Ready() && TakesFirst(old(Pending()), r, Pending())
    {
      if crashed {
        return None;
      }
      while true
        invariant Ready() && !crashed && Pending() == old(Pending())
        decreases |commits.Remaining()|, if files.None? then 0 else 1 + |files.value|
      {
        if files.None? {
          var end: Option<Listed>, more := NextCommit();
          if !more {
            return end;
          }
        } else if |files.value| == 0 {
          files := None;
        } else {
          r := NextFile();
          if r.Some? {
            return;
          }
        }
      }
    }

    // Takes one file; None says that it was not selected.
    method NextFile() returns (r: Option<Listed>)
      requires Ready() && !crashed && files.Some? && files.value != []
      modifies this
      ensures Ready() && !crashed && files.Some? && |files.value| < |old(files.value)|
      ensures commits.Remaining() == old(commits.Remaining())
      ensures if r.None? then Pending() == old(Pending()) else TakesFirst(old(Pending()), r, Pending())
    {
      var f := files.value[0];
      files := Some(files.value[1..]);
      ghost var rest := FilesAt(repo, paths, commit, files.value);
      if |paths| > 0 && f.name !in paths {
        assert [] + rest == rest;
        return None;
      }
      var row := Got(CommitFileRow(repo, commit, f));
      Associative([row], rest, CommitFileResults(repo, skipGitErrors, paths, commits.Remaining()));
      return Some(row);
    }

    // Takes one commit. `more` says that the loop goes on; otherwise r is the result.
    method NextCommit() returns (r: Option<Listed>, more: bool)
      requires Ready() && !crashed && files.None?
      modifies this, commits.Repr()
      ensures Ready()
      ensures more ==> !crashed && Pending() == old(Pending()) && |commits.Remaining()| < |old(commits.Remaining())|
      ensures !more ==> TakesFirst(old(Pending()), r, Pending())
    {
      var item := commits.Next();
      if item.None? {
        return None, false;
      }
      ghost var later := CommitFileResults(repo, skipGitErrors, paths, commits.Remaining());
      FirstListed(repo, skipGitErrors, paths, item.value, commits.Remaining());
      assert [] + later == later;
      if item.value.Fail? {
        return Some(Error), skipGitErrors;
      }
      more := Open(item.value.commit);
      r := if more then None else Some(Panic);
    }

    // Starts on the files of a commit; false says that the iterator crashed for want of them.
    method Open(c: Hash) returns (more: bool)
      requires Ready() && !crashed && files.None? && IsCommit(repo, c)
      modifies this
      ensures Ready() && commits.Remaining() == old(commits.Remaining())
      ensures if Unlisted(repo, c) then files.None? && crashed == !skipGitErrors && more == skipGitErrors
              else !crashed && more && files == Some(repo.files[TreeOf(repo, c)]) && commit == c
    {
      commit := c;
      var tree := TreeOf(repo, commit);
      if tree !in repo.files {
        crashed := !skipGitErrors;
        return skipGitErrors;
      }
      files := Some(repo.files[tree]);
      return true;
    }
  }
}
