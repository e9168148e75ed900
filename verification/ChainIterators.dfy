// The chained iterators as objects: each call of Advance moves to the next row.

module ChainIterators {
  import opened Objects
  import opened Expressions
  import opened Tables
  import opened ChainEvents
  import opened RowContents
  import IndexedCommits

  // What Advance reports: a new row, the end, or a git error.
  datatype Status = Advanced | Finished | Errored

  // References, with HEAD first. A virtual iterator has no columns.
  class RefIter {
    const repo: Repository
    const filters: Option<Expr>
    const virtual: bool
    var head: Option<Hash>
    var refs: seq<Reference>
    var ref: Reference
    var row: Row

    // The references it has yet to move to.
    ghost function Pending(): seq<RefEvent>
      reads this
    {
      RefEvents(repo, filters, virtual, (if head.Some? then [HashRef("HEAD", head.value)] else []) + refs)
    }

    constructor (repo: Repository, filters: Option<Expr>, virtual: bool)
      ensures this.repo == repo && this.virtual == virtual
      ensures Pending() == RefEvents(repo, filters, virtual, HeadAndRefs(repo))
    {
      this.repo, this.filters, this.virtual := repo, filters, virtual;
      head, refs := repo.head, repo.refs;
      ref, row := SymbolicRef("", ""), [];
    }

    function Row(): Row
      reads this
    {
      if virtual then [] else row
    }

    method Advance() returns (s: Status)
      modifies this
      ensures old(Pending()) == [] ==> s == Finished && Pending() == []
      ensures old(Pending()) != [] ==>
                && s == Advanced && old(Pending()) == [RefEvent(Row(), ref)] + Pending() && ref.HashRef?
    {
      while true
        invariant Pending() == old(Pending())
        decreases (if head.Some? then 1 else 0) + |refs|
      {
        var r: Reference;
        if head.Some? {
          r := HashRef("HEAD", head.value);
          assert ([r] + refs)[1..] == refs;
          assert [] + refs == refs;
          head := None;
        } else if |refs| == 0 {
          return Finished;
        } else {
          r := refs[0];
          assert [] + refs == refs && [] + refs[1..] == refs[1..];
          refs := refs[1..];
        }
        if r.HashRef? {
          ref, row := r, RefRow(repo, r);
          if filters.None? || EvalAt(filters.value, row) == Truth(true) {
            return Advanced;
          }
        }
      }
    }
  }

  // The full history of every reference.
  class RefRefCommitsIter {
    const refs: RefIter
    const skipGitErrors: bool
    const filters: Option<Expr>
    var commits: IndexedCommits.IndexedCommitIter?
    var commit: Hash
    var row: Row

    ghost function Repr(): set<object>
      reads this
    {
      {this, refs} + if commits == null then {} else {commits}
    }

    ghost predicate Valid()
      reads this, Repr()
    {
      commits != null ==>
        commits.repo == refs.repo && commits.skipGitErrors == skipGitErrors && commits.Ready()
    }

    ghost function Pending(): seq<CommitEvent>
      requires Valid()
      reads this, Repr()
    {
      (if commits == null then [] else HistoryEvents(refs.repo, filters, refs.Row(), refs.ref.name, commits.Remaining()))
      + RefCommitEvents(refs.repo, skipGitErrors, filters, refs.Pending())
    }

    constructor (refs: RefIter, skipGitErrors: bool, filters: Option<Expr>)
      ensures this.refs == refs && Valid() && Repr() == {this, refs}
      ensures Pending() == RefCommitEvents(refs.repo, skipGitErrors, filters, refs.Pending())
    {
      this.refs, this.skipGitErrors, this.filters := refs, skipGitErrors, filters;
      commits, commit, row := null, Hash(0), [];
    }

    method Advance() returns (s: Status)
      requires Valid()
      modifies Repr()
      ensures Valid() && fresh(Repr() - old(Repr()))
      ensures TakesCommit(old(Pending()), s, row, commit, Pending())
      ensures s == Advanced ==> IsCommit(refs.repo, commit)
    {
      while true
        invariant Valid() && fresh(Repr() - old(Repr())) && Pending() == old(Pending())
        decreases |refs.Pending()|, if commits == null then 0 else 1 + |commits.Remaining()|
      {
        var done: Option<Status>;
        if commits == null {
          done := NextRef();
        } else {
          done := NextCommit();
        }
        if done.Some? {
          return done.value;
        }
      }
    }

    // None says that the loop goes round again.
    method NextRef() returns (done: Option<Status>)
      requires Valid() && commits == null
      modifies Repr()
      ensures Valid() && fresh(Repr() - old(Repr()))
      ensures done.Some? ==> TakesCommit(old(Pending()), done.value, row, commit, Pending())
      ensures done == Some(Advanced) ==> IsCommit(refs.repo, commit)
      ensures done.None? ==> Pending() == old(Pending()) && |refs.Pending()| < |old(refs.Pending())|
    {
      ghost var before := refs.Pending();
      var s := refs.Advance();
      if s == Finished {
        return Some(Finished);
      }
      assert before == [RefEvent(refs.Row(), refs.ref)] + refs.Pending();
      assert before[1..] == refs.Pending();
      match Resolve(refs.repo, refs.ref.hash) {
        case NotACommit =>
          return None;
        case Missing =>
          return if skipGitErrors then None else Some(Errored);
        case Found(c) =>
          ResolveFindsCommit(refs.repo, refs.ref.hash);
          commits := new IndexedCommits.IndexedCommitIter(skipGitErrors, refs.repo, c);
          return None;
      }
    }

    method NextCommit() returns (done: Option<Status>)
      requires Valid() && commits != null
      modifies Repr()
      ensures Valid() && fresh(Repr() - old(Repr()))
      ensures done.Some? ==> TakesCommit(old(Pending()), done.value, row, commit, Pending())
      ensures done == Some(Advanced) ==> IsCommit(refs.repo, commit)
      ensures done.None? ==> Pending() == old(Pending()) && refs.Pending() == old(refs.Pending())
      ensures done.None? && commits != null ==> commits == old(commits) && |commits.Remaining()| < |old(commits.Remaining())|
    {
      ghost var items := commits.Remaining();
      ghost var more := RefCommitEvents(refs.repo, skipGitErrors, filters, refs.Pending());
      var item := commits.Next();
      if item.None? {
        commits := null;
        return None;
      }
      assert items == [item.value] + commits.Remaining();
      ghost var rest := HistoryEvents(refs.repo, filters, refs.Row(), refs.ref.name, commits.Remaining());
      match item.value {
        case Fail =>
          Associative([CommitError], rest, more);
          return Some(Errored);
        case Emit(h, idx) =>
          commit, row := h, refs.Row() + RefCommitRow(refs.repo, refs.ref.name, h, idx);
          if filters.Some? && EvalAt(filters.value, row) != Truth(true) {
            assert [] + rest == rest;
            return None;
          }
          Associative([AtCommit(row, h)], rest, more);
          return Some(Advanced);
      }
    }
  }

  // One call moved past the first event.
  ghost predicate TakesCommit(before: seq<CommitEvent>, s: Status, row: Row, commit: Hash, after: seq<CommitEvent>) {
    match s
    case Finished => before == [] && after == []
    case Errored => before == [CommitError] + after
    case Advanced => before == [AtCommit(row, commit)] + after
  }

  // Only the commit each reference leads to, at index 0.
  class RefHeadRefCommitsIter {
    const refs: RefIter
    const skipGitErrors: bool
    const filters: Option<Expr>
    var commit: Hash
    var row: Row

    ghost function Repr(): set<object>
      reads this
    {
      {this, refs}
    }

    ghost function Pending(): seq<CommitEvent>
      reads this, Repr()
    {
      HeadEvents(refs.repo, skipGitErrors, filters, WithRefCommit(refs.repo), refs.Pending())
    }

    constructor (refs: RefIter, skipGitErrors: bool, filters: Option<Expr>)
      ensures this.refs == refs
      ensures Pending() == HeadEvents(refs.repo, skipGitErrors, filters, WithRefCommit(refs.repo), refs.Pending())
    {
      this.refs, this.skipGitErrors, this.filters := refs, skipGitErrors, filters;
      commit, row := Hash(0), [];
    }

    method Advance() returns (s: Status)
      modifies Repr()
      ensures TakesCommit(old(Pending()), s, row, commit, Pending())
      ensures s == Advanced ==> IsCommit(refs.repo, commit)
    {
      while true
        invariant Pending() == old(Pending())
        decreases |refs.Pending()|
      {
        ghost var before := refs.Pending();
        s := refs.Advance();
        if s == Finished {
          return;
        }
        assert before == [RefEvent(refs.Row(), refs.ref)] + refs.Pending();
        assert before[1..] == refs.Pending();
        match Resolve(refs.repo, refs.ref.hash) {
          case NotACommit =>
          case Missing =>
            if !skipGitErrors {
              return Errored;
            }
          case Found(c) =>
            ResolveFindsCommit(refs.repo, refs.ref.hash);
            commit, row := c, refs.Row() + RefCommitRow(refs.repo, refs.ref.name, c, 0);
            if filters.None? || EvalAt(filters.value, row) == Truth(true) {
              return Advanced;
            }
        }
      }
    }
  }

  // The commit each reference leads to, as a row of commits, or with no columns of its own.
  class RefHeadCommitsIter {
    const refs: RefIter
    const skipGitErrors: bool
    const filters: Option<Expr>
    const virtual: bool
    var commit: Hash
    var row: Row

    ghost function Repr(): set<object>
      reads this
    {
      {this, refs}
    }

    ghost function Pending(): seq<CommitEvent>
      reads this, Repr()
    {
      HeadEvents(refs.repo, skipGitErrors, filters, WithCommit(refs.repo, virtual), refs.Pending())
    }

    constructor (refs: RefIter, skipGitErrors: bool, filters: Option<Expr>, virtual: bool)
      ensures this.refs == refs
      ensures Pending() == HeadEvents(refs.repo, skipGitErrors, filters, WithCommit(refs.repo, virtual), refs.Pending())
    {
      this.refs, this.skipGitErrors, this.filters, this.virtual := refs, skipGitErrors, filters, virtual;
      commit, row := Hash(0), [];
    }

    method Advance() returns (s: Status)
      modifies Repr()
      ensures TakesCommit(old(Pending()), s, row, commit, Pending())
      ensures s == Advanced ==> IsCommit(refs.repo, commit)
    {
      while true
        invariant Pending() == old(Pending())
        decreases |refs.Pending()|
      {
        ghost var before := refs.Pending();
        s := refs.Advance();
        if s == Finished {
          return;
        }
        assert before == [RefEvent(refs.Row(), refs.ref)] + refs.Pending();
        assert before[1..] == refs.Pending();
        match Resolve(refs.repo, refs.ref.hash) {
          case NotACommit =>
          case Missing =>
            if !skipGitErrors {
              return Errored;
            }
          case Found(c) =>
            ResolveFindsCommit(refs.repo, refs.ref.hash);
            commit := c;
            row := if virtual then refs.Row() else refs.Row() + CommitRow(refs.repo, c);
            if filters.None? || EvalAt(filters.value, row) == Truth(true) {
              return Advanced;
            }
        }
      }
    }
  }

  // The commit of each row of ref_commits, as further columns.
  class RefCommitCommitsIter {
    const repo: Repository
    const refCommits: CommitsIter
    const filters: Option<Expr>
    ghost const depth: nat
    var row: Row
    ghost var Pending: seq<CommitEvent>

    ghost function Repr(): set<object>
      reads this, refCommits
    {
      {this} + refCommits.Repr
    }

    ghost predicate Valid()
      reads this, refCommits, Repr()
      decreases depth
    {
      && this !in refCommits.Repr && refCommits.depth < depth && refCommits.Valid() && refCommits.repo == repo
      && Pending == CommitsEvents(repo, filters, refCommits.Pending)
    }

    function Commit(): Hash
      reads this, refCommits
    {
      refCommits.commit
    }

    constructor (refCommits: CommitsIter, filters: Option<Expr>)
      requires refCommits.Valid()
      ensures this.refCommits == refCommits && repo == refCommits.repo && Valid() && fresh(Repr() - refCommits.Repr)
      ensures Pending == CommitsEvents(repo, filters, refCommits.Pending)
    {
      this.refCommits, this.filters, repo, depth := refCommits, filters, refCommits.repo, refCommits.depth + 1;
      row := [];
      Pending := CommitsEvents(refCommits.repo, filters, refCommits.Pending);
    }

    method Advance() returns (s: Status)
      requires Valid()
      modifies Repr()
      ensures Valid() && fresh(Repr() - old(Repr()))
      ensures TakesCommit(old(Pending), s, row, Commit(), Pending)
      ensures s == Advanced ==> IsCommit(repo, Commit()) && EndsWithCommit(repo, row, Commit())
      decreases depth, 1
    {
      while true
        invariant Valid() && fresh(Repr() - old(Repr())) && Pending == old(Pending)
        decreases |refCommits.Pending|
      {
        var done := Turn();
        if done.Some? {
          return done.value;
        }
      }
    }

    // One pass through the loop; None says that it goes round again.
    method Turn() returns (done: Option<Status>)
      requires Valid()
      modifies Repr()
      ensures Valid() && fresh(Repr() - old(Repr()))
      ensures done.Some? ==> TakesCommit(old(Pending), done.value, row, Commit(), Pending)
      ensures done == Some(Advanced) ==> IsCommit(repo, Commit()) && EndsWithCommit(repo, row, Commit())
      ensures done.None? ==> Pending == old(Pending) && |refCommits.Pending| < |old(refCommits.Pending)|
      decreases depth, 0
    {
      ghost var before := refCommits.Pending;
      var s := refCommits.Advance();
      Pending := CommitsEvents(repo, filters, refCommits.Pending);
      if s == Finished {
        return Some(s);
      }
      assert before[1..] == refCommits.Pending;
      if s == Errored {
        return Some(s);
      }
      row := refCommits.row + CommitRow(repo, Commit());
      CommitAppended(repo, refCommits.row, Commit());
      done := if filters.None? || EvalAt(filters.value, row) == Truth(true) then Some(Advanced) else None;
    }
  }

  datatype CommitsSource =
    | Full(full: RefRefCommitsIter)
    | Heads(heads: RefHeadRefCommitsIter)
    | RefHeads(refHeads: RefHeadCommitsIter)
    | WithRefCommits(commits: RefCommitCommitsIter)

  // Any iterator that is at a commit.
  class CommitsIter {
    const repo: Repository
    const it: CommitsSource
    ghost const depth: nat
    var row: Row
    var commit: Hash
    ghost var Repr: set<object>
    ghost var Pending: seq<CommitEvent>

    ghost predicate Valid()
      reads this, Repr
      decreases depth
    {
      this in Repr &&
      match it
      case Full(it) =>
        it in Repr && it.Repr() <= Repr && this !in it.Repr() && it.Valid() && it.refs.repo == repo && Pending == it.Pending()
      case Heads(it) =>
        it in Repr && it.Repr() <= Repr && this !in it.Repr() && it.refs.repo == repo && Pending == it.Pending()
      case RefHeads(it) =>
        it in Repr && it.Repr() <= Repr && this !in it.Repr() && it.refs.repo == repo && Pending == it.Pending()
      case WithRefCommits(it) =>
        && {it, it.refCommits} <= Repr && it.Repr() <= Repr && this !in it.Repr() && it.depth < depth
        && it.Valid() && it.repo == repo && Pending == it.Pending
    }

    constructor OfFull(full: RefRefCommitsIter)
      requires full.Valid()
      ensures Valid() && fresh(Repr - full.Repr()) && repo == full.refs.repo && Pending == full.Pending()
    {
      it, repo, depth := Full(full), full.refs.repo, 0;
      row, commit := [], Hash(0);
      Pending := full.Pending();
      new;
      Repr := {this} + full.Repr();
    }

    constructor OfHeads(heads: RefHeadRefCommitsIter)
      ensures Valid() && fresh(Repr - heads.Repr()) && repo == heads.refs.repo && Pending == heads.Pending()
    {
      it, repo, depth := Heads(heads), heads.refs.repo, 0;
      row, commit := [], Hash(0);
      Pending := heads.Pending();
      new;
      Repr := {this} + heads.Repr();
    }

    constructor OfRefHeads(refHeads: RefHeadCommitsIter)
      ensures Valid() && fresh(Repr - refHeads.Repr()) && repo == refHeads.refs.repo && Pending == refHeads.Pending()
    {
      it, repo, depth := RefHeads(refHeads), refHeads.refs.repo, 0;
      row, commit := [], Hash(0);
      Pending := refHeads.Pending();
      new;
      Repr := {this} + refHeads.Repr();
    }

    constructor OfCommits(commits: RefCommitCommitsIter)
      requires commits.Valid()
      ensures Valid() && fresh(Repr - commits.Repr()) && repo == commits.repo && Pending == commits.Pending
    {
      it, repo, depth := WithRefCommits(commits), commits.repo, commits.depth + 1;
      row, commit := [], Hash(0);
      Pending := commits.Pending;
      new;
      Repr := {this} + commits.Repr();
    }

    method Advance() returns (s: Status)
      requires Valid()
      modifies Repr
      ensures Valid() && fresh(Repr - old(Repr))
      ensures TakesCommit(old(Pending), s, row, commit, Pending)
      ensures s == Advanced ==> IsCommit(repo, commit)
      decreases depth, 1
    {
      match it {
        case Full(it) => s := AdvanceFull(it);
        case Heads(it) =>
          s := it.Advance();
          row, commit := it.row, it.commit;
          Pending, Repr := it.Pending(), {this} + it.Repr();
        case RefHeads(it) =>
          s := it.Advance();
          row, commit := it.row, it.commit;
          Pending, Repr := it.Pending(), {this} + it.Repr();
        case WithRefCommits(it) => s := AdvanceCommits(it);
      }
    }

    method AdvanceFull(it: RefRefCommitsIter) returns (s: Status)
      requires Valid() && this.it == Full(it)
      modifies Repr
      ensures Valid() && fresh(Repr - old(Repr))
      ensures TakesCommit(old(Pending), s, row, commit, Pending)
      ensures s == Advanced ==> IsCommit(repo, commit)
    {
      s := it.Advance();
      ghost var pending, repr := it.Pending(), {this} + it.Repr();
      row, commit, Pending, Repr := it.row, it.commit, pending, repr;
    }

    method AdvanceCommits(it: RefCommitCommitsIter) returns (s: Status)
      requires Valid() && this.it == WithRefCommits(it)
      modifies Repr
      ensures Valid() && fresh(Repr - old(Repr))
      ensures TakesCommit(old(Pending), s, row, commit, Pending)
      ensures s == Advanced ==> IsCommit(repo, commit)
      decreases depth, 0
    {
      s := it.Advance();
      row, commit := it.row, it.Commit();
      Pending, Repr := it.Pending, {this} + it.Repr();
    }
  }

  // One call moved past the first event.
  ghost predicate TakesFile(before: seq<FileEvent>, s: Status, row: Row, tree: Hash, file: File, after: seq<FileEvent>) {
    match s
    case Finished => before == [] && after == []
    case Errored => before == [FileError] + after
    case Advanced => before == [AtFile(row, tree, file)] + after
  }

  lemma FirstOfFiles(repo: Repository, readContent: bool, filter: Option<Expr>, row: Row, tree: Hash, file: File,
                     before: seq<FileEvent>, after: seq<FileEvent>)
    requires before == [AtFile(row, tree, file)] + after
    ensures var wider := row + FileRow(repo, tree, file, readContent);
            FilesEvents(repo, readContent, filter, before)
            == (if Passes(filter, wider) then [AtFile(wider, tree, file)] else []) + FilesEvents(repo, readContent, filter, after)
  {
    assert before[1..] == after;
  }

  lemma FirstFile(repo: Repository, filter: Option<Expr>, prefix: Row, c: Hash, files: seq<File>, more: seq<FileEvent>)
    requires files != [] && IsCommit(repo, c)
    ensures var row := prefix + CommitFileRow(repo, c, files[0]);
            ListEvents(repo, filter, prefix, c, files) + more
            == (if Passes(filter, row) then [AtFile(row, TreeOf(repo, c), files[0])] else [])
               + (ListEvents(repo, filter, prefix, c, files[1..]) + more)
  {
    var row := prefix + CommitFileRow(repo, c, files[0]);
    Associative(if Passes(filter, row) then [AtFile(row, TreeOf(repo, c), files[0])] else [],
                ListEvents(repo, filter, prefix, c, files[1..]), more);
  }

  lemma FirstCommit(repo: Repository, skip: bool, filter: Option<Expr>, row: Row, c: Hash, before: seq<CommitEvent>,
                    after: seq<CommitEvent>)
    requires before == [AtCommit(row, c)] + after && IsCommit(repo, c)
    ensures CommitFileEvents(repo, skip, filter, before)
            == (if TreeOf(repo, c) !in repo.files then if skip then [] else [FileError]
                else ListEvents(repo, filter, row, c, repo.files[TreeOf(repo, c)]))
               + CommitFileEvents(repo, skip, filter, after)
  {
    assert before[1..] == after;
  }

  lemma FirstError(repo: Repository, skip: bool, filter: Option<Expr>, before: seq<CommitEvent>, after: seq<CommitEvent>)
    requires before == [CommitError] + after
    ensures CommitFileEvents(repo, skip, filter, before)
            == (if skip then [] else [FileError]) + CommitFileEvents(repo, skip, filter, after)
  {
    assert before[1..] == after;
  }

  // The files of each commit.
  class CommitFilesIter {
    const commits: CommitsIter
    const skipGitErrors: bool
    const filters: Option<Expr>
    var files: Option<seq<File>>
    var file: File
    var commit: Hash
    var treeHash: Hash
    var row: Row

    ghost function Repr(): set<object>
      reads this, commits
    {
      {this} + commits.Repr
    }

    ghost predicate Valid()
      reads this, commits, Repr()
    {
      && this !in commits.Repr && commits.Valid()
      && (files.Some? ==> IsCommit(commits.repo, commit) && commit == commits.commit)
    }

    ghost function Pending(): seq<FileEvent>
      requires Valid()
      reads this, commits, Repr()
    {
      (if files.None? then [] else ListEvents(commits.repo, filters, commits.row, commit, files.value))
      + CommitFileEvents(commits.repo, skipGitErrors, filters, commits.Pending)
    }

    constructor (commits: CommitsIter, skipGitErrors: bool, filters: Option<Expr>)
      requires commits.Valid()
      ensures this.commits == commits && Valid() && fresh(Repr() - commits.Repr)
      ensures Pending() == CommitFileEvents(commits.repo, skipGitErrors, filters, commits.Pending)
    {
      this.commits, this.skipGitErrors, this.filters := commits, skipGitErrors, filters;
      files, file, commit, treeHash, row := None, File("", Hash(0), "", 0, ""), Hash(0), Hash(0), [];
    }

    method Advance() returns (s: Status)
      requires Valid()
      modifies Repr()
      ensures Valid() && fresh(Repr() - old(Repr()))
      ensures TakesFile(old(Pending()), s, row, treeHash, file, Pending())
    {
      while true
        invariant Valid() && fresh(Repr() - old(Repr())) && Pending() == old(Pending())
        decreases |commits.Pending|, if files.None? then 0 else 1 + |files.value|
      {
        var done: Option<Status>;
        if files.None? {
          done := NextCommit();
        } else {
          done := NextFile();
        }
        if done.Some? {
          return done.value;
        }
      }
    }

    method Pull() returns (s: Status)
      requires Valid() && files.None?
      modifies Repr()
      ensures Valid() && files.None? && fresh(Repr() - old(Repr()))
      ensures TakesCommit(old(commits.Pending), s, commits.row, commits.commit, commits.Pending)
      ensures s == Advanced ==> IsCommit(commits.repo, commits.commit)
    {
      s := commits.Advance();
    }

    // Starts on the files of the commit at hand; an error if they cannot be listed.
    method Open() returns (done: Option<Status>)
      requires Valid() && files.None? && IsCommit(commits.repo, commits.commit)
      modifies this
      ensures Valid() && commits.Pending == old(commits.Pending) && commits.row == old(commits.row)
      ensures var tree := TreeOf(commits.repo, commits.commit);
              if tree in commits.repo.files then
                done == None && files == Some(commits.repo.files[tree]) && commit == commits.commit
              else files == None && done == if skipGitErrors then None else Some(Errored)
    {
      commit := commits.commit;
      var tree := TreeOf(commits.repo, commit);
      if tree !in commits.repo.files {
        return if skipGitErrors then None else Some(Errored);
      }
      files := Some(commits.repo.files[tree]);
      return None;
    }

    // None says that the loop goes round again.
    method NextCommit() returns (done: Option<Status>)
      requires Valid() && files.None?
      modifies Repr()
      ensures Valid() && fresh(Repr() - old(Repr()))
      ensures done.Some? ==> TakesFile(old(Pending()), done.value, row, treeHash, file, Pending())
      ensures done.None? ==> Pending() == old(Pending()) && |commits.Pending| < |old(commits.Pending)|
    {
      ghost var before := commits.Pending;
      var s := Pull();
      if s == Finished {
        return Some(s);
      }
      if s == Errored {
        FirstError(commits.repo, skipGitErrors, filters, before, commits.Pending);
        return if skipGitErrors then None else Some(s);
      }
      FirstCommit(commits.repo, skipGitErrors, filters, commits.row, commits.commit, before, commits.Pending);
      done := Open();
    }

    method NextFile() returns (done: Option<Status>)
      requires Valid() && files.Some?
      modifies this
      ensures Valid() && commits.Repr == old(commits.Repr)
      ensures done.Some? ==> TakesFile(old(Pending()), done.value, row, treeHash, file, Pending())
      ensures done.None? ==> Pending() == old(Pending()) && commits.Pending == old(commits.Pending)
      ensures done.None? && files.Some? ==> |files.value| < |old(files.value)|
    {
      if |files.value| == 0 {
        files := None;
        return None;
      }
      ghost var more := CommitFileEvents(commits.repo, skipGitErrors, filters, commits.Pending);
      FirstFile(commits.repo, filters, commits.row, commit, files.value, more);
      var next := commits.row + CommitFileRow(commits.repo, commit, files.value[0]);
      file, files := files.value[0], Some(files.value[1..]);
      treeHash, row := TreeOf(commits.repo, commit), next;
      done := if filters.None? || EvalAt(filters.value, row) == Truth(true) then Some(Advanced) else None;
    }
  }

  // The rows of files for each row of commit_files.
  class CommitFileFilesIter {
    const files: CommitFilesIter
    const readContent: bool
    const filters: Option<Expr>
    var row: Row

    ghost function Repr(): set<object>
      reads this, files, files.commits
    {
      {this} + files.Repr()
    }

    ghost predicate Valid()
      reads this, files, files.commits, Repr()
    {
      this !in files.Repr() && files.Valid()
    }

    ghost function Pending(): seq<FileEvent>
      requires Valid()
      reads this, files, files.commits, Repr()
    {
      FilesEvents(files.commits.repo, readContent, filters, files.Pending())
    }

    constructor (files: CommitFilesIter, filters: Option<Expr>, readContent: bool)
      requires files.Valid()
      ensures this.files == files && Valid() && fresh(Repr() - files.Repr())
      ensures Pending() == FilesEvents(files.commits.repo, readContent, filters, files.Pending())
    {
      this.files, this.filters, this.readContent := files, filters, readContent;
      row := [];
    }

    method Advance() returns (s: Status)
      requires Valid()
      modifies Repr()
      ensures Valid() && fresh(Repr() - old(Repr()))
      ensures TakesFile(old(Pending()), s, row, files.treeHash, files.file, Pending())
    {
      while true
        invariant Valid() && fresh(Repr() - old(Repr())) && Pending() == old(Pending())
        decreases |files.Pending()|
      {
        var done := Turn();
        if done.Some? {
          return done.value;
        }
      }
    }

    // One pass through the loop; None says that it goes round again.
    method Turn() returns (done: Option<Status>)
      requires Valid()
      modifies Repr()
      ensures Valid() && fresh(Repr() - old(Repr()))
      ensures done.Some? ==> TakesFile(old(Pending()), done.value, row, files.treeHash, files.file, Pending())
      ensures done.None? ==> Pending() == old(Pending()) && |files.Pending()| < |old(files.Pending())|
    {
      ghost var before := files.Pending();
      var s := files.Advance();
      if s == Finished {
        return Some(s);
      }
      if s == Errored {
        assert before[1..] == files.Pending();
        return Some(s);
      }
      FirstOfFiles(files.commits.repo, readContent, filters, files.row, files.treeHash, files.file, before, files.Pending());
      row := files.row + FileRow(files.commits.repo, files.treeHash, files.file, readContent);
      done := if filters.None? || EvalAt(filters.value, row) == Truth(true) then Some(Advanced) else None;
    }
  }
}
