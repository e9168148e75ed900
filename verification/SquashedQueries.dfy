// Squashed queries over refs, ref_commits, commits, commit_files and files return what the plain
// tables return.

module SquashedQueries {
  import opened Objects
  import opened Expressions
  import opened SquashJoins
  import opened FilterConservation
  import opened Relations
  import opened Layout
  import opened SquashMeaning
  import opened PlanTrace
  import opened Tables
  import opened JoinFacts
  import opened StageExactness
  import opened ProductRows
  import opened ChainStages
  import opened ExactChains
  import CommitWalk

  // -------------------------------------------------------------------------
  // What the query asks for makes the joins true
  // -------------------------------------------------------------------------

  lemma EntailedIs(filters: seq<Expr>, a: Col, b: Col, schema: Schema, row: Row)
    requires Entails(filters, a, b) && AllTrue(filters, schema, row)
    ensures ValueOf(schema, row, a) == ValueOf(schema, row, b)
  {}

  lemma AskedIsTrue(stage: Stage, before: Schema, filters: seq<Expr>, schema: Schema, row: Row)
    requires Asks(filters, stage, before) && AllTrue(filters, schema, row)
    ensures AllTrue(Sames(Asked(stage.link, before)), schema, row)
  {
    var pairs := Asked(stage.link, before);
    forall f | f in Sames(pairs) ensures True(f, schema, row) {
      var k := SamesHave(pairs, f);
      EntailedIs(filters, pairs[k].0, pairs[k].1, schema, row);
      SameMeans(pairs[k].0, pairs[k].1, schema, row);
    }
  }

  // A row of the product with the plain tables.
  ghost predicate InProduct(repo: Repository, readContent: bool, db: Db, order: seq<Table>, row: Row) {
    Wellformed(repo) && Plain(db, repo, readContent) && Distinct(order) && row in Product(db, order)
  }

  lemma ReadRefCommitColumns(schema: Schema, row: Row, r: Row)
    requires Holds(schema, row, RefCommits, r) && |r| == 4
    ensures ValueOf(schema, row, Col(RefCommits, CommitHash)) == r[1]
    ensures ValueOf(schema, row, Col(RefCommits, RefName)) == r[2]
    ensures ValueOf(schema, row, Col(RefCommits, HistoryIndex)) == r[3]
  {
    HeldAt(schema, row, RefCommits, r, 1);
    HeldAt(schema, row, RefCommits, r, 2);
    HeldAt(schema, row, RefCommits, r, 3);
  }

  lemma RowOfHistory(repo: Repository, r: Row, k: nat)
    requires k < |RefList(repo)| && NamesApart(repo, RefList(repo))
    requires r in RefCommitRows(repo) && |r| == 4 && r[2] == Text(RefList(repo)[k].name)
    ensures r in HistoryOf(repo, RefList(repo)[k].name, RefList(repo)[k].hash)
  {
    RefMeetsItsHistory(repo, RefList(repo), k);
    WhereHas(RefCommitRows(repo), 2, Text(RefList(repo)[k].name));
  }

  // In the history of a reference, index 0 is the commit the reference leads to.
  lemma HeadRowIff(repo: Repository, r: Row, name: string, hash: Hash)
    requires r in HistoryOf(repo, name, hash) && |r| == 4
    ensures Resolve(repo, hash).Found? && r[1].Digest? && IsCommit(repo, r[1].hash)
    ensures r[3] == Number(0) <==> r[1] == Digest(Resolve(repo, hash).commit)
  {
    HistoryOfHas(repo, name, hash, r);
    HistoryOfOpens(repo, name, hash);
  }

  // On a row that joins a reference to its history by name, the index is 0 exactly on its own commit.
  lemma IndexZeroIff(repo: Repository, readContent: bool, db: Db, order: seq<Table>, row: Row)
    returns (hash: Hash, commit: Hash)
    requires InProduct(repo, readContent, db, order, row) && References in order && RefCommits in order
    requires NamesApart(repo, RefList(repo))
    requires ValueOf(Concat(order), row, Col(References, RefName)) == ValueOf(Concat(order), row, Col(RefCommits, RefName))
    ensures IsCommit(repo, commit) && Resolve(repo, hash).Found?
    ensures exists r :: r in RefList(repo) && r.hash == hash
    ensures ValueOf(Concat(order), row, Col(References, CommitHash)) == Digest(hash)
    ensures ValueOf(Concat(order), row, Col(RefCommits, CommitHash)) == Digest(commit)
    ensures ValueOf(Concat(order), row, Col(RefCommits, HistoryIndex)) == Number(0)
            <==> commit == Resolve(repo, hash).commit
  {
    var k := CurrentRef(repo, readContent, db, order, row);
    var r := ProductRow(db, order, row, RefCommits);
    var h := RefCommitIsCrawled(repo, r);
    ReadRefCommitColumns(Concat(order), row, r);
    RowOfHistory(repo, r, k);
    HeadRowIff(repo, r, RefList(repo)[k].name, RefList(repo)[k].hash);
    hash, commit := RefList(repo)[k].hash, r[1].hash;
    assert RefList(repo)[k] in RefList(repo);
  }

  lemma NarrowFollows(repo: Repository, readContent: bool, db: Db, order: seq<Table>, row: Row, filters: seq<Expr>)
    requires InProduct(repo, readContent, db, order, row) && References in order && RefCommits in order
    requires NamesApart(repo, RefList(repo)) && AllTrue(filters, Concat(order), row)
    requires Entails(filters, Col(References, RefName), Col(RefCommits, RefName))
    requires Entails(filters, Col(References, CommitHash), Col(RefCommits, CommitHash))
    ensures True(Holding(Col(RefCommits, HistoryIndex), Number(0)), Concat(order), row)
  {
    var schema := Concat(order);
    EntailedIs(filters, Col(References, CommitHash), Col(RefCommits, CommitHash), schema, row);
    EntailedIs(filters, Col(References, RefName), Col(RefCommits, RefName), schema, row);
    var hash, commit := IndexZeroIff(repo, readContent, db, order, row);
    ResolveFindsCommit(repo, commit);
    HoldingMeans(Col(RefCommits, HistoryIndex), Number(0), schema, row);
  }

  // The row of ref_commits that holds the hash of a reference is the head row of that reference.
  lemma SolitaryRow(repo: Repository, k: nat, r: Row)
    requires Solitary(repo) && k < |RefList(repo)| && r in RefCommitRows(repo)
    requires |r| == 4 && r[1] == Digest(RefList(repo)[k].hash)
    ensures r[2] == Text(RefList(repo)[k].name) && r[3] == Number(0)
  {
    var refs := RefList(repo);
    RefCommitRowsHave(repo, refs, r);
    var ref :| ref in refs && r in HistoryOf(repo, ref.name, ref.hash);
    HistoryOfHas(repo, ref.name, ref.hash, r);
    ResolveFindsCommit(repo, refs[k].hash);
    var j :| 0 <= j < |refs| && refs[j] == ref;
    assert Lists(repo, refs[j], refs[k].hash);
    HeadRowIff(repo, r, ref.name, ref.hash);
  }

  lemma HashFollows(repo: Repository, readContent: bool, db: Db, order: seq<Table>, row: Row, filters: seq<Expr>)
    requires InProduct(repo, readContent, db, order, row) && References in order && RefCommits in order
    requires Solitary(repo) && AllTrue(filters, Concat(order), row)
    requires Entails(filters, Col(References, CommitHash), Col(RefCommits, CommitHash))
    ensures ValueOf(Concat(order), row, Col(References, RefName)) == ValueOf(Concat(order), row, Col(RefCommits, RefName))
    ensures ValueOf(Concat(order), row, Col(RefCommits, HistoryIndex)) == Number(0)
  {
    EntailedIs(filters, Col(References, CommitHash), Col(RefCommits, CommitHash), Concat(order), row);
    var k := CurrentRef(repo, readContent, db, order, row);
    var r := ProductRow(db, order, row, RefCommits);
    var h := RefCommitIsCrawled(repo, r);
    ReadRefCommitColumns(Concat(order), row, r);
    SolitaryRow(repo, k, r);
  }

  lemma HashJoinsFollow(stage: Stage, before: Schema, schema: Schema, row: Row)
    requires stage.link == Joined(References, RefCommits)
    requires ValueOf(schema, row, Col(References, RefName)) == ValueOf(schema, row, Col(RefCommits, RefName))
    requires ValueOf(schema, row, Col(RefCommits, HistoryIndex)) == Number(0)
    ensures AllTrue(JoinsOf(stage, before), schema, row)
  {
    SameMeans(Col(References, RefName), Col(RefCommits, RefName), schema, row);
    HoldingMeans(Col(RefCommits, HistoryIndex), Number(0), schema, row);
    forall f | f in Sames(Asked(stage.link, before)) ensures True(f, schema, row) {
      var k := SamesHave(Asked(stage.link, before), f);
    }
  }

  lemma StageFollows(repo: Repository, readContent: bool, db: Db, order: seq<Table>, row: Row, stage: Stage,
                     before: seq<Table>, tables: seq<Table>, filters: seq<Expr>)
    requires InProduct(repo, readContent, db, order, row) && AllTrue(filters, Concat(order), row)
    requires Subsequence(before + [Added(stage.link)], order)
    requires StageTraced(stage, before, tables, filters) && StageReady(repo, stage, before, filters)
    ensures AllTrue(JoinsOf(stage, Concat(before)) + Kept(stage.link, stage.dealt), Concat(order), row)
  {
    KeptSubset(stage.link, stage.dealt);
    if !Asks(filters, stage, Concat(before)) {
      HashFollows(repo, readContent, db, order, row, filters);
      HashJoinsFollow(stage, Concat(before), Concat(order), row);
      return;
    }
    AskedIsTrue(stage, Concat(before), filters, Concat(order), row);
    if stage.link == Joined(References, RefCommits) && stage.narrow {
      var pairs := Asked(stage.link, Concat(before));
      assert Entails(filters, pairs[0].0, pairs[0].1);
      NarrowFollows(repo, readContent, db, order, row, filters);
    }
  }

  ghost predicate Subsequence(before: seq<Table>, order: seq<Table>) {
    forall t :: t in before ==> t in order
  }

  lemma {:induction false} ChainFollows(repo: Repository, readContent: bool, db: Db, order: seq<Table>, row: Row,
                                        stages: seq<Stage>, tables: seq<Table>, filters: seq<Expr>)
    requires InProduct(repo, readContent, db, order, row) && AllTrue(filters, Concat(order), row)
    requires Subsequence(StageTables(stages), order)
    requires Ready(repo, stages, filters) && Traced(stages, tables, filters)
    ensures AllTrue(Chained(stages, Joins(stages)), Concat(order), row)
    decreases |stages|
  {
    if stages != [] {
      var n := |stages| - 1;
      ReadyFront(repo, stages, filters);
      TracedFront(stages, tables, filters);
      ChainFollows(repo, readContent, db, order, row, stages[..n], tables, filters);
      StageFollows(repo, readContent, db, order, row, stages[n], StageTables(stages[..n]), tables, filters);
      ChainedLast(stages);
    }
  }

  // -------------------------------------------------------------------------
  // The joins make true what was dropped or moved
  // -------------------------------------------------------------------------

  lemma SameGives(f: Expr, a: Col, b: Col, schema: Schema, row: Row)
    requires IsEq(f, a, b) && ValueOf(schema, row, a) == ValueOf(schema, row, b)
    ensures True(f, schema, row)
  {
    IsEqMeans(f, a, b, schema, row);
  }

  lemma AskedGives(stage: Stage, before: Schema, k: nat, f: Expr, schema: Schema, row: Row)
    requires stage.link != Alone(RefCommits) && AllTrue(JoinsOf(stage, before), schema, row)
    requires k < |Asked(stage.link, before)| && IsEq(f, Asked(stage.link, before)[k].0, Asked(stage.link, before)[k].1)
    ensures True(f, schema, row)
  {
    var pairs := Asked(stage.link, before);
    SamesAt(pairs, k);
    assert Same(pairs[k].0, pairs[k].1) in JoinsOf(stage, before);
    SameMeans(pairs[k].0, pairs[k].1, schema, row);
    SameGives(f, pairs[k].0, pairs[k].1, schema, row);
  }

  // All rows of a repository carry its id.
  lemma RepositoryIdOf(repo: Repository, readContent: bool, db: Db, order: seq<Table>, row: Row, t: Table)
    requires InProduct(repo, readContent, db, order, row)
    requires t in order && t in {Repositories, References, RefCommits}
    ensures ValueOf(Concat(order), row, Col(t, RepositoryId)) == Text(repo.id)
  {
    match t
    case Repositories =>
      var r := ProductRow(db, order, row, t);
      HeldAt(Concat(order), row, t, r, 0);
    case References =>
      var k := CurrentRef(repo, readContent, db, order, row);
    case RefCommits =>
      var h := CurrentRefCommit(repo, readContent, db, order, row);
  }

  lemma DroppedIs(stage: Stage, f: Expr) returns (name: Column)
    requires f in Dropped(stage.link, stage.dealt)
    ensures stage.link.Joined? && f in stage.dealt && name in JoinColumns(stage.link.left, stage.link.right)
    ensures IsEq(f, Col(stage.link.left, name), Col(stage.link.right, name))
  {
    DealtSplits(stage.link, stage.dealt);
    KeptSubset(stage.link, stage.dealt);
    name :| name in JoinColumns(stage.link.left, stage.link.right)
            && IsEq(f, Col(stage.link.left, name), Col(stage.link.right, name));
  }

  lemma DroppedOfRepositories(repo: Repository, readContent: bool, db: Db, order: seq<Table>, row: Row, t: Table, f: Expr)
    requires InProduct(repo, readContent, db, order, row)
    requires Repositories in order && t in order && t in {References, RefCommits}
    requires IsEq(f, Col(Repositories, RepositoryId), Col(t, RepositoryId))
    ensures True(f, Concat(order), row)
  {
    RepositoryIdOf(repo, readContent, db, order, row, Repositories);
    RepositoryIdOf(repo, readContent, db, order, row, t);
    SameGives(f, Col(Repositories, RepositoryId), Col(t, RepositoryId), Concat(order), row);
  }

  // On head commits the hashes agree, if references hold hashes of commits.
  lemma HeadHashesAgree(repo: Repository, readContent: bool, db: Db, order: seq<Table>, row: Row)
    requires InProduct(repo, readContent, db, order, row) && References in order && RefCommits in order
    requires NamesApart(repo, RefList(repo)) && Untagged(repo)
    requires ValueOf(Concat(order), row, Col(References, RefName)) == ValueOf(Concat(order), row, Col(RefCommits, RefName))
    requires ValueOf(Concat(order), row, Col(RefCommits, HistoryIndex)) == Number(0)
    ensures ValueOf(Concat(order), row, Col(References, CommitHash)) == ValueOf(Concat(order), row, Col(RefCommits, CommitHash))
  {
    var hash, commit := IndexZeroIff(repo, readContent, db, order, row);
  }

  lemma IsAskedFor(filters: seq<Expr>, f: Expr, a: Col, b: Col)
    requires f in filters && IsEq(f, a, b)
    ensures HasEq(filters, a, b)
  {
    var i :| 0 <= i < |filters| && filters[i] == f;
  }

  lemma DroppedOfRefCommits(repo: Repository, readContent: bool, db: Db, order: seq<Table>, row: Row, stage: Stage,
                            before: seq<Table>, tables: seq<Table>, filters: seq<Expr>, name: Column, f: Expr)
    requires InProduct(repo, readContent, db, order, row) && References in order && RefCommits in order
    requires stage.link == Joined(References, RefCommits) && StageTraced(stage, before, tables, filters)
    requires StageReady(repo, stage, before, filters)
    requires name in JoinColumns(References, RefCommits) && f in stage.dealt
    requires IsEq(f, Col(References, name), Col(RefCommits, name))
    requires AllTrue(JoinsOf(stage, Concat(before)), Concat(order), row)
    ensures True(f, Concat(order), row)
  {
    if name == RefName {
      AskedGives(stage, Concat(before), 0, f, Concat(order), row);
    } else {
      assert IsEq(f, Col(References, CommitHash), Col(RefCommits, CommitHash)) && f in filters;
      assert stage.narrow;
      NarrowJoinsGive(stage, Concat(before), Concat(order), row);
      DroppedHash(repo, readContent, db, order, row, stage, before, filters, f);
    }
  }

  // The equality of the hashes, on head commits.
  lemma DroppedHash(repo: Repository, readContent: bool, db: Db, order: seq<Table>, row: Row, stage: Stage,
                    before: seq<Table>, filters: seq<Expr>, f: Expr)
    requires InProduct(repo, readContent, db, order, row) && References in order && RefCommits in order
    requires stage.link == Joined(References, RefCommits) && StageReady(repo, stage, before, filters) && f in filters
    requires IsEq(f, Col(References, CommitHash), Col(RefCommits, CommitHash))
    requires ValueOf(Concat(order), row, Col(References, RefName)) == ValueOf(Concat(order), row, Col(RefCommits, RefName))
    requires ValueOf(Concat(order), row, Col(RefCommits, HistoryIndex)) == Number(0)
    ensures True(f, Concat(order), row)
  {
    IsAskedFor(filters, f, Col(References, CommitHash), Col(RefCommits, CommitHash));
    HeadHashesAgree(repo, readContent, db, order, row);
    SameGives(f, Col(References, CommitHash), Col(RefCommits, CommitHash), Concat(order), row);
  }

  lemma NarrowJoinsGive(stage: Stage, before: Schema, schema: Schema, row: Row)
    requires stage.link == Joined(References, RefCommits) && stage.narrow && AllTrue(JoinsOf(stage, before), schema, row)
    ensures ValueOf(schema, row, Col(References, RefName)) == ValueOf(schema, row, Col(RefCommits, RefName))
    ensures ValueOf(schema, row, Col(RefCommits, HistoryIndex)) == Number(0)
  {
    var same := Same(Col(References, RefName), Col(RefCommits, RefName));
    NarrowJoins(stage, before);
    assert [same][0] in JoinsOf(stage, before) && Holding(Col(RefCommits, HistoryIndex), Number(0)) in JoinsOf(stage, before);
    SameMeans(Col(References, RefName), Col(RefCommits, RefName), schema, row);
    HoldingMeans(Col(RefCommits, HistoryIndex), Number(0), schema, row);
  }

  // commit_files chained to ref_commits: the query has no table of commits to compare with.
  lemma DroppedOfCommits(stage: Stage, before: seq<Table>, tables: seq<Table>, filters: seq<Expr>,
                         f: Expr, schema: Schema, row: Row)
    requires stage.link == Joined(Commits, CommitFiles) && StageTraced(stage, before, tables, filters)
    requires Over(filters, Concat(tables)) && f in stage.dealt
    requires IsEq(f, Col(Commits, CommitHash), Col(CommitFiles, CommitHash))
    requires AllTrue(JoinsOf(stage, Concat(before)), schema, row)
    ensures True(f, schema, row)
  {
    IsEqMeans(f, Col(Commits, CommitHash), Col(CommitFiles, CommitHash), schema, row);
    assert Col(Commits, CommitHash) in Mentions(f) && f in filters;
    ConcatHas(tables, Col(Commits, CommitHash));
    SourceColumn(before);
    AskedGives(stage, Concat(before), 0, f, schema, row);
  }

  lemma DroppedOfFiles(stage: Stage, before: Schema, name: Column, f: Expr, schema: Schema, row: Row)
    requires stage.link == Joined(CommitFiles, Files) && name in JoinColumns(CommitFiles, Files)
    requires IsEq(f, Col(CommitFiles, name), Col(Files, name))
    requires AllTrue(JoinsOf(stage, before), schema, row)
    ensures True(f, schema, row)
  {
    var k := if name == TreeHash then 0 else if name == FilePath then 1 else 2;
    AskedGives(stage, before, k, f, schema, row);
  }

  lemma DroppedOfJoins(stage: Stage, before: seq<Table>, tables: seq<Table>, filters: seq<Expr>, name: Column,
                       f: Expr, schema: Schema, row: Row)
    requires Modelled(stage.link) && StageTraced(stage, before, tables, filters) && Over(filters, Concat(tables))
    requires stage.link.Joined? && stage.link.left != Repositories && f in stage.dealt
    requires stage.link != Joined(References, RefCommits) && name in JoinColumns(stage.link.left, stage.link.right)
    requires IsEq(f, Col(stage.link.left, name), Col(stage.link.right, name))
    requires AllTrue(JoinsOf(stage, Concat(before)), schema, row)
    ensures True(f, schema, row)
  {
    if stage.link == Joined(Commits, CommitFiles) {
      DroppedOfCommits(stage, before, tables, filters, f, schema, row);
    } else if stage.link == Joined(CommitFiles, Files) {
      DroppedOfFiles(stage, Concat(before), name, f, schema, row);
    } else {
      AskedGives(stage, Concat(before), 0, f, schema, row);
    }
  }

  lemma DroppedIsTrue(repo: Repository, readContent: bool, db: Db, order: seq<Table>, row: Row, stage: Stage,
                      before: seq<Table>, tables: seq<Table>, filters: seq<Expr>, f: Expr)
    requires InProduct(repo, readContent, db, order, row)
    requires Subsequence(before + [Added(stage.link)], order) && Over(filters, Concat(tables))
    requires StageReady(repo, stage, before, filters) && StageTraced(stage, before, tables, filters)
    requires f in Dropped(stage.link, stage.dealt)
    requires AllTrue(JoinsOf(stage, Concat(before)), Concat(order), row)
    ensures True(f, Concat(order), row)
  {
    var name := DroppedIs(stage, f);
    var t := stage.link.right;
    if stage.link.left == Repositories {
      RepositoriesLink(stage.link, name);
      DroppedOfRepositories(repo, readContent, db, order, row, t, f);
    } else if stage.link == Joined(References, RefCommits) {
      DroppedOfRefCommits(repo, readContent, db, order, row, stage, before, tables, filters, name, f);
    } else {
      DroppedOfJoins(stage, before, tables, filters, name, f, Concat(order), row);
    }
  }

  lemma RepositoriesLink(link: Link, name: Column)
    requires Modelled(link) && link.Joined? && link.left == Repositories && name in JoinColumns(link.left, link.right)
    ensures link.right in {References, RefCommits} && name == RepositoryId
  {}

  // -------------------------------------------------------------------------
  // All stages
  // -------------------------------------------------------------------------

  // What was moved by, or left to, some stage.
  lemma {:induction false} SetAside(stages: seq<Stage>, f: Expr) returns (k: nat)
    requires f in Moved(stages) + Implied(stages)
    ensures k < |stages| && (f in stages[k].moved || f in Dropped(stages[k].link, stages[k].dealt))
  {
    var n := |stages| - 1;
    if f in stages[n].moved || f in Dropped(stages[n].link, stages[n].dealt) {
      k := n;
    } else {
      k := SetAside(stages[..n], f);
    }
  }

  lemma ChainedLast(stages: seq<Stage>)
    requires stages != []
    ensures var n := |stages| - 1;
            Chained(stages, Joins(stages))
            == Chained(stages[..n], Joins(stages[..n]))
               + (JoinsOf(stages[n], Concat(StageTables(stages[..n]))) + Kept(stages[n].link, stages[n].dealt))
  {}

  ghost predicate Among(fs: seq<Expr>, gs: seq<Expr>) {
    forall f :: f in fs ==> f in gs
  }

  lemma ChainedParts(stages: seq<Stage>)
    requires stages != []
    ensures var n := |stages| - 1;
            && Among(Chained(stages[..n], Joins(stages[..n])), Chained(stages, Joins(stages)))
            && Among(JoinsOf(stages[n], Concat(StageTables(stages[..n]))), Chained(stages, Joins(stages)))
  {
    ChainedLast(stages);
  }

  // The joins of every stage are in the chain.
  lemma {:induction false} ChainedHasJoins(stages: seq<Stage>, n: nat, k: nat)
    requires k < n <= |stages|
    ensures Among(JoinsOf(stages[k], Concat(StageTables(stages[..k]))), Chained(stages[..n], Joins(stages[..n])))
    decreases n
  {
    ChainedParts(stages[..n]);
    assert stages[..n][..n - 1] == stages[..n - 1];
    if k < n - 1 {
      ChainedHasJoins(stages, n - 1, k);
    }
  }

  lemma {:induction false} TablesBefore(stages: seq<Stage>, k: nat)
    requires k < |stages|
    ensures Subsequence(StageTables(stages[..k]) + [Added(stages[k].link)], StageTables(stages))
    decreases |stages|
  {
    var n := |stages| - 1;
    if k < n {
      TablesBefore(stages[..n], k);
      assert stages[..n][..k] == stages[..k];
    }
  }

  lemma SetAsideIsTrue(repo: Repository, readContent: bool, db: Db, order: seq<Table>, row: Row, stages: seq<Stage>,
                       tables: seq<Table>, filters: seq<Expr>, f: Expr)
    requires InProduct(repo, readContent, db, order, row)
    requires Subsequence(StageTables(stages), order) && Over(filters, Concat(tables))
    requires Ready(repo, stages, filters) && Traced(stages, tables, filters)
    requires AllTrue(Chained(stages, Joins(stages)), Concat(order), row)
    requires f in Moved(stages) + Implied(stages)
    ensures True(f, Concat(order), row)
  {
    var k := SetAside(stages, f);
    var before := StageTables(stages[..k]);
    ChainedHasJoins(stages, |stages|, k);
    assert stages[..|stages|] == stages;
    TablesBefore(stages, k);
    assert StageTraced(stages[k], before, tables, filters) && StageReady(repo, stages[k], before, filters);
    if f in stages[k].moved {
      assert f in JoinsOf(stages[k], Concat(before));
    } else {
      DroppedIsTrue(repo, readContent, db, order, row, stages[k], before, tables, filters, f);
    }
  }

  // -------------------------------------------------------------------------
  // The queries
  // -------------------------------------------------------------------------

  lemma NodeJoinsAgree(repo: Repository, readContent: bool, db: Db, tables: seq<Table>, filters: seq<Expr>, p: Plan, row: Row)
    requires Wellformed(repo) && Plain(db, repo, readContent) && Distinct(Order(p)) && row in Product(db, Order(p))
    requires Over(filters, Concat(tables)) && Ready(repo, p.stages, filters) && Traced(p.stages, tables, filters)
    ensures JoinsAgree(p, Joins(p.stages), filters, Concat(Order(p)), row)
  {
    var schema := Concat(Order(p));
    if AllTrue(filters, schema, row) {
      ChainFollows(repo, readContent, db, Order(p), row, p.stages, tables, filters);
    }
    if AllTrue(Chained(p.stages, Joins(p.stages)), schema, row) {
      forall f | f in Moved(p.stages) + Implied(p.stages) ensures True(f, schema, row) {
        SetAsideIsTrue(repo, readContent, db, Order(p), row, p.stages, tables, filters, f);
      }
    }
  }

  // A squashed query returns, in the columns of the original join, exactly the rows of the cross
  // product of the plain tables on which all its filters are true.
  lemma SquashedQueryIsPlainQuery(repo: Repository, readContent: bool, db: Db, tables: seq<Table>, filters: seq<Expr>)
    requires Wellformed(repo) && Plain(db, repo, readContent)
    requires Distinct(tables) && Over(filters, Concat(tables)) && Squash(tables, filters, false).Success?
    requires var p := Squash(tables, filters, false).value.plan; Covers(p, tables) && Ready(repo, p.stages, filters)
    ensures var sq := Squash(tables, filters, false).value;
            var order := Order(sq.plan);
            Execute(sq, db, Gens(repo, readContent, sq.plan.stages))
            == ArrangeAll(Concat(tables), Concat(order), Keep(filters, Concat(order), Product(db, order)))
  {
    var p := Squash(tables, filters, false).value.plan;
    SquashTraces(tables, filters, false);
    DistinctSuffix(JoinTables(p.unsquashable), StageTables(p.stages));
    ChainIsExact(repo, readContent, db, p.stages, tables, filters);
    forall row | row in Product(db, Order(p)) ensures JoinsAgree(p, Joins(p.stages), filters, Concat(Order(p)), row) {
      NodeJoinsAgree(repo, readContent, db, tables, filters, p, row);
    }
    SquashPreservesMeaning(tables, filters, false, db, Gens(repo, readContent, p.stages), Joins(p.stages));
  }
}
