// commit_trees chained to commits over main trees only, for queries that equate the hashes of the trees.

module MainTrees {
  import opened Objects
  import opened Expressions
  import opened SquashJoins
  import opened FilterConservation
  import opened Relations
  import opened Layout
  import SquashMeaning
  import opened PlanTrace
  import opened Tables
  import opened JoinFacts
  import opened ProductRows
  import opened ChainStages
  import opened ChainEvents
  import opened StageExactness
  import opened ChainRuns
  import opened NarrowPlans
  import opened SquashedQueries
  import opened ChainIterators
  import CommitTrees
  import CommitWalk
  import TreePaths

  // -------------------------------------------------------------------------
  // The plain table
  // -------------------------------------------------------------------------

  function CommitTreeRow(repo: Repository, c: Hash, t: Hash): Row {
    [Text(repo.id), Digest(c), Digest(t)]
  }

  function TreeRowsIn(repo: Repository, c: Hash, items: seq<CommitTrees.Item>): seq<Row> {
    if items == [] then []
    else
      (match items[0] case Emit(t) => [CommitTreeRow(repo, c, t)] case Fail => []) + TreeRowsIn(repo, c, items[1..])
  }

  // The trees of a commit as the plain table walks them; none if its own tree is not stored.
  ghost function Walked(repo: Repository, rank: Hash -> nat, root: Hash): seq<CommitTrees.Item>
    requires CommitTrees.Acyclic(repo, rank)
  {
    if !CommitTrees.IsTree(repo, root) then []
    else [CommitTrees.Emit(root)] + CommitTrees.Below(repo, rank, true, {}, CommitTrees.Entries(repo, root))
  }

  ghost function CommitTreeRowsOf(repo: Repository, rank: Hash -> nat, cs: seq<Hash>): seq<Row>
    requires CommitTrees.Acyclic(repo, rank) && AllCommits(repo, cs)
  {
    if cs == [] then []
    else
      assert cs[0] in cs;
      TreeRowsIn(repo, cs[0], Walked(repo, rank, TreeOf(repo, cs[0]))) + CommitTreeRowsOf(repo, rank, cs[1..])
  }

  ghost function CommitTreeRows(repo: Repository, rank: Hash -> nat): seq<Row>
    requires CommitTrees.Acyclic(repo, rank)
  {
    CommitTreeRowsOf(repo, rank, CommitList(repo))
  }

  // The one row chained to a commit, if its tree is stored.
  function MainTreeRows(repo: Repository, c: Hash): seq<Row> {
    if IsCommit(repo, c) && CommitTrees.IsTree(repo, TreeOf(repo, c)) then [CommitTreeRow(repo, c, TreeOf(repo, c))] else []
  }

  // -------------------------------------------------------------------------
  // The tree of a commit is listed once
  // -------------------------------------------------------------------------

  lemma {:induction false} TreeRowsHave(repo: Repository, c: Hash, items: seq<CommitTrees.Item>)
    ensures forall row :: row in TreeRowsIn(repo, c, items) <==>
              exists t :: CommitTrees.Emit(t) in items && row == CommitTreeRow(repo, c, t)
  {
    if items != [] {
      TreeRowsHave(repo, c, items[1..]);
      assert items == [items[0]] + items[1..];
    }
  }

  // A directory is below the tree that lists it.
  lemma {:induction false} BelowIsLower(repo: Repository, rank: Hash -> nat, entries: seq<TreeEntry>, t: Hash)
    requires CommitTrees.Acyclic(repo, rank) && CommitTrees.Emit(t) in CommitTrees.Below(repo, rank, true, {}, entries)
    ensures rank(t) < CommitTrees.Height(repo, rank, entries)
    decreases CommitTrees.Height(repo, rank, entries), |entries|
  {
    var e := entries[0];
    CommitTrees.RestIsNoHigher(repo, rank, entries);
    if CommitTrees.Emit(t) in CommitTrees.Below(repo, rank, true, {}, entries[1..]) {
      BelowIsLower(repo, rank, entries[1..], t);
    } else {
      assert e in entries;
      CommitTrees.ChildIsLower(repo, rank, entries);
      if t != e.hash {
        BelowIsLower(repo, rank, CommitTrees.Entries(repo, e.hash), t);
      }
    }
  }

  lemma RootIsNotBelow(repo: Repository, rank: Hash -> nat, root: Hash)
    requires CommitTrees.Acyclic(repo, rank) && CommitTrees.IsTree(repo, root)
    ensures CommitTrees.Emit(root) !in CommitTrees.Below(repo, rank, true, {}, CommitTrees.Entries(repo, root))
  {
    var entries := CommitTrees.Entries(repo, root);
    CommitTrees.HeightIsLeast(repo, rank, entries, rank(root));
    if CommitTrees.Emit(root) in CommitTrees.Below(repo, rank, true, {}, entries) {
      BelowIsLower(repo, rank, entries, root);
    }
  }

  lemma WhereOwnTree(repo: Repository, rank: Hash -> nat, c: Hash)
    requires CommitTrees.Acyclic(repo, rank) && IsCommit(repo, c)
    ensures Where(TreeRowsIn(repo, c, Walked(repo, rank, TreeOf(repo, c))), 2, Digest(TreeOf(repo, c))) == MainTreeRows(repo, c)
  {
    var root := TreeOf(repo, c);
    if CommitTrees.IsTree(repo, root) {
      var below := CommitTrees.Below(repo, rank, true, {}, CommitTrees.Entries(repo, root));
      var rest := TreeRowsIn(repo, c, below);
      RootIsNotBelow(repo, rank, root);
      TreeRowsHave(repo, c, below);
      WhereNone(rest, 2, Digest(root));
      assert ([CommitTrees.Emit(root)] + below)[1..] == below;
      WhereFirst(CommitTreeRow(repo, c, root), rest, 2, Digest(root));
    }
  }

  lemma {:induction false} WhereTreesOfCommit(repo: Repository, c: Hash, items: seq<CommitTrees.Item>, h: Hash)
    ensures Where(TreeRowsIn(repo, c, items), 1, Digest(h)) == if c == h then TreeRowsIn(repo, c, items) else []
  {
    TreeRowsHave(repo, c, items);
    if c == h {
      WhereAll(TreeRowsIn(repo, c, items), 1, Digest(h));
    } else {
      WhereNone(TreeRowsIn(repo, c, items), 1, Digest(h));
    }
  }

  // Joined by hash, a commit listed once meets the rows of its own trees.
  lemma {:induction false} CommitMeetsItsTrees(repo: Repository, rank: Hash -> nat, cs: seq<Hash>, h: Hash)
    requires CommitTrees.Acyclic(repo, rank) && AllCommits(repo, cs) && IsCommit(repo, h) && multiset(cs)[h] <= 1
    ensures Where(CommitTreeRowsOf(repo, rank, cs), 1, Digest(h))
            == if h in cs then TreeRowsIn(repo, h, Walked(repo, rank, TreeOf(repo, h))) else []
  {
    if cs != [] {
      var c := cs[0];
      assert cs == [c] + cs[1..];
      assert c in cs;
      var own := TreeRowsIn(repo, c, Walked(repo, rank, TreeOf(repo, c)));
      WhereAppend(own, CommitTreeRowsOf(repo, rank, cs[1..]), 1, Digest(h));
      WhereTreesOfCommit(repo, c, Walked(repo, rank, TreeOf(repo, c)), h);
      if c == h {
        assert h !in multiset(cs[1..]);
      }
      CommitMeetsItsTrees(repo, rank, cs[1..], h);
      assert own + [] == own;
    }
  }

  // Joined by both hashes, a commit meets the row of its own tree and no other.
  lemma CommitMeetsItsMainTree(repo: Repository, rank: Hash -> nat, h: Hash)
    requires CommitTrees.Acyclic(repo, rank) && Wellformed(repo) && Unambiguous(repo) && CommitWalk.Crawled(repo, h)
    ensures IsCommit(repo, h)
    ensures Where(Where(CommitTreeRows(repo, rank), 1, Digest(h)), 2, Digest(TreeOf(repo, h))) == MainTreeRows(repo, h)
  {
    CommitListCounts(repo, h);
    assert h in multiset(CommitList(repo));
    ListedAtMostOnce(repo, h);
    CommitMeetsItsTrees(repo, rank, CommitList(repo), h);
    WhereOwnTree(repo, rank, h);
  }

  // -------------------------------------------------------------------------
  // The join on the hash of the tree alone
  // -------------------------------------------------------------------------

  // A directory path leads from the tree of a commit to t.
  ghost predicate LeadsTo(repo: Repository, c: Hash, t: Hash) {
    IsCommit(repo, c) && exists path :: TreePaths.Leads(repo, {}, TreeOf(repo, c), path, t)
  }

  lemma NothingLeads(repo: Repository, root: Hash, path: seq<nat>, t: Hash)
    requires TreePaths.Leads(repo, {}, root, path, t)
    ensures CommitTrees.IsTree(repo, root)
  {}

  lemma CountedIff(items: seq<CommitTrees.Item>, t: Hash, paths: set<seq<nat>>)
    requires multiset(items)[CommitTrees.Emit(t)] == |paths|
    ensures CommitTrees.Emit(t) in items <==> exists path :: path in paths
  {
    assert CommitTrees.Emit(t) in items <==> CommitTrees.Emit(t) in multiset(items);
    if |paths| > 0 {
      var path :| path in paths;
    }
  }

  lemma WalkedPerPath(repo: Repository, rank: Hash -> nat, c: Hash, t: Hash)
    requires CommitTrees.Acyclic(repo, rank) && IsCommit(repo, c)
    ensures CommitTrees.Emit(t) in Walked(repo, rank, TreeOf(repo, c)) <==> LeadsTo(repo, c, t)
  {
    var root := TreeOf(repo, c);
    if CommitTrees.IsTree(repo, root) {
      var paths := TreePaths.TreesComePerPath(repo, rank, true, {}, root, t);
      CommitTrees.TreesAreUnfolded(repo, rank, true, root);
      CountedIff(Walked(repo, rank, root), t, paths);
    } else if path :| TreePaths.Leads(repo, {}, root, path, t) {
      NothingLeads(repo, root, path, t);
    }
  }

  lemma {:induction false} CommitTreeRowsHave(repo: Repository, rank: Hash -> nat, cs: seq<Hash>)
    requires CommitTrees.Acyclic(repo, rank) && AllCommits(repo, cs)
    ensures forall row :: row in CommitTreeRowsOf(repo, rank, cs) <==>
              exists c :: c in cs && row in TreeRowsIn(repo, c, Walked(repo, rank, TreeOf(repo, c)))
  {
    if cs != [] {
      assert cs == [cs[0]] + cs[1..];
      assert cs[0] in cs;
      CommitTreeRowsHave(repo, rank, cs[1..]);
    }
  }

  // Where one value goes with another, asking for both is asking for the one.
  lemma {:induction false} WhereImplied(rows: seq<Row>, i: nat, v: Value, j: nat, u: Value)
    requires forall row :: row in rows && j < |row| && row[j] == u ==> i < |row| && row[i] == v
    ensures Where(rows, j, u) == Where(Where(rows, i, v), j, u)
  {
    if rows != [] {
      var row, rest := rows[0], Where(rows[1..], i, v);
      assert row in rows;
      WhereImplied(rows[1..], i, v, j, u);
      if i < |row| && row[i] == v {
        WhereOfFirst(row, rest, j, u);
      } else {
        assert Where(rows, i, v) == [] + rest == rest;
        assert Where(rows, j, u) == [] + Where(rows[1..], j, u);
      }
    }
  }

  lemma WhereOfFirst(row: Row, rest: seq<Row>, j: nat, u: Value)
    ensures Where([row] + rest, j, u) == (if j < |row| && row[j] == u then [row] else []) + Where(rest, j, u)
  {
    assert ([row] + rest)[1..] == rest;
  }

  // Asked for the hash of the tree alone, the node has the one row of the commit, and the join has a row
  // for each way in which a commit of the table leads to that tree. They agree exactly if no other commit
  // leads to it.
  lemma TreeJoinIsExactIff(repo: Repository, rank: Hash -> nat, h: Hash)
    requires CommitTrees.Acyclic(repo, rank) && Wellformed(repo) && Unambiguous(repo) && CommitWalk.Crawled(repo, h)
    ensures IsCommit(repo, h)
    ensures Where(CommitTreeRows(repo, rank), 2, Digest(TreeOf(repo, h))) == MainTreeRows(repo, h)
            <==> forall c :: c in CommitList(repo) && LeadsTo(repo, c, TreeOf(repo, h)) ==> c == h
  {
    CommitMeetsItsMainTree(repo, rank, h);
    var root := TreeOf(repo, h);
    if forall c :: c in CommitList(repo) && LeadsTo(repo, c, root) ==> c == h {
      OnlyOneLeads(repo, rank, h, root);
    }
    if Where(CommitTreeRows(repo, rank), 2, Digest(root)) == MainTreeRows(repo, h) {
      forall c | c in CommitList(repo) && LeadsTo(repo, c, root) ensures c == h {
        RowOfLeading(repo, rank, c, root);
      }
    }
  }

  lemma OnlyOneLeads(repo: Repository, rank: Hash -> nat, h: Hash, root: Hash)
    requires CommitTrees.Acyclic(repo, rank) && forall c :: c in CommitList(repo) && LeadsTo(repo, c, root) ==> c == h
    ensures var rows := CommitTreeRows(repo, rank);
            Where(rows, 2, Digest(root)) == Where(Where(rows, 1, Digest(h)), 2, Digest(root))
  {
    var rows := CommitTreeRows(repo, rank);
    forall row | row in rows && 2 < |row| && row[2] == Digest(root) ensures 1 < |row| && row[1] == Digest(h) {
      var c := LeadsByRow(repo, rank, row, root);
    }
    WhereImplied(rows, 1, Digest(h), 2, Digest(root));
  }

  lemma LeadsByRow(repo: Repository, rank: Hash -> nat, row: Row, root: Hash) returns (c: Hash)
    requires CommitTrees.Acyclic(repo, rank) && row in CommitTreeRows(repo, rank) && |row| > 2 && row[2] == Digest(root)
    ensures c in CommitList(repo) && LeadsTo(repo, c, root) && row[1] == Digest(c)
  {
    var cs := CommitList(repo);
    CommitTreeRowsHave(repo, rank, cs);
    c :| c in cs && row in TreeRowsIn(repo, c, Walked(repo, rank, TreeOf(repo, c)));
    TreeRowsHave(repo, c, Walked(repo, rank, TreeOf(repo, c)));
    WalkedPerPath(repo, rank, c, root);
  }

  lemma RowOfLeading(repo: Repository, rank: Hash -> nat, c: Hash, root: Hash)
    requires CommitTrees.Acyclic(repo, rank) && c in CommitList(repo) && LeadsTo(repo, c, root)
    ensures CommitTreeRow(repo, c, root) in Where(CommitTreeRows(repo, rank), 2, Digest(root))
  {
    var items := Walked(repo, rank, TreeOf(repo, c));
    WalkedPerPath(repo, rank, c, root);
    TreeRowsHave(repo, c, items);
    assert CommitTreeRow(repo, c, root) in TreeRowsIn(repo, c, items);
    CommitTreeRowsHave(repo, rank, CommitList(repo));
    WhereHas(CommitTreeRows(repo, rank), 2, Digest(root));
  }

  // -------------------------------------------------------------------------
  // The stage
  // -------------------------------------------------------------------------

  function MainTreesOf(repo: Repository, schema: Schema): Generator {
    (row: Row) => MainTreeRows(repo, HashOf(ValueOf(schema, row, Col(Commits, CommitHash))))
  }

  lemma TreePositions()
    ensures Find(SchemaOf(CommitTrees), Col(CommitTrees, CommitHash)) == Some(1)
    ensures Find(SchemaOf(CommitTrees), Col(CommitTrees, TreeHash)) == Some(2)
  {
    ColumnAt(CommitTrees, 1);
    ColumnAt(CommitTrees, 2);
  }

  // The columns of commits tell which commit the row is of, and its tree.
  lemma CurrentCommitTree(repo: Repository, readContent: bool, db: Db, before: seq<Table>, row: Row) returns (h: Hash)
    requires Wellformed(repo)
    requires Plain(db, repo, readContent) && Distinct(before) && row in Product(db, before) && Commits in before
    ensures CommitWalk.Crawled(repo, h) && IsCommit(repo, h)
    ensures ValueOf(Concat(before), row, Col(Commits, CommitHash)) == Digest(h)
    ensures ValueOf(Concat(before), row, Col(Commits, TreeHash)) == Digest(repo.objects[h].tree)
  {
    var r := ProductRow(db, before, row, Commits);
    h := ReadCommitTree(repo, Concat(before), row, r);
  }

  lemma CommitRowCells(repo: Repository, h: Hash)
    requires IsCommit(repo, h)
    ensures |CommitRow(repo, h)| == |SchemaOf(Commits)|
    ensures CommitRow(repo, h)[1] == Digest(h) && CommitRow(repo, h)[9] == Digest(TreeOf(repo, h))
    ensures Columns(Commits)[1] == CommitHash && Columns(Commits)[9] == TreeHash
  {}

  lemma ReadCommitTree(repo: Repository, schema: Schema, row: Row, r: Row) returns (h: Hash)
    requires Wellformed(repo) && r in CommitRows(repo) && Holds(schema, row, Commits, r)
    ensures CommitWalk.Crawled(repo, h) && IsCommit(repo, h)
    ensures ValueOf(schema, row, Col(Commits, CommitHash)) == Digest(h)
    ensures ValueOf(schema, row, Col(Commits, TreeHash)) == Digest(repo.objects[h].tree)
  {
    h := CommitRowsHave(repo, CommitList(repo), r);
    assert h in multiset(CommitList(repo));
    CommitListCounts(repo, h);
    CommitRowCells(repo, h);
    HeldAt(schema, row, Commits, r, 1);
    HeldAt(schema, row, Commits, r, 9);
  }

  // Joined by both hashes, the stage over main trees appends exactly the rows of the plain table.
  lemma MainTreeStageIsExact(repo: Repository, readContent: bool, rank: Hash -> nat, db: Db, before: seq<Table>, row: Row)
    requires CommitTrees.Acyclic(repo, rank) && Wellformed(repo) && Unambiguous(repo)
    requires Arrives(repo, readContent, db, before, CommitTrees, row) && Commits in before
    requires db(CommitTrees) == CommitTreeRows(repo, rank)
    ensures ExactOn(MainTreesOf(repo, Concat(before)),
                    [Same(Col(Commits, CommitHash), Col(CommitTrees, CommitHash)),
                     Same(Col(Commits, TreeHash), Col(CommitTrees, TreeHash))],
                    Concat(before), row, SchemaOf(CommitTrees), db(CommitTrees))
  {
    var h := CurrentCommitTree(repo, readContent, db, before, row);
    CommitMeetsItsMainTree(repo, rank, h);
    TreePositions();
    ConcatHas(before, Col(Commits, CommitHash));
    ConcatHas(before, Col(Commits, TreeHash));
    TwoEqualities(repo, readContent, db, before, CommitTrees, row, Col(Commits, CommitHash), Col(CommitTrees, CommitHash), 1,
                  Col(Commits, TreeHash), Col(CommitTrees, TreeHash), 2);
  }

  // The rows a stage of the plan appends to a row of commit h: its main tree, or any of its trees.
  ghost predicate IsTreeRow(repo: Repository, narrow: bool, h: Hash, tail: Row) {
    IsCommit(repo, h) && exists t :: tail == CommitTreeRow(repo, h, t) && (narrow ==> t == TreeOf(repo, h))
  }

  lemma TailColumns(schema: Schema, row: Row, tail: Row, i: nat)
    requires |row| == |schema| && |tail| == 3 && i < 3 && forall c :: c in schema ==> c.table != CommitTrees
    ensures ValueOf(schema + SchemaOf(CommitTrees), row + tail, Col(CommitTrees, Columns(CommitTrees)[i])) == tail[i]
  {
    HoldsTail(schema, row, CommitTrees, tail);
    assert SchemaOf(CommitTrees)[i] == Col(CommitTrees, Columns(CommitTrees)[i]);
  }

  lemma HeadColumn(before: seq<Table>, row: Row, tail: Row, name: Column)
    requires |row| == |Concat(before)| && Commits in before && name in Columns(Commits)
    ensures ValueOf(Concat(before) + SchemaOf(CommitTrees), row + tail, Col(Commits, name))
            == ValueOf(Concat(before), row, Col(Commits, name))
  {
    ConcatHas(before, Col(Commits, name));
    FindInPrefix(Concat(before), SchemaOf(CommitTrees), Col(Commits, name));
  }

  lemma TreeColumnsAgree(repo: Repository, readContent: bool, db: Db, before: seq<Table>, row: Row, narrow: bool, h: Hash,
                         tail: Row)
    requires Wellformed(repo) && Arrives(repo, readContent, db, before, CommitTrees, row) && Commits in before
    requires ValueOf(Concat(before), row, Col(Commits, CommitHash)) == Digest(h) && IsTreeRow(repo, narrow, h, tail)
    ensures var schema, wider := Concat(before) + SchemaOf(CommitTrees), row + tail;
            && ValueOf(schema, wider, Col(Commits, CommitHash)) == ValueOf(schema, wider, Col(CommitTrees, CommitHash))
            && (narrow ==>
                  ValueOf(schema, wider, Col(Commits, TreeHash)) == ValueOf(schema, wider, Col(CommitTrees, TreeHash)))
  {
    var c := CurrentCommitTree(repo, readContent, db, before, row);
    ArrivingRow(repo, readContent, db, before, CommitTrees, row);
    var t :| tail == CommitTreeRow(repo, h, t) && (narrow ==> t == TreeOf(repo, h));
    WiderTreeColumns(repo, before, row, h, t);
  }

  lemma WiderTreeColumns(repo: Repository, before: seq<Table>, row: Row, h: Hash, t: Hash)
    requires |row| == |Concat(before)| && Commits in before && CommitTrees !in before
    ensures var schema, wider := Concat(before) + SchemaOf(CommitTrees), row + CommitTreeRow(repo, h, t);
            && ValueOf(schema, wider, Col(Commits, CommitHash)) == ValueOf(Concat(before), row, Col(Commits, CommitHash))
            && ValueOf(schema, wider, Col(Commits, TreeHash)) == ValueOf(Concat(before), row, Col(Commits, TreeHash))
            && ValueOf(schema, wider, Col(CommitTrees, CommitHash)) == Digest(h)
            && ValueOf(schema, wider, Col(CommitTrees, TreeHash)) == Digest(t)
  {
    var tail := CommitTreeRow(repo, h, t);
    TreeTail(before, row, tail);
    CommitColumns();
    HeadColumn(before, row, tail, CommitHash);
    HeadColumn(before, row, tail, TreeHash);
  }

  lemma CommitColumns()
    ensures CommitHash in Columns(Commits) && TreeHash in Columns(Commits)
  {
    assert Columns(Commits)[1] == CommitHash && Columns(Commits)[9] == TreeHash;
  }

  lemma TreeTail(before: seq<Table>, row: Row, tail: Row)
    requires |row| == |Concat(before)| && |tail| == 3 && CommitTrees !in before
    ensures var schema, wider := Concat(before) + SchemaOf(CommitTrees), row + tail;
            && ValueOf(schema, wider, Col(CommitTrees, CommitHash)) == tail[1]
            && ValueOf(schema, wider, Col(CommitTrees, TreeHash)) == tail[2]
  {
    forall c | c in Concat(before) ensures c.table != CommitTrees {
      ConcatHas(before, c);
    }
    TailColumns(Concat(before), row, tail, 1);
    TailColumns(Concat(before), row, tail, 2);
  }

  // Whatever the query: each equality the rule drops between commits and commit_trees is true of the rows
  // that the iterator it picks appends.
  lemma DroppedTreeFilterIsTrue(repo: Repository, readContent: bool, db: Db, before: seq<Table>, row: Row, h: Hash, tail: Row,
                                tables: seq<Table>, filters: seq<Expr>, indexed: bool, stage: Stage, f: Expr)
    requires Squash(tables, filters, indexed).Success?
    requires stage in Squash(tables, filters, indexed).value.plan.stages && stage.link == Joined(Commits, CommitTrees)
    requires Wellformed(repo) && Arrives(repo, readContent, db, before, CommitTrees, row) && Commits in before
    requires ValueOf(Concat(before), row, Col(Commits, CommitHash)) == Digest(h)
    requires IsTreeRow(repo, stage.narrow, h, tail) && f in Dropped(stage.link, stage.dealt)
    ensures True(f, Concat(before) + SchemaOf(CommitTrees), row + tail)
  {
    var name := DroppedTreeName(tables, filters, indexed, stage, f);
    TreeColumnsAgree(repo, readContent, db, before, row, stage.narrow, h, tail);
    SameGives(f, Col(Commits, name), Col(CommitTrees, name), Concat(before) + SchemaOf(CommitTrees), row + tail);
  }

  // The equality of the trees is dropped by a stage over main trees only.
  lemma DroppedTreeName(tables: seq<Table>, filters: seq<Expr>, indexed: bool, stage: Stage, f: Expr) returns (name: Column)
    requires Squash(tables, filters, indexed).Success?
    requires stage in Squash(tables, filters, indexed).value.plan.stages && stage.link == Joined(Commits, CommitTrees)
    requires f in Dropped(stage.link, stage.dealt)
    ensures name == CommitHash || (name == TreeHash && stage.narrow)
    ensures IsEq(f, Col(Commits, name), Col(CommitTrees, name))
  {
    name := DroppedIs(stage, f);
    TreeJoinColumns();
    if name == TreeHash {
      DealtIsAsked(tables, filters, indexed, stage);
      EquatesMentions(f, Col(Commits, TreeHash), Col(CommitTrees, TreeHash));
      StagesAreNarrowAsAsked(tables, filters, indexed, stage);
    }
  }

  lemma TreeJoinColumns()
    ensures forall name :: name in JoinColumns(Commits, CommitTrees) ==> name == CommitHash || name == TreeHash
  {}

  lemma DealtIsAsked(tables: seq<Table>, filters: seq<Expr>, indexed: bool, stage: Stage)
    requires Squash(tables, filters, indexed).Success? && stage in Squash(tables, filters, indexed).value.plan.stages
    ensures forall f :: f in stage.dealt ==> f in filters
  {
    var stages := Squash(tables, filters, indexed).value.plan.stages;
    SquashTraces(tables, filters, indexed);
    var k :| 0 <= k < |stages| && stages[k] == stage;
    assert StageTraced(stages[k], SquashMeaning.StageTables(stages[..k]), tables, filters);
  }

  // -------------------------------------------------------------------------
  // The iterator
  // -------------------------------------------------------------------------

  // A tree with its row, or a git error.
  datatype TreeEvent = AtTree(row: Row, tree: Hash) | TreeError

  // A virtual iterator adds no columns.
  function MainTreeOf(repo: Repository, skip: bool, filter: Option<Expr>, virtual: bool, e: CommitEvent): seq<TreeEvent> {
    match e
    case CommitError => [TreeError]
    case AtCommit(prefix, c) =>
      if !IsCommit(repo, c) then []
      else if !CommitTrees.IsTree(repo, TreeOf(repo, c)) then if skip then [] else [TreeError]
      else
        var row := if virtual then prefix else prefix + CommitTreeRow(repo, c, TreeOf(repo, c));
        if Passes(filter, row) then [AtTree(row, TreeOf(repo, c))] else []
  }

  function MainTreeEvents(repo: Repository, skip: bool, filter: Option<Expr>, virtual: bool, es: seq<CommitEvent>)
    : seq<TreeEvent>
  {
    if es == [] then []
    else MainTreeOf(repo, skip, filter, virtual, es[0]) + MainTreeEvents(repo, skip, filter, virtual, es[1..])
  }

  // One call moved past the first event.
  ghost predicate TakesTree(before: seq<TreeEvent>, s: Status, row: Row, tree: Hash, after: seq<TreeEvent>) {
    match s
    case Finished => before == [] && after == []
    case Errored => before == [TreeError] + after
    case Advanced => before == [AtTree(row, tree)] + after
  }

  lemma FirstTree(repo: Repository, skip: bool, filter: Option<Expr>, virtual: bool, e: CommitEvent, before: seq<CommitEvent>,
                  after: seq<CommitEvent>)
    requires before == [e] + after
    ensures MainTreeEvents(repo, skip, filter, virtual, before)
            == MainTreeOf(repo, skip, filter, virtual, e) + MainTreeEvents(repo, skip, filter, virtual, after)
  {
    assert before[1..] == after;
  }

  lemma TakenInFront(own: seq<TreeEvent>, s: Status, row: Row, tree: Hash, more: seq<TreeEvent>)
    requires TakesTree(own, s, row, tree, []) && s != Finished
    ensures TakesTree(own + more, s, row, tree, more)
  {}

  // The tree of each commit.
  class CommitMainTreeIter {
    const commits: CommitsIter
    const skipGitErrors: bool
    const virtual: bool
    const filters: Option<Expr>
    var tree: Hash
    var row: Row

    ghost function Repr(): set<object>
      reads this, commits
    {
      {this} + commits.Repr
    }

    ghost predicate Valid()
      reads this, commits, Repr()
    {
      this !in commits.Repr && commits.Valid()
    }

    ghost function Pending(): seq<TreeEvent>
      requires Valid()
      reads this, commits, Repr()
    {
      MainTreeEvents(commits.repo, skipGitErrors, filters, virtual, commits.Pending)
    }

    constructor (commits: CommitsIter, skipGitErrors: bool, filters: Option<Expr>, virtual: bool)
      requires commits.Valid()
      ensures this.commits == commits && Valid() && fresh(Repr() - commits.Repr)
      ensures Pending() == MainTreeEvents(commits.repo, skipGitErrors, filters, virtual, commits.Pending)
    {
      this.commits, this.skipGitErrors, this.filters, this.virtual := commits, skipGitErrors, filters, virtual;
      tree, row := Hash(0), [];
    }

    method Advance() returns (s: Status)
      requires Valid()
      modifies Repr()
      ensures Valid() && fresh(Repr() - old(Repr()))
      ensures TakesTree(old(Pending()), s, row, tree, Pending())
    {
      while true
        invariant Valid() && fresh(Repr() - old(Repr())) && Pending() == old(Pending())
        decreases |commits.Pending|
      {
        var done := NextCommit();
        if done.Some? {
          return done.value;
        }
      }
    }

    // One pass through the loop; None says that it goes round again.
    method NextCommit() returns (done: Option<Status>)
      requires Valid()
      modifies Repr()
      ensures Valid() && fresh(Repr() - old(Repr()))
      ensures done.Some? ==> TakesTree(old(Pending()), done.value, row, tree, Pending())
      ensures done.None? ==> Pending() == old(Pending()) && |commits.Pending| < |old(commits.Pending)|
    {
      ghost var before := commits.Pending;
      var s := commits.Advance();
      if s == Finished {
        return Some(s);
      }
      if s == Errored {
        FirstTree(commits.repo, skipGitErrors, filters, virtual, CommitError, before, commits.Pending);
        return Some(s);
      }
      var c := commits.commit;
      ghost var more := MainTreeEvents(commits.repo, skipGitErrors, filters, virtual, commits.Pending);
      ghost var own := MainTreeOf(commits.repo, skipGitErrors, filters, virtual, AtCommit(commits.row, c));
      FirstTree(commits.repo, skipGitErrors, filters, virtual, AtCommit(commits.row, c), before, commits.Pending);
      done := Serve(c);
      if done.Some? {
        TakenInFront(own, done.value, row, tree, more);
      } else {
        assert own + more == more;
      }
    }

    method Serve(c: Hash) returns (done: Option<Status>)
      requires Valid() && IsCommit(commits.repo, c)
      modifies this
      ensures Valid() && commits.Pending == old(commits.Pending) && commits.Repr == old(commits.Repr)
      ensures var events := MainTreeOf(commits.repo, skipGitErrors, filters, virtual, AtCommit(commits.row, c));
              if done.None? then events == [] else TakesTree(events, done.value, row, tree, []) && done.value != Finished
    {
      var repo := commits.repo;
      tree := repo.objects[c].tree;
      if !CommitTrees.IsTree(repo, tree) {
        return if skipGitErrors then None else Some(Errored);
      }
      row := if virtual then commits.row else commits.row + [Text(repo.id), Digest(c), Digest(tree)];
      done := if filters.None? || EvalAt(filters.value, row) == Truth(true) then Some(Advanced) else None;
    }
  }

  // -------------------------------------------------------------------------
  // A whole run is the stage
  // -------------------------------------------------------------------------

  function RowsOfTrees(es: seq<TreeEvent>): seq<Row> {
    if es == [] then []
    else (match es[0] case AtTree(row, _) => [row] case TreeError => []) + RowsOfTrees(es[1..])
  }

  lemma MainTreeIsGenerated(repo: Repository, filter: Option<Expr>, schema: Schema, e: CommitEvent, rest: seq<TreeEvent>)
    requires e.AtCommit? && KnowsCommit(repo, schema, Col(Commits, CommitHash), e)
    ensures RowsOfTrees(MainTreeOf(repo, true, filter, false, e) + rest)
            == Filtered(filter, Pairs(e.row, MainTreesOf(repo, schema)(e.row))) + RowsOfTrees(rest)
  {
    assert [] + rest == rest;
    if CommitTrees.IsTree(repo, TreeOf(repo, e.commit)) {
      var tail := CommitTreeRow(repo, e.commit, TreeOf(repo, e.commit));
      FilteredOne(filter, e.row, tail);
      assert [tail][1..] == [];
      assert Pairs(e.row, [tail]) == [e.row + tail] + Pairs(e.row, []);
      assert ([AtTree(e.row + tail, TreeOf(repo, e.commit))] + rest)[1..] == rest;
    }
  }

  lemma {:induction false} MainTreesRun(repo: Repository, filter: Option<Expr>, schema: Schema, es: seq<CommitEvent>)
    requires AllKnowCommit(repo, schema, Col(Commits, CommitHash), es) && NoErrors(es)
    ensures RowsOfTrees(MainTreeEvents(repo, true, filter, false, es))
            == RunStage(RowsOfCommits(es), MainTreesOf(repo, schema), filter)
  {
    if es != [] {
      assert es[0] in es;
      MainTreesRun(repo, filter, schema, es[1..]);
      RowsOfFirst(es[0], RowsOfCommits(es[1..]), es);
      MainTreeIsGenerated(repo, filter, schema, es[0], MainTreeEvents(repo, true, filter, false, es[1..]));
    }
  }
}
