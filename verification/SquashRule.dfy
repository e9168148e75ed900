// The rule as it runs: loops over filters, columns and tables that build the node step by step.

module SquashRule {
  import opened Objects
  import opened Expressions
  import opened SquashJoins
  import opened Relations
  import opened Layout
  import opened SquashMeaning
  import opened ProductRows

  // -------------------------------------------------------------------------
  // A condition is the conjunction of its filters
  // -------------------------------------------------------------------------

  function ExprToFilters(e: Expr): seq<Expr> {
    if e.Node? && e.op.AndOp? && |e.children| == 2 then ExprToFilters(e.children[0]) + ExprToFilters(e.children[1])
    else [e]
  }

  lemma {:induction false} FiltersMeanCondition(e: Expr, schema: Schema, row: Row)
    ensures AllTrue(ExprToFilters(e), schema, row) <==> True(e, schema, row)
  {
    if e.Node? && e.op.AndOp? && |e.children| == 2 {
      var l, r := e.children[0], e.children[1];
      assert e == And(l, r) by {
        assert e.children == [l, r];
      }
      FiltersMeanCondition(l, schema, row);
      FiltersMeanCondition(r, schema, row);
      AllTrueAppend(ExprToFilters(l), ExprToFilters(r), schema, row);
      AndMeans(l, r, schema, row);
    }
  }

  // -------------------------------------------------------------------------
  // Which joins are chained
  // -------------------------------------------------------------------------

  predicate IsFileFilter(f: Expr, name: Column) {
    IsEq(f, Col(CommitFiles, name), Col(Files, name))
  }

  // Whether the filters join commit_files with files on all three columns.
  method HasCompoundFilter(filters: seq<Expr>) returns (r: bool)
    ensures r <==> HasChainableCondition(filters, CommitFiles, Files)
  {
    var treeHash, filePath, blobHash := false, false, false;
    for i := 0 to |filters|
      invariant filePath <==> exists k :: 0 <= k < i && IsFileFilter(filters[k], FilePath)
      invariant blobHash <==> exists k :: 0 <= k < i && IsFileFilter(filters[k], BlobHash)
      invariant treeHash <==> exists k :: 0 <= k < i && IsFileFilter(filters[k], TreeHash)
    {
      if IsFileFilter(filters[i], FilePath) {
        filePath := true;
      } else if IsFileFilter(filters[i], BlobHash) {
        blobHash := true;
      } else if IsFileFilter(filters[i], TreeHash) {
        treeHash := true;
      }
    }
    CompoundMeans(filters);
    return filePath && treeHash && blobHash;
  }

  lemma CompoundMeans(filters: seq<Expr>)
    ensures HasChainableCondition(filters, CommitFiles, Files)
            <==> && (exists k :: 0 <= k < |filters| && IsFileFilter(filters[k], FilePath))
                 && (exists k :: 0 <= k < |filters| && IsFileFilter(filters[k], BlobHash))
                 && (exists k :: 0 <= k < |filters| && IsFileFilter(filters[k], TreeHash))
  {
    assert FilePath in JoinColumns(CommitFiles, Files) && BlobHash in JoinColumns(CommitFiles, Files);
    assert TreeHash in JoinColumns(CommitFiles, Files);
  }

  // Between other tables one equality is enough.
  method HasChainableJoinCondition(cond: Expr, t1: Table, t2: Table) returns (r: bool)
    ensures r <==> HasChainableCondition(ExprToFilters(cond), t1, t2)
  {
    var filters := ExprToFilters(cond);
    if (t1, t2) == (CommitFiles, Files) {
      r := HasCompoundFilter(filters);
      return;
    }
    for i := 0 to |filters|
      invariant forall k :: 0 <= k < i ==> !IsRedundant(filters[k], t1, t2)
    {
      if IsRedundant(filters[i], t1, t2) {
        return true;
      }
    }
    return false;
  }

  // So references are chained with ref_commits on the hash of the commit alone.
  lemma HashAloneIsChained(f: Expr)
    requires IsEq(f, Col(References, CommitHash), Col(RefCommits, CommitHash))
    ensures HasChainableCondition([f], References, RefCommits) && HasRefHeadFilter([f])
    ensures !HasEq([f], Col(References, RefName), Col(RefCommits, RefName))
  {
    var fs := [f];
    assert CommitHash in JoinColumns(References, RefCommits) && IsRedundant(fs[0], References, RefCommits);
    assert HasEq(fs, Col(References, CommitHash), Col(RefCommits, CommitHash)) by {
      assert IsEq(fs[0], Col(References, CommitHash), Col(RefCommits, CommitHash));
    }
  }

  // And commits with refs on the hash of the reference, which head commits are taken for.
  lemma RefHashIsChained(f: Expr)
    requires IsEq(f, Col(References, CommitHash), Col(Commits, CommitHash))
    ensures HasChainableCondition([f], References, Commits) && HasRefHeadFilter([f])
  {
    var fs := [f];
    assert CommitHash in JoinColumns(References, Commits) && IsRedundant(fs[0], References, Commits);
    assert HasEq(fs, Col(References, CommitHash), Col(Commits, CommitHash)) by {
      assert IsEq(fs[0], Col(References, CommitHash), Col(Commits, CommitHash));
    }
  }

  // -------------------------------------------------------------------------
  // Loops over filters
  // -------------------------------------------------------------------------

  lemma {:induction false} DealLast(fs: seq<Expr>, f: Expr, tables: set<Table>)
    ensures Matching(fs + [f], tables) == Matching(fs, tables) + if Only(f, tables) then [f] else []
    ensures Others(fs + [f], tables) == Others(fs, tables) + if Only(f, tables) then [] else [f]
  {
    var last, none: seq<Expr> := [f], [];
    if fs == [] {
      assert fs + last == last && last[1..] == none;
      assert Matching(last, tables) == (if Only(f, tables) then [f] else []) + Matching(none, tables);
      assert Others(last, tables) == (if Only(f, tables) then [] else [f]) + Others(none, tables);
    } else {
      DealLast(fs[1..], f, tables);
      assert (fs + last)[1..] == fs[1..] + last;
      Associative(if Only(fs[0], tables) then [fs[0]] else [], Matching(fs[1..], tables), if Only(f, tables) then [f] else []);
      Associative(if Only(fs[0], tables) then [] else [fs[0]], Others(fs[1..], tables), if Only(f, tables) then [] else [f]);
    }
  }

  method FiltersForTables(filters: seq<Expr>, tables: set<Table>) returns (tableFilters: seq<Expr>, remaining: seq<Expr>)
    ensures tableFilters == Matching(filters, tables) && remaining == Others(filters, tables)
  {
    tableFilters, remaining := [], [];
    for i := 0 to |filters|
      invariant tableFilters == Matching(filters[..i], tables) && remaining == Others(filters[..i], tables)
    {
      var f := filters[i];
      assert filters[..i + 1] == filters[..i] + [f];
      DealLast(filters[..i], f, tables);
      if Only(f, tables) {
        tableFilters := tableFilters + [f];
      } else {
        remaining := remaining + [f];
      }
    }
    assert filters[..|filters|] == filters;
  }

  lemma {:induction false} ColumnsLast(fs: seq<Expr>, f: Expr, names: set<Column>)
    ensures WithColumns(fs + [f], names) == WithColumns(fs, names) + if OnlyColumns(f, names) then [f] else []
    ensures WithoutColumns(fs + [f], names) == WithoutColumns(fs, names) + if OnlyColumns(f, names) then [] else [f]
  {
    var last, none: seq<Expr> := [f], [];
    if fs == [] {
      assert fs + last == last && last[1..] == none;
      assert WithColumns(last, names) == (if OnlyColumns(f, names) then [f] else []) + WithColumns(none, names);
      assert WithoutColumns(last, names) == (if OnlyColumns(f, names) then [] else [f]) + WithoutColumns(none, names);
    } else {
      ColumnsLast(fs[1..], f, names);
      assert (fs + last)[1..] == fs[1..] + last;
      Associative(if OnlyColumns(fs[0], names) then [fs[0]] else [], WithColumns(fs[1..], names),
                  if OnlyColumns(f, names) then [f] else []);
      Associative(if OnlyColumns(fs[0], names) then [] else [fs[0]], WithoutColumns(fs[1..], names),
                  if OnlyColumns(f, names) then [] else [f]);
    }
  }

  method FiltersForColumns(filters: seq<Expr>, table: Table, names: set<Column>)
    returns (columnFilters: seq<Expr>, remaining: seq<Expr>)
    ensures columnFilters == WithColumns(Matching(filters, {table}), names)
    ensures remaining == Others(filters, {table}) + WithoutColumns(Matching(filters, {table}), names)
  {
    var fTable;
    fTable, remaining := FiltersForTables(filters, {table});
    columnFilters := [];
    for i := 0 to |fTable|
      invariant columnFilters == WithColumns(fTable[..i], names)
      invariant remaining == Others(filters, {table}) + WithoutColumns(fTable[..i], names)
    {
      var f := fTable[i];
      assert fTable[..i + 1] == fTable[..i] + [f];
      ColumnsLast(fTable[..i], f, names);
      if OnlyColumns(f, names) {
        columnFilters := columnFilters + [f];
      } else {
        remaining := remaining + [f];
      }
    }
    assert fTable[..|fTable|] == fTable;
  }

  lemma {:induction false} RedundantLast(fs: seq<Expr>, f: Expr, t1: Table, t2: Table)
    ensures RemoveRedundant(fs + [f], t1, t2) == RemoveRedundant(fs, t1, t2) + if IsRedundant(f, t1, t2) then [] else [f]
  {
    var last, none: seq<Expr> := [f], [];
    if fs == [] {
      assert fs + last == last && last[1..] == none;
      assert RemoveRedundant(last, t1, t2) == (if IsRedundant(f, t1, t2) then [] else [f]) + RemoveRedundant(none, t1, t2);
    } else {
      RedundantLast(fs[1..], f, t1, t2);
      assert (fs + last)[1..] == fs[1..] + last;
      Associative(if IsRedundant(fs[0], t1, t2) then [] else [fs[0]], RemoveRedundant(fs[1..], t1, t2),
                  if IsRedundant(f, t1, t2) then [] else [f]);
    }
  }

  method RemoveRedundantFilters(filters: seq<Expr>, t1: Table, t2: Table) returns (result: seq<Expr>)
    ensures result == RemoveRedundant(filters, t1, t2)
  {
    result := [];
    for i := 0 to |filters|
      invariant result == RemoveRedundant(filters[..i], t1, t2)
    {
      var f := filters[i];
      assert filters[..i + 1] == filters[..i] + [f];
      RedundantLast(filters[..i], f, t1, t2);
      if !IsRedundant(f, t1, t2) {
        result := result + [f];
      }
    }
    assert filters[..|filters|] == filters;
  }

  method FiltersForTable(t: Table, filters: seq<Expr>, schema: Schema)
    returns (filter: Option<Option<Expr>>, remaining: seq<Expr>)
    ensures filter == Compile(Matching(filters, {t}), schema) && remaining == Others(filters, {t})
  {
    var dealt;
    dealt, remaining := FiltersForTables(filters, {t});
    filter := Compile(dealt, schema);
  }

  method FiltersForJoin(t1: Table, t2: Table, filters: seq<Expr>, schema: Schema)
    returns (filter: Option<Option<Expr>>, remaining: seq<Expr>)
    ensures filter == Compile(RemoveRedundant(Matching(filters, {t1, t2}), t1, t2), schema)
    ensures remaining == Others(filters, {t1, t2})
  {
    var dealt;
    dealt, remaining := FiltersForTables(filters, {t1, t2});
    var kept := RemoveRedundantFilters(dealt, t1, t2);
    filter := Compile(kept, schema);
  }

  // -------------------------------------------------------------------------
  // Loops over tables and columns
  // -------------------------------------------------------------------------

  lemma {:induction false} WithinLast(ts: seq<Table>, t: Table, tables: seq<Table>)
    ensures Within(ts + [t], tables) == Within(ts, tables) + if t in tables then [t] else []
  {
    var last, none: seq<Table> := [t], [];
    if ts == [] {
      assert ts + last == last && last[1..] == none;
      assert Within(last, tables) == (if t in tables then [t] else []) + Within(none, tables);
    } else {
      WithinLast(ts[1..], t, tables);
      assert (ts + last)[1..] == ts[1..] + last;
      Associative(if ts[0] in tables then [ts[0]] else [], Within(ts[1..], tables), if t in tables then [t] else []);
    }
  }

  method OrderedTableNames(tables: seq<Table>) returns (names: seq<Table>)
    ensures names == Ordered(tables)
  {
    names := [];
    var all := HIERARCHY;
    for i := 0 to |all|
      invariant names == Within(all[..i], tables)
    {
      assert all[..i + 1] == all[..i] + [all[i]];
      WithinLast(all[..i], all[i], tables);
      var j := 0;
      while j < |tables| && tables[j] != all[i]
        invariant j <= |tables| && all[i] !in tables[..j]
      {
        j := j + 1;
      }
      if j < |tables| {
        names := names + [all[i]];
      } else {
        assert tables[..j] == tables;
      }
    }
    assert all[..|all|] == all;
  }

  lemma {:induction false} FindFirst(schema: Schema, col: Col, j: nat)
    requires j < |schema| && schema[j] == col && col !in schema[..j]
    ensures Find(schema, col) == Some(j)
  {
    if j > 0 {
      assert schema[..j][0] == schema[0];
      assert schema[1..][..j - 1] == schema[..j][1..];
      FindFirst(schema[1..], col, j - 1);
    }
  }

  // None leaves the rows as they are.
  method MapSchema(original: Schema, actual: Schema) returns (mapping: Option<seq<nat>>)
    ensures mapping == BuildSchemaMapping(original, actual)
  {
    var result: seq<nat>, sameSchemas := [], true;
    for i := 0 to |original|
      invariant |result| == i && forall k :: 0 <= k < i ==> result[k] == Positions(original, actual)[k]
      invariant sameSchemas
                <==> forall k :: 0 <= k < i ==> Find(actual, original[k]).None? || Find(actual, original[k]) == Some(k)
    {
      var j := 0;
      while j < |actual| && actual[j] != original[i]
        invariant j <= |actual| && original[i] !in actual[..j]
      {
        j := j + 1;
      }
      if j < |actual| {
        FindFirst(actual, original[i], j);
        if i != j {
          sameSchemas := false;
        }
        result := result + [j];
      } else {
        assert actual[..j] == actual;
        result := result + [0];
      }
    }
    assert result == Positions(original, actual);
    mapping := if sameSchemas then None else Some(result);
  }

  // -------------------------------------------------------------------------
  // Building the node
  // -------------------------------------------------------------------------

  // One table: chained, or left to an ordinary join.
  method TakeTable(p: Plan, t: Table, indexed: bool) returns (r: Result<Plan>)
    ensures r == AddTable(p, t, indexed)
  {
    var used, filters := p.used + {t}, p.filters;
    match Choose(p.iter, t) {
      case Invalid =>
        return Failure(InvalidChain);
      case Unsquashable =>
        var f;
        f, filters := FiltersForTables(filters, used);
        return Success(p.(used := used, unsquashable := p.unsquashable + [Unsquashed(t, f)], filters := filters));
      case Chain(link, next) =>
        r := ChainTable(p.(used := used), link, next, indexed);
    }
  }

  method ChainTable(p: Plan, link: Link, next: Iter, indexed: bool) returns (r: Result<Plan>)
    ensures r == AddStage(p, link, next, indexed)
  {
    var filters, moved := p.filters, [];
    if link == Alone(RefCommits) && !indexed {
      moved, filters := FiltersForColumns(filters, RefCommits, REF_COLUMNS);
    }
    var movedFilter := Transfer(moved);
    var schema := p.schema + SchemaOf(Added(link));
    var dealt, rest := FiltersForTables(filters, Sources(link));
    var filter;
    if link.Alone? {
      filter, filters := FiltersForTable(link.table, filters, schema);
    } else {
      filter, filters := FiltersForJoin(link.left, link.right, filters, schema);
    }
    if movedFilter.None? || filter.None? {
      return Failure(ColumnNotFound);
    }
    var stage := Stage(link, Narrow(link, p.filters), moved, movedFilter.value, dealt, filter.value);
    return Success(p.(iter := next, stages := p.stages + [stage], schema := schema, filters := filters));
  }

  lemma {:induction false} FailsOn(p: Plan, ts: seq<Table>, indexed: bool, n: nat)
    requires n <= |ts| && AddTables(p, ts[..n], indexed).Failure?
    ensures AddTables(p, ts, indexed) == AddTables(p, ts[..n], indexed)
    decreases |ts|
  {
    if n < |ts| {
      var front := ts[..|ts| - 1];
      assert front[..n] == ts[..n];
      FailsOn(p, front, indexed, n);
    } else {
      assert ts[..n] == ts;
    }
  }

  lemma OneMore(p: Plan, ts: seq<Table>, indexed: bool, n: nat)
    requires n < |ts| && AddTables(p, ts[..n], indexed).Success?
    ensures AddTables(p, ts[..n + 1], indexed) == AddTable(AddTables(p, ts[..n], indexed).value, ts[n], indexed)
  {
    assert ts[..n + 1][..n] == ts[..n];
  }

  method TakeTables(filters: seq<Expr>, names: seq<Table>, indexed: bool) returns (r: Result<Plan>)
    ensures r == AddTables(EmptyPlan(filters), names, indexed)
  {
    var p := EmptyPlan(filters);
    for i := 0 to |names|
      invariant AddTables(EmptyPlan(filters), names[..i], indexed) == Success(p)
    {
      OneMore(EmptyPlan(filters), names, indexed, i);
      var next := TakeTable(p, names[i], indexed);
      if next.Failure? {
        FailsOn(EmptyPlan(filters), names, indexed, i + 1);
        return next;
      }
      p := next.value;
    }
    assert names[..|names|] == names;
    return Success(p);
  }

  // What the joins from position i on add to those before.
  ghost predicate JoinsSoFar(us: seq<Unsquashed>, schema: Schema, i: nat, joins: seq<Join>, wider: Schema)
    requires i <= |us|
  {
    && JoinedSchema(us, schema) == JoinedSchema(us[i..], wider)
    && CompileJoins(us, schema)
       == match CompileJoins(us[i..], wider) case None => None case Some(rest) => Some(joins + rest)
  }

  lemma JoinsNext(us: seq<Unsquashed>, schema: Schema, i: nat, joins: seq<Join>, wider: Schema, filter: Option<Expr>)
    requires i < |us| && JoinsSoFar(us, schema, i, joins, wider)
    requires Compile(us[i].filters, SchemaOf(us[i].table) + wider) == Some(filter)
    ensures JoinsSoFar(us, schema, i + 1, joins + [Join(us[i].table, filter)], SchemaOf(us[i].table) + wider)
  {
    var rest := CompileJoins(us[i..][1..], SchemaOf(us[i].table) + wider);
    assert us[i..][1..] == us[i + 1..];
    if rest.Some? {
      Associative(joins, [Join(us[i].table, filter)], rest.value);
    }
  }

  // Each table that was not chained is joined around the node so far.
  method JoinAround(us: seq<Unsquashed>, schema: Schema) returns (joins: Option<seq<Join>>, wider: Schema)
    ensures joins == CompileJoins(us, schema)
    ensures joins.Some? ==> wider == JoinedSchema(us, schema)
  {
    var made: seq<Join> := [];
    wider := schema;
    assert us[0..] == us;
    assert forall rest: seq<Join> :: [] + rest == rest;
    for i := 0 to |us|
      invariant JoinsSoFar(us, schema, i, made, wider)
    {
      var u := us[i];
      var filter := Compile(u.filters, SchemaOf(u.table) + wider);
      if filter.None? {
        return None, wider;
      }
      JoinsNext(us, schema, i, made, wider, filter.value);
      made, wider := made + [Join(u.table, filter.value)], SchemaOf(u.table) + wider;
    }
    assert made + [] == made;
    joins := Some(made);
  }

  // The whole rule.
  method BuildSquashedTable(tables: seq<Table>, filters: seq<Expr>, indexed: bool) returns (r: Result<Squashed>)
    ensures r == Squash(tables, filters, indexed)
  {
    var names := OrderedTableNames(tables);
    var p := TakeTables(filters, names, indexed);
    if p.Failure? {
      return Failure(p.error);
    }
    r := FinishNode(p.value, Concat(tables));
  }

  method FinishNode(p: Plan, original: Schema) returns (r: Result<Squashed>)
    ensures r == Finish(p, original)
  {
    if p.iter.NoIter? {
      return Failure(NoIterator);
    }
    var joins, wider := JoinAround(p.unsquashable, p.schema);
    var positions;
    if p.unsquashable == [] {
      var mapping := MapSchema(original, p.schema);
      positions := Some(mapping);
    } else if joins.Some? {
      positions := ProjectSchema(original, wider);
    } else {
      positions := None;
    }
    var filter := Compile(p.filters, original);
    if joins.None? || positions.None? || filter.None? {
      return Failure(ColumnNotFound);
    }
    return Success(Squashed(p, joins.value, positions.value, filter.value));
  }
}
