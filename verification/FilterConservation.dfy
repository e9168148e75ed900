// No filter is lost or duplicated on the way through the rule.

module FilterConservation {
  import opened Objects
  import opened Expressions
  import opened SquashJoins

  lemma {:induction false} MatchingSplits(fs: seq<Expr>, tables: set<Table>)
    ensures multiset(fs) == multiset(Matching(fs, tables)) + multiset(Others(fs, tables))
    ensures forall f :: f in Matching(fs, tables) ==> Only(f, tables)
    ensures forall f :: f in Others(fs, tables) ==> !Only(f, tables)
  {
    if fs != [] {
      assert fs == [fs[0]] + fs[1..];
      MatchingSplits(fs[1..], tables);
    }
  }

  lemma {:induction false} ColumnsSplit(fs: seq<Expr>, names: set<Column>)
    ensures multiset(fs) == multiset(WithColumns(fs, names)) + multiset(WithoutColumns(fs, names))
    ensures forall f :: f in WithColumns(fs, names) ==> OnlyColumns(f, names)
    ensures forall f :: f in WithoutColumns(fs, names) ==> !OnlyColumns(f, names)
  {
    if fs != [] {
      assert fs == [fs[0]] + fs[1..];
      ColumnsSplit(fs[1..], names);
    }
  }

  lemma {:induction false} RedundantSplits(fs: seq<Expr>, t1: Table, t2: Table)
    ensures multiset(fs) == multiset(RemoveRedundant(fs, t1, t2)) + multiset(Redundant(fs, t1, t2))
    ensures forall f :: f in Redundant(fs, t1, t2) ==> IsRedundant(f, t1, t2)
    ensures forall f :: f in RemoveRedundant(fs, t1, t2) ==> !IsRedundant(f, t1, t2)
  {
    if fs != [] {
      assert fs == [fs[0]] + fs[1..];
      RedundantSplits(fs[1..], t1, t2);
    }
  }

  lemma DealtSplits(link: Link, dealt: seq<Expr>)
    ensures multiset(dealt) == multiset(Kept(link, dealt)) + multiset(Dropped(link, dealt))
    ensures forall f :: f in Dropped(link, dealt) ==> link.Joined? && IsRedundant(f, link.left, link.right)
  {
    if link.Joined? {
      RedundantSplits(dealt, link.left, link.right);
    }
  }

  lemma TransferSplits(fs: seq<Expr>)
    ensures multiset(fs) == multiset(Movable(fs)) + multiset(Unmovable(fs))
    ensures forall f :: f in Movable(fs) ==> Only(f, {RefCommits}) && OnlyColumns(f, REF_COLUMNS)
  {
    MatchingSplits(fs, {RefCommits});
    ColumnsSplit(Matching(fs, {RefCommits}), REF_COLUMNS);
    assert multiset(Matching(fs, {RefCommits})) >= multiset(WithColumns(Matching(fs, {RefCommits}), REF_COLUMNS));
    forall f | f in Movable(fs) ensures f in Matching(fs, {RefCommits}) {
      assert f in multiset(Movable(fs));
    }
  }

  // Where the filters of a plan are: moved to the references, run by a stage, made true by a chained
  // iterator, on the join with a table that was not chained, or still waiting for the final filter.
  ghost function Moved(stages: seq<Stage>): multiset<Expr> {
    if stages == [] then multiset{} else Moved(stages[..|stages| - 1]) + multiset(stages[|stages| - 1].moved)
  }

  ghost function Run(stages: seq<Stage>): multiset<Expr> {
    if stages == [] then multiset{}
    else var s := stages[|stages| - 1]; Run(stages[..|stages| - 1]) + multiset(Kept(s.link, s.dealt))
  }

  ghost function Implied(stages: seq<Stage>): multiset<Expr> {
    if stages == [] then multiset{}
    else var s := stages[|stages| - 1]; Implied(stages[..|stages| - 1]) + multiset(Dropped(s.link, s.dealt))
  }

  ghost function OnJoins(us: seq<Unsquashed>): multiset<Expr> {
    if us == [] then multiset{} else OnJoins(us[..|us| - 1]) + multiset(us[|us| - 1].filters)
  }

  ghost function Everywhere(p: Plan): multiset<Expr> {
    Moved(p.stages) + Run(p.stages) + Implied(p.stages) + OnJoins(p.unsquashable) + multiset(p.filters)
  }

  lemma WithStage(stages: seq<Stage>, s: Stage)
    ensures Moved(stages + [s]) == Moved(stages) + multiset(s.moved)
    ensures Run(stages + [s]) + Implied(stages + [s]) == Run(stages) + Implied(stages) + multiset(s.dealt)
  {
    assert (stages + [s])[..|stages|] == stages;
    DealtSplits(s.link, s.dealt);
  }

  lemma AddStageConserves(p: Plan, link: Link, next: Iter, indexed: bool)
    requires AddStage(p, link, next, indexed).Success?
    ensures Everywhere(AddStage(p, link, next, indexed).value) == Everywhere(p)
  {
    var q := AddStage(p, link, next, indexed).value;
    var s := q.stages[|p.stages|];
    var moves := link == Alone(RefCommits) && !indexed;
    var filters := if moves then Unmovable(p.filters) else p.filters;
    TransferSplits(p.filters);
    assert multiset(p.filters) == multiset(s.moved) + multiset(filters);
    MatchingSplits(filters, Sources(link));
    assert multiset(filters) == multiset(s.dealt) + multiset(q.filters);
    WithStage(p.stages, s);
    assert q.stages == p.stages + [s];
    Tally(Moved(p.stages), multiset(s.moved), Run(q.stages), Implied(q.stages), Run(p.stages), Implied(p.stages),
          multiset(s.dealt), OnJoins(p.unsquashable), multiset(q.filters));
  }

  lemma Tally(a: multiset<Expr>, b: multiset<Expr>, c: multiset<Expr>, d: multiset<Expr>, c': multiset<Expr>,
              d': multiset<Expr>, e: multiset<Expr>, f: multiset<Expr>, g: multiset<Expr>)
    requires c + d == c' + d' + e
    ensures (a + b) + c + d + f + g == a + c' + d' + f + (b + (e + g))
  {
    assert (a + b) + c + d + f + g == (a + b) + (c + d) + f + g;
  }

  lemma AddTableConserves(p: Plan, t: Table, indexed: bool)
    requires AddTable(p, t, indexed).Success?
    ensures Everywhere(AddTable(p, t, indexed).value) == Everywhere(p)
  {
    var q := p.(used := p.used + {t});
    match Choose(q.iter, t) {
      case Invalid =>
      case Chain(link, next) =>
        AddStageConserves(q, link, next, indexed);
      case Unsquashable =>
        var r := AddTable(p, t, indexed).value;
        assert r.unsquashable[..|p.unsquashable|] == p.unsquashable;
        MatchingSplits(q.filters, q.used);
    }
  }

  lemma {:induction false} AddTablesConserves(p: Plan, ts: seq<Table>, indexed: bool)
    requires AddTables(p, ts, indexed).Success?
    ensures Everywhere(AddTables(p, ts, indexed).value) == Everywhere(p)
  {
    if ts != [] {
      AddTablesConserves(p, ts[..|ts| - 1], indexed);
      AddTableConserves(AddTables(p, ts[..|ts| - 1], indexed).value, ts[|ts| - 1], indexed);
    }
  }

  // Every filter of the query ends in exactly one place, as often as it was given.
  lemma FiltersAreConserved(tables: seq<Table>, filters: seq<Expr>, indexed: bool)
    requires Squash(tables, filters, indexed).Success?
    ensures Everywhere(Squash(tables, filters, indexed).value.plan) == multiset(filters)
  {
    SquashedPlan(tables, filters, indexed);
    AddTablesConserves(EmptyPlan(filters), Ordered(tables), indexed);
    NothingPlaced(filters);
  }

  lemma SquashedPlan(tables: seq<Table>, filters: seq<Expr>, indexed: bool)
    requires Squash(tables, filters, indexed).Success?
    ensures AddTables(EmptyPlan(filters), Ordered(tables), indexed) == Success(Squash(tables, filters, indexed).value.plan)
  {}

  lemma NothingPlaced(filters: seq<Expr>)
    ensures Everywhere(EmptyPlan(filters)) == multiset(filters)
  {}
}
