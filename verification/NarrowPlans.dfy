// Which stages of a plan go over head commits or main trees only, said by the filters of the query.

module NarrowPlans {
  import opened Objects
  import opened Expressions
  import opened SquashJoins
  import opened FilterConservation
  import opened Layout
  import opened SquashMeaning
  import opened PlanTrace

  // The filter is an equality between these two columns, whichever side each is on.
  ghost predicate Equates(f: Expr, a: Col, b: Col) {
    exists i, j :: f == Equals(Field(a, i), Field(b, j)) || f == Equals(Field(b, j), Field(a, i))
  }

  ghost predicate AskedFor(filters: seq<Expr>, a: Col, b: Col) {
    exists f :: f in filters && Equates(f, a, b)
  }

  lemma EquatesMentions(f: Expr, a: Col, b: Col)
    ensures Equates(f, a, b) <==> IsEq(f, a, b)
    ensures Equates(f, a, b) ==> a in Mentions(f) && b in Mentions(f)
  {
    if IsEq(f, a, b) {
      var l, r := f.children[0], f.children[1];
      assert f.children == [l, r];
      assert f == Equals(Field(l.col, l.index), Field(r.col, r.index));
    }
    if Equates(f, a, b) {
      assert IsEq(f, a, b);
      var es := f.children;
      assert MentionsAny(es) == Mentions(es[0]) + MentionsAny(es[1..]);
      assert es[1..][0] == es[1];
    }
  }

  // -------------------------------------------------------------------------
  // Filters over tables that are yet to come
  // -------------------------------------------------------------------------

  // The filter reads a table that the plan has not come to. The rule chains tree_entries to the
  // repositories where the query has commit_trees, so a filter over tree_entries may go early.
  ghost predicate Ahead(used: set<Table>, f: Expr) {
    exists c :: c in Mentions(f) && c.table != TreeEntries && forall u :: u in used ==> Rank(u) < Rank(c.table)
  }

  // Filters over tables to come are still there.
  ghost predicate Waits(p: Plan, filters: seq<Expr>) {
    && (forall f :: f in p.filters ==> f in filters)
    && (forall f :: f in filters && Ahead(p.used, f) ==> f in p.filters)
  }

  lemma SplitHas(fs: seq<Expr>, ts: set<Table>, f: Expr)
    requires f in fs
    ensures if Only(f, ts) then f in Matching(fs, ts) else f in Others(fs, ts)
  {
    MatchingSplits(fs, ts);
    assert f in multiset(fs);
    assert f in multiset(Matching(fs, ts)) || f in multiset(Others(fs, ts));
  }

  // A filter that reads anything but ref_commits is not moved to the references.
  lemma StaysUnmoved(fs: seq<Expr>, f: Expr)
    requires f in fs && !Only(f, {RefCommits})
    ensures f in Unmovable(fs)
  {
    SplitHas(fs, {RefCommits}, f);
  }

  // A link reads the table it adds and earlier ones.
  lemma LinkReads(iter: Iter, t: Table)
    requires Choose(iter, t).Chain?
    ensures forall u :: u in Sources(Choose(iter, t).link) ==> Rank(u) <= Rank(t) || u == TreeEntries
  {}

  // A filter that reads a table behind t is not dealt to a stage over tables up to t.
  lemma AheadStays(used: set<Table>, t: Table, sources: set<Table>, f: Expr)
    requires Ahead(used + {t}, f) && forall u :: u in sources ==> u in used || Rank(u) <= Rank(t) || u == TreeEntries
    ensures !Only(f, sources) && Ahead(used, f)
  {
    var c :| c in Mentions(f) && c.table != TreeEntries && forall u :: u in used + {t} ==> Rank(u) < Rank(c.table);
    assert t in used + {t};
    assert forall u :: u in used ==> u in used + {t};
  }

  lemma AddedFilters(p: Plan, t: Table, indexed: bool, f: Expr)
    requires AddTable(p, t, indexed).Success? && f in p.filters && Ahead(p.used + {t}, f)
    ensures f in AddTable(p, t, indexed).value.filters
  {
    var fs := p.filters;
    match Choose(p.iter, t) {
      case Unsquashable =>
        AheadStays(p.used, t, p.used + {t}, f);
        SplitHas(fs, p.used + {t}, f);
      case Chain(link, next) =>
        LinkReads(p.iter, t);
        AheadStays(p.used, t, Sources(link), f);
        if link == Alone(RefCommits) && !indexed {
          StaysUnmoved(fs, f);
          SplitHas(Unmovable(fs), Sources(link), f);
        } else {
          SplitHas(fs, Sources(link), f);
        }
    }
  }

  lemma AddedUses(p: Plan, t: Table, indexed: bool)
    requires AddTable(p, t, indexed).Success?
    ensures AddTable(p, t, indexed).value.used == p.used + {t}
    ensures forall f :: f in AddTable(p, t, indexed).value.filters ==> f in p.filters
  {
    var q := AddTable(p, t, indexed).value;
    match Choose(p.iter, t) {
      case Unsquashable => MatchingSubset(p.filters, p.used + {t});
      case Chain(link, next) => NewStageFilters(p.(used := p.used + {t}), link, next, indexed, p.filters);
    }
  }

  lemma WaitsOn(p: Plan, t: Table, indexed: bool, filters: seq<Expr>)
    requires AddTable(p, t, indexed).Success? && Waits(p, filters)
    ensures Waits(AddTable(p, t, indexed).value, filters)
  {
    var q := AddTable(p, t, indexed).value;
    AddedUses(p, t, indexed);
    forall f | f in filters && Ahead(q.used, f) ensures f in q.filters {
      AheadStays(p.used, t, {}, f);
      AddedFilters(p, t, indexed, f);
    }
  }

  // -------------------------------------------------------------------------
  // Narrow stages
  // -------------------------------------------------------------------------

  // Commits are chained to references over head commits when the query equates the hash of the
  // reference with that of the commit; trees to commits over main trees when it equates the trees.
  ghost predicate NarrowAsAsked(stage: Stage, filters: seq<Expr>) {
    if stage.link == Joined(References, RefCommits) then
      stage.narrow <==> AskedFor(filters, Col(References, CommitHash), Col(Commits, CommitHash))
                        || AskedFor(filters, Col(References, CommitHash), Col(RefCommits, CommitHash))
    else if stage.link == Joined(Commits, CommitTrees) then
      stage.narrow <==> AskedFor(filters, Col(Commits, TreeHash), Col(CommitTrees, TreeHash))
    else !stage.narrow
  }

  // An equality with a column of t or of a later table is found among the filters left.
  lemma StillAsked(p: Plan, t: Table, filters: seq<Expr>, a: Col, b: Col)
    requires Waits(p, filters) && (forall u :: u in p.used ==> Rank(u) < Rank(t))
    requires b.table != TreeEntries && Rank(t) <= Rank(b.table)
    ensures HasEq(p.filters, a, b) <==> AskedFor(filters, a, b)
  {
    if i :| 0 <= i < |p.filters| && IsEq(p.filters[i], a, b) {
      EquatesMentions(p.filters[i], a, b);
      assert p.filters[i] in filters;
    }
    if f :| f in filters && Equates(f, a, b) {
      EquatesMentions(f, a, b);
      assert Ahead(p.used, f);
      var i :| 0 <= i < |p.filters| && p.filters[i] == f;
    }
  }

  lemma NarrowLinks(p: Plan, t: Table, filters: seq<Expr>)
    requires Choose(p.iter, t).Chain?
    requires Waits(p, filters) && (forall u :: u in p.used ==> Rank(u) < Rank(t))
    ensures var link := Choose(p.iter, t).link;
            if link == Joined(References, RefCommits) then
              Narrow(link, p.filters) <==> AskedFor(filters, Col(References, CommitHash), Col(Commits, CommitHash))
                                           || AskedFor(filters, Col(References, CommitHash), Col(RefCommits, CommitHash))
            else if link == Joined(Commits, CommitTrees) then
              Narrow(link, p.filters) <==> AskedFor(filters, Col(Commits, TreeHash), Col(CommitTrees, TreeHash))
            else !Narrow(link, p.filters)
  {
    match Choose(p.iter, t).link {
      case Joined(References, RefCommits) =>
        StillAsked(p, t, filters, Col(References, CommitHash), Col(Commits, CommitHash));
        StillAsked(p, t, filters, Col(References, CommitHash), Col(RefCommits, CommitHash));
      case Joined(Commits, CommitTrees) =>
        StillAsked(p, t, filters, Col(Commits, TreeHash), Col(CommitTrees, TreeHash));
      case _ =>
    }
  }

  ghost predicate AllNarrowAsAsked(stages: seq<Stage>, filters: seq<Expr>) {
    forall stage :: stage in stages ==> NarrowAsAsked(stage, filters)
  }

  lemma AddTableNarrows(p: Plan, t: Table, indexed: bool, filters: seq<Expr>)
    requires AddTable(p, t, indexed).Success? && Waits(p, filters) && AllNarrowAsAsked(p.stages, filters)
    requires forall u :: u in p.used ==> Rank(u) < Rank(t)
    ensures AllNarrowAsAsked(AddTable(p, t, indexed).value.stages, filters)
  {
    match Choose(p.iter, t) {
      case Unsquashable =>
      case Chain(link, next) =>
        NarrowLinks(p, t, filters);
        var stages := AddTable(p, t, indexed).value.stages;
        assert stages == p.stages + [stages[|p.stages|]];
    }
  }

  ghost predicate NarrowedAfter(p: Plan, done: seq<Table>, filters: seq<Expr>) {
    && Waits(p, filters) && AllNarrowAsAsked(p.stages, filters)
    && forall u :: u in p.used ==> u in done
  }

  lemma NarrowStep(p: Plan, ts: seq<Table>, filters: seq<Expr>, indexed: bool, n: nat)
    requires Rising(ts) && n < |ts| && NarrowedAfter(p, ts[..n], filters) && AddTable(p, ts[n], indexed).Success?
    ensures NarrowedAfter(AddTable(p, ts[n], indexed).value, ts[..n + 1], filters)
  {
    forall u | u in p.used ensures Rank(u) < Rank(ts[n]) {
      var j :| 0 <= j < n && ts[..n][j] == u;
    }
    WaitsOn(p, ts[n], indexed, filters);
    AddTableNarrows(p, ts[n], indexed, filters);
    AddedUses(p, ts[n], indexed);
    assert ts[..n + 1] == ts[..n] + [ts[n]];
  }

  lemma {:induction false} TablesNarrow(ts: seq<Table>, filters: seq<Expr>, indexed: bool, n: nat)
    requires Rising(ts) && n <= |ts| && AddTables(EmptyPlan(filters), ts[..n], indexed).Success?
    ensures NarrowedAfter(AddTables(EmptyPlan(filters), ts[..n], indexed).value, ts[..n], filters)
    decreases n
  {
    if n > 0 {
      AddTablesLast(EmptyPlan(filters), ts, indexed, n - 1);
      TablesNarrow(ts, filters, indexed, n - 1);
      NarrowStep(AddTables(EmptyPlan(filters), ts[..n - 1], indexed).value, ts, filters, indexed, n - 1);
    }
  }

  // Whatever the tables and filters: a stage over head commits or main trees stands for an equality the
  // query asks for, and each such equality makes the stage narrow.
  lemma StagesAreNarrowAsAsked(tables: seq<Table>, filters: seq<Expr>, indexed: bool, stage: Stage)
    requires Squash(tables, filters, indexed).Success?
    requires stage in Squash(tables, filters, indexed).value.plan.stages
    ensures stage.link == Joined(References, RefCommits) ==>
              (stage.narrow <==>
                exists f :: f in filters && (Equates(f, Col(References, CommitHash), Col(Commits, CommitHash))
                                             || Equates(f, Col(References, CommitHash), Col(RefCommits, CommitHash))))
    ensures stage.link == Joined(Commits, CommitTrees) ==>
              (stage.narrow <==> exists f :: f in filters && Equates(f, Col(Commits, TreeHash), Col(CommitTrees, TreeHash)))
    ensures stage.narrow ==> stage.link in {Joined(References, RefCommits), Joined(Commits, CommitTrees)}
  {
    var ts := Ordered(tables);
    OrderedRises(tables);
    assert ts[..|ts|] == ts;
    TablesNarrow(ts, filters, indexed, |ts|);
    assert NarrowAsAsked(stage, filters);
  }
}
