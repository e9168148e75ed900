// Joins of refs with ref_commits, commits, commit_files and files: what a query has to ask for and what
// a repository has to be like, said without running the rule.

module RefHistoryQueries {
  import opened Objects
  import opened Expressions
  import opened SquashJoins
  import opened Relations
  import opened Layout
  import opened SquashMeaning
  import opened FilterConservation
  import opened PlanTrace
  import opened Tables
  import opened JoinFacts
  import opened ProductRows
  import opened ChainStages
  import opened StageExactness
  import opened ExactChains
  import opened SquashedQueries
  import opened SquashSuccess

  function LinkOf(iter: Iter, t: Table): seq<Link> {
    match Choose(iter, t) case Chain(link, _) => [link] case _ => []
  }

  function IterAfter(iter: Iter, t: Table): Iter {
    match Choose(iter, t) case Chain(_, next) => next case _ => iter
  }

  function After(iter: Iter, ts: seq<Table>): Iter {
    if ts == [] then iter else IterAfter(After(iter, ts[..|ts| - 1]), ts[|ts| - 1])
  }

  // The links the rule chains the tables with, whatever the filters are.
  function Links(iter: Iter, ts: seq<Table>): seq<Link> {
    if ts == [] then []
    else Links(iter, ts[..|ts| - 1]) + LinkOf(After(iter, ts[..|ts| - 1]), ts[|ts| - 1])
  }

  function LinksOf(stages: seq<Stage>): (links: seq<Link>)
    ensures |links| == |stages| && forall k :: 0 <= k < |stages| ==> links[k] == stages[k].link
  {
    seq(|stages|, k requires 0 <= k < |stages| => stages[k].link)
  }

  lemma TableLinks(p: Plan, t: Table, indexed: bool)
    requires AddTable(p, t, indexed).Success?
    ensures var r := AddTable(p, t, indexed).value;
            r.iter == IterAfter(p.iter, t) && LinksOf(r.stages) == LinksOf(p.stages) + LinkOf(p.iter, t)
  {
    if Choose(p.iter, t).Chain? {
      var r := AddTable(p, t, indexed).value;
      assert r.stages == p.stages + [r.stages[|p.stages|]];
    }
  }

  ghost predicate Linked(p: Plan, ts: seq<Table>) {
    p.iter == After(NoIter, ts) && LinksOf(p.stages) == Links(NoIter, ts)
  }

  lemma {:induction false} PlanLinks(filters: seq<Expr>, ts: seq<Table>, indexed: bool)
    requires AddTables(EmptyPlan(filters), ts, indexed).Success?
    ensures Linked(AddTables(EmptyPlan(filters), ts, indexed).value, ts)
  {
    if ts != [] {
      PlanLinks(filters, ts[..|ts| - 1], indexed);
      TableLinks(AddTables(EmptyPlan(filters), ts[..|ts| - 1], indexed).value, ts[|ts| - 1], indexed);
    }
  }

  // -------------------------------------------------------------------------
  // Readiness
  // -------------------------------------------------------------------------

  function Adds(links: seq<Link>): seq<Table> {
    if links == [] then [] else Adds(links[..|links| - 1]) + [Added(links[|links| - 1])]
  }

  lemma {:induction false} AddsAreStageTables(stages: seq<Stage>)
    ensures StageTables(stages) == Adds(LinksOf(stages))
  {
    if stages != [] {
      var n := |stages| - 1;
      AddsAreStageTables(stages[..n]);
      assert LinksOf(stages)[..n] == LinksOf(stages[..n]);
    }
  }

  // The link may be chained for this query over this repository.
  ghost predicate LinkReady(repo: Repository, link: Link, before: seq<Table>, filters: seq<Expr>) {
    StageReady(repo, Stage(link, Narrow(link, filters), [], None, [], None), before, filters)
  }

  ghost predicate LinksReady(repo: Repository, links: seq<Link>, filters: seq<Expr>) {
    forall k :: 0 <= k < |links| ==> LinkReady(repo, links[k], Adds(links[..k]), filters)
  }

  ghost predicate QueryReady(repo: Repository, tables: seq<Table>, filters: seq<Expr>) {
    LinksReady(repo, Links(NoIter, Ordered(tables)), filters)
  }

  lemma NarrowIsAskedFor(repo: Repository, stage: Stage, before: seq<Table>, tables: seq<Table>, filters: seq<Expr>)
    requires LinkReady(repo, stage.link, before, filters) && StageTraced(stage, before, tables, filters)
    ensures StageReady(repo, stage, before, filters)
  {}

  lemma BeforeIs(stages: seq<Stage>, links: seq<Link>, k: nat)
    requires LinksOf(stages) == links && k < |stages|
    ensures stages[k].link == links[k] && StageTables(stages[..k]) == Adds(links[..k])
  {
    AddsAreStageTables(stages[..k]);
    assert LinksOf(stages[..k]) == links[..k];
  }

  lemma ReadyLinks(repo: Repository, stages: seq<Stage>, tables: seq<Table>, filters: seq<Expr>)
    requires LinksReady(repo, LinksOf(stages), filters) && Traced(stages, tables, filters)
    ensures Ready(repo, stages, filters)
  {
    var links := LinksOf(stages);
    forall k | 0 <= k < |stages| ensures StageReady(repo, stages[k], StageTables(stages[..k]), filters) {
      BeforeIs(stages, links, k);
      assert LinkReady(repo, links[k], Adds(links[..k]), filters);
      NarrowIsAskedFor(repo, stages[k], StageTables(stages[..k]), tables, filters);
    }
  }

  lemma ReadyPlan(repo: Repository, tables: seq<Table>, filters: seq<Expr>)
    requires QueryReady(repo, tables, filters) && Squash(tables, filters, false).Success?
    ensures Ready(repo, Squash(tables, filters, false).value.plan.stages, filters)
  {
    SquashedPlan(tables, filters, false);
    SquashTraces(tables, filters, false);
    PlanLinks(filters, Ordered(tables), false);
    ReadyLinks(repo, Squash(tables, filters, false).value.plan.stages, tables, filters);
  }

  // What the squashed node returns for a query.
  ghost predicate Preserved(repo: Repository, readContent: bool, db: Db, tables: seq<Table>, filters: seq<Expr>) {
    Squash(tables, filters, false).Success? &&
    var sq := Squash(tables, filters, false).value;
    var order := Order(sq.plan);
    && Covers(sq.plan, tables)
    && Execute(sq, db, Gens(repo, readContent, sq.plan.stages))
       == ArrangeAll(Concat(tables), Concat(order), Keep(filters, Concat(order), Product(db, order)))
  }

  lemma ReadyQueriesArePreserved(repo: Repository, readContent: bool, db: Db, tables: seq<Table>, filters: seq<Expr>)
    requires Wellformed(repo) && Plain(db, repo, readContent) && Distinct(tables) && Over(filters, Concat(tables))
    requires Opens(Elements(tables)) && !MixesUp(Elements(tables)) && QueryReady(repo, tables, filters)
    ensures Preserved(repo, readContent, db, tables, filters)
  {
    SquashSucceedsIff(tables, filters, false);
    ReadyPlan(repo, tables, filters);
    SquashedQueryIsPlainQuery(repo, readContent, db, tables, filters);
  }

  // -------------------------------------------------------------------------
  // Particular joins
  // -------------------------------------------------------------------------

  lemma {:induction false} RisingIsUnique(ts: seq<Table>, us: seq<Table>)
    requires Rising(ts) && Rising(us) && forall t :: t in ts <==> t in us
    ensures ts == us
  {
    if ts == [] {
      NoneRising(us);
    } else {
      assert ts[0] in us && us != [] && us[0] in ts;
      var i :| 0 <= i < |us| && us[i] == ts[0];
      var j :| 0 <= j < |ts| && ts[j] == us[0];
      assert ts[0] == us[0];
      forall t ensures t in ts[1..] <==> t in us[1..] {
        RestOfRising(ts, t);
        RestOfRising(us, t);
      }
      RisingIsUnique(ts[1..], us[1..]);
    }
  }

  lemma NoneRising(us: seq<Table>)
    ensures us == [] || exists t :: t in us
  {
    if us != [] {
      assert us[0] in us;
    }
  }

  lemma RestOfRising(ts: seq<Table>, t: Table)
    requires Rising(ts) && ts != []
    ensures t in ts[1..] <==> t in ts && t != ts[0]
  {
    if t in ts[1..] {
      var i :| 0 <= i < |ts| - 1 && ts[1..][i] == t;
      assert ts[i + 1] == t;
    }
  }

  ghost predicate AreTables(tables: seq<Table>, ts: seq<Table>) {
    Distinct(tables) && Rising(ts) && forall t :: t in tables <==> t in ts
  }

  lemma InOrder(tables: seq<Table>, ts: seq<Table>)
    requires AreTables(tables, ts)
    ensures Ordered(tables) == ts
  {
    OrderedRises(tables);
    RisingIsUnique(Ordered(tables), ts);
  }

  const HISTORY_TABLES: seq<Table> := [References, RefCommits, Commits]

  const HISTORY_LINKS: seq<Link> := [Alone(References), Joined(References, RefCommits), Joined(RefCommits, Commits)]

  lemma HistoryLinks()
    ensures Links(NoIter, HISTORY_TABLES) == HISTORY_LINKS && After(NoIter, HISTORY_TABLES) == CommitsIter
    ensures References in HISTORY_TABLES && Repositories !in HISTORY_TABLES
  {
    var ts := HISTORY_TABLES;
    var two, one := ts[..2], ts[..1];
    assert two[..1] == one && one[..0] == [];
    assert After(NoIter, one) == RefsIter && Links(NoIter, one) == [] + [Alone(References)];
    assert After(NoIter, two) == RefCommitsIter && Links(NoIter, two) == Links(NoIter, one) + [Joined(References, RefCommits)];
    assert Links(NoIter, ts) == Links(NoIter, two) + [Joined(RefCommits, Commits)];
  }

  ghost predicate HistoryAsked(repo: Repository, filters: seq<Expr>) {
    && (Entails(filters, Col(References, RefName), Col(RefCommits, RefName))
        || (Entails(filters, Col(References, CommitHash), Col(RefCommits, CommitHash)) && Solitary(repo)))
    && Entails(filters, Col(RefCommits, CommitHash), Col(Commits, CommitHash))
    && NamesApart(repo, RefList(repo)) && Unambiguous(repo)
    && (HasEq(filters, Col(References, CommitHash), Col(RefCommits, CommitHash)) ==> Untagged(repo))
  }

  lemma RefsLinkReady(repo: Repository, filters: seq<Expr>)
    ensures LinkReady(repo, Alone(References), [], filters)
  {}

  lemma RefCommitsLinkReady(repo: Repository, filters: seq<Expr>, before: seq<Table>)
    requires HistoryAsked(repo, filters)
    ensures LinkReady(repo, Joined(References, RefCommits), before, filters)
  {
    if HasRefHeadFilter(filters) {
      NarrowIsEntailed(filters);
    }
  }

  // A filter that picks head commits makes the hash of the reference that of its row of ref_commits.
  lemma NarrowIsEntailed(filters: seq<Expr>)
    requires HasRefHeadFilter(filters) && Entails(filters, Col(RefCommits, CommitHash), Col(Commits, CommitHash))
    ensures Entails(filters, Col(References, CommitHash), Col(RefCommits, CommitHash))
  {
    if HasEq(filters, Col(References, CommitHash), Col(RefCommits, CommitHash)) {
      EqualityEntails(filters, Col(References, CommitHash), Col(RefCommits, CommitHash));
    } else {
      EqualityEntails(filters, Col(References, CommitHash), Col(Commits, CommitHash));
      EntailedThrough(filters, Col(References, CommitHash), Col(Commits, CommitHash), Col(RefCommits, CommitHash));
    }
  }

  lemma CommitsLinkReady(repo: Repository, filters: seq<Expr>, before: seq<Table>)
    requires HistoryAsked(repo, filters)
    ensures LinkReady(repo, Joined(RefCommits, Commits), before, filters)
  {}

  lemma HistoryLinksReady(repo: Repository, filters: seq<Expr>)
    requires HistoryAsked(repo, filters)
    ensures LinksReady(repo, HISTORY_LINKS, filters)
  {
    var links := HISTORY_LINKS;
    RefsLinkReady(repo, filters);
    RefCommitsLinkReady(repo, filters, Adds(links[..1]));
    CommitsLinkReady(repo, filters, Adds(links[..2]));
    assert Adds(links[..0]) == [];
  }

  // Queries over certain tables, by the links between them.
  lemma LinkedQueriesArePreserved(repo: Repository, readContent: bool, db: Db, tables: seq<Table>, filters: seq<Expr>,
                                  ts: seq<Table>, links: seq<Link>)
    requires Wellformed(repo) && Plain(db, repo, readContent) && AreTables(tables, ts) && Over(filters, Concat(tables))
    requires Links(NoIter, ts) == links && LinksReady(repo, links, filters)
    requires References in ts && Repositories !in ts
    ensures Preserved(repo, readContent, db, tables, filters)
  {
    InOrder(tables, ts);
    StartsAtRefs(tables, ts);
    ReadyQueriesArePreserved(repo, readContent, db, tables, filters);
  }

  lemma StartsAtRefs(tables: seq<Table>, ts: seq<Table>)
    requires AreTables(tables, ts) && References in ts && Repositories !in ts
    ensures Opens(Elements(tables)) && !MixesUp(Elements(tables))
  {
    assert References in Elements(tables);
    assert Repositories !in Elements(tables);
  }

  // refs, ref_commits and commits, listed in any order: whatever else the query filters by, the node
  // returns what the plain tables return if it asks for these two equalities.
  lemma HistoryQueriesArePreserved(repo: Repository, readContent: bool, db: Db, tables: seq<Table>, filters: seq<Expr>)
    requires Wellformed(repo) && Plain(db, repo, readContent)
    requires AreTables(tables, HISTORY_TABLES) && Over(filters, Concat(tables))
    requires HistoryAsked(repo, filters)
    ensures Preserved(repo, readContent, db, tables, filters)
  {
    HistoryLinks();
    HistoryLinksReady(repo, filters);
    LinkedQueriesArePreserved(repo, readContent, db, tables, filters, HISTORY_TABLES, HISTORY_LINKS);
  }

  // A natural join compares the hash of the reference with both others, and those two with each other
  // only through it.
  lemma NaturalJoinsArePreserved(repo: Repository, readContent: bool, db: Db, tables: seq<Table>, filters: seq<Expr>)
    requires Wellformed(repo) && Plain(db, repo, readContent)
    requires AreTables(tables, HISTORY_TABLES) && Over(filters, Concat(tables))
    requires HasEq(filters, Col(References, RefName), Col(RefCommits, RefName))
    requires HasEq(filters, Col(References, CommitHash), Col(RefCommits, CommitHash))
    requires HasEq(filters, Col(References, CommitHash), Col(Commits, CommitHash))
    requires NamesApart(repo, RefList(repo)) && Unambiguous(repo) && Untagged(repo)
    ensures Preserved(repo, readContent, db, tables, filters)
  {
    var ref, refCommit, commit := Col(References, CommitHash), Col(RefCommits, CommitHash), Col(Commits, CommitHash);
    EqualityEntails(filters, Col(References, RefName), Col(RefCommits, RefName));
    EqualityEntails(filters, ref, refCommit);
    EqualityEntails(filters, ref, commit);
    EntailedBackwards(filters, ref, refCommit);
    EntailedThrough(filters, refCommit, ref, commit);
    HistoryQueriesArePreserved(repo, readContent, db, tables, filters);
  }

  // The same chain on to commit_files and files.
  ghost predicate FilesAsked(filters: seq<Expr>) {
    && Entails(filters, Col(Commits, CommitHash), Col(CommitFiles, CommitHash))
    && Entails(filters, Col(CommitFiles, TreeHash), Col(Files, TreeHash))
    && Entails(filters, Col(CommitFiles, FilePath), Col(Files, FilePath))
    && Entails(filters, Col(CommitFiles, BlobHash), Col(Files, BlobHash))
  }

  const FILE_TABLES: seq<Table> := [References, RefCommits, Commits, CommitFiles, Files]

  const FILE_LINKS: seq<Link> := [Alone(References), Joined(References, RefCommits), Joined(RefCommits, Commits),
                                  Joined(Commits, CommitFiles), Joined(CommitFiles, Files)]

  lemma FileLinks()
    ensures Links(NoIter, FILE_TABLES) == FILE_LINKS && References in FILE_TABLES && Repositories !in FILE_TABLES
  {
    var ts := FILE_TABLES;
    HistoryLinks();
    assert ts[..4][..3] == HISTORY_TABLES;
    assert After(NoIter, ts[..4]) == FilesIter && Links(NoIter, ts[..4]) == HISTORY_LINKS + [Joined(Commits, CommitFiles)];
    assert Links(NoIter, ts) == Links(NoIter, ts[..4]) + [Joined(CommitFiles, Files)];
  }

  lemma CommitFilesLinkReady(repo: Repository, filters: seq<Expr>, before: seq<Table>)
    requires HistoryAsked(repo, filters) && FilesAsked(filters) && Commits in before
    ensures LinkReady(repo, Joined(Commits, CommitFiles), before, filters)
  {
    SourceColumn(before);
  }

  lemma FilesLinkReady(repo: Repository, filters: seq<Expr>, before: seq<Table>)
    requires FilesAsked(filters)
    ensures LinkReady(repo, Joined(CommitFiles, Files), before, filters)
  {}

  lemma BeforeFiles()
    ensures Commits in Adds(FILE_LINKS[..3])
  {
    var links := FILE_LINKS[..3];
    assert links[2] == Joined(RefCommits, Commits) && Adds(links) == Adds(links[..2]) + [Commits];
  }

  lemma FileLinksReady(repo: Repository, filters: seq<Expr>)
    requires HistoryAsked(repo, filters) && FilesAsked(filters)
    ensures LinksReady(repo, FILE_LINKS, filters)
  {
    var links := FILE_LINKS;
    BeforeFiles();
    RefsLinkReady(repo, filters);
    RefCommitsLinkReady(repo, filters, Adds(links[..1]));
    CommitsLinkReady(repo, filters, Adds(links[..2]));
    CommitFilesLinkReady(repo, filters, Adds(links[..3]));
    FilesLinkReady(repo, filters, Adds(links[..4]));
    assert Adds(links[..0]) == [];
    forall k | 0 <= k < |links| ensures LinkReady(repo, links[k], Adds(links[..k]), filters) {
      assert k == 0 || k == 1 || k == 2 || k == 3 || k == 4;
    }
  }

  // The join of all five tables.
  lemma FileQueriesArePreserved(repo: Repository, readContent: bool, db: Db, tables: seq<Table>, filters: seq<Expr>)
    requires Wellformed(repo) && Plain(db, repo, readContent)
    requires AreTables(tables, FILE_TABLES) && Over(filters, Concat(tables))
    requires HistoryAsked(repo, filters) && FilesAsked(filters)
    ensures Preserved(repo, readContent, db, tables, filters)
  {
    var ts, links := FILE_TABLES, FILE_LINKS;
    FileLinks();
    FileLinksReady(repo, filters);
    LinkedQueriesArePreserved(repo, readContent, db, tables, filters, ts, links);
  }

  // -------------------------------------------------------------------------
  // The plain tables of a repository
  // -------------------------------------------------------------------------

  function PlainDb(repo: Repository, readContent: bool): Db {
    (t: Table) =>
      match t
      case Repositories => [RepositoryRow(repo)]
      case References => RefRows(repo)
      case RefCommits => RefCommitRows(repo)
      case Commits => CommitRows(repo)
      case CommitFiles => CommitFileRows(repo)
      case Files => FileRows(repo, readContent)
      case _ => []
  }

  ghost predicate Wide(rows: seq<Row>, n: nat) {
    forall row :: row in rows ==> |row| == n
  }

  lemma {:induction false} FileRowsInAreWide(repo: Repository, tree: Hash, files: seq<File>, readContent: bool)
    ensures Wide(FileRowsIn(repo, tree, files, readContent), 7)
  {
    if files != [] {
      FileRowsInAreWide(repo, tree, files[1..], readContent);
    }
  }

  lemma {:induction false} FileRowsAreWide(repo: Repository, cs: seq<Hash>, seen: set<Hash>, readContent: bool)
    requires AllCommits(repo, cs)
    ensures Wide(FileRowsOf(repo, cs, seen, readContent), 7)
    decreases cs
  {
    if cs != [] {
      assert cs[0] in cs;
      var tree := TreeOf(repo, cs[0]);
      FileRowsAreWide(repo, cs[1..], seen, readContent);
      FileRowsAreWide(repo, cs[1..], seen + {tree}, readContent);
      FileRowsInAreWide(repo, tree, FilesIn(repo, tree), readContent);
    }
  }

  lemma RefCommitRowsAreWide(repo: Repository)
    ensures Wide(RefCommitRows(repo), 4)
  {
    forall row | row in RefCommitRows(repo) ensures |row| == 4 {
      RefCommitRowsHave(repo, RefList(repo), row);
      var r :| r in RefList(repo) && row in HistoryOf(repo, r.name, r.hash);
      HistoryOfHas(repo, r.name, r.hash, row);
    }
  }

  lemma RowsAreWide(repo: Repository, readContent: bool)
    ensures Wide(RefRows(repo), 3) && Wide(CommitRows(repo), 11) && Wide(CommitFileRows(repo), 5)
  {
    forall row | row in RefRows(repo) ensures |row| == 3 {
      var k := RefRowsHave(repo, RefList(repo), row);
    }
    forall row | row in CommitRows(repo) ensures |row| == 11 {
      var c := CommitRowsHave(repo, CommitList(repo), row);
    }
    forall row | row in CommitFileRows(repo) ensures |row| == 5 {
      var c, k := CommitFileRowsHave(repo, CommitList(repo), row);
    }
  }

  lemma TableIsTyped(repo: Repository, readContent: bool, t: Table)
    ensures Typed(PlainDb(repo, readContent)(t), SchemaOf(t))
  {
    match t
    case Repositories =>
    case References => RowsAreWide(repo, readContent);
    case RefCommits => RefCommitRowsAreWide(repo);
    case Commits => RowsAreWide(repo, readContent);
    case CommitFiles => RowsAreWide(repo, readContent);
    case Files => FileRowsAreWide(repo, CommitList(repo), {}, readContent);
    case _ =>
  }

  lemma PlainDbIsTyped(repo: Repository, readContent: bool)
    ensures TypedDb(PlainDb(repo, readContent))
  {
    forall t ensures Typed(PlainDb(repo, readContent)(t), SchemaOf(t)) {
      TableIsTyped(repo, readContent, t);
    }
  }

  lemma PlainDbRows(repo: Repository, readContent: bool)
    ensures var db := PlainDb(repo, readContent);
            && db(Repositories) == [RepositoryRow(repo)] && db(References) == RefRows(repo)
            && db(RefCommits) == RefCommitRows(repo) && db(Commits) == CommitRows(repo)
            && db(CommitFiles) == CommitFileRows(repo) && db(Files) == FileRows(repo, readContent)
  {}

  // The tables the theorems speak of are those of the repository.
  lemma PlainDbIsPlain(repo: Repository, readContent: bool)
    ensures Plain(PlainDb(repo, readContent), repo, readContent)
  {
    PlainDbIsTyped(repo, readContent);
    PlainDbRows(repo, readContent);
  }
}
