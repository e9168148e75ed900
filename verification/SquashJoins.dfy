// The rule that turns joined tables and the filters over them into one chain of iterators.

module SquashJoins {
  import opened Objects
  import opened Expressions

  // -------------------------------------------------------------------------
  // Dealing filters out
  // -------------------------------------------------------------------------

  predicate Only(f: Expr, tables: set<Table>) {
    forall c :: c in Mentions(f) ==> c.table in tables
  }

  predicate OnlyColumns(f: Expr, names: set<Column>) {
    forall c :: c in Mentions(f) ==> c.name in names
  }

  // The filters over these tables alone, and the others, each in order.
  function Matching(fs: seq<Expr>, tables: set<Table>): seq<Expr> {
    if fs == [] then []
    else (if Only(fs[0], tables) then [fs[0]] else []) + Matching(fs[1..], tables)
  }

  function Others(fs: seq<Expr>, tables: set<Table>): seq<Expr> {
    if fs == [] then []
    else (if Only(fs[0], tables) then [] else [fs[0]]) + Others(fs[1..], tables)
  }

  function WithColumns(fs: seq<Expr>, names: set<Column>): seq<Expr> {
    if fs == [] then []
    else (if OnlyColumns(fs[0], names) then [fs[0]] else []) + WithColumns(fs[1..], names)
  }

  function WithoutColumns(fs: seq<Expr>, names: set<Column>): seq<Expr> {
    if fs == [] then []
    else (if OnlyColumns(fs[0], names) then [] else [fs[0]]) + WithoutColumns(fs[1..], names)
  }

  // -------------------------------------------------------------------------
  // Filters a chained iterator makes true by itself
  // -------------------------------------------------------------------------

  predicate IsCol(e: Expr, col: Col) {
    e.Field? && e.col == col
  }

  predicate IsEq(f: Expr, a: Col, b: Col) {
    f.Node? && f.op.EqualsOp? && |f.children| == 2 &&
    ((IsCol(f.children[0], a) && IsCol(f.children[1], b)) || (IsCol(f.children[0], b) && IsCol(f.children[1], a)))
  }

  // The columns on which chaining t2 after t1 joins them. Between commit_files and files the three
  // of them count only together; between the other pairs each of them counts alone.
  function JoinColumns(t1: Table, t2: Table): seq<Column> {
    match (t1, t2)
    case (Repositories, Remotes) => [RepositoryId]
    case (Repositories, References) => [RepositoryId]
    case (Repositories, RefCommits) => [RepositoryId]
    case (Remotes, References) => [RepositoryId]
    case (References, Commits) => [CommitHash]
    case (References, RefCommits) => [RefName, CommitHash]
    case (RefCommits, Commits) => [CommitHash]
    case (Commits, TreeEntries) => [TreeHash]
    case (TreeEntries, Blobs) => [BlobHash]
    case (Repositories, Commits) => [RepositoryId]
    case (Repositories, TreeEntries) => [RepositoryId]
    case (Repositories, Blobs) => [RepositoryId]
    case (References, CommitTrees) => [CommitHash]
    case (RefCommits, CommitTrees) => [CommitHash]
    case (Commits, CommitTrees) => [CommitHash, TreeHash]
    case (CommitTrees, TreeEntries) => [TreeHash]
    case (References, CommitBlobs) => [CommitHash]
    case (RefCommits, CommitBlobs) => [CommitHash]
    case (Commits, CommitBlobs) => [CommitHash]
    case (CommitBlobs, Blobs) => [BlobHash]
    case (Commits, CommitFiles) => [CommitHash]
    case (RefCommits, CommitFiles) => [CommitHash]
    case (References, CommitFiles) => [CommitHash]
    case (CommitFiles, Blobs) => [BlobHash]
    case (CommitFiles, Files) => [FilePath, BlobHash, TreeHash]
    case _ => []
  }

  predicate IsRedundant(f: Expr, t1: Table, t2: Table) {
    exists name :: name in JoinColumns(t1, t2) && IsEq(f, Col(t1, name), Col(t2, name))
  }

  function RemoveRedundant(fs: seq<Expr>, t1: Table, t2: Table): seq<Expr> {
    if fs == [] then []
    else (if IsRedundant(fs[0], t1, t2) then [] else [fs[0]]) + RemoveRedundant(fs[1..], t1, t2)
  }

  function Redundant(fs: seq<Expr>, t1: Table, t2: Table): seq<Expr> {
    if fs == [] then []
    else (if IsRedundant(fs[0], t1, t2) then [fs[0]] else []) + Redundant(fs[1..], t1, t2)
  }

  // Whether a join condition allows t2 to be chained after t1.
  predicate HasChainableCondition(fs: seq<Expr>, t1: Table, t2: Table) {
    if (t1, t2) == (CommitFiles, Files) then
      forall name | name in JoinColumns(t1, t2) :: exists i :: 0 <= i < |fs| && IsEq(fs[i], Col(t1, name), Col(t2, name))
    else
      exists i :: 0 <= i < |fs| && IsRedundant(fs[i], t1, t2)
  }

  predicate HasEq(fs: seq<Expr>, a: Col, b: Col) {
    exists i :: 0 <= i < |fs| && IsEq(fs[i], a, b)
  }

  predicate HasRefHeadFilter(fs: seq<Expr>) {
    HasEq(fs, Col(References, CommitHash), Col(Commits, CommitHash))
    || HasEq(fs, Col(References, CommitHash), Col(RefCommits, CommitHash))
  }

  predicate HasMainTreeFilter(fs: seq<Expr>) {
    HasEq(fs, Col(Commits, TreeHash), Col(CommitTrees, TreeHash))
  }

  // -------------------------------------------------------------------------
  // Chaining one table
  // -------------------------------------------------------------------------

  // What an iterator offers to the one chained after it.
  datatype Iter =
    | NoIter | ReposIter | RemotesIter | RefsIter | RefCommitsIter | CommitsIter
    | TreesIter | TreeEntriesIter | BlobsIter | FilesIter | LastIter

  datatype Link = Alone(table: Table) | Joined(left: Table, right: Table)

  datatype Choice = Chain(link: Link, next: Iter) | Unsquashable | Invalid

  function Choose(iter: Iter, t: Table): Choice {
    match t
    case Repositories => if iter.NoIter? then Chain(Alone(t), ReposIter) else Invalid
    case Remotes =>
      (match iter
       case ReposIter => Chain(Joined(Repositories, t), RemotesIter)
       case NoIter => Chain(Alone(t), RemotesIter)
       case _ => Unsquashable)
    case References =>
      (match iter
       case ReposIter => Chain(Joined(Repositories, t), RefsIter)
       case RemotesIter => Chain(Joined(Remotes, t), RefsIter)
       case NoIter => Chain(Alone(t), RefsIter)
       case _ => Unsquashable)
    case RefCommits =>
      (match iter
       case ReposIter => Chain(Joined(Repositories, t), RefCommitsIter)
       case RefsIter => Chain(Joined(References, t), RefCommitsIter)
       case NoIter => Chain(Alone(t), RefCommitsIter)
       case _ => Unsquashable)
    case Commits =>
      (match iter
       case ReposIter => Chain(Joined(Repositories, t), CommitsIter)
       case RefsIter => Chain(Joined(References, t), CommitsIter)
       case RefCommitsIter => Chain(Joined(RefCommits, t), CommitsIter)
       case CommitsIter => Chain(Joined(RefCommits, t), CommitsIter)
       case NoIter => Chain(Alone(t), CommitsIter)
       case _ => Unsquashable)
    case CommitTrees =>
      (match iter
       // The code chains tree_entries here.
       case ReposIter => Chain(Joined(Repositories, TreeEntries), TreeEntriesIter)
       case RefsIter => Chain(Joined(References, t), TreesIter)
       case RefCommitsIter => Chain(Joined(RefCommits, t), TreesIter)
       case CommitsIter => Chain(Joined(Commits, t), TreesIter)
       case NoIter => Chain(Alone(t), TreesIter)
       case _ => Unsquashable)
    case TreeEntries =>
      (match iter
       case ReposIter => Chain(Joined(Repositories, t), TreeEntriesIter)
       case RefCommitsIter => Chain(Joined(Commits, t), TreeEntriesIter)
       case CommitsIter => Chain(Joined(Commits, t), TreeEntriesIter)
       case TreesIter => Chain(Joined(CommitTrees, t), TreeEntriesIter)
       case NoIter => Chain(Alone(t), TreeEntriesIter)
       case _ => Unsquashable)
    case CommitBlobs =>
      (match iter
       case RefsIter => Chain(Joined(References, t), BlobsIter)
       case RefCommitsIter => Chain(Joined(RefCommits, t), BlobsIter)
       case CommitsIter => Chain(Joined(Commits, t), BlobsIter)
       case NoIter => Chain(Alone(t), BlobsIter)
       case _ => Unsquashable)
    case CommitFiles =>
      (match iter
       case RefsIter => Chain(Joined(References, t), FilesIter)
       case RefCommitsIter => Chain(Joined(Commits, t), FilesIter)
       case CommitsIter => Chain(Joined(Commits, t), FilesIter)
       case NoIter => Chain(Alone(t), FilesIter)
       case _ => Unsquashable)
    case Blobs =>
      (match iter
       case ReposIter => Chain(Joined(Repositories, t), BlobsIter)
       case BlobsIter => Chain(Joined(CommitBlobs, t), BlobsIter)
       case TreeEntriesIter => Chain(Joined(TreeEntries, t), BlobsIter)
       case FilesIter => Chain(Joined(CommitFiles, t), LastIter)
       case _ => Unsquashable)
    case Files =>
      (match iter
       case FilesIter => Chain(Joined(CommitFiles, t), LastIter)
       case _ => Unsquashable)
  }

  // -------------------------------------------------------------------------
  // The plan
  // -------------------------------------------------------------------------

  // `moved` are filters of ref_commits that run on the references before them, as `movedFilter`;
  // `dealt` are the filters taken for this stage, of which `filter` runs all but the redundant ones.
  // `narrow` picks the iterator over head commits or main trees.
  datatype Stage = Stage(link: Link, narrow: bool, moved: seq<Expr>, movedFilter: Option<Expr>,
                         dealt: seq<Expr>, filter: Option<Expr>)

  datatype Unsquashed = Unsquashed(table: Table, filters: seq<Expr>)

  datatype Plan = Plan(iter: Iter, stages: seq<Stage>, schema: Schema, used: set<Table>,
                       unsquashable: seq<Unsquashed>, filters: seq<Expr>)

  datatype Error = ColumnNotFound | InvalidChain | NoIterator

  datatype Result<+T> = Success(value: T) | Failure(error: Error) {
    predicate IsFailure() {
      Failure?
    }

    function PropagateFailure<U>(): Result<U>
      requires Failure?
    {
      Failure(error)
    }

    function Extract(): T
      requires Success?
    {
      value
    }
  }

  function Added(link: Link): Table {
    if link.Alone? then link.table else link.right
  }

  function Sources(link: Link): set<Table> {
    if link.Alone? then {link.table} else {link.left, link.right}
  }

  // The filters a stage runs itself.
  function Kept(link: Link, dealt: seq<Expr>): seq<Expr> {
    if link.Alone? then dealt else RemoveRedundant(dealt, link.left, link.right)
  }

  // The filters a stage leaves to the way its rows are made.
  function Dropped(link: Link, dealt: seq<Expr>): seq<Expr> {
    if link.Alone? then [] else Redundant(dealt, link.left, link.right)
  }

  const REF_COLUMNS: set<Column> := {RefName, RepositoryId}

  // The filters of ref_commits that can already run on the references, and what stays.
  function Movable(fs: seq<Expr>): seq<Expr> {
    WithColumns(Matching(fs, {RefCommits}), REF_COLUMNS)
  }

  function Unmovable(fs: seq<Expr>): seq<Expr> {
    Others(fs, {RefCommits}) + WithoutColumns(Matching(fs, {RefCommits}), REF_COLUMNS)
  }

  function Transfer(fs: seq<Expr>): Option<Option<Expr>> {
    if fs == [] then Some(None)
    else
      match FixFieldTable(JoinAnd(fs).value, References, SchemaOf(References))
      case None => None
      case Some(e) => Some(Some(e))
  }

  function Narrow(link: Link, fs: seq<Expr>): bool {
    match link
    case Joined(References, RefCommits) => HasRefHeadFilter(fs)
    case Joined(Commits, CommitTrees) => HasMainTreeFilter(fs)
    case _ => false
  }

  function AddStage(p: Plan, link: Link, next: Iter, indexed: bool): Result<Plan> {
    var moves := link == Alone(RefCommits) && !indexed;
    var moved := if moves then Movable(p.filters) else [];
    var filters := if moves then Unmovable(p.filters) else p.filters;
    var schema := p.schema + SchemaOf(Added(link));
    var dealt := Matching(filters, Sources(link));
    var movedFilter, filter := Transfer(moved), Compile(Kept(link, dealt), schema);
    if movedFilter.None? || filter.None? then Failure(ColumnNotFound)
    else
      var stage := Stage(link, Narrow(link, p.filters), moved, movedFilter.value, dealt, filter.value);
      Success(p.(iter := next, stages := p.stages + [stage], schema := schema,
                 filters := Others(filters, Sources(link))))
  }

  // `indexed` says that the first table is read from an index.
  function AddTable(p: Plan, t: Table, indexed: bool): Result<Plan> {
    var q := p.(used := p.used + {t});
    match Choose(q.iter, t)
    case Invalid => Failure(InvalidChain)
    case Unsquashable =>
      Success(q.(unsquashable := q.unsquashable + [Unsquashed(t, Matching(q.filters, q.used))],
                 filters := Others(q.filters, q.used)))
    case Chain(link, next) => AddStage(q, link, next, indexed)
  }

  function AddTables(p: Plan, ts: seq<Table>, indexed: bool): Result<Plan> {
    if ts == [] then Success(p)
    else
      var front :- AddTables(p, ts[..|ts| - 1], indexed);
      AddTable(front, ts[|ts| - 1], indexed)
  }

  const HIERARCHY: seq<Table> := [Repositories, Remotes, References, RefCommits, Commits, CommitTrees,
                                  TreeEntries, CommitBlobs, CommitFiles, Blobs, Files]

  function Within(ts: seq<Table>, tables: seq<Table>): seq<Table> {
    if ts == [] then [] else (if ts[0] in tables then [ts[0]] else []) + Within(ts[1..], tables)
  }

  function Ordered(tables: seq<Table>): seq<Table> {
    Within(HIERARCHY, tables)
  }

  // -------------------------------------------------------------------------
  // Putting the columns back
  // -------------------------------------------------------------------------

  function Concat(tables: seq<Table>): Schema {
    if tables == [] then [] else Concat(tables[..|tables| - 1]) + SchemaOf(tables[|tables| - 1])
  }

  // A column that is not there maps to position 0.
  function Positions(original: Schema, actual: Schema): (r: seq<nat>)
    ensures |r| == |original|
  {
    seq(|original|, i requires 0 <= i < |original| =>
      match Find(actual, original[i]) case None => 0 case Some(j) => j)
  }

  predicate SameSchemas(original: Schema, actual: Schema) {
    forall i :: 0 <= i < |original| ==> Find(actual, original[i]).None? || Find(actual, original[i]) == Some(i)
  }

  // None leaves the rows as they are.
  function BuildSchemaMapping(original: Schema, actual: Schema): Option<seq<nat>> {
    if SameSchemas(original, actual) then None else Some(Positions(original, actual))
  }

  function FindLast(schema: Schema, col: Col): (r: Option<nat>)
    ensures r.Some? ==> r.value < |schema| && schema[r.value] == col
    ensures r.Some? <==> col in schema
  {
    if schema == [] then None
    else if schema[|schema| - 1] == col then Some(|schema| - 1)
    else FindLast(schema[..|schema| - 1], col)
  }

  // The positions of a projection, the outer None being an unknown column; an equal schema needs none.
  function ProjectSchema(original: Schema, actual: Schema): Option<Option<seq<nat>>> {
    if original == actual then Some(None)
    else if forall i :: 0 <= i < |original| ==> FindLast(actual, original[i]).Some? then
      Some(Some(seq(|original|, i requires 0 <= i < |original| && FindLast(actual, original[i]).Some? =>
        FindLast(actual, original[i]).value)))
    else None
  }

  // -------------------------------------------------------------------------
  // The whole rule
  // -------------------------------------------------------------------------

  // An ordinary join of a table with what stands to its right; without a filter it is a cross join.
  datatype Join = Join(table: Table, filter: Option<Expr>)

  function CompileJoins(us: seq<Unsquashed>, schema: Schema): Option<seq<Join>> {
    if us == [] then Some([])
    else
      var u := us[0];
      var wider := SchemaOf(u.table) + schema;
      match Compile(u.filters, wider)
      case None => None
      case Some(filter) =>
        match CompileJoins(us[1..], wider)
        case None => None
        case Some(rest) => Some([Join(u.table, filter)] + rest)
  }

  function JoinedSchema(us: seq<Unsquashed>, schema: Schema): Schema {
    if us == [] then schema else JoinedSchema(us[1..], SchemaOf(us[0].table) + schema)
  }

  // The node that replaces the join: the chain, the tables that stay ordinary joins around it, the
  // positions that put the columns back in order, and the filter over everything.
  datatype Squashed = Squashed(plan: Plan, joins: seq<Join>, positions: Option<seq<nat>>, filter: Option<Expr>)

  function EmptyPlan(filters: seq<Expr>): Plan {
    Plan(NoIter, [], [], {}, [], filters)
  }

  function Finish(plan: Plan, original: Schema): Result<Squashed> {
    if plan.iter.NoIter? then Failure(NoIterator)
    else
      var joins := CompileJoins(plan.unsquashable, plan.schema);
      var positions :=
        if plan.unsquashable == [] then Some(BuildSchemaMapping(original, plan.schema))
        else ProjectSchema(original, JoinedSchema(plan.unsquashable, plan.schema));
      var filter := Compile(plan.filters, original);
      if joins.None? || positions.None? || filter.None? then Failure(ColumnNotFound)
      else Success(Squashed(plan, joins.value, positions.value, filter.value))
  }

  function Squash(tables: seq<Table>, filters: seq<Expr>, indexed: bool): Result<Squashed> {
    var plan :- AddTables(EmptyPlan(filters), Ordered(tables), indexed);
    Finish(plan, Concat(tables))
  }
}
