// Tables, rows and the filter expressions of a query.

module Expressions {
  import opened Objects

  datatype Value =
    | Null
    | Text(text: string)
    | Digest(hash: Hash)
    | Number(n: int)
    | Time(t: int)
    | Truth(b: bool)
    | List(values: seq<Value>)

  type Row = seq<Value>

  // In the order of the table hierarchy.
  datatype Table =
    | Repositories | Remotes | References | RefCommits | Commits | CommitTrees
    | TreeEntries | CommitBlobs | CommitFiles | Blobs | Files

  datatype Column =
    | RepositoryId | RemoteName | RemotePushUrl | RemoteFetchUrl | RemotePushRefspec | RemoteFetchRefspec
    | RefName | CommitHash | HistoryIndex
    | AuthorName | AuthorEmail | AuthorWhen | CommitterName | CommitterEmail | CommitterWhen
    | CommitMessage | TreeHash | CommitParents
    | TreeEntryName | BlobHash | TreeEntryMode | FilePath | BlobSize | BlobContent

  function Columns(t: Table): seq<Column> {
    match t
    case Repositories => [RepositoryId]
    case Remotes => [RepositoryId, RemoteName, RemotePushUrl, RemoteFetchUrl, RemotePushRefspec, RemoteFetchRefspec]
    case References => [RepositoryId, RefName, CommitHash]
    case RefCommits => [RepositoryId, CommitHash, RefName, HistoryIndex]
    case Commits => [RepositoryId, CommitHash, AuthorName, AuthorEmail, AuthorWhen, CommitterName, CommitterEmail,
                     CommitterWhen, CommitMessage, TreeHash, CommitParents]
    case CommitTrees => [RepositoryId, CommitHash, TreeHash]
    case TreeEntries => [RepositoryId, TreeEntryName, BlobHash, TreeHash, TreeEntryMode]
    case CommitBlobs => [RepositoryId, CommitHash, BlobHash]
    case CommitFiles => [RepositoryId, CommitHash, FilePath, BlobHash, TreeHash]
    case Blobs => [RepositoryId, BlobHash, BlobSize, BlobContent]
    case Files => [RepositoryId, FilePath, BlobHash, TreeHash, TreeEntryMode, BlobContent, BlobSize]
  }

  // A column of a schema: the table it comes from and its name.
  datatype Col = Col(table: Table, name: Column)

  type Schema = seq<Col>

  function SchemaOf(t: Table): (s: Schema)
    ensures |s| == |Columns(t)|
    ensures forall i :: 0 <= i < |s| ==> s[i] == Col(t, Columns(t)[i])
  {
    seq(|Columns(t)|, i requires 0 <= i < |Columns(t)| => Col(t, Columns(t)[i]))
  }

  // -------------------------------------------------------------------------
  // Expressions
  // -------------------------------------------------------------------------

  // Pure stands for any other operator or function without side effects.
  datatype Op = EqualsOp | AndOp | InOp | Pure(fn: seq<Value> -> Value)

  // A field knows the column it was resolved to and the position it reads.
  datatype Expr =
    | Field(col: Col, index: nat)
    | Literal(value: Value)
    | Node(op: Op, children: seq<Expr>)

  function Equals(left: Expr, right: Expr): Expr {
    Node(EqualsOp, [left, right])
  }

  function And(left: Expr, right: Expr): Expr {
    Node(AndOp, [left, right])
  }

  function Apply(op: Op, args: seq<Value>): Value {
    match op
    case EqualsOp => if |args| == 2 then Truth(args[0] == args[1]) else Null
    case AndOp => if |args| == 2 then Truth(args[0] == Truth(true) && args[1] == Truth(true)) else Null
    case InOp => if |args| > 0 then Truth(args[0] in args[1..]) else Null
    case Pure(fn) => fn(args)
  }

  // Evaluation against a row by position, as the iterators do it.
  function EvalAt(e: Expr, row: Row): Value
    decreases e, 1
  {
    match e
    case Field(_, index) => if index < |row| then row[index] else Null
    case Literal(v) => v
    case Node(op, children) => Apply(op, EvalAllAt(children, row))
  }

  function EvalAllAt(es: seq<Expr>, row: Row): seq<Value>
    decreases es, 0
  {
    if es == [] then [] else [EvalAt(es[0], row)] + EvalAllAt(es[1..], row)
  }

  // The loop that looks a column up in a schema: the first position with that table and name.
  function Find(schema: Schema, col: Col): (r: Option<nat>)
    ensures r.Some? ==> r.value < |schema| && schema[r.value] == col
    ensures r.Some? <==> col in schema
  {
    if schema == [] then None
    else if schema[0] == col then Some(0)
    else
      match Find(schema[1..], col)
      case None => None
      case Some(i) => Some(i + 1)
  }

  // The value a row of the given schema has in a column.
  function ValueOf(schema: Schema, row: Row, col: Col): Value {
    match Find(schema, col)
    case None => Null
    case Some(i) => if i < |row| then row[i] else Null
  }

  // Evaluation by column name: what the query means.
  function Eval(e: Expr, schema: Schema, row: Row): Value
    decreases e, 1
  {
    match e
    case Field(col, _) => ValueOf(schema, row, col)
    case Literal(v) => v
    case Node(op, children) => Apply(op, EvalAll(children, schema, row))
  }

  function EvalAll(es: seq<Expr>, schema: Schema, row: Row): seq<Value>
    decreases es, 0
  {
    if es == [] then [] else [Eval(es[0], schema, row)] + EvalAll(es[1..], schema, row)
  }

  // The columns an expression mentions.
  function Mentions(e: Expr): set<Col>
    decreases e, 1
  {
    match e
    case Field(col, _) => {col}
    case Literal(_) => {}
    case Node(_, children) => MentionsAny(children)
  }

  function MentionsAny(es: seq<Expr>): set<Col>
    decreases es, 0
  {
    if es == [] then {} else Mentions(es[0]) + MentionsAny(es[1..])
  }

  // -------------------------------------------------------------------------
  // Rewriting the positions of fields
  // -------------------------------------------------------------------------

  // None stands for a column the schema does not have.
  function FixFieldIndexes(e: Expr, schema: Schema): Option<Expr>
    decreases e, 1
  {
    match e
    case Field(col, _) => (match Find(schema, col) case None => None case Some(i) => Some(Field(col, i)))
    case Literal(_) => Some(e)
    case Node(op, children) =>
      match FixAll(children, schema)
      case None => None
      case Some(fixed) => Some(Node(op, fixed))
  }

  function FixAll(es: seq<Expr>, schema: Schema): Option<seq<Expr>>
    decreases es, 0
  {
    if es == [] then Some([])
    else
      var first, rest := FixFieldIndexes(es[0], schema), FixAll(es[1..], schema);
      if first.Some? && rest.Some? then Some([first.value] + rest.value) else None
  }

  // Reading by the rewritten position is reading by name; it fails exactly on an unknown column.
  lemma {:induction false} FixIsFaithful(e: Expr, schema: Schema, row: Row)
    requires |row| == |schema|
    ensures FixFieldIndexes(e, schema).Some? <==> forall c :: c in Mentions(e) ==> c in schema
    ensures FixFieldIndexes(e, schema).Some? ==>
              EvalAt(FixFieldIndexes(e, schema).value, row) == Eval(e, schema, row)
    decreases e, 1
  {
    match e
    case Field(col, _) => assert col in Mentions(e);
    case Literal(_) =>
    case Node(_, children) => FixAllIsFaithful(children, schema, row);
  }

  lemma {:induction false} FixAllIsFaithful(es: seq<Expr>, schema: Schema, row: Row)
    requires |row| == |schema|
    ensures FixAll(es, schema).Some? <==> forall c :: c in MentionsAny(es) ==> c in schema
    ensures FixAll(es, schema).Some? ==> EvalAllAt(FixAll(es, schema).value, row) == EvalAll(es, schema, row)
    decreases es, 0
  {
    if es != [] {
      FixIsFaithful(es[0], schema, row);
      FixAllIsFaithful(es[1..], schema, row);
    }
  }

  // Moves every field to the column of the same name in another table.
  function FixFieldTable(e: Expr, table: Table, schema: Schema): Option<Expr>
    decreases e, 1
  {
    match e
    case Field(col, _) =>
      (match FindName(schema, col.name) case None => None case Some(i) => Some(Field(Col(table, col.name), i)))
    case Literal(_) => Some(e)
    case Node(op, children) =>
      match FixTableAll(children, table, schema)
      case None => None
      case Some(fixed) => Some(Node(op, fixed))
  }

  function FixTableAll(es: seq<Expr>, table: Table, schema: Schema): Option<seq<Expr>>
    decreases es, 0
  {
    if es == [] then Some([])
    else
      var first, rest := FixFieldTable(es[0], table, schema), FixTableAll(es[1..], table, schema);
      if first.Some? && rest.Some? then Some([first.value] + rest.value) else None
  }

  function FindName(schema: Schema, name: Column): (r: Option<nat>)
    ensures r.Some? ==> r.value < |schema| && schema[r.value].name == name
    ensures r.Some? <==> exists c :: c in schema && c.name == name
  {
    if schema == [] then None
    else if schema[0].name == name then Some(0)
    else
      match FindName(schema[1..], name)
      case None => None
      case Some(i) => Some(i + 1)
  }

  // The column of that name in a row of `table` holds what `other` has in column c.
  predicate SameValue(table: Table, row: Row, schema: Schema, other: Row, c: Col)
    requires |row| == |SchemaOf(table)|
  {
    match FindName(SchemaOf(table), c.name)
    case None => false
    case Some(i) => row[i] == ValueOf(schema, other, c)
  }

  // A moved filter says of a row of the other table what the filter says of any row that agrees
  // with it on the columns mentioned.
  lemma {:induction false} MovedFilterIsFaithful(e: Expr, table: Table, row: Row, schema: Schema, other: Row)
    requires |row| == |SchemaOf(table)|
    requires forall c :: c in Mentions(e) ==> SameValue(table, row, schema, other, c)
    ensures FixFieldTable(e, table, SchemaOf(table)).Some?
    ensures EvalAt(FixFieldTable(e, table, SchemaOf(table)).value, row) == Eval(e, schema, other)
    decreases e, 1
  {
    match e
    case Field(col, _) => assert col in Mentions(e);
    case Literal(_) =>
    case Node(_, children) => MovedAllAreFaithful(children, table, row, schema, other);
  }

  lemma {:induction false} MovedAllAreFaithful(es: seq<Expr>, table: Table, row: Row, schema: Schema, other: Row)
    requires |row| == |SchemaOf(table)|
    requires forall c :: c in MentionsAny(es) ==> SameValue(table, row, schema, other, c)
    ensures FixTableAll(es, table, SchemaOf(table)).Some?
    ensures EvalAllAt(FixTableAll(es, table, SchemaOf(table)).value, row) == EvalAll(es, schema, other)
    decreases es, 0
  {
    if es != [] {
      MovedFilterIsFaithful(es[0], table, row, schema, other);
      MovedAllAreFaithful(es[1..], table, row, schema, other);
    }
  }

  // -------------------------------------------------------------------------
  // Conjunctions
  // -------------------------------------------------------------------------

  predicate True(e: Expr, schema: Schema, row: Row) {
    Eval(e, schema, row) == Truth(true)
  }

  ghost predicate AllTrue(fs: seq<Expr>, schema: Schema, row: Row) {
    forall f :: f in fs ==> True(f, schema, row)
  }

  // None is the absent filter of an empty list.
  function JoinAnd(fs: seq<Expr>): Option<Expr> {
    if fs == [] then None
    else if |fs| == 1 then Some(fs[0])
    else Some(And(JoinAnd(fs[..|fs| - 1]).value, fs[|fs| - 1]))
  }

  // A stage filter: present or not.
  predicate Passes(filter: Option<Expr>, row: Row) {
    filter.Some? ==> EvalAt(filter.value, row) == Truth(true)
  }

  // The filter of a stage: the conjunction with its positions fixed. None is an unknown column.
  function Compile(fs: seq<Expr>, schema: Schema): Option<Option<Expr>> {
    if fs == [] then Some(None)
    else
      match FixFieldIndexes(JoinAnd(fs).value, schema)
      case None => None
      case Some(e) => Some(Some(e))
  }

  lemma AndMeans(left: Expr, right: Expr, schema: Schema, row: Row)
    ensures True(And(left, right), schema, row) <==> True(left, schema, row) && True(right, schema, row)
    ensures Mentions(And(left, right)) == Mentions(left) + Mentions(right)
  {
    var es, rest := [left, right], [right];
    assert es[1..] == rest && rest[1..] == [];
    assert EvalAll(rest, schema, row) == [Eval(right, schema, row)] + EvalAll([], schema, row);
    assert EvalAll(es, schema, row) == [Eval(left, schema, row)] + EvalAll(rest, schema, row);
    assert MentionsAny(rest) == Mentions(right) + MentionsAny([]);
    assert MentionsAny(es) == Mentions(left) + MentionsAny(rest);
  }

  lemma {:induction false} JoinAndMeans(fs: seq<Expr>, schema: Schema, row: Row)
    requires fs != []
    ensures True(JoinAnd(fs).value, schema, row) <==> AllTrue(fs, schema, row)
    ensures Mentions(JoinAnd(fs).value) == MentionsAny(fs)
  {
    if |fs| == 1 {
      assert fs[1..] == [];
    } else {
      var front, last := fs[..|fs| - 1], fs[|fs| - 1];
      JoinAndMeans(front, schema, row);
      AndMeans(JoinAnd(front).value, last, schema, row);
      assert fs == front + [last];
      MentionsAnyAppend(front, last);
    }
  }

  lemma {:induction false} MentionsAnyAppend(fs: seq<Expr>, f: Expr)
    ensures MentionsAny(fs + [f]) == MentionsAny(fs) + Mentions(f)
  {
    if fs == [] {
      assert (fs + [f])[1..] == [];
    } else {
      MentionsAnyAppend(fs[1..], f);
      assert (fs + [f])[1..] == fs[1..] + [f];
    }
  }

  // A compiled stage filter accepts exactly the rows on which every filter is true by name.
  lemma CompileIsFaithful(fs: seq<Expr>, schema: Schema, row: Row)
    requires |row| == |schema|
    ensures Compile(fs, schema).Some? <==> forall c :: c in MentionsAny(fs) ==> c in schema
    ensures Compile(fs, schema).Some? ==> (Passes(Compile(fs, schema).value, row) <==> AllTrue(fs, schema, row))
  {
    if fs != [] {
      JoinAndMeans(fs, schema, row);
      FixIsFaithful(JoinAnd(fs).value, schema, row);
    }
  }

  lemma {:induction false} MentionsAnyHas(fs: seq<Expr>, f: Expr)
    requires f in fs
    ensures Mentions(f) <= MentionsAny(fs)
  {
    if f != fs[0] {
      MentionsAnyHas(fs[1..], f);
    }
  }

  // -------------------------------------------------------------------------
  // Longer rows
  // -------------------------------------------------------------------------

  lemma {:induction false} FindInPrefix(schema: Schema, more: Schema, col: Col)
    ensures col in schema ==> Find(schema + more, col) == Find(schema, col)
    ensures col !in schema && col !in more ==> Find(schema + more, col) == None
    ensures col !in schema && col in more ==> Find(schema + more, col) == Some(|schema| + Find(more, col).value)
  {
    if schema == [] {
      assert schema + more == more;
    } else {
      FindInPrefix(schema[1..], more, col);
      assert (schema + more)[1..] == schema[1..] + more;
    }
  }

  // Appending columns changes no expression over the columns that were there.
  lemma {:induction false} EvalOnLongerRow(e: Expr, schema: Schema, row: Row, more: Schema, tail: Row)
    requires |row| == |schema| && forall c :: c in Mentions(e) ==> c in schema
    ensures Eval(e, schema + more, row + tail) == Eval(e, schema, row)
    decreases e, 1
  {
    match e
    case Field(col, _) =>
      assert col in Mentions(e);
      FindInPrefix(schema, more, col);
    case Literal(_) =>
    case Node(_, children) => EvalAllOnLongerRow(children, schema, row, more, tail);
  }

  lemma {:induction false} EvalAllOnLongerRow(es: seq<Expr>, schema: Schema, row: Row, more: Schema, tail: Row)
    requires |row| == |schema| && forall c :: c in MentionsAny(es) ==> c in schema
    ensures EvalAll(es, schema + more, row + tail) == EvalAll(es, schema, row)
    decreases es, 0
  {
    if es != [] {
      EvalOnLongerRow(es[0], schema, row, more, tail);
      EvalAllOnLongerRow(es[1..], schema, row, more, tail);
    }
  }
}
