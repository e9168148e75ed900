// Filters a table iterator applies itself: comparisons of a column with literals.

module Selectors {
  import opened Objects
  import opened Expressions
  import opened Relations
  import opened Layout
  import opened ProductRows

  // The values of one comparison. A row matches one of them.
  type Selector = seq<Value>

  // The comparisons of each column. A row matches all of them.
  type Selection = map<Column, seq<Selector>>

  function Of(s: Selection, name: Column): seq<Selector> {
    if name in s then s[name] else []
  }

  function Add(s: Selection, name: Column, selector: Selector): Selection {
    s[name := Of(s, name) + [selector]]
  }

  // -------------------------------------------------------------------------
  // Which filters can be selectors
  // -------------------------------------------------------------------------

  predicate IsColumn(e: Expr, table: Table) {
    e.Field? && e.col.table == table && e.col.name in Columns(table)
  }

  predicate AllLiterals(es: seq<Expr>) {
    forall i :: 0 <= i < |es| ==> es[i].Literal?
  }

  predicate CanHandleEquals(f: Expr, table: Table) {
    f.Node? && f.op.EqualsOp? && |f.children| == 2 &&
    ((IsColumn(f.children[0], table) && f.children[1].Literal?) || (f.children[0].Literal? && IsColumn(f.children[1], table)))
  }

  predicate CanHandleIn(f: Expr, table: Table) {
    f.Node? && f.op.InOp? && |f.children| > 0 && IsColumn(f.children[0], table) && AllLiterals(f.children[1..])
  }

  function Literals(es: seq<Expr>): (vs: seq<Value>)
    requires AllLiterals(es)
    ensures |vs| == |es|
    ensures forall i :: 0 <= i < |es| ==> vs[i] == es[i].value
  {
    if es == [] then [] else [es[0].value] + Literals(es[1..])
  }

  // The column and the values of a filter that can be handled.
  function Handled(f: Expr, table: Table): Option<(Column, Selector)> {
    if CanHandleEquals(f, table) then
      if f.children[0].Field? then Some((f.children[0].col.name, [f.children[1].value]))
      else Some((f.children[1].col.name, [f.children[0].value]))
    else if CanHandleIn(f, table) then Some((f.children[0].col.name, Literals(f.children[1..])))
    else None
  }

  // The value a row of the table has in a column.
  function At(table: Table, row: Row, name: Column): Value {
    ValueOf(SchemaOf(table), row, Col(table, name))
  }

  lemma {:induction false} EvalLiterals(es: seq<Expr>, schema: Schema, row: Row)
    requires AllLiterals(es)
    ensures EvalAll(es, schema, row) == Literals(es)
  {
    if es != [] {
      EvalLiterals(es[1..], schema, row);
    }
  }

  // A handled filter says that the column has one of the values.
  lemma HandledMeans(f: Expr, table: Table, row: Row)
    requires Handled(f, table).Some?
    ensures True(f, SchemaOf(table), row) <==> At(table, row, Handled(f, table).value.0) in Handled(f, table).value.1
  {
    var schema, es := SchemaOf(table), f.children;
    if CanHandleEquals(f, table) {
      assert es == [es[0], es[1]];
      EvalPair(es[0], es[1], schema, row);
    } else {
      EvalLiterals(es[1..], schema, row);
      assert EvalAll(es, schema, row) == [Eval(es[0], schema, row)] + EvalAll(es[1..], schema, row);
      assert EvalAll(es, schema, row)[1..] == Literals(es[1..]);
    }
  }

  // -------------------------------------------------------------------------
  // Classifying filters
  // -------------------------------------------------------------------------

  predicate Selects(f: Expr, table: Table, names: set<Column>) {
    Handled(f, table).Some? && Handled(f, table).value.0 in names
  }

  function Classify(fs: seq<Expr>, table: Table, names: set<Column>): (Selection, seq<Expr>) {
    if fs == [] then (map[], [])
    else
      var n := |fs| - 1;
      var (s, conditions) := Classify(fs[..n], table, names);
      if Selects(fs[n], table, names) then
        var (name, selector) := Handled(fs[n], table).value;
        (Add(s, name, selector), conditions)
      else (s, conditions + [fs[n]])
  }

  predicate InAll(v: Value, selectors: seq<Selector>) {
    forall i :: 0 <= i < |selectors| ==> v in selectors[i]
  }

  predicate Matches(s: Selection, table: Table, row: Row) {
    forall name :: name in s ==> InAll(At(table, row, name), s[name])
  }

  lemma OneMoreSelector(v: Value, selectors: seq<Selector>, selector: Selector)
    ensures InAll(v, selectors + [selector]) <==> InAll(v, selectors) && v in selector
  {
    var more := selectors + [selector];
    assert more[|selectors|] == selector && forall i :: 0 <= i < |selectors| ==> more[i] == selectors[i];
  }

  lemma AddMatches(s: Selection, name: Column, selector: Selector, table: Table, row: Row)
    ensures Matches(Add(s, name, selector), table, row) <==> Matches(s, table, row) && At(table, row, name) in selector
  {
    var added := Add(s, name, selector);
    OneMoreSelector(At(table, row, name), Of(s, name), selector);
    if Matches(added, table, row) {
      forall other | other in s ensures InAll(At(table, row, other), s[other]) {
        assert InAll(At(table, row, other), added[other]);
      }
    }
  }

  // Splitting the filters into selectors and conditions changes nothing.
  lemma {:induction false} ClassifyIsExact(fs: seq<Expr>, table: Table, names: set<Column>, row: Row)
    ensures var (s, conditions) := Classify(fs, table, names);
            AllTrue(fs, SchemaOf(table), row) <==> Matches(s, table, row) && AllTrue(conditions, SchemaOf(table), row)
  {
    if fs != [] {
      var n := |fs| - 1;
      var schema, f := SchemaOf(table), fs[n];
      var (s, conditions) := Classify(fs[..n], table, names);
      ClassifyIsExact(fs[..n], table, names, row);
      assert fs == fs[..n] + [f];
      AllTrueAppend(fs[..n], [f], schema, row);
      if Selects(f, table, names) {
        HandledMeans(f, table, row);
        AddMatches(s, Handled(f, table).value.0, Handled(f, table).value.1, table, row);
      } else {
        AllTrueAppend(conditions, [f], schema, row);
      }
    }
  }

  // Only the named columns have selectors.
  lemma {:induction false} ClassifyNames(fs: seq<Expr>, table: Table, names: set<Column>)
    ensures Classify(fs, table, names).0.Keys <= names
  {
    if fs != [] {
      ClassifyNames(fs[..|fs| - 1], table, names);
    }
  }

  method ClassifyFilters(fs: seq<Expr>, table: Table, names: set<Column>)
    returns (selectors: Selection, conditions: seq<Expr>)
    ensures (selectors, conditions) == Classify(fs, table, names)
  {
    selectors, conditions := map[], [];
    for i := 0 to |fs|
      invariant (selectors, conditions) == Classify(fs[..i], table, names)
    {
      assert fs[..i + 1][..i] == fs[..i];
      var handled := Handled(fs[i], table);
      if handled.Some? && handled.value.0 in names {
        selectors := Add(selectors, handled.value.0, handled.value.1);
      } else {
        conditions := conditions + [fs[i]];
      }
    }
    assert fs[..|fs|] == fs;
  }

  // -------------------------------------------------------------------------
  // The values an iterator gets
  // -------------------------------------------------------------------------

  predicate AllEqual(selectors: seq<Selector>) {
    forall i :: 0 <= i < |selectors| ==> selectors[i] == selectors[0]
  }

  method IsValid(selectors: seq<Selector>) returns (valid: bool)
    ensures valid <==> AllEqual(selectors)
  {
    if |selectors| > 1 {
      var first := selectors[0];
      for i := 1 to |selectors|
        invariant forall k :: 0 <= k < i ==> selectors[k] == first
      {
        if selectors[i] != first {
          return false;
        }
      }
    }
    return true;
  }

  // No values stand for no restriction.
  function TextValues(selectors: seq<Selector>): Selector {
    if selectors == [] || !AllEqual(selectors) then [] else selectors[0]
  }

  predicate Allows(values: Selector, v: Value) {
    values == [] || v in values
  }

  lemma {:induction false} SomeValueIsMissing(values: Selector) returns (n: nat)
    ensures forall m :: m >= n ==> Number(m) !in values
  {
    n := 0;
    if values != [] {
      n := SomeValueIsMissing(values[1..]);
      if values[0].Number? && values[0].n >= n {
        n := values[0].n + 1;
      }
    }
  }

  // The values restrict a column as its selectors do exactly when the selectors are all equal and not
  // empty. Otherwise, contradictory selectors included, they do not restrict it at all.
  lemma TextValuesAreExactIff(selectors: seq<Selector>)
    ensures (forall v :: Allows(TextValues(selectors), v) <==> InAll(v, selectors))
            <==> selectors == [] || (AllEqual(selectors) && selectors[0] != [])
  {
    if selectors != [] && !(AllEqual(selectors) && selectors[0] != []) {
      assert TextValues(selectors) == [];
      var n := SomeValueIsMissing(selectors[0]);
      assert Number(n) !in selectors[0];
      assert Allows(TextValues(selectors), Number(n));
    }
  }

  // -------------------------------------------------------------------------
  // Which filters are taken
  // -------------------------------------------------------------------------

  // The filter compares the column with one value, whichever side it is on.
  ghost predicate ComparesValue(f: Expr, c: Col) {
    exists i, v :: f == Equals(Field(c, i), Literal(v)) || f == Equals(Literal(v), Field(c, i))
  }

  // The filter looks the column up among values.
  ghost predicate LooksUp(f: Expr, c: Col) {
    exists i, es :: IsLookup(f, c, i, es)
  }

  ghost predicate IsLookup(f: Expr, c: Col, i: nat, es: seq<Expr>) {
    f == Node(InOp, [Field(c, i)] + es) && forall e :: e in es ==> e.Literal?
  }

  lemma HandledCompares(f: Expr, table: Table)
    requires CanHandleEquals(f, table)
    ensures var name := Handled(f, table).value.0; name in Columns(table) && ComparesValue(f, Col(table, name))
  {
    var l, r := f.children[0], f.children[1];
    assert f.children == [l, r];
    if l.Field? {
      assert f == Equals(Field(l.col, l.index), Literal(r.value));
    } else {
      assert f == Equals(Literal(l.value), Field(r.col, r.index));
    }
  }

  lemma ComparedIsHandled(f: Expr, table: Table, name: Column, i: nat, v: Value)
    requires name in Columns(table)
    requires f.Node? && f.op == EqualsOp
    requires f.children == [Field(Col(table, name), i), Literal(v)] || f.children == [Literal(v), Field(Col(table, name), i)]
    ensures CanHandleEquals(f, table) && Handled(f, table) == Some((name, [v]))
  {}

  lemma ValueIff(f: Expr, table: Table, name: Column)
    ensures CanHandleEquals(f, table) && Handled(f, table).value.0 == name
            <==> name in Columns(table) && ComparesValue(f, Col(table, name))
  {
    if CanHandleEquals(f, table) {
      HandledCompares(f, table);
    }
    if name in Columns(table) && ComparesValue(f, Col(table, name)) {
      var i, v :| f == Equals(Field(Col(table, name), i), Literal(v)) || f == Equals(Literal(v), Field(Col(table, name), i));
      ComparedIsHandled(f, table, name, i, v);
    }
  }

  lemma LookupIff(f: Expr, table: Table, name: Column)
    ensures CanHandleIn(f, table) && f.children[0].col.name == name
            <==> name in Columns(table) && LooksUp(f, Col(table, name))
  {
    if CanHandleIn(f, table) && f.children[0].col.name == name {
      var i, es := f.children[0].index, f.children[1..];
      assert f.children == [Field(Col(table, name), i)] + es;
      assert IsLookup(f, Col(table, name), i, es);
    }
    if i, es :| IsLookup(f, Col(table, name), i, es) {
      assert ([Field(Col(table, name), i)] + es)[1..] == es;
    }
  }

  // A filter is a selector of a column exactly if it compares that column of the table with literals.
  lemma HandledIff(f: Expr, table: Table, name: Column)
    ensures Handled(f, table).Some? && Handled(f, table).value.0 == name
            <==> name in Columns(table) && (ComparesValue(f, Col(table, name)) || LooksUp(f, Col(table, name)))
  {
    ValueIff(f, table, name);
    LookupIff(f, table, name);
  }

  // Each filter is taken as a selector of its column or left as a condition, and nothing else is.
  lemma {:induction false} ClassifyPlaces(fs: seq<Expr>, table: Table, names: set<Column>, f: Expr)
    ensures var (s, conditions) := Classify(fs, table, names);
            && (f in fs && Selects(f, table, names) ==>
                  var (name, selector) := Handled(f, table).value; name in s && selector in s[name])
            && (f in conditions <==> f in fs && !Selects(f, table, names))
  {
    if fs != [] {
      var n := |fs| - 1;
      assert fs == fs[..n] + [fs[n]];
      ClassifyPlaces(fs[..n], table, names, f);
    }
  }
}
