/**
  The traversals graphql-js's `visit` performs for the rules, written as
  functions that list what a visitor callback would see, in visit order.
  graphql-js visits a field's arguments, then its directives, then its
  selection set; an operation's variable definitions, directives and
  selection set; a fragment's directives and selection set.
 */
module Visit {
  import opened Wrappers
  import opened Ast

  /** A node above a directive, as graphql-js passes it in `ancestors` (outermost first). */
  datatype Ancestor =
    | AncestorOperation(op: Operation)
    | AncestorFragment(frag: Fragment)
    | AncestorSelection(sel: Selection)

  /** A directive together with the nodes above it; the last ancestor is the node it is attached to. */
  datatype DirectiveSite = DirectiveSite(directive: Directive, ancestors: seq<Ancestor>)

  function Sites(ds: seq<Directive>, ancestors: seq<Ancestor>): (r: seq<DirectiveSite>)
    ensures |r| == |ds|
    ensures forall i :: 0 <= i < |ds| ==> r[i] == DirectiveSite(ds[i], ancestors)
  {
    seq(|ds|, i requires 0 <= i < |ds| => DirectiveSite(ds[i], ancestors))
  }

  /** The child selections of a selection; a fragment spread has none. */
  function Children(s: Selection): seq<Selection> {
    match s
    case Field(_, _, _, _, children, _) => children
    case FragmentSpread(_, _) => []
    case InlineFragment(_, _, children) => children
  }

  /** Every directive under a selection set, with its ancestors, in visit order. */
  function DirectivesInSelections(sels: seq<Selection>, ancestors: seq<Ancestor>): seq<DirectiveSite>
    decreases sels
  {
    if |sels| == 0 then []
    else
      var here := ancestors + [AncestorSelection(sels[0])];
      (match sels[0]
       case Field(_, _, _, ds, children, _) => Sites(ds, here) + DirectivesInSelections(children, here)
       case FragmentSpread(_, ds) => Sites(ds, here)
       case InlineFragment(_, ds, children) => Sites(ds, here) + DirectivesInSelections(children, here))
      + DirectivesInSelections(sels[1..], ancestors)
  }

  /** Every directive of a definition, with its ancestors, in visit order. */
  function DirectivesInDefinition(def: Definition): seq<DirectiveSite> {
    match def
    case OperationDefinition(op) =>
      Sites(op.directives, [AncestorOperation(op)]) + DirectivesInSelections(op.selections, [AncestorOperation(op)])
    case FragmentDefinition(f) =>
      Sites(f.directives, [AncestorFragment(f)]) + DirectivesInSelections(f.selections, [AncestorFragment(f)])
  }

  /** Every directive of a document, with its ancestors, in visit order. */
  function DirectivesInDocument(defs: seq<Definition>): seq<DirectiveSite> {
    if |defs| == 0 then [] else DirectivesInDefinition(defs[0]) + DirectivesInDocument(defs[1..])
  }

  /** The reports of a visitor that checks each of `sites` in turn (directives or fields), in visiting order. */
  function ReportsAt<T>(check: T -> seq<Diagnostic>, sites: seq<T>): (r: seq<Diagnostic>)
    ensures forall d :: d in r <==> exists i :: 0 <= i < |sites| && d in check(sites[i])
  {
    if |sites| == 0 then []
    else
      var rest := ReportsAt(check, sites[1..]);
      assert forall i :: 1 <= i < |sites| ==> sites[i] == sites[1..][i - 1];
      assert forall i :: 0 <= i < |sites[1..]| ==> sites[1..][i] == sites[i + 1];
      check(sites[0]) + rest
  }

  /** A report or none, as a list of reports. */
  function AsReports(d: Option<Diagnostic>): seq<Diagnostic> {
    if d.Some? then [d.value] else []
  }

  /**
    The reports of a `forEach` whose callback reports at most once per
    element: one report per element its check rejects, and nothing else.
   */
  function ReportsOf<T>(check: T -> Option<Diagnostic>, xs: seq<T>): (r: seq<Diagnostic>)
    ensures |r| <= |xs|
    ensures forall d :: d in r <==> exists i :: 0 <= i < |xs| && check(xs[i]) == Some(d)
  {
    if |xs| == 0 then []
    else
      var rest := ReportsOf(check, xs[1..]);
      assert forall i :: 1 <= i < |xs| ==> xs[i] == xs[1..][i - 1];
      assert forall i :: 0 <= i < |xs[1..]| ==> xs[1..][i] == xs[i + 1];
      AsReports(check(xs[0])) + rest
  }

  /** Every field under a selection set, in the order `Field.enter` sees them (pre-order). */
  function FieldsInSelections(sels: seq<Selection>): (r: seq<Selection>)
    ensures forall f :: f in r ==> f.Field?
    decreases sels
  {
    if |sels| == 0 then []
    else
      (match sels[0]
       case Field(_, _, _, _, children, _) => [sels[0]] + FieldsInSelections(children)
       case FragmentSpread(_, _) => []
       case InlineFragment(_, _, children) => FieldsInSelections(children))
      + FieldsInSelections(sels[1..])
  }

  function SelectionsOf(def: Definition): seq<Selection> {
    match def
    case OperationDefinition(op) => op.selections
    case FragmentDefinition(f) => f.selections
  }

  /** Every field of a document, in visit order. */
  function FieldsInDocument(defs: seq<Definition>): (r: seq<Selection>)
    ensures forall f :: f in r ==> f.Field?
  {
    if |defs| == 0 then [] else FieldsInSelections(SelectionsOf(defs[0])) + FieldsInDocument(defs[1..])
  }

  /** Every `Variable` node of a value, in visit order. */
  function VariablesInValue(v: Value): (r: seq<Value>)
    ensures forall x :: x in r ==> x.Variable?
    decreases v, 1
  {
    match v
    case Variable(_, _) => [v]
    case ListValue(items) => VariablesInValues(items)
    case ObjectValue(fields) => VariablesInFields(fields)
    case _ => []
  }

  function VariablesInValues(vs: seq<Value>): (r: seq<Value>)
    ensures forall x :: x in r ==> x.Variable?
    decreases vs, 0
  {
    if |vs| == 0 then [] else VariablesInValue(vs[0]) + VariablesInValues(vs[1..])
  }

  function VariablesInFields(fs: seq<ObjectField>): (r: seq<Value>)
    ensures forall x :: x in r ==> x.Variable?
    decreases fs, 0
  {
    if |fs| == 0 then [] else VariablesInValue(fs[0].value) + VariablesInFields(fs[1..])
  }

  function VariablesInArguments(args: seq<Argument>): (r: seq<Value>)
    ensures forall x :: x in r ==> x.Variable?
  {
    if |args| == 0 then [] else VariablesInValue(args[0].value) + VariablesInArguments(args[1..])
  }

  function VariablesInDirectives(ds: seq<Directive>): (r: seq<Value>)
    ensures forall x :: x in r ==> x.Variable?
  {
    if |ds| == 0 then [] else VariablesInArguments(ds[0].args) + VariablesInDirectives(ds[1..])
  }

  /** Every `Variable` node under a selection set, in visit order. */
  function VariablesInSelections(sels: seq<Selection>): (r: seq<Value>)
    ensures forall x :: x in r ==> x.Variable?
    decreases sels
  {
    if |sels| == 0 then []
    else
      (match sels[0]
       case Field(_, _, args, ds, children, _) =>
         VariablesInArguments(args) + VariablesInDirectives(ds) + VariablesInSelections(children)
       case FragmentSpread(_, ds) => VariablesInDirectives(ds)
       case InlineFragment(_, ds, children) => VariablesInDirectives(ds) + VariablesInSelections(children))
      + VariablesInSelections(sels[1..])
  }

  /** graphql-js's `getVariableUsages` on a definition: every variable outside the variable definitions. */
  function VariablesInDefinition(def: Definition): (r: seq<Value>)
    ensures forall x :: x in r ==> x.Variable?
  {
    match def
    case OperationDefinition(op) => VariablesInDirectives(op.directives) + VariablesInSelections(op.selections)
    case FragmentDefinition(f) => VariablesInDirectives(f.directives) + VariablesInSelections(f.selections)
  }

  /** The names of a list of `Variable` nodes. */
  function VariableNames(vs: seq<Value>): (names: set<string>)
    ensures forall x :: x in vs && x.Variable? ==> x.name in names
    ensures forall n :: n in names ==> exists x :: x in vs && x.Variable? && x.name == n
  {
    set x | x in vs && x.Variable? :: x.name
  }
}
