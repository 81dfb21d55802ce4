/**
  Relay's fragment arguments: reading `@argumentDefinitions`, collecting the
  variable usages of a definition (with the `@arguments` special case), and
  pairing every usage, through the fragments an operation references, with
  the definition that governs it.
 */
module ArgumentDefinitions {
  import opened Wrappers
  import opened Ast
  import opened Schema
  import opened Visit
  import opened Documents
  import opened JsObjects
  import TypeSyntax

  /**
    A variable definition of an operation (`node` is a `VariableNode`) or an
    argument definition of a fragment (`node` is a `NameNode`).
   */
  datatype VarOrArgDefinition = VarOrArgDefinition(
    node: Node, schemaType: Option<TypeRef>, typeNode: Option<TypeRef>, defaultValue: Option<Value>)

  /** `isFragmentDefinedVariable`. */
  predicate IsFragmentDefinedVariable(d: VarOrArgDefinition) {
    d.node.NameNode?
  }

  function LastArgumentDefinitions(sites: seq<DirectiveSite>): (r: Option<nat>)
    ensures r.None? <==> forall i :: 0 <= i < |sites| ==> sites[i].directive.name != "argumentDefinitions"
    ensures r.Some? ==> r.value < |sites| && sites[r.value].directive.name == "argumentDefinitions"
                        && forall j :: r.value < j < |sites| ==> sites[j].directive.name != "argumentDefinitions"
  {
    if |sites| == 0 then None
    else if sites[|sites| - 1].directive.name == "argumentDefinitions" then Some(|sites| - 1)
    else LastArgumentDefinitions(sites[..|sites| - 1])
  }

  /**
    `getArgumentDefinitions`: the visitor looks at every directive of the
    fragment, at any depth, and the last `@argumentDefinitions` it meets wins.
   */
  function GetArgumentDefinitions(f: Fragment): (r: Option<seq<Argument>>)
    ensures var sites := DirectivesInDefinition(FragmentDefinition(f));
            (r.None? <==> forall i :: 0 <= i < |sites| ==> sites[i].directive.name != "argumentDefinitions")
            && (r.Some? ==> exists i :: 0 <= i < |sites| && sites[i].directive.name == "argumentDefinitions"
                                        && r.value == sites[i].directive.args
                                        && forall j :: i < j < |sites| ==> sites[j].directive.name != "argumentDefinitions")
  {
    var sites := DirectivesInDefinition(FragmentDefinition(f));
    match LastArgumentDefinitions(sites)
    case None => None
    case Some(i) => Some(sites[i].directive.args)
  }

  /** The `type` of an argument definition: a string field that parses as a type reference. */
  function TypeNodeOf(v: Value): (r: Option<TypeRef>)
    ensures r.Some? <==> v.ObjectValue? && FirstField(v.fields, "type").Some?
                         && FirstField(v.fields, "type").value.value.StringValue?
                         && TypeSyntax.ParseType(FirstField(v.fields, "type").value.value.s).Success?
    ensures r.Some? ==> TypeSyntax.WellFormed(r.value)
                        && TypeSyntax.ParseType(FirstField(v.fields, "type").value.value.s) == Success(r.value)
  {
    if !v.ObjectValue? then None
    else match FirstField(v.fields, "type")
      case None => None
      case Some(field) =>
        if field.value.StringValue? then TypeSyntax.ParseType(field.value.s).ToOption() else None
  }

  /** The `defaultValue` of an argument definition: the first such field, whatever its value. */
  function DefaultValueOf(v: Value): (r: Option<Value>)
    ensures r.Some? <==> v.ObjectValue? && HasField(v.fields, "defaultValue")
    ensures r.Some? ==> exists i :: 0 <= i < |v.fields| && v.fields[i] == ObjectField("defaultValue", r.value)
                          && forall j :: 0 <= j < i ==> v.fields[j].name != "defaultValue"
  {
    if !v.ObjectValue? then None
    else match FirstField(v.fields, "defaultValue")
      case None => None
      case Some(field) => Some(field.value)
  }

  /** One argument definition, `name: {type: "...", defaultValue: ...}`. */
  function ArgumentDefinition(schema: Schema, arg: Argument): (d: VarOrArgDefinition)
    ensures d.node == NameNode(arg.name) && IsFragmentDefinedVariable(d)
    ensures d.typeNode == TypeNodeOf(arg.value) && d.defaultValue == DefaultValueOf(arg.value)
    ensures d.schemaType.Some? <==> d.typeNode.Some? && NamedTypeOf(d.typeNode.value) in schema.types
                                    && IsInputKind(schema.types[NamedTypeOf(d.typeNode.value)])
    ensures d.schemaType.Some? ==> d.schemaType == d.typeNode
  {
    var typeNode := TypeNodeOf(arg.value);
    var schemaType := if typeNode.Some? then ResolveInputType(schema, typeNode.value) else None;
    VarOrArgDefinition(NameNode(arg.name), schemaType, typeNode, DefaultValueOf(arg.value))
  }

  /** An argument definition whose type is written by printing a type reads that type back. */
  lemma ArgumentDefinitionTypeRoundTrip(schema: Schema, name: string, t: TypeRef, rest: seq<ObjectField>)
    requires TypeSyntax.WellFormed(t)
    ensures ArgumentDefinition(schema, Argument(name, ObjectValue([ObjectField("type", StringValue(TypeSyntax.Print(t)))] + rest))).typeNode
            == Some(t)
  {
    TypeSyntax.ParsePrintRoundTrip(t);
    var fields := [ObjectField("type", StringValue(TypeSyntax.Print(t)))] + rest;
    assert FirstField(fields, "type") == Some(fields[0]);
  }

  function ArgNames(args: seq<Argument>): set<string> {
    set i | 0 <= i < |args| :: args[i].name
  }

  /** `args[i]` is the last argument with its name. */
  predicate LastOfName(args: seq<Argument>, i: int)
    requires 0 <= i < |args|
  {
    forall j :: i < j < |args| ==> args[j].name != args[i].name
  }

  lemma ArgNamesSnoc(args: seq<Argument>)
    requires |args| > 0
    ensures ArgNames(args) == ArgNames(args[..|args| - 1]) + {args[|args| - 1].name}
  {
    var init := args[..|args| - 1];
    forall n | n in ArgNames(args) ensures n in ArgNames(init) + {args[|args| - 1].name} {
      var i :| 0 <= i < |args| && args[i].name == n;
      if i < |args| - 1 { assert init[i] == args[i]; }
    }
    forall n | n in ArgNames(init) ensures n in ArgNames(args) {
      var i :| 0 <= i < |init| && init[i].name == n;
      assert args[i] == init[i];
    }
  }

  /** The `reduce` over the definitions: a later definition of a name replaces an earlier one. */
  function DefinitionsMap(schema: Schema, args: seq<Argument>): (m: map<string, VarOrArgDefinition>)
    ensures m.Keys == ArgNames(args)
    ensures forall n :: n in m ==> m[n].node == NameNode(n)
  {
    if |args| == 0 then map[]
    else
      ArgNamesSnoc(args);
      DefinitionsMap(schema, args[..|args| - 1])[args[|args| - 1].name := ArgumentDefinition(schema, args[|args| - 1])]
  }

  /** Each name maps to the definition written last for it. */
  lemma {:induction false} DefinitionsMapLast(schema: Schema, args: seq<Argument>, i: int)
    requires 0 <= i < |args| && LastOfName(args, i)
    ensures DefinitionsMap(schema, args)[args[i].name] == ArgumentDefinition(schema, args[i])
  {
    var init := args[..|args| - 1];
    if i < |args| - 1 {
      assert init[i] == args[i] && args[i].name != args[|args| - 1].name;
      assert LastOfName(init, i) by {
        forall j | i < j < |init| ensures init[j].name != init[i].name {
          assert init[j] == args[j];
        }
      }
      DefinitionsMapLast(schema, init, i);
    }
  }

  /** The position of the last argument carrying a name the list defines. */
  function LastIndexOf(args: seq<Argument>, name: string): (i: int)
    requires name in ArgNames(args)
    ensures 0 <= i < |args| && args[i].name == name && LastOfName(args, i)
  {
    var init := args[..|args| - 1];
    if args[|args| - 1].name == name then
      |args| - 1
    else
      ArgNamesSnoc(args);
      var i := LastIndexOf(init, name);
      assert LastOfName(args, i) by {
        forall j | i < j < |args| ensures args[j].name != args[i].name {
          if j < |args| - 1 { assert init[j] == args[j]; }
        }
      }
      i
  }

  /** `getFragmentArgumentDefinitions`. */
  function GetFragmentArgumentDefinitions(schema: Schema, f: Fragment): (m: map<string, VarOrArgDefinition>)
    ensures GetArgumentDefinitions(f).None? ==> m == map[]
    ensures GetArgumentDefinitions(f).Some? ==> m == DefinitionsMap(schema, GetArgumentDefinitions(f).value)
    ensures forall n :: n in m ==> IsFragmentDefinedVariable(m[n])
  {
    match GetArgumentDefinitions(f)
    case None => map[]
    case Some(args) => DefinitionsMap(schema, args)
  }

  /** A variable usage: the `Variable` node, the input type expected there and the default value. */
  datatype VariableUsage = VariableUsage(node: VariableValue, typ: Option<TypeRef>, defaultValue: Option<Value>)

  type VariableValue = v: Value | v.Variable? witness Variable("", Site(None, None))

  /** The usages of plain variables, typed by where they are written. */
  function SiteUsages(vs: seq<Value>): (r: seq<VariableUsage>)
    requires forall x :: x in vs ==> x.Variable?
    ensures |r| == |vs|
    ensures forall i :: 0 <= i < |vs| ==> r[i] == VariableUsage(vs[i], vs[i].site.expectedType, vs[i].site.defaultValue)
  {
    seq(|vs|, i requires 0 <= i < |vs| => VariableUsage(vs[i], vs[i].site.expectedType, vs[i].site.defaultValue))
  }

  /** The arguments bound directly to a variable, in order. */
  function VariableArguments(args: seq<Argument>): (r: seq<Argument>)
    ensures forall a :: a in r <==> a in args && a.value.Variable?
    ensures |r| <= |args|
  {
    if |args| == 0 then []
    else (if args[0].value.Variable? then [args[0]] else []) + VariableArguments(args[1..])
  }

  /** The usage `@arguments(name: $x)` makes of `$x`: typed by the spread fragment's definition of `name`. */
  function BindingUsage(defs: map<string, VarOrArgDefinition>, a: Argument): (u: VariableUsage)
    requires a.value.Variable?
    ensures u.node == a.value
    ensures a.name in defs ==> u.typ == defs[a.name].schemaType && u.defaultValue == defs[a.name].defaultValue
    ensures a.name !in defs ==> u.typ.None? && u.defaultValue.None?
  {
    if a.name in defs then VariableUsage(a.value, defs[a.name].schemaType, defs[a.name].defaultValue)
    else VariableUsage(a.value, None, None)
  }

  /**
    The usages of `@arguments` on a spread: only arguments bound directly to
    a variable count; variables nested in a list or object are not usages.
   */
  function BindingUsages(defs: map<string, VarOrArgDefinition>, args: seq<Argument>): (r: seq<VariableUsage>)
    ensures var va := VariableArguments(args);
            |r| == |va| && forall i :: 0 <= i < |va| ==> r[i] == BindingUsage(defs, va[i])
  {
    var va := VariableArguments(args);
    seq(|va|, i requires 0 <= i < |va| => BindingUsage(defs, va[i]))
  }

  /**
    The usages one directive contributes. `spread` names the fragment when
    the directive sits on a spread. `@arguments` anywhere else, or on a spread
    of an unknown fragment, contributes nothing.
   */
  function DirectiveUsages(schema: Schema, doc: Document, d: Directive, spread: Option<string>): seq<VariableUsage> {
    if d.name != "arguments" then SiteUsages(VariablesInArguments(d.args))
    else match spread
      case None => []
      case Some(name) =>
        match GetFragment(doc, name)
        case None => []
        case Some(f) => BindingUsages(GetFragmentArgumentDefinitions(schema, f), d.args)
  }

  function DirectivesUsages(schema: Schema, doc: Document, ds: seq<Directive>, spread: Option<string>): seq<VariableUsage> {
    if |ds| == 0 then [] else DirectiveUsages(schema, doc, ds[0], spread) + DirectivesUsages(schema, doc, ds[1..], spread)
  }

  function UsagesInSelections(schema: Schema, doc: Document, sels: seq<Selection>): seq<VariableUsage>
    decreases sels
  {
    if |sels| == 0 then []
    else
      (match sels[0]
       case Field(_, _, args, ds, children, _) =>
         SiteUsages(VariablesInArguments(args)) + DirectivesUsages(schema, doc, ds, None)
         + UsagesInSelections(schema, doc, children)
       case FragmentSpread(name, ds) => DirectivesUsages(schema, doc, ds, Some(name))
       case InlineFragment(_, ds, children) =>
         DirectivesUsages(schema, doc, ds, None) + UsagesInSelections(schema, doc, children))
      + UsagesInSelections(schema, doc, sels[1..])
  }

  /** Relay's `getVariableUsages` on an operation or fragment; variable definitions are skipped. */
  function GetVariableUsages(schema: Schema, doc: Document, def: Definition): seq<VariableUsage> {
    match def
    case OperationDefinition(op) =>
      DirectivesUsages(schema, doc, op.directives, None) + UsagesInSelections(schema, doc, op.selections)
    case FragmentDefinition(f) =>
      DirectivesUsages(schema, doc, f.directives, None) + UsagesInSelections(schema, doc, f.selections)
  }

  lemma SiteUsagesAppend(a: seq<Value>, b: seq<Value>)
    requires forall x :: x in a ==> x.Variable?
    requires forall x :: x in b ==> x.Variable?
    ensures SiteUsages(a + b) == SiteUsages(a) + SiteUsages(b)
  {
  }

  lemma {:induction false} VariableArgumentsCollected(args: seq<Argument>, a: Argument)
    requires a in args && a.value.Variable?
    ensures a.value in VariablesInArguments(args)
  {
    if args[0] != a {
      VariableArgumentsCollected(args[1..], a);
    }
  }

  lemma {:induction false} DirectivesUsagesAreVariables(schema: Schema, doc: Document, ds: seq<Directive>, spread: Option<string>)
    ensures forall u :: u in DirectivesUsages(schema, doc, ds, spread) ==> u.node in VariablesInDirectives(ds)
  {
    if |ds| > 0 {
      DirectivesUsagesAreVariables(schema, doc, ds[1..], spread);
      var d := ds[0];
      forall u | u in DirectiveUsages(schema, doc, d, spread) ensures u.node in VariablesInArguments(d.args) {
        if d.name == "arguments" {
          var f := GetFragment(doc, spread.value).value;
          var defs := GetFragmentArgumentDefinitions(schema, f);
          var va := VariableArguments(d.args);
          var k :| 0 <= k < |va| && BindingUsages(defs, d.args)[k] == u;
          assert va[k] in va;
          VariableArgumentsCollected(d.args, va[k]);
        }
      }
    }
  }

  lemma {:induction false} UsagesInSelectionsAreVariables(schema: Schema, doc: Document, sels: seq<Selection>)
    ensures forall u :: u in UsagesInSelections(schema, doc, sels) ==> u.node in VariablesInSelections(sels)
    decreases sels
  {
    if |sels| > 0 {
      UsagesInSelectionsAreVariables(schema, doc, sels[1..]);
      match sels[0]
      case Field(_, _, args, ds, children, _) =>
        DirectivesUsagesAreVariables(schema, doc, ds, None);
        UsagesInSelectionsAreVariables(schema, doc, children);
      case FragmentSpread(name, ds) =>
        DirectivesUsagesAreVariables(schema, doc, ds, Some(name));
      case InlineFragment(_, ds, children) =>
        DirectivesUsagesAreVariables(schema, doc, ds, None);
        UsagesInSelectionsAreVariables(schema, doc, children);
    }
  }

  /** Every usage is one of the `Variable` nodes of the definition, outside its variable definitions. */
  lemma UsagesAreVariables(schema: Schema, doc: Document, def: Definition)
    ensures forall u :: u in GetVariableUsages(schema, doc, def) ==> u.node.Variable? && u.node in VariablesInDefinition(def)
  {
    match def
    case OperationDefinition(op) =>
      DirectivesUsagesAreVariables(schema, doc, op.directives, None);
      UsagesInSelectionsAreVariables(schema, doc, op.selections);
    case FragmentDefinition(f) =>
      DirectivesUsagesAreVariables(schema, doc, f.directives, None);
      UsagesInSelectionsAreVariables(schema, doc, f.selections);
  }

  predicate NoArgumentsDirective(sites: seq<DirectiveSite>) {
    forall s :: s in sites ==> s.directive.name != "arguments"
  }

  lemma {:induction false} PlainDirectivesUsages(schema: Schema, doc: Document, ds: seq<Directive>, spread: Option<string>)
    requires forall d :: d in ds ==> d.name != "arguments"
    ensures DirectivesUsages(schema, doc, ds, spread) == SiteUsages(VariablesInDirectives(ds))
  {
    if |ds| > 0 {
      PlainDirectivesUsages(schema, doc, ds[1..], spread);
      SiteUsagesAppend(VariablesInArguments(ds[0].args), VariablesInDirectives(ds[1..]));
    }
  }

  lemma SitesNames(ds: seq<Directive>, ancestors: seq<Ancestor>, rest: seq<DirectiveSite>)
    requires NoArgumentsDirective(Sites(ds, ancestors) + rest)
    ensures forall d :: d in ds ==> d.name != "arguments"
    ensures NoArgumentsDirective(rest)
  {
    forall d | d in ds ensures d.name != "arguments" {
      var k :| 0 <= k < |ds| && ds[k] == d;
      assert (Sites(ds, ancestors) + rest)[k] == DirectiveSite(d, ancestors);
    }
    forall s | s in rest ensures s.directive.name != "arguments" {
      assert s in Sites(ds, ancestors) + rest;
    }
  }

  lemma NoArgumentsSplit(a: seq<DirectiveSite>, b: seq<DirectiveSite>)
    requires NoArgumentsDirective(a + b)
    ensures NoArgumentsDirective(a) && NoArgumentsDirective(b)
  {
    forall s | s in a ensures s.directive.name != "arguments" {
      assert s in a + b;
    }
    forall s | s in b ensures s.directive.name != "arguments" {
      assert s in a + b;
    }
  }

  lemma {:induction false} PlainUsagesInSelections(schema: Schema, doc: Document, sels: seq<Selection>, ancestors: seq<Ancestor>)
    requires NoArgumentsDirective(DirectivesInSelections(sels, ancestors))
    ensures UsagesInSelections(schema, doc, sels) == SiteUsages(VariablesInSelections(sels))
    decreases sels, 1
  {
    if |sels| > 0 {
      match sels[0]
      case Field(_, _, _, _, _, _) => PlainUsagesField(schema, doc, sels, ancestors);
      case FragmentSpread(name, ds) =>
        var here := ancestors + [AncestorSelection(sels[0])];
        var restSites := DirectivesInSelections(sels[1..], ancestors);
        assert DirectivesInSelections(sels, ancestors) == Sites(ds, here) + restSites;
        SitesNames(ds, here, restSites);
        PlainDirectivesUsages(schema, doc, ds, Some(name));
        PlainUsagesInSelections(schema, doc, sels[1..], ancestors);
        SiteUsagesAppend(VariablesInDirectives(ds), VariablesInSelections(sels[1..]));
      case InlineFragment(_, _, _) => PlainUsagesInline(schema, doc, sels, ancestors);
    }
  }

  /** `PlainUsagesInSelections` when the first selection is a field. */
  lemma {:induction false} PlainUsagesField(schema: Schema, doc: Document, sels: seq<Selection>, ancestors: seq<Ancestor>)
    requires |sels| > 0 && sels[0].Field?
    requires NoArgumentsDirective(DirectivesInSelections(sels, ancestors))
    ensures UsagesInSelections(schema, doc, sels) == SiteUsages(VariablesInSelections(sels))
    decreases sels, 0
  {
    var args, ds, children := sels[0].args, sels[0].directives, sels[0].selections;
    var here := ancestors + [AncestorSelection(sels[0])];
    var restSites := DirectivesInSelections(sels[1..], ancestors);
    assert DirectivesInSelections(sels, ancestors)
           == Sites(ds, here) + (DirectivesInSelections(children, here) + restSites);
    SitesNames(ds, here, DirectivesInSelections(children, here) + restSites);
    NoArgumentsSplit(DirectivesInSelections(children, here), restSites);
    PlainDirectivesUsages(schema, doc, ds, None);
    PlainUsagesInSelections(schema, doc, children, here);
    PlainUsagesInSelections(schema, doc, sels[1..], ancestors);
    SiteUsagesAppend(VariablesInArguments(args), VariablesInDirectives(ds));
    SiteUsagesAppend(VariablesInArguments(args) + VariablesInDirectives(ds), VariablesInSelections(children));
    SiteUsagesAppend(VariablesInArguments(args) + VariablesInDirectives(ds) + VariablesInSelections(children),
                     VariablesInSelections(sels[1..]));
  }

  /** `PlainUsagesInSelections` when the first selection is an inline fragment. */
  lemma {:induction false} PlainUsagesInline(schema: Schema, doc: Document, sels: seq<Selection>, ancestors: seq<Ancestor>)
    requires |sels| > 0 && sels[0].InlineFragment?
    requires NoArgumentsDirective(DirectivesInSelections(sels, ancestors))
    ensures UsagesInSelections(schema, doc, sels) == SiteUsages(VariablesInSelections(sels))
    decreases sels, 0
  {
    var ds, children := sels[0].directives, sels[0].selections;
    var here := ancestors + [AncestorSelection(sels[0])];
    var restSites := DirectivesInSelections(sels[1..], ancestors);
    assert DirectivesInSelections(sels, ancestors)
           == Sites(ds, here) + (DirectivesInSelections(children, here) + restSites);
    SitesNames(ds, here, DirectivesInSelections(children, here) + restSites);
    NoArgumentsSplit(DirectivesInSelections(children, here), restSites);
    PlainDirectivesUsages(schema, doc, ds, None);
    PlainUsagesInSelections(schema, doc, children, here);
    PlainUsagesInSelections(schema, doc, sels[1..], ancestors);
    SiteUsagesAppend(VariablesInDirectives(ds), VariablesInSelections(children));
    SiteUsagesAppend(VariablesInDirectives(ds) + VariablesInSelections(children), VariablesInSelections(sels[1..]));
  }

  /**
    Without `@arguments`, the usages of a definition are exactly its variables
    in visit order, each typed by the position it is written in.
   */
  lemma PlainUsages(schema: Schema, doc: Document, def: Definition)
    requires NoArgumentsDirective(DirectivesInDefinition(def))
    ensures GetVariableUsages(schema, doc, def) == SiteUsages(VariablesInDefinition(def))
  {
    match def
    case OperationDefinition(op) =>
      var a := [AncestorOperation(op)];
      SitesNames(op.directives, a, DirectivesInSelections(op.selections, a));
      PlainDirectivesUsages(schema, doc, op.directives, None);
      PlainUsagesInSelections(schema, doc, op.selections, a);
      SiteUsagesAppend(VariablesInDirectives(op.directives), VariablesInSelections(op.selections));
    case FragmentDefinition(f) =>
      var a := [AncestorFragment(f)];
      SitesNames(f.directives, a, DirectivesInSelections(f.selections, a));
      PlainDirectivesUsages(schema, doc, f.directives, None);
      PlainUsagesInSelections(schema, doc, f.selections, a);
      SiteUsagesAppend(VariablesInDirectives(f.directives), VariablesInSelections(f.selections));
  }

  function VariableDefinitionOf(schema: Schema, vd: VariableDefinition): (d: VarOrArgDefinition)
    ensures d.node == VariableNode(vd.name) && !IsFragmentDefinedVariable(d)
    ensures d.typeNode == Some(vd.typ) && d.defaultValue == vd.defaultValue
    ensures d.schemaType.Some? <==> NamedTypeOf(vd.typ) in schema.types && IsInputKind(schema.types[NamedTypeOf(vd.typ)])
    ensures d.schemaType.Some? ==> d.schemaType == Some(vd.typ)
  {
    VarOrArgDefinition(VariableNode(vd.name), ResolveInputType(schema, vd.typ), Some(vd.typ), vd.defaultValue)
  }

  /** An operation's variable definitions by name; a later definition replaces an earlier one. */
  function OperationVariables(schema: Schema, vds: seq<VariableDefinition>): (m: map<string, VarOrArgDefinition>)
    ensures m.Keys == VarNames(vds)
    ensures forall n :: n in m ==> m[n].node == VariableNode(n)
  {
    if |vds| == 0 then map[]
    else
      var init := vds[..|vds| - 1];
      var last := vds[|vds| - 1];
      assert VarNames(vds) == VarNames(init) + {last.name} by {
        forall n | n in VarNames(vds) ensures n in VarNames(init) + {last.name} {
          var i :| 0 <= i < |vds| && vds[i].name == n;
          if i < |vds| - 1 { assert init[i] == vds[i]; }
        }
        forall n | n in VarNames(init) ensures n in VarNames(vds) {
          var i :| 0 <= i < |init| && init[i].name == n;
          assert vds[i] == init[i];
        }
      }
      OperationVariables(schema, init)[last.name := VariableDefinitionOf(schema, last)]
  }

  function VarNames(vds: seq<VariableDefinition>): set<string> {
    set i | 0 <= i < |vds| :: vds[i].name
  }

  lemma {:induction false} OperationVariablesLast(schema: Schema, vds: seq<VariableDefinition>, i: int)
    requires 0 <= i < |vds| && forall j :: i < j < |vds| ==> vds[j].name != vds[i].name
    ensures OperationVariables(schema, vds)[vds[i].name] == VariableDefinitionOf(schema, vds[i])
  {
    if i < |vds| - 1 {
      var init := vds[..|vds| - 1];
      assert init[i] == vds[i];
      forall j | i < j < |init| ensures init[j].name != init[i].name {
        assert init[j] == vds[j];
      }
      OperationVariablesLast(schema, init, i);
    }
  }

  /** The definitions in scope at the root: an operation's variables or a fragment's arguments. */
  function RootVariables(schema: Schema, def: Definition): (m: map<string, VarOrArgDefinition>)
    ensures def.OperationDefinition? ==> forall n :: n in m ==> m[n].node == VariableNode(n)
    ensures def.FragmentDefinition? ==> m == GetFragmentArgumentDefinitions(schema, def.frag)
  {
    match def
    case OperationDefinition(op) => OperationVariables(schema, op.variableDefinitions)
    case FragmentDefinition(f) => GetFragmentArgumentDefinitions(schema, f)
  }

  /**
    `argumentDefs[name] ? argumentDefs[name] : rootVariables[name]`: in a
    referenced fragment, whatever the fragment's own dictionary answers
    shadows the operation's variable, an inherited member included.
   */
  function FragmentOrRoot(own: map<string, VarOrArgDefinition>, root: map<string, VarOrArgDefinition>, proto: Prototype, name: string): (r: Property<VarOrArgDefinition>)
    ensures name in own ==> r == Own(own[name])
    ensures name !in own && proto == ObjectPrototype && name in ObjectPrototypeMembers ==> r == Inherited(name)
    ensures name !in own && (proto == NullPrototype || name !in ObjectPrototypeMembers) ==> r == Get(root, proto, name)
  {
    var p := Get(own, proto, name);
    if p.Undefined? then Get(root, proto, name) else p
  }

  /** A usage paired with what the dictionary lookup gave for its name; `usingFragmentName` is the fragment it occurs in, if not the root. */
  datatype UsageWithDefinition = UsageWithDefinition(
    usage: VariableUsage, definition: Property<VarOrArgDefinition>, usingFragmentName: Option<string>)

  function RootTagged(root: map<string, VarOrArgDefinition>, proto: Prototype, us: seq<VariableUsage>): (r: seq<UsageWithDefinition>)
    ensures |r| == |us|
    ensures forall i :: 0 <= i < |us| ==> r[i] == UsageWithDefinition(us[i], Get(root, proto, us[i].node.name), None)
  {
    seq(|us|, i requires 0 <= i < |us| => UsageWithDefinition(us[i], Get(root, proto, us[i].node.name), None))
  }

  function FragmentTagged(schema: Schema, doc: Document, root: map<string, VarOrArgDefinition>, proto: Prototype, f: Fragment): (r: seq<UsageWithDefinition>)
    ensures var us := GetVariableUsages(schema, doc, FragmentDefinition(f));
            var own := GetFragmentArgumentDefinitions(schema, f);
            |r| == |us| && forall i :: 0 <= i < |us| ==>
              r[i] == UsageWithDefinition(us[i], FragmentOrRoot(own, root, proto, us[i].node.name), Some(f.name))
  {
    var us := GetVariableUsages(schema, doc, FragmentDefinition(f));
    var own := GetFragmentArgumentDefinitions(schema, f);
    seq(|us|, i requires 0 <= i < |us| => UsageWithDefinition(us[i], FragmentOrRoot(own, root, proto, us[i].node.name), Some(f.name)))
  }

  function FragmentsTagged(schema: Schema, doc: Document, root: map<string, VarOrArgDefinition>, proto: Prototype, fs: seq<Fragment>): (r: seq<UsageWithDefinition>)
    ensures forall x :: x in r <==> exists f :: f in fs && x in FragmentTagged(schema, doc, root, proto, f)
    ensures |fs| == 0 ==> r == []
    ensures |fs| > 0 ==> var h := FragmentTagged(schema, doc, root, proto, fs[0]);
                         |h| <= |r| && r[..|h|] == h && r[|h|..] == FragmentsTagged(schema, doc, root, proto, fs[1..])
  {
    if |fs| == 0 then []
    else
      var rest := FragmentsTagged(schema, doc, root, proto, fs[1..]);
      assert forall f :: f in fs <==> f == fs[0] || f in fs[1..];
      FragmentTagged(schema, doc, root, proto, fs[0]) + rest
  }

  /** The fragments whose usages a definition inherits: those an operation references; none for a fragment. */
  function InheritedFragments(doc: Document, def: Definition): seq<Fragment> {
    match def
    case OperationDefinition(op) => RecursivelyReferencedFragments(doc, op)
    case FragmentDefinition(_) => []
  }

  /**
    `getRecursiveVariableUsagesWithRelayInfo`: the root's usages, each with
    what the root's dictionary answers for its name, then the usages of every
    fragment the operation references, fragment after fragment in the order
    they are referenced (`InheritedUsagesSound`). `proto` is the
    prototype of the dictionaries; the code builds them as `{}`, that is
    `ObjectPrototype`.
   */
  function GetRecursiveVariableUsagesWithRelayInfo(schema: Schema, doc: Document, def: Definition, proto: Prototype): (r: seq<UsageWithDefinition>)
    ensures var us := GetVariableUsages(schema, doc, def);
            var root := RootVariables(schema, def);
            |us| <= |r|
            && (forall i :: 0 <= i < |us| ==> r[i] == UsageWithDefinition(us[i], Get(root, proto, us[i].node.name), None))
            && (def.FragmentDefinition? ==> |r| == |us|)
    ensures r[|GetVariableUsages(schema, doc, def)|..]
            == FragmentsTagged(schema, doc, RootVariables(schema, def), proto, InheritedFragments(doc, def))
  {
    var root := RootVariables(schema, def);
    RootTagged(root, proto, GetVariableUsages(schema, doc, def)) + FragmentsTagged(schema, doc, root, proto, InheritedFragments(doc, def))
  }

  /** `x` is a usage inside fragment `f`, paired with what `f`'s dictionary, or else the root's, answers. */
  predicate FromFragment(schema: Schema, doc: Document, root: map<string, VarOrArgDefinition>, proto: Prototype, f: Fragment, x: UsageWithDefinition) {
    x.usingFragmentName == Some(f.name)
    && x.usage in GetVariableUsages(schema, doc, FragmentDefinition(f))
    && x.definition == FragmentOrRoot(GetFragmentArgumentDefinitions(schema, f), root, proto, x.usage.node.name)
  }

  lemma FragmentTaggedFrom(schema: Schema, doc: Document, root: map<string, VarOrArgDefinition>, proto: Prototype, f: Fragment)
    ensures forall x :: x in FragmentTagged(schema, doc, root, proto, f) ==> FromFragment(schema, doc, root, proto, f, x)
  {
    var ft := FragmentTagged(schema, doc, root, proto, f);
    var fus := GetVariableUsages(schema, doc, FragmentDefinition(f));
    forall x | x in ft ensures FromFragment(schema, doc, root, proto, f, x) {
      var k :| 0 <= k < |ft| && ft[k] == x;
      assert fus[k] in fus;
    }
  }

  /**
    Past the root's usages, every entry is a usage of a fragment the operation
    references, paired with the fragment's own argument of that name if there
    is one, with the inherited member if the name is an `Object.prototype`
    member of a `{}`, and otherwise with the operation's variable.
   */
  lemma InheritedUsagesSound(schema: Schema, doc: Document, op: Operation, proto: Prototype, i: int)
    requires var def := OperationDefinition(op);
             |GetVariableUsages(schema, doc, def)| <= i < |GetRecursiveVariableUsagesWithRelayInfo(schema, doc, def, proto)|
    ensures var def := OperationDefinition(op);
            exists f :: f in RecursivelyReferencedFragments(doc, op)
                        && FromFragment(schema, doc, RootVariables(schema, def), proto, f, GetRecursiveVariableUsagesWithRelayInfo(schema, doc, def, proto)[i])
  {
    var def := OperationDefinition(op);
    TaggedPastRoot(schema, doc, RootVariables(schema, def), proto, GetVariableUsages(schema, doc, def), RecursivelyReferencedFragments(doc, op), i);
  }

  /** Past the root's entries, the tagged list holds inherited entries only. */
  lemma TaggedPastRoot(schema: Schema, doc: Document, root: map<string, VarOrArgDefinition>, proto: Prototype, us: seq<VariableUsage>, fs: seq<Fragment>, i: int)
    requires |us| <= i < |RootTagged(root, proto, us) + FragmentsTagged(schema, doc, root, proto, fs)|
    ensures exists f :: f in fs && FromFragment(schema, doc, root, proto, f, (RootTagged(root, proto, us) + FragmentsTagged(schema, doc, root, proto, fs))[i])
  {
    var rt := RootTagged(root, proto, us);
    var inherited := FragmentsTagged(schema, doc, root, proto, fs);
    var x := inherited[i - |rt|];
    AppendIndex(rt, inherited, i);
    var f := InheritedEntry(schema, doc, root, proto, fs, x);
    assert f in fs && FromFragment(schema, doc, root, proto, f, x);
  }

  /** Past the first list, an index into a concatenation reads the second. */
  lemma AppendIndex<T>(a: seq<T>, b: seq<T>, i: int)
    requires |a| <= i < |a| + |b|
    ensures (a + b)[i] == b[i - |a|]
  {
  }

  /** An entry of the inherited usages comes from one of the fragments, `f`. */
  lemma InheritedEntry(schema: Schema, doc: Document, root: map<string, VarOrArgDefinition>, proto: Prototype, fs: seq<Fragment>, x: UsageWithDefinition) returns (f: Fragment)
    requires x in FragmentsTagged(schema, doc, root, proto, fs)
    ensures f in fs && FromFragment(schema, doc, root, proto, f, x)
  {
    f :| f in fs && x in FragmentTagged(schema, doc, root, proto, f);
    FragmentTaggedFrom(schema, doc, root, proto, f);
  }

  /** Every usage inside every fragment the operation references is listed, with what the lookup gives for it. */
  lemma InheritedUsagesComplete(schema: Schema, doc: Document, def: Definition, proto: Prototype)
    ensures var r := GetRecursiveVariableUsagesWithRelayInfo(schema, doc, def, proto);
            var root := RootVariables(schema, def);
            forall f, u :: f in InheritedFragments(doc, def) && u in GetVariableUsages(schema, doc, FragmentDefinition(f)) ==>
              UsageWithDefinition(u, FragmentOrRoot(GetFragmentArgumentDefinitions(schema, f), root, proto, u.node.name), Some(f.name)) in r
  {
    var root := RootVariables(schema, def);
    var r := GetRecursiveVariableUsagesWithRelayInfo(schema, doc, def, proto);
    var inherited := FragmentsTagged(schema, doc, root, proto, InheritedFragments(doc, def));
    assert r == RootTagged(root, proto, GetVariableUsages(schema, doc, def)) + inherited;
    forall f, u | f in InheritedFragments(doc, def) && u in GetVariableUsages(schema, doc, FragmentDefinition(f))
      ensures UsageWithDefinition(u, FragmentOrRoot(GetFragmentArgumentDefinitions(schema, f), root, proto, u.node.name), Some(f.name)) in r
    {
      var fus := GetVariableUsages(schema, doc, FragmentDefinition(f));
      var k :| 0 <= k < |fus| && fus[k] == u;
      assert FragmentTagged(schema, doc, root, proto, f)[k] in FragmentTagged(schema, doc, root, proto, f);
      assert FragmentTagged(schema, doc, root, proto, f)[k] in inherited;
    }
  }

  /** With `Object.create(null)` dictionaries, no usage is ever paired with an inherited member. */
  lemma NullPrototypeInheritsNothing(schema: Schema, doc: Document, def: Definition)
    ensures forall x :: x in GetRecursiveVariableUsagesWithRelayInfo(schema, doc, def, NullPrototype) ==> !x.definition.Inherited?
  {
    var root := RootVariables(schema, def);
    var us := GetVariableUsages(schema, doc, def);
    var rt := RootTagged(root, NullPrototype, us);
    forall x | x in rt ensures !x.definition.Inherited? {
      var k :| 0 <= k < |rt| && rt[k] == x;
    }
    FragmentsTaggedNull(schema, doc, root, InheritedFragments(doc, def));
  }

  lemma {:induction false} FragmentsTaggedNull(schema: Schema, doc: Document, root: map<string, VarOrArgDefinition>, fs: seq<Fragment>)
    ensures forall x :: x in FragmentsTagged(schema, doc, root, NullPrototype, fs) ==> !x.definition.Inherited?
  {
    if |fs| > 0 {
      FragmentsTaggedNull(schema, doc, root, fs[1..]);
      var ft := FragmentTagged(schema, doc, root, NullPrototype, fs[0]);
      forall x | x in ft ensures !x.definition.Inherited? {
        var k :| 0 <= k < |ft| && ft[k] == x;
      }
    }
  }

  /** The usages whose names avoid every `Object.prototype` member: the root's own and those of every inherited fragment. */
  predicate AvoidsPrototypeNames(schema: Schema, doc: Document, def: Definition) {
    (forall u :: u in GetVariableUsages(schema, doc, def) ==> u.node.name !in ObjectPrototypeMembers)
    && forall f, u :: f in InheritedFragments(doc, def) && u in GetVariableUsages(schema, doc, FragmentDefinition(f)) ==>
         u.node.name !in ObjectPrototypeMembers
  }

  /** Where no usage is named like an `Object.prototype` member, `{}` and `Object.create(null)` pair every usage alike. */
  lemma TaggedAgreeAwayFromPrototypeNames(schema: Schema, doc: Document, def: Definition)
    requires AvoidsPrototypeNames(schema, doc, def)
    ensures GetRecursiveVariableUsagesWithRelayInfo(schema, doc, def, ObjectPrototype)
            == GetRecursiveVariableUsagesWithRelayInfo(schema, doc, def, NullPrototype)
  {
    var root := RootVariables(schema, def);
    var us := GetVariableUsages(schema, doc, def);
    assert RootTagged(root, ObjectPrototype, us) == RootTagged(root, NullPrototype, us) by {
      forall i | 0 <= i < |us| ensures Get(root, ObjectPrototype, us[i].node.name) == Get(root, NullPrototype, us[i].node.name) {
        assert us[i] in us;
      }
    }
    FragmentsTaggedAgree(schema, doc, root, InheritedFragments(doc, def));
  }

  lemma {:induction false} FragmentsTaggedAgree(schema: Schema, doc: Document, root: map<string, VarOrArgDefinition>, fs: seq<Fragment>)
    requires forall f, u :: f in fs && u in GetVariableUsages(schema, doc, FragmentDefinition(f)) ==> u.node.name !in ObjectPrototypeMembers
    ensures FragmentsTagged(schema, doc, root, ObjectPrototype, fs) == FragmentsTagged(schema, doc, root, NullPrototype, fs)
  {
    if |fs| > 0 {
      var f := fs[0];
      var us := GetVariableUsages(schema, doc, FragmentDefinition(f));
      var own := GetFragmentArgumentDefinitions(schema, f);
      assert FragmentTagged(schema, doc, root, ObjectPrototype, f) == FragmentTagged(schema, doc, root, NullPrototype, f) by {
        forall i | 0 <= i < |us|
          ensures FragmentOrRoot(own, root, ObjectPrototype, us[i].node.name) == FragmentOrRoot(own, root, NullPrototype, us[i].node.name)
        {
          assert us[i] in us;
        }
      }
      assert forall g :: g in fs[1..] ==> g in fs;
      FragmentsTaggedAgree(schema, doc, root, fs[1..]);
    }
  }
}
