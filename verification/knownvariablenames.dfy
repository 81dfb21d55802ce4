/**
  `RelayKnownVariableNames`: every variable used in an operation must be
  defined by it, and every variable used in a fragment must be one of the
  fragment's `@argumentDefinitions`.
 */
module KnownVariableNames {
  import opened Wrappers
  import opened Ast
  import opened Visit
  import opened ArgumentDefinitions

  /** `undefinedVarMessage`: names the operation when it has a name. */
  function UndefinedVarMessage(varName: string, opName: Option<string>): string {
    if opName.Some? && opName.value != "" then "Variable \"$" + varName + "\" is not defined by operation \"" + opName.value + "\"."
    else "Variable \"$" + varName + "\" is not defined."
  }

  /** `undefinedVarMessageFragment`. */
  function UndefinedVarMessageFragment(varName: string, fragmentName: string): string {
    "Variable \"$" + varName + "\" is not defined by fragment \"" + fragmentName + "\"."
  }

  function ArgumentNames(args: seq<Argument>): set<string> {
    set i | 0 <= i < |args| :: args[i].name
  }

  /** The names a definition defines: an operation's variables, a fragment's `@argumentDefinitions`. */
  function DefinedNames(def: Definition): (names: set<string>)
    ensures def.OperationDefinition? ==> names == VarNames(def.op.variableDefinitions)
    ensures def.FragmentDefinition? && GetArgumentDefinitions(def.frag).None? ==> names == {}
    ensures def.FragmentDefinition? && GetArgumentDefinitions(def.frag).Some? ==>
              var args := GetArgumentDefinitions(def.frag).value;
              forall n :: n in names <==> exists i :: 0 <= i < |args| && args[i].name == n
  {
    match def
    case OperationDefinition(op) => VarNames(op.variableDefinitions)
    case FragmentDefinition(f) =>
      match GetArgumentDefinitions(f)
      case None => {}
      case Some(args) => ArgumentNames(args)
  }

  /** The error for one use of an undefined variable, reported at the use and at the definition. */
  function UndefinedDiagnostic(def: Definition, v: Value): Diagnostic
    requires v.Variable?
  {
    match def
    case OperationDefinition(op) => Diagnostic(UndefinedVarMessage(v.name, op.name), [ValueNode(v), OperationNode(op)])
    case FragmentDefinition(f) => Diagnostic(UndefinedVarMessageFragment(v.name, f.name), [ValueNode(v), FragmentNode(f)])
  }

  /** The reports for a list of uses against a set of defined names. */
  function Undefined(def: Definition, defined: set<string>, usages: seq<Value>): (r: seq<Diagnostic>)
    requires forall v :: v in usages ==> v.Variable?
    ensures |r| <= |usages|
    ensures forall d :: d in r <==> exists v :: v in usages && v.name !in defined && d == UndefinedDiagnostic(def, v)
  {
    if |usages| == 0 then []
    else
      var rest := Undefined(def, defined, usages[1..]);
      assert forall v :: v in usages <==> v == usages[0] || v in usages[1..];
      if usages[0].name !in defined then [UndefinedDiagnostic(def, usages[0])] + rest else rest
  }

  /**
    What the rule reports for one definition, computed from that definition
    alone: one error per use of a name the definition does not define.
   */
  function DefinitionDiagnostics(def: Definition): (r: seq<Diagnostic>)
    ensures forall d :: d in r <==> exists v :: v in VariablesInDefinition(def) && v.name !in DefinedNames(def)
                                                && d == UndefinedDiagnostic(def, v)
  {
    Undefined(def, DefinedNames(def), VariablesInDefinition(def))
  }

  /** The visitor events the rule listens to. */
  datatype Event =
    | EnterOperation
    | DefineVariable(name: string)
    | LeaveOperation(op: Operation)
    | EnterFragment(frag: Fragment)
    | LeaveFragment(frag: Fragment)

  function DefineEvents(vds: seq<VariableDefinition>): (es: seq<Event>)
    ensures |es| == |vds|
    ensures forall i :: 0 <= i < |vds| ==> es[i] == DefineVariable(vds[i].name)
  {
    if |vds| == 0 then [] else [DefineVariable(vds[0].name)] + DefineEvents(vds[1..])
  }

  /** The events in the order the visitor produces them for one definition. */
  function DefinitionEvents(def: Definition): seq<Event> {
    match def
    case OperationDefinition(op) => [EnterOperation] + DefineEvents(op.variableDefinitions) + [LeaveOperation(op)]
    case FragmentDefinition(f) => [EnterFragment(f), LeaveFragment(f)]
  }

  function DocumentEvents(defs: seq<Definition>): seq<Event> {
    if |defs| == 0 then [] else DefinitionEvents(defs[0]) + DocumentEvents(defs[1..])
  }

  /** One visitor callback: the new `variableNameDefined` and the errors it reports. */
  function Step(defined: set<string>, e: Event): (set<string>, seq<Diagnostic>) {
    match e
    case EnterOperation => ({}, [])
    case DefineVariable(n) => (defined + {n}, [])
    case LeaveOperation(op) =>
      (defined, Undefined(OperationDefinition(op), defined, VariablesInDefinition(OperationDefinition(op))))
    case EnterFragment(f) =>
      (match GetArgumentDefinitions(f) case None => {} case Some(args) => ArgumentNames(args), [])
    case LeaveFragment(f) =>
      var usages := VariablesInDefinition(FragmentDefinition(f));
      if |usages| == 0 then (defined, [])
      else (defined, Undefined(FragmentDefinition(f), defined, usages))
  }

  /** The rule's visitor run over a stream of events, starting from `defined`. */
  function Run(defined: set<string>, es: seq<Event>): seq<Diagnostic>
    decreases es
  {
    if |es| == 0 then []
    else
      var (next, out) := Step(defined, es[0]);
      out + Run(next, es[1..])
  }

  /** `RelayKnownVariableNames` over a document. */
  function RelayKnownVariableNames(doc: Document): seq<Diagnostic> {
    Run({}, DocumentEvents(doc.definitions))
  }

  function Flatten(defs: seq<Definition>): seq<Diagnostic> {
    if |defs| == 0 then [] else DefinitionDiagnostics(defs[0]) + Flatten(defs[1..])
  }

  lemma {:induction false} RunAppend(defined: set<string>, a: seq<Event>, b: seq<Event>)
    ensures Run(defined, a + b) == Run(defined, a) + Run(RunState(defined, a), b)
    ensures RunState(defined, a + b) == RunState(RunState(defined, a), b)
    decreases a
  {
    if |a| == 0 {
      assert a + b == b;
    } else {
      assert (a + b)[0] == a[0];
      assert (a + b)[1..] == a[1..] + b;
      RunAppend(Step(defined, a[0]).0, a[1..], b);
    }
  }

  function RunState(defined: set<string>, es: seq<Event>): set<string>
    decreases es
  {
    if |es| == 0 then defined else RunState(Step(defined, es[0]).0, es[1..])
  }

  /** The definition events of an operation add its variable names and report nothing. */
  lemma {:induction false} DefineEventsRun(defined: set<string>, vds: seq<VariableDefinition>)
    ensures Run(defined, DefineEvents(vds)) == []
    ensures RunState(defined, DefineEvents(vds)) == defined + VarNames(vds)
    decreases vds
  {
    if |vds| > 0 {
      var es := DefineEvents(vds);
      assert es[1..] == DefineEvents(vds[1..]);
      DefineEventsRun(defined + {vds[0].name}, vds[1..]);
      assert VarNames(vds) == {vds[0].name} + VarNames(vds[1..]) by {
        forall n | n in VarNames(vds) ensures n in {vds[0].name} + VarNames(vds[1..]) {
          var i :| 0 <= i < |vds| && vds[i].name == n;
          if i > 0 { assert vds[1..][i - 1] == vds[i]; }
        }
        forall n | n in VarNames(vds[1..]) ensures n in VarNames(vds) {
          var i :| 0 <= i < |vds[1..]| && vds[1..][i].name == n;
          assert vds[i + 1] == vds[1..][i];
        }
      }
    }
  }

  /** Whatever the state before it, a definition's events report exactly its own diagnostics. */
  lemma DefinitionEventsRun(defined: set<string>, def: Definition)
    ensures Run(defined, DefinitionEvents(def)) == DefinitionDiagnostics(def)
  {
    match def
    case OperationDefinition(op) =>
      var defs := DefineEvents(op.variableDefinitions);
      RunAppend(defined, [EnterOperation] + defs, [LeaveOperation(op)]);
      RunAppend(defined, [EnterOperation], defs);
      DefineEventsRun({}, op.variableDefinitions);
      assert Run(defined, [EnterOperation]) == [] && RunState(defined, [EnterOperation]) == {};
      var st := RunState(defined, [EnterOperation] + defs);
      assert st == VarNames(op.variableDefinitions);
      assert Run(st, [LeaveOperation(op)]) == Step(st, LeaveOperation(op)).1 + Run(st, []);
    case FragmentDefinition(f) =>
      var usages := VariablesInDefinition(FragmentDefinition(f));
      var es := DefinitionEvents(def);
      var s1 := Step(defined, es[0]).0;
      assert s1 == DefinedNames(def);
      var rest := es[1..];
      assert rest == [LeaveFragment(f)] && rest[1..] == [];
      assert Run(s1, rest) == Step(s1, LeaveFragment(f)).1 + Run(Step(s1, LeaveFragment(f)).0, []);
      assert Run(defined, es) == Step(s1, LeaveFragment(f)).1;
      if |usages| == 0 {
        assert Undefined(def, DefinedNames(def), usages) == [];
      }
  }

  /**
    The rule's single shared `variableNameDefined` never carries names from
    one definition into the next: its output is each definition's own
    diagnostics, in document order, whatever the state it starts in.
   */
  lemma {:induction false} KnownVariableNamesNoLeak(defined: set<string>, defs: seq<Definition>)
    ensures Run(defined, DocumentEvents(defs)) == Flatten(defs)
    decreases defs
  {
    if |defs| > 0 {
      var first := DefinitionEvents(defs[0]);
      RunAppend(defined, first, DocumentEvents(defs[1..]));
      DefinitionEventsRun(defined, defs[0]);
      KnownVariableNamesNoLeak(RunState(defined, first), defs[1..]);
    }
  }

  /** A use is reported exactly when its name is not defined by the definition it occurs in. */
  lemma UndefinedReported(doc: Document, def: Definition, v: Value)
    requires def in doc.definitions && v in VariablesInDefinition(def)
    ensures UndefinedDiagnostic(def, v) in RelayKnownVariableNames(doc) <== v.name !in DefinedNames(def)
  {
    KnownVariableNamesNoLeak({}, doc.definitions);
    FlattenContains(doc.definitions, def);
  }

  lemma {:induction false} FlattenContains(defs: seq<Definition>, def: Definition)
    requires def in defs
    ensures forall d :: d in DefinitionDiagnostics(def) ==> d in Flatten(defs)
  {
    if defs[0] != def {
      FlattenContains(defs[1..], def);
    }
  }

  /** Every reported error is about a use of a name its own definition does not define. */
  lemma ReportedAreUndefined(doc: Document, d: Diagnostic)
    requires d in RelayKnownVariableNames(doc)
    ensures exists def, v :: def in doc.definitions && v in VariablesInDefinition(def) && v.name !in DefinedNames(def)
                             && d == UndefinedDiagnostic(def, v)
  {
    KnownVariableNamesNoLeak({}, doc.definitions);
    FlattenSound(doc.definitions, d);
  }

  lemma {:induction false} FlattenSound(defs: seq<Definition>, d: Diagnostic)
    requires d in Flatten(defs)
    ensures exists def :: def in defs && d in DefinitionDiagnostics(def)
  {
    if d !in DefinitionDiagnostics(defs[0]) {
      FlattenSound(defs[1..], d);
      var def :| def in defs[1..] && d in DefinitionDiagnostics(def);
      assert def in defs;
    }
  }
}
