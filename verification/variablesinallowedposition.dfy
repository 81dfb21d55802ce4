/**
  `RelayVariablesInAllowedPosition`: a variable, or a fragment argument, must
  be used only where its declared type is accepted.
 */
module VariablesInAllowedPosition {
  import opened Wrappers
  import opened Ast
  import opened Schema
  import opened ArgumentDefinitions
  import opened JsObjects
  import Visit
  import TypeSyntax

  /**
    `allowedVariableUsage`: a nullable variable may fill a non-null position
    only when it or the position has a default value (a `null` default does
    not count), and then only if it fits the position's nullable type.
   */
  predicate AllowedVariableUsage(varType: TypeRef, varDefault: Option<Value>, locationType: TypeRef, locationDefault: Option<Value>) {
    if locationType.NonNull? && !varType.NonNull? then
      var hasNonNullVariableDefault := varDefault.Some? && !varDefault.value.NullValue?;
      if !hasNonNullVariableDefault && locationDefault.None? then false
      else IsTypeSubTypeOf(varType, locationType.inner)
    else IsTypeSubTypeOf(varType, locationType)
  }

  /** `IsVariableUsageAllowed`, section 5.8.5 of the GraphQL specification (June 2018 edition). */
  predicate IsVariableUsageAllowed(varType: TypeRef, varDefault: Option<Value>, locationType: TypeRef, locationDefault: Option<Value>) {
    if locationType.NonNull? && !varType.NonNull? then
      ((varDefault.Some? && !varDefault.value.NullValue?) || locationDefault.Some?)
      && AreTypesCompatible(varType, locationType.inner)
    else AreTypesCompatible(varType, locationType)
  }

  /** `AllowedVariableUsage` agrees with the specification's algorithm on every input. */
  lemma AllowedMatchesSpecification(varType: TypeRef, varDefault: Option<Value>, locationType: TypeRef, locationDefault: Option<Value>)
    ensures AllowedVariableUsage(varType, varDefault, locationType, locationDefault)
            <==> IsVariableUsageAllowed(varType, varDefault, locationType, locationDefault)
  {
    SubTypeIsCompatible(varType, locationType);
    if locationType.NonNull? {
      SubTypeIsCompatible(varType, locationType.inner);
    }
  }

  /** A variable with a default, or at a position with one, behaves as if it were declared non-null. */
  function EffectiveType(varType: TypeRef, varDefault: Option<Value>, locationDefault: Option<Value>): TypeRef {
    if !varType.NonNull? && ((varDefault.Some? && !varDefault.value.NullValue?) || locationDefault.Some?) then NonNull(varType)
    else varType
  }

  /** A usage is allowed exactly when the variable's effective type is compatible with the position's. */
  lemma AllowedIsEffectiveCompatibility(varType: TypeRef, varDefault: Option<Value>, locationType: TypeRef, locationDefault: Option<Value>)
    ensures AllowedVariableUsage(varType, varDefault, locationType, locationDefault)
            <==> AreTypesCompatible(EffectiveType(varType, varDefault, locationDefault), locationType)
  {
    AllowedMatchesSpecification(varType, varDefault, locationType, locationDefault);
  }

  /** `badVarPosMessage`. */
  function BadPositionMessage(varName: string, varType: TypeRef, expectedType: TypeRef): string {
    "Variable \"$" + varName + "\" of type \"" + TypeSyntax.Print(varType)
    + "\" used in position expecting type \"" + TypeSyntax.Print(expectedType) + "\"."
  }

  /**
    The usage has a stored definition with a schema type, a typed position,
    and the position rejects it. An inherited `Object.prototype` member has no
    `schemaType`, so a usage paired with one is never misplaced.
   */
  predicate Misplaced(x: UsageWithDefinition) {
    x.definition.Own? && x.definition.value.schemaType.Some? && x.usage.typ.Some?
    && !AllowedVariableUsage(x.definition.value.schemaType.value, x.definition.value.defaultValue, x.usage.typ.value, x.usage.defaultValue)
  }

  function MessageOf(x: UsageWithDefinition): string
    requires Misplaced(x)
  {
    BadPositionMessage(x.usage.node.name, x.definition.value.schemaType.value, x.usage.typ.value)
  }

  /** In a fragment's own pass, a usage is reported at its definition (when it is the fragment's own) and at itself. */
  function FragmentLocations(x: UsageWithDefinition): seq<Node>
    requires x.definition.Own?
  {
    (if x.usingFragmentName.None? then [x.definition.value.node] else []) + [ValueNode(x.usage.node)]
  }

  /** The `FragmentDefinition` visitor over a list of usages. */
  function FragmentPass(xs: seq<UsageWithDefinition>): (r: seq<Diagnostic>)
    ensures forall d :: d in r ==> exists x :: x in xs && Misplaced(x) && d == Diagnostic(MessageOf(x), FragmentLocations(x))
    ensures forall x :: x in xs && Misplaced(x) ==> Diagnostic(MessageOf(x), FragmentLocations(x)) in r
  {
    if |xs| == 0 then []
    else
      var rest := FragmentPass(xs[1..]);
      assert forall x :: x in xs <==> x == xs[0] || x in xs[1..];
      if Misplaced(xs[0]) then [Diagnostic(MessageOf(xs[0]), FragmentLocations(xs[0]))] + rest
      else rest
  }

  /** The usages the `OperationDefinition` visitor checks: those not governed by a fragment's own argument. */
  predicate OperationChecked(x: UsageWithDefinition) {
    Misplaced(x) && !IsFragmentDefinedVariable(x.definition.value)
  }

  /** In an operation's pass, a root usage is reported at itself and the operation, an inherited one at the operation. */
  function OperationLocations(op: Operation, x: UsageWithDefinition): seq<Node> {
    (if x.usingFragmentName.None? then [ValueNode(x.usage.node)] else []) + [OperationNode(op)]
  }

  function OperationDiagnostic(op: Operation, x: UsageWithDefinition): Diagnostic
    requires Misplaced(x)
  {
    Diagnostic(MessageOf(x), OperationLocations(op, x))
  }

  /**
    The `OperationDefinition` visitor over a list of usages; `reported` holds
    the messages already reported for usages inside fragments, which are not
    reported again.
   */
  function OperationPass(op: Operation, xs: seq<UsageWithDefinition>, reported: set<string>): (r: seq<Diagnostic>)
    ensures forall d :: d in r ==> exists x :: x in xs && OperationChecked(x) && d == OperationDiagnostic(op, x) && d.message !in reported
  {
    if |xs| == 0 then []
    else
      var x := xs[0];
      assert forall y :: y in xs[1..] ==> y in xs;
      if OperationChecked(x) && MessageOf(x) !in reported then
        var next := if x.usingFragmentName.Some? then reported + {MessageOf(x)} else reported;
        [OperationDiagnostic(op, x)] + OperationPass(op, xs[1..], next)
      else OperationPass(op, xs[1..], reported)
  }

  /** The diagnostics an operation pass reports for usages inside fragments, which sit at the operation alone. */
  predicate AtOperationOnly(op: Operation, d: Diagnostic) {
    d.locations == [OperationNode(op)]
  }

  /** Every checked usage inside a fragment has its message reported, unless it was already reported. */
  lemma {:induction false} OperationPassFragmentComplete(op: Operation, xs: seq<UsageWithDefinition>, reported: set<string>, x: UsageWithDefinition)
    requires x in xs && OperationChecked(x) && x.usingFragmentName.Some?
    ensures MessageOf(x) in reported || Diagnostic(MessageOf(x), [OperationNode(op)]) in OperationPass(op, xs, reported)
  {
    var x0 := xs[0];
    var r := OperationPass(op, xs, reported);
    if x0 == x {
      if MessageOf(x) !in reported {
        assert OperationLocations(op, x) == [OperationNode(op)];
        assert r[0] == OperationDiagnostic(op, x);
      }
    } else {
      assert x in xs[1..];
      if OperationChecked(x0) && MessageOf(x0) !in reported {
        var next := if x0.usingFragmentName.Some? then reported + {MessageOf(x0)} else reported;
        OperationPassFragmentComplete(op, xs[1..], next, x);
        assert r == [OperationDiagnostic(op, x0)] + OperationPass(op, xs[1..], next);
        if MessageOf(x) == MessageOf(x0) && x0.usingFragmentName.Some? {
          assert r[0] == Diagnostic(MessageOf(x), [OperationNode(op)]);
        }
      } else {
        OperationPassFragmentComplete(op, xs[1..], reported, x);
      }
    }
  }

  /** A checked usage of the root whose predecessors are all root usages is always reported. */
  lemma {:induction false} OperationPassRootComplete(op: Operation, xs: seq<UsageWithDefinition>, reported: set<string>, i: int)
    requires 0 <= i < |xs| && forall j :: 0 <= j <= i ==> xs[j].usingFragmentName.None?
    requires OperationChecked(xs[i]) && MessageOf(xs[i]) !in reported
    ensures OperationDiagnostic(op, xs[i]) in OperationPass(op, xs, reported)
  {
    if i > 0 {
      OperationPassRootComplete(op, xs[1..], reported, i - 1);
      assert xs[1..][i - 1] == xs[i];
    }
  }

  /** No two diagnostics at the operation alone share a message. */
  predicate OperationOnlyDistinct(op: Operation, r: seq<Diagnostic>) {
    forall i, j :: 0 <= i < j < |r| && AtOperationOnly(op, r[i]) && AtOperationOnly(op, r[j]) ==> r[i].message != r[j].message
  }

  lemma OperationOnlyDistinctCons(op: Operation, d: Diagnostic, rest: seq<Diagnostic>)
    requires OperationOnlyDistinct(op, rest)
    requires AtOperationOnly(op, d) ==> forall e :: e in rest ==> e.message != d.message
    ensures OperationOnlyDistinct(op, [d] + rest)
  {
    var r := [d] + rest;
    forall i, j | 0 <= i < j < |r| && AtOperationOnly(op, r[i]) && AtOperationOnly(op, r[j]) ensures r[i].message != r[j].message {
      assert r[j] == rest[j - 1];
      if i == 0 {
        assert rest[j - 1] in rest;
      } else {
        assert r[i] == rest[i - 1];
      }
    }
  }

  /** No message is reported twice at the operation alone. */
  lemma {:induction false} OperationPassFragmentDistinct(op: Operation, xs: seq<UsageWithDefinition>, reported: set<string>)
    ensures OperationOnlyDistinct(op, OperationPass(op, xs, reported))
  {
    if |xs| > 0 {
      var x := xs[0];
      if OperationChecked(x) && MessageOf(x) !in reported {
        var next := if x.usingFragmentName.Some? then reported + {MessageOf(x)} else reported;
        var rest := OperationPass(op, xs[1..], next);
        var d := OperationDiagnostic(op, x);
        OperationPassFragmentDistinct(op, xs[1..], next);
        if AtOperationOnly(op, d) {
          assert d.message in next;
        }
        OperationOnlyDistinctCons(op, d, rest);
      } else {
        OperationPassFragmentDistinct(op, xs[1..], reported);
      }
    }
  }

  /**
    `isFragmentDefinedVariable` reads `definition.node.kind`. An inherited
    `Object.prototype` member has no `node`, so the operation's visitor throws
    when it meets a usage paired with one, and the exception ends validation.
   */
  const NodeTypeError: string := "TypeError: Cannot read properties of undefined (reading 'kind')"

  /** Some usage is paired with an inherited `Object.prototype` member. */
  predicate MeetsInheritedMember(xs: seq<UsageWithDefinition>) {
    exists x :: x in xs && x.definition.Inherited?
  }

  /**
    The diagnostics of one definition: its own pass on
    `getRecursiveVariableUsagesWithRelayInfo`, built with dictionaries made
    with `proto`. A fragment's pass never throws; an operation's throws
    exactly when it meets an inherited member.
   */
  function DefinitionDiagnostics(schema: Schema, doc: Document, def: Definition, proto: Prototype): (r: Result<seq<Diagnostic>, string>)
    ensures var xs := GetRecursiveVariableUsagesWithRelayInfo(schema, doc, def, proto);
            (r.Failure? <==> def.OperationDefinition? && MeetsInheritedMember(xs))
            && (r.Success? && def.FragmentDefinition? ==>
                  forall d :: d in r.value <==> exists x :: x in xs && Misplaced(x) && d == Diagnostic(MessageOf(x), FragmentLocations(x)))
            && (r.Success? && def.OperationDefinition? ==>
                  forall d :: d in r.value ==> exists x :: x in xs && OperationChecked(x) && d == OperationDiagnostic(def.op, x))
  {
    var xs := GetRecursiveVariableUsagesWithRelayInfo(schema, doc, def, proto);
    match def
    case FragmentDefinition(_) => Success(FragmentPass(xs))
    case OperationDefinition(op) =>
      if MeetsInheritedMember(xs) then Failure(NodeTypeError) else Success(OperationPass(op, xs, {}))
  }

  /** The definition's pass succeeds and reports `d`. */
  predicate ReportedFor(schema: Schema, doc: Document, def: Definition, proto: Prototype, d: Diagnostic) {
    var r := DefinitionDiagnostics(schema, doc, def, proto);
    r.Success? && d in r.value
  }

  /**
    The rule over a document: each definition's diagnostics, in document
    order; an exception in any definition ends validation. The code builds its
    dictionaries as `{}`, that is `proto == ObjectPrototype`.
   */
  function RelayVariablesInAllowedPosition(schema: Schema, doc: Document, proto: Prototype): (r: Result<seq<Diagnostic>, string>)
    ensures r.Failure? <==> exists def :: def in doc.definitions && DefinitionDiagnostics(schema, doc, def, proto).Failure?
    ensures r.Success? ==> forall d :: d in r.value <==> exists def :: def in doc.definitions && ReportedFor(schema, doc, def, proto, d)
  {
    DocumentDiagnostics(schema, doc, doc.definitions, proto)
  }

  function DocumentDiagnostics(schema: Schema, doc: Document, defs: seq<Definition>, proto: Prototype): (r: Result<seq<Diagnostic>, string>)
    ensures r.Failure? <==> exists def :: def in defs && DefinitionDiagnostics(schema, doc, def, proto).Failure?
    ensures r.Success? ==> forall d :: d in r.value <==> exists def :: def in defs && ReportedFor(schema, doc, def, proto, d)
  {
    if |defs| == 0 then Success([])
    else
      var first := DefinitionDiagnostics(schema, doc, defs[0], proto);
      var rest := DocumentDiagnostics(schema, doc, defs[1..], proto);
      assert forall def :: def in defs <==> def == defs[0] || def in defs[1..];
      if first.Failure? then Failure(first.error)
      else if rest.Failure? then Failure(rest.error)
      else
        assert forall d :: d in first.value <==> ReportedFor(schema, doc, defs[0], proto, d);
        Success(first.value + rest.value)
  }

  /**
    Every misplaced use of an operation variable in the operation's own
    selection set is reported at the use and the operation, unless the
    operation's visitor throws.
   */
  lemma OperationRootUsageReported(schema: Schema, doc: Document, op: Operation, proto: Prototype, i: int)
    requires var def := OperationDefinition(op);
             0 <= i < |GetVariableUsages(schema, doc, def)|
             && OperationChecked(GetRecursiveVariableUsagesWithRelayInfo(schema, doc, def, proto)[i])
    ensures var def := OperationDefinition(op);
            var r := DefinitionDiagnostics(schema, doc, def, proto);
            r.Success? ==> OperationDiagnostic(op, GetRecursiveVariableUsagesWithRelayInfo(schema, doc, def, proto)[i]) in r.value
  {
    var def := OperationDefinition(op);
    var xs := GetRecursiveVariableUsagesWithRelayInfo(schema, doc, def, proto);
    assert forall j :: 0 <= j <= i ==> xs[j].usingFragmentName.None?;
    OperationPassRootComplete(op, xs, {}, i);
  }

  /**
    Every misplaced use of an operation variable inside a fragment the
    operation references has its message reported at the operation, unless
    the operation's visitor throws.
   */
  lemma OperationFragmentUsageReported(schema: Schema, doc: Document, op: Operation, proto: Prototype, x: UsageWithDefinition)
    requires x in GetRecursiveVariableUsagesWithRelayInfo(schema, doc, OperationDefinition(op), proto)
    requires OperationChecked(x) && x.usingFragmentName.Some?
    ensures var r := DefinitionDiagnostics(schema, doc, OperationDefinition(op), proto);
            r.Success? ==> Diagnostic(MessageOf(x), [OperationNode(op)]) in r.value
  {
    OperationPassFragmentComplete(op, GetRecursiveVariableUsagesWithRelayInfo(schema, doc, OperationDefinition(op), proto), {}, x);
  }

  // ---------------------------------------------------------------------------
  // Variables named like `Object.prototype` members

  /** With `Object.create(null)` dictionaries the rule never throws. */
  lemma CorrectedNeverThrows(schema: Schema, doc: Document)
    ensures RelayVariablesInAllowedPosition(schema, doc, NullPrototype).Success?
  {
    forall def | def in doc.definitions ensures DefinitionDiagnostics(schema, doc, def, NullPrototype).Success? {
      NullPrototypeInheritsNothing(schema, doc, def);
    }
  }

  /** Where no usage is named like an `Object.prototype` member, the code and the corrected rule report alike. */
  lemma PositionsAgreeAwayFromPrototypeNames(schema: Schema, doc: Document, def: Definition)
    requires AvoidsPrototypeNames(schema, doc, def)
    ensures DefinitionDiagnostics(schema, doc, def, ObjectPrototype) == DefinitionDiagnostics(schema, doc, def, NullPrototype)
  {
    TaggedAgreeAwayFromPrototypeNames(schema, doc, def);
  }

  /** `query Q { f(x: $constructor) }`. */
  function ConstructorQuery(): Operation {
    Operation(Some("Q"), [], [], [Field(None, "f", [Argument("x", Variable("constructor", Site(None, None)))], [], [], None)])
  }

  /**
    The query uses `$constructor` without declaring it. The code looks the
    name up in a `{}`, finds `Object.prototype.constructor`, and throws; the
    corrected rule does not throw.
   */
  lemma ConstructorVariableThrows(schema: Schema)
    ensures var doc := Document([OperationDefinition(ConstructorQuery())]);
            RelayVariablesInAllowedPosition(schema, doc, ObjectPrototype) == Failure(NodeTypeError)
            && RelayVariablesInAllowedPosition(schema, doc, NullPrototype).Success?
  {
    var op := ConstructorQuery();
    var def := OperationDefinition(op);
    var doc := Document([def]);
    var v := Variable("constructor", Site(None, None));
    var sel := op.selections[0];
    assert Visit.VariablesInArguments(sel.args) == [v] by {
      assert Visit.VariablesInArguments(sel.args[1..]) == [];
    }
    assert UsagesInSelections(schema, doc, op.selections) == SiteUsages([v]) by {
      assert op.selections[1..] == [];
    }
    var us := GetVariableUsages(schema, doc, def);
    assert us[0].node == v;
    var xs := GetRecursiveVariableUsagesWithRelayInfo(schema, doc, def, ObjectPrototype);
    assert xs[0].definition == Inherited("constructor");
    assert xs[0] in xs;
    CorrectedNeverThrows(schema, doc);
  }
}
