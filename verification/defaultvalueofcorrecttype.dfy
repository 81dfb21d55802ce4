/**
  `RelayDefaultValueOfCorrectType`: the `defaultValue` of a fragment argument
  definition must not be `null` and must be accepted by the declared type.
 */
module DefaultValueOfCorrectType {
  import opened Wrappers
  import opened Ast
  import opened Schema
  import opened Visit
  import opened ArgumentDefinitions
  import opened Utils
  import ArgumentsOfCorrectType
  import TypeSyntax

  /** The opening both messages share. */
  function Subject(fragmentName: string, argName: string): string {
    "defaultValue for argument \"" + argName + "\" on fragment \"" + fragmentName + "\""
  }

  /** `badValueMessage`. */
  function BadValueMessage(fragmentName: string, argName: string, argType: string): string {
    Subject(fragmentName, argName) + " is expected to be of type \"" + argType + "\"."
  }

  /** `cannotSpecifyNullAsDefaultValue`. */
  function NullDefaultMessage(fragmentName: string, argName: string): string {
    Subject(fragmentName, argName) + " cannot be null. Instead, omit defaultValue."
  }

  /**
    A definition whose default the rule checks: a known input type and a
    default holding no variable.
   */
  predicate Checked(def: VarOrArgDefinition) {
    def.schemaType.Some? && def.defaultValue.Some? && !ContainsVariableNodes(def.defaultValue.value)
  }

  /** What is wrong with a checked default, if anything. */
  predicate Rejected(schema: Schema, def: VarOrArgDefinition)
    requires Checked(def)
  {
    def.defaultValue.value.NullValue? || !Coerces(schema, def.defaultValue.value, def.schemaType.value)
  }

  /**
    The check of one argument of an `@argumentDefinitions`. The argument is
    looked up, by name, among the definitions the fragment's last
    `@argumentDefinitions` makes; the report sits at this argument's own
    `defaultValue`.
   */
  function ArgumentDiagnostic(schema: Schema, defs: map<string, VarOrArgDefinition>, fragmentName: string, argument: Argument): (r: Option<Diagnostic>)
    ensures r.Some? <==> argument.value.ObjectValue? && HasField(argument.value.fields, "defaultValue")
                         && argument.name in defs && Checked(defs[argument.name]) && Rejected(schema, defs[argument.name])
    ensures r.Some? ==> r.value.locations == [ValueNode(FirstField(argument.value.fields, "defaultValue").value.value)]
    ensures r.Some? ==> (r.value.message == NullDefaultMessage(fragmentName, argument.name) <==> defs[argument.name].defaultValue.value.NullValue?)
    ensures r.Some? && !defs[argument.name].defaultValue.value.NullValue? ==>
              r.value.message == BadValueMessage(fragmentName, argument.name, TypeSyntax.Print(MakeNonNullable(defs[argument.name].schemaType.value)))
  {
    if !argument.value.ObjectValue? then None
    else match FirstField(argument.value.fields, "defaultValue")
      case None => None
      case Some(field) =>
        if argument.name !in defs then None
        else
          var arg := defs[argument.name];
          if !Checked(arg) then None
          else if arg.defaultValue.value.NullValue? then
            Some(Diagnostic(NullDefaultMessage(fragmentName, argument.name), [ValueNode(field.value)]))
          else if !Coerces(schema, arg.defaultValue.value, arg.schemaType.value) then
            NullAndBadValueDiffer(fragmentName, argument.name, TypeSyntax.Print(MakeNonNullable(arg.schemaType.value)));
            Some(Diagnostic(BadValueMessage(fragmentName, argument.name, TypeSyntax.Print(MakeNonNullable(arg.schemaType.value))), [ValueNode(field.value)]))
          else None
  }

  /** The two messages can never be confused: they differ right after the argument and fragment names. */
  lemma NullAndBadValueDiffer(fragmentName: string, argName: string, argType: string)
    ensures BadValueMessage(fragmentName, argName, argType) != NullDefaultMessage(fragmentName, argName)
  {
    var subject := Subject(fragmentName, argName);
    var bad := " is expected to be of type \"" + argType + "\".";
    var nul := " cannot be null. Instead, omit defaultValue.";
    assert bad[1] == 'i' && nul[1] == 'c';
    assert (subject + bad)[|subject| + 1] == bad[1];
    assert (subject + nul)[|subject| + 1] == nul[1];
  }

  /** The fragment an `@argumentDefinitions` directive belongs to, when it is on or inside one. */
  function DefiningFragment(site: DirectiveSite): (r: Option<Fragment>)
    ensures r.Some? <==> site.directive.name == "argumentDefinitions" && FindFragmentDefinitionParent(site.ancestors).Some?
    ensures r.Some? ==> r == FindFragmentDefinitionParent(site.ancestors)
  {
    if site.directive.name != "argumentDefinitions" then None else FindFragmentDefinitionParent(site.ancestors)
  }

  /** The report `argument` of an `@argumentDefinitions` of `fragment` draws. */
  predicate ArgumentReported(schema: Schema, fragment: Fragment, argument: Argument, d: Diagnostic) {
    ArgumentDiagnostic(schema, GetFragmentArgumentDefinitions(schema, fragment), fragment.name, argument) == Some(d)
  }

  /**
    The `Directive` visitor on one directive: inside a fragment definition,
    an `@argumentDefinitions` yields one report per argument whose default
    its check rejects; every other directive yields nothing.
   */
  function SiteDiagnostics(schema: Schema, site: DirectiveSite): (r: seq<Diagnostic>)
    ensures DefiningFragment(site).None? ==> r == []
    ensures DefiningFragment(site).Some? ==> |r| <= |site.directive.args|
  {
    match DefiningFragment(site)
    case None => []
    case Some(fragment) =>
      var defs := GetFragmentArgumentDefinitions(schema, fragment);
      ReportsOf(arg => ArgumentDiagnostic(schema, defs, fragment.name, arg), site.directive.args)
  }

  /** The reports of a directive are exactly those of the arguments its check rejects. */
  lemma SiteReported(schema: Schema, site: DirectiveSite)
    requires DefiningFragment(site).Some?
    ensures forall d :: d in SiteDiagnostics(schema, site) <==> exists i :: 0 <= i < |site.directive.args| && ArgumentReported(schema, DefiningFragment(site).value, site.directive.args[i], d)
  {
  }

  /** `RelayDefaultValueOfCorrectType` over a document. */
  function RelayDefaultValueOfCorrectType(schema: Schema, doc: Document): (r: seq<Diagnostic>)
    ensures var sites := DirectivesInDocument(doc.definitions);
            forall d :: d in r <==> exists i :: 0 <= i < |sites| && d in SiteDiagnostics(schema, sites[i])
  {
    ReportsAt(site => SiteDiagnostics(schema, site), DirectivesInDocument(doc.definitions))
  }

  /**
    The type the message names is the one the check uses: a non-null literal
    is accepted by a type exactly when it is accepted by its non-null form.
   */
  lemma MessageTypeMatchesCheck(schema: Schema, v: Value, t: TypeRef)
    requires !v.NullValue?
    ensures Coerces(schema, v, t) <==> Coerces(schema, v, MakeNonNullable(t))
  {
  }

  /**
    For the definitions of the fragment's last `@argumentDefinitions`, the
    check reads only the argument's own metadata: a default is reported
    exactly when it is `null` or not of the declared type.
   */
  lemma OwnDefinitionChecked(schema: Schema, fragment: Fragment, i: int)
    requires GetArgumentDefinitions(fragment).Some?
    requires var args := GetArgumentDefinitions(fragment).value; 0 <= i < |args| && LastOfName(args, i)
    ensures var argument := GetArgumentDefinitions(fragment).value[i];
            var def := ArgumentDefinition(schema, argument);
            ArgumentDiagnostic(schema, GetFragmentArgumentDefinitions(schema, fragment), fragment.name, argument).Some? <==>
            (def.schemaType.Some? && def.defaultValue.Some? && !ContainsVariableNodes(def.defaultValue.value)
             && (def.defaultValue.value.NullValue? || !Coerces(schema, def.defaultValue.value, def.schemaType.value)))
  {
    DefinitionsMapLast(schema, GetArgumentDefinitions(fragment).value, i);
  }

  /**
    The two rules agree: a non-null default without variables is reported
    here exactly when passing the same literal for that argument with
    `@arguments` is reported by `RelayArgumentsOfCorrectType`.
   */
  lemma AgreesWithArgumentsOfCorrectType(schema: Schema, defs: map<string, VarOrArgDefinition>, fragmentName: string, argument: Argument)
    requires argument.value.ObjectValue? && HasField(argument.value.fields, "defaultValue")
    requires argument.name in defs && Checked(defs[argument.name]) && !defs[argument.name].defaultValue.value.NullValue?
    ensures ArgumentDiagnostic(schema, defs, fragmentName, argument).Some?
            <==> ArgumentsOfCorrectType.ArgumentDiagnostic(schema, defs, fragmentName,
                   Argument(argument.name, defs[argument.name].defaultValue.value)).Some?
  {
  }
}
