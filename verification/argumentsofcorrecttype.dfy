/**
  `RelayArgumentsOfCorrectType`: a literal passed with `@arguments` must be
  accepted by the type the fragment declares for that argument.
 */
module ArgumentsOfCorrectType {
  import opened Wrappers
  import opened Ast
  import opened Schema
  import opened Visit
  import opened Documents
  import opened ArgumentDefinitions
  import opened Utils
  import TypeSyntax

  /** `badValueMessage`. */
  function BadValueMessage(fragmentName: string, argName: string, argType: string): string {
    "Argument \"" + argName + "\" for fragment \"" + fragmentName + "\" is expected to be of type \"" + argType + "\"."
  }

  /** An argument the rule checks: the fragment defines it with a known input type, and it holds no variable. */
  predicate Checked(defs: map<string, VarOrArgDefinition>, arg: Argument) {
    arg.name in defs && defs[arg.name].schemaType.Some? && !ContainsVariableNodes(arg.value)
  }

  /** The report for an ill-typed argument, at its value. */
  function BadValue(defs: map<string, VarOrArgDefinition>, fragmentName: string, arg: Argument): Diagnostic
    requires Checked(defs, arg)
  {
    Diagnostic(BadValueMessage(fragmentName, arg.name, TypeSyntax.Print(defs[arg.name].schemaType.value)), [ValueNode(arg.value)])
  }

  /** The check of one argument: a report exactly when a checked literal is not accepted by its declared type. */
  function ArgumentDiagnostic(schema: Schema, defs: map<string, VarOrArgDefinition>, fragmentName: string, arg: Argument): (r: Option<Diagnostic>)
    ensures r.Some? <==> Checked(defs, arg) && !Coerces(schema, arg.value, defs[arg.name].schemaType.value)
    ensures r.Some? ==> r.value == BadValue(defs, fragmentName, arg)
  {
    if Checked(defs, arg) && !Coerces(schema, arg.value, defs[arg.name].schemaType.value) then Some(BadValue(defs, fragmentName, arg))
    else None
  }

  /** The fragment an `@arguments` directive passes its arguments to: the one its enclosing spread names. */
  function SpreadFragment(doc: Document, site: DirectiveSite): (r: Option<Fragment>)
    ensures r.Some? <==> site.directive.name == "arguments" && FindFragmentSpreadParent(site.ancestors).Some?
                         && GetFragment(doc, FindFragmentSpreadParent(site.ancestors).value.name).Some?
    ensures r.Some? ==> r == GetFragment(doc, FindFragmentSpreadParent(site.ancestors).value.name)
  {
    if site.directive.name != "arguments" then None
    else
      match FindFragmentSpreadParent(site.ancestors)
      case None => None
      case Some(spread) => GetFragment(doc, spread.name)
  }

  /** The report `arg` draws when it is passed to `fragment`. */
  predicate ArgumentReported(schema: Schema, fragment: Fragment, arg: Argument, d: Diagnostic) {
    ArgumentDiagnostic(schema, GetFragmentArgumentDefinitions(schema, fragment), fragment.name, arg) == Some(d)
  }

  /**
    The `Directive` visitor on one directive: under a spread of a known
    fragment, an `@arguments` yields one report per argument its check
    rejects; every other directive yields nothing.
   */
  function SiteDiagnostics(schema: Schema, doc: Document, site: DirectiveSite): (r: seq<Diagnostic>)
    ensures SpreadFragment(doc, site).None? ==> r == []
    ensures SpreadFragment(doc, site).Some? ==> |r| <= |site.directive.args|
  {
    match SpreadFragment(doc, site)
    case None => []
    case Some(fragment) =>
      var defs := GetFragmentArgumentDefinitions(schema, fragment);
      ReportsOf(arg => ArgumentDiagnostic(schema, defs, fragment.name, arg), site.directive.args)
  }

  /** The reports of a directive are exactly those of the arguments its check rejects. */
  lemma SiteReported(schema: Schema, doc: Document, site: DirectiveSite)
    requires SpreadFragment(doc, site).Some?
    ensures forall d :: d in SiteDiagnostics(schema, doc, site) <==> exists i :: 0 <= i < |site.directive.args| && ArgumentReported(schema, SpreadFragment(doc, site).value, site.directive.args[i], d)
  {
  }

  /** `RelayArgumentsOfCorrectType` over a document. */
  function RelayArgumentsOfCorrectType(schema: Schema, doc: Document): (r: seq<Diagnostic>)
    ensures var sites := DirectivesInDocument(doc.definitions);
            forall d :: d in r <==> exists i :: 0 <= i < |sites| && d in SiteDiagnostics(schema, doc, sites[i])
  {
    ReportsAt(site => SiteDiagnostics(schema, doc, site), DirectivesInDocument(doc.definitions))
  }

  /** `null` for an argument the fragment declares non-null is always reported. */
  lemma NullForNonNullReported(schema: Schema, defs: map<string, VarOrArgDefinition>, fragmentName: string, arg: Argument)
    requires arg.value == NullValue
    requires arg.name in defs && defs[arg.name].schemaType.Some? && defs[arg.name].schemaType.value.NonNull?
    ensures ArgumentDiagnostic(schema, defs, fragmentName, arg) == Some(BadValue(defs, fragmentName, arg))
  {
    NullCoercion(schema, defs[arg.name].schemaType.value);
  }

  /** A literal is never reported against a type that is less strict than one accepting it. */
  lemma AcceptedBySubtypeNotReported(schema: Schema, defs: map<string, VarOrArgDefinition>, fragmentName: string, arg: Argument, s: TypeRef)
    requires arg.name in defs && defs[arg.name].schemaType.Some?
    requires AreTypesCompatible(s, defs[arg.name].schemaType.value) && Coerces(schema, arg.value, s)
    ensures ArgumentDiagnostic(schema, defs, fragmentName, arg) == None
  {
    CoercionRespectsSubtyping(schema, arg.value, s, defs[arg.name].schemaType.value);
  }

  /**
    The type named in a report reads back, through the type parser, as the
    type the fragment declares for the argument.
   */
  lemma ReportedTypeParsesBack(schema: Schema, fragment: Fragment, arg: Argument)
    requires Checked(GetFragmentArgumentDefinitions(schema, fragment), arg)
    ensures var t := GetFragmentArgumentDefinitions(schema, fragment)[arg.name].schemaType.value;
            TypeSyntax.ParseType(TypeSyntax.Print(t)) == Success(t)
  {
    var defs := GetFragmentArgumentDefinitions(schema, fragment);
    var args := GetArgumentDefinitions(fragment).value;
    var i := LastIndexOf(args, arg.name);
    DefinitionsMapLast(schema, args, i);
    TypeSyntax.ParsePrintRoundTrip(defs[arg.name].schemaType.value);
  }
}
