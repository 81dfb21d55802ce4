/**
  `RelayKnownArgumentNames`: the metadata of `@argumentDefinitions` must be
  well formed, and the arguments passed with `@arguments` must match the
  definitions of the fragment they are passed to.
 */
module KnownArgumentNames {
  import opened Wrappers
  import opened Ast
  import opened Schema
  import opened Visit
  import opened Documents
  import opened ArgumentDefinitions
  import opened Utils
  import TypeSyntax

  /** graphql-js's `suggestionList` and `didYouMean`, whose wording depends on the graphql-js version. */
  datatype Suggestions = Suggestions(suggestionList: (string, seq<string>) -> seq<string>, didYouMean: seq<string> -> string)

  const MissingArgumentDefinitionsMessage: string := "Missing required argument definitions."
  const MetadataShapeMessage: string :=
    "Metadata of argument definition should be of type \"Object\" with a \"type\" and optional \"defaultValue\" key."
  const TypeNotStringMessage: string :=
    "Value for \"type\" in argument definition metadata must be specified as string literal."

  function UnknownKeyMessage(name: string): string {
    "Unknown key \"" + name + "\" in argument definition metadata."
  }

  function UnknownTypeMessage(name: string): string {
    "Unknown type \"" + name + "\" in argument definition metadata."
  }

  function NoDefinitionsMessage(fragmentName: string): string {
    "No fragment argument definitions exist for fragment \"" + fragmentName + "\"."
  }

  function MissingArgumentMessage(name: string): string {
    "Missing required fragment argument \"" + name + "\"."
  }

  function UnknownArgumentMessage(env: Suggestions, name: string, suggestions: seq<string>): string {
    "Unknown fragment argument \"" + name + "\"." + env.didYouMean(Quoted(suggestions))
  }

  function Quoted(xs: seq<string>): (r: seq<string>)
    ensures |r| == |xs| && forall i :: 0 <= i < |xs| ==> r[i] == "\"" + xs[i] + "\""
  {
    seq(|xs|, i requires 0 <= i < |xs| => "\"" + xs[i] + "\"")
  }

  // ---------------------------------------------------------------------------
  // @argumentDefinitions

  /** The check of a `type` field's value: a string literal that parses to a type whose named type exists. */
  function TypeFieldDiagnostics(schema: Schema, v: Value): (r: seq<Diagnostic>)
    ensures |r| <= 1
    ensures r == [] <==> v.StringValue? && TypeSyntax.ParseType(v.s).Success?
                         && NamedTypeOf(TypeSyntax.ParseType(v.s).value) in schema.types
    ensures forall d :: d in r ==> d.locations == [ValueNode(v)]
  {
    if !v.StringValue? then [Diagnostic(TypeNotStringMessage, [ValueNode(v)])]
    else
      match TypeSyntax.ParseType(v.s)
      case Failure(e) => [Diagnostic(e, [ValueNode(v)])]
      case Success(t) =>
        if NamedTypeOf(t) in schema.types then []
        else [Diagnostic(UnknownTypeMessage(NamedTypeOf(t)), [ValueNode(v)])]
  }

  /** The check of one field of the metadata object: known keys only, and a valid `type`. */
  function MetadataFieldDiagnostics(schema: Schema, field: ObjectField): (r: seq<Diagnostic>)
    ensures r == [] <==> (field.name == "type" || field.name == "defaultValue")
                         && (field.name == "type" ==> TypeFieldDiagnostics(schema, field.value) == [])
  {
    (if field.name != "type" && field.name != "defaultValue" then [Diagnostic(UnknownKeyMessage(field.name), [NameNode(field.name)])] else [])
    + (if field.name == "type" then TypeFieldDiagnostics(schema, field.value) else [])
  }

  function MetadataFieldsDiagnostics(schema: Schema, fields: seq<ObjectField>): (r: seq<Diagnostic>)
    ensures r == [] <==> forall i :: 0 <= i < |fields| ==> MetadataFieldDiagnostics(schema, fields[i]) == []
  {
    if |fields| == 0 then []
    else
      var rest := MetadataFieldsDiagnostics(schema, fields[1..]);
      assert (forall i :: 0 <= i < |fields| ==> MetadataFieldDiagnostics(schema, fields[i]) == [])
             <==> MetadataFieldDiagnostics(schema, fields[0]) == [] &&
                  forall i :: 0 <= i < |fields[1..]| ==> MetadataFieldDiagnostics(schema, fields[1..][i]) == [];
      MetadataFieldDiagnostics(schema, fields[0]) + rest
  }

  /** The check of one argument definition: an object with a `type` key, then each of its fields. */
  function DefinitionDiagnostics(schema: Schema, arg: Argument): (r: seq<Diagnostic>)
    ensures !(arg.value.ObjectValue? && HasField(arg.value.fields, "type")) ==> r == [Diagnostic(MetadataShapeMessage, [ValueNode(arg.value)])]
  {
    var metadata := arg.value;
    if !(metadata.ObjectValue? && HasField(metadata.fields, "type")) then [Diagnostic(MetadataShapeMessage, [ValueNode(metadata)])]
    else MetadataFieldsDiagnostics(schema, metadata.fields)
  }

  /**
    An argument definition the rule accepts: an object whose keys are `type`
    and `defaultValue` only, with a `type` key, every `type` value being a
    string that parses to a type whose named type is in the schema.
   */
  predicate WellFormedDefinition(schema: Schema, arg: Argument) {
    arg.value.ObjectValue? && HasField(arg.value.fields, "type")
    && forall i :: 0 <= i < |arg.value.fields| ==>
         var f := arg.value.fields[i];
         (f.name == "type" || f.name == "defaultValue")
         && (f.name == "type" ==> f.value.StringValue? && TypeSyntax.ParseType(f.value.s).Success?
                                  && NamedTypeOf(TypeSyntax.ParseType(f.value.s).value) in schema.types)
  }

  /** An argument definition is reported exactly when it is not well formed. */
  lemma DefinitionDiagnosticsExact(schema: Schema, arg: Argument)
    ensures DefinitionDiagnostics(schema, arg) == [] <==> WellFormedDefinition(schema, arg)
  {
    if arg.value.ObjectValue? && HasField(arg.value.fields, "type") {
      var fields := arg.value.fields;
      assert forall i :: 0 <= i < |fields| ==>
        (MetadataFieldDiagnostics(schema, fields[i]) == [] <==>
          (fields[i].name == "type" || fields[i].name == "defaultValue")
          && (fields[i].name == "type" ==>
                (fields[i].value.StringValue? && TypeSyntax.ParseType(fields[i].value.s).Success?
                 && NamedTypeOf(TypeSyntax.ParseType(fields[i].value.s).value) in schema.types)));
    }
  }

  /**
    The metadata Relay's compiler writes, `{type: "<printed type>"}` with an
    optional `defaultValue`, is accepted whenever its named type exists.
   */
  lemma PrintedDefinitionAccepted(schema: Schema, name: string, t: TypeRef, defaultValue: Option<Value>)
    requires TypeSyntax.WellFormed(t) && NamedTypeOf(t) in schema.types
    ensures var fields := [ObjectField("type", StringValue(TypeSyntax.Print(t)))]
                          + (if defaultValue.Some? then [ObjectField("defaultValue", defaultValue.value)] else []);
            DefinitionDiagnostics(schema, Argument(name, ObjectValue(fields))) == []
  {
    TypeSyntax.ParsePrintRoundTrip(t);
    var fields := [ObjectField("type", StringValue(TypeSyntax.Print(t)))]
                  + (if defaultValue.Some? then [ObjectField("defaultValue", defaultValue.value)] else []);
    assert fields[0].name == "type";
    DefinitionDiagnosticsExact(schema, Argument(name, ObjectValue(fields)));
  }

  function DefinitionsDiagnostics(schema: Schema, args: seq<Argument>): (r: seq<Diagnostic>)
    ensures r == [] <==> forall i :: 0 <= i < |args| ==> DefinitionDiagnostics(schema, args[i]) == []
  {
    if |args| == 0 then []
    else
      var here := DefinitionDiagnostics(schema, args[0]);
      var rest := DefinitionsDiagnostics(schema, args[1..]);
      assert forall i :: 1 <= i < |args| ==> args[i] == args[1..][i - 1];
      assert |here + rest| == |here| + |rest|;
      here + rest
  }

  /** `validateFragmentArgumentDefinitions`. */
  function ValidateFragmentArgumentDefinitions(schema: Schema, directive: Directive): (r: seq<Diagnostic>)
    ensures |directive.args| == 0 ==> r == [Diagnostic(MissingArgumentDefinitionsMessage, [DirectiveNode(directive)])]
    ensures |directive.args| > 0 ==> (r == [] <==> forall i :: 0 <= i < |directive.args| ==> WellFormedDefinition(schema, directive.args[i]))
  {
    if |directive.args| == 0 then [Diagnostic(MissingArgumentDefinitionsMessage, [DirectiveNode(directive)])]
    else
      forall i | 0 <= i < |directive.args| {
        DefinitionDiagnosticsExact(schema, directive.args[i]);
      }
      DefinitionsDiagnostics(schema, directive.args)
  }

  // ---------------------------------------------------------------------------
  // @arguments

  /** How many of `args` carry `name`. */
  function Count(args: seq<Argument>, name: string): nat {
    if |args| == 0 then 0 else (if args[0].name == name then 1 else 0) + Count(args[1..], name)
  }

  lemma {:induction false} CountAppend(a: seq<Argument>, b: seq<Argument>, name: string)
    ensures Count(a + b, name) == Count(a, name) + Count(b, name)
  {
    if |a| == 0 {
      assert a + b == b;
    } else {
      assert (a + b)[1..] == a[1..] + b;
      CountAppend(a[1..], b, name);
    }
  }

  lemma {:induction false} CountZero(args: seq<Argument>, name: string)
    ensures Count(args, name) == 0 <==> forall i :: 0 <= i < |args| ==> args[i].name != name
  {
    if |args| > 0 {
      CountZero(args[1..], name);
      assert forall i :: 1 <= i < |args| ==> args[i] == args[1..][i - 1];
    }
  }

  /** `Array.prototype.splice(i, 1)`. */
  function RemoveAt(args: seq<Argument>, i: nat): (r: seq<Argument>)
    requires i < |args|
    ensures |r| == |args| - 1
  {
    args[..i] + args[i + 1..]
  }

  lemma CountRemoveAt(args: seq<Argument>, i: nat, name: string)
    requires i < |args|
    ensures Count(RemoveAt(args, i), name) == Count(args, name) - (if args[i].name == name then 1 else 0)
  {
    assert args == args[..i] + ([args[i]] + args[i + 1..]);
    CountAppend(args[..i], [args[i]] + args[i + 1..], name);
    CountAppend([args[i]], args[i + 1..], name);
    CountAppend(args[..i], args[i + 1..], name);
    assert [args[i]][1..] == [];
  }

  /** A definition that must be passed: object metadata without a `defaultValue` key. */
  predicate Required(def: Argument) {
    def.value.ObjectValue? && !HasField(def.value.fields, "defaultValue")
  }

  /**
    The `forEach` over the definitions: each consumes the first remaining
    argument of its name; one with nothing to consume is missing if required.
    Returns the arguments left over and the names of the missing definitions.
   */
  function Consume(defs: seq<Argument>, remaining: seq<Argument>): (r: (seq<Argument>, seq<string>))
    decreases defs
  {
    if |defs| == 0 then (remaining, [])
    else
      var def := defs[0];
      match FindArgumentFrom(remaining, def.name, 0)
      case Some(i) => Consume(defs[1..], RemoveAt(remaining, i))
      case None =>
        var rest := Consume(defs[1..], remaining);
        (rest.0, (if Required(def) then [def.name] else []) + rest.1)
  }

  function Max0(x: int): nat {
    if x < 0 then 0 else x
  }

  /** Each definition of a name cancels one argument of that name: the surplus is left over. */
  lemma {:induction false} ConsumeLeftover(defs: seq<Argument>, remaining: seq<Argument>, name: string)
    ensures Count(Consume(defs, remaining).0, name) == Max0(Count(remaining, name) - Count(defs, name))
    decreases defs
  {
    if |defs| > 0 {
      var def := defs[0];
      match FindArgumentFrom(remaining, def.name, 0)
      case Some(i) =>
        CountRemoveAt(remaining, i, name);
        ConsumeLeftover(defs[1..], RemoveAt(remaining, i), name);
      case None =>
        CountZero(remaining, def.name);
        ConsumeLeftover(defs[1..], remaining, name);
    }
  }

  /** Definition `k` finds nothing left: the definitions of its name before it used up every argument of that name. */
  predicate Unmatched(defs: seq<Argument>, remaining: seq<Argument>, k: int)
    requires 0 <= k < |defs|
  {
    Count(defs[..k], defs[k].name) >= Count(remaining, defs[k].name)
  }

  lemma PrefixCount(defs: seq<Argument>, k: int, name: string)
    requires 0 < k <= |defs|
    ensures Count(defs[..k], name) == (if defs[0].name == name then 1 else 0) + Count(defs[1..][..k - 1], name)
  {
    assert defs[..k][1..] == defs[1..][..k - 1];
  }

  /** A name is reported missing exactly when a required definition of it is unmatched. */
  lemma {:induction false} ConsumeMissing(defs: seq<Argument>, remaining: seq<Argument>, name: string)
    ensures name in Consume(defs, remaining).1 <==>
            exists k :: 0 <= k < |defs| && defs[k].name == name && Required(defs[k]) && Unmatched(defs, remaining, k)
    decreases defs
  {
    if |defs| > 0 {
      var def := defs[0];
      var tail := defs[1..];
      match FindArgumentFrom(remaining, def.name, 0)
      case Some(i) =>
        var rem := RemoveAt(remaining, i);
        CountRemoveAt(remaining, i, name);
        ConsumeMissing(tail, rem, name);
        assert Count(remaining, def.name) > 0 by {
          CountZero(remaining, def.name);
        }
        forall k | 0 < k < |defs| && defs[k].name == name
          ensures Unmatched(defs, remaining, k) <==> Unmatched(tail, rem, k - 1)
        {
          PrefixCount(defs, k, name);
          CountRemoveAt(remaining, i, name);
        }
        if name in Consume(defs, remaining).1 {
          var k :| 0 <= k < |tail| && tail[k].name == name && Required(tail[k]) && Unmatched(tail, rem, k);
          assert defs[k + 1] == tail[k];
        }
        if exists k :: 0 <= k < |defs| && defs[k].name == name && Required(defs[k]) && Unmatched(defs, remaining, k) {
          var k :| 0 <= k < |defs| && defs[k].name == name && Required(defs[k]) && Unmatched(defs, remaining, k);
          if k == 0 {
            assert defs[..0] == [];
          } else {
            assert tail[k - 1] == defs[k];
          }
        }
      case None =>
        var rest := Consume(tail, remaining);
        CountZero(remaining, def.name);
        ConsumeMissing(tail, remaining, name);
        forall k | 0 < k < |defs| && defs[k].name == name
          ensures Unmatched(defs, remaining, k) <==> Unmatched(tail, remaining, k - 1)
        {
          PrefixCount(defs, k, name);
        }
        assert defs[..0] == [];
        if name in Consume(defs, remaining).1 && name != def.name {
          assert name in rest.1;
          var k :| 0 <= k < |tail| && tail[k].name == name && Required(tail[k]) && Unmatched(tail, remaining, k);
          assert defs[k + 1] == tail[k];
        }
        if name in Consume(defs, remaining).1 && name == def.name && !(Required(def)) {
          assert name in rest.1;
          var k :| 0 <= k < |tail| && tail[k].name == name && Required(tail[k]) && Unmatched(tail, remaining, k);
          assert defs[k + 1] == tail[k];
        }
        if exists k :: 0 <= k < |defs| && defs[k].name == name && Required(defs[k]) && Unmatched(defs, remaining, k) {
          var k :| 0 <= k < |defs| && defs[k].name == name && Required(defs[k]) && Unmatched(defs, remaining, k);
          if k > 0 {
            assert tail[k - 1] == defs[k];
            assert name in rest.1;
          }
        }
    }
  }

  predicate DistinctNames(args: seq<Argument>) {
    forall i, j :: 0 <= i < j < |args| ==> args[i].name != args[j].name
  }

  /** With distinct definition names, a required definition is missing exactly when no argument carries its name. */
  lemma MissingWhenNotPassed(defs: seq<Argument>, passed: seq<Argument>, name: string)
    requires DistinctNames(defs)
    ensures name in Consume(defs, passed).1 <==>
            (exists k :: 0 <= k < |defs| && defs[k].name == name && Required(defs[k])) && !HasArgument(passed, name)
  {
    ConsumeMissing(defs, passed, name);
    CountZero(passed, name);
    forall k | 0 <= k < |defs| && defs[k].name == name ensures Count(defs[..k], name) == 0 {
      CountZero(defs[..k], name);
    }
  }

  /** `validateFragmentArguments`. */
  function ValidateFragmentArguments(env: Suggestions, fragment: Fragment, hostName: string, host: Node, directive: Directive): (r: seq<Diagnostic>)
    ensures GetArgumentDefinitions(fragment).None? ==> r == [Diagnostic(NoDefinitionsMessage(hostName), [host])]
  {
    match GetArgumentDefinitions(fragment)
    case None => [Diagnostic(NoDefinitionsMessage(hostName), [host])]
    case Some(defs) =>
      var (leftover, missing) := Consume(defs, directive.args);
      MissingDiagnostics(missing, directive) + UnknownDiagnostics(env, leftover, ArgumentNamesOf(defs), directive)
  }

  function ArgumentNamesOf(args: seq<Argument>): (r: seq<string>)
    ensures |r| == |args| && forall i :: 0 <= i < |args| ==> r[i] == args[i].name
  {
    seq(|args|, i requires 0 <= i < |args| => args[i].name)
  }

  function MissingDiagnostics(missing: seq<string>, directive: Directive): (r: seq<Diagnostic>)
    ensures |r| == |missing| && forall i :: 0 <= i < |missing| ==> r[i] == Diagnostic(MissingArgumentMessage(missing[i]), [DirectiveNode(directive)])
  {
    seq(|missing|, i requires 0 <= i < |missing| => Diagnostic(MissingArgumentMessage(missing[i]), [DirectiveNode(directive)]))
  }

  function UnknownDiagnostics(env: Suggestions, leftover: seq<Argument>, defined: seq<string>, directive: Directive): (r: seq<Diagnostic>)
    ensures |r| == |leftover|
    ensures forall i :: 0 <= i < |leftover| ==>
              r[i] == Diagnostic(UnknownArgumentMessage(env, leftover[i].name, env.suggestionList(leftover[i].name, defined)), [DirectiveNode(directive)])
  {
    seq(|leftover|, i requires 0 <= i < |leftover| =>
      Diagnostic(UnknownArgumentMessage(env, leftover[i].name, env.suggestionList(leftover[i].name, defined)), [DirectiveNode(directive)]))
  }

  /**
    When the fragment defines its arguments, the `@arguments` of a spread get
    one "missing" report per unmatched required definition, then one "unknown"
    report per argument beyond the definitions of its name.
   */
  lemma ValidateFragmentArgumentsCounts(env: Suggestions, fragment: Fragment, hostName: string, host: Node, directive: Directive, name: string)
    requires GetArgumentDefinitions(fragment).Some?
    ensures var defs := GetArgumentDefinitions(fragment).value;
            var (leftover, missing) := Consume(defs, directive.args);
            && ValidateFragmentArguments(env, fragment, hostName, host, directive)
                 == MissingDiagnostics(missing, directive) + UnknownDiagnostics(env, leftover, ArgumentNamesOf(defs), directive)
            && Count(leftover, name) == Max0(Count(directive.args, name) - Count(defs, name))
            && (name in missing <==> exists k :: 0 <= k < |defs| && defs[k].name == name && Required(defs[k]) && Unmatched(defs, directive.args, k))
  {
    var defs := GetArgumentDefinitions(fragment).value;
    ConsumeLeftover(defs, directive.args, name);
    ConsumeMissing(defs, directive.args, name);
  }

  // ---------------------------------------------------------------------------
  // The rule

  /** The name the rule reads off the node `@arguments` is attached to; nothing where it would throw. */
  function HostName(a: Ancestor): (r: Option<string>)
    ensures r.None? <==> (a.AncestorSelection? && a.sel.InlineFragment?) || (a.AncestorOperation? && a.op.name.None?)
  {
    match a
    case AncestorSelection(sel) =>
      (match sel
       case Field(_, name, _, _, _, _) => Some(name)
       case FragmentSpread(name, _) => Some(name)
       case InlineFragment(_, _, _) => None)
    case AncestorFragment(f) => Some(f.name)
    case AncestorOperation(op) => op.name
  }

  function HostNode(a: Ancestor): Node {
    match a
    case AncestorSelection(sel) => SelectionNode(sel)
    case AncestorFragment(f) => FragmentNode(f)
    case AncestorOperation(op) => OperationNode(op)
  }

  /** Reading `name.value` off an inline fragment or an anonymous operation throws a `TypeError`. */
  const HostTypeError: string := "TypeError: Cannot read properties of undefined (reading 'value')"

  /** The `Directive` visitor on one directive; other directives go to graphql-js's own rule. */
  function SiteDiagnostics(schema: Schema, doc: Document, env: Suggestions, site: DirectiveSite): (r: Result<seq<Diagnostic>, string>)
    ensures r.Failure? <==> site.directive.name == "arguments" && |site.ancestors| > 0
                            && HostName(site.ancestors[|site.ancestors| - 1]).None?
    ensures site.directive.name != "argumentDefinitions" && site.directive.name != "arguments" ==> r == Success([])
    ensures site.directive.name == "argumentDefinitions" ==> r == Success(ValidateFragmentArgumentDefinitions(schema, site.directive))
    ensures site.directive.name == "arguments" && |site.ancestors| > 0 ==>
              var host := site.ancestors[|site.ancestors| - 1];
              HostName(host).Some? ==>
                (GetFragment(doc, HostName(host).value).None? ==> r == Success([]))
                && (GetFragment(doc, HostName(host).value).Some? ==>
                      r == Success(ValidateFragmentArguments(env, GetFragment(doc, HostName(host).value).value,
                                                             HostName(host).value, HostNode(host), site.directive)))
  {
    var d := site.directive;
    if d.name == "argumentDefinitions" then Success(ValidateFragmentArgumentDefinitions(schema, d))
    else if d.name == "arguments" then
      if |site.ancestors| == 0 then Success([])
      else
        var host := site.ancestors[|site.ancestors| - 1];
        match HostName(host)
        case None => Failure(HostTypeError)
        case Some(name) =>
          match GetFragment(doc, name)
          case None => Success([])
          case Some(fragment) => Success(ValidateFragmentArguments(env, fragment, name, HostNode(host), d))
    else Success([])
  }

  /** The visitor on `site` does not throw and reports `d`. */
  predicate ReportedAt(schema: Schema, doc: Document, env: Suggestions, site: DirectiveSite, d: Diagnostic) {
    var r := SiteDiagnostics(schema, doc, env, site);
    r.Success? && d in r.value
  }

  /** The rule over a list of directive sites; an exception ends validation. */
  function SitesDiagnostics(schema: Schema, doc: Document, env: Suggestions, sites: seq<DirectiveSite>): (r: Result<seq<Diagnostic>, string>)
    ensures r.Failure? <==> exists i :: 0 <= i < |sites| && SiteDiagnostics(schema, doc, env, sites[i]).Failure?
    ensures r.Success? ==> forall d :: d in r.value <==> exists i :: 0 <= i < |sites| && ReportedAt(schema, doc, env, sites[i], d)
    ensures r.Success? ==> forall i :: 0 <= i < |sites| && sites[i].directive.name == "argumentDefinitions" ==>
                             forall d :: d in ValidateFragmentArgumentDefinitions(schema, sites[i].directive) ==> d in r.value
  {
    if |sites| == 0 then Success([])
    else
      var first := SiteDiagnostics(schema, doc, env, sites[0]);
      var rest := SitesDiagnostics(schema, doc, env, sites[1..]);
      assert forall i :: 1 <= i < |sites| ==> sites[i] == sites[1..][i - 1];
      assert forall i :: 0 <= i < |sites| - 1 ==> sites[1..][i] == sites[i + 1];
      if first.Failure? then Failure(first.error)
      else if rest.Failure? then Failure(rest.error)
      else
        assert forall d :: d in first.value <==> ReportedAt(schema, doc, env, sites[0], d);
        Success(first.value + rest.value)
  }

  /** `RelayKnownArgumentNames` over a document, apart from what it forwards to graphql-js. */
  function RelayKnownArgumentNames(schema: Schema, doc: Document, env: Suggestions): (r: Result<seq<Diagnostic>, string>)
    ensures var sites := DirectivesInDocument(doc.definitions);
            (r.Failure? <==> exists i :: 0 <= i < |sites| && SiteDiagnostics(schema, doc, env, sites[i]).Failure?)
            && (r.Success? ==> forall d :: d in r.value <==> exists i :: 0 <= i < |sites| && ReportedAt(schema, doc, env, sites[i], d))
  {
    SitesDiagnostics(schema, doc, env, DirectivesInDocument(doc.definitions))
  }
}
