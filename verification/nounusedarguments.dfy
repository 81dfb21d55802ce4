/**
  `RelayNoUnusedArguments`: every argument a fragment declares with
  `@argumentDefinitions` must be used as a variable in its selection set.
 */
module NoUnusedArguments {
  import opened Wrappers
  import opened Ast
  import opened Schema
  import opened Visit
  import opened Documents
  import opened ArgumentDefinitions
  import opened JsObjects
  import opened Unification

  /** `unusedArgumentMessage`. */
  function UnusedArgumentMessage(argName: string, fragmentName: string): string {
    "Argument \"" + argName + "\" in fragment \"" + fragmentName + "\" is never used."
  }

  /** `Object.keys` of the argument definitions: each name once, in order of first declaration. */
  function ArgumentKeys(args: seq<Argument>): (r: seq<string>)
    ensures forall n :: n in r <==> n in ArgNames(args)
    ensures Distinct(r)
  {
    if |args| == 0 then []
    else
      ArgNamesSnoc(args);
      var init := ArgumentKeys(args[..|args| - 1]);
      var n := args[|args| - 1].name;
      if n in init then init else init + [n]
  }

  /** The names of the fragment's arguments, in `Object.keys` order. */
  function DeclaredKeys(f: Fragment): (r: seq<string>)
    ensures Distinct(r)
  {
    match GetArgumentDefinitions(f)
    case None => []
    case Some(args) => ArgumentKeys(args)
  }

  /** The names of the variables used in the fragment's selection set (its own directives are not visited). */
  function UsedNames(f: Fragment): set<string> {
    VariableNames(VariablesInSelections(f.selections))
  }

  /** The diagnostic for an unused argument, at the definition's node. */
  function UnusedDiagnostic(defs: map<string, VarOrArgDefinition>, fragmentName: string, n: string): Diagnostic
    requires n in defs
  {
    Diagnostic(UnusedArgumentMessage(n, fragmentName), [defs[n].node])
  }

  /** The diagnostics for the keys that `counted` does not treat as used. */
  function ReportUnused(defs: map<string, VarOrArgDefinition>, fragmentName: string, keys: seq<string>, counted: set<string>): (r: seq<Diagnostic>)
    requires forall n :: n in keys ==> n in defs
    ensures |r| <= |keys|
    ensures forall d :: d in r <==> exists n :: n in keys && n !in counted && d == UnusedDiagnostic(defs, fragmentName, n)
  {
    if |keys| == 0 then []
    else
      var rest := ReportUnused(defs, fragmentName, keys[1..], counted);
      assert forall n :: n in keys <==> n == keys[0] || n in keys[1..];
      if keys[0] !in counted then [UnusedDiagnostic(defs, fragmentName, keys[0])] + rest else rest
  }

  /** The fragment's argument definitions, keyed by name, with their keys in `Object.keys` order. */
  function Definitions(schema: Schema, f: Fragment): (defs: map<string, VarOrArgDefinition>)
    ensures forall n :: n in DeclaredKeys(f) <==> n in defs
    ensures forall n :: n in defs ==> defs[n].node == NameNode(n)
  {
    GetFragmentArgumentDefinitions(schema, f)
  }

  /**
    The rule as written: `usages` is a `{}` literal, so `!usages[arg]` is false
    for an argument named like an `Object.prototype` member even when no
    variable of that name is used.
   */
  function NoUnusedArgumentsAsWritten(schema: Schema, f: Fragment): (r: seq<Diagnostic>)
    ensures forall d :: d in r <==> exists n :: n in DeclaredKeys(f) && n !in UsedNames(f) && n !in ObjectPrototypeMembers
                                                && d == Diagnostic(UnusedArgumentMessage(n, f.name), [NameNode(n)])
  {
    var defs := Definitions(schema, f);
    var r := ReportUnused(defs, f.name, DeclaredKeys(f), UsedNames(f) + ObjectPrototypeMembers);
    assert forall n :: n in defs ==> UnusedDiagnostic(defs, f.name, n) == Diagnostic(UnusedArgumentMessage(n, f.name), [NameNode(n)]);
    r
  }

  /** The rule as intended: an argument is reported exactly when no variable of its name is used. */
  function NoUnusedArgumentsFor(schema: Schema, f: Fragment): (r: seq<Diagnostic>)
    ensures forall d :: d in r <==> exists n :: n in DeclaredKeys(f) && n !in UsedNames(f)
                                                && d == Diagnostic(UnusedArgumentMessage(n, f.name), [NameNode(n)])
  {
    var defs := Definitions(schema, f);
    var r := ReportUnused(defs, f.name, DeclaredKeys(f), UsedNames(f));
    assert forall n :: n in defs ==> UnusedDiagnostic(defs, f.name, n) == Diagnostic(UnusedArgumentMessage(n, f.name), [NameNode(n)]);
    r
  }

  predicate DistinctDiagnostics(r: seq<Diagnostic>) {
    forall i, j :: 0 <= i < j < |r| ==> r[i] != r[j]
  }

  /** At most one report per declared name, each reporting a different name. */
  lemma {:induction false} ReportUnusedDistinct(defs: map<string, VarOrArgDefinition>, fragmentName: string, keys: seq<string>, counted: set<string>)
    requires forall n :: n in keys ==> n in defs
    requires forall n :: n in defs ==> defs[n].node == NameNode(n)
    requires Distinct(keys)
    ensures DistinctDiagnostics(ReportUnused(defs, fragmentName, keys, counted))
  {
    if |keys| > 0 {
      var rest := ReportUnused(defs, fragmentName, keys[1..], counted);
      ReportUnusedDistinct(defs, fragmentName, keys[1..], counted);
      if keys[0] !in counted {
        var d := UnusedDiagnostic(defs, fragmentName, keys[0]);
        DistinctConsDiagnostics(d, rest);
      }
    }
  }

  lemma DistinctConsDiagnostics(d: Diagnostic, rest: seq<Diagnostic>)
    requires DistinctDiagnostics(rest)
    requires d !in rest
    ensures DistinctDiagnostics([d] + rest)
  {
    var r := [d] + rest;
    forall i, j | 0 <= i < j < |r| ensures r[i] != r[j] {
      assert r[j] == rest[j - 1];
      if i > 0 { assert r[i] == rest[i - 1]; }
    }
  }

  /** The corrected rule reports every unused argument and nothing else. */
  lemma NoUnusedArgumentsExact(schema: Schema, f: Fragment, n: string)
    ensures Diagnostic(UnusedArgumentMessage(n, f.name), [NameNode(n)]) in NoUnusedArgumentsFor(schema, f)
            <==> n in DeclaredKeys(f) && n !in UsedNames(f)
  {
    var d := Diagnostic(UnusedArgumentMessage(n, f.name), [NameNode(n)]);
    if d in NoUnusedArgumentsFor(schema, f) {
      var m :| m in DeclaredKeys(f) && m !in UsedNames(f) && d == Diagnostic(UnusedArgumentMessage(m, f.name), [NameNode(m)]);
      assert d.locations[0] == NameNode(m);
    }
  }

  /** The corrected rule reports each unused argument once. */
  lemma NoUnusedArgumentsOnce(schema: Schema, f: Fragment)
    ensures DistinctDiagnostics(NoUnusedArgumentsFor(schema, f))
  {
    ReportUnusedDistinct(Definitions(schema, f), f.name, DeclaredKeys(f), UsedNames(f));
  }

  /** The two agree on every fragment whose arguments avoid the `Object.prototype` names. */
  lemma AsWrittenAgreesAwayFromPrototypeNames(schema: Schema, f: Fragment)
    requires forall n :: n in DeclaredKeys(f) ==> n !in ObjectPrototypeMembers
    ensures NoUnusedArgumentsAsWritten(schema, f) == NoUnusedArgumentsFor(schema, f)
  {
    var defs := Definitions(schema, f);
    ReportUnusedSameOnKeys(defs, f.name, DeclaredKeys(f), UsedNames(f) + ObjectPrototypeMembers, UsedNames(f));
  }

  lemma {:induction false} ReportUnusedSameOnKeys(defs: map<string, VarOrArgDefinition>, fragmentName: string, keys: seq<string>, a: set<string>, b: set<string>)
    requires forall n :: n in keys ==> n in defs
    requires forall n :: n in keys ==> (n in a <==> n in b)
    ensures ReportUnused(defs, fragmentName, keys, a) == ReportUnused(defs, fragmentName, keys, b)
  {
    if |keys| > 0 {
      assert keys[0] in keys;
      ReportUnusedSameOnKeys(defs, fragmentName, keys[1..], a, b);
    }
  }

  /** `fragment F on User @argumentDefinitions(constructor: {type: "Int"}) { id }`. */
  function ConstructorFragment(): Fragment {
    Fragment("F", "User",
      [Directive("argumentDefinitions", [Argument("constructor", ObjectValue([ObjectField("type", StringValue("Int"))]))])],
      [Field(None, "id", [], [], [], None)])
  }

  /**
    The argument `constructor` is never used, yet the rule as written reports
    nothing, while the corrected rule reports it.
   */
  lemma UnusedConstructorArgumentMissed(schema: Schema)
    ensures Diagnostic(UnusedArgumentMessage("constructor", "F"), [NameNode("constructor")])
              !in NoUnusedArgumentsAsWritten(schema, ConstructorFragment())
    ensures Diagnostic(UnusedArgumentMessage("constructor", "F"), [NameNode("constructor")])
              in NoUnusedArgumentsFor(schema, ConstructorFragment())
  {
    ConstructorFragmentKeys();
    ConstructorFragmentUnused();
    PrototypeNamedArgumentMissed(schema, ConstructorFragment(), "constructor");
  }

  /** As written, an unused argument with an `Object.prototype` name is never reported; corrected, it is. */
  lemma PrototypeNamedArgumentMissed(schema: Schema, f: Fragment, n: string)
    requires n in ObjectPrototypeMembers && n in DeclaredKeys(f) && n !in UsedNames(f)
    ensures Diagnostic(UnusedArgumentMessage(n, f.name), [NameNode(n)]) !in NoUnusedArgumentsAsWritten(schema, f)
    ensures Diagnostic(UnusedArgumentMessage(n, f.name), [NameNode(n)]) in NoUnusedArgumentsFor(schema, f)
  {
    NoUnusedArgumentsExact(schema, f, n);
  }

  lemma ConstructorFragmentKeys()
    ensures DeclaredKeys(ConstructorFragment()) == ["constructor"]
  {
    var f := ConstructorFragment();
    var args := [Argument("constructor", ObjectValue([ObjectField("type", StringValue("Int"))]))];
    var sites := DirectivesInDefinition(FragmentDefinition(f));
    assert sites == [DirectiveSite(f.directives[0], [AncestorFragment(f)])];
    assert GetArgumentDefinitions(f) == Some(args);
    assert args[..0] == [];
    assert ArgumentKeys(args) == ["constructor"];
  }

  lemma ConstructorFragmentUnused()
    ensures UsedNames(ConstructorFragment()) == {}
  {
    var f := ConstructorFragment();
    assert f.selections[1..] == [];
    assert VariablesInSelections(f.selections) == [];
  }

  /** The report for argument `n` of fragment `f`. */
  function UnusedReport(f: Fragment, n: string): Diagnostic {
    Diagnostic(UnusedArgumentMessage(n, f.name), [NameNode(n)])
  }

  /**
    `RelayNoUnusedArguments` over a document, as written: every fragment's
    unused arguments, in document order, except those named like an
    `Object.prototype` member.
   */
  function RelayNoUnusedArguments(schema: Schema, doc: Document): (r: seq<Diagnostic>)
    ensures forall d :: d in r <==> exists f, n :: f in FragmentsOf(doc.definitions) && n in DeclaredKeys(f) && n !in UsedNames(f)
                                                  && n !in ObjectPrototypeMembers && d == UnusedReport(f, n)
  {
    var fs := FragmentsOf(doc.definitions);
    var r := ReportsAt(f => NoUnusedArgumentsAsWritten(schema, f), fs);
    forall d | d in r
      ensures exists f, n :: f in fs && n in DeclaredKeys(f) && n !in UsedNames(f) && n !in ObjectPrototypeMembers && d == UnusedReport(f, n)
    {
      var i :| 0 <= i < |fs| && d in NoUnusedArgumentsAsWritten(schema, fs[i]);
      var n :| n in DeclaredKeys(fs[i]) && n !in UsedNames(fs[i]) && n !in ObjectPrototypeMembers
               && d == Diagnostic(UnusedArgumentMessage(n, fs[i].name), [NameNode(n)]);
      assert fs[i] in fs && d == UnusedReport(fs[i], n);
    }
    forall f, n | f in fs && n in DeclaredKeys(f) && n !in UsedNames(f) && n !in ObjectPrototypeMembers
      ensures UnusedReport(f, n) in r
    {
      var i :| 0 <= i < |fs| && fs[i] == f;
      assert UnusedReport(f, n) in NoUnusedArgumentsAsWritten(schema, fs[i]);
    }
    r
  }

  /** The corrected rule over a document: every fragment's unused arguments, whatever their names. */
  function RelayNoUnusedArgumentsCorrected(schema: Schema, doc: Document): (r: seq<Diagnostic>)
    ensures forall d :: d in r <==> exists f, n :: f in FragmentsOf(doc.definitions) && n in DeclaredKeys(f) && n !in UsedNames(f)
                                                  && d == UnusedReport(f, n)
  {
    var fs := FragmentsOf(doc.definitions);
    var r := ReportsAt(f => NoUnusedArgumentsFor(schema, f), fs);
    forall d | d in r
      ensures exists f, n :: f in fs && n in DeclaredKeys(f) && n !in UsedNames(f) && d == UnusedReport(f, n)
    {
      var i :| 0 <= i < |fs| && d in NoUnusedArgumentsFor(schema, fs[i]);
      var n :| n in DeclaredKeys(fs[i]) && n !in UsedNames(fs[i])
               && d == Diagnostic(UnusedArgumentMessage(n, fs[i].name), [NameNode(n)]);
      assert fs[i] in fs && d == UnusedReport(fs[i], n);
    }
    forall f, n | f in fs && n in DeclaredKeys(f) && n !in UsedNames(f)
      ensures UnusedReport(f, n) in r
    {
      var i :| 0 <= i < |fs| && fs[i] == f;
      assert UnusedReport(f, n) in NoUnusedArgumentsFor(schema, fs[i]);
    }
    r
  }
}
