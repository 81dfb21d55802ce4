/** The shared helpers of the rules: finding ancestors, variables in values, `@connection`. */
module Utils {
  import opened Wrappers
  import opened Ast
  import opened Schema
  import opened Visit
  import TypeSyntax

  /** Position of the first ancestor satisfying `IsSpread` from index `k` on. */
  function FirstSpreadFrom(ancestors: seq<Ancestor>, k: nat): (r: Option<nat>)
    requires k <= |ancestors|
    ensures r.None? <==> forall i :: k <= i < |ancestors| ==> !IsSpread(ancestors[i])
    ensures r.Some? ==> k <= r.value < |ancestors| && IsSpread(ancestors[r.value])
                        && forall j :: k <= j < r.value ==> !IsSpread(ancestors[j])
    decreases |ancestors| - k
  {
    if k == |ancestors| then None
    else if IsSpread(ancestors[k]) then Some(k)
    else FirstSpreadFrom(ancestors, k + 1)
  }

  predicate IsSpread(a: Ancestor) {
    a.AncestorSelection? && a.sel.FragmentSpread?
  }

  /** `findFragmentSpreadParent`: the first fragment spread among the ancestors. */
  function FindFragmentSpreadParent(ancestors: seq<Ancestor>): (r: Option<Selection>)
    ensures r.None? <==> forall i :: 0 <= i < |ancestors| ==> !IsSpread(ancestors[i])
    ensures r.Some? ==> r.value.FragmentSpread?
    ensures r.Some? ==> exists i :: 0 <= i < |ancestors| && ancestors[i] == AncestorSelection(r.value)
                                    && forall j :: 0 <= j < i ==> !IsSpread(ancestors[j])
  {
    match FirstSpreadFrom(ancestors, 0)
    case None => None
    case Some(i) => Some(ancestors[i].sel)
  }

  /** `findFragmentDefinitionParent`: the first fragment definition among the ancestors. */
  function FindFragmentDefinitionParent(ancestors: seq<Ancestor>): (r: Option<Fragment>)
    ensures r.None? <==> forall i :: 0 <= i < |ancestors| ==> !ancestors[i].AncestorFragment?
    ensures r.Some? ==> exists i :: 0 <= i < |ancestors| && ancestors[i] == AncestorFragment(r.value)
                                    && forall j :: 0 <= j < i ==> !ancestors[j].AncestorFragment?
  {
    if |ancestors| == 0 then None
    else if ancestors[0].AncestorFragment? then Some(ancestors[0].frag)
    else
      var r := FindFragmentDefinitionParent(ancestors[1..]);
      assert r.Some? ==> exists i :: 0 <= i < |ancestors[1..]| && ancestors[1..][i] == AncestorFragment(r.value)
                                     && forall j :: 0 <= j < i ==> !ancestors[1..][j].AncestorFragment?;
      assert r.Some? ==> exists i :: 1 <= i < |ancestors| && ancestors[i] == AncestorFragment(r.value)
                                     && forall j :: 0 <= j < i ==> !ancestors[j].AncestorFragment?;
      r
  }

  /**
    `containsVariableNodes`: visiting the value stops at the first `Variable`.
    `ContainsVariablesComplete` relates it to the full list of variables.
   */
  predicate ContainsVariableNodes(v: Value)
    decreases v
  {
    match v
    case Variable(_, _) => true
    case ListValue(items) => exists i :: 0 <= i < |items| && ContainsVariableNodes(items[i])
    case ObjectValue(fields) => exists i :: 0 <= i < |fields| && ContainsVariableNodes(fields[i].value)
    case _ => false
  }

  lemma {:induction false} ContainsVariablesComplete(v: Value)
    ensures ContainsVariableNodes(v) <==> |VariablesInValue(v)| > 0
    decreases v, 1
  {
    match v
    case Variable(_, _) =>
    case ListValue(items) => ContainsVariablesInValues(items);
    case ObjectValue(fields) => ContainsVariablesInFields(fields);
    case _ =>
  }

  lemma {:induction false} ContainsVariablesInValues(vs: seq<Value>)
    ensures (exists i :: 0 <= i < |vs| && ContainsVariableNodes(vs[i])) <==> |VariablesInValues(vs)| > 0
    decreases vs, 0
  {
    if |vs| > 0 {
      ContainsVariablesComplete(vs[0]);
      ContainsVariablesInValues(vs[1..]);
      if exists i :: 0 <= i < |vs| && ContainsVariableNodes(vs[i]) {
        var i :| 0 <= i < |vs| && ContainsVariableNodes(vs[i]);
        if i > 0 { assert vs[1..][i - 1] == vs[i]; }
      }
      if exists i :: 0 <= i < |vs[1..]| && ContainsVariableNodes(vs[1..][i]) {
        var i :| 0 <= i < |vs[1..]| && ContainsVariableNodes(vs[1..][i]);
        assert vs[i + 1] == vs[1..][i];
      }
    }
  }

  lemma {:induction false} ContainsVariablesInFields(fs: seq<ObjectField>)
    ensures (exists i :: 0 <= i < |fs| && ContainsVariableNodes(fs[i].value)) <==> |VariablesInFields(fs)| > 0
    decreases fs, 0
  {
    if |fs| > 0 {
      ContainsVariablesComplete(fs[0].value);
      ContainsVariablesInFields(fs[1..]);
      if exists i :: 0 <= i < |fs| && ContainsVariableNodes(fs[i].value) {
        var i :| 0 <= i < |fs| && ContainsVariableNodes(fs[i].value);
        if i > 0 { assert fs[1..][i - 1] == fs[i]; }
      }
      if exists i :: 0 <= i < |fs[1..]| && ContainsVariableNodes(fs[1..][i].value) {
        var i :| 0 <= i < |fs[1..]| && ContainsVariableNodes(fs[1..][i].value);
        assert fs[i + 1] == fs[1..][i];
      }
    }
  }

  /** graphql-js's `getNullableType`: drops one outer non-null. */
  function NullableOf(t: TypeRef): TypeRef {
    if t.NonNull? then t.inner else t
  }

  /** `makeNonNullable`: the non-null form of a type, whether or not it was non-null already. */
  function MakeNonNullable(t: TypeRef): (r: TypeRef)
    ensures r.NonNull? && r.inner == NullableOf(t)
    ensures NamedTypeOf(r) == NamedTypeOf(t)
    ensures TypeSyntax.WellFormed(t) ==> TypeSyntax.WellFormed(r)
  {
    if t.NonNull? then t else NonNull(t)
  }

  /** Making a type non-null twice is the same as once. */
  lemma MakeNonNullableIdempotent(t: TypeRef)
    ensures MakeNonNullable(MakeNonNullable(t)) == MakeNonNullable(t)
  {
  }

  /** The result of `getConnectionDirective`: the `key` string, when it is a string literal. */
  datatype ConnectionDirective = ConnectionDirective(key: Option<string>, directive: Directive)

  function FindDirectiveFrom(ds: seq<Directive>, name: string, k: nat): (r: Option<nat>)
    requires k <= |ds|
    ensures r.None? <==> forall i :: k <= i < |ds| ==> ds[i].name != name
    ensures r.Some? ==> k <= r.value < |ds| && ds[r.value].name == name
                        && forall j :: k <= j < r.value ==> ds[j].name != name
    decreases |ds| - k
  {
    if k == |ds| then None
    else if ds[k].name == name then Some(k)
    else FindDirectiveFrom(ds, name, k + 1)
  }

  function FindArgumentFrom(args: seq<Argument>, name: string, k: nat): (r: Option<nat>)
    requires k <= |args|
    ensures r.None? <==> forall i :: k <= i < |args| ==> args[i].name != name
    ensures r.Some? ==> k <= r.value < |args| && args[r.value].name == name
                        && forall j :: k <= j < r.value ==> args[j].name != name
    decreases |args| - k
  {
    if k == |args| then None
    else if args[k].name == name then Some(k)
    else FindArgumentFrom(args, name, k + 1)
  }

  /** `getConnectionDirective`: the first `@connection` of a field and the first `key` argument's string. */
  function GetConnectionDirective(field: Selection): (r: Option<ConnectionDirective>)
    requires field.Field?
    ensures r.None? <==> forall i :: 0 <= i < |field.directives| ==> field.directives[i].name != "connection"
    ensures r.Some? ==> exists i :: 0 <= i < |field.directives| && field.directives[i] == r.value.directive
                          && r.value.directive.name == "connection"
                          && forall j :: 0 <= j < i ==> field.directives[j].name != "connection"
    ensures r.Some? ==>
      var args := r.value.directive.args;
      (r.value.key.Some? <==>
         exists i :: 0 <= i < |args| && args[i].name == "key" && args[i].value.StringValue?
                     && (forall j :: 0 <= j < i ==> args[j].name != "key"))
      && forall i :: 0 <= i < |args| && args[i].name == "key" && r.value.key.Some?
                     && (forall j :: 0 <= j < i ==> args[j].name != "key")
                     ==> r.value.key.value == args[i].value.s
  {
    match FindDirectiveFrom(field.directives, "connection", 0)
    case None => None
    case Some(i) =>
      var d := field.directives[i];
      match FindArgumentFrom(d.args, "key", 0)
      case None => Some(ConnectionDirective(None, d))
      case Some(j) =>
        if d.args[j].value.StringValue? then Some(ConnectionDirective(Some(d.args[j].value.s), d))
        else Some(ConnectionDirective(None, d))
  }

  predicate EndsWith(s: string, suffix: string) {
    |suffix| <= |s| && s[|s| - |suffix|..] == suffix
  }

  /** `isConnectionType`: after dropping one non-null, an object type whose name ends in "Connection". */
  function IsConnectionType(schema: Schema, t: TypeRef): (r: bool)
    ensures r <==> exists n :: (t == Named(n) || t == NonNull(Named(n)))
                              && n in schema.types && schema.types[n].ObjectType? && EndsWith(n, "Connection")
    ensures t.ListOf? || (t.NonNull? && t.inner.ListOf?) ==> !r
  {
    var nullable := NullableOf(t);
    nullable.Named? && nullable.name in schema.types && schema.types[nullable.name].ObjectType?
    && EndsWith(nullable.name, "Connection")
  }

  /** Whether a list of arguments binds `name`; used by the rules for `first`, `last`, `after`, `before`. */
  predicate HasArgument(args: seq<Argument>, name: string) {
    exists i :: 0 <= i < |args| && args[i].name == name
  }
}
