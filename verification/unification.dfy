/**
  Operations that reference a fragment, and the variable definitions those
  operations agree on (`src/operationsReferencingFragment.ts`).
 */
module Unification {
  import opened Wrappers
  import opened Ast
  import opened Schema
  import opened Documents

  /** `a` is `b` with some elements dropped: every element of `a` appears in `b`, in the same order. */
  predicate IsSubsequence<T(==,!new)>(a: seq<T>, b: seq<T>)
    decreases |b|
  {
    if |a| == 0 then true
    else if |b| == 0 then false
    else if a[0] == b[0] then IsSubsequence(a[1..], b[1..])
    else IsSubsequence(a, b[1..])
  }

  /** `Array.prototype.filter`. */
  function Filter<T(==,!new)>(s: seq<T>, keep: T -> bool): (r: seq<T>)
    ensures forall x :: x in r <==> x in s && keep(x)
    ensures IsSubsequence(r, s)
  {
    if |s| == 0 then []
    else
      var rest := Filter(s[1..], keep);
      if keep(s[0]) then
        assert ([s[0]] + rest)[1..] == rest;
        [s[0]] + rest
      else
        assert |rest| > 0 ==> rest[0] != s[0] by {
          if |rest| > 0 { assert rest[0] in rest; }
        }
        rest
  }

  /** Some fragment collected by `getRecursivelyReferencedFragments(op)` is called `name`. */
  predicate References(doc: Document, op: Operation, name: string) {
    name in NamesOf(RecursivelyReferencedFragments(doc, op))
  }

  /** `operationsReferencingFragment`: the operations that reach fragment `name`, in document order. */
  function OperationsReferencingFragment(doc: Document, name: string): (r: seq<Operation>)
    ensures forall op :: op in r <==> OperationDefinition(op) in doc.definitions && References(doc, op, name)
    ensures IsSubsequence(r, Operations(doc))
  {
    Filter(Operations(doc), (op: Operation) => References(doc, op, name))
  }

  /**
    An operation references a fragment exactly when the fragment is defined and a
    chain of spreads leads to it from the operation's selection set.
   */
  lemma OperationsReferencingFragmentReachable(doc: Document, name: string, op: Operation)
    ensures op in OperationsReferencingFragment(doc, name) <==>
            OperationDefinition(op) in doc.definitions && name in FragmentNames(doc) && Reachable(doc, op.selections, name)
  {
    RecursivelyReferencedFragmentsReachable(doc, op, name);
  }

  /** `x` occurs in every list of `values`. */
  predicate InEvery<T(==,!new)>(values: seq<seq<T>>, x: T) {
    forall k :: 0 <= k < |values| ==> x in values[k]
  }

  /** `intersectValues`: the elements of the first list that occur in every list, in the first list's order. */
  function IntersectValues<T(==,!new)>(values: seq<seq<T>>): (r: seq<T>)
    ensures |values| == 0 ==> r == []
    ensures |values| > 0 ==> IsSubsequence(r, values[0])
    ensures forall x :: x in r <==> |values| > 0 && InEvery(values, x)
  {
    if |values| == 0 then []
    else
      var r := Filter(values[0], (x: T) => InEvery(values, x));
      assert forall x :: InEvery(values, x) ==> x in values[0];
      r
  }

  /** One operation's definition of a variable, with its type resolved against the schema. */
  datatype DeclaredVariable = DeclaredVariable(typ: TypeRef, astType: Option<TypeRef>, defaultValue: Option<Value>, node: Node)

  /** The definition the operations agree on. */
  datatype UnifiedVariable = UnifiedVariable(typ: TypeRef, defaultValue: Option<Value>, node: Node)

  function Declare(schema: Schema, vd: VariableDefinition): (d: DeclaredVariable)
    ensures d.astType.Some? <==> NamedTypeOf(vd.typ) in schema.types
    ensures d.astType.Some? ==> d.astType.value == vd.typ
  {
    DeclaredVariable(vd.typ, TypeFromAst(schema, vd.typ), vd.defaultValue, VariableNode(vd.name))
  }

  function Names(vds: seq<VariableDefinition>): set<string> {
    set i | 0 <= i < |vds| :: vds[i].name
  }

  lemma NamesSnoc(vds: seq<VariableDefinition>)
    requires |vds| > 0
    ensures Names(vds) == Names(vds[..|vds| - 1]) + {vds[|vds| - 1].name}
  {
    var init := vds[..|vds| - 1];
    forall n | n in Names(vds) ensures n in Names(init) + {vds[|vds| - 1].name} {
      var i :| 0 <= i < |vds| && vds[i].name == n;
      if i < |vds| - 1 { assert init[i] == vds[i]; }
    }
    forall n | n in Names(init) ensures n in Names(vds) {
      var i :| 0 <= i < |init| && init[i].name == n;
      assert vds[i] == init[i];
    }
  }

  /** The reduce over `op.variableDefinitions`: a later definition of a name replaces an earlier one. */
  function DeclaredVariables(schema: Schema, vds: seq<VariableDefinition>): (m: map<string, DeclaredVariable>)
    ensures m.Keys == Names(vds)
  {
    if |vds| == 0 then map[]
    else
      NamesSnoc(vds);
      var last := vds[|vds| - 1];
      DeclaredVariables(schema, vds[..|vds| - 1])[last.name := Declare(schema, last)]
  }

  /** The last definition of a name is the one kept. */
  lemma {:induction false} DeclaredVariablesLast(schema: Schema, vds: seq<VariableDefinition>, i: int)
    requires 0 <= i < |vds| && forall j :: i < j < |vds| ==> vds[j].name != vds[i].name
    ensures DeclaredVariables(schema, vds)[vds[i].name] == Declare(schema, vds[i])
  {
    if i < |vds| - 1 {
      var init := vds[..|vds| - 1];
      assert init[i] == vds[i];
      DeclaredVariablesLast(schema, init, i);
    }
  }

  predicate Distinct<T(==,!new)>(s: seq<T>) {
    forall i, j :: 0 <= i < j < |s| ==> s[i] != s[j]
  }

  /** `Object.keys` of that reduce: each defined name once, in order of first definition. */
  function DeclaredNames(vds: seq<VariableDefinition>): (r: seq<string>)
    ensures forall n :: n in r <==> n in Names(vds)
    ensures Distinct(r)
  {
    if |vds| == 0 then []
    else
      NamesSnoc(vds);
      var init := DeclaredNames(vds[..|vds| - 1]);
      var n := vds[|vds| - 1].name;
      if n in init then init else init + [n]
  }

  /** The first appearance order of `DeclaredNames` is the order of first definition. */
  lemma {:induction false} DeclaredNamesOrder(vds: seq<VariableDefinition>, i: int, j: int)
    requires 0 <= i < j < |DeclaredNames(vds)|
    ensures exists a, b :: 0 <= a < b < |vds| && vds[a].name == DeclaredNames(vds)[i] && vds[b].name == DeclaredNames(vds)[j]
                           && forall c :: 0 <= c < b ==> vds[c].name != DeclaredNames(vds)[j]
  {
    var init := vds[..|vds| - 1];
    var r := DeclaredNames(vds);
    var ri := DeclaredNames(init);
    NamesSnoc(vds);
    if j < |ri| {
      assert r[i] == ri[i] && r[j] == ri[j];
      DeclaredNamesOrder(init, i, j);
      var a, b :| 0 <= a < b < |init| && init[a].name == ri[i] && init[b].name == ri[j]
                  && forall c :: 0 <= c < b ==> init[c].name != ri[j];
      assert vds[a] == init[a] && vds[b] == init[b];
      assert forall c :: 0 <= c < b ==> vds[c] == init[c];
    } else {
      var n := vds[|vds| - 1].name;
      assert r[i] == ri[i] && r[j] == n && n !in ri;
      assert ri[i] in Names(init);
      var a :| 0 <= a < |init| && init[a].name == ri[i];
      assert vds[a] == init[a];
      forall c | 0 <= c < |vds| - 1 ensures vds[c].name != n {
        assert init[c] == vds[c];
        assert init[c].name in Names(init);
      }
    }
  }

  /** Every operation defines `name`. */
  predicate DeclaredByAll(schema: Schema, ops: seq<Operation>, name: string) {
    forall k :: 0 <= k < |ops| ==> name in DeclaredVariables(schema, ops[k].variableDefinitions)
  }

  /** `variables.map(vars => vars[varName])`. */
  function DefinitionsOf(schema: Schema, ops: seq<Operation>, name: string): (defs: seq<DeclaredVariable>)
    requires DeclaredByAll(schema, ops, name)
    ensures |defs| == |ops|
  {
    seq(|ops|, k requires 0 <= k < |ops| => DeclaredVariables(schema, ops[k].variableDefinitions)[name])
  }

  /** Every definition's resolved type is a subtype of definition `i`'s. */
  predicate IsLowestCommon(defs: seq<DeclaredVariable>, i: int)
    requires 0 <= i < |defs|
  {
    forall j :: 0 <= j < |defs| ==> IsSubTypeOfResolved(defs[j].astType, defs[i].astType)
  }

  /** The `find` of `lowestCommonDef`. */
  function LowestCommon(defs: seq<DeclaredVariable>, from: nat): (r: Option<nat>)
    requires from <= |defs|
    ensures r.None? <==> forall i :: from <= i < |defs| ==> !IsLowestCommon(defs, i)
    ensures r.Some? ==> from <= r.value < |defs| && IsLowestCommon(defs, r.value)
                        && forall i :: from <= i < r.value ==> !IsLowestCommon(defs, i)
    decreases |defs| - from
  {
    if from == |defs| then None
    else if IsLowestCommon(defs, from) then Some(from)
    else LowestCommon(defs, from + 1)
  }

  /** Every definition has a default value and none of them is `null`. */
  predicate AllNonNullDefaults(defs: seq<DeclaredVariable>) {
    forall i :: 0 <= i < |defs| ==> defs[i].defaultValue.Some? && !defs[i].defaultValue.value.NullValue?
  }

  /**
    The definition that stands for all of `defs`: the first one whose type every
    other is a subtype of. A nullable choice becomes non-null without a default
    when every definition has a non-null default, and loses its default otherwise.
   */
  function Unify(defs: seq<DeclaredVariable>): (r: Option<UnifiedVariable>)
    ensures r.None? <==> forall i :: 0 <= i < |defs| ==> !IsLowestCommon(defs, i)
    ensures r.Some? ==> exists i :: 0 <= i < |defs| && IsLowestCommon(defs, i) && r.value.node == defs[i].node
                          && (forall h :: 0 <= h < i ==> !IsLowestCommon(defs, h))
                          && (defs[i].typ.NonNull? ==> r.value.typ == defs[i].typ && r.value.defaultValue == defs[i].defaultValue)
                          && (!defs[i].typ.NonNull? ==>
                                (r.value.defaultValue.None? &&
                                 r.value.typ == if AllNonNullDefaults(defs) then NonNull(defs[i].typ) else defs[i].typ))
    ensures r.Some? && r.value.defaultValue.Some? ==> r.value.typ.NonNull?
  {
    match LowestCommon(defs, 0)
    case None => None
    case Some(i) =>
      var def := defs[i];
      if !def.typ.NonNull? then
        if AllNonNullDefaults(defs) then Some(UnifiedVariable(NonNull(def.typ), None, def.node))
        else Some(UnifiedVariable(def.typ, None, def.node))
      else Some(UnifiedVariable(def.typ, def.defaultValue, def.node))
  }

  /** The reduce over the shared names. */
  function UnifyAll(schema: Schema, ops: seq<Operation>, names: seq<string>): (m: map<string, UnifiedVariable>)
    requires forall n :: n in names ==> DeclaredByAll(schema, ops, n)
    ensures forall n :: n in m <==> n in names && Unify(DefinitionsOf(schema, ops, n)).Some?
    ensures forall n :: n in m ==> Some(m[n]) == Unify(DefinitionsOf(schema, ops, n))
  {
    if |names| == 0 then map[]
    else
      var carry := UnifyAll(schema, ops, names[..|names| - 1]);
      var n := names[|names| - 1];
      assert forall x :: x in names <==> x in names[..|names| - 1] || x == n;
      match Unify(DefinitionsOf(schema, ops, n))
      case None => carry
      case Some(u) => carry[n := u]
  }

  /** `operationsDefinedVariables`: the variables every operation defines, unified. */
  function OperationsDefinedVariables(schema: Schema, ops: seq<Operation>): (m: map<string, UnifiedVariable>)
    ensures |ops| == 0 ==> m == map[]
    ensures forall n :: n in m <==> |ops| > 0 && DeclaredByAll(schema, ops, n) && Unify(DefinitionsOf(schema, ops, n)).Some?
    ensures forall n :: n in m ==> Some(m[n]) == Unify(DefinitionsOf(schema, ops, n))
  {
    if |ops| == 0 then map[]
    else
      var keys := seq(|ops|, k requires 0 <= k < |ops| => DeclaredNames(ops[k].variableDefinitions));
      var same := IntersectValues(keys);
      assert forall n :: n in same <==> DeclaredByAll(schema, ops, n) by {
        forall n ensures n in same <==> DeclaredByAll(schema, ops, n) {
          if n in same {
            forall k | 0 <= k < |ops| ensures n in DeclaredVariables(schema, ops[k].variableDefinitions) {
              assert n in keys[k];
            }
          }
          if DeclaredByAll(schema, ops, n) {
            forall k | 0 <= k < |keys| ensures n in keys[k] {
              assert n in DeclaredVariables(schema, ops[k].variableDefinitions);
            }
          }
        }
      }
      UnifyAll(schema, ops, same)
  }

  /**
    `getOperationsDefinedVariableDefinitionsForFragment`: the variables that
    every operation reaching the fragment defines and whose definitions have a
    lowest common type, each unified across those operations.
   */
  function OperationsDefinedVariablesForFragment(schema: Schema, doc: Document, name: string): (m: map<string, UnifiedVariable>)
    ensures var ops := OperationsReferencingFragment(doc, name);
            (forall n :: n in m <==> |ops| > 0 && DeclaredByAll(schema, ops, n) && Unify(DefinitionsOf(schema, ops, n)).Some?)
            && (forall n :: n in m ==> Some(m[n]) == Unify(DefinitionsOf(schema, ops, n)))
            && (forall n :: n in m ==> forall op :: op in ops ==> n in Names(op.variableDefinitions))
  {
    var ops := OperationsReferencingFragment(doc, name);
    UnifiedAreDeclaredByAll(schema, ops);
    OperationsDefinedVariables(schema, ops)
  }

  lemma UnifiedAreDeclaredByAll(schema: Schema, ops: seq<Operation>)
    ensures var m := OperationsDefinedVariables(schema, ops);
            forall n :: n in m ==> forall op :: op in ops ==> n in Names(op.variableDefinitions)
  {
    var m := OperationsDefinedVariables(schema, ops);
    forall n, op | n in m && op in ops ensures n in Names(op.variableDefinitions) {
      var k :| 0 <= k < |ops| && ops[k] == op;
      assert n in DeclaredVariables(schema, ops[k].variableDefinitions);
    }
  }

  /**
    When every operation's last definition of `name` is the same definition `vd`,
    the unified definition is `vd` itself, made non-null when it is nullable and
    has a non-null default.
   */
  lemma {:induction false} UnifySameDefinition(schema: Schema, ops: seq<Operation>, vd: VariableDefinition)
    requires |ops| > 0
    requires forall k :: 0 <= k < |ops| ==> LastDefines(ops[k].variableDefinitions, vd)
    ensures vd.name in OperationsDefinedVariables(schema, ops)
    ensures OperationsDefinedVariables(schema, ops)[vd.name] ==
              if vd.typ.NonNull? then UnifiedVariable(vd.typ, vd.defaultValue, VariableNode(vd.name))
              else if vd.defaultValue.Some? && !vd.defaultValue.value.NullValue? then UnifiedVariable(NonNull(vd.typ), None, VariableNode(vd.name))
              else UnifiedVariable(vd.typ, None, VariableNode(vd.name))
  {
    var d := Declare(schema, vd);
    forall k | 0 <= k < |ops| ensures DeclaredVariables(schema, ops[k].variableDefinitions)[vd.name] == d {
      LastDefinesKept(schema, ops[k].variableDefinitions, vd);
    }
    var defs := DefinitionsOf(schema, ops, vd.name);
    assert forall k :: 0 <= k < |defs| ==> defs[k] == d;
    UnifyConstant(defs, d);
  }

  lemma LastDefinesKept(schema: Schema, vds: seq<VariableDefinition>, vd: VariableDefinition)
    requires LastDefines(vds, vd)
    ensures vd.name in DeclaredVariables(schema, vds) && DeclaredVariables(schema, vds)[vd.name] == Declare(schema, vd)
  {
    var i :| 0 <= i < |vds| && vds[i] == vd && forall j :: i < j < |vds| ==> vds[j].name != vd.name;
    assert vds[i].name in Names(vds);
    DeclaredVariablesLast(schema, vds, i);
  }

  lemma UnifyConstant(defs: seq<DeclaredVariable>, d: DeclaredVariable)
    requires |defs| > 0 && forall k :: 0 <= k < |defs| ==> defs[k] == d
    ensures Unify(defs) == Some(
              if d.typ.NonNull? then UnifiedVariable(d.typ, d.defaultValue, d.node)
              else if d.defaultValue.Some? && !d.defaultValue.value.NullValue? then UnifiedVariable(NonNull(d.typ), None, d.node)
              else UnifiedVariable(d.typ, None, d.node))
  {
    assert IsLowestCommon(defs, 0);
    assert LowestCommon(defs, 0) == Some(0);
  }

  /** `vd` is the last definition of its name in `vds`. */
  predicate LastDefines(vds: seq<VariableDefinition>, vd: VariableDefinition) {
    exists i :: 0 <= i < |vds| && vds[i] == vd && forall j :: i < j < |vds| ==> vds[j].name != vd.name
  }
}
