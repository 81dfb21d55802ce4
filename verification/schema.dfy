/**
  The part of graphql-js's type system the rules consult: named-type lookup
  (`schema.getType`, `typeFromAST`, `isInputType`), the subtype relation
  (`isTypeSubTypeOf`) and literal coercion (`valueFromAST`).
 */
module Schema {
  import opened Wrappers
  import opened Ast

  datatype InputField = InputField(name: string, typ: TypeRef, hasDefault: bool)

  datatype NamedType =
    | ScalarType
    | EnumType(values: seq<string>)
    | InputObjectType(fields: seq<InputField>)
    | ObjectType
    | InterfaceType
    | UnionType

  /**
    A schema: its named types, and how custom scalars (every scalar other than
    Int, Float, String, Boolean and ID) judge a literal with `parseLiteral`.
   */
  datatype Schema = Schema(types: map<string, NamedType>, customScalarAccepts: (string, Value) -> bool)

  const MinInt: int := -2147483648
  const MaxInt: int := 2147483647

  /** graphql-js's `typeFromAST`: the schema type a type reference denotes, if its name is known. */
  function TypeFromAst(schema: Schema, t: TypeRef): (r: Option<TypeRef>)
    ensures r.Some? <==> NamedTypeOf(t) in schema.types
    ensures r.Some? ==> r.value == t
  {
    match t
    case Named(n) => if n in schema.types then Some(t) else None
    case ListOf(item) =>
      (match TypeFromAst(schema, item)
       case Some(i) => Some(ListOf(i))
       case None => None)
    case NonNull(inner) =>
      (match TypeFromAst(schema, inner)
       case Some(i) => Some(NonNull(i))
       case None => None)
  }

  predicate IsInputKind(k: NamedType) {
    k.ScalarType? || k.EnumType? || k.InputObjectType?
  }

  /** graphql-js's `isInputType` on a type the schema knows. */
  predicate IsInputType(schema: Schema, t: TypeRef)
    requires NamedTypeOf(t) in schema.types
  {
    IsInputKind(schema.types[NamedTypeOf(t)])
  }

  /** `typeFromAST` followed by `isInputType`: the resolved input type, or nothing. */
  function ResolveInputType(schema: Schema, t: TypeRef): (r: Option<TypeRef>)
    ensures r.Some? <==> NamedTypeOf(t) in schema.types && IsInputKind(schema.types[NamedTypeOf(t)])
    ensures r.Some? ==> r.value == t
  {
    match TypeFromAst(schema, t)
    case Some(st) => if IsInputType(schema, st) then Some(st) else None
    case None => None
  }

  /**
    graphql-js's `isTypeSubTypeOf` for the types variables and arguments can
    have. The branch for interface and union supertypes is left out.
   */
  function IsTypeSubTypeOf(maybeSubType: TypeRef, superType: TypeRef): bool
    decreases maybeSubType, superType
  {
    if maybeSubType == superType then true
    else if superType.NonNull? then
      maybeSubType.NonNull? && IsTypeSubTypeOf(maybeSubType.inner, superType.inner)
    else if maybeSubType.NonNull? then IsTypeSubTypeOf(maybeSubType.inner, superType)
    else if superType.ListOf? then
      maybeSubType.ListOf? && IsTypeSubTypeOf(maybeSubType.item, superType.item)
    else if maybeSubType.ListOf? then false
    else false
  }

  /**
    `isTypeSubTypeOf` on the results of `typeFromAST`, where an unknown type is
    `undefined`: only `undefined` is related to `undefined`.
   */
  predicate IsSubTypeOfResolved(maybeSubType: Option<TypeRef>, superType: Option<TypeRef>) {
    match (maybeSubType, superType)
    case (None, None) => true
    case (Some(a), Some(b)) => IsTypeSubTypeOf(a, b)
    case _ => false
  }

  /** `AreTypesCompatible`, section 5.8.5 of the GraphQL specification (June 2018 edition). */
  predicate AreTypesCompatible(variableType: TypeRef, locationType: TypeRef)
    decreases variableType, locationType
  {
    if locationType.NonNull? then
      variableType.NonNull? && AreTypesCompatible(variableType.inner, locationType.inner)
    else if variableType.NonNull? then AreTypesCompatible(variableType.inner, locationType)
    else if locationType.ListOf? then
      variableType.ListOf? && AreTypesCompatible(variableType.item, locationType.item)
    else if variableType.ListOf? then false
    else variableType == locationType
  }

  lemma {:induction false} CompatibleReflexive(t: TypeRef)
    ensures AreTypesCompatible(t, t)
  {
    match t
    case Named(_) =>
    case ListOf(item) => CompatibleReflexive(item);
    case NonNull(inner) => CompatibleReflexive(inner);
  }

  /** graphql-js's subtype test agrees with the specification's compatibility test. */
  lemma {:induction false} SubTypeIsCompatible(a: TypeRef, b: TypeRef)
    ensures IsTypeSubTypeOf(a, b) <==> AreTypesCompatible(a, b)
    decreases a, b
  {
    if a == b {
      CompatibleReflexive(a);
    } else if b.NonNull? {
      if a.NonNull? { SubTypeIsCompatible(a.inner, b.inner); }
    } else if a.NonNull? {
      SubTypeIsCompatible(a.inner, b);
    } else if b.ListOf? {
      if a.ListOf? { SubTypeIsCompatible(a.item, b.item); }
    }
  }

  lemma {:induction false} CompatibleTransitive(a: TypeRef, b: TypeRef, c: TypeRef)
    requires AreTypesCompatible(a, b) && AreTypesCompatible(b, c)
    ensures AreTypesCompatible(a, c)
    decreases a
  {
    if c.NonNull? {
      CompatibleTransitive(a.inner, b.inner, c.inner);
    } else if a.NonNull? {
      if b.NonNull? {
        CompatibleTransitive(a.inner, b.inner, c);
      } else {
        CompatibleTransitive(a.inner, b, c);
      }
    } else if c.ListOf? {
      CompatibleTransitive(a.item, b.item, c.item);
    }
  }

  /** The subtype relation is a preorder. */
  lemma SubTypeTransitive(a: TypeRef, b: TypeRef, c: TypeRef)
    requires IsTypeSubTypeOf(a, b) && IsTypeSubTypeOf(b, c)
    ensures IsTypeSubTypeOf(a, c)
  {
    SubTypeIsCompatible(a, b);
    SubTypeIsCompatible(b, c);
    SubTypeIsCompatible(a, c);
    CompatibleTransitive(a, b, c);
  }

  /** A non-null type is a subtype of its nullable form; a nullable type never is of a non-null one. */
  lemma SubTypeNullability(a: TypeRef, b: TypeRef)
    ensures IsTypeSubTypeOf(NonNull(a), a)
    ensures !a.NonNull? && b.NonNull? ==> !IsTypeSubTypeOf(a, b)
  {
    NonNullCompatible(a);
    SubTypeIsCompatible(NonNull(a), a);
    SubTypeIsCompatible(a, b);
  }

  /** The position of the last field named `name` among the first `k`. */
  function LastFieldIndex(fields: seq<ObjectField>, name: string, k: nat): (r: Option<nat>)
    requires k <= |fields|
    ensures r.None? <==> forall i :: 0 <= i < k ==> fields[i].name != name
    ensures r.Some? ==> r.value < k && fields[r.value].name == name && forall j :: r.value < j < k ==> fields[j].name != name
  {
    if k == 0 then None
    else if fields[k - 1].name == name then Some(k - 1)
    else LastFieldIndex(fields, name, k - 1)
  }

  /** The last object field with the given name: graphql-js's `keyMap` keeps the last. */
  function LastField(fields: seq<ObjectField>, name: string): (r: Option<ObjectField>)
    ensures r.None? <==> forall i :: 0 <= i < |fields| ==> fields[i].name != name
    ensures r.Some? ==> exists i :: 0 <= i < |fields| && fields[i] == r.value && r.value.name == name &&
                          forall j :: i < j < |fields| ==> fields[j].name != name
  {
    match LastFieldIndex(fields, name, |fields|)
    case None => None
    case Some(i) => Some(fields[i])
  }

  /** `parseLiteral` of the five built-in scalars; other scalars ask the schema. */
  predicate ScalarAccepts(schema: Schema, name: string, v: Value) {
    if name == "Int" then v.IntValue? && MinInt <= v.i <= MaxInt
    else if name == "Float" then v.IntValue? || v.FloatValue?
    else if name == "String" then v.StringValue?
    else if name == "Boolean" then v.BooleanValue?
    else if name == "ID" then v.StringValue? || v.IntValue?
    else schema.customScalarAccepts(name, v)
  }

  /**
    graphql-js's `valueFromAST(v, t)` without a variables map: `true` when it
    returns a value, `false` when it returns `undefined`.
   */
  predicate Coerces(schema: Schema, v: Value, t: TypeRef)
    decreases v, t
  {
    if v.Variable? then false
    else if t.NonNull? then !v.NullValue? && Coerces(schema, v, t.inner)
    else if v.NullValue? then true
    else match t
      case ListOf(item) =>
        if v.ListValue? then
          forall i | 0 <= i < |v.items| ::
            if v.items[i].Variable? then !item.NonNull? else Coerces(schema, v.items[i], item)
        else Coerces(schema, v, item)
      case Named(n) =>
        n in schema.types &&
        match schema.types[n]
        case ScalarType => ScalarAccepts(schema, n, v)
        case EnumType(values) => v.EnumValue? && v.symbol in values
        case InputObjectType(fds) =>
          v.ObjectValue? &&
          forall j | 0 <= j < |fds| ::
            var given := LastField(v.fields, fds[j].name);
            if given.None? || given.value.value.Variable? then fds[j].hasDefault || !fds[j].typ.NonNull?
            else Coerces(schema, given.value.value, fds[j].typ)
        case _ => false
  }

  /** Null coerces exactly to the nullable types. */
  lemma NullCoercion(schema: Schema, t: TypeRef)
    ensures Coerces(schema, NullValue, t) <==> !t.NonNull?
  {
  }

  /**
    Coercion is monotone in the subtype relation: a literal a type accepts is
    accepted by each of its supertypes.
   */
  lemma {:induction false} CoercionRespectsSubtyping(schema: Schema, v: Value, s: TypeRef, t: TypeRef)
    requires AreTypesCompatible(s, t)
    requires Coerces(schema, v, s)
    ensures Coerces(schema, v, t)
    decreases v, s
  {
    if t.NonNull? {
      CoercionRespectsSubtyping(schema, v, s.inner, t.inner);
    } else if s.NonNull? {
      CoercionRespectsSubtyping(schema, v, s.inner, t);
    } else if v.NullValue? {
    } else if t.ListOf? {
      if v.ListValue? {
        forall i | 0 <= i < |v.items|
          ensures if v.items[i].Variable? then !t.item.NonNull? else Coerces(schema, v.items[i], t.item)
        {
          if !v.items[i].Variable? {
            CoercionRespectsSubtyping(schema, v.items[i], s.item, t.item);
          }
        }
      } else {
        CoercionRespectsSubtyping(schema, v, s.item, t.item);
      }
    }
  }

  lemma {:induction false} NonNullCompatible(t: TypeRef)
    ensures AreTypesCompatible(NonNull(t), t)
  {
    if t.NonNull? {
      NonNullCompatible(t.inner);
    } else {
      CompatibleReflexive(t);
    }
  }

  /** `valueFromAST` against `T!` accepts a literal only if it accepts it against `T`. */
  lemma NonNullCoercionIsStricter(schema: Schema, v: Value, t: TypeRef)
    requires Coerces(schema, v, NonNull(t))
    ensures Coerces(schema, v, t) && !v.NullValue?
  {
    NonNullCompatible(t);
    CoercionRespectsSubtyping(schema, v, NonNull(t), t);
  }
}
