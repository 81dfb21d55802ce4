/**
  The hand-written abstract syntax of a query document, restricted to what the
  fragment-argument and connection rules look at. graphql-js's TypeInfo is not
  modelled: the type it infers at a position is recorded on the node instead
  (`Site` on a variable, `fieldType` on a field).

  A field without a selection set has an empty `selections`: the grammar
  never produces an empty selection set `{ }`, so the two cannot be confused.
 */
module Ast {
  import opened Wrappers

  /** A type reference: `Named | [T] | T!` (section 2.11 of the GraphQL specification, June 2018 edition). */
  datatype TypeRef = Named(name: string) | ListOf(item: TypeRef) | NonNull(inner: TypeRef)

  /**
    What TypeInfo reports where a variable is written: the input type expected
    there and the default value of the argument or input field it fills.
   */
  datatype Site = Site(expectedType: Option<TypeRef>, defaultValue: Option<Value>)

  /** Literal and variable values (section 2.9 of the GraphQL specification). */
  datatype Value =
    | Variable(name: string, site: Site)
    | IntValue(i: int)
    | FloatValue(text: string)
    | StringValue(s: string)
    | BooleanValue(b: bool)
    | NullValue
    | EnumValue(symbol: string)
    | ListValue(items: seq<Value>)
    | ObjectValue(fields: seq<ObjectField>)

  datatype ObjectField = ObjectField(name: string, value: Value)

  datatype Argument = Argument(name: string, value: Value)

  datatype Directive = Directive(name: string, args: seq<Argument>)

  datatype Selection =
    | Field(alias: Option<string>, name: string, args: seq<Argument>, directives: seq<Directive>,
            selections: seq<Selection>, fieldType: Option<TypeRef>)
    | FragmentSpread(name: string, directives: seq<Directive>)
    | InlineFragment(typeCondition: Option<string>, directives: seq<Directive>, selections: seq<Selection>)

  datatype VariableDefinition = VariableDefinition(name: string, typ: TypeRef, defaultValue: Option<Value>)

  datatype Operation = Operation(name: Option<string>, variableDefinitions: seq<VariableDefinition>,
                                 directives: seq<Directive>, selections: seq<Selection>)

  datatype Fragment = Fragment(name: string, typeCondition: string, directives: seq<Directive>,
                               selections: seq<Selection>)

  datatype Definition = OperationDefinition(op: Operation) | FragmentDefinition(frag: Fragment)

  datatype Document = Document(definitions: seq<Definition>)

  /** The AST nodes a diagnostic points at. */
  datatype Node =
    | ValueNode(value: Value)
    | NameNode(name: string)
    | VariableNode(variableName: string)
    | DirectiveNode(directive: Directive)
    | SelectionNode(selection: Selection)
    | OperationNode(operation: Operation)
    | FragmentNode(fragment: Fragment)

  /** A validation error: a message and the nodes it is reported at. */
  datatype Diagnostic = Diagnostic(message: string, locations: seq<Node>)

  /** The operations of a document, in document order. */
  function Operations(doc: Document): (ops: seq<Operation>)
    ensures forall op :: op in ops <==> OperationDefinition(op) in doc.definitions
  {
    OperationsOf(doc.definitions)
  }

  function OperationsOf(defs: seq<Definition>): (ops: seq<Operation>)
    ensures forall op :: op in ops <==> OperationDefinition(op) in defs
    ensures |ops| <= |defs|
  {
    if |defs| == 0 then []
    else
      (if defs[0].OperationDefinition? then [defs[0].op] else []) + OperationsOf(defs[1..])
  }

  /** `true` when the type is wrapped in `!` at the outside. */
  predicate IsNonNull(t: TypeRef) {
    t.NonNull?
  }

  /** The name under all List and NonNull wrappers. */
  function NamedTypeOf(t: TypeRef): string {
    match t
    case Named(n) => n
    case ListOf(item) => NamedTypeOf(item)
    case NonNull(inner) => NamedTypeOf(inner)
  }

  /** The first object field with the given name, as `Array.prototype.find` picks it. */
  function FirstField(fields: seq<ObjectField>, name: string): (r: Option<ObjectField>)
    ensures r.None? <==> forall i :: 0 <= i < |fields| ==> fields[i].name != name
    ensures r.Some? ==> exists i :: 0 <= i < |fields| && fields[i] == r.value && fields[i].name == name &&
                          forall j :: 0 <= j < i ==> fields[j].name != name
  {
    if |fields| == 0 then None
    else if fields[0].name == name then Some(fields[0])
    else
      var r := FirstField(fields[1..], name);
      assert r.Some? ==> exists i :: 0 <= i < |fields| - 1 && fields[1..][i] == r.value && fields[1..][i].name == name &&
                          forall j :: 0 <= j < i ==> fields[1..][j].name != name;
      if r.Some? then
        var i :| 0 <= i < |fields| - 1 && fields[1..][i] == r.value && fields[1..][i].name == name &&
                 forall j :: 0 <= j < i ==> fields[1..][j].name != name;
        assert fields[i + 1] == r.value && forall j :: 0 <= j < i + 1 ==> fields[j].name != name by {
          forall j | 0 <= j < i + 1 ensures fields[j].name != name {
            if j > 0 { assert fields[j] == fields[1..][j - 1]; }
          }
        }
        r
      else r
  }

  /** `true` when some object field has the given name. */
  predicate HasField(fields: seq<ObjectField>, name: string) {
    exists i :: 0 <= i < |fields| && fields[i].name == name
  }
}
