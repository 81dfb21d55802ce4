/**
  `RelayRequiredPageInfoFields`: the stricter, modern form of the `pageInfo`
  check. A `@connection` field must select an unaliased `pageInfo { ... }`
  directly, and that selection must hold, unaliased and directly, the two
  fields its direction of pagination needs (section 5 "PageInfo" of the Relay
  Cursor Connections Specification). At most one report per field.
 */
module RequiredPageInfoFields {
  import opened Wrappers
  import opened Ast
  import opened Schema
  import opened Visit
  import opened Utils
  import Compat = CompatRequiredPageInfoFields

  /** `hasConnectionDirective`: some directive of the field is named `connection`. */
  predicate HasConnectionDirective(field: Selection)
    requires field.Field?
  {
    exists i :: 0 <= i < |field.directives| && field.directives[i].name == "connection"
  }

  /** The local test and `getConnectionDirective` agree on which fields carry `@connection`. */
  lemma HasConnectionDirectiveIffFound(field: Selection)
    requires field.Field?
    ensures HasConnectionDirective(field) <==> GetConnectionDirective(field).Some?
  {
  }

  /** A field selected under its own name (no alias) called `name`. */
  predicate Unaliased(s: Selection, name: string) {
    s.Field? && s.alias.None? && s.name == name
  }

  /** The first selection that is `Unaliased(_, name)`, from position `k` on. */
  function FindUnaliased(sels: seq<Selection>, name: string, k: nat): (r: Option<nat>)
    requires k <= |sels|
    ensures r.None? <==> forall i :: k <= i < |sels| ==> !Unaliased(sels[i], name)
    ensures r.Some? ==> k <= r.value < |sels| && Unaliased(sels[r.value], name)
                        && forall j :: k <= j < r.value ==> !Unaliased(sels[j], name)
    decreases |sels| - k
  {
    if k == |sels| then None
    else if Unaliased(sels[k], name) then Some(k)
    else FindUnaliased(sels, name, k + 1)
  }

  /**
    `getPageInfoSelection`: the selection set of the first unaliased
    `pageInfo` of the field. When that first one has no selection set the
    result is `None`, even if a later unaliased `pageInfo` has one.
   */
  function GetPageInfoSelection(field: Selection): (r: Option<seq<Selection>>)
    requires field.Field?
    ensures r.Some? <==> exists i :: 0 <= i < |field.selections| && Unaliased(field.selections[i], "pageInfo")
                                     && |field.selections[i].selections| > 0
                                     && forall j :: 0 <= j < i ==> !Unaliased(field.selections[j], "pageInfo")
    ensures r.Some? ==> |r.value| > 0 && exists i :: 0 <= i < |field.selections| && Unaliased(field.selections[i], "pageInfo")
                                                     && r.value == field.selections[i].selections
  {
    match FindUnaliased(field.selections, "pageInfo", 0)
    case None => None
    case Some(i) =>
      if |field.selections[i].selections| == 0 then None else Some(field.selections[i].selections)
  }

  /** Some selection is the unaliased field `name`. */
  predicate HasDirectField(sels: seq<Selection>, name: string) {
    exists i :: 0 <= i < |sels| && Unaliased(sels[i], name)
  }

  /** `hasForwardConnectionPageInfoFields`. */
  predicate HasForwardFields(sels: seq<Selection>) {
    HasDirectField(sels, "endCursor") && HasDirectField(sels, "hasNextPage")
  }

  /** `hasBackwardConnectionPageInfoFields`. */
  predicate HasBackwardFields(sels: seq<Selection>) {
    HasDirectField(sels, "startCursor") && HasDirectField(sels, "hasPreviousPage")
  }

  /** `fieldNode.alias || fieldNode.name`, read as a string. */
  function SelectionName(field: Selection): string
    requires field.Field?
  {
    if field.alias.Some? then field.alias.value else field.name
  }

  /** What the rule can find wrong with a field, in the order it looks. */
  datatype Problem = NoPageInfo | NoForwardFields | NoBackwardFields

  function Message(p: Problem, name: string): string {
    match p
    case NoPageInfo => "Missing pageInfo selection on connection \"" + name + "\"."
    case NoForwardFields => "Missing forward pageInfo fields \"hasNextPage\" and \"endCursor\" for connection \"" + name + "\"."
    case NoBackwardFields => "Missing backward pageInfo fields \"hasPreviousPage\" and \"startCursor\" for connection \"" + name + "\"."
  }

  /** The rule looks at a field with a selection set, of a connection type, carrying `@connection`. */
  predicate Examined(schema: Schema, field: Selection)
    requires field.Field?
  {
    |field.selections| > 0 && field.fieldType.Some? && IsConnectionType(schema, field.fieldType.value)
    && HasConnectionDirective(field)
  }

  /** The field selects `pageInfo { ... }` holding the fields of each direction it paginates in. */
  predicate PageInfoComplete(field: Selection)
    requires field.Field?
  {
    GetPageInfoSelection(field).Some?
    && (Compat.IsForward(field) ==> HasForwardFields(GetPageInfoSelection(field).value))
    && (Compat.IsBackward(field) ==> HasBackwardFields(GetPageInfoSelection(field).value))
  }

  /**
    The checks of the `Field` visitor on one field: the first that fails, in
    the order selection, forward fields, backward fields.
   */
  function FieldProblem(schema: Schema, field: Selection): (r: Option<Problem>)
    requires field.Field?
    ensures r.None? <==> !Examined(schema, field) || PageInfoComplete(field)
    ensures r == Some(NoPageInfo) <==> Examined(schema, field) && GetPageInfoSelection(field).None?
    ensures r == Some(NoForwardFields) ==> Compat.IsForward(field) && !HasForwardFields(GetPageInfoSelection(field).value)
    ensures r == Some(NoBackwardFields) ==> Compat.IsBackward(field) && !HasBackwardFields(GetPageInfoSelection(field).value)
    ensures r == Some(NoBackwardFields) ==> !Compat.IsForward(field) || HasForwardFields(GetPageInfoSelection(field).value)
  {
    if !Examined(schema, field) then None
    else
      match GetPageInfoSelection(field)
      case None => Some(NoPageInfo)
      case Some(pageInfo) =>
        if Compat.IsForward(field) && !HasForwardFields(pageInfo) then Some(NoForwardFields)
        else if Compat.IsBackward(field) && !HasBackwardFields(pageInfo) then Some(NoBackwardFields)
        else None
  }

  /** The `Field` visitor on one field: the report of its problem, at the field, named by alias or name. */
  function FieldDiagnostic(schema: Schema, field: Selection): (r: Option<Diagnostic>)
    requires field.Field?
    ensures r.None? <==> !Examined(schema, field) || PageInfoComplete(field)
    ensures r.Some? ==> r.value.locations == [SelectionNode(field)]
                        && r.value.message == Message(FieldProblem(schema, field).value, SelectionName(field))
  {
    match FieldProblem(schema, field)
    case None => None
    case Some(p) => Some(Diagnostic(Message(p, SelectionName(field)), [SelectionNode(field)]))
  }

  /** `RelayRequiredPageInfoFields` over a document: one report per failing field, nothing else. */
  function RelayRequiredPageInfoFields(schema: Schema, doc: Document): (r: seq<Diagnostic>)
    ensures var fields := FieldsInDocument(doc.definitions);
            |r| <= |fields|
            && forall d :: d in r <==> exists i :: 0 <= i < |fields| && FieldDiagnostic(schema, fields[i]) == Some(d)
  {
    ReportsOf((field: Selection) => if field.Field? then FieldDiagnostic(schema, field) else None, FieldsInDocument(doc.definitions))
  }

  /**
    A field the modern rule accepts as a forward connection also satisfies
    the compatibility rule's forward flags, whatever the fuel: the direct
    unaliased `pageInfo { hasNextPage endCursor }` it demands is one the
    compatibility rule finds.
   */
  lemma AcceptedForwardSatisfiesCompat(schema: Schema, getFragment: string -> Option<Fragment>, field: Selection, fuel: nat)
    requires field.Field? && Examined(schema, field) && Compat.IsForward(field)
    requires FieldDiagnostic(schema, field).None?
    ensures Compat.PageInfoShowsFlag(getFragment, field.selections, fuel, Compat.HasNextPage)
    ensures Compat.PageInfoShowsFlag(getFragment, field.selections, fuel, Compat.EndCursor)
  {
    var i :| 0 <= i < |field.selections| && Unaliased(field.selections[i], "pageInfo")
             && GetPageInfoSelection(field).value == field.selections[i].selections;
    var pageInfo := field.selections[i].selections;
    var a :| 0 <= a < |pageInfo| && Unaliased(pageInfo[a], "hasNextPage");
    var b :| 0 <= b < |pageInfo| && Unaliased(pageInfo[b], "endCursor");
    Compat.DirectPageInfoSatisfies(getFragment, field.selections, fuel, Compat.HasNextPage, i, a);
    Compat.DirectPageInfoSatisfies(getFragment, field.selections, fuel, Compat.EndCursor, i, b);
  }

  /** The same for a backward connection. */
  lemma AcceptedBackwardSatisfiesCompat(schema: Schema, getFragment: string -> Option<Fragment>, field: Selection, fuel: nat)
    requires field.Field? && Examined(schema, field) && Compat.IsBackward(field)
    requires FieldDiagnostic(schema, field).None?
    ensures Compat.PageInfoShowsFlag(getFragment, field.selections, fuel, Compat.HasPreviousPage)
    ensures Compat.PageInfoShowsFlag(getFragment, field.selections, fuel, Compat.StartCursor)
  {
    var i :| 0 <= i < |field.selections| && Unaliased(field.selections[i], "pageInfo")
             && GetPageInfoSelection(field).value == field.selections[i].selections;
    var pageInfo := field.selections[i].selections;
    var a :| 0 <= a < |pageInfo| && Unaliased(pageInfo[a], "hasPreviousPage");
    var b :| 0 <= b < |pageInfo| && Unaliased(pageInfo[b], "startCursor");
    Compat.DirectPageInfoSatisfies(getFragment, field.selections, fuel, Compat.HasPreviousPage, i, a);
    Compat.DirectPageInfoSatisfies(getFragment, field.selections, fuel, Compat.StartCursor, i, b);
  }

  /** Both rules look at the same fields. */
  lemma SameFieldsExamined(schema: Schema, field: Selection)
    requires field.Field?
    ensures Examined(schema, field) <==> Compat.Examined(schema, field)
  {
    HasConnectionDirectiveIffFound(field);
  }
}
