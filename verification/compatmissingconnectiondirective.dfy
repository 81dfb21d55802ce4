/**
  `RelayCompatMissingConnectionDirective`: a field of a connection type that
  is paginated with a cursor (`after` or `before`) must carry `@connection`.
 */
module CompatMissingConnectionDirective {
  import opened Wrappers
  import opened Ast
  import opened Schema
  import opened Visit
  import opened Utils
  import Compat = CompatRequiredPageInfoFields

  const MissingDirectiveMessage: string := "Missing @connection directive"

  /** A cursor argument is passed: `after` or `before`. */
  predicate UsesCursor(field: Selection)
    requires field.Field?
  {
    HasArgument(field.args, "after") || HasArgument(field.args, "before")
  }

  /** The `Field` visitor on one field: a report at the field, or nothing. */
  function FieldDiagnostic(schema: Schema, field: Selection): (r: Option<Diagnostic>)
    requires field.Field?
    ensures r.Some? <==> |field.selections| > 0 && field.fieldType.Some? && IsConnectionType(schema, field.fieldType.value)
                         && (forall i :: 0 <= i < |field.directives| ==> field.directives[i].name != "connection")
                         && UsesCursor(field)
    ensures r.Some? ==> r.value.message == MissingDirectiveMessage && r.value.locations == [SelectionNode(field)]
  {
    if |field.selections| == 0 then None
    else if field.fieldType.None? || !IsConnectionType(schema, field.fieldType.value) then None
    else if GetConnectionDirective(field).None? && UsesCursor(field) then
      Some(Diagnostic(MissingDirectiveMessage, [SelectionNode(field)]))
    else None
  }

  /** `RelayCompatMissingConnectionDirective` over a document: one report per failing field, nothing else. */
  function RelayCompatMissingConnectionDirective(schema: Schema, doc: Document): (r: seq<Diagnostic>)
    ensures var fields := FieldsInDocument(doc.definitions);
            |r| <= |fields|
            && forall d :: d in r <==> exists i :: 0 <= i < |fields| && FieldDiagnostic(schema, fields[i]) == Some(d)
  {
    ReportsOf((field: Selection) => if field.Field? then FieldDiagnostic(schema, field) else None, FieldsInDocument(doc.definitions))
  }

  /** A page count alone (`first` or `last` without a cursor) never needs `@connection`. */
  lemma CountAloneNotReported(schema: Schema, field: Selection)
    requires field.Field? && !HasArgument(field.args, "after") && !HasArgument(field.args, "before")
    ensures FieldDiagnostic(schema, field).None?
  {
  }

  /**
    The two compatibility rules never both speak about one field: a field
    reported here is not examined by the `pageInfo` rule, so that rule
    reports nothing on it whatever the fuel.
   */
  lemma ExclusiveWithPageInfoRule(schema: Schema, getFragment: string -> Option<Fragment>, field: Selection, fuel: nat)
    requires field.Field? && FieldDiagnostic(schema, field).Some?
    ensures Compat.FieldDiagnostics(schema, getFragment, field, fuel) == Some([])
  {
  }
}
