/**
  `RelayCompatRequiredPageInfoFields`: a paginated `@connection` field must
  select the `pageInfo` fields its direction needs, anywhere under its
  selection set through inline fragments and fragment spreads (section 4
  "Arguments" and section 5 "PageInfo" of the Relay Cursor Connections
  Specification).

  The source follows fragment spreads without a visited set, so a cycle of
  spreads recurses until the stack overflows. Here every resolved spread
  spends one unit of `fuel`, and running out yields `None`.
 */
module CompatRequiredPageInfoFields {
  import opened Wrappers
  import opened Ast
  import opened Schema
  import opened Visit
  import opened Documents
  import opened Utils

  /** `PaginationFields`: which of the four `pageInfo` fields were seen. */
  datatype PaginationFields = PaginationFields(hasNextPage: bool, hasPreviousPage: bool, startCursor: bool, endCursor: bool)

  datatype Flag = HasNextPage | HasPreviousPage | StartCursor | EndCursor

  function FlagName(f: Flag): string {
    match f
    case HasNextPage => "hasNextPage"
    case HasPreviousPage => "hasPreviousPage"
    case StartCursor => "startCursor"
    case EndCursor => "endCursor"
  }

  function Get(p: PaginationFields, f: Flag): bool {
    match f
    case HasNextPage => p.hasNextPage
    case HasPreviousPage => p.hasPreviousPage
    case StartCursor => p.startCursor
    case EndCursor => p.endCursor
  }

  const NoFields: PaginationFields := PaginationFields(false, false, false, false)

  /** One step of the `reduce` in `rollupFieldsInfo`. */
  function Or(carry: PaginationFields, el: PaginationFields): (r: PaginationFields)
    ensures forall f :: Get(r, f) == (Get(carry, f) || Get(el, f))
  {
    PaginationFields(carry.hasNextPage || el.hasNextPage, carry.hasPreviousPage || el.hasPreviousPage,
                     carry.startCursor || el.startCursor, carry.endCursor || el.endCursor)
  }

  /** `rollupFieldsInfo`: a flag is set exactly when some element sets it. */
  function Rollup(xs: seq<PaginationFields>): (r: PaginationFields)
    ensures forall f :: Get(r, f) <==> exists i :: 0 <= i < |xs| && Get(xs[i], f)
  {
    if |xs| == 0 then NoFields
    else
      var init := xs[..|xs| - 1];
      var r := Or(Rollup(init), xs[|xs| - 1]);
      assert forall i :: 0 <= i < |init| ==> init[i] == xs[i];
      r
  }

  /** The rollup does not depend on the order of its elements. */
  lemma RollupOrderIndependent(xs: seq<PaginationFields>, ys: seq<PaginationFields>)
    requires multiset(xs) == multiset(ys)
    ensures Rollup(xs) == Rollup(ys)
  {
    forall f ensures Get(Rollup(xs), f) == Get(Rollup(ys), f) {
      if Get(Rollup(xs), f) {
        var i :| 0 <= i < |xs| && Get(xs[i], f);
        assert xs[i] in multiset(ys);
        var j :| 0 <= j < |ys| && ys[j] == xs[i];
      }
      if Get(Rollup(ys), f) {
        var j :| 0 <= j < |ys| && Get(ys[j], f);
        assert ys[j] in multiset(xs);
        var i :| 0 <= i < |xs| && xs[i] == ys[j];
      }
    }
    assert Get(Rollup(xs), HasNextPage) == Get(Rollup(ys), HasNextPage);
    assert Get(Rollup(xs), HasPreviousPage) == Get(Rollup(ys), HasPreviousPage);
    assert Get(Rollup(xs), StartCursor) == Get(Rollup(ys), StartCursor);
    assert Get(Rollup(xs), EndCursor) == Get(Rollup(ys), EndCursor);
  }

  /** The flags the `Field` visitor inside `pageInfo` sets for one field name. */
  function FieldFlags(name: string): (r: PaginationFields)
    ensures forall f :: Get(r, f) <==> name == FlagName(f)
  {
    PaginationFields(name == "hasNextPage", name == "hasPreviousPage", name == "startCursor", name == "endCursor")
  }

  /** The `fields` record of `pageInfoSelectionSetPaginationInfo`: the direct fields only. */
  function DirectFlags(sels: seq<Selection>): (r: PaginationFields)
    ensures forall f :: Get(r, f) <==> exists i :: 0 <= i < |sels| && sels[i].Field? && sels[i].name == FlagName(f)
  {
    if |sels| == 0 then NoFields
    else
      var rest := DirectFlags(sels[1..]);
      assert forall i :: 1 <= i < |sels| ==> sels[i] == sels[1..][i - 1];
      assert forall i :: 0 <= i < |sels[1..]| ==> sels[1..][i] == sels[i + 1];
      Or(if sels[0].Field? then FieldFlags(sels[0].name) else NoFields, rest)
  }

  /** `pageInfoSelectionSetPaginationInfo`. */
  function PageInfoInfo(getFragment: string -> Option<Fragment>, sels: seq<Selection>, fuel: nat): Option<PaginationFields>
    decreases fuel, sels, 2
  {
    var nested :- PageInfoNested(getFragment, sels, fuel);
    Some(Rollup([DirectFlags(sels)] + nested))
  }

  /** The `nestedFieldsInfo` list: one entry per inline fragment and per resolvable spread. */
  function PageInfoNested(getFragment: string -> Option<Fragment>, sels: seq<Selection>, fuel: nat): Option<seq<PaginationFields>>
    decreases fuel, sels, 1
  {
    if |sels| == 0 then Some([])
    else
      var here :- PageInfoNestedHead(getFragment, sels, fuel);
      var rest :- PageInfoNested(getFragment, sels[1..], fuel);
      Some(here + rest)
  }

  /** What the first selection adds to `nestedFieldsInfo`. */
  function PageInfoNestedHead(getFragment: string -> Option<Fragment>, sels: seq<Selection>, fuel: nat): Option<seq<PaginationFields>>
    requires |sels| > 0
    decreases fuel, sels, 0
  {
    match sels[0]
    case Field(_, _, _, _, _, _) => Some([])
    case InlineFragment(_, _, children) =>
      var info :- PageInfoInfo(getFragment, children, fuel); Some([info])
    case FragmentSpread(name, _) =>
      match getFragment(name)
      case None => Some([])
      case Some(fragment) =>
        if fuel == 0 then None
        else var info :- PageInfoInfo(getFragment, fragment.selections, fuel - 1); Some([info])
  }

  /** `connectionSelectionSetPaginationInfo`. */
  function ConnectionInfo(getFragment: string -> Option<Fragment>, sels: seq<Selection>, fuel: nat): Option<PaginationFields>
    decreases fuel, sels, 2
  {
    var items :- ConnectionItems(getFragment, sels, fuel);
    Some(Rollup(items))
  }

  /** The `fieldsInfo` list: one entry per inline fragment, `pageInfo { ... }` field and resolvable spread. */
  function ConnectionItems(getFragment: string -> Option<Fragment>, sels: seq<Selection>, fuel: nat): Option<seq<PaginationFields>>
    decreases fuel, sels, 1
  {
    if |sels| == 0 then Some([])
    else
      var here :- ConnectionHead(getFragment, sels, fuel);
      var rest :- ConnectionItems(getFragment, sels[1..], fuel);
      Some(here + rest)
  }

  /** What the first selection adds to `fieldsInfo`. */
  function ConnectionHead(getFragment: string -> Option<Fragment>, sels: seq<Selection>, fuel: nat): Option<seq<PaginationFields>>
    requires |sels| > 0
    decreases fuel, sels, 0
  {
    match sels[0]
    case Field(_, name, _, _, children, _) =>
      if name == "pageInfo" && |children| > 0 then
        var info :- PageInfoInfo(getFragment, children, fuel); Some([info])
      else Some([])
    case InlineFragment(_, _, children) =>
      var info :- ConnectionInfo(getFragment, children, fuel); Some([info])
    case FragmentSpread(name, _) =>
      match getFragment(name)
      case None => Some([])
      case Some(fragment) =>
        if fuel == 0 then None
        else var info :- ConnectionInfo(getFragment, fragment.selections, fuel - 1); Some([info])
  }

  // ---------------------------------------------------------------------------
  // A reference definition: the fields a selection set shows through inline
  // fragments and spreads, each with the fuel left where it is reached.

  datatype Reached = Reached(field: Selection, fuel: nat)

  /** The fields of a selection set, looking through inline fragments and resolvable spreads but not into fields. */
  function Shown(getFragment: string -> Option<Fragment>, sels: seq<Selection>, fuel: nat): (r: seq<Reached>)
    decreases fuel, sels, 1
  {
    if |sels| == 0 then [] else ShownHead(getFragment, sels, fuel) + Shown(getFragment, sels[1..], fuel)
  }

  function ShownHead(getFragment: string -> Option<Fragment>, sels: seq<Selection>, fuel: nat): (r: seq<Reached>)
    requires |sels| > 0
    decreases fuel, sels, 0
  {
    match sels[0]
    case Field(_, _, _, _, _, _) => [Reached(sels[0], fuel)]
    case InlineFragment(_, _, children) => Shown(getFragment, children, fuel)
    case FragmentSpread(name, _) =>
      match getFragment(name)
      case None => []
      case Some(fragment) => if fuel == 0 then [] else Shown(getFragment, fragment.selections, fuel - 1)
  }

  /** A field named after `f` is shown by the selection set. */
  predicate ShowsFlag(getFragment: string -> Option<Fragment>, sels: seq<Selection>, fuel: nat, f: Flag) {
    exists x :: x in Shown(getFragment, sels, fuel) && x.field.Field? && x.field.name == FlagName(f)
  }

  /** A shown `pageInfo { ... }` field that shows a field named after `f`. */
  predicate PageInfoWithFlag(getFragment: string -> Option<Fragment>, x: Reached, f: Flag) {
    x.field.Field? && x.field.name == "pageInfo" && |x.field.selections| > 0
    && ShowsFlag(getFragment, x.field.selections, x.fuel, f)
  }

  /** Some shown `pageInfo { ... }` field shows a field named after `f`. */
  predicate PageInfoShowsFlag(getFragment: string -> Option<Fragment>, sels: seq<Selection>, fuel: nat, f: Flag) {
    exists x :: x in Shown(getFragment, sels, fuel) && PageInfoWithFlag(getFragment, x, f)
  }

  /** Some element of a list of pagination records sets `f`. */
  predicate AnySets(xs: seq<PaginationFields>, f: Flag) {
    exists i :: 0 <= i < |xs| && Get(xs[i], f)
  }

  lemma AnySetsAppend(a: seq<PaginationFields>, b: seq<PaginationFields>, f: Flag)
    ensures AnySets(a + b, f) <==> AnySets(a, f) || AnySets(b, f)
  {
    if AnySets(a + b, f) {
      var i :| 0 <= i < |a + b| && Get((a + b)[i], f);
      if i >= |a| { assert b[i - |a|] == (a + b)[i]; } else { assert a[i] == (a + b)[i]; }
    }
    if AnySets(a, f) {
      var i :| 0 <= i < |a| && Get(a[i], f);
      assert (a + b)[i] == a[i];
    }
    if AnySets(b, f) {
      var i :| 0 <= i < |b| && Get(b[i], f);
      assert (a + b)[|a| + i] == b[i];
    }
  }

  lemma AnySetsSingle(x: PaginationFields, f: Flag)
    ensures AnySets([x], f) <==> Get(x, f)
  {
    assert [x][0] == x;
  }

  /** Inside `pageInfo`, a flag is set exactly when a field of its name is shown. */
  lemma {:induction false} PageInfoInfoExact(getFragment: string -> Option<Fragment>, sels: seq<Selection>, fuel: nat, f: Flag)
    requires PageInfoInfo(getFragment, sels, fuel).Some?
    ensures Get(PageInfoInfo(getFragment, sels, fuel).value, f) <==> ShowsFlag(getFragment, sels, fuel, f)
    decreases fuel, sels, 2
  {
    var nested := PageInfoNested(getFragment, sels, fuel).value;
    AnySetsAppend([DirectFlags(sels)], nested, f);
    AnySetsSingle(DirectFlags(sels), f);
    PageInfoNestedExact(getFragment, sels, fuel, f);
  }

  /** A field of the selection set itself, named after `f`. */
  predicate DirectlySelects(sels: seq<Selection>, f: Flag) {
    exists i :: 0 <= i < |sels| && sels[i].Field? && sels[i].name == FlagName(f)
  }

  lemma {:induction false} PageInfoNestedExact(getFragment: string -> Option<Fragment>, sels: seq<Selection>, fuel: nat, f: Flag)
    requires PageInfoNested(getFragment, sels, fuel).Some?
    ensures ShowsFlag(getFragment, sels, fuel, f) <==>
            DirectlySelects(sels, f) || AnySets(PageInfoNested(getFragment, sels, fuel).value, f)
    decreases fuel, sels, 1
  {
    if |sels| > 0 {
      PageInfoNestedExact(getFragment, sels[1..], fuel, f);
      PageInfoNestedHeadExact(getFragment, sels, fuel, f);
      AnySetsAppend(PageInfoNestedHead(getFragment, sels, fuel).value, PageInfoNested(getFragment, sels[1..], fuel).value, f);
      assert DirectlySelects(sels, f) <==> (sels[0].Field? && sels[0].name == FlagName(f)) || DirectlySelects(sels[1..], f) by {
        if DirectlySelects(sels, f) {
          var i :| 0 <= i < |sels| && sels[i].Field? && sels[i].name == FlagName(f);
          if i > 0 { assert sels[1..][i - 1] == sels[i]; }
        }
        if DirectlySelects(sels[1..], f) {
          var i :| 0 <= i < |sels[1..]| && sels[1..][i].Field? && sels[1..][i].name == FlagName(f);
          assert sels[i + 1] == sels[1..][i];
        }
      }
    }
  }

  lemma {:induction false} PageInfoNestedHeadExact(getFragment: string -> Option<Fragment>, sels: seq<Selection>, fuel: nat, f: Flag)
    requires |sels| > 0 && PageInfoNestedHead(getFragment, sels, fuel).Some?
    ensures (exists x :: x in ShownHead(getFragment, sels, fuel) && x.field.Field? && x.field.name == FlagName(f)) <==>
            (sels[0].Field? && sels[0].name == FlagName(f)) || AnySets(PageInfoNestedHead(getFragment, sels, fuel).value, f)
    decreases fuel, sels, 0
  {
    match sels[0]
    case Field(_, _, _, _, _, _) =>
      assert ShownHead(getFragment, sels, fuel) == [Reached(sels[0], fuel)];
    case InlineFragment(_, _, children) =>
      PageInfoInfoExact(getFragment, children, fuel, f);
      AnySetsSingle(PageInfoInfo(getFragment, children, fuel).value, f);
    case FragmentSpread(name, _) =>
      match getFragment(name)
      case None =>
      case Some(fragment) =>
        if fuel > 0 {
          PageInfoInfoExact(getFragment, fragment.selections, fuel - 1, f);
          AnySetsSingle(PageInfoInfo(getFragment, fragment.selections, fuel - 1).value, f);
        }
  }

  /**
    Under a connection, a flag is set exactly when some shown `pageInfo`
    field with a selection set shows a field of the flag's name.
   */
  lemma {:induction false} ConnectionInfoExact(getFragment: string -> Option<Fragment>, sels: seq<Selection>, fuel: nat, f: Flag)
    requires ConnectionInfo(getFragment, sels, fuel).Some?
    ensures Get(ConnectionInfo(getFragment, sels, fuel).value, f) <==> PageInfoShowsFlag(getFragment, sels, fuel, f)
    decreases fuel, sels, 2
  {
    ConnectionItemsExact(getFragment, sels, fuel, f);
  }

  lemma {:induction false} ConnectionItemsExact(getFragment: string -> Option<Fragment>, sels: seq<Selection>, fuel: nat, f: Flag)
    requires ConnectionItems(getFragment, sels, fuel).Some?
    ensures AnySets(ConnectionItems(getFragment, sels, fuel).value, f) <==> PageInfoShowsFlag(getFragment, sels, fuel, f)
    decreases fuel, sels, 1
  {
    if |sels| > 0 {
      ConnectionItemsExact(getFragment, sels[1..], fuel, f);
      ConnectionHeadExact(getFragment, sels, fuel, f);
      AnySetsAppend(ConnectionHead(getFragment, sels, fuel).value, ConnectionItems(getFragment, sels[1..], fuel).value, f);
    }
  }

  lemma {:induction false} ConnectionHeadExact(getFragment: string -> Option<Fragment>, sels: seq<Selection>, fuel: nat, f: Flag)
    requires |sels| > 0 && ConnectionHead(getFragment, sels, fuel).Some?
    ensures AnySets(ConnectionHead(getFragment, sels, fuel).value, f) <==>
            exists x :: x in ShownHead(getFragment, sels, fuel) && PageInfoWithFlag(getFragment, x, f)
    decreases fuel, sels, 0
  {
    match sels[0]
    case Field(_, name, _, _, children, _) =>
      assert ShownHead(getFragment, sels, fuel) == [Reached(sels[0], fuel)];
      var x := Reached(sels[0], fuel);
      if name == "pageInfo" && |children| > 0 {
        PageInfoInfoExact(getFragment, children, fuel, f);
        AnySetsSingle(PageInfoInfo(getFragment, children, fuel).value, f);
        assert PageInfoWithFlag(getFragment, x, f) <==> ShowsFlag(getFragment, children, fuel, f);
      } else {
        assert !PageInfoWithFlag(getFragment, x, f);
      }
    case InlineFragment(_, _, children) =>
      ConnectionInfoExact(getFragment, children, fuel, f);
      AnySetsSingle(ConnectionInfo(getFragment, children, fuel).value, f);
    case FragmentSpread(name, _) =>
      match getFragment(name)
      case None =>
      case Some(fragment) =>
        if fuel > 0 {
          ConnectionInfoExact(getFragment, fragment.selections, fuel - 1, f);
          AnySetsSingle(ConnectionInfo(getFragment, fragment.selections, fuel - 1).value, f);
        }
  }

  /** Every field written directly in a selection set is shown, with the full fuel. */
  lemma {:induction false} DirectFieldShown(getFragment: string -> Option<Fragment>, sels: seq<Selection>, fuel: nat, i: int)
    requires 0 <= i < |sels| && sels[i].Field?
    ensures Reached(sels[i], fuel) in Shown(getFragment, sels, fuel)
  {
    if i == 0 {
      assert ShownHead(getFragment, sels, fuel) == [Reached(sels[0], fuel)];
    } else {
      assert sels[1..][i - 1] == sels[i];
      DirectFieldShown(getFragment, sels[1..], fuel, i - 1);
    }
  }

  /**
    A `pageInfo { ... }` written directly under the connection, with a field
    named after `f` directly inside it, satisfies `f` whatever the fuel.
   */
  lemma DirectPageInfoSatisfies(getFragment: string -> Option<Fragment>, sels: seq<Selection>, fuel: nat, f: Flag, i: int, j: int)
    requires 0 <= i < |sels| && sels[i].Field? && sels[i].name == "pageInfo"
    requires 0 <= j < |sels[i].selections| && sels[i].selections[j].Field? && sels[i].selections[j].name == FlagName(f)
    ensures PageInfoShowsFlag(getFragment, sels, fuel, f)
  {
    DirectFieldShown(getFragment, sels, fuel, i);
    DirectFieldShown(getFragment, sels[i].selections, fuel, j);
    assert PageInfoWithFlag(getFragment, Reached(sels[i], fuel), f);
  }

  // ---------------------------------------------------------------------------
  // The rule.

  /**
    What `${selectionName}` prints when the connection has no usable `key`:
    the alias or name is a `NameNode` object, not a string.
   */
  const UnkeyedConnectionName: string := "[object Object]"

  /** `connectionDirective.key || selectionName`: an empty key counts as missing. */
  function ConnectionName(cd: ConnectionDirective): string {
    if cd.key.Some? && |cd.key.value| > 0 then cd.key.value else UnkeyedConnectionName
  }

  function MissingMessage(f: Flag, connectionName: string): string {
    "Missing pageInfo." + FlagName(f) + " field on connection \"" + connectionName + "\"."
  }

  /** `first` and `after` are both passed. */
  predicate IsForward(field: Selection)
    requires field.Field?
  {
    HasArgument(field.args, "first") && HasArgument(field.args, "after")
  }

  /** `last` and `before` are both passed. */
  predicate IsBackward(field: Selection)
    requires field.Field?
  {
    HasArgument(field.args, "last") && HasArgument(field.args, "before")
  }

  /** The direction of pagination in use needs `f`. */
  predicate Needed(field: Selection, f: Flag)
    requires field.Field?
  {
    match f
    case HasNextPage => IsForward(field)
    case EndCursor => IsForward(field)
    case HasPreviousPage => IsBackward(field)
    case StartCursor => IsBackward(field)
  }

  /** The rule looks at a field with a selection set, of a connection type, carrying `@connection`. */
  predicate Examined(schema: Schema, field: Selection)
    requires field.Field?
  {
    |field.selections| > 0 && field.fieldType.Some? && IsConnectionType(schema, field.fieldType.value)
    && GetConnectionDirective(field).Some?
  }

  /** The report for a missing `f`, at the `@connection` directive. */
  function Missing(f: Flag, cd: ConnectionDirective): Diagnostic {
    Diagnostic(MissingMessage(f, ConnectionName(cd)), [DirectiveNode(cd.directive)])
  }

  /** `f`, when it is needed and the rollup lacks it. */
  function IfMissing(field: Selection, info: PaginationFields, f: Flag): seq<Flag>
    requires field.Field?
  {
    if Needed(field, f) && !Get(info, f) then [f] else []
  }

  /** The flags reported, in the order the rule checks them. */
  function MissingFlags(field: Selection, info: PaginationFields): (r: seq<Flag>)
    requires field.Field?
    ensures |r| <= 4
    ensures forall f :: f in r <==> Needed(field, f) && !Get(info, f)
    ensures forall i, j :: 0 <= i < j < |r| ==> r[i] != r[j]
  {
    IfMissing(field, info, HasNextPage) + IfMissing(field, info, EndCursor)
    + IfMissing(field, info, HasPreviousPage) + IfMissing(field, info, StartCursor)
  }

  /** One report per flag, in order. */
  function Reports(flags: seq<Flag>, report: Flag -> Diagnostic): (r: seq<Diagnostic>)
    ensures |r| == |flags|
    ensures forall i :: 0 <= i < |flags| ==> r[i] == report(flags[i])
  {
    seq(|flags|, i requires 0 <= i < |flags| => report(flags[i]))
  }

  /**
    The `Field` visitor on one field. `None` only when resolving fragment
    spreads under the connection runs out of `fuel`; at most one report per
    flag.
   */
  function FieldDiagnostics(schema: Schema, getFragment: string -> Option<Fragment>, field: Selection, fuel: nat): (r: Option<seq<Diagnostic>>)
    requires field.Field?
    ensures !Examined(schema, field) ==> r == Some([])
    ensures Examined(schema, field) ==> (r.None? <==> ConnectionInfo(getFragment, field.selections, fuel).None?)
    ensures r.Some? ==> |r.value| <= 4
  {
    if !Examined(schema, field) then Some([])
    else
      var info :- ConnectionInfo(getFragment, field.selections, fuel);
      var cd := GetConnectionDirective(field).value;
      Some(Reports(MissingFlags(field, info), f => Missing(f, cd)))
  }

  /** One report per missing flag, and nothing else. */
  lemma ReportsOfMissingFlags(field: Selection, info: PaginationFields, report: Flag -> Diagnostic, d: Diagnostic)
    requires field.Field?
    ensures d in Reports(MissingFlags(field, info), report) <==> exists f :: Needed(field, f) && !Get(info, f) && d == report(f)
  {
    var flags := MissingFlags(field, info);
    var r := Reports(flags, report);
    if d in r {
      var i :| 0 <= i < |r| && r[i] == d;
      assert flags[i] in flags;
    }
    if exists f :: Needed(field, f) && !Get(info, f) && d == report(f) {
      var f :| Needed(field, f) && !Get(info, f) && d == report(f);
      var i :| 0 <= i < |flags| && flags[i] == f;
      assert r[i] == d;
    }
  }

  /**
    A report on an examined field names a flag exactly when the direction in
    use needs it and no shown `pageInfo { ... }` field shows a field of that
    name.
   */
  lemma FieldReported(schema: Schema, getFragment: string -> Option<Fragment>, field: Selection, fuel: nat, d: Diagnostic)
    requires field.Field? && Examined(schema, field)
    requires FieldDiagnostics(schema, getFragment, field, fuel).Some?
    ensures d in FieldDiagnostics(schema, getFragment, field, fuel).value <==>
            exists f :: Needed(field, f) && !PageInfoShowsFlag(getFragment, field.selections, fuel, f)
                        && d == Missing(f, GetConnectionDirective(field).value)
  {
    var cd := GetConnectionDirective(field).value;
    var info := ConnectionInfo(getFragment, field.selections, fuel).value;
    ReportsOfMissingFlags(field, info, f => Missing(f, cd), d);
    forall f: Flag
      ensures Get(info, f) <==> PageInfoShowsFlag(getFragment, field.selections, fuel, f)
    {
      ConnectionInfoExact(getFragment, field.selections, fuel, f);
    }
  }

  /** The check of `field` finishes within the fuel and reports `d`. */
  predicate ReportedOn(schema: Schema, getFragment: string -> Option<Fragment>, field: Selection, fuel: nat, d: Diagnostic)
    requires field.Field?
  {
    var r := FieldDiagnostics(schema, getFragment, field, fuel);
    r.Some? && d in r.value
  }

  /**
    The rule over the fields of a document, in visit order: `None` when some
    field runs out of fuel, and otherwise exactly the reports of each field.
   */
  function FieldsDiagnostics(schema: Schema, getFragment: string -> Option<Fragment>, fields: seq<Selection>, fuel: nat): (r: Option<seq<Diagnostic>>)
    requires forall f :: f in fields ==> f.Field?
    ensures r.None? <==> exists i :: 0 <= i < |fields| && FieldDiagnostics(schema, getFragment, fields[i], fuel).None?
    ensures r.Some? ==> forall d :: d in r.value <==> exists i :: 0 <= i < |fields| && ReportedOn(schema, getFragment, fields[i], fuel, d)
  {
    if |fields| == 0 then Some([])
    else
      var here := FieldDiagnostics(schema, getFragment, fields[0], fuel);
      var rest := FieldsDiagnostics(schema, getFragment, fields[1..], fuel);
      assert forall i :: 1 <= i < |fields| ==> fields[i] == fields[1..][i - 1];
      assert forall i :: 0 <= i < |fields[1..]| ==> fields[1..][i] == fields[i + 1];
      if here.None? then None
      else if rest.None? then None
      else
        assert forall d :: d in here.value <==> ReportedOn(schema, getFragment, fields[0], fuel, d);
        Some(here.value + rest.value)
  }

  /** `context.getFragment` over the document. */
  function FragmentResolver(doc: Document): string -> Option<Fragment> {
    name => GetFragment(doc, name)
  }

  /**
    `RelayCompatRequiredPageInfoFields` over a document, spreads resolved with
    `context.getFragment`: within the fuel, the reports are exactly those of
    the document's fields.
   */
  function RelayCompatRequiredPageInfoFields(schema: Schema, doc: Document, fuel: nat): (r: Option<seq<Diagnostic>>)
    ensures var fields := FieldsInDocument(doc.definitions);
            r.None? <==> exists i :: 0 <= i < |fields| && FieldDiagnostics(schema, FragmentResolver(doc), fields[i], fuel).None?
    ensures var fields := FieldsInDocument(doc.definitions);
            r.Some? ==> forall d :: d in r.value <==> exists i :: 0 <= i < |fields| && ReportedOn(schema, FragmentResolver(doc), fields[i], fuel, d)
  {
    FieldsDiagnostics(schema, FragmentResolver(doc), FieldsInDocument(doc.definitions), fuel)
  }

  // ---------------------------------------------------------------------------
  // Fuel that suffices. The source terminates exactly when no fragment
  // reaches itself through spreads; such a document has a rank on fragment
  // names that every spread inside a fragment descends.

  /** Every resolvable spread under `sels`, at any depth, names a fragment of rank below `bound`. */
  predicate SpreadsBelow(getFragment: string -> Option<Fragment>, rank: string -> nat, sels: seq<Selection>, bound: nat)
    decreases sels, 0
  {
    forall i :: 0 <= i < |sels| ==> SpreadBelow(getFragment, rank, sels[i], bound)
  }

  predicate SpreadBelow(getFragment: string -> Option<Fragment>, rank: string -> nat, s: Selection, bound: nat)
    decreases s, 1
  {
    match s
    case Field(_, _, _, _, children, _) => SpreadsBelow(getFragment, rank, children, bound)
    case InlineFragment(_, _, children) => SpreadsBelow(getFragment, rank, children, bound)
    case FragmentSpread(name, _) => getFragment(name).Some? ==> rank(name) < bound
  }

  /** `rank` witnesses that the fragments are acyclic: a fragment spreads only fragments of lower rank. */
  ghost predicate Ranked(getFragment: string -> Option<Fragment>, rank: string -> nat) {
    forall name :: getFragment(name).Some? ==> SpreadsBelow(getFragment, rank, getFragment(name).value.selections, rank(name))
  }

  /** When every fragment's rank is below `bound`, so is every spread of any selection set. */
  lemma {:induction false} EverySpreadBelow(getFragment: string -> Option<Fragment>, rank: string -> nat, sels: seq<Selection>, bound: nat)
    requires forall name :: getFragment(name).Some? ==> rank(name) < bound
    ensures SpreadsBelow(getFragment, rank, sels, bound)
    decreases sels, 0
  {
    forall i | 0 <= i < |sels|
      ensures SpreadBelow(getFragment, rank, sels[i], bound)
    {
      SelectionSpreadBelow(getFragment, rank, sels[i], bound);
    }
  }

  lemma {:induction false} SelectionSpreadBelow(getFragment: string -> Option<Fragment>, rank: string -> nat, s: Selection, bound: nat)
    requires forall name :: getFragment(name).Some? ==> rank(name) < bound
    ensures SpreadBelow(getFragment, rank, s, bound)
    decreases s, 1
  {
    match s
    case Field(_, _, _, _, children, _) => EverySpreadBelow(getFragment, rank, children, bound);
    case InlineFragment(_, _, children) => EverySpreadBelow(getFragment, rank, children, bound);
    case FragmentSpread(_, _) =>
  }

  /** A bound on the spreads can be raised. */
  lemma {:induction false} SpreadsBelowRaise(getFragment: string -> Option<Fragment>, rank: string -> nat, sels: seq<Selection>, bound: nat, higher: nat)
    requires bound <= higher && SpreadsBelow(getFragment, rank, sels, bound)
    ensures SpreadsBelow(getFragment, rank, sels, higher)
    decreases sels, 0
  {
    forall i | 0 <= i < |sels|
      ensures SpreadBelow(getFragment, rank, sels[i], higher)
    {
      SpreadBelowRaise(getFragment, rank, sels[i], bound, higher);
    }
  }

  lemma {:induction false} SpreadBelowRaise(getFragment: string -> Option<Fragment>, rank: string -> nat, s: Selection, bound: nat, higher: nat)
    requires bound <= higher && SpreadBelow(getFragment, rank, s, bound)
    ensures SpreadBelow(getFragment, rank, s, higher)
    decreases s, 1
  {
    match s
    case Field(_, _, _, _, children, _) => SpreadsBelowRaise(getFragment, rank, children, bound, higher);
    case InlineFragment(_, _, children) => SpreadsBelowRaise(getFragment, rank, children, bound, higher);
    case FragmentSpread(_, _) =>
  }

  /** The spreads of a selection set after its first selection stay below the bound. */
  lemma SpreadsBelowTail(getFragment: string -> Option<Fragment>, rank: string -> nat, sels: seq<Selection>, bound: nat)
    requires |sels| > 0 && SpreadsBelow(getFragment, rank, sels, bound)
    ensures SpreadBelow(getFragment, rank, sels[0], bound)
    ensures SpreadsBelow(getFragment, rank, sels[1..], bound)
  {
    assert forall i :: 0 <= i < |sels[1..]| ==> sels[1..][i] == sels[i + 1];
  }

  /** Under ranked fragments, fuel above every spread's rank is enough for `pageInfoSelectionSetPaginationInfo`. */
  lemma {:induction false} PageInfoInfoSuffices(getFragment: string -> Option<Fragment>, rank: string -> nat, sels: seq<Selection>, fuel: nat)
    requires Ranked(getFragment, rank) && SpreadsBelow(getFragment, rank, sels, fuel)
    ensures PageInfoInfo(getFragment, sels, fuel).Some?
    decreases fuel, sels, 2
  {
    PageInfoNestedSuffices(getFragment, rank, sels, fuel);
  }

  lemma {:induction false} PageInfoNestedSuffices(getFragment: string -> Option<Fragment>, rank: string -> nat, sels: seq<Selection>, fuel: nat)
    requires Ranked(getFragment, rank) && SpreadsBelow(getFragment, rank, sels, fuel)
    ensures PageInfoNested(getFragment, sels, fuel).Some?
    decreases fuel, sels, 1
  {
    if |sels| > 0 {
      SpreadsBelowTail(getFragment, rank, sels, fuel);
      PageInfoNestedHeadSuffices(getFragment, rank, sels, fuel);
      PageInfoNestedSuffices(getFragment, rank, sels[1..], fuel);
    }
  }

  lemma {:induction false} PageInfoNestedHeadSuffices(getFragment: string -> Option<Fragment>, rank: string -> nat, sels: seq<Selection>, fuel: nat)
    requires |sels| > 0 && Ranked(getFragment, rank) && SpreadBelow(getFragment, rank, sels[0], fuel)
    ensures PageInfoNestedHead(getFragment, sels, fuel).Some?
    decreases fuel, sels, 0
  {
    match sels[0]
    case Field(_, _, _, _, _, _) =>
    case InlineFragment(_, _, children) =>
      PageInfoInfoSuffices(getFragment, rank, children, fuel);
    case FragmentSpread(name, _) =>
      match getFragment(name)
      case None =>
      case Some(fragment) =>
        SpreadsBelowRaise(getFragment, rank, fragment.selections, rank(name), fuel - 1);
        PageInfoInfoSuffices(getFragment, rank, fragment.selections, fuel - 1);
  }

  /** Under ranked fragments, fuel above every spread's rank is enough for `connectionSelectionSetPaginationInfo`. */
  lemma {:induction false} ConnectionInfoSuffices(getFragment: string -> Option<Fragment>, rank: string -> nat, sels: seq<Selection>, fuel: nat)
    requires Ranked(getFragment, rank) && SpreadsBelow(getFragment, rank, sels, fuel)
    ensures ConnectionInfo(getFragment, sels, fuel).Some?
    decreases fuel, sels, 2
  {
    ConnectionItemsSuffices(getFragment, rank, sels, fuel);
  }

  lemma {:induction false} ConnectionItemsSuffices(getFragment: string -> Option<Fragment>, rank: string -> nat, sels: seq<Selection>, fuel: nat)
    requires Ranked(getFragment, rank) && SpreadsBelow(getFragment, rank, sels, fuel)
    ensures ConnectionItems(getFragment, sels, fuel).Some?
    decreases fuel, sels, 1
  {
    if |sels| > 0 {
      SpreadsBelowTail(getFragment, rank, sels, fuel);
      ConnectionHeadSuffices(getFragment, rank, sels, fuel);
      ConnectionItemsSuffices(getFragment, rank, sels[1..], fuel);
    }
  }

  lemma {:induction false} ConnectionHeadSuffices(getFragment: string -> Option<Fragment>, rank: string -> nat, sels: seq<Selection>, fuel: nat)
    requires |sels| > 0 && Ranked(getFragment, rank) && SpreadBelow(getFragment, rank, sels[0], fuel)
    ensures ConnectionHead(getFragment, sels, fuel).Some?
    decreases fuel, sels, 0
  {
    match sels[0]
    case Field(_, name, _, _, children, _) =>
      if name == "pageInfo" && |children| > 0 {
        PageInfoInfoSuffices(getFragment, rank, children, fuel);
      }
    case InlineFragment(_, _, children) =>
      ConnectionInfoSuffices(getFragment, rank, children, fuel);
    case FragmentSpread(name, _) =>
      match getFragment(name)
      case None =>
      case Some(fragment) =>
        SpreadsBelowRaise(getFragment, rank, fragment.selections, rank(name), fuel - 1);
        ConnectionInfoSuffices(getFragment, rank, fragment.selections, fuel - 1);
  }

  /**
    On a document whose fragments are ranked (no fragment reaches itself),
    fuel above every fragment's rank never runs out: the rule always reaches
    its reports.
   */
  lemma RankedDocumentNeverRunsOut(schema: Schema, doc: Document, rank: string -> nat, fuel: nat)
    requires Ranked(FragmentResolver(doc), rank)
    requires forall name :: GetFragment(doc, name).Some? ==> rank(name) < fuel
    ensures RelayCompatRequiredPageInfoFields(schema, doc, fuel).Some?
  {
    var getFragment := FragmentResolver(doc);
    var fields := FieldsInDocument(doc.definitions);
    forall i | 0 <= i < |fields|
      ensures FieldDiagnostics(schema, getFragment, fields[i], fuel).Some?
    {
      assert fields[i] in fields;
      EverySpreadBelow(getFragment, rank, fields[i].selections, fuel);
      if Examined(schema, fields[i]) {
        ConnectionInfoSuffices(getFragment, rank, fields[i].selections, fuel);
      }
    }
  }
}
