# Relay validation rules for GraphQL documents, in Dafny

This project models the validation rules that `vscode-apollo-relay` adds to
graphql-js so that Relay documents validate correctly. Relay extends GraphQL
in three ways that the rules have to handle:

- **Fragment arguments.** A fragment declares arguments with
  `@argumentDefinitions(name: {type: "T", defaultValue: v})`, and a spread
  passes them with `...F @arguments(name: value)`.
- **Connections.** A field whose type name ends in `Connection` and which
  carries `@connection` must select the `pageInfo` fields that Relay needs
  to paginate. This follows section 5 "PageInfo" of the Relay Cursor
  Connections Specification.
- **Fragments typed against operations.** A fragment's variables take their
  types from the operations that reach the fragment.

## Modules

- **`Ast`, `Schema`, `TypeSyntax`, `Visit`, `Documents`**: the parts of
  graphql-js the rules depend on.
  - The document tree and the schema's named types.
  - Type references: `parseType`, the printing of a type, `typeFromAST`,
    `isTypeSubTypeOf`.
  - Literal coercion `valueFromAST`.
  - The order in which a visitor meets directives, fields and variables.
  - `getFragment` and `getRecursivelyReferencedFragments`.
- **`Utils`**: `src/utils.ts`.
- **`ArgumentDefinitions`**: `src/argumentDefinitions.ts`. It reads
  `@argumentDefinitions`, lists variable usages (including the ones
  `@arguments` makes), and tags each usage with the definition that governs
  it.
- **`Unification`**: `src/operationsReferencingFragment.ts`. It finds the
  operations that reach a fragment and the variable definitions all of them
  share, unified to their lowest common type.
- **One module per rule**: `VariablesInAllowedPosition`,
  `KnownVariableNames`, `NoUnusedArguments`, `KnownArgumentNames`,
  `ArgumentsOfCorrectType`, `DefaultValueOfCorrectType`,
  `CompatRequiredPageInfoFields`, `RequiredPageInfoFields`,
  `CompatMissingConnectionDirective`.

Each rule is a pure function from a schema and a document to a list of
diagnostics. A diagnostic is a message together with the nodes it points at.
Each rule has a partner that its lemmas relate it to:

- an independent description of the reports, such as "one report per use
  whose name the definition does not define";
- a reference algorithm, such as section 5.8.5 of the GraphQL
  specification, June 2018 edition;
- or another rule that must agree with it.

### Behaviour of the code a reader might not expect (the model follows the code)

- **`getArgumentDefinitions`.** It walks the whole fragment definition, not
  only the directives written on the fragment itself. It skips the subtree of
  every other directive and keeps the last `@argumentDefinitions` it meets.
- **`getPageInfoSelection`.** It returns nothing when the first unaliased
  `pageInfo` has no selection set, even if a later one has a selection set.
- **Duplicated helpers.** `RelayKnownArgumentNames.ts` has its own copy of
  `getArgumentDefinitions`, and `RelayRequiredPageInfoFields.ts` has its own
  `isConnectionType`. Both behave like the shared ones, so the model defines
  each once.
- **Connection names in compatibility messages.** The message names the
  connection by interpolating the `key` argument. When there is no usable
  key, it interpolates an object, so the name reads `[object Object]`. The
  model writes that text literally.

## Model

| member | source | states |
|---|---|---|
| Utils.FindFragmentSpreadParent | src/utils.ts:12-14 | the result is the first fragment spread among the ancestors, and nothing exactly when there is none |
| Utils.FindFragmentDefinitionParent | src/utils.ts:16-18 | the result is the first fragment definition among the ancestors, and nothing exactly when there is none |
| Utils.ContainsVariablesComplete | src/utils.ts:28-38 | a value contains a variable node exactly when the visitor's list of variables in it is non-empty |
| Utils.MakeNonNullable | src/utils.ts:40-45 | the result is non-null, wraps the type's nullable form, and keeps its named type and its well-formedness |
| Utils.MakeNonNullableIdempotent | src/utils.ts:40-45 | making a type non-null twice is the same as doing it once |
| Utils.GetConnectionDirective | src/utils.ts:47-66 | the first `@connection` directive, found exactly when one exists; its key is the first `key` argument's string, absent exactly when that argument is missing or not a string |
| Utils.IsConnectionType | src/utils.ts:68-76 | true exactly for an object type, possibly non-null, whose name ends in `Connection`; never for a list |
| TypeSyntax.ParsePrintRoundTrip | src/argumentDefinitions.ts:50-56 | printing a well-formed type and parsing the text with `parseType` gives the type back |
| TypeSyntax.PrintParseRoundTrip | src/argumentDefinitions.ts:50-56 | every type `parseType` accepts prints to text that parses back to the same type |
| TypeSyntax.ParseType | src/RelayKnownArgumentNames.ts:78-83 | whatever `parseType` accepts is a well-formed type reference |
| Schema.TypeFromAst | src/argumentDefinitions.ts:62-72 | `typeFromAST` resolves a type exactly when its named type is in the schema, and then denotes that same type |
| Schema.ResolveInputType | src/argumentDefinitions.ts:62-72 | a type resolves to an input type exactly when its named type exists and is a scalar, an enum or an input object |
| Schema.SubTypeIsCompatible | src/RelayVariablesInAllowedPosition.ts:82-99 | graphql-js's subtype test agrees with the specification's `AreTypesCompatible` on every pair of types |
| Schema.SubTypeTransitive | src/RelayVariablesInAllowedPosition.ts:82-99 | the subtype relation is transitive |
| Schema.SubTypeNullability | src/RelayVariablesInAllowedPosition.ts:89-97 | `T!` is a subtype of `T`, and a nullable type is never a subtype of a non-null one |
| Schema.LastField | src/RelayArgumentsOfCorrectType.ts:36 | the object field `valueFromAST` reads is the last one with the name, absent exactly when none has it |
| Schema.NullCoercion | src/RelayArgumentsOfCorrectType.ts:36-38 | `null` coerces exactly to the nullable types |
| Schema.CoercionRespectsSubtyping | src/RelayArgumentsOfCorrectType.ts:36-38 | a literal accepted by a type is accepted by every type it is compatible with |
| Schema.NonNullCoercionIsStricter | src/RelayDefaultValueOfCorrectType.ts:42-44 | a literal accepted by `T!` is accepted by `T` and is not `null` |
| Documents.GetFragment | src/argumentDefinitions.ts:100-103 | a fragment is found exactly when the document defines its name, and it is the last definition of that name |
| Documents.RecursivelyReferencedFragments | src/argumentDefinitions.ts:183-186 | every fragment listed is the document's definition of its name, and no name is listed twice |
| Documents.RecursivelyReferencedFragmentsReachable | src/operationsReferencingFragment.ts:14-15 | a name is listed exactly when the document defines it and a chain of spreads leads to it from the operation |
| ArgumentDefinitions.GetArgumentDefinitions | src/argumentDefinitions.ts:16-28 | the arguments of the last `@argumentDefinitions` met in visit order; nothing exactly when there is none |
| ArgumentDefinitions.TypeNodeOf | src/argumentDefinitions.ts:46-56 | a type is read exactly when the metadata is an object whose first `type` field is a string that parses, and it is the parsed type |
| ArgumentDefinitions.DefaultValueOf | src/argumentDefinitions.ts:46-59 | the default is the value of the first `defaultValue` field of an object, and exists exactly when that field does |
| ArgumentDefinitions.ArgumentDefinition | src/argumentDefinitions.ts:39-80 | a definition points at the argument's name, so it is fragment-defined; its schema type exists exactly when the parsed type names an input type in the schema |
| ArgumentDefinitions.ArgumentDefinitionTypeRoundTrip | src/argumentDefinitions.ts:46-56 | metadata whose `type` is a printed type reads back as exactly that type |
| ArgumentDefinitions.DefinitionsMapLast | src/argumentDefinitions.ts:39-82 | in the `reduce`, each name maps to the definition written last for it |
| ArgumentDefinitions.GetFragmentArgumentDefinitions | src/argumentDefinitions.ts:30-83 | empty without `@argumentDefinitions`; otherwise one entry per defined name, each fragment-defined |
| ArgumentDefinitions.BindingUsage | src/argumentDefinitions.ts:106-124 | a variable passed as `@arguments(name: $x)` takes the type and default of the fragment's definition of `name`, or none if there is no such definition |
| ArgumentDefinitions.UsagesAreVariables | src/argumentDefinitions.ts:85-139 | every usage is a `Variable` node of the definition, outside its variable definitions |
| ArgumentDefinitions.PlainUsages | src/argumentDefinitions.ts:85-139 | without `@arguments`, the usages are exactly the definition's variables, typed by their positions |
| ArgumentDefinitions.OperationVariablesLast | src/argumentDefinitions.ts:161-181 | an operation's root definitions map each variable to its last definition |
| ArgumentDefinitions.GetRecursiveVariableUsagesWithRelayInfo | src/argumentDefinitions.ts:156-211 | the root's own usages come first, in order, each paired with what the root's dictionary answers for its name (its own definition, an inherited `Object.prototype` member of a `{}`, or nothing); then the inherited usages: fragment after fragment in the order the operation references them, each fragment's usages in its own order; a fragment root adds nothing more |
| ArgumentDefinitions.InheritedUsagesSound | src/argumentDefinitions.ts:197-210 | every later usage comes from a fragment the operation references, is tagged with it, and is paired with the fragment's own argument, else an `Object.prototype` member the fragment's `{}` inherits, else what the operation's dictionary answers |
| ArgumentDefinitions.NullPrototypeInheritsNothing | src/argumentDefinitions.ts:161-206 | with `Object.create(null)` dictionaries no usage is ever paired with an inherited member |
| ArgumentDefinitions.TaggedAgreeAwayFromPrototypeNames | src/argumentDefinitions.ts:161-206 | when no usage is named like an `Object.prototype` member, `{}` and `Object.create(null)` dictionaries give the same list |
| ArgumentDefinitions.InheritedUsagesComplete | src/argumentDefinitions.ts:197-210 | every usage inside every referenced fragment appears, paired with what that lookup gives |
| Unification.OperationsReferencingFragment | src/operationsReferencingFragment.ts:4-22 | the operations, in document order, that reference the fragment recursively, and no others |
| Unification.OperationsReferencingFragmentReachable | src/operationsReferencingFragment.ts:4-22 | an operation is listed exactly when a chain of spreads leads from it to a fragment the document defines with that name |
| Unification.IntersectValues | src/operationsReferencingFragment.ts:32-37 | the elements of the first list that occur in every list, in the first list's order; empty for no lists |
| Unification.DeclaredVariablesLast | src/operationsReferencingFragment.ts:57-74 | an operation's variables map each name to its last definition |
| Unification.DeclaredNames | src/operationsReferencingFragment.ts:76 | `Object.keys` lists each defined name exactly once |
| Unification.Unify | src/operationsReferencingFragment.ts:80-124 | no result exactly when no definition has every definition as a subtype (a common supertype among them); otherwise the first such one, made non-null without a default when it is nullable and every definition has a non-null default; a kept default implies a non-null type |
| Unification.OperationsDefinedVariables | src/operationsReferencingFragment.ts:49-128 | empty for no operations; a name is present exactly when every operation defines it and the definitions unify, and it maps to the unified definition |
| Unification.OperationsDefinedVariablesForFragment | src/operationsReferencingFragment.ts:39-44 | over the operations that reach the fragment: a name is present exactly when there is at least one, every one defines it and the definitions unify; it maps to the unified definition, and every such operation defines it |
| Unification.UnifySameDefinition | src/operationsReferencingFragment.ts:80-124 | operations that all define a variable the same way give that definition back, made non-null when its default is a non-null value |
| VariablesInAllowedPosition.AllowedMatchesSpecification | src/RelayVariablesInAllowedPosition.ts:82-99 | `AllowedVariableUsage` agrees with `IsVariableUsageAllowed` of the GraphQL specification on every input |
| VariablesInAllowedPosition.AllowedIsEffectiveCompatibility | src/RelayVariablesInAllowedPosition.ts:89-98 | a usage is allowed exactly when the variable's type, made non-null by a non-null default on either side, is compatible with the position |
| VariablesInAllowedPosition.FragmentPass | src/RelayVariablesInAllowedPosition.ts:8-36 | exactly the misplaced usages are reported, each at the definition (unless it comes from another fragment) and the usage |
| VariablesInAllowedPosition.OperationPass | src/RelayVariablesInAllowedPosition.ts:37-75 | every report is about a checked usage that is not fragment-defined, and its message was not reported before by a usage from a fragment |
| VariablesInAllowedPosition.OperationPassFragmentComplete | src/RelayVariablesInAllowedPosition.ts:64-71 | each misplaced usage from a fragment is reported at the operation, unless its message was already recorded |
| VariablesInAllowedPosition.OperationPassRootComplete | src/RelayVariablesInAllowedPosition.ts:56-71 | a misplaced usage of the operation itself is always reported, even with a repeated message |
| VariablesInAllowedPosition.OperationPassFragmentDistinct | src/RelayVariablesInAllowedPosition.ts:66-69 | no message is reported twice at the operation alone |
| VariablesInAllowedPosition.DefinitionDiagnostics | src/RelayVariablesInAllowedPosition.ts:8-75 | an operation's pass throws exactly when a usage is paired with an inherited `Object.prototype` member, a fragment's pass never throws; a fragment reports exactly its misplaced usages; every report of an operation comes from a checked usage |
| VariablesInAllowedPosition.RelayVariablesInAllowedPosition | src/RelayVariablesInAllowedPosition.ts:6-77 | over a document, validation throws exactly when some definition's pass throws, and otherwise reports exactly what the definitions report |
| VariablesInAllowedPosition.OperationRootUsageReported | src/RelayVariablesInAllowedPosition.ts:37-75 | every misplaced root usage of an operation is reported, unless the pass throws |
| VariablesInAllowedPosition.OperationFragmentUsageReported | src/RelayVariablesInAllowedPosition.ts:37-75 | every message of a misplaced usage inherited from a fragment is reported at the operation, unless the pass throws |
| VariablesInAllowedPosition.ConstructorVariableThrows | src/RelayVariablesInAllowedPosition.ts:43-48 | as written, `query Q { f(x: $constructor) }` makes the rule throw; with `Object.create(null)` dictionaries it does not |
| VariablesInAllowedPosition.CorrectedNeverThrows | src/RelayVariablesInAllowedPosition.ts:37-75 | corrected, the rule never throws on any document |
| VariablesInAllowedPosition.PositionsAgreeAwayFromPrototypeNames | src/RelayVariablesInAllowedPosition.ts:8-75 | when no usage is named like an `Object.prototype` member, the code as written and the corrected rule give the same result |
| KnownVariableNames.DefinedNames | src/RelayKnownVariableNames.ts:15-66 | an operation defines its variables; a fragment defines exactly the names of its `@argumentDefinitions` arguments, and nothing without one |
| KnownVariableNames.DefinitionDiagnostics | src/RelayKnownVariableNames.ts:15-66 | one report per use of a name the definition does not define, and nothing else |
| KnownVariableNames.DefinitionEventsRun | src/RelayKnownVariableNames.ts:18-35 | whatever the visitor state before a definition, its events report exactly that definition's diagnostics |
| KnownVariableNames.KnownVariableNamesNoLeak | src/RelayKnownVariableNames.ts:15-66 | the stateful visitor over a document reports what each definition reports on its own: nothing leaks between definitions |
| KnownVariableNames.UndefinedReported | src/RelayKnownVariableNames.ts:22-31 | a use of a name its definition does not define is reported |
| KnownVariableNames.ReportedAreUndefined | src/RelayKnownVariableNames.ts:22-31 | every report is about a use of a name its own definition does not define |
| NoUnusedArguments.ArgumentKeys | src/RelayNoUnusedArguments.ts:22 | `Object.keys` of the definitions lists each argument name exactly once |
| NoUnusedArguments.NoUnusedArgumentsAsWritten | src/RelayNoUnusedArguments.ts:10-31 | as written, an argument is reported exactly when it is unused and its name is not an `Object.prototype` member |
| NoUnusedArguments.NoUnusedArgumentsFor | src/RelayNoUnusedArguments.ts:10-31 | corrected, an argument is reported exactly when no variable of its name occurs in the selection set |
| NoUnusedArguments.NoUnusedArgumentsExact | src/RelayNoUnusedArguments.ts:22-28 | the report for a name is present exactly when the fragment declares it and never uses it |
| NoUnusedArguments.NoUnusedArgumentsOnce | src/RelayNoUnusedArguments.ts:22-28 | no report is made twice |
| NoUnusedArguments.AsWrittenAgreesAwayFromPrototypeNames | src/RelayNoUnusedArguments.ts:14-27 | away from `Object.prototype` names, the code as written and the corrected rule give the same reports |
| NoUnusedArguments.UnusedConstructorArgumentMissed | src/RelayNoUnusedArguments.ts:14-27 | an unused argument named `constructor` is missed as written and reported once corrected |
| NoUnusedArguments.PrototypeNamedArgumentMissed | src/RelayNoUnusedArguments.ts:14-27 | any unused argument with an `Object.prototype` name is missed as written and reported once corrected |
| NoUnusedArguments.RelayNoUnusedArguments | src/RelayNoUnusedArguments.ts:10-31 | as written, over a document: a report exactly for each argument a fragment declares and never uses whose name is not an `Object.prototype` member |
| NoUnusedArguments.RelayNoUnusedArgumentsCorrected | src/RelayNoUnusedArguments.ts:10-31 | corrected, over a document: a report exactly for each argument a fragment declares and never uses |
| KnownArgumentNames.TypeFieldDiagnostics | src/RelayKnownArgumentNames.ts:68-98 | at most one report, at the value; none exactly when the value is a string that parses to a type whose named type exists |
| KnownArgumentNames.MetadataFieldDiagnostics | src/RelayKnownArgumentNames.ts:61-98 | a metadata field passes exactly when its key is `type` or `defaultValue` and a `type` is valid |
| KnownArgumentNames.DefinitionDiagnostics | src/RelayKnownArgumentNames.ts:51-60 | metadata that is not an object with a `type` key gets exactly the one shape report |
| KnownArgumentNames.DefinitionDiagnosticsExact | src/RelayKnownArgumentNames.ts:51-101 | an argument definition is reported exactly when it is not well formed |
| KnownArgumentNames.PrintedDefinitionAccepted | src/RelayKnownArgumentNames.ts:51-101 | metadata written with a printed known type and an optional default is accepted |
| KnownArgumentNames.ValidateFragmentArgumentDefinitions | src/RelayKnownArgumentNames.ts:47-103 | an empty `@argumentDefinitions` gets exactly one report; otherwise none exactly when every definition is well formed |
| KnownArgumentNames.ConsumeLeftover | src/RelayKnownArgumentNames.ts:120-125 | after the `splice` loop, each name is left over as often as it was passed beyond the number of its definitions |
| KnownArgumentNames.ConsumeMissing | src/RelayKnownArgumentNames.ts:121-137 | a name is reported missing exactly when a definition of it without `defaultValue` is left unmatched |
| KnownArgumentNames.MissingWhenNotPassed | src/RelayKnownArgumentNames.ts:121-137 | with distinct definition names, a required argument is missing exactly when no argument of its name is passed |
| KnownArgumentNames.ValidateFragmentArguments | src/RelayKnownArgumentNames.ts:105-119 | a fragment without `@argumentDefinitions` gets exactly the one report at the spread |
| KnownArgumentNames.ValidateFragmentArgumentsCounts | src/RelayKnownArgumentNames.ts:105-152 | the reports are the missing ones then the unknown ones, with the leftover counts and missing names above |
| KnownArgumentNames.UnknownDiagnostics | src/RelayKnownArgumentNames.ts:138-150 | one unknown-argument report per leftover argument, in order, with the suggestions for its name |
| KnownArgumentNames.HostName | src/RelayKnownArgumentNames.ts:30-31 | the name read from the node `@arguments` sits on is missing exactly for an inline fragment or an anonymous operation |
| KnownArgumentNames.SiteDiagnostics | src/RelayKnownArgumentNames.ts:24-43 | failure exactly for `@arguments` on a node without a name; otherwise `@arguments` gets the fragment-arguments check against the named fragment, or nothing when it is unknown; `@argumentDefinitions` is validated; other directives add nothing here |
| KnownArgumentNames.SitesDiagnostics | src/RelayKnownArgumentNames.ts:14-45 | validation fails exactly when some directive fails, and otherwise reports exactly what the directives report |
| KnownArgumentNames.RelayKnownArgumentNames | src/RelayKnownArgumentNames.ts:14-45 | over a document, validation fails exactly when some directive of it fails, and otherwise reports exactly what its directives report |
| ArgumentsOfCorrectType.ArgumentDiagnostic | src/RelayArgumentsOfCorrectType.ts:24-46 | a report, at the value, exactly when the fragment types the argument, the value holds no variable, and `valueFromAST` rejects it |
| ArgumentsOfCorrectType.SiteDiagnostics | src/RelayArgumentsOfCorrectType.ts:9-46 | nothing unless the directive is `@arguments` under a spread of a known fragment; then at most one report per argument |
| ArgumentsOfCorrectType.SiteReported | src/RelayArgumentsOfCorrectType.ts:9-46 | the reports of an `@arguments` under a spread of a known fragment are exactly those of the arguments the check rejects |
| ArgumentsOfCorrectType.RelayArgumentsOfCorrectType | src/RelayArgumentsOfCorrectType.ts:7-49 | the reports over a document are exactly those of its directives |
| ArgumentsOfCorrectType.NullForNonNullReported | src/RelayArgumentsOfCorrectType.ts:36-45 | `null` for an argument declared non-null is always reported |
| ArgumentsOfCorrectType.AcceptedBySubtypeNotReported | src/RelayArgumentsOfCorrectType.ts:36-45 | a literal accepted by a stricter compatible type is never reported |
| ArgumentsOfCorrectType.ReportedTypeParsesBack | src/RelayArgumentsOfCorrectType.ts:41 | the type named in a report parses back to the declared type |
| DefaultValueOfCorrectType.ArgumentDiagnostic | src/RelayDefaultValueOfCorrectType.ts:20-57 | a report, at the `defaultValue`, exactly when a checked default is `null` or rejected; the null message exactly for `null`, otherwise the type message naming the non-null type |
| DefaultValueOfCorrectType.NullAndBadValueDiffer | src/RelayDefaultValueOfCorrectType.ts:62-68 | the two messages never coincide |
| DefaultValueOfCorrectType.SiteDiagnostics | src/RelayDefaultValueOfCorrectType.ts:9-57 | nothing unless the directive is `@argumentDefinitions` inside a fragment definition; then at most one report per argument |
| DefaultValueOfCorrectType.SiteReported | src/RelayDefaultValueOfCorrectType.ts:9-57 | the reports of an `@argumentDefinitions` inside a fragment definition are exactly those of the arguments whose defaults the check rejects |
| DefaultValueOfCorrectType.RelayDefaultValueOfCorrectType | src/RelayDefaultValueOfCorrectType.ts:7-60 | the reports over a document are exactly those of its directives |
| DefaultValueOfCorrectType.MessageTypeMatchesCheck | src/RelayDefaultValueOfCorrectType.ts:42-53 | a non-null literal is accepted by a type exactly when it is accepted by the non-null type the message names |
| DefaultValueOfCorrectType.OwnDefinitionChecked | src/RelayDefaultValueOfCorrectType.ts:18-57 | for its own last definitions, a fragment's default is reported exactly when it is `null` or not of the declared type |
| DefaultValueOfCorrectType.AgreesWithArgumentsOfCorrectType | src/RelayDefaultValueOfCorrectType.ts:42-55 | a non-null default is reported exactly when passing the same literal with `@arguments` is reported |
| CompatRequiredPageInfoFields.Or | src/RelayCompatRequiredPageInfoFields.ts:21-37 | each flag of the result is set exactly when it is set in either input |
| CompatRequiredPageInfoFields.Rollup | src/RelayCompatRequiredPageInfoFields.ts:21-37 | a flag is set in the roll-up exactly when some element sets it |
| CompatRequiredPageInfoFields.RollupOrderIndependent | src/RelayCompatRequiredPageInfoFields.ts:21-37 | the roll-up does not depend on the order of its elements |
| CompatRequiredPageInfoFields.DirectFlags | src/RelayCompatRequiredPageInfoFields.ts:103-116 | a flag is set exactly when some selection is a field with that name, alias or not |
| CompatRequiredPageInfoFields.PageInfoInfoExact | src/RelayCompatRequiredPageInfoFields.ts:80-126 | a flag is set exactly when a field of that name is reached inside `pageInfo`, directly or through inline fragments and spreads |
| CompatRequiredPageInfoFields.ConnectionInfoExact | src/RelayCompatRequiredPageInfoFields.ts:39-71 | a flag is set exactly when some `pageInfo` field reached from the connection reaches a field of that name |
| CompatRequiredPageInfoFields.EverySpreadBelow | src/RelayCompatRequiredPageInfoFields.ts:62-68 | when every fragment's rank is below a bound, every spread of any selection set, at any depth, is below it too |
| CompatRequiredPageInfoFields.SpreadsBelowRaise | src/RelayCompatRequiredPageInfoFields.ts:62-68 | a bound on the ranks of the spreads under a selection set can be raised |
| CompatRequiredPageInfoFields.PageInfoInfoSuffices | src/RelayCompatRequiredPageInfoFields.ts:80-126 | with acyclic fragments (a rank every spread inside a fragment descends), fuel above the ranks of the spreads reached never runs out inside `pageInfo` |
| CompatRequiredPageInfoFields.ConnectionInfoSuffices | src/RelayCompatRequiredPageInfoFields.ts:39-71 | the same under a connection, including the `pageInfo` fields it walks into |
| CompatRequiredPageInfoFields.RankedDocumentNeverRunsOut | src/RelayCompatRequiredPageInfoFields.ts:129-196 | on a document whose fragments never reach themselves, fuel above every fragment's rank always yields the rule's reports |
| CompatRequiredPageInfoFields.DirectPageInfoSatisfies | src/RelayCompatRequiredPageInfoFields.ts:56-60 | a direct `pageInfo { flagName }` always satisfies the flag |
| CompatRequiredPageInfoFields.MissingFlags | src/RelayCompatRequiredPageInfoFields.ts:145-192 | at most four flags, each once; a flag is listed exactly when the field's direction needs it and the selection lacks it |
| CompatRequiredPageInfoFields.ReportsOfMissingFlags | src/RelayCompatRequiredPageInfoFields.ts:156-192 | one report per needed and missing flag, and nothing else |
| CompatRequiredPageInfoFields.FieldDiagnostics | src/RelayCompatRequiredPageInfoFields.ts:129-196 | nothing for a field the rule does not examine; at most four reports otherwise |
| CompatRequiredPageInfoFields.FieldReported | src/RelayCompatRequiredPageInfoFields.ts:145-192 | an examined field gets, at its `@connection`, one report per flag its direction needs that no reached `pageInfo` shows |
| CompatRequiredPageInfoFields.FieldsDiagnostics | src/RelayCompatRequiredPageInfoFields.ts:129-196 | the walk gives up exactly when some field's walk runs out of fuel, and otherwise its reports are exactly the reports of each field |
| CompatRequiredPageInfoFields.RelayCompatRequiredPageInfoFields | src/RelayCompatRequiredPageInfoFields.ts:129-196 | the rule over a document gives up exactly when some field's walk runs out of fuel, and otherwise reports exactly what its fields report |
| RequiredPageInfoFields.HasConnectionDirectiveIffFound | src/RelayRequiredPageInfoFields.ts:14-16 | the local test and `getConnectionDirective` agree on which fields carry `@connection` |
| RequiredPageInfoFields.GetPageInfoSelection | src/RelayRequiredPageInfoFields.ts:34-47 | the selection set of the first unaliased `pageInfo`, present exactly when that first one has a non-empty selection set |
| RequiredPageInfoFields.FieldProblem | src/RelayRequiredPageInfoFields.ts:71-122 | no problem exactly when the field is not examined or its `pageInfo` is complete; missing `pageInfo` exactly when it is absent; a direction's problem only when that direction is paginated and its fields are missing, forward checked first |
| RequiredPageInfoFields.FieldDiagnostic | src/RelayRequiredPageInfoFields.ts:71-122 | at most one report, at the field, named by alias or name; present exactly when the field fails |
| RequiredPageInfoFields.RelayRequiredPageInfoFields | src/RelayRequiredPageInfoFields.ts:71-122 | at most one report per field of the document, and a report is in the list exactly when some field fails with it |
| RequiredPageInfoFields.SameFieldsExamined | src/RelayRequiredPageInfoFields.ts:75-84 | the modern and compatibility rules examine the same fields |
| RequiredPageInfoFields.AcceptedForwardSatisfiesCompat | src/RelayRequiredPageInfoFields.ts:100-108 | a forward connection the modern rule accepts shows both forward flags to the compatibility rule, whatever the fuel |
| RequiredPageInfoFields.AcceptedBackwardSatisfiesCompat | src/RelayRequiredPageInfoFields.ts:110-118 | the same for a backward connection |
| CompatMissingConnectionDirective.FieldDiagnostic | src/RelayCompatMissingConnectionDirective.ts:14-34 | a report, at the field, exactly for a connection field with a selection set, without `@connection`, that passes `after` or `before` |
| CompatMissingConnectionDirective.RelayCompatMissingConnectionDirective | src/RelayCompatMissingConnectionDirective.ts:14-34 | at most one report per field of the document, and a report is in the list exactly when some field is missing `@connection` with it |
| CompatMissingConnectionDirective.CountAloneNotReported | src/RelayCompatMissingConnectionDirective.ts:19-30 | a field paginated only by `first` or `last` is never reported |
| CompatMissingConnectionDirective.ExclusiveWithPageInfoRule | src/RelayCompatMissingConnectionDirective.ts:19-30 | a field reported here is not reported by the compatibility `pageInfo` rule |

## Left out

- Forwarding to graphql-js's own `KnownArgumentNames` rule (`src/RelayKnownArgumentNames.ts:17-23`, `:38-42`) is not modelled. It is a foreign rule. `KnownArgumentNames.SiteDiagnostics` returns no reports for those directives.
- The lexer behind `parseType` is modelled only for names, `[`, `]`, `!` and the ignored characters (white space, commas, byte-order mark). Comments and the exact error texts of the parser are left out.
- `isTypeSubTypeOf` is modelled without its branch for abstract output types (interfaces and unions). `VariablesInAllowedPosition` only reaches it with input types, since a variable whose type is not an input type has no schema type there.
- `Unification.Unify`: variable definitions are compared without that branch either. Their types are read with `typeFromAST` and are not checked to be input types (`src/operationsReferencingFragment.ts:57-74`). So when `User` implements `Node`, the code unifies `query A($v: Node) { ...F }` and `query B($v: User) { ...F }` to `Node`, while the model finds no common type and leaves `$v` out. Such variables are not valid GraphQL, since variables must have input types.
- `valueFromAST` for `Float` accepts any integer or float literal without range checks. Custom scalars ask a function that is a parameter of the schema. Floating-point values are not modelled.
- `suggestionList` and `didYouMean` are parameters (`Suggestions`). Their string-distance algorithm belongs to graphql-js.
- `KnownArgumentNames.SiteDiagnostics`: where the code throws a `TypeError` (`@arguments` on an inline fragment or an anonymous operation, `src/RelayKnownArgumentNames.ts:30-31`), the model returns a `Failure` carrying the error text. How the host reports a crash is not modelled.
- The `console.log` for definition metadata that is not an object (`src/RelayKnownArgumentNames.ts:133-135`) is output only and is not modelled.
- Names that coincide with `Object.prototype` members are modelled where a `{}` dictionary is looked up by a name taken from the document: `getRecursiveVariableUsagesWithRelayInfo` (used by `VariablesInAllowedPosition`) and `RelayNoUnusedArguments`. The other lookups give the same result either way. In `ArgumentsOfCorrectType`, `DefaultValueOfCorrectType` and the fragment pass of `VariablesInAllowedPosition`, an inherited member has no schema type, so the code skips it just as it skips a missing name. Those lookups are modelled as maps.
- `__proto__` is not modelled: storing under it replaces the prototype instead of adding an entry.
- Directives on variable definitions are not modelled: `VariableDefinition` carries none. An `@arguments` written there would make `src/RelayKnownArgumentNames.ts:30-31` throw, as it does for an inline fragment, because the variable definition has no `name`.
- `CompatRequiredPageInfoFields.PageInfoInfo` and `CompatRequiredPageInfoFields.ConnectionInfo`: the source recurses through fragment spreads without a bound and does not terminate on cyclic fragments. The model carries a `fuel` bound and returns nothing when it runs out. Enough fuel for an acyclic document is proved (`RankedDocumentNeverRunsOut`); it is not proved that more fuel never changes a result already found.
- `CompatRequiredPageInfoFields.RankedDocumentNeverRunsOut`: covers only documents whose fragments are all ranked, with fuel above every rank. A smaller fuel can still give up on an acyclic document, and a document with a fragment cycle that no connection field reaches is not covered, although the source terminates on it.
- `getFragment` is a parameter of the pagination walk. The document-level rule passes the document's own lookup.
- Source positions, error objects and the language-server wiring (`src/generateConfig.ts`, `src/generateDirectivesFile.ts`, `src/dependencies.ts`) are not part of this model.

## Findings

| source | as written | input that shows it | evidently intended | confidence | as-written member | corrected member |
|---|---|---|---|---|---|---|
| src/RelayNoUnusedArguments.ts:14-27 | used names are recorded in a plain `{}`, so `!usages[arg]` is false for any name inherited from `Object.prototype` | `fragment F on User @argumentDefinitions(constructor: {type: "Int"}) { id }`: the argument `constructor` is never used, yet no report is made | an argument is reported whenever no variable of its name is used | not executed | NoUnusedArguments.NoUnusedArgumentsAsWritten, shown by NoUnusedArguments.UnusedConstructorArgumentMissed | NoUnusedArguments.NoUnusedArgumentsFor, proved by NoUnusedArguments.NoUnusedArgumentsExact |
| src/argumentDefinitions.ts:161-206 | variable definitions are looked up in plain `{}` dictionaries, so a variable named like an `Object.prototype` member is paired with that inherited function; the operation pass of `RelayVariablesInAllowedPosition` then reads `node.kind` off it (`src/RelayVariablesInAllowedPosition.ts:48`) and throws | `query Q { f(x: $constructor) }`; also `query Q($toString: Int) { ...F } fragment F on Query { f(x: $toString) }`, where the fragment's own dictionary answers `toString` | an undefined variable is simply not checked, and an operation variable used in a fragment is checked against its own definition | not executed | VariablesInAllowedPosition.RelayVariablesInAllowedPosition with `ObjectPrototype`, shown by VariablesInAllowedPosition.ConstructorVariableThrows | VariablesInAllowedPosition.RelayVariablesInAllowedPosition with `NullPrototype`, proved by VariablesInAllowedPosition.CorrectedNeverThrows and VariablesInAllowedPosition.PositionsAgreeAwayFromPrototypeNames |
