# Res: closed type hierarchies and result types, in Dafny

Res is a C# library. Its analyzer reads closed type hierarchies: a root type
names its permitted case types in the arguments of a "closed" attribute.
`TypeSymbolExtensions` in `Res.Analyzers/Analyzer.cs` provides the following:

- subtype tests and the base-class walk;
- reading the closed attribute's arguments;
- the breadth-first resolver `GetClosedTypeCases`, which builds the case set
  of a root;
- the depth-first leaf extractor `GetLeafCaseTypes`, built on the
  explicit-stack walk `SelectRecursive`;
- the structural-closure test `TryGetStructurallyClosedTypeCases`;
- the predicates `IsConcrete` and `IsConcreteOrLeaf`.

The library also ships three families of result types: `BasicRes`, `EnumRes`
and `Res`.

The model replaces Roslyn's symbols with an explicit type graph
(`TypeGraph.Graph`). This is a finite map from type ids to records. Each
record holds:

- the Error, named, abstract, sealed and record flags;
- the base type;
- the direct interfaces and all interfaces;
- the attributes with their typed-constant arguments;
- the instance constructors, each with its accessibility and parameter types.

The class of the closed attribute is a parameter `closed`, as in the source.
A well-formed graph satisfies these conditions:

- every base type, interface and declared case type a record names is a type
  of the graph;
- the direct interfaces are among all interfaces;
- the base chain of every type reaches null.

The model takes the same form as the source:

- `SelectRecursive` is a method with a stack and loops.
- `BaseClasses` is a method with a loop.
- `GetClosedTypeCases` is a method with a queue, a visited set and its two
  nested loops.
- The LINQ and boolean expressions become functions and predicates.
- The result types are datatypes. Each call ends in an `Outcome`: a value,
  or a thrown exception.

Every loop is proved against a specification function or against the
property the source promises. `GetClosedTypeCases` returns the least set
closed for the root, and its loop terminates on every well-formed graph,
including one with cyclic declarations. `SelectRecursive` returns a pre-order walk with the
last root first and the last child first. Its termination needs the declared
case relation to be well founded on the types reachable from the roots. A
ghost set of types, closed under declared cases and holding the roots,
carries a rank that every declared case lowers; types outside it, such as a
cycle no root reaches, are unconstrained.

The code computes no exhaustiveness verdict. The analyzer entry point builds
a diagnostic and discards it, so the model has no coverage check.

The resolver differs from a "visit each type once" reading of it. The
resolver only refuses to enqueue types already in the result set. A type
that is a valid case of two types can therefore sit in the queue twice and
be dequeued twice. The model follows the code: the second visit adds nothing
to the set, and the termination measure counts such entries.

## Model

| member | source | states |
|---|---|---|
| TypeGraph.TypeConstants | Res.Analyzers/Analyzer.cs:132-147 | An id comes out of an argument exactly when the argument is that Type constant, or is an array holding it as a Type element; every other kind of constant yields nothing |
| TypeGraph.TypeElements | Res.Analyzers/Analyzer.cs:141-145 | The Type elements of an array, no more of them than elements, and an id comes out exactly when the array holds it as a Type constant |
| TypeGraph.TypeElementsAppend | Res.Analyzers/Analyzer.cs:141-145 | The Type elements keep the array's order: those of two arrays laid end to end are those of the first followed by those of the second |
| TypeGraph.BaseClasses | Res.Analyzers/Analyzer.cs:53-61 | The loop that follows BaseType until null yields exactly the base chain of the type |
| TypeGraph.BaseChainShape | Res.Analyzers/Analyzer.cs:53-61 | The base classes start at the base type, each is the base of the one before, the last has no base, all are types of the graph, and the type itself is never among them |
| TypeGraph.BaseClassesAreProper | Res.Analyzers/Analyzer.cs:63-66 | A type inherits only from types of the graph other than itself |
| TypeGraph.IsSubtypeOf | Res.Analyzers/Analyzer.cs:33-36 | `ty` is the type itself, one of all its interfaces or one of its base classes; every type is a subtype of itself |
| TypeGraph.IsDirectSubtypeOf | Res.Analyzers/Analyzer.cs:38-41 | `ty` is a directly listed interface or the base type; in a well-formed record such a `ty` is a type of the graph |
| TypeGraph.DirectlyImplements | Res.Analyzers/Analyzer.cs:43-46 | `ty` is one of the directly listed interfaces, and so, in a well-formed record, one of all the interfaces |
| TypeGraph.Implements | Res.Analyzers/Analyzer.cs:48-51 | `ty` is one of all the interfaces, and so, in a well-formed record, a type of the graph |
| TypeGraph.InheritsFrom | Res.Analyzers/Analyzer.cs:63-66 | `ty` is one of the base classes: a type inherits from its base type, and a type without a base type inherits from nothing |
| TypeGraph.InheritsInterfaces | Res.Analyzers/Analyzer.cs:81-84 | Defined as IsSubtypeOf on the same arguments |
| TypeGraph.HasAttribute | Res.Analyzers/Analyzer.cs:76-79 | Some attribute of the type has the given attribute class |
| TypeGraph.IsDirectSubtypeOfTypeWithAttribute | Res.Analyzers/Analyzer.cs:68-74 | Some directly listed interface carries the attribute, or the base type exists and carries it |
| TypeGraph.DirectSubtypeIsSubtype | Res.Analyzers/Analyzer.cs:33-66 | A direct subtype (listed interface or base type) is a subtype, given that all interfaces include the direct ones |
| TypeGraph.DirectSuperTypes | Res.Analyzers/Analyzer.cs:149-155 | The direct super types are exactly the types the type is a direct subtype of |
| TypeGraph.AllSuperTypes | Res.Analyzers/Analyzer.cs:157-160 | A type is a subtype of `ty` exactly when `ty` is itself or among its super types (all interfaces, then base classes) |
| TypeGraph.DirectSubtypeOfAttributed | Res.Analyzers/Analyzer.cs:68-79 | A type is a direct subtype of a type carrying the attribute exactly when one of its direct super types carries it |
| CaseTypes.GetCaseTypes | Res.Analyzers/Analyzer.cs:102-112 | The Type constants of the arguments of every attribute of the closed class, attribute by attribute and argument by argument |
| CaseTypes.CaseTypesMembers | Res.Analyzers/Analyzer.cs:102-147 | A case type of `t` is exactly a Type argument, or a Type element of an array argument, of a closed attribute of `t` |
| CaseTypes.CaseTypesConcatenate | Res.Analyzers/Analyzer.cs:102-112 | The case types of attributes in sequence are those of the first part followed by those of the rest |
| CaseTypes.ArgumentTypesAppend | Res.Analyzers/Analyzer.cs:108-109 | Flattening concatenated argument lists concatenates their Type constants in order |
| CaseTypes.NoAttributeNoCases | Res.Analyzers/Analyzer.cs:106-107 | A type without the closed attribute has no case types |
| CaseTypes.CaseTypesInGraph | Res.Analyzers/Analyzer.cs:102-112 | In a well-formed graph every case type is a type of the graph |
| CaseTypes.IsValidCase | Res.Analyzers/Analyzer.cs:119 | A case type is valid when it is not an Error type and is a direct subtype of the declaring type |
| CaseTypes.KeepValid | Res.Analyzers/Analyzer.cs:118-119 | The kept entries are exactly the valid ones of the input, in input order, each as many times as it occurs in the input |
| CaseTypes.GetValidCaseTypes | Res.Analyzers/Analyzer.cs:114-120 | Exactly the case types that are not Error types and are direct subtypes of `t`, as an order-preserving subsequence of the case types |
| CaseTypes.ValidCaseTypesCounts | Res.Analyzers/Analyzer.cs:114-120 | No deduplication: a valid case type declared n times is kept n times, any other case type not at all |
| Enumerables.Reverse | Res.Analyzers/Analyzer.cs:18-26 | Reverse order of push, as a stack pops it: same length, element i is element n-1-i |
| Enumerables.PushAll | Res.Analyzers/Analyzer.cs:18-19 | Pushing a sequence leaves the stack with the sequence on top, the last one pushed topmost (the same push loop serves the children at lines 25-26) |
| Enumerables.ReverseMembers | Res.Analyzers/Analyzer.cs:21-26 | Popping in reverse order loses and adds no element |
| Enumerables.SelectRecursive | Res.Analyzers/Analyzer.cs:13-28 | The explicit-stack walk yields exactly the pre-order walk of the roots, last root first and last child first |
| Enumerables.PopStep | Res.Analyzers/Analyzer.cs:21-27 | Popping an item yields it and leaves the walk of the rest of the stack with the item's children pushed on it |
| Enumerables.PreorderStartsWithLastRoot | Res.Analyzers/Analyzer.cs:17-24 | A non-empty walk starts with the last root pushed |
| Enumerables.ExpandChildren | Res.Analyzers/Analyzer.cs:23-26 | An item comes before its children, and the children come out last pushed first |
| Enumerables.ExpandMembers | Res.Analyzers/Analyzer.cs:23-26 | An item is yielded for `x` exactly when it is `x` or is yielded for one of its children |
| Enumerables.ExpandCounts | Res.Analyzers/Analyzer.cs:21-26 | No deduplication in general: the walk of an item counts the item once plus, for every item, as many occurrences as the walks of its children yield together |
| Enumerables.ItemOnce | Res.Analyzers/Analyzer.cs:21-26 | Under a rank, the walk of an item yields that item exactly once |
| Enumerables.ExpandRanks | Res.Analyzers/Analyzer.cs:21-26 | Every item of the walk of `x` ranks no higher than `x` |
| Enumerables.NoReturnToAncestor | Res.Analyzers/Analyzer.cs:21-26 | Under a rank, no child's walk yields its parent: a relation in which an item reaches itself has no rank |
| Enumerables.DiamondYieldsTwice | Res.Analyzers/Analyzer.cs:13-28 | No deduplication: in a diamond the shared child is yielded once per path |
| LeafCases.Unclosed | Res.Analyzers/Analyzer.cs:129 | Keeps exactly the entries without the closed attribute, each as many times as it occurs in the input |
| LeafCases.GetLeafCaseTypes | Res.Analyzers/Analyzer.cs:123-130 | The leaves are the unclosed types of the walk through the raw case lists; none carries the attribute; an unattributed root yields exactly itself |
| LeafCases.WalkMembers | Res.Analyzers/Analyzer.cs:127-128 | A type is visited from `t` exactly when it is `t` or is visited from a case type `t` declares |
| LeafCases.ReachableCycleHasNoRank | Res.Analyzers/Analyzer.cs:123-130 | A declaration cycle through a type the walk may reach admits no rank, so no termination is claimed for it |
| LeafCases.UnreachableCycleIgnored | Res.Analyzers/Analyzer.cs:123-130 | A declaration cycle the root cannot reach does not constrain the walk: a root that declares nothing is its own only leaf, although no rank covers the cycle itself |
| LeafCases.LeafWalkKeepsNonSubtypes | Res.Analyzers/Analyzer.cs:127-129 | The walk does not filter by subtype: a declared case unrelated to the root comes out as a leaf |
| ClosedCases.NotIn | Res.Analyzers/Analyzer.cs:183-186 | The entries enqueued are exactly the case types not yet in the set |
| ClosedCases.EnqueueUnvisited | Res.Analyzers/Analyzer.cs:183-186 | The inner loop appends, in order, the case types not already in the set |
| ClosedCases.InitStep | Res.Analyzers/Analyzer.cs:166-168 | The empty set with the root queued satisfies the loop invariant |
| ClosedCases.SkipStep | Res.Analyzers/Analyzer.cs:174-177 | Skipping an entry because the root is an Error type or the entry is no subtype keeps the invariant |
| ClosedCases.AddStep | Res.Analyzers/Analyzer.cs:179-186 | Adding a subtype to the set and enqueueing its unvisited valid cases keeps the invariant |
| ClosedCases.AddPending | Res.Analyzers/Analyzer.cs:179-186 | After adding an entry and enqueueing its unvisited valid cases, every valid subtype case of a member is found or queued |
| ClosedCases.AddLeast | Res.Analyzers/Analyzer.cs:179-186 | After the same step, everything found or queued as a subtype lies in every closed set |
| ClosedCases.AddMeasure | Res.Analyzers/Analyzer.cs:179-186 | Each added entry grows the set, or the entry was already in it and the remaining work shrinks: the loop ends even on cyclic declarations |
| ClosedCases.FinalStep | Res.Analyzers/Analyzer.cs:170-189 | With the queue empty, the set is closed, least, and made of non-Error subtypes of the root |
| ClosedCases.FinalClosed | Res.Analyzers/Analyzer.cs:170-189 | With nothing left queued, the set found is closed for the root |
| ClosedCases.GetClosedTypeCases | Res.Analyzers/Analyzer.cs:162-190 | Empty for an Error root, else holds the root; every member is a non-Error subtype of the root; every valid case of a member that is a subtype of the root is a member; and the set lies inside every set with those properties |
| StructuralClosure.NestedTypes | Res.Analyzers/Analyzer.cs:218-221 | Exactly the visible type symbols that are subtypes of the root, no more of them than symbols |
| StructuralClosure.TryGetStructurallyClosedTypeCases | Res.Analyzers/Analyzer.cs:207-233 | Succeeds exactly when the root is named, not an Error type, every constructor is private or a record's protected copy constructor, and every visible subtype is sealed or private-constructed; on success the cases are the root and the visible subtypes, on failure none |
| StructuralClosure.CasesAreSubtypes | Res.Analyzers/Analyzer.cs:225-226 | On success the root is a case and every case is a subtype of the root in the graph |
| StructuralClosure.VisibleRootMustBeSealedOrPrivate | Res.Analyzers/Analyzer.cs:218-223 | If the lookup yields the root itself, success requires the root to be sealed or private-constructed |
| StructuralClosure.CopyConstructorOnlyForRecords | Res.Analyzers/Analyzer.cs:213-215 | A protected one-parameter copy constructor is allowed on a record root only; with another arity or a public constructor it is not |
| Concreteness.IsConcrete | Res.Analyzers/Analyzer.cs:192-197 | The type is present, not an Error type and not abstract |
| Concreteness.IsConcreteOrLeaf | Res.Analyzers/Analyzer.cs:199-205 | The type is present, not an Error type, and either not abstract or without the closed attribute |
| Concreteness.ConcreteIsConcreteOrLeaf | Res.Analyzers/Analyzer.cs:192-205 | A concrete type passes the concrete-or-leaf test; null passes neither |
| Concreteness.AbstractLeafDeclaresNoCases | Res.Analyzers/Analyzer.cs:199-205 | An abstract type that passes the concrete-or-leaf test is not concrete and declares no case types |
| BasicResults.Reason | Res/BasicRes.cs:31-34 | "Unable to unwrap '", the side's name, "' on type " and the result type's name |
| BasicResults.NewCannotUnwrapError | Res/BasicRes.cs:27-35 | An Errors.CannotUnwrapError whose Reason is that text |
| BasicResults.ReasonInjective | Res/BasicRes.cs:31-34 | The CannotUnwrapError reason determines the unwrap side and the type name |
| BasicResults.Ok | Res/BasicRes.cs:100-103 | The Ok factory builds a BasicOk holding the value |
| BasicResults.Err | Res/BasicRes.cs:105-108 | The Err factory builds a BasicErr holding the error |
| BasicResults.Unwrap | Res/BasicRes.cs:54-57 | BasicOk returns its value; BasicErr and EnumErr throw the exception carrying their error (lines 79-82, BasicResWithEnums.cs:81-84) |
| BasicResults.UnwrapOr | Res/BasicRes.cs:59-62 | BasicOk returns its value; BasicErr and EnumErr return the fallback (lines 89-92, BasicResWithEnums.cs:91-94) |
| BasicResults.UnwrapError | Res/BasicRes.cs:64-67 | BasicOk throws the Errors exception for the Err side and the error type; BasicErr and EnumErr return their error (lines 84-87, BasicResWithEnums.cs:86-89) |
| BasicResults.OkRoundTrip | Res/BasicRes.cs:54-67 | Ok(v) unwraps to v, UnwrapOr ignores the fallback, UnwrapError throws the Errors exception whose reason is "Unable to unwrap 'Err' on type " and the error type's name |
| BasicResults.ErrRoundTrip | Res/BasicRes.cs:79-92 | Err(e) gives e back from UnwrapError, UnwrapOr returns the fallback, Unwrap throws the exception carrying e |
| BasicResults.ExactlyOneSide | Res/BasicRes.cs:39-92 | On every result exactly one of Unwrap and UnwrapError returns, UnwrapOr agrees with Unwrap or falls back, and Unwrap throws exactly the error UnwrapError returns |
| EnumResults.NewEnumCannotUnwrapError | Res/BasicResWithEnums.cs:28-37 | The Error code is always CannotUnwrap and the reason reads as the Errors one does |
| EnumResults.Unwrap | Res/BasicResWithEnums.cs:56-59 | EnumOk returns its value |
| EnumResults.UnwrapOr | Res/BasicResWithEnums.cs:61-64 | EnumOk returns its value, ignoring the fallback |
| EnumResults.UnwrapError | Res/BasicResWithEnums.cs:66-69 | EnumOk throws the Basic Errors exception for the Err side and the error type |
| EnumResults.Ok | Res/BasicResWithEnums.cs:102-105 | The EnumRes.Ok factory builds a BasicOk holding the value |
| EnumResults.Err | Res/BasicResWithEnums.cs:107-110 | The EnumRes.Err factory builds a BasicErr holding the error |
| EnumResults.EnumOkIsBasicOk | Res/BasicResWithEnums.cs:48-70 | EnumOk returns its value from Unwrap and UnwrapOr and throws the Basic Errors exception from UnwrapError, exactly as BasicOk |
| EnumResults.EnumErrIsBasicErr | Res/BasicResWithEnums.cs:72-95 | EnumErr throws the Basic exception carrying its error from Unwrap, returns it from UnwrapError and the fallback from UnwrapOr, exactly as BasicErr |
| EnumResults.FactoriesAgree | Res/BasicResWithEnums.cs:100-111 | The EnumRes factories build the same values as the BasicRes factories |
| Results.MakeOk | Res/Res.cs:10-13 | Res.Ok builds an Ok storing the value |
| Results.MakeErr | Res/Res.cs:15-18 | Res.Err builds an Err whose Error is the given exception |
| Results.Unwrap | Res/Res.cs:26-63 | Err throws its stored error (line 33); Ok throws NotImplementedException (lines 60-63) |
| Results.UnwrapNeverReturns | Res/Res.cs:26-63 | Unwrap never returns: an Err throws its own error, an Ok throws NotImplementedException whatever it stores |
| Results.NullValueMessage | Res/Res.cs:3-6 | "Result with ", the type's name, " is null" |
| Results.NullValueMessageInjective | Res/Res.cs:3-6 | The message "Result with <name> is null" determines the type name |

## Left out

- Roslyn plumbing is replaced by explicit inputs. This covers the symbol API,
  `GetCaseTypeSyntaxes` (a syntax-tree walk), `SyntaxNodeAnalysisContextExtensions`
  and the `Analyzer` class: `Initialize`, `SupportedDiagnostics` and
  `AnalyzeSwitchExpression`. Symbol equality is id equality.
- No exhaustiveness or coverage verdict: the code never computes or reports one.
- Concurrent execution of the analyzer is not modelled, as the model is sequential.
- The newline scrub with `Regex.Replace` in the analyzer's exception handler is
  left out. It is a library call on a message string.
- Enumerables.SelectRecursive and LeafCases.GetLeafCaseTypes: termination is
  proved only where the relation, on the items reachable from the roots, is
  ordered by a rank. When a declaration cycle is reachable from the root, the
  source walks forever and no rank exists (`LeafCases.ReachableCycleHasNoRank`).
  The model does not describe that divergence; it only excludes such roots.
- Lazy, single-pass enumeration (`yield return`) becomes a complete sequence.
- Null inputs that make the source throw a `NullReferenceException` are not
  modelled:
  - a null array constant (`Values` of a null array); an array argument always
    has a list of elements;
  - a null Type element, such as `typeof(A), null` in an array argument, which
    passes the `Cast<ITypeSymbol>()` at Analyzer.cs:111 and fails on
    `TypeKind` at Analyzer.cs:119; every Type constant names a type;
  - an attribute whose class did not resolve (a null `AttributeClass`), which
    fails at Analyzer.cs:78 and :107; every attribute has a class;
  - `Err(null).Unwrap()`, where `throw` of a null exception raises a
    `NullReferenceException` (Res/Res.cs:33); Results.Unwrap always throws
    the stored error.
- StructuralClosure.TryGetStructurallyClosedTypeCases: a null root is not
  modelled; the root is a type of the graph. The scope lookup
  `LookupSymbols(0, rootType)` is the input sequence `visible`.
- Runtime type names (`typeof(T).Name`) are string parameters. Stack traces,
  record equality and `ToString` are not modelled.
- `BasicResException` keeps only its `Error` property, and as an immutable
  value: the public setter (Res/BasicRes.cs:10) is not modelled. Both
  instantiations that the code throws are the two variants of one datatype.
- `EnumResException`, `IError`, `IError<TError>` and `Error<TErrorCode>` are
  declared but never thrown or constructed in the modelled code, so they are
  not modelled.
- EnumResults.NewEnumCannotUnwrapError: its subclassing of `Errors` is not
  modelled, since nothing throws it.
- The non-abstract base class `Res`, which can itself be instantiated, is not
  modelled. Only its subclasses `Ok` and `Err` are modelled, and they are
  immutable values (their fields are readonly).
- The `NullValueException` class is modelled only through its message. The
  modelled code never throws it.
