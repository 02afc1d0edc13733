/** TryGetStructurallyClosedTypeCases (Res.Analyzers/Analyzer.cs): a root is
    structurally closed when nobody outside it can derive from it (its instance
    constructors are private, or it is a record whose only other constructor is
    its protected copy constructor) and every subtype visible in its scope is
    sealed or has only private constructors. The visible symbols come from a
    semantic-model lookup; here they are an input sequence. */
module StructuralClosure {
  import opened TypeGraph

  /** A symbol found by the scope lookup: a type symbol, or any other member. */
  datatype Symbol = TypeSymbol(id: TypeId) | OtherSymbol

  /** An instance constructor of `root` that still keeps the hierarchy closed:
      a private one, or the protected copy constructor of a record root. */
  predicate CtorAllowed(g: Graph, root: TypeId, c: Ctor)
    requires root in g
  {
    c.access == Private
    || (g[root].isRecord && c.access == Protected && |c.params| == 1 && c.params[0] == root)
  }

  /** A visible case that nobody can derive from: sealed, or a named type whose
      instance constructors are all private. */
  predicate SealedOrPrivate(g: Graph, t: TypeId)
    requires t in g
  {
    g[t].isSealed || (g[t].isNamed && forall c :: c in g[t].ctors ==> c.access == Private)
  }

  /** The visible type symbols that are subtypes of `root`, in lookup order. */
  function NestedTypes(g: Graph, root: TypeId, visible: seq<Symbol>): (r: seq<TypeId>)
    requires forall s :: s in visible && s.TypeSymbol? ==> s.id in g
    ensures |r| <= |visible|
    ensures forall t :: t in r <==> TypeSymbol(t) in visible && IsSubtypeOf(g, t, root)
  {
    if visible == [] then []
    else
      var tail := NestedTypes(g, root, visible[1..]);
      match visible[0]
      case TypeSymbol(t) => if IsSubtypeOf(g, t, root) then [t] + tail else tail
      case OtherSymbol => tail
  }

  /** TryGetStructurallyClosedTypeCases: succeeds exactly when the root is a
      named, non-Error type whose constructors all keep it closed and every
      visible subtype is sealed or private-constructed; the cases are then the
      root and its visible subtypes, and nothing otherwise. */
  method TryGetStructurallyClosedTypeCases(g: Graph, root: TypeId, visible: seq<Symbol>)
    returns (ok: bool, allCases: set<TypeId>)
    requires root in g
    requires forall s :: s in visible && s.TypeSymbol? ==> s.id in g
    ensures ok <==>
      && g[root].isNamed && !g[root].isError
      && (forall c :: c in g[root].ctors ==> CtorAllowed(g, root, c))
      && (forall t :: TypeSymbol(t) in visible && IsSubtypeOf(g, t, root) ==> SealedOrPrivate(g, t))
    ensures !ok ==> allCases == {}
    ensures ok ==> forall t :: t in allCases <==> t == root || (TypeSymbol(t) in visible && IsSubtypeOf(g, t, root))
  {
    allCases := {};
    ok := false;
    if g[root].isNamed && !g[root].isError && forall c :: c in g[root].ctors ==> CtorAllowed(g, root, c) {
      var nestedTypes := NestedTypes(g, root, visible);
      if forall t :: t in nestedTypes ==> SealedOrPrivate(g, t) {
        allCases := allCases + {root};
        allCases := allCases + set t | t in nestedTypes;
        ok := true;
      }
    }
  }

  /** Every case found is the root or a subtype of it in the graph, and the
      root is one of them. */
  lemma CasesAreSubtypes(g: Graph, root: TypeId, visible: seq<Symbol>, allCases: set<TypeId>)
    requires root in g
    requires forall s :: s in visible && s.TypeSymbol? ==> s.id in g
    requires forall t :: t in allCases <==> t == root || (TypeSymbol(t) in visible && IsSubtypeOf(g, t, root))
    ensures root in allCases
    ensures forall t :: t in allCases ==> t in g && IsSubtypeOf(g, t, root)
  {
    forall t | t in allCases ensures t in g {
      if t != root {
        assert TypeSymbol(t) in visible;
      }
    }
  }

  /** When the lookup also yields the root itself, the root has to pass the
      nested-case test as well: an unsealed record root with its protected copy
      constructor is then rejected after all. */
  lemma VisibleRootMustBeSealedOrPrivate(g: Graph, root: TypeId, visible: seq<Symbol>)
    requires root in g && TypeSymbol(root) in visible
    requires forall s :: s in visible && s.TypeSymbol? ==> s.id in g
    requires forall t :: TypeSymbol(t) in visible && IsSubtypeOf(g, t, root) ==> SealedOrPrivate(g, t)
    ensures SealedOrPrivate(g, root)
  {
  }

  /** A record root whose constructors are a private one and its protected
      copy constructor passes the constructor test; the same root as a class,
      or with a public constructor, does not. */
  lemma CopyConstructorOnlyForRecords()
    ensures CtorAllowed(RecordRoot(true), 0, Ctor(Protected, [0]))
    ensures !CtorAllowed(RecordRoot(false), 0, Ctor(Protected, [0]))
    ensures !CtorAllowed(RecordRoot(true), 0, Ctor(Protected, [0, 0]))
    ensures !CtorAllowed(RecordRoot(true), 0, Ctor(Public, [0]))
  {
  }

  function RecordRoot(isRecord: bool): Graph {
    map[0 := TypeInfo(false, true, true, false, isRecord, None, [], [], [],
                      [Ctor(Private, []), Ctor(Protected, [0])])]
  }
}
