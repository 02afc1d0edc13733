/** The symbol graph the analyzer reads: each type's flags, its base type, its
    interfaces, its attributes and its instance constructors, held as a finite
    map from type ids to records. The subtype tests and the base-class walk of
    TypeSymbolExtensions (Res.Analyzers/Analyzer.cs) are stated over it. */
module TypeGraph {

  datatype Option<T> = None | Some(value: T)

  type TypeId = nat

  /** Roslyn's declared accessibility of a member. */
  datatype Accessibility =
    | NotApplicable | Private | ProtectedAndInternal | Protected
    | Internal | ProtectedOrInternal | Public

  /** An instance constructor: its accessibility and the types of its parameters. */
  datatype Ctor = Ctor(access: Accessibility, params: seq<TypeId>)

  /** An attribute argument, by its TypedConstantKind. */
  datatype TypedConstant =
    | ErrorConst
    | PrimitiveConst
    | EnumConst
    | TypeConst(ty: TypeId)
    | ArrayConst(values: seq<TypedConstant>)

  /** One attribute application: the attribute class and its constructor arguments. */
  datatype Attribute = Attribute(cls: TypeId, args: seq<TypedConstant>)

  datatype TypeInfo = TypeInfo(
    isError: bool,        // TypeKind == TypeKind.Error
    isNamed: bool,        // the symbol is an INamedTypeSymbol
    isAbstract: bool,
    isSealed: bool,
    isRecord: bool,
    baseType: Option<TypeId>,
    interfaces: seq<TypeId>,     // directly listed interfaces
    allInterfaces: seq<TypeId>,  // every interface, inherited ones included
    attributes: seq<Attribute>,
    ctors: seq<Ctor>             // instance constructors
  )

  type Graph = map<TypeId, TypeInfo>

  /** The ids an argument names as Type constants, at top level or as elements
      of a top-level array (the only ones the analyzer reads). */
  function TypeConstants(c: TypedConstant): (r: seq<TypeId>)
    ensures forall x :: x in r <==> c == TypeConst(x) || (c.ArrayConst? && TypeConst(x) in c.values)
  {
    match c
    case TypeConst(t) => [t]
    case ArrayConst(vs) => TypeElements(vs)
    case _ => []
  }

  /** The Type-kind elements of an array constant, in order; the others are dropped. */
  function TypeElements(vs: seq<TypedConstant>): (r: seq<TypeId>)
    ensures |r| <= |vs|
    ensures forall x :: x in r <==> TypeConst(x) in vs
  {
    if vs == [] then []
    else (if vs[0].TypeConst? then [vs[0].ty] else []) + TypeElements(vs[1..])
  }

  /** The Type elements of two arrays laid end to end are those of the first,
      then those of the second: the elements keep the array's order. */
  lemma {:induction false} TypeElementsAppend(a: seq<TypedConstant>, b: seq<TypedConstant>)
    ensures TypeElements(a + b) == TypeElements(a) + TypeElements(b)
    decreases |a|
  {
    if a == [] {
      assert a + b == b;
    } else {
      assert (a + b)[0] == a[0] && (a + b)[1..] == a[1..] + b;
      TypeElementsAppend(a[1..], b);
      var h := if a[0].TypeConst? then [a[0].ty] else [];
      var x, y := TypeElements(a[1..]), TypeElements(b);
      assert TypeElements(a + b) == h + (x + y);
      assert h + (x + y) == (h + x) + y;
    }
  }

  /** Every base type, interface and declared case type a record names lies
      in `keys`, and the direct interfaces are among all interfaces (both
      guaranteed by the compiler's symbol table). Constructor parameter types
      and attribute classes are not constrained. */
  ghost predicate InfoWf(keys: set<TypeId>, info: TypeInfo) {
    && (info.baseType.Some? ==> info.baseType.value in keys)
    && (forall i :: i in info.interfaces ==> i in info.allInterfaces)
    && (forall i :: i in info.allInterfaces ==> i in keys)
    && (forall a, c, x :: a in info.attributes && c in a.args && x in TypeConstants(c) ==> x in keys)
  }

  /** One step up the base chain; None once the chain has ended. */
  function Step(g: Graph, b: Option<TypeId>): Option<TypeId> {
    if b.Some? && b.value in g then g[b.value].baseType else None
  }

  /** n steps up the base chain. */
  function Iter(g: Graph, b: Option<TypeId>, n: nat): Option<TypeId>
    decreases n
  {
    if n == 0 then b else Iter(g, Step(g, b), n - 1)
  }

  /** The base chain of every type ends: |g| steps from any type reach null
      (a longer chain of ids from g would have to repeat one). */
  ghost predicate Acyclic(g: Graph) {
    forall t :: t in g ==> Iter(g, Some(t), |g|) == None
  }

  ghost predicate Wf(g: Graph) {
    (forall t :: t in g ==> InfoWf(g.Keys, g[t])) && Acyclic(g)
  }

  /** The ids visited from `b` in at most `fuel` steps, nearest first. */
  function Chain(g: Graph, b: Option<TypeId>, fuel: nat): seq<TypeId>
    decreases fuel
  {
    if fuel == 0 || b.None? then [] else [b.value] + Chain(g, Step(g, b), fuel - 1)
  }

  /** The base classes of `t`, nearest first: the value BaseClasses enumerates. */
  function BaseChain(g: Graph, t: TypeId): seq<TypeId>
    requires t in g
  {
    Chain(g, g[t].baseType, |g|)
  }

  lemma {:induction false} IterNoneStays(g: Graph, b: Option<TypeId>, n: nat, m: nat)
    requires Iter(g, b, n) == None && n <= m
    ensures Iter(g, b, m) == None
    decreases n, m
  {
    if n > 0 {
      IterNoneStays(g, Step(g, b), n - 1, m - 1);
    } else if m > 0 {
      IterNoneStays(g, Step(g, b), 0, m - 1);
    }
  }

  lemma {:induction false} IterAdd(g: Graph, b: Option<TypeId>, m: nat, n: nat)
    ensures Iter(g, b, m + n) == Iter(g, Iter(g, b, m), n)
    decreases m
  {
    if m > 0 {
      IterAdd(g, Step(g, b), m - 1, n);
    }
  }

  /** A type that lies on its own base chain never reaches null. */
  lemma {:induction false} CycleNeverEnds(g: Graph, t: TypeId, p: nat, n: nat)
    requires p >= 1 && Iter(g, Some(t), p) == Some(t)
    ensures Iter(g, Some(t), n) != None
    decreases n
  {
    if n < p {
      if Iter(g, Some(t), n) == None {
        IterNoneStays(g, Some(t), n, p);
      }
    } else {
      IterAdd(g, Some(t), p, n - p);
      CycleNeverEnds(g, t, p, n - p);
    }
  }

  /** Every type reached up the base chain of a type of the graph is in the graph. */
  lemma {:induction false} IterInGraph(g: Graph, t: TypeId, n: nat)
    requires Wf(g) && t in g
    ensures Iter(g, Some(t), n).Some? ==> Iter(g, Some(t), n).value in g
    decreases n
  {
    if n > 0 {
      IterInGraph(g, t, n - 1);
      IterAdd(g, Some(t), n - 1, 1);
      var b := Iter(g, Some(t), n - 1);
      if b.Some? {
        assert InfoWf(g.Keys, g[b.value]);
      }
    }
  }

  /** Element k of a chain is k steps from its start. */
  lemma {:induction false} ChainAt(g: Graph, b: Option<TypeId>, fuel: nat, k: nat)
    requires k < |Chain(g, b, fuel)|
    ensures Iter(g, b, k) == Some(Chain(g, b, fuel)[k])
    decreases k
  {
    if k > 0 {
      ChainAt(g, Step(g, b), fuel - 1, k - 1);
    }
  }

  lemma {:induction false} ChainLength(g: Graph, b: Option<TypeId>, fuel: nat, k: nat)
    requires k < fuel && Iter(g, b, k) != None
    ensures k < |Chain(g, b, fuel)|
    decreases k
  {
    if k > 0 {
      ChainLength(g, Step(g, b), fuel - 1, k - 1);
    }
  }

  /** BaseClasses yields the BaseType chain nearest first: it starts at the
      base type, each element is the base of the one before, the last one has
      no base, every element is a type of the graph, and the type itself is
      never among them. */
  lemma BaseChainShape(g: Graph, t: TypeId)
    requires Wf(g) && t in g
    ensures var r := BaseChain(g, t);
      && (r == [] <==> g[t].baseType.None?)
      && (r != [] ==> r[0] == g[t].baseType.value)
      && (forall i :: 0 <= i < |r| ==> r[i] in g)
      && (forall i :: 0 <= i < |r| - 1 ==> g[r[i]].baseType == Some(r[i + 1]))
      && (r != [] ==> g[r[|r| - 1]].baseType.None?)
      && t !in r
  {
    var r := BaseChain(g, t);
    var b := g[t].baseType;
    assert Iter(g, Some(t), 1) == b;
    forall i | 0 <= i < |r|
      ensures Iter(g, Some(t), i + 1) == Some(r[i]) && r[i] in g
    {
      ChainAt(g, b, |g|, i);
      IterAdd(g, Some(t), 1, i);
      IterInGraph(g, t, i + 1);
    }
    forall i | 0 <= i < |r| - 1
      ensures g[r[i]].baseType == Some(r[i + 1])
    {
      ChainAt(g, b, |g|, i);
      ChainAt(g, b, |g|, i + 1);
      IterAdd(g, b, i, 1);
    }
    if r != [] {
      var k := |r| - 1;
      ChainAt(g, b, |g|, k);
      IterAdd(g, b, k, 1);
      if Iter(g, b, k + 1) != None {
        // the chain would have |g| + 1 elements, one more than its fuel
        IterAdd(g, Some(t), 1, k + 1);
        if k + 1 < |g| {
          ChainLength(g, b, |g|, k + 1);
        } else {
          assert Iter(g, Some(t), |g|) == None;
          IterNoneStays(g, Some(t), |g|, k + 2);
        }
      }
    }
    if t in r {
      var i :| 0 <= i < |r| && r[i] == t;
      CycleNeverEnds(g, t, i + 1, |g|);
    }
  }

  /** BaseClasses: walks the BaseType chain while it is not null. */
  method BaseClasses(g: Graph, t: TypeId) returns (r: seq<TypeId>)
    requires Wf(g) && t in g
    ensures r == BaseChain(g, t)
  {
    r := [];
    var baseType := g[t].baseType;
    assert Iter(g, Some(t), |g|) == None;
    IterAdd(g, Some(t), 1, |g| - 1);
    assert InfoWf(g.Keys, g[t]);
    while baseType != None
      invariant |r| < |g|
      invariant baseType.Some? ==> baseType.value in g
      invariant Iter(g, baseType, |g| - 1 - |r|) == None
      invariant r + Chain(g, baseType, |g| - |r|) == BaseChain(g, t)
      decreases |g| - |r|
    {
      assert InfoWf(g.Keys, g[baseType.value]);
      r := r + [baseType.value];
      baseType := g[baseType.value].baseType;
    }
  }

  /** DirectlyImplements: `ty` is one of the directly listed interfaces. */
  function DirectlyImplements(g: Graph, s: TypeId, ty: TypeId): (r: bool)
    requires s in g
    ensures r && InfoWf(g.Keys, g[s]) ==> Implements(g, s, ty)
  {
    ty in g[s].interfaces
  }

  /** Implements: `ty` is one of all the interfaces of `s`. */
  function Implements(g: Graph, s: TypeId, ty: TypeId): (r: bool)
    requires s in g
    ensures r && InfoWf(g.Keys, g[s]) ==> ty in g
  {
    ty in g[s].allInterfaces
  }

  /** InheritsFrom: `ty` is one of the base classes of `s`. A type inherits
      from its base type, and a type without one inherits from nothing. */
  function InheritsFrom(g: Graph, s: TypeId, ty: TypeId): (r: bool)
    requires s in g
    ensures g[s].baseType == Some(ty) ==> r
    ensures g[s].baseType.None? ==> !r
  {
    assert |g| > 0 by { assert s in g.Keys; }
    ty in BaseChain(g, s)
  }

  /** IsSubtypeOf: `ty` is `s` itself, one of its interfaces or one of its
      base classes; in particular every type is a subtype of itself. */
  function IsSubtypeOf(g: Graph, s: TypeId, ty: TypeId): (r: bool)
    requires s in g
    ensures s == ty ==> r
  {
    s == ty || Implements(g, s, ty) || InheritsFrom(g, s, ty)
  }

  /** IsDirectSubtypeOf: `ty` is a directly listed interface or the base
      type of `s`, and so a type of the graph. */
  function IsDirectSubtypeOf(g: Graph, s: TypeId, ty: TypeId): (r: bool)
    requires s in g
    ensures r && InfoWf(g.Keys, g[s]) ==> ty in g
  {
    DirectlyImplements(g, s, ty) || g[s].baseType == Some(ty)
  }

  /** InheritsInterfaces is IsSubtypeOf under another name. */
  predicate InheritsInterfaces(g: Graph, s: TypeId, ty: TypeId)
    requires s in g
  {
    IsSubtypeOf(g, s, ty)
  }

  /** DirectSuperTypes: the direct interfaces, then the base type if there is one. */
  function DirectSuperTypes(g: Graph, s: TypeId): (r: seq<TypeId>)
    requires s in g
    ensures forall ty :: ty in r <==> IsDirectSubtypeOf(g, s, ty)
  {
    g[s].interfaces + (if g[s].baseType.Some? then [g[s].baseType.value] else [])
  }

  /** AllSuperTypes: all interfaces, then the base classes. */
  function AllSuperTypes(g: Graph, s: TypeId): (r: seq<TypeId>)
    requires s in g
    ensures forall ty :: IsSubtypeOf(g, s, ty) <==> s == ty || ty in r
  {
    g[s].allInterfaces + BaseChain(g, s)
  }

  /** A direct subtype is a subtype: its interfaces are among all its
      interfaces, and its base classes begin with its base type. */
  lemma DirectSubtypeIsSubtype(g: Graph, s: TypeId, ty: TypeId)
    requires s in g && InfoWf(g.Keys, g[s])
    requires IsDirectSubtypeOf(g, s, ty)
    ensures IsSubtypeOf(g, s, ty)
  {
    if g[s].baseType == Some(ty) {
      assert BaseChain(g, s)[0] == ty;
    }
  }

  /** The base classes of a type are proper supertypes: types of the graph,
      never the type itself. */
  lemma BaseClassesAreProper(g: Graph, s: TypeId, ty: TypeId)
    requires Wf(g) && s in g && InheritsFrom(g, s, ty)
    ensures ty != s && ty in g
  {
    BaseChainShape(g, s);
  }

  predicate HasAttribute(g: Graph, s: TypeId, attributeType: TypeId)
    requires s in g
  {
    exists a :: a in g[s].attributes && a.cls == attributeType
  }

  /** IsDirectSubtypeOfTypeWithAttribute: some direct interface or the base
      type carries the attribute. */
  predicate IsDirectSubtypeOfTypeWithAttribute(g: Graph, s: TypeId, attributeType: TypeId)
    requires s in g && InfoWf(g.Keys, g[s])
  {
    (exists i :: i in g[s].interfaces && HasAttribute(g, i, attributeType))
    || (g[s].baseType.Some? && HasAttribute(g, g[s].baseType.value, attributeType))
  }

  lemma DirectSubtypeOfAttributed(g: Graph, s: TypeId, attributeType: TypeId)
    requires s in g && InfoWf(g.Keys, g[s])
    ensures IsDirectSubtypeOfTypeWithAttribute(g, s, attributeType) <==>
      exists d :: d in DirectSuperTypes(g, s) && d in g && HasAttribute(g, d, attributeType)
  {
  }
}
