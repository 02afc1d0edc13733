/** IsConcrete and IsConcreteOrLeaf (Res.Analyzers/Analyzer.cs): tests on a
    possibly null type symbol, `None` standing for null. */
module Concreteness {
  import opened TypeGraph
  import opened CaseTypes

  /** A type that can be instantiated: present, not an Error type, not abstract. */
  predicate IsConcrete(g: Graph, t: Option<TypeId>)
    requires t.Some? ==> t.value in g
  {
    t.Some? && !g[t.value].isError && !g[t.value].isAbstract
  }

  /** A concrete type, or an abstract one that declares no closed cases. */
  predicate IsConcreteOrLeaf(g: Graph, t: Option<TypeId>, closed: TypeId)
    requires t.Some? ==> t.value in g
  {
    t.Some? && !g[t.value].isError && (!g[t.value].isAbstract || !HasAttribute(g, t.value, closed))
  }

  /** Every concrete type passes the weaker test, and null passes neither. */
  lemma ConcreteIsConcreteOrLeaf(g: Graph, t: Option<TypeId>, closed: TypeId)
    requires t.Some? ==> t.value in g
    ensures IsConcrete(g, t) ==> IsConcreteOrLeaf(g, t, closed)
    ensures t == None ==> !IsConcrete(g, t) && !IsConcreteOrLeaf(g, t, closed)
  {
  }

  /** An abstract type that passes IsConcreteOrLeaf declares no case types:
      it is a leaf of the hierarchy. */
  lemma AbstractLeafDeclaresNoCases(g: Graph, t: TypeId, closed: TypeId)
    requires t in g && g[t].isAbstract && IsConcreteOrLeaf(g, Some(t), closed)
    ensures !IsConcrete(g, Some(t))
    ensures GetCaseTypes(g, t, closed) == []
  {
    NoAttributeNoCases(g, t, closed);
  }
}
