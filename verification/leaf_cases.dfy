/** GetLeafCaseTypes (Res.Analyzers/Analyzer.cs): walk the declared case
    types depth-first from a root with SelectRecursive, through the raw case
    lists (no subtype or Error check), and keep the visited types that carry no
    closed attribute themselves. */
module LeafCases {
  import opened TypeGraph
  import opened CaseTypes
  import opened Enumerables

  /** The selector GetLeafCaseTypes hands to SelectRecursive. */
  function CaseSelector(g: Graph, closed: TypeId): TypeId -> seq<TypeId> {
    t => if t in g then GetCaseTypes(g, t, closed) else []
  }

  /** The declared-case relation is well founded on `dom`: the case types a
      type of `dom` declares are in `dom` and rank below it. Types outside
      `dom`, such as a cycle no root reaches, are unconstrained. */
  ghost predicate DeclarationsRanked(g: Graph, closed: TypeId, rank: TypeId -> nat, dom: iset<TypeId>) {
    forall x, c :: x in dom && x in g && c in GetCaseTypes(g, x, closed) ==> c in dom && rank(c) < rank(x)
  }

  lemma SelectorRanked(g: Graph, closed: TypeId, rank: TypeId -> nat, dom: iset<TypeId>)
    requires DeclarationsRanked(g, closed, rank, dom)
    ensures Ranked(CaseSelector(g, closed), rank, dom)
  {
    var sel := CaseSelector(g, closed);
    forall x, c | x in dom && c in sel(x) ensures c in dom && rank(c) < rank(x) {
      assert x in g && sel(x) == GetCaseTypes(g, x, closed);
      RankedStep(g, closed, rank, dom, x, c);
    }
  }

  /** The type carries the closed attribute. */
  predicate IsClosed(g: Graph, t: TypeId, closed: TypeId) {
    t in g && HasAttribute(g, t, closed)
  }

  /** The entries of `xs` that carry no closed attribute, in order, repeats kept. */
  function Unclosed(g: Graph, xs: seq<TypeId>, closed: TypeId): (r: seq<TypeId>)
    ensures forall x :: x in r <==> x in xs && !IsClosed(g, x, closed)
    ensures forall x :: multiset(r)[x] == if !IsClosed(g, x, closed) then multiset(xs)[x] else 0
    ensures Subsequence(r, xs)
    ensures |r| <= |xs|
  {
    assert xs != [] ==> xs == [xs[0]] + xs[1..];
    if xs == [] then []
    else if IsClosed(g, xs[0], closed) then Unclosed(g, xs[1..], closed)
    else [xs[0]] + Unclosed(g, xs[1..], closed)
  }

  /** The leaves GetLeafCaseTypes yields for `t`. */
  ghost function LeafWalk(g: Graph, t: TypeId, closed: TypeId, rank: TypeId -> nat, dom: iset<TypeId>): seq<TypeId>
    requires DeclarationsRanked(g, closed, rank, dom) && t in dom
  {
    SelectorRanked(g, closed, rank, dom);
    Unclosed(g, Preorder([t], CaseSelector(g, closed), rank, dom), closed)
  }

  /** GetLeafCaseTypes: the unclosed types met walking down from `t`, in
      walk order, a type reached along two paths listed twice. A type without
      the closed attribute is its own only leaf. */
  method GetLeafCaseTypes(g: Graph, t: TypeId, closed: TypeId, ghost rank: TypeId -> nat, ghost dom: iset<TypeId>)
    returns (leaves: seq<TypeId>)
    requires t in g && t in dom && DeclarationsRanked(g, closed, rank, dom)
    ensures leaves == LeafWalk(g, t, closed, rank, dom)
    ensures forall x :: x in leaves ==> !IsClosed(g, x, closed)
    ensures !HasAttribute(g, t, closed) ==> leaves == [t]
  {
    SelectorRanked(g, closed, rank, dom);
    var walk := SelectRecursive([t], CaseSelector(g, closed), rank, dom);
    leaves := Unclosed(g, walk, closed);
    if !HasAttribute(g, t, closed) {
      NoAttributeNoCases(g, t, closed);
      OpenRootWalk(g, t, closed, rank, dom);
    }
  }

  lemma OpenRootWalk(g: Graph, t: TypeId, closed: TypeId, rank: TypeId -> nat, dom: iset<TypeId>)
    requires t in g && t in dom && DeclarationsRanked(g, closed, rank, dom)
    requires GetCaseTypes(g, t, closed) == []
    ensures Ranked(CaseSelector(g, closed), rank, dom) && Preorder([t], CaseSelector(g, closed), rank, dom) == [t]
  {
    SelectorRanked(g, closed, rank, dom);
    var sel := CaseSelector(g, closed);
    assert sel(t) == [];
    assert Reverse<TypeId>([]) == [];
    assert Expand(t, sel, rank, dom) == [t] + Forest([], sel, rank, dom, rank(t));
    assert Reverse([t]) == [t];
    var b := Bound([t], rank);
    assert Forest([t], sel, rank, dom, b) == Expand(t, sel, rank, dom) + Forest([], sel, rank, dom, b);
  }

  /** A type is visited walking down from `t` exactly when it is `t` or is
      visited walking down from one of the case types `t` declares. */
  lemma WalkMembers(g: Graph, t: TypeId, closed: TypeId, rank: TypeId -> nat, dom: iset<TypeId>, y: TypeId)
    requires t in g && t in dom && DeclarationsRanked(g, closed, rank, dom)
    ensures Ranked(CaseSelector(g, closed), rank, dom)
    ensures forall c :: c in GetCaseTypes(g, t, closed) ==> c in dom
    ensures y in Preorder([t], CaseSelector(g, closed), rank, dom) <==>
      y == t || exists c :: c in GetCaseTypes(g, t, closed) && y in Expand(c, CaseSelector(g, closed), rank, dom)
  {
    SelectorRanked(g, closed, rank, dom);
    var sel := CaseSelector(g, closed);
    assert sel(t) == GetCaseTypes(g, t, closed);
    assert Reverse([t]) == [t];
    var b := Bound([t], rank);
    var w := Expand(t, sel, rank, dom);
    assert Forest([t], sel, rank, dom, b) == w + Forest([], sel, rank, dom, b);
    assert Preorder([t], sel, rank, dom) == w;
    ExpandMembers(t, sel, rank, dom, y);
  }

  /** Each type of `p` declares the next one as a case. */
  ghost predicate DeclaredPath(g: Graph, closed: TypeId, p: seq<TypeId>) {
    forall i :: 0 <= i < |p| - 1 ==> p[i] in g && p[i + 1] in GetCaseTypes(g, p[i], closed)
  }

  lemma RankedStep(g: Graph, closed: TypeId, rank: TypeId -> nat, dom: iset<TypeId>, x: TypeId, c: TypeId)
    requires DeclarationsRanked(g, closed, rank, dom)
    requires x in dom && x in g && c in GetCaseTypes(g, x, closed)
    ensures c in dom && rank(c) < rank(x)
  {
  }

  lemma {:induction false} PathDescends(g: Graph, closed: TypeId, rank: TypeId -> nat, dom: iset<TypeId>, p: seq<TypeId>, k: nat)
    requires DeclarationsRanked(g, closed, rank, dom) && p != [] && p[0] in dom
    requires DeclaredPath(g, closed, p) && k < |p|
    ensures p[k] in dom && rank(p[k]) + k <= rank(p[0])
    decreases k
  {
    if k > 0 {
      PathDescends(g, closed, rank, dom, p, k - 1);
      assert p[k - 1] in g && p[k] in GetCaseTypes(g, p[k - 1], closed);
      RankedStep(g, closed, rank, dom, p[k - 1], p[k]);
    }
  }

  /** A declaration cycle through a type the walk reaches admits no rank:
      following it, the walk would push the same types forever. */
  lemma ReachableCycleHasNoRank(g: Graph, closed: TypeId, rank: TypeId -> nat, dom: iset<TypeId>, p: seq<TypeId>)
    requires |p| >= 2 && p[0] == p[|p| - 1] && p[0] in dom
    requires forall i :: 0 <= i < |p| - 1 ==> p[i] in g && p[i + 1] in GetCaseTypes(g, p[i], closed)
    ensures !DeclarationsRanked(g, closed, rank, dom)
  {
    if DeclarationsRanked(g, closed, rank, dom) {
      assert DeclaredPath(g, closed, p);
      PathDescends(g, closed, rank, dom, p, |p| - 1);
    }
  }

  lemma UnrelatedFacts()
    ensures GetCaseTypes(Unrelated(), 0, 9) == [1] && GetCaseTypes(Unrelated(), 1, 9) == []
    ensures HasAttribute(Unrelated(), 0, 9) && !HasAttribute(Unrelated(), 1, 9)
    ensures !IsSubtypeOf(Unrelated(), 1, 0)
  {
    var g := Unrelated();
    assert ArgumentTypes([TypeConst(1)]) == [1];
    assert g[0].attributes[0].cls == 9;
    assert BaseChain(g, 1) == [];
  }

  /** The walk goes through the raw case lists: a declared case that is no
      subtype of the root is still yielded as a leaf. Here type 0 carries the
      closed attribute (class 9) naming type 1, which is unrelated to it. */
  lemma LeafWalkKeepsNonSubtypes()
    ensures DeclarationsRanked(Unrelated(), 9, DeclRank, iset{0, 1})
    ensures LeafWalk(Unrelated(), 0, 9, DeclRank, iset{0, 1}) == [1]
    ensures !IsSubtypeOf(Unrelated(), 1, 0)
  {
    UnrelatedFacts();
    UnrelatedWalk();
    assert Unclosed(Unrelated(), [0, 1], 9) == [1];
  }

  /** The walk from type 0 of the graph Unrelated visits 0, then 1. */
  lemma UnrelatedWalk()
    ensures DeclarationsRanked(Unrelated(), 9, DeclRank, iset{0, 1})
    ensures Ranked(CaseSelector(Unrelated(), 9), DeclRank, iset{0, 1})
    ensures Preorder([0], CaseSelector(Unrelated(), 9), DeclRank, iset{0, 1}) == [0, 1]
  {
    var g, d := Unrelated(), iset{0, 1};
    UnrelatedFacts();
    assert DeclarationsRanked(g, 9, DeclRank, d);
    SelectorRanked(g, 9, DeclRank, d);
    var sel := CaseSelector(g, 9);
    OpenRootWalk(g, 1, 9, DeclRank, d);
    var e1 := Expand(1, sel, DeclRank, d);
    assert e1 == [1] by {
      assert Reverse<TypeId>([]) == [];
      assert e1 == [1] + Forest([], sel, DeclRank, d, 0);
    }
    assert Reverse(sel(0)) == [1];
    assert Forest([1], sel, DeclRank, d, 1) == e1 + Forest([], sel, DeclRank, d, 1);
    var e0 := Expand(0, sel, DeclRank, d);
    assert e0 == [0, 1];
    assert Reverse<TypeId>([0]) == [0];
    var b := Bound<TypeId>([0], DeclRank);
    assert Forest([0], sel, DeclRank, d, b) == e0 + Forest([], sel, DeclRank, d, b);
  }

  /** A cycle the root cannot reach does not stop the walk: types 1 and 2
      declare each other, and the root 0, which declares nothing, is its own
      only leaf. */
  lemma UnreachableCycleIgnored()
    ensures DeclarationsRanked(TwoCycle(), 9, DeclRank, iset{0})
    ensures LeafWalk(TwoCycle(), 0, 9, DeclRank, iset{0}) == [0]
    ensures !DeclarationsRanked(TwoCycle(), 9, DeclRank, iset{0, 1, 2})
  {
    var g := TwoCycle();
    assert g[0].attributes == [];
    assert GetCaseTypes(g, 0, 9) == [];
    assert !HasAttribute(g, 0, 9);
    assert DeclarationsRanked(g, 9, DeclRank, iset{0});
    OpenRootWalk(g, 0, 9, DeclRank, iset{0});
    assert ArgumentTypes([TypeConst(1)]) == [1] && ArgumentTypes([TypeConst(2)]) == [2];
    assert GetCaseTypes(g, 1, 9) == [2] && GetCaseTypes(g, 2, 9) == [1];
    ReachableCycleHasNoRank(g, 9, DeclRank, iset{0, 1, 2}, [1, 2, 1]);
  }

  /** Type 0 declares nothing; types 1 and 2 name each other through
      attribute class 9. */
  function TwoCycle(): Graph {
    var plain := TypeInfo(false, true, false, true, false, None, [], [], [], []);
    map[0 := plain,
        1 := plain.(attributes := [Attribute(9, [TypeConst(2)])]),
        2 := plain.(attributes := [Attribute(9, [TypeConst(1)])])]
  }

  /** Type 0 declares, through attribute class 9, type 1, which has no base
      type, no interfaces and no attributes. */
  function Unrelated(): Graph {
    var plain := TypeInfo(false, true, false, true, false, None, [], [], [], []);
    map[0 := plain.(isAbstract := true, isSealed := false, attributes := [Attribute(9, [TypeConst(1)])]),
        1 := plain]
  }

  function DeclRank(t: TypeId): nat {
    if t == 0 then 1 else 0
  }
}
