/** Reading the closed attribute: the case types a type declares one level
    down, flattened from the arguments of every closed attribute it carries,
    and the valid ones among them. */
module CaseTypes {
  import opened TypeGraph

  /** The Type constants of a list of arguments, argument by argument. */
  function ArgumentTypes(args: seq<TypedConstant>): seq<TypeId> {
    if args == [] then [] else TypeConstants(args[0]) + ArgumentTypes(args[1..])
  }

  /** The argument types of every attribute of class `closed`, attribute by attribute. */
  function AttributeCaseTypes(attrs: seq<Attribute>, closed: TypeId): seq<TypeId> {
    if attrs == [] then []
    else (if attrs[0].cls == closed then ArgumentTypes(attrs[0].args) else [])
         + AttributeCaseTypes(attrs[1..], closed)
  }

  /** GetCaseTypes: the case types of `t`, one level down. */
  function GetCaseTypes(g: Graph, t: TypeId, closed: TypeId): seq<TypeId>
    requires t in g
  {
    AttributeCaseTypes(g[t].attributes, closed)
  }

  lemma {:induction false} ArgumentTypesAppend(a: seq<TypedConstant>, b: seq<TypedConstant>)
    ensures ArgumentTypes(a + b) == ArgumentTypes(a) + ArgumentTypes(b)
    decreases |a|
  {
    if a == [] {
      assert a + b == b;
    } else {
      assert (a + b)[0] == a[0] && (a + b)[1..] == a[1..] + b;
      ArgumentTypesAppend(a[1..], b);
      var h, x, y := TypeConstants(a[0]), ArgumentTypes(a[1..]), ArgumentTypes(b);
      assert ArgumentTypes(a + b) == h + (x + y);
      assert h + (x + y) == (h + x) + y;
    }
  }

  lemma {:induction false} AttributeCaseTypesAppend(a: seq<Attribute>, b: seq<Attribute>, closed: TypeId)
    ensures AttributeCaseTypes(a + b, closed) == AttributeCaseTypes(a, closed) + AttributeCaseTypes(b, closed)
    decreases |a|
  {
    if a == [] {
      assert a + b == b;
    } else {
      assert (a + b)[0] == a[0] && (a + b)[1..] == a[1..] + b;
      AttributeCaseTypesAppend(a[1..], b, closed);
      var h := if a[0].cls == closed then ArgumentTypes(a[0].args) else [];
      var x, y := AttributeCaseTypes(a[1..], closed), AttributeCaseTypes(b, closed);
      assert AttributeCaseTypes(a + b, closed) == h + (x + y);
      assert h + (x + y) == (h + x) + y;
    }
  }

  /** The case types of attributes declared one after another are those of the
      first, followed by those of the second; arguments likewise. */
  lemma CaseTypesConcatenate(g: Graph, t: TypeId, closed: TypeId, k: nat)
    requires t in g && k <= |g[t].attributes|
    ensures GetCaseTypes(g, t, closed) ==
      AttributeCaseTypes(g[t].attributes[..k], closed) + AttributeCaseTypes(g[t].attributes[k..], closed)
  {
    var attrs := g[t].attributes;
    assert attrs == attrs[..k] + attrs[k..];
    AttributeCaseTypesAppend(attrs[..k], attrs[k..], closed);
  }

  lemma {:induction false} ArgumentTypesMembers(args: seq<TypedConstant>, x: TypeId)
    ensures x in ArgumentTypes(args) <==> exists c :: c in args && x in TypeConstants(c)
    decreases |args|
  {
    if args != [] {
      ArgumentTypesMembers(args[1..], x);
      assert forall c :: c in args <==> c == args[0] || c in args[1..];
    }
  }

  lemma {:induction false} AttributeCaseTypesMembers(attrs: seq<Attribute>, closed: TypeId, x: TypeId)
    ensures x in AttributeCaseTypes(attrs, closed) <==>
      exists a, c :: a in attrs && a.cls == closed && c in a.args && x in TypeConstants(c)
    decreases |attrs|
  {
    if attrs != [] {
      AttributeCaseTypesMembers(attrs[1..], closed, x);
      ArgumentTypesMembers(attrs[0].args, x);
      assert forall a :: a in attrs <==> a == attrs[0] || a in attrs[1..];
    }
  }

  /** A case type of `t` is exactly a Type argument, or a Type element of an
      array argument, of some closed attribute of `t`; every other constant is
      dropped. */
  lemma CaseTypesMembers(g: Graph, t: TypeId, closed: TypeId, x: TypeId)
    requires t in g
    ensures x in GetCaseTypes(g, t, closed) <==>
      exists a, c :: a in g[t].attributes && a.cls == closed && c in a.args
        && (c == TypeConst(x) || (c.ArrayConst? && TypeConst(x) in c.values))
  {
    var attrs := g[t].attributes;
    AttributeCaseTypesMembers(attrs, closed, x);
    if x in GetCaseTypes(g, t, closed) {
      var a, c :| a in attrs && a.cls == closed && c in a.args && x in TypeConstants(c);
      assert c == TypeConst(x) || (c.ArrayConst? && TypeConst(x) in c.values);
    }
    if exists a, c :: a in attrs && a.cls == closed && c in a.args
        && (c == TypeConst(x) || (c.ArrayConst? && TypeConst(x) in c.values)) {
      var a, c :| a in attrs && a.cls == closed && c in a.args
        && (c == TypeConst(x) || (c.ArrayConst? && TypeConst(x) in c.values));
      assert x in TypeConstants(c);
    }
  }

  lemma {:induction false} NoClosedAttributeNoCases(attrs: seq<Attribute>, closed: TypeId)
    requires forall a :: a in attrs ==> a.cls != closed
    ensures AttributeCaseTypes(attrs, closed) == []
    decreases |attrs|
  {
    if attrs != [] {
      NoClosedAttributeNoCases(attrs[1..], closed);
    }
  }

  /** A type without the closed attribute declares no case types. */
  lemma NoAttributeNoCases(g: Graph, t: TypeId, closed: TypeId)
    requires t in g && !HasAttribute(g, t, closed)
    ensures GetCaseTypes(g, t, closed) == []
  {
    NoClosedAttributeNoCases(g[t].attributes, closed);
  }

  /** Under a well-formed graph, every case type is a type of the graph. */
  lemma CaseTypesInGraph(g: Graph, t: TypeId, closed: TypeId)
    requires Wf(g) && t in g
    ensures forall x :: x in GetCaseTypes(g, t, closed) ==> x in g
  {
    forall x | x in GetCaseTypes(g, t, closed) ensures x in g {
      AttributeCaseTypesMembers(g[t].attributes, closed, x);
      assert InfoWf(g.Keys, g[t]);
    }
  }

  /** `a` is `b` with some elements dropped, the rest kept in order. */
  ghost predicate Subsequence<T>(a: seq<T>, b: seq<T>)
    decreases |b|
  {
    if a == [] then true
    else if b == [] then false
    else if a[0] == b[0] then Subsequence(a[1..], b[1..])
    else Subsequence(a, b[1..])
  }

  /** A case type of `t` is valid when it is not an Error type and is a direct
      subtype of `t`. */
  predicate IsValidCase(g: Graph, t: TypeId, x: TypeId)
    requires t in g && x in g
  {
    !g[x].isError && IsDirectSubtypeOf(g, x, t)
  }

  /** The valid entries of `xs`, in order, each as often as it occurs in `xs`. */
  function KeepValid(g: Graph, t: TypeId, xs: seq<TypeId>): (r: seq<TypeId>)
    requires t in g && forall x :: x in xs ==> x in g
    ensures forall x :: x in r <==> x in xs && IsValidCase(g, t, x)
    ensures forall x :: multiset(r)[x] == if x in xs && IsValidCase(g, t, x) then multiset(xs)[x] else 0
    ensures Subsequence(r, xs)
  {
    assert xs != [] ==> xs == [xs[0]] + xs[1..];
    if xs == [] then []
    else if IsValidCase(g, t, xs[0]) then [xs[0]] + KeepValid(g, t, xs[1..])
    else KeepValid(g, t, xs[1..])
  }

  /** GetValidCaseTypes: the order-preserving subsequence of the case types
      that are neither Error types nor anything but direct subtypes of `t`. */
  function GetValidCaseTypes(g: Graph, t: TypeId, closed: TypeId): (r: seq<TypeId>)
    requires Wf(g) && t in g
    ensures forall x :: x in r <==>
      x in GetCaseTypes(g, t, closed) && x in g && !g[x].isError && IsDirectSubtypeOf(g, x, t)
    ensures Subsequence(r, GetCaseTypes(g, t, closed))
  {
    CaseTypesInGraph(g, t, closed);
    KeepValid(g, t, GetCaseTypes(g, t, closed))
  }

  /** GetValidCaseTypes filters without deduplicating: a valid case type
      declared n times is kept n times, any other case type not at all. */
  lemma ValidCaseTypesCounts(g: Graph, t: TypeId, closed: TypeId, x: TypeId)
    requires Wf(g) && t in g
    ensures multiset(GetValidCaseTypes(g, t, closed))[x] ==
      (if x in GetCaseTypes(g, t, closed) && x in g && !g[x].isError && IsDirectSubtypeOf(g, x, t)
       then multiset(GetCaseTypes(g, t, closed))[x] else 0)
  {
    CaseTypesInGraph(g, t, closed);
  }
}
