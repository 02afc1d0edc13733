/** EnumerableExtensions.SelectRecursive (Res.Analyzers/Analyzer.cs): a
    depth-first walk with an explicit stack. The roots are pushed in order;
    each popped item is yielded and then its children are pushed in order.
    Nothing is deduplicated, so the walk only ends when the child relation is
    well founded on the items reachable from the roots; a set of items closed
    under children, holding the roots, on which every child lowers a rank,
    stands for that here. */
module Enumerables {

  function Reverse<T>(s: seq<T>): (r: seq<T>)
    ensures |r| == |s|
    ensures forall i :: 0 <= i < |s| ==> r[i] == s[|s| - 1 - i]
  {
    if s == [] then [] else Reverse(s[1..]) + [s[0]]
  }

  lemma ReverseAppend<T>(a: seq<T>, b: seq<T>)
    ensures Reverse(a + b) == Reverse(b) + Reverse(a)
  {
    var l, r := Reverse(a + b), Reverse(b) + Reverse(a);
    assert |l| == |r|;
    forall i | 0 <= i < |l| ensures l[i] == r[i] {
      if i < |b| {
        assert l[i] == (a + b)[|a| + |b| - 1 - i] == b[|b| - 1 - i];
      } else {
        assert l[i] == (a + b)[|a| + |b| - 1 - i] == a[|a| - 1 - (i - |b|)];
      }
    }
  }

  /** Concatenation is associative; stated apart so that proofs about walks
      need not rediscover it among the facts about Forest. */
  lemma ConcatAssoc<T>(a: seq<T>, b: seq<T>, c: seq<T>)
    ensures (a + b) + c == a + (b + c)
  {
  }

  /** The children of an item of `dom` are in `dom` and rank strictly below
      their parent; items outside `dom` are never reached. */
  ghost predicate Ranked<T(!new)>(children: T -> seq<T>, rank: T -> nat, dom: iset<T>) {
    forall x, c :: x in dom && c in children(x) ==> c in dom && rank(c) < rank(x)
  }

  /** The items yielded for `x` once it is popped: `x` itself, then the walk of
      its children, the last pushed first. */
  ghost function Expand<T(!new)>(x: T, children: T -> seq<T>, rank: T -> nat, dom: iset<T>): seq<T>
    requires Ranked(children, rank, dom) && x in dom
    decreases rank(x) + 1, 0
  {
    [x] + Forest(Reverse(children(x)), children, rank, dom, rank(x))
  }

  /** The walks of `xs`, one after another, `xs` in pop order. */
  ghost function Forest<T(!new)>(xs: seq<T>, children: T -> seq<T>, rank: T -> nat, dom: iset<T>, bound: nat): seq<T>
    requires Ranked(children, rank, dom)
    requires forall y :: y in xs ==> y in dom && rank(y) < bound
    decreases bound, |xs|
  {
    if xs == [] then []
    else Expand(xs[0], children, rank, dom) + Forest(xs[1..], children, rank, dom, bound)
  }

  /** A bound above the rank of every element of `xs`. */
  ghost function Bound<T>(xs: seq<T>, rank: T -> nat): (b: nat)
    ensures forall y :: y in xs ==> rank(y) < b
  {
    if xs == [] then 0
    else var b := Bound(xs[1..], rank); if rank(xs[0]) < b then b else rank(xs[0]) + 1
  }

  /** What SelectRecursive yields for `roots`: a pre-order walk of each root,
      the last root first. */
  ghost function Preorder<T(!new)>(roots: seq<T>, children: T -> seq<T>, rank: T -> nat, dom: iset<T>): seq<T>
    requires Ranked(children, rank, dom) && forall y :: y in roots ==> y in dom
  {
    ReverseMembers(roots);
    Forest(Reverse(roots), children, rank, dom, Bound(roots, rank))
  }

  lemma {:induction false} ForestBound<T(!new)>(xs: seq<T>, children: T -> seq<T>, rank: T -> nat, dom: iset<T>, b1: nat, b2: nat)
    requires Ranked(children, rank, dom)
    requires forall y :: y in xs ==> y in dom && rank(y) < b1 && rank(y) < b2
    ensures Forest(xs, children, rank, dom, b1) == Forest(xs, children, rank, dom, b2)
    decreases |xs|
  {
    if xs != [] {
      ForestBound(xs[1..], children, rank, dom, b1, b2);
    }
  }

  lemma {:induction false} ForestAppend<T(!new)>(a: seq<T>, b: seq<T>, children: T -> seq<T>, rank: T -> nat, dom: iset<T>, bound: nat)
    requires Ranked(children, rank, dom)
    requires forall y :: y in a + b ==> y in dom && rank(y) < bound
    ensures Forest(a + b, children, rank, dom, bound) ==
      Forest(a, children, rank, dom, bound) + Forest(b, children, rank, dom, bound)
    decreases |a|
  {
    if a == [] {
      assert a + b == b;
    } else {
      assert (a + b)[0] == a[0] && (a + b)[1..] == a[1..] + b;
      ForestAppend(a[1..], b, children, rank, dom, bound);
    }
  }

  /** Pushes `xs` in order on a stack whose top is its last element. */
  method PushAll<T>(stack: seq<T>, xs: seq<T>) returns (r: seq<T>)
    ensures r == stack + xs
  {
    r := stack;
    for i := 0 to |xs|
      invariant r == stack + xs[..i]
    {
      assert xs[..i + 1] == xs[..i] + [xs[i]];
      r := r + [xs[i]];
    }
    assert xs[..|xs|] == xs;
  }

  /** SelectRecursive, with the stack as a sequence whose top is its last element. */
  method SelectRecursive<T(!new)>(roots: seq<T>, selector: T -> seq<T>, ghost rank: T -> nat, ghost dom: iset<T>)
    returns (items: seq<T>)
    requires Ranked(selector, rank, dom) && forall y :: y in roots ==> y in dom
    ensures items == Preorder(roots, selector, rank, dom)
  {
    var stack := PushAll([], roots);
    assert stack == roots;
    ghost var bound := Bound(roots, rank);
    items := [];
    ReverseMembers(roots);
    while |stack| > 0
      invariant forall y :: y in stack ==> y in dom && rank(y) < bound
      invariant items + Forest(Reverse(stack), selector, rank, dom, bound) == Preorder(roots, selector, rank, dom)
      decreases |Forest(Reverse(stack), selector, rank, dom, bound)|
    {
      var item := stack[|stack| - 1];
      var rest := stack[..|stack| - 1];
      assert stack == rest + [item];
      PopStep(rest, item, selector, rank, dom, bound);
      ConcatAssoc(items, [item], Forest(Reverse(rest + selector(item)), selector, rank, dom, bound));
      stack := rest;
      items := items + [item];
      stack := PushAll(stack, selector(item));
    }
  }

  /** Reversing keeps the elements. */
  lemma ReverseMembers<T>(s: seq<T>)
    ensures forall y :: y in Reverse(s) <==> y in s
  {
    var r := Reverse(s);
    forall y ensures y in r <==> y in s {
      if y in r {
        var i :| 0 <= i < |r| && r[i] == y;
        assert s[|s| - 1 - i] == y;
      }
      if y in s {
        var i :| 0 <= i < |s| && s[i] == y;
        assert r[|s| - 1 - i] == y;
      }
    }
  }

  /** Popping `item` off `rest + [item]` yields `item`, and leaves the rest of
      the walk to the stack with the children of `item` pushed on `rest`. */
  lemma PopStep<T(!new)>(rest: seq<T>, item: T, children: T -> seq<T>, rank: T -> nat, dom: iset<T>, bound: nat)
    requires Ranked(children, rank, dom)
    requires forall y :: y in rest + [item] ==> y in dom && rank(y) < bound
    ensures forall y :: y in rest + children(item) ==> y in dom && rank(y) < bound
    ensures Forest(Reverse(rest + [item]), children, rank, dom, bound) ==
      [item] + Forest(Reverse(rest + children(item)), children, rank, dom, bound)
  {
    var cs := children(item);
    var rc, rr := Reverse(cs), Reverse(rest);
    assert item in rest + [item];
    assert forall y :: y in rest ==> y in rest + [item];
    ReverseMembers(cs);
    ReverseMembers(rest);
    assert forall y :: y in rc ==> y in dom && rank(y) < rank(item) < bound;
    // the stack before the pop, in pop order
    ReverseAppend(rest, [item]);
    assert Reverse([item]) == [item];
    assert Reverse(rest + [item]) == [item] + rr;
    assert ([item] + rr)[0] == item && ([item] + rr)[1..] == rr;
    var fr := Forest(rr, children, rank, dom, bound);
    assert Forest([item] + rr, children, rank, dom, bound) == Expand(item, children, rank, dom) + fr;
    // the stack after the pushes, in pop order
    ReverseAppend(rest, cs);
    ForestAppend(rc, rr, children, rank, dom, bound);
    ForestBound(rc, children, rank, dom, rank(item), bound);
    var fc := Forest(rc, children, rank, dom, bound);
    assert Forest(Reverse(rest + cs), children, rank, dom, bound) == fc + fr;
    assert Expand(item, children, rank, dom) == [item] + fc;
    ConcatAssoc([item], fc, fr);
  }

  /** The walk of `roots` begins with the last root. */
  lemma PreorderStartsWithLastRoot<T(!new)>(roots: seq<T>, children: T -> seq<T>, rank: T -> nat, dom: iset<T>)
    requires Ranked(children, rank, dom) && roots != [] && forall y :: y in roots ==> y in dom
    ensures Preorder(roots, children, rank, dom) != []
    ensures Preorder(roots, children, rank, dom)[0] == roots[|roots| - 1]
  {
    var rs := Reverse(roots);
    ReverseMembers(roots);
    assert rs[0] == roots[|roots| - 1];
    assert Preorder(roots, children, rank, dom) ==
      Expand(rs[0], children, rank, dom) + Forest(rs[1..], children, rank, dom, Bound(roots, rank));
  }

  /** Each item is yielded before its children: the walk of `x` is `x`,
      followed by the walks of its children, the last child first. */
  lemma {:induction false} ExpandChildren<T(!new)>(x: T, children: T -> seq<T>, rank: T -> nat, dom: iset<T>)
    requires Ranked(children, rank, dom) && x in dom
    ensures var cs := children(x);
      cs != [] ==>
        Expand(x, children, rank, dom) ==
          [x] + Expand(cs[|cs| - 1], children, rank, dom)
            + Forest(Reverse(cs[..|cs| - 1]), children, rank, dom, rank(x))
  {
    var cs := children(x);
    if cs != [] {
      var last := cs[|cs| - 1];
      assert cs == cs[..|cs| - 1] + [last];
      ReverseAppend(cs[..|cs| - 1], [last]);
      assert Reverse(cs) == [last] + Reverse(cs[..|cs| - 1]);
      assert Reverse(cs)[1..] == Reverse(cs[..|cs| - 1]);
    }
  }

  /** Members of a walk: an item is yielded for `x` exactly when it is `x` or
      is yielded for one of its children. */
  lemma {:induction false} ExpandMembers<T(!new)>(x: T, children: T -> seq<T>, rank: T -> nat, dom: iset<T>, y: T)
    requires Ranked(children, rank, dom) && x in dom
    ensures y in Expand(x, children, rank, dom) <==>
      y == x || exists c :: c in children(x) && y in Expand(c, children, rank, dom)
  {
    var rs := Reverse(children(x));
    ReverseMembers(children(x));
    ForestMembers(rs, children, rank, dom, rank(x), y);
  }

  lemma {:induction false} ForestMembers<T(!new)>(xs: seq<T>, children: T -> seq<T>, rank: T -> nat, dom: iset<T>, bound: nat, y: T)
    requires Ranked(children, rank, dom)
    requires forall z :: z in xs ==> z in dom && rank(z) < bound
    ensures y in Forest(xs, children, rank, dom, bound) <==> exists c :: c in xs && y in Expand(c, children, rank, dom)
    decreases |xs|
  {
    if xs != [] {
      ForestMembers(xs[1..], children, rank, dom, bound, y);
      assert forall c :: c in xs <==> c == xs[0] || c in xs[1..];
    }
  }

  /** The walks of `xs`, counted together, whatever their order. */
  ghost function WalkCounts<T(!new)>(xs: seq<T>, children: T -> seq<T>, rank: T -> nat, dom: iset<T>): multiset<T>
    requires Ranked(children, rank, dom) && forall y :: y in xs ==> y in dom
  {
    if xs == [] then multiset{}
    else multiset(Expand(xs[0], children, rank, dom)) + WalkCounts(xs[1..], children, rank, dom)
  }

  lemma {:induction false} ForestCounts<T(!new)>(xs: seq<T>, children: T -> seq<T>, rank: T -> nat, dom: iset<T>, bound: nat)
    requires Ranked(children, rank, dom)
    requires forall y :: y in xs ==> y in dom && rank(y) < bound
    ensures multiset(Forest(xs, children, rank, dom, bound)) == WalkCounts(xs, children, rank, dom)
    decreases |xs|
  {
    if xs != [] {
      ForestCounts(xs[1..], children, rank, dom, bound);
    }
  }

  lemma {:induction false} WalkCountsAppend<T(!new)>(a: seq<T>, b: seq<T>, children: T -> seq<T>, rank: T -> nat, dom: iset<T>)
    requires Ranked(children, rank, dom) && forall y :: y in a + b ==> y in dom
    ensures WalkCounts(a + b, children, rank, dom) == WalkCounts(a, children, rank, dom) + WalkCounts(b, children, rank, dom)
    decreases |a|
  {
    if a == [] {
      assert a + b == b;
    } else {
      assert (a + b)[0] == a[0] && (a + b)[1..] == a[1..] + b;
      WalkCountsAppend(a[1..], b, children, rank, dom);
    }
  }

  lemma {:induction false} WalkCountsReverse<T(!new)>(xs: seq<T>, children: T -> seq<T>, rank: T -> nat, dom: iset<T>)
    requires Ranked(children, rank, dom) && forall y :: y in xs ==> y in dom
    ensures forall y :: y in Reverse(xs) ==> y in dom
    ensures WalkCounts(Reverse(xs), children, rank, dom) == WalkCounts(xs, children, rank, dom)
    decreases |xs|
  {
    ReverseMembers(xs);
    if xs != [] {
      var h, t := xs[0], xs[1..];
      ReverseMembers(t);
      WalkCountsReverse(t, children, rank, dom);
      var rt := Reverse(t);
      assert Reverse(xs) == rt + [h];
      WalkCountsAppend(rt, [h], children, rank, dom);
      WalkCountsSingle(h, children, rank, dom);
    }
  }

  lemma WalkCountsSingle<T(!new)>(h: T, children: T -> seq<T>, rank: T -> nat, dom: iset<T>)
    requires Ranked(children, rank, dom) && h in dom
    ensures WalkCounts([h], children, rank, dom) == multiset(Expand(h, children, rank, dom))
  {
    assert [h][1..] == [];
  }

  /** Nothing is deduplicated: the walk of `x` yields `x` once and, beyond
      that, every item exactly as often as the walks of its children yield it
      together, so an item reached along n paths comes out n times. */
  lemma ExpandCounts<T(!new)>(x: T, children: T -> seq<T>, rank: T -> nat, dom: iset<T>)
    requires Ranked(children, rank, dom) && x in dom
    ensures forall y :: y in children(x) ==> y in dom
    ensures multiset(Expand(x, children, rank, dom)) == multiset{x} + WalkCounts(children(x), children, rank, dom)
  {
    WalkCountsReverse(children(x), children, rank, dom);
    ForestCounts(Reverse(children(x)), children, rank, dom, rank(x));
  }

  /** Every item of the walk of `x` ranks no higher than `x`. */
  lemma {:induction false} ExpandRanks<T(!new)>(x: T, children: T -> seq<T>, rank: T -> nat, dom: iset<T>, y: T)
    requires Ranked(children, rank, dom) && x in dom
    requires y in Expand(x, children, rank, dom)
    ensures rank(y) <= rank(x)
    decreases rank(x)
  {
    ExpandMembers(x, children, rank, dom, y);
    if y != x {
      var c :| c in children(x) && y in Expand(c, children, rank, dom);
      ExpandRanks(c, children, rank, dom, y);
    }
  }

  /** The walk never comes back to an item below itself: no child's walk
      yields its parent, so a relation in which an item reaches itself has
      no rank, and on it the stack never empties. */
  lemma NoReturnToAncestor<T(!new)>(x: T, c: T, children: T -> seq<T>, rank: T -> nat, dom: iset<T>)
    requires Ranked(children, rank, dom) && x in dom && c in children(x)
    ensures c in dom && x !in Expand(c, children, rank, dom)
  {
    if x in Expand(c, children, rank, dom) {
      ExpandRanks(c, children, rank, dom, x);
    }
  }

  lemma {:induction false} WalkCountsAbsent<T(!new)>(xs: seq<T>, children: T -> seq<T>, rank: T -> nat, dom: iset<T>, y: T)
    requires Ranked(children, rank, dom)
    requires forall c :: c in xs ==> c in dom && y !in Expand(c, children, rank, dom)
    ensures WalkCounts(xs, children, rank, dom)[y] == 0
    decreases |xs|
  {
    if xs != [] {
      assert y !in multiset(Expand(xs[0], children, rank, dom));
      WalkCountsAbsent(xs[1..], children, rank, dom, y);
    }
  }

  /** The walk of `x` yields `x` exactly once. */
  lemma ItemOnce<T(!new)>(x: T, children: T -> seq<T>, rank: T -> nat, dom: iset<T>)
    requires Ranked(children, rank, dom) && x in dom
    ensures multiset(Expand(x, children, rank, dom))[x] == 1
  {
    ExpandCounts(x, children, rank, dom);
    forall c | c in children(x) ensures c in dom && x !in Expand(c, children, rank, dom) {
      NoReturnToAncestor(x, c, children, rank, dom);
    }
    WalkCountsAbsent(children(x), children, rank, dom, x);
  }

  /** A diamond 3 -> {1, 2}, 1 -> {0}, 2 -> {0}: the shared child 0 is yielded
      once per path, and the children of 3 come out in reverse push order. */
  lemma DiamondYieldsTwice()
    ensures Ranked(Diamond, DiamondRank, DiamondNodes())
    ensures Preorder([3], Diamond, DiamondRank, DiamondNodes()) == [3, 2, 0, 1, 0]
  {
    var d := DiamondNodes();
    DiamondMiddle();
    assert Reverse(Diamond(3)) == [2, 1];
    var f1 := Forest([1], Diamond, DiamondRank, d, 3);
    assert f1 == Expand(1, Diamond, DiamondRank, d) + Forest([], Diamond, DiamondRank, d, 3);
    assert Forest([2, 1], Diamond, DiamondRank, d, 3) == Expand(2, Diamond, DiamondRank, d) + f1;
    assert Expand(3, Diamond, DiamondRank, d) == [3, 2, 0, 1, 0];
    assert Reverse<nat>([3]) == [3];
    assert Bound<nat>([3], DiamondRank) == 4;
    assert Forest([3], Diamond, DiamondRank, d, 4) ==
      Expand(3, Diamond, DiamondRank, d) + Forest([], Diamond, DiamondRank, d, 4);
  }

  /** The walks of the two middle nodes of the diamond each end in the shared child. */
  lemma DiamondMiddle()
    ensures Ranked(Diamond, DiamondRank, DiamondNodes())
    ensures Expand(1, Diamond, DiamondRank, DiamondNodes()) == [1, 0]
    ensures Expand(2, Diamond, DiamondRank, DiamondNodes()) == [2, 0]
  {
    var d := DiamondNodes();
    assert Ranked(Diamond, DiamondRank, d);
    var e0 := Expand(0, Diamond, DiamondRank, d);
    assert Reverse(Diamond(0)) == [];
    assert e0 == [0] + Forest<nat>([], Diamond, DiamondRank, d, 0);
    assert Reverse(Diamond(1)) == [0];
    assert Forest([0], Diamond, DiamondRank, d, 1) == e0 + Forest([], Diamond, DiamondRank, d, 1);
    assert Reverse(Diamond(2)) == [0];
    assert Forest([0], Diamond, DiamondRank, d, 2) == e0 + Forest([], Diamond, DiamondRank, d, 2);
  }

  ghost function DiamondNodes(): iset<nat> {
    iset{0, 1, 2, 3}
  }

  function DiamondRank(n: nat): nat { n }

  function Diamond(n: nat): seq<nat> {
    if n == 3 then [1, 2] else if n == 1 || n == 2 then [0] else []
  }
}
