/** GetClosedTypeCases (Res.Analyzers/Analyzer.cs): the case set of a root,
    found breadth-first with a queue and a visited set. A dequeued type is
    skipped when the root is an Error type or when it is no subtype of the
    root; otherwise it joins the set and its valid case types not yet in the
    set are enqueued. */
module ClosedCases {
  import opened TypeGraph
  import opened CaseTypes

  /** `s` is closed for `root`: it holds the root (unless the root is an Error
      type) and every valid case type, subtype of the root, of each member. */
  ghost predicate ClosedFor(g: Graph, root: TypeId, closed: TypeId, s: set<TypeId>)
    requires Wf(g) && root in g
  {
    && (!g[root].isError ==> root in s)
    && forall x, y :: x in s && x in g && y in GetValidCaseTypes(g, x, closed) && IsSubtypeOf(g, y, root) ==> y in s
  }

  /** The entries of `xs` not in `types`, in order. */
  function NotIn(xs: seq<TypeId>, types: set<TypeId>): (r: seq<TypeId>)
    ensures forall x :: x in r <==> x in xs && x !in types
  {
    if xs == [] then []
    else NotIn(xs[..|xs| - 1], types) + (if xs[|xs| - 1] in types then [] else [xs[|xs| - 1]])
  }

  /** What is left to do for one queue entry: dequeue it, and for an entry
      already in `types` also dequeue the valid case types it would enqueue. */
  function Weight(g: Graph, closed: TypeId, types: set<TypeId>, e: TypeId): nat
    requires Wf(g)
  {
    if e in g && e in types then 1 + |NotIn(GetValidCaseTypes(g, e, closed), types)| else 1
  }

  function QueueWeight(g: Graph, closed: TypeId, types: set<TypeId>, q: seq<TypeId>): nat
    requires Wf(g)
  {
    if q == [] then 0 else Weight(g, closed, types, q[0]) + QueueWeight(g, closed, types, q[1..])
  }

  lemma {:induction false} QueueWeightAppend(g: Graph, closed: TypeId, types: set<TypeId>, a: seq<TypeId>, b: seq<TypeId>)
    requires Wf(g)
    ensures QueueWeight(g, closed, types, a + b) == QueueWeight(g, closed, types, a) + QueueWeight(g, closed, types, b)
    decreases |a|
  {
    if a == [] {
      assert a + b == b;
    } else {
      assert (a + b)[0] == a[0] && (a + b)[1..] == a[1..] + b;
      QueueWeightAppend(g, closed, types, a[1..], b);
    }
  }

  lemma {:induction false} QueueWeightFresh(g: Graph, closed: TypeId, types: set<TypeId>, q: seq<TypeId>)
    requires Wf(g) && forall x :: x in q ==> x !in types
    ensures QueueWeight(g, closed, types, q) == |q|
    decreases |q|
  {
    if q != [] {
      QueueWeightFresh(g, closed, types, q[1..]);
    }
  }

  /** Every queued entry is a type of the graph, and the root or no Error type. */
  ghost predicate Queued(g: Graph, root: TypeId, queue: seq<TypeId>) {
    forall x :: x in queue ==> x in g && (x == root || !g[x].isError)
  }

  /** Every member found so far is a valid member. */
  ghost predicate Found(g: Graph, root: TypeId, types: set<TypeId>) {
    forall x :: x in types ==> x in g && IsSubtypeOf(g, x, root) && !g[x].isError
  }

  /** Every valid case of a member that is a subtype of the root is found or
      still queued. */
  ghost predicate Pending(g: Graph, root: TypeId, closed: TypeId, types: set<TypeId>, queue: seq<TypeId>)
    requires Wf(g) && root in g
  {
    forall x, y :: x in types && x in g && y in GetValidCaseTypes(g, x, closed) && IsSubtypeOf(g, y, root) ==>
      y in types || y in queue
  }

  /** Everything found, or queued and a subtype of the root, lies in every set
      closed for the root. */
  ghost predicate Least(g: Graph, root: TypeId, closed: TypeId, types: set<TypeId>, queue: seq<TypeId>)
    requires Wf(g) && root in g
  {
    forall s :: ClosedFor(g, root, closed, s) ==>
      types <= s && (!g[root].isError ==> forall q :: q in queue && q in g && IsSubtypeOf(g, q, root) ==> q in s)
  }

  /** The loop invariant of GetClosedTypeCases. */
  ghost predicate Inv(g: Graph, root: TypeId, closed: TypeId, types: set<TypeId>, queue: seq<TypeId>)
    requires Wf(g) && root in g
  {
    && Queued(g, root, queue)
    && Found(g, root, types)
    && (g[root].isError ==> types == {})
    && (!g[root].isError ==> root in types || root in queue)
    && Pending(g, root, closed, types, queue)
    && Least(g, root, closed, types, queue)
  }

  lemma InitStep(g: Graph, root: TypeId, closed: TypeId)
    requires Wf(g) && root in g
    ensures Inv(g, root, closed, {}, [root])
  {
  }

  /** Dropping a skipped entry keeps the invariant. */
  lemma SkipStep(g: Graph, root: TypeId, closed: TypeId, types: set<TypeId>, queue: seq<TypeId>)
    requires Wf(g) && root in g && Inv(g, root, closed, types, queue) && queue != []
    requires g[root].isError || !IsSubtypeOf(g, queue[0], root)
    ensures Inv(g, root, closed, types, queue[1..])
  {
    var caseType, rest := queue[0], queue[1..];
    assert queue == [caseType] + rest;
    assert forall x :: x in queue <==> x == caseType || x in rest;
    if !g[root].isError {
      assert root != caseType;
    }
  }

  /** Adding a subtype entry to the set and queueing its valid cases not yet
      in the set keeps the invariant. */
  lemma AddStep(g: Graph, root: TypeId, closed: TypeId, types: set<TypeId>, queue: seq<TypeId>)
    requires Wf(g) && root in g && Inv(g, root, closed, types, queue) && queue != [] && queue[0] in g
    requires !g[root].isError && IsSubtypeOf(g, queue[0], root)
    ensures Inv(g, root, closed, types + {queue[0]},
                queue[1..] + NotIn(GetValidCaseTypes(g, queue[0], closed), types + {queue[0]}))
  {
    var caseType, rest := queue[0], queue[1..];
    var types' := types + {caseType};
    var cases := GetValidCaseTypes(g, caseType, closed);
    var queue' := rest + NotIn(cases, types');
    assert queue == [caseType] + rest;
    assert forall x :: x in queue <==> x == caseType || x in rest;
    assert forall x :: x in queue' <==> x in rest || (x in cases && x !in types');
    AddPending(g, root, closed, types, queue);
    AddLeast(g, root, closed, types, queue);
  }

  lemma AddPending(g: Graph, root: TypeId, closed: TypeId, types: set<TypeId>, queue: seq<TypeId>)
    requires Wf(g) && root in g && Pending(g, root, closed, types, queue) && queue != [] && queue[0] in g
    ensures Pending(g, root, closed, types + {queue[0]},
                    queue[1..] + NotIn(GetValidCaseTypes(g, queue[0], closed), types + {queue[0]}))
  {
    var caseType, rest := queue[0], queue[1..];
    var types' := types + {caseType};
    var queue' := rest + NotIn(GetValidCaseTypes(g, caseType, closed), types');
    assert queue == [caseType] + rest;
    assert forall x :: x in queue ==> x == caseType || x in rest;
    assert forall x :: x in rest ==> x in queue';
  }

  lemma AddLeast(g: Graph, root: TypeId, closed: TypeId, types: set<TypeId>, queue: seq<TypeId>)
    requires Wf(g) && root in g && Least(g, root, closed, types, queue) && queue != [] && queue[0] in g
    requires !g[root].isError && IsSubtypeOf(g, queue[0], root)
    ensures Least(g, root, closed, types + {queue[0]},
                  queue[1..] + NotIn(GetValidCaseTypes(g, queue[0], closed), types + {queue[0]}))
  {
    var caseType, rest := queue[0], queue[1..];
    var types' := types + {caseType};
    var cases := GetValidCaseTypes(g, caseType, closed);
    var queue' := rest + NotIn(cases, types');
    assert queue == [caseType] + rest;
    assert forall x :: x in rest ==> x in queue;
    assert forall x :: x in queue' <==> x in rest || (x in cases && x !in types');
    forall s | ClosedFor(g, root, closed, s)
      ensures types' <= s && forall q :: q in queue' && q in g && IsSubtypeOf(g, q, root) ==> q in s
    {
      assert caseType in s;
    }
  }

  /** With the queue empty, the invariant gives the postcondition. */
  lemma FinalStep(g: Graph, root: TypeId, closed: TypeId, types: set<TypeId>)
    requires Wf(g) && root in g && Inv(g, root, closed, types, [])
    ensures g[root].isError ==> types == {}
    ensures !g[root].isError ==> root in types
    ensures forall x :: x in types ==> x in g && IsSubtypeOf(g, x, root) && !g[x].isError
    ensures ClosedFor(g, root, closed, types)
    ensures forall s :: ClosedFor(g, root, closed, s) ==> types <= s
  {
    FinalClosed(g, root, closed, types);
  }

  lemma FinalClosed(g: Graph, root: TypeId, closed: TypeId, types: set<TypeId>)
    requires Wf(g) && root in g && Pending(g, root, closed, types, [])
    requires !g[root].isError ==> root in types
    ensures ClosedFor(g, root, closed, types)
  {
    forall x, y | x in types && x in g && y in GetValidCaseTypes(g, x, closed) && IsSubtypeOf(g, y, root)
      ensures y in types
    {
      assert y !in [];
    }
  }

  /** Dequeuing a skipped entry lowers the queue weight. */
  lemma DropStep(g: Graph, closed: TypeId, types: set<TypeId>, queue: seq<TypeId>)
    requires Wf(g) && queue != []
    ensures QueueWeight(g, closed, types, queue[1..]) < QueueWeight(g, closed, types, queue)
  {
  }

  /** Dequeuing an entry already in the set lowers the queue weight. */
  lemma RevisitStep(g: Graph, closed: TypeId, types: set<TypeId>, caseType: TypeId, rest: seq<TypeId>)
    requires Wf(g) && caseType in g && caseType in types
    ensures QueueWeight(g, closed, types, rest + NotIn(GetValidCaseTypes(g, caseType, closed), types))
          < QueueWeight(g, closed, types, [caseType] + rest)
  {
    var added := NotIn(GetValidCaseTypes(g, caseType, closed), types);
    QueueWeightAppend(g, closed, types, [caseType], rest);
    QueueWeightAppend(g, closed, types, rest, added);
    QueueWeightFresh(g, closed, types, added);
  }

  /** Dequeuing an entry and adding it to the set lowers the measure of the
      walk: the set grows, or the entry was in it already and the queue weight
      drops. */
  lemma AddMeasure(g: Graph, closed: TypeId, types: set<TypeId>, queue: seq<TypeId>)
    requires Wf(g) && queue != [] && queue[0] in g
    ensures var types' := types + {queue[0]};
      var queue' := queue[1..] + NotIn(GetValidCaseTypes(g, queue[0], closed), types');
      |g.Keys - types'| < |g.Keys - types| ||
      (|g.Keys - types'| == |g.Keys - types| &&
       QueueWeight(g, closed, types', queue') < QueueWeight(g, closed, types, queue))
  {
    var caseType, rest := queue[0], queue[1..];
    assert queue == [caseType] + rest;
    if caseType !in types {
      var before, after := g.Keys - types, g.Keys - (types + {caseType});
      assert before == after + {caseType} && caseType !in after;
    } else {
      assert types + {caseType} == types;
      RevisitStep(g, closed, types, caseType, rest);
    }
  }

  /** The inner loop of GetClosedTypeCases: enqueue, in order, each case type
      not yet in `types` (so that no type is processed again once found). */
  method EnqueueUnvisited(queue: seq<TypeId>, caseTypes: seq<TypeId>, types: set<TypeId>) returns (q: seq<TypeId>)
    ensures q == queue + NotIn(caseTypes, types)
  {
    q := queue;
    for i := 0 to |caseTypes|
      invariant q == queue + NotIn(caseTypes[..i], types)
    {
      ghost var done := NotIn(caseTypes[..i], types);
      assert caseTypes[..i + 1][..i] == caseTypes[..i];
      assert NotIn(caseTypes[..i + 1], types) == done + (if caseTypes[i] in types then [] else [caseTypes[i]]);
      if caseTypes[i] !in types {
        assert (queue + done) + [caseTypes[i]] == queue + (done + [caseTypes[i]]);
        q := q + [caseTypes[i]];
      } else {
        assert done + [] == done;
      }
    }
    assert caseTypes[..|caseTypes|] == caseTypes;
  }

  /** GetClosedTypeCases: the least set closed for `root`. It is empty for an
      Error root and holds the root otherwise; every member is a type of the
      graph, a subtype of the root and no Error type. The walk ends on any
      graph, cyclic declarations included. */
  method GetClosedTypeCases(g: Graph, root: TypeId, closed: TypeId) returns (types: set<TypeId>)
    requires Wf(g) && root in g
    ensures g[root].isError ==> types == {}
    ensures !g[root].isError ==> root in types
    ensures forall x :: x in types ==> x in g && IsSubtypeOf(g, x, root) && !g[x].isError
    ensures ClosedFor(g, root, closed, types)
    ensures forall s :: ClosedFor(g, root, closed, s) ==> types <= s
  {
    types := {};
    var queue := [root];
    InitStep(g, root, closed);
    while |queue| > 0
      invariant Inv(g, root, closed, types, queue)
      decreases |g.Keys - types|, QueueWeight(g, closed, types, queue)
    {
      ghost var before := queue;
      var caseType := queue[0];
      assert caseType in g;
      queue := queue[1..];

      // an Error root, or an entry outside the root's hierarchy, adds nothing
      if g[root].isError || !IsSubtypeOf(g, caseType, root) {
        SkipStep(g, root, closed, types, before);
        DropStep(g, closed, types, before);
        continue;
      }

      AddStep(g, root, closed, types, before);
      AddMeasure(g, closed, types, before);
      types := types + {caseType};
      var caseTypes := GetValidCaseTypes(g, caseType, closed);
      queue := EnqueueUnvisited(queue, caseTypes, types);
    }
    FinalStep(g, root, closed, types);
  }
}
