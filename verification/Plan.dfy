/** The operation graph and its topological sort (packages/parallel/src/plan.ts). */
module Plans {
  import opened Common

  /** Operation ids are fresh UUIDs in the program; only their identity matters. */
  type Id = int

  /** What an operation resolves to; the executor never looks inside it. */
  type Value = string

  datatype Outcome = Success(value: Value) | Failure(message: string)

  /** `fn` is any function of the dependency results, in declared order. */
  datatype Op = Op(name: string, deps: seq<Id>, tag: Option<string>, fn: seq<Option<Value>> -> Outcome)

  type Ops = map<Id, Op>

  datatype CycleEdge = CycleEdge(from: Id, to: Id)

  ghost predicate Edge(ops: Ops, dep: Id, id: Id) {
    id in ops && dep in ops[id].deps
  }

  /** A sequence of operations in which each one is a dependency of the next. */
  ghost predicate IsWalk(ops: Ops, w: seq<Id>) {
    forall i :: 0 < i < |w| ==> Edge(ops, w[i - 1], w[i])
  }

  ghost predicate Cyclic(ops: Ops) {
    exists w :: |w| >= 2 && IsWalk(ops, w) && w[0] == w[|w| - 1]
  }

  ghost predicate Dangling(ops: Ops) {
    exists d, x :: Edge(ops, d, x) && d !in ops
  }

  ghost predicate DepsIn(ops: Ops, x: Id, earlier: seq<Id>) {
    x in ops && forall d :: d in ops[x].deps ==> d in earlier
  }

  ghost predicate DepsFirst(ops: Ops, order: seq<Id>) {
    forall i :: 0 <= i < |order| ==> DepsIn(ops, order[i], order[..i])
  }

  /** A permutation of all operations in which every dependency comes first. */
  ghost predicate IsTopo(ops: Ops, order: seq<Id>) {
    NoDup(order) && DepsFirst(ops, order) && forall x :: x in ops <==> x in order
  }

  /** Some dependency-first list reaches the operation. */
  ghost predicate Schedulable(ops: Ops, x: Id) {
    exists o :: DepsFirst(ops, o) && x in o
  }

  /** `x` is the first element of `s` that cannot be scheduled. */
  ghost predicate FirstUnschedulable(ops: Ops, s: seq<Id>, x: Id) {
    exists k :: 0 <= k < |s| && s[k] == x && !Schedulable(ops, x) &&
                forall l :: 0 <= l < k ==> Schedulable(ops, s[l])
  }

  /** Number of dependency occurrences that are not done. */
  ghost function Missing(deps: seq<Id>, done: set<Id>): nat {
    if deps == [] then 0
    else (if deps[0] in done then 0 else 1) + Missing(deps[1..], done)
  }

  lemma {:induction false} MissingZero(deps: seq<Id>, done: set<Id>)
    ensures Missing(deps, done) == 0 <==> forall d :: d in deps ==> d in done
  {
    if deps != [] {
      MissingZero(deps[1..], done);
      if Missing(deps, done) == 0 {
        forall d | d in deps ensures d in done {
          InSplit(deps, d);
        }
      } else if deps[0] in done {
        var d :| d in deps[1..] && d !in done;
        InSplit(deps, d);
      } else {
        var d0 := deps[0];
        assert d0 in deps && d0 !in done;
      }
    }
  }

  lemma {:induction false} MissingNone(deps: seq<Id>)
    ensures Missing(deps, {}) == |deps|
  {
    if deps != [] {
      MissingNone(deps[1..]);
    }
  }

  /** Finishing `x` removes exactly the occurrences of `x`. */
  lemma {:induction false} MissingAdd(deps: seq<Id>, done: set<Id>, x: Id)
    requires x !in done
    ensures Missing(deps, done + {x}) == Missing(deps, done) - multiset(deps)[x]
  {
    if deps != [] {
      MissingAdd(deps[1..], done, x);
      assert deps == [deps[0]] + deps[1..];
    }
  }

  function Get(m: map<Id, seq<Id>>, id: Id): seq<Id> {
    if id in m then m[id] else []
  }

  /** `dependents` lists, for each dependency occurrence of x on d, one x under d. */
  ghost predicate Adjacent(ops: Ops, dependents: map<Id, seq<Id>>) {
    && (forall d, x :: x in Get(dependents, d) ==> x in ops)
    && (forall d, x :: x in ops ==> multiset(Get(dependents, d))[x] == multiset(ops[x].deps)[d])
  }

  lemma AdjacentEdge(ops: Ops, dependents: map<Id, seq<Id>>, d: Id, x: Id)
    requires Adjacent(ops, dependents)
    ensures x in Get(dependents, d) <==> Edge(ops, d, x)
  {
    assert x in Get(dependents, d) <==> multiset(Get(dependents, d))[x] > 0;
    if x in ops {
      assert d in ops[x].deps <==> multiset(ops[x].deps)[d] > 0;
    }
  }

  /** Decrement the counter of every listed dependent; those that reach zero become ready. */
  function Release(children: seq<Id>, counts: map<Id, int>, ready: seq<Id>, blocked: set<Id>)
    : (map<Id, int>, seq<Id>)
    requires forall c :: c in children ==> c in counts
  {
    if children == [] then (counts, ready)
    else
      var c := children[0];
      var left := counts[c] - 1;
      var ready' := if left == 0 && c !in blocked then ready + [c] else ready;
      Release(children[1..], counts[c := left], ready', blocked)
  }

  lemma CountHead(children: seq<Id>, x: Id)
    requires children != []
    ensures multiset(children)[x] == multiset(children[1..])[x] + if x == children[0] then 1 else 0
  {
    assert children == [children[0]] + children[1..];
  }

  /** What the release of the tail starts from. */
  lemma ReleaseHead(children: seq<Id>, counts: map<Id, int>, ready: seq<Id>, blocked: set<Id>)
    requires children != [] && forall c :: c in children ==> c in counts
    requires forall c :: c in counts ==> counts[c] >= multiset(children)[c]
    requires NoDup(ready) && forall c :: c in ready ==> c !in children
    ensures var c, rest, left := children[0], children[1..], counts[children[0]] - 1;
            var counts', ready' := counts[c := left], if left == 0 && c !in blocked then ready + [c] else ready;
            && (forall d :: d in rest ==> d in counts')
            && (forall d :: d in counts' ==> counts'[d] >= multiset(rest)[d])
            && (forall d :: d in counts' ==> counts'[d] - multiset(rest)[d] == counts[d] - multiset(children)[d])
            && NoDup(ready') && (forall d :: d in ready' ==> d !in rest)
  {
    var c, rest := children[0], children[1..];
    assert c in children && forall d :: d in rest ==> d in children;
    forall d ensures multiset(children)[d] == multiset(rest)[d] + if d == c then 1 else 0 {
      CountHead(children, d);
    }
    assert c in rest <==> multiset(rest)[c] > 0;
    NoDupAppend(ready, c);
  }

  lemma {:induction false} ReleaseDomain(children: seq<Id>, counts: map<Id, int>, ready: seq<Id>, blocked: set<Id>)
    requires forall x :: x in children ==> x in counts
    ensures var (counts', ready') := Release(children, counts, ready, blocked);
            counts'.Keys == counts.Keys && forall x :: x in ready' ==> x in ready || x in children
    decreases |children|
  {
    if children != [] {
      var x := children[0];
      assert x in children;
      var left := counts[x] - 1;
      var ready' := if left == 0 && x !in blocked then ready + [x] else ready;
      ReleaseDomain(children[1..], counts[x := left], ready', blocked);
      assert forall y :: y in children[1..] ==> y in children;
    }
  }

  /** What a release does to one operation. */
  lemma {:induction false} ReleaseOne(children: seq<Id>, counts: map<Id, int>, ready: seq<Id>, blocked: set<Id>, d: Id)
    requires forall c :: c in children ==> c in counts
    requires (d in counts ==> counts[d] >= multiset(children)[d]) && (d in ready ==> d !in children)
    ensures var (counts', ready') := Release(children, counts, ready, blocked);
            && counts'.Keys == counts.Keys
            && (d in counts ==> counts'[d] == counts[d] - multiset(children)[d])
            && (d in ready' <==> d in ready || (d in children && counts[d] == multiset(children)[d] && d !in blocked))
    decreases |children|
  {
    if children != [] {
      var c, rest, left := children[0], children[1..], counts[children[0]] - 1;
      var ready' := if left == 0 && c !in blocked then ready + [c] else ready;
      assert c in children && forall x :: x in rest ==> x in children;
      CountHead(children, d);
      InSplit(children, d);
      assert d in rest <==> multiset(rest)[d] > 0;
      ReleaseOne(rest, counts[c := left], ready', blocked, d);
    }
  }

  lemma {:induction false} ReleaseNoDup(children: seq<Id>, counts: map<Id, int>, ready: seq<Id>, blocked: set<Id>)
    requires forall c :: c in children ==> c in counts
    requires forall c :: c in counts ==> counts[c] >= multiset(children)[c]
    requires NoDup(ready) && forall c :: c in ready ==> c !in children
    ensures NoDup(Release(children, counts, ready, blocked).1)
    decreases |children|
  {
    if children != [] {
      hide NoDup;
      var c, rest, left := children[0], children[1..], counts[children[0]] - 1;
      var counts', ready' := counts[c := left], if left == 0 && c !in blocked then ready + [c] else ready;
      ReleaseHead(children, counts, ready, blocked);
      ReleaseNoDup(rest, counts', ready', blocked);
    }
  }

  /** Each counter drops by the number of times it is listed, and an operation is
      appended, once, exactly when its counter reaches zero. */
  lemma ReleaseSpec(children: seq<Id>, counts: map<Id, int>, ready: seq<Id>, blocked: set<Id>)
    requires forall c :: c in children ==> c in counts
    requires forall c :: c in counts ==> counts[c] >= multiset(children)[c]
    requires NoDup(ready)
    requires forall c :: c in ready ==> c !in children
    ensures var (counts', ready') := Release(children, counts, ready, blocked);
            && counts'.Keys == counts.Keys
            && (forall c :: c in counts ==> counts'[c] == counts[c] - multiset(children)[c])
            && NoDup(ready')
            && (forall c :: c in ready' <==>
                  c in ready || (c in children && counts[c] == multiset(children)[c] && c !in blocked))
  {
    ReleaseNoDup(children, counts, ready, blocked);
    ReleaseDomain(children, counts, ready, blocked);
    var (counts', ready') := Release(children, counts, ready, blocked);
    hide Release, NoDup;
    forall c
      ensures c in counts ==> counts'[c] == counts[c] - multiset(children)[c]
      ensures c in ready' <==> c in ready || (c in children && counts[c] == multiset(children)[c] && c !in blocked)
    {
      ReleaseOne(children, counts, ready, blocked, c);
    }
  }

  /** How many times `id` is listed among the dependents of `d`. */
  ghost function Listed(dependents: map<Id, seq<Id>>, d: Id, id: Id): nat {
    multiset(Get(dependents, d))[id]
  }

  /** Files `id` once under each of its dependency occurrences. */
  method AddDependents(id: Id, deps: seq<Id>, dependents: map<Id, seq<Id>>) returns (r: map<Id, seq<Id>>)
    ensures forall d, x :: Listed(r, d, x) == Listed(dependents, d, x) + (if x == id then multiset(deps)[d] else 0)
  {
    r := dependents;
    for j := 0 to |deps|
      invariant forall d, x :: Listed(r, d, x) == Listed(dependents, d, x) +
                                                  (if x == id then multiset(deps[..j])[d] else 0)
    {
      assert multiset(deps[..j + 1]) == multiset(deps[..j]) + multiset{deps[j]} by {
        assert deps[..j + 1] == deps[..j] + [deps[j]];
      }
      r := r[deps[j] := Get(r, deps[j]) + [id]];
    }
    assert deps[..|deps|] == deps;
  }

  /** The dependents of exactly the operations in `ids` have been filed. */
  ghost predicate Filed(ops: Ops, ids: seq<Id>, dependents: map<Id, seq<Id>>) {
    forall d, x :: Listed(dependents, d, x) == if x in ids && x in ops then multiset(ops[x].deps)[d] else 0
  }

  lemma FiledStep(ops: Ops, ids: seq<Id>, id: Id, before: map<Id, seq<Id>>, after: map<Id, seq<Id>>)
    requires Filed(ops, ids, before) && id !in ids && id in ops
    requires forall d, x :: Listed(after, d, x) == Listed(before, d, x) +
                                                   (if x == id then multiset(ops[id].deps)[d] else 0)
    ensures Filed(ops, ids + [id], after)
  {
  }

  lemma FiledAdjacent(ops: Ops, ids: seq<Id>, dependents: map<Id, seq<Id>>)
    requires Filed(ops, ids, dependents) && forall x :: x in ops <==> x in ids
    ensures Adjacent(ops, dependents)
  {
    forall d, x ensures x in Get(dependents, d) ==> x in ops {
      assert Listed(dependents, d, x) > 0 <==> x in Get(dependents, d);
    }
    forall d, x | x in ops ensures multiset(Get(dependents, d))[x] == multiset(ops[x].deps)[d] {
      assert Listed(dependents, d, x) == multiset(ops[x].deps)[d];
    }
  }

  /** Dependency counters and the reverse adjacency, as both the sort and the executor build them. */
  method CountDeps(ops: Ops, ids: seq<Id>) returns (counts: map<Id, int>, dependents: map<Id, seq<Id>>)
    requires NoDup(ids) && forall x :: x in ops <==> x in ids
    ensures counts.Keys == ops.Keys
    ensures forall x :: x in ops ==> counts[x] == |ops[x].deps|
    ensures Adjacent(ops, dependents)
  {
    counts, dependents := map[], map[];
    for i := 0 to |ids|
      invariant forall x :: x in counts <==> x in ids[..i]
      invariant forall x :: x in counts ==> x in ops && counts[x] == |ops[x].deps|
      invariant Filed(ops, ids[..i], dependents)
    {
      var id := ids[i];
      assert id in ids;
      assert ids[..i + 1] == ids[..i] + [id];
      counts := counts[id := |ops[id].deps|];
      ghost var filed := dependents;
      dependents := AddDependents(id, ops[id].deps, dependents);
      FiledStep(ops, ids[..i], id, filed, dependents);
    }
    assert ids[..|ids|] == ids;
    FiledAdjacent(ops, ids, dependents);
    assert forall x :: x in counts <==> x in ops;
  }

  /** The loop form of `Release`. */
  method ReleaseAll(children: seq<Id>, counts: map<Id, int>, ready: seq<Id>, blocked: set<Id>)
    returns (counts': map<Id, int>, ready': seq<Id>)
    requires forall c :: c in children ==> c in counts
    ensures (counts', ready') == Release(children, counts, ready, blocked)
  {
    counts', ready' := counts, ready;
    for k := 0 to |children|
      invariant counts'.Keys == counts.Keys
      invariant Release(children[k..], counts', ready', blocked) == Release(children, counts, ready, blocked)
    {
      var child := children[k];
      var left := counts'[child] - 1;
      counts' := counts'[child := left];
      if left == 0 && child !in blocked {
        ready' := ready' + [child];
      }
      assert children[k..][1..] == children[k + 1..];
    }
  }

  /** State of the sort between two iterations. */
  ghost predicate KahnInv(ops: Ops, order: seq<Id>, indegree: map<Id, int>, ready: seq<Id>) {
    && NoDup(order) && DepsFirst(ops, order)
    && indegree.Keys == ops.Keys
    && (forall x :: x in ops ==> indegree[x] == Missing(ops[x].deps, Elems(order)))
    && NoDup(ready)
    && (forall x :: x in ready <==> x in ops && x !in order && indegree[x] == 0)
  }

  lemma DepsFirstAppend(ops: Ops, order: seq<Id>, id: Id)
    requires DepsFirst(ops, order) && DepsIn(ops, id, order)
    ensures DepsFirst(ops, order + [id])
  {
    var order' := order + [id];
    forall i | 0 <= i < |order'| ensures DepsIn(ops, order'[i], order'[..i]) {
      assert order'[..i] == order[..i];
      if i == |order| {
        assert order[..i] == order;
      }
    }
  }

  lemma OrderedIsDone(ops: Ops, order: seq<Id>, x: Id)
    requires DepsFirst(ops, order) && x in order
    ensures x in ops && Missing(ops[x].deps, Elems(order)) == 0
  {
    var i :| 0 <= i < |order| && order[i] == x;
    assert DepsIn(ops, order[i], order[..i]);
    MissingZero(ops[x].deps, Elems(order));
  }

  lemma KahnCounters(ops: Ops, dependents: map<Id, seq<Id>>, order: seq<Id>, indegree: map<Id, int>, ready: seq<Id>)
    requires Adjacent(ops, dependents) && KahnInv(ops, order, indegree, ready) && ready != []
    ensures NoDup(order + [ready[0]]) && DepsFirst(ops, order + [ready[0]])
    ensures forall x :: x in ops ==> Missing(ops[x].deps, Elems(order + [ready[0]])) ==
                                     indegree[x] - multiset(Get(dependents, ready[0]))[x]
    ensures forall x :: x in order || x in ready ==> x !in Get(dependents, ready[0])
  {
    var id := ready[0];
    var children := Get(dependents, id);
    MissingZero(ops[id].deps, Elems(order));
    assert Elems(order + [id]) == Elems(order) + {id};
    DepsFirstAppend(ops, order, id);
    NoDupAppend(order, id);
    forall x | x in ops
      ensures Missing(ops[x].deps, Elems(order + [id])) == indegree[x] - multiset(children)[x]
    {
      MissingAdd(ops[x].deps, Elems(order), id);
    }
    forall x | x in order || x in ready ensures x !in children {
      if x in order {
        OrderedIsDone(ops, order, x);
      }
      assert indegree[x] == 0;
      assert multiset(children)[x] == 0;
    }
  }

  /** A pop may release the dependents of the operation it takes. */
  lemma PopReady(ops: Ops, dependents: map<Id, seq<Id>>, order: seq<Id>, indegree: map<Id, int>, ready: seq<Id>)
    requires Adjacent(ops, dependents) && KahnInv(ops, order, indegree, ready) && ready != []
    ensures var children := Get(dependents, ready[0]);
            && (forall c :: c in children ==> c in ops)
            && NoDup(ready[1..]) && ready[0] !in ready[1..] && (forall c :: c in ready[1..] ==> c in ready)
            && indegree.Keys == ops.Keys
            && (forall x :: x in ready <==> x in ops && x !in order && indegree[x] == 0)
  {
    hide DepsFirst, Missing, Elems;
  }

  /** One pop of the ready queue keeps the state of the sort. */
  lemma KahnStep(ops: Ops, dependents: map<Id, seq<Id>>, order: seq<Id>, indegree: map<Id, int>, ready: seq<Id>)
    requires Adjacent(ops, dependents) && KahnInv(ops, order, indegree, ready) && ready != []
    ensures forall c :: c in Get(dependents, ready[0]) ==> c in indegree
    ensures var r := Release(Get(dependents, ready[0]), indegree, ready[1..], {});
            KahnInv(ops, order + [ready[0]], r.0, r.1)
  {
    hide Adjacent, DepsFirst, Release, NoDup, Missing, Elems, Get, KahnInv;
    var children, order' := Get(dependents, ready[0]), order + [ready[0]];
    PopReady(ops, dependents, order, indegree, ready);
    KahnCounters(ops, dependents, order, indegree, ready);
    forall c | c in indegree ensures indegree[c] >= multiset(children)[c] {
      assert Missing(ops[c].deps, Elems(order')) >= 0;
    }
    ReleaseSpec(children, indegree, ready[1..], {});
    var (indegree', ready') := Release(children, indegree, ready[1..], {});
    AllReadyNext(ops, order, indegree, ready, children, indegree', ready');
    KahnNext(ops, order', indegree', ready');
  }

  lemma KahnNext(ops: Ops, order: seq<Id>, indegree: map<Id, int>, ready: seq<Id>)
    requires NoDup(order) && DepsFirst(ops, order) && indegree.Keys == ops.Keys && NoDup(ready)
    requires forall x :: x in ops ==> indegree[x] == Missing(ops[x].deps, Elems(order))
    requires forall x :: x in ready <==> x in ops && x !in order && indegree[x] == 0
    ensures KahnInv(ops, order, indegree, ready)
  {
  }

  /** What is queued after a pop. */
  lemma AllReadyNext(ops: Ops, order: seq<Id>, indegree: map<Id, int>, ready: seq<Id>, children: seq<Id>,
                     indegree': map<Id, int>, ready': seq<Id>)
    requires ready != [] && indegree.Keys == indegree'.Keys == ops.Keys && ready[0] !in ready[1..]
    requires forall x :: x in ready <==> x in ops && x !in order && indegree[x] == 0
    requires forall x :: x in order || x in ready ==> x !in children
    requires forall x :: x in ops ==> indegree'[x] == indegree[x] - multiset(children)[x]
    requires forall x :: x in children ==> x in ops
    requires forall x :: x in ready' <==> x in ready[1..] || (x in children && indegree[x] == multiset(children)[x])
    ensures forall x :: x in ready' <==> x in ops && x !in order + [ready[0]] && indegree'[x] == 0
  {
    forall x ensures x in ready' <==> x in ops && x !in order + [ready[0]] && indegree'[x] == 0 {
      InSplit(ready, x);
      ReadyNext(ops, order, indegree, ready, children, indegree', ready', x);
    }
  }

  /** Whether x is queued after a pop. */
  lemma ReadyNext(ops: Ops, order: seq<Id>, indegree: map<Id, int>, ready: seq<Id>, children: seq<Id>,
                  indegree': map<Id, int>, ready': seq<Id>, x: Id)
    requires ready != [] && indegree.Keys == indegree'.Keys == ops.Keys && ready[0] !in ready[1..]
    requires x in ready <==> x in ops && x !in order && indegree[x] == 0
    requires x in ready <==> x == ready[0] || x in ready[1..]
    requires x in order || x in ready ==> x !in children
    requires x in ops ==> indegree'[x] == indegree[x] - multiset(children)[x]
    requires x in children ==> x in ops
    requires x in ready' <==> x in ready[1..] || (x in children && indegree[x] == multiset(children)[x])
    ensures x in ready' <==> x in ops && x !in order + [ready[0]] && indegree'[x] == 0
  {
    assert multiset(children)[x] > 0 <==> x in children;
  }

  /** The operation has a dependency that is not done. */
  ghost predicate Blocked(ops: Ops, done: set<Id>, x: Id) {
    x in ops && exists d :: d in ops[x].deps && d !in done
  }

  /** A list that puts dependencies first stays inside any set closed the way a finished sort is. */
  lemma {:induction false} OrderedStaysIn(ops: Ops, done: set<Id>, o: seq<Id>)
    requires DepsFirst(ops, o)
    requires forall x {:trigger Blocked(ops, done, x)} :: x in ops && x !in done ==> Blocked(ops, done, x)
    ensures forall x :: x in o ==> x in done
  {
    if o != [] {
      assert o == Front(o) + [Last(o)];
      forall i | 0 <= i < |Front(o)| ensures Front(o)[..i] == o[..i] {}
      OrderedStaysIn(ops, done, Front(o));
      assert DepsIn(ops, Last(o), o[..|o| - 1]);
      assert Last(o) !in done ==> Blocked(ops, done, Last(o));
      forall x | x in o ensures x in done {
        InSplit(o, x);
      }
    }
  }

  ghost predicate HasDepIn(ops: Ops, s: set<Id>, x: Id) {
    x in ops && exists d :: d in ops[x].deps && d in s
  }

  /** A cycle through x that stays in the set. */
  ghost predicate CycleIn(ops: Ops, s: set<Id>, x: Id) {
    exists w :: |w| >= 2 && IsWalk(ops, w) && w[0] == x && w[|w| - 1] == x && x in s
  }

  /** If every member of a nonempty set has a dependency in the set, there is a cycle
      through a member of the set. */
  lemma {:induction false} FindCycle(ops: Ops, stuck: set<Id>, w: seq<Id>)
    requires stuck <= ops.Keys
    requires forall x {:trigger HasDepIn(ops, stuck, x)} :: x in stuck ==> HasDepIn(ops, stuck, x)
    requires w != [] && NoDup(w) && IsWalk(ops, w) && forall x :: x in w ==> x in stuck
    ensures Cyclic(ops) && exists x :: CycleIn(ops, stuck, x)
    decreases |stuck| - |w|
  {
    assert HasDepIn(ops, stuck, w[0]);
    var d :| d in ops[w[0]].deps && d in stuck;
    var w' := [d] + w;
    assert IsWalk(ops, w') by {
      forall i | 0 < i < |w'| ensures Edge(ops, w'[i - 1], w'[i]) {
        if i > 1 {
          assert Edge(ops, w[i - 2], w[i - 1]);
        }
      }
    }
    NoDupCard(w);
    SubsetCard(Elems(w), stuck);
    if d in w {
      var k :| 0 <= k < |w| && w[k] == d;
      var c := w'[..k + 2];
      assert IsWalk(ops, c) && c[0] == c[|c| - 1];
      assert CycleIn(ops, stuck, d);
    } else {
      NoDupCons(d, w);
      NoDupCard(w');
      SubsetCard(Elems(w'), stuck);
      FindCycle(ops, stuck, w');
    }
  }

  /** A topological order rules out cycles and dangling dependencies. */
  lemma TopoMeansAcyclic(ops: Ops, order: seq<Id>)
    requires IsTopo(ops, order)
    ensures !Cyclic(ops) && !Dangling(ops)
  {
    if Cyclic(ops) {
      var w :| |w| >= 2 && IsWalk(ops, w) && w[0] == w[|w| - 1];
      assert Edge(ops, w[|w| - 2], w[|w| - 1]);
      WalkGoesForward(ops, order, w);
    }
    forall d, x | Edge(ops, d, x) ensures d in ops {
      var i :| 0 <= i < |order| && order[i] == x;
      assert DepsIn(ops, order[i], order[..i]);
    }
  }

  lemma {:induction false} WalkGoesForward(ops: Ops, order: seq<Id>, w: seq<Id>)
    requires IsTopo(ops, order) && |w| >= 2 && IsWalk(ops, w)
    ensures exists i, j :: 0 <= i < j < |order| && order[i] == w[0] && order[j] == w[|w| - 1]
    ensures w[0] != w[|w| - 1]
  {
    assert Edge(ops, w[|w| - 2], w[|w| - 1]);
    var j :| 0 <= j < |order| && order[j] == w[|w| - 1];
    assert DepsIn(ops, order[j], order[..j]);
    assert w[|w| - 2] in order[..j];
    var k :| 0 <= k < j && order[..j][k] == w[|w| - 2];
    if |w| > 2 {
      WalkGoesForward(ops, order, Front(w));
      var i, k' :| 0 <= i < k' < |order| && order[i] == w[0] && order[k'] == w[|w| - 2];
      assert k == k';
    }
  }

  /** What a finished sort leaves out cannot be scheduled at all, and then the
      graph has a cycle or a dependency outside the plan. */
  lemma LeftOverIsStuck(ops: Ops, order: seq<Id>, indegree: map<Id, int>)
    requires KahnInv(ops, order, indegree, [])
    ensures forall x :: x in order <==> Schedulable(ops, x)
    ensures (exists x :: x in ops && x !in order) ==> Cyclic(ops) || Dangling(ops)
  {
    var done := Elems(order);
    forall x | x in ops && x !in done ensures Blocked(ops, done, x) {
      MissingZero(ops[x].deps, done);
    }
    forall x | x in order ensures Schedulable(ops, x) {}
    forall x | Schedulable(ops, x) ensures x in order {
      var o :| DepsFirst(ops, o) && x in o;
      OrderedStaysIn(ops, done, o);
    }
    if exists x :: x in ops && x !in order {
      var x :| x in ops && x !in order;
      var stuck := ops.Keys - done;
      if !Dangling(ops) {
        forall y | y in stuck ensures HasDepIn(ops, stuck, y) {
          assert Blocked(ops, done, y);
          var d :| d in ops[y].deps && d !in done;
          assert Edge(ops, d, y);
        }
        FindCycle(ops, stuck, [x]);
      }
    }
  }

  lemma KahnProgress(ops: Ops, order: seq<Id>)
    requires NoDup(order) && DepsFirst(ops, order)
    ensures |order| <= |ops|
  {
    forall x | x in order ensures x in ops {
      OrderedIsDone(ops, order, x);
    }
    NoDupCard(order);
    SubsetCard(Elems(order), ops.Keys);
  }

  /** The length test at the end decides whether every operation was placed. */
  lemma KahnComplete(ops: Ops, ids: seq<Id>, order: seq<Id>)
    requires NoDup(ids) && forall x :: x in ops <==> x in ids
    requires NoDup(order) && DepsFirst(ops, order)
    ensures |order| == |ids| <==> IsTopo(ops, order)
    ensures |order| != |ids| ==> exists x :: x in ops && x !in order
  {
    forall x | x in order ensures x in ops {
      OrderedIsDone(ops, order, x);
    }
    NoDupCard(order);
    NoDupCard(ids);
    assert Elems(ids) == ops.Keys;
    SubsetCard(Elems(order), ops.Keys);
    if forall x :: x in ops ==> x in order {
      assert Elems(order) == ops.Keys;
    } else {
      var x :| x in ops && x !in order;
      assert x !in Elems(order);
    }
  }

  lemma KahnStart(ops: Ops, indegree: map<Id, int>, ready: seq<Id>)
    requires indegree.Keys == ops.Keys && forall x :: x in ops ==> indegree[x] == |ops[x].deps|
    requires NoDup(ready) && forall x :: x in ready <==> x in ops && indegree[x] == 0
    ensures KahnInv(ops, [], indegree, ready)
  {
    var none: seq<Id> := [];
    assert Elems(none) == {};
    forall x | x in ops ensures indegree[x] == Missing(ops[x].deps, Elems(none)) {
      MissingNone(ops[x].deps);
    }
  }

  /** The ids whose counter is zero, in the order given. */
  method ZeroCounters(ids: seq<Id>, counts: map<Id, int>) returns (ready: seq<Id>)
    requires NoDup(ids) && forall x :: x in ids ==> x in counts
    ensures NoDup(ready) && forall x :: x in ready <==> x in ids && counts[x] == 0
  {
    ready := [];
    for i := 0 to |ids|
      invariant NoDup(ready)
      invariant forall x :: x in ready <==> x in ids[..i] && counts[x] == 0
    {
      var id := ids[i];
      assert id in ids && ids[..i + 1] == ids[..i] + [id];
      if counts[id] == 0 {
        ready := ready + [id];
      }
    }
    assert ids[..|ids|] == ids;
  }

  /** `x` is the first element of `s` outside `order`. */
  ghost predicate FirstOutside(s: seq<Id>, order: seq<Id>, x: Id) {
    exists k :: 0 <= k < |s| && s[k] == x && x !in order && forall l :: 0 <= l < k ==> s[l] in order
  }

  /** The payload of the cycle error: the first operation left with a positive
      counter and its first dependency that was never placed. */
  method BlockedEdge(ops: Ops, ids: seq<Id>, order: seq<Id>, indegree: map<Id, int>) returns (e: CycleEdge)
    requires KahnInv(ops, order, indegree, [])
    requires forall x :: x in ops <==> x in ids
    requires exists x :: x in ops && x !in order
    ensures FirstOutside(ids, order, e.to)
    ensures e.to in ops && FirstOutside(ops[e.to].deps, order, e.from)
  {
    for i := 0 to |ids|
      invariant forall j :: 0 <= j < i ==> ids[j] in order
    {
      var id := ids[i];
      assert id in ids;
      var deps := ops[id].deps;
      MissingZero(deps, Elems(order));
      if indegree[id] > 0 {
        if id in order {
          OrderedIsDone(ops, order, id);
        }
        for k := 0 to |deps|
          invariant forall l :: 0 <= l < k ==> deps[l] in order
        {
          if deps[k] !in order {
            return CycleEdge(deps[k], id);
          }
        }
        assert false;
      } else {
        assert id in order;
      }
    }
    assert false;
    e := CycleEdge(0, 0);
  }

  class Plan {
    var ops: Ops
    /** Insertion order of `ops`, which is the iteration order of the program's map. */
    var ids: seq<Id>

    ghost predicate Valid()
      reads this
    {
      NoDup(ids) && forall x :: x in ops <==> x in ids
    }

    constructor ()
      ensures Valid() && ops == map[] && ids == []
    {
      ops, ids := map[], [];
    }

    /** Adds an operation whose dependencies were all issued before, or reports the
        first one that was not. Insertion order stays a topological order. */
    method Add(id: Id, name: string, deps: seq<Id>, tag: Option<string>, fn: seq<Option<Value>> -> Outcome)
      returns (r: Result<Id, Id>)
      requires Valid()
      requires id !in ops
      modifies this
      ensures Valid()
      ensures r.Ok? <==> forall k :: 0 <= k < |deps| ==> deps[k] in old(ops)
      ensures r.Ok? ==> r.value == id && ops == old(ops)[id := Op(name, deps, tag, fn)] && ids == old(ids) + [id]
      ensures r.Err? ==> ops == old(ops) && ids == old(ids)
      ensures r.Err? ==> exists k :: 0 <= k < |deps| && deps[k] == r.error && r.error !in ops &&
                                     forall l :: 0 <= l < k ==> deps[l] in ops
      ensures old(IsTopo(ops, ids)) ==> IsTopo(ops, ids)
    {
      for k := 0 to |deps|
        invariant forall l :: 0 <= l < k ==> deps[l] in ops
      {
        if deps[k] !in ops {
          return Err(deps[k]);
        }
      }
      ghost var before, ids0 := ops, ids;
      ops := ops[id := Op(name, deps, tag, fn)];
      ids := ids + [id];
      if IsTopo(before, ids0) {
        forall i | 0 <= i < |ids0| ensures DepsIn(ops, ids0[i], ids0[..i]) {
          assert DepsIn(before, ids0[i], ids0[..i]);
        }
        DepsFirstAppend(ops, ids0, id);
      }
      r := Ok(id);
    }

    /** Kahn's algorithm. It succeeds exactly when no operation is on a cycle or names
        a dependency outside the plan; otherwise it reports the first operation, in
        insertion order, that cannot be scheduled, with its first such dependency. */
    method Toposort() returns (r: Result<seq<Id>, CycleEdge>)
      requires Valid()
      ensures r.Ok? <==> !Cyclic(ops) && !Dangling(ops)
      ensures r.Ok? ==> IsTopo(ops, r.value)
      ensures IsTopo(ops, ids) ==> r.Ok?
      ensures r.Err? ==> Edge(ops, r.error.from, r.error.to)
      ensures r.Err? ==> FirstUnschedulable(ops, ids, r.error.to) &&
                         FirstUnschedulable(ops, ops[r.error.to].deps, r.error.from)
    {
      if IsTopo(ops, ids) {
        TopoMeansAcyclic(ops, ids);
      }
      var indegree, dependents := CountDeps(ops, ids);
      var ready := ZeroCounters(ids, indegree);
      var order := [];
      KahnStart(ops, indegree, ready);
      while ready != []
        invariant KahnInv(ops, order, indegree, ready)
        decreases |ops| - |order|
      {
        KahnStep(ops, dependents, order, indegree, ready);
        var id := ready[0];
        KahnProgress(ops, order + [id]);
        order := order + [id];
        indegree, ready := ReleaseAll(Get(dependents, id), indegree, ready[1..], {});
      }
      LeftOverIsStuck(ops, order, indegree);
      KahnComplete(ops, ids, order);
      if |order| != |ids| {
        var edge := BlockedEdge(ops, ids, order, indegree);
        return Err(edge);
      }
      TopoMeansAcyclic(ops, order);
      r := Ok(order);
    }
  }
}
