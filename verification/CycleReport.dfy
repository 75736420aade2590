/** What a failed sort says about the cycle (packages/parallel/src/plan.ts). */
module CycleReports {
  import opened Common
  import opened Plans

  /** A walk from a to b, possibly of no edges. */
  ghost predicate Leads(ops: Ops, a: Id, b: Id) {
    exists w :: WalkTo(ops, w, a, b)
  }

  ghost predicate WalkTo(ops: Ops, w: seq<Id>, a: Id, b: Id) {
    w != [] && IsWalk(ops, w) && w[0] == a && w[|w| - 1] == b
  }

  /** An operation on a cycle, or an id that names no operation of the plan. */
  ghost predicate Culprit(ops: Ops, a: Id) {
    a !in ops || exists w :: |w| >= 2 && WalkTo(ops, w, a, a)
  }

  ghost predicate Below(ops: Ops, x: Id) {
    exists a :: Culprit(ops, a) && Leads(ops, a, x)
  }

  ghost predicate IsListing(ops: Ops, ids: seq<Id>) {
    NoDup(ids) && forall x :: x in ops <==> x in ids
  }

  /** The edge that a sort of these operations, inserted in this order, reports. */
  ghost predicate Reports(ops: Ops, ids: seq<Id>, e: CycleEdge) {
    && FirstUnschedulable(ops, ids, e.to)
    && e.to in ops && FirstUnschedulable(ops, ops[e.to].deps, e.from)
  }

  ghost predicate Reportable(ops: Ops, e: CycleEdge) {
    exists ids :: IsListing(ops, ids) && Reports(ops, ids, e)
  }

  // ----- what cannot be scheduled -----

  lemma EndEdges(ops: Ops, w: seq<Id>)
    requires IsWalk(ops, w)
    ensures |w| >= 2 ==> Edge(ops, w[0], w[1]) && Edge(ops, w[|w| - 2], w[|w| - 1])
  {
  }

  lemma SelfBelow(ops: Ops, a: Id)
    requires Culprit(ops, a)
    ensures Below(ops, a)
  {
    assert WalkTo(ops, [a], a, a);
    assert Leads(ops, a, a);
  }

  lemma BelowStep(ops: Ops, d: Id, x: Id)
    requires Below(ops, d) && Edge(ops, d, x)
    ensures Below(ops, x)
  {
    var a :| Culprit(ops, a) && Leads(ops, a, d);
    var w :| WalkTo(ops, w, a, d);
    var w' := w + [x];
    forall i | 0 < i < |w'| ensures Edge(ops, w'[i - 1], w'[i]) {
      assert i < |w| ==> Edge(ops, w[i - 1], w[i]);
    }
    assert WalkTo(ops, w', a, x);
    assert Leads(ops, a, x);
  }

  /** What is below a culprit, or is one, has a dependency below a culprit. */
  lemma BelowIsBlocked(ops: Ops, x: Id) returns (d: Id)
    requires Below(ops, x) && x in ops
    ensures Edge(ops, d, x) && Below(ops, d)
  {
    var a :| Culprit(ops, a) && Leads(ops, a, x);
    var w :| WalkTo(ops, w, a, x);
    if |w| == 1 {
      w :| |w| >= 2 && WalkTo(ops, w, a, a);
    }
    d := w[|w| - 2];
    var v := w[..|w| - 1];
    forall i | 0 < i < |v| ensures Edge(ops, v[i - 1], v[i]) {
      assert Edge(ops, w[i - 1], w[i]);
    }
    assert Edge(ops, w[|w| - 2], w[|w| - 1]);
    assert WalkTo(ops, v, a, d);
    assert Leads(ops, a, d);
  }

  lemma DepsFirstConcat(ops: Ops, a: seq<Id>, b: seq<Id>)
    requires DepsFirst(ops, a) && DepsFirst(ops, b)
    ensures DepsFirst(ops, a + b)
  {
    var o := a + b;
    forall i | 0 <= i < |o| ensures DepsIn(ops, o[i], o[..i]) {
      if i < |a| {
        assert o[..i] == a[..i] && DepsIn(ops, a[i], a[..i]);
      } else {
        var j := i - |a|;
        assert o[..i] == a + b[..j] && DepsIn(ops, b[j], b[..j]);
      }
    }
  }

  lemma {:induction false} DepsTogether(ops: Ops, deps: seq<Id>) returns (o: seq<Id>)
    requires forall d :: d in deps ==> Schedulable(ops, d)
    ensures DepsFirst(ops, o) && forall d :: d in deps ==> d in o
  {
    if deps == [] {
      o := [];
    } else {
      var d := Last(deps);
      assert d in deps;
      var o1 := DepsTogether(ops, Front(deps));
      var o2 :| DepsFirst(ops, o2) && d in o2;
      DepsFirstConcat(ops, o1, o2);
      o := o1 + o2;
      forall e | e in deps ensures e in o {
        InSplit(deps, e);
      }
    }
  }

  lemma ScheduleNext(ops: Ops, o: seq<Id>, x: Id)
    requires DepsFirst(ops, o) && DepsIn(ops, x, o)
    ensures Schedulable(ops, x)
  {
    DepsFirstAppend(ops, o, x);
    assert x in o + [x];
  }

  lemma UnschedulableDep(ops: Ops, x: Id) returns (d: Id)
    requires x in ops && !Schedulable(ops, x)
    ensures Edge(ops, d, x) && !Schedulable(ops, d)
  {
    if forall e :: e in ops[x].deps ==> Schedulable(ops, e) {
      var o := DepsTogether(ops, ops[x].deps);
      ScheduleNext(ops, o, x);
    }
    d :| d in ops[x].deps && !Schedulable(ops, d);
  }

  /** An operation cannot be scheduled iff it lies on a cycle, or below one, or below a
      dependency that is missing from the plan. */
  lemma UnschedulableIffBelow(ops: Ops, x: Id)
    ensures !Schedulable(ops, x) <==> Below(ops, x)
  {
    if Below(ops, x) {
      BelowNotSchedulable(ops, x);
    } else if !Schedulable(ops, x) {
      SelfCulprit(ops, x);
      var lost := set y | y in ops && !Schedulable(ops, y) && !Below(ops, y);
      forall y | y in lost ensures HasDepIn(ops, lost, y) {
        var d := UnschedulableDep(ops, y);
        if Below(ops, d) {
          BelowStep(ops, d, y);
        }
        SelfCulprit(ops, d);
      }
      FindCycle(ops, lost, [x]);
      var z :| CycleIn(ops, lost, z);
      var w :| |w| >= 2 && IsWalk(ops, w) && w[0] == z && w[|w| - 1] == z && z in lost;
      assert WalkTo(ops, w, z, z);
      SelfBelow(ops, z);
    }
  }

  lemma SelfCulprit(ops: Ops, x: Id)
    requires !Below(ops, x)
    ensures x in ops
  {
    if x !in ops {
      SelfBelow(ops, x);
    }
  }

  lemma BelowNotSchedulable(ops: Ops, x: Id)
    requires Below(ops, x)
    ensures !Schedulable(ops, x)
  {
    var done := set y | y in ops && !Below(ops, y);
    forall y | y in ops && y !in done ensures Blocked(ops, done, y) {
      var d := BelowIsBlocked(ops, y);
      assert d in ops[y].deps && d !in done;
    }
    forall o | DepsFirst(ops, o) && x in o ensures false {
      OrderedStaysIn(ops, done, o);
    }
  }

  /** In a plan without missing dependencies, a cycle leads to both ends of the edge. */
  lemma CycleLeadsToEdge(ops: Ops, ids: seq<Id>, e: CycleEdge)
    requires Reports(ops, ids, e) && !Dangling(ops)
    ensures exists a :: (exists w :: |w| >= 2 && WalkTo(ops, w, a, a)) && Leads(ops, a, e.from)
    ensures Edge(ops, e.from, e.to)
  {
    UnschedulableIffBelow(ops, e.from);
    var a :| Culprit(ops, a) && Leads(ops, a, e.from);
    assert Edge(ops, e.from, e.to);
    var w :| WalkTo(ops, w, a, e.from);
    EndEdges(ops, w);
    assert a in ops;
  }

  // ----- when the reported edge lies on a cycle -----

  lemma {:induction false} ListAll(s: set<Id>) returns (ids: seq<Id>)
    ensures NoDup(ids) && forall x :: x in s <==> x in ids
    decreases |s|
  {
    if s == {} {
      ids := [];
    } else {
      var x := PickOne(s);
      var rest := ListAll(s - {x});
      NoDupAppend(rest, x);
      ids := rest + [x];
    }
  }

  lemma ListFirst(ops: Ops, x: Id) returns (ids: seq<Id>)
    requires x in ops
    ensures IsListing(ops, ids) && ids[0] == x
  {
    var rest := ListAll(ops.Keys - {x});
    NoDupCons(x, rest);
    ids := [x] + rest;
    forall y ensures y in ops <==> y in ids {
      assert y in ids <==> y == x || y in rest;
    }
  }

  /** The first element of a list that cannot be scheduled names only one element. */
  lemma FirstIsUnique(ops: Ops, s: seq<Id>, x: Id, y: Id)
    requires FirstUnschedulable(ops, s, x) && FirstUnschedulable(ops, s, y)
    ensures x == y
  {
    var k :| 0 <= k < |s| && s[k] == x && forall l :: 0 <= l < k ==> Schedulable(ops, s[l]);
    var k' :| 0 <= k' < |s| && s[k'] == y && forall l :: 0 <= l < k' ==> Schedulable(ops, s[l]);
    assert k == k';
  }

  lemma FirstFound(ops: Ops, s: seq<Id>, k: nat)
    requires k < |s| && !Schedulable(ops, s[k]) && forall l :: 0 <= l < k ==> Schedulable(ops, s[l])
    ensures FirstUnschedulable(ops, s, s[k])
  {
  }

  /** An unschedulable operation that is inserted first is the one reported. */
  lemma ReportableEdge(ops: Ops, x: Id, d: Id)
    requires x in ops && FirstUnschedulable(ops, ops[x].deps, d)
    ensures Reportable(ops, CycleEdge(d, x))
  {
    if Schedulable(ops, x) {
      UnschedulableIffBelow(ops, d);
      BelowStep(ops, d, x);
      UnschedulableIffBelow(ops, x);
    }
    var ids := ListFirst(ops, x);
    FirstFound(ops, ids, 0);
    assert Reports(ops, ids, CycleEdge(d, x));
  }

  /** For fixed dependency lists: the reported edge lies on a cycle, whatever the
      insertion order, iff every unschedulable operation leads back to its own first
      unschedulable dependency. */
  lemma ReportOnCycleIff(ops: Ops)
    ensures (forall e :: Reportable(ops, e) ==> Leads(ops, e.to, e.from)) <==>
            (forall x, d :: x in ops && FirstUnschedulable(ops, ops[x].deps, d) ==> Leads(ops, x, d))
  {
    if forall e :: Reportable(ops, e) ==> Leads(ops, e.to, e.from) {
      forall x, d | x in ops && FirstUnschedulable(ops, ops[x].deps, d) ensures Leads(ops, x, d) {
        ReportableEdge(ops, x, d);
        var e := CycleEdge(d, x);
        assert Leads(ops, e.to, e.from);
      }
    }
  }

  /** The same operations with the same dependencies, each list in any order. */
  ghost predicate SameGraph(ops: Ops, ops': Ops) {
    && ops'.Keys == ops.Keys
    && forall x :: x in ops ==> multiset(ops'[x].deps) == multiset(ops[x].deps)
  }

  lemma SameEdges(ops: Ops, ops': Ops)
    requires SameGraph(ops, ops')
    ensures forall d, x :: Edge(ops', d, x) <==> Edge(ops, d, x)
  {
    forall d, x | x in ops ensures d in ops'[x].deps <==> d in ops[x].deps {
      assert d in ops'[x].deps <==> d in multiset(ops'[x].deps);
    }
  }

  lemma SameMeaning(ops: Ops, ops': Ops)
    requires ops'.Keys == ops.Keys && forall d, x :: Edge(ops', d, x) <==> Edge(ops, d, x)
    ensures forall a, b :: Leads(ops', a, b) <==> Leads(ops, a, b)
    ensures forall a :: Below(ops', a) <==> Below(ops, a)
  {
    forall w ensures IsWalk(ops', w) <==> IsWalk(ops, w) {
      SameWalk(ops, ops', w);
    }
    assert forall w, a, b :: WalkTo(ops', w, a, b) <==> WalkTo(ops, w, a, b);
    assert forall a :: Culprit(ops', a) <==> Culprit(ops, a);
  }

  lemma SameWalk(ops: Ops, ops': Ops, w: seq<Id>)
    requires forall d, x :: Edge(ops', d, x) <==> Edge(ops, d, x)
    ensures IsWalk(ops', w) <==> IsWalk(ops, w)
  {
  }

  /** The given dependency moved to the front of its list. */
  lemma MoveToFront(ops: Ops, d: Id, x: Id) returns (ops': Ops)
    requires Edge(ops, d, x)
    ensures SameGraph(ops, ops') && ops'[x].deps != [] && ops'[x].deps[0] == d
  {
    var deps := ops[x].deps;
    var k :| 0 <= k < |deps| && deps[k] == d;
    var deps' := [d] + deps[..k] + deps[k + 1..];
    assert deps == deps[..k] + [d] + deps[k + 1..];
    ops' := ops[x := ops[x].(deps := deps')];
  }

  /** The reported edge lies on a cycle, for every insertion order and every order of
      the dependency lists, iff every dependency edge below a cycle or below a missing
      dependency lies on a cycle itself. */
  lemma EdgeOnCycleExact(ops: Ops)
    ensures (forall ops', e :: SameGraph(ops, ops') && Reportable(ops', e) ==> Leads(ops', e.to, e.from)) <==>
            (forall d, x :: Edge(ops, d, x) && Below(ops, d) ==> Leads(ops, x, d))
  {
    if forall d, x :: Edge(ops, d, x) && Below(ops, d) ==> Leads(ops, x, d) {
      forall ops', e | SameGraph(ops, ops') && Reportable(ops', e) ensures Leads(ops', e.to, e.from) {
        SameEdges(ops, ops');
        SameMeaning(ops, ops');
        UnschedulableIffBelow(ops', e.from);
        assert Edge(ops', e.from, e.to);
      }
    } else {
      var d, x :| Edge(ops, d, x) && Below(ops, d) && !Leads(ops, x, d);
      var ops' := MoveToFront(ops, d, x);
      SameEdges(ops, ops');
      SameMeaning(ops, ops');
      UnschedulableIffBelow(ops', d);
      FirstFound(ops', ops'[x].deps, 0);
      ReportableEdge(ops', x, d);
      var e := CycleEdge(d, x);
      assert Reportable(ops', e) && !Leads(ops', e.to, e.from);
    }
  }

  // ----- one operation replaced in a plan built by `add` -----

  lemma LeadsTrans(ops: Ops, a: Id, b: Id, c: Id)
    requires Leads(ops, a, b) && Leads(ops, b, c)
    ensures Leads(ops, a, c)
  {
    var v :| WalkTo(ops, v, a, b);
    var w :| WalkTo(ops, w, b, c);
    var u := v + w[1..];
    forall i | 0 < i < |u| ensures Edge(ops, u[i - 1], u[i]) {
      if i < |v| {
        assert Edge(ops, v[i - 1], v[i]);
      } else {
        var j := i - |v| + 1;
        assert Edge(ops, w[j - 1], w[j]) && u[i] == w[j] && u[i - 1] == w[j - 1];
      }
    }
    assert WalkTo(ops, u, a, c);
  }

  /** A walk either avoids every edge that the replacement changed, or passes the
      replaced operation. */
  lemma WalkOrPass(ops0: Ops, p: Id, op: Op, w: seq<Id>, a: Id, b: Id)
    requires p in ops0 && WalkTo(ops0[p := op], w, a, b)
    ensures WalkTo(ops0, w, a, b) || Leads(ops0[p := op], p, b)
  {
    var ops := ops0[p := op];
    if i :| 0 < i < |w| && w[i] == p {
      var v := w[i..];
      forall j | 0 < j < |v| ensures Edge(ops, v[j - 1], v[j]) {
        assert Edge(ops, w[i + j - 1], w[i + j]);
      }
      assert WalkTo(ops, v, p, b);
    } else {
      forall i | 0 < i < |w| ensures Edge(ops0, w[i - 1], w[i]) {
        assert Edge(ops, w[i - 1], w[i]);
      }
    }
  }

  /** Whatever cannot be scheduled after the replacement is the replaced operation, is
      reached from it, or is missing from the plan. */
  lemma StuckIsReached(ops0: Ops, ids: seq<Id>, p: Id, op: Op, x: Id)
    requires IsTopo(ops0, ids) && p in ops0 && x in ops0
    requires !Schedulable(ops0[p := op], x)
    ensures Leads(ops0[p := op], p, x)
  {
    var ops := ops0[p := op];
    UnschedulableIffBelow(ops, x);
    var a :| Culprit(ops, a) && Leads(ops, a, x);
    var w :| WalkTo(ops, w, a, x);
    WalkOrPass(ops0, p, op, w, a, x);
    if !Leads(ops, p, x) {
      EndEdges(ops0, w);
      TopoMeansAcyclic(ops0, ids);
      assert a in ops;
      var cycle :| |cycle| >= 2 && WalkTo(ops, cycle, a, a);
      WalkOrPass(ops0, p, op, cycle, a, a);
      if Leads(ops, p, a) {
        LeadsTrans(ops, p, a, x);
      }
    }
  }

  /** After replacing one operation of a plan built by `add`, a failed sort names that
      operation, and the edge lies on a cycle iff the dependency it names is in the plan. */
  lemma OneReplacedOperation(ops0: Ops, ids: seq<Id>, p: Id, op: Op, e: CycleEdge)
    requires IsTopo(ops0, ids) && p in ops0 && Reports(ops0[p := op], ids, e)
    ensures e.to == p && (Leads(ops0[p := op], e.to, e.from) <==> e.from in ops0)
  {
    var ops := ops0[p := op];
    var k :| 0 <= k < |ids| && ids[k] == p;
    PrefixSchedulable(ops0, ids, p, op, k);
    UnschedulableIffBelow(ops, e.from);
    BelowStep(ops, e.from, e.to);
    UnschedulableIffBelow(ops, e.to);
    if Schedulable(ops, p) {
      AllSchedulable(ops0, ids, p, op);
    }
    FirstFound(ops, ids, k);
    FirstIsUnique(ops, ids, e.to, p);
    if e.from in ops0 {
      StuckIsReached(ops0, ids, p, op, e.from);
    } else if Leads(ops, p, e.from) {
      var w :| WalkTo(ops, w, p, e.from);
      EndEdges(ops, w);
    }
  }

  lemma PrefixSchedulable(ops0: Ops, ids: seq<Id>, p: Id, op: Op, k: nat)
    requires IsTopo(ops0, ids) && k < |ids| && ids[k] == p
    ensures forall l :: 0 <= l < k ==> Schedulable(ops0[p := op], ids[l])
  {
    var ops, o := ops0[p := op], ids[..k];
    forall i | 0 <= i < |o| ensures DepsIn(ops, o[i], o[..i]) {
      assert DepsIn(ops0, ids[i], ids[..i]) && o[..i] == ids[..i];
    }
    forall l | 0 <= l < k ensures Schedulable(ops, ids[l]) {
      assert o[l] in o;
    }
  }

  lemma AllSchedulable(ops0: Ops, ids: seq<Id>, p: Id, op: Op)
    requires IsTopo(ops0, ids) && Schedulable(ops0[p := op], p)
    ensures forall x :: x in ids ==> Schedulable(ops0[p := op], x)
  {
    var ops := ops0[p := op];
    var first :| DepsFirst(ops, first) && p in first;
    var i :| 0 <= i < |first| && first[i] == p;
    assert DepsIn(ops, first[i], first[..i]);
    var o := first + ids;
    forall j | 0 <= j < |o| ensures DepsIn(ops, o[j], o[..j]) {
      if j < |first| {
        assert o[..j] == first[..j] && DepsIn(ops, first[j], first[..j]);
      } else {
        assert o[..j] == first + ids[..j - |first|];
        assert DepsIn(ops0, ids[j - |first|], ids[..j - |first|]);
      }
    }
    assert forall x :: x in ids ==> x in o;
  }

  // ----- a reported edge that lies on no cycle -----

  /** An operation below a two-operation cycle, inserted before it. */
  function BelowACycle(f: seq<Option<Value>> -> Outcome): Ops {
    map[0 := Op("below", [1], None, f), 1 := Op("a", [2], None, f), 2 := Op("b", [1], None, f)]
  }

  /** Its map cannot be built by `add`; two operations have to be replaced afterwards. */
  lemma EdgeOffCycle(f: seq<Option<Value>> -> Outcome)
    ensures Cyclic(BelowACycle(f)) && !Dangling(BelowACycle(f))
    ensures Reports(BelowACycle(f), [0, 1, 2], CycleEdge(1, 0)) && !Leads(BelowACycle(f), 0, 1)
  {
    var ops := BelowACycle(f);
    var cycle := [1, 2, 1];
    assert IsWalk(ops, cycle) && cycle[0] == cycle[|cycle| - 1];
    assert WalkTo(ops, cycle, 1, 1);
    SelfBelow(ops, 1);
    assert ops[0].deps[0] == 1 && Edge(ops, 1, 0);
    BelowStep(ops, 1, 0);
    UnschedulableIffBelow(ops, 0);
    UnschedulableIffBelow(ops, 1);
    FirstFound(ops, [0, 1, 2], 0);
    FirstFound(ops, ops[0].deps, 0);
    assert forall x :: x in ops ==> !Edge(ops, 0, x);
    forall w | WalkTo(ops, w, 0, 1) ensures false {
      EndEdges(ops, w);
    }
  }

  /** The sort of a plan that holds this graph reports the edge that is on no cycle. */
  method SortBelowACycle(f: seq<Option<Value>> -> Outcome) returns (r: Result<seq<Id>, CycleEdge>)
    ensures r == Err(CycleEdge(1, 0)) && !Leads(BelowACycle(f), 0, 1)
  {
    var plan := new Plan();
    plan.ops, plan.ids := BelowACycle(f), [0, 1, 2];
    EdgeOffCycle(f);
    r := plan.Toposort();
    FirstIsUnique(plan.ops, plan.ids, 0, r.error.to);
    FirstIsUnique(plan.ops, plan.ops[0].deps, 1, r.error.from);
  }
}
