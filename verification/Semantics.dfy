/** What a plan means, independently of any scheduler: evaluate the operations one
    by one in a topological order. */
module Semantics {
  import opened Common
  import opened Plans

  datatype Status = Succeeded(value: Value) | Errored(message: string) | Skipped

  ghost function OfOutcome(o: Outcome): Status {
    match o
    case Success(v) => Succeeded(v)
    case Failure(message) => Errored(message)
  }

  ghost predicate DepsSucceeded(deps: seq<Id>, m: map<Id, Status>) {
    forall d :: d in deps ==> d in m && m[d].Succeeded?
  }

  ghost function DepValues(deps: seq<Id>, m: map<Id, Status>): seq<Option<Value>> {
    seq(|deps|, i requires 0 <= i < |deps| =>
      if deps[i] in m && m[deps[i]].Succeeded? then Some(m[deps[i]].value) else None)
  }

  /** An operation runs iff all its dependencies succeeded, on their values. */
  ghost function StatusOf(op: Op, m: map<Id, Status>): Status {
    if DepsSucceeded(op.deps, m) then OfOutcome(op.fn(DepValues(op.deps, m))) else Skipped
  }

  ghost function Sequential(ops: Ops, order: seq<Id>): map<Id, Status>
    requires forall x :: x in order ==> x in ops
  {
    if order == [] then map[]
    else
      var m := Sequential(ops, Front(order));
      var x := order[|order| - 1];
      m[x := StatusOf(ops[x], m)]
  }

  /** Every operation has the status its dependencies give it. */
  ghost predicate IsSemantics(ops: Ops, m: map<Id, Status>) {
    m.Keys == ops.Keys && forall x :: x in ops ==> m[x] == StatusOf(ops[x], m)
  }

  lemma StatusFrame(op: Op, m: map<Id, Status>, m': map<Id, Status>)
    requires forall d :: d in op.deps ==> d in m && d in m' && m[d] == m'[d]
    ensures StatusOf(op, m) == StatusOf(op, m')
  {
    assert DepValues(op.deps, m) == DepValues(op.deps, m') by {
      forall i | 0 <= i < |op.deps| ensures DepValues(op.deps, m)[i] == DepValues(op.deps, m')[i] {
        var d := op.deps[i];
        assert d in op.deps;
      }
    }
  }

  lemma {:induction false} SequentialPrefix(ops: Ops, order: seq<Id>)
    requires NoDup(order) && DepsFirst(ops, order)
    ensures forall x :: x in order ==> x in ops
    ensures var m := Sequential(ops, order);
            m.Keys == Elems(order) && forall x :: x in order ==> m[x] == StatusOf(ops[x], m)
  {
    if order != [] {
      var front, last := Front(order), order[|order| - 1];
      forall i | 0 <= i < |front| ensures DepsIn(ops, front[i], front[..i]) {
        assert front[..i] == order[..i];
        assert DepsIn(ops, order[i], order[..i]);
      }
      SequentialPrefix(ops, front);
      assert DepsIn(ops, order[|front|], order[..|front|]);
      forall x ensures x in order <==> x == last || x in front {
        InSplit(order, x);
      }
      var m, m' := Sequential(ops, front), Sequential(ops, order);
      assert last !in front;
      forall x | x in order ensures m'[x] == StatusOf(ops[x], m') {
        OrderedIsDone(ops, if x == last then order else front, x);
        if x == last {
          StatusFrame(ops[x], m, m');
        } else {
          MissingZero(ops[x].deps, Elems(front));
          StatusFrame(ops[x], m, m');
        }
      }
    }
  }

  /** Evaluating in a topological order gives every operation its meaning ... */
  lemma SequentialIsSemantics(ops: Ops, order: seq<Id>)
    requires IsTopo(ops, order)
    ensures forall x :: x in order ==> x in ops
    ensures IsSemantics(ops, Sequential(ops, order))
  {
    SequentialPrefix(ops, order);
    assert forall x :: x in ops <==> x in Elems(order);
    assert Elems(order) == ops.Keys;
  }

  lemma {:induction false} SemanticsAgreeOn(ops: Ops, order: seq<Id>, m: map<Id, Status>, m': map<Id, Status>)
    requires DepsFirst(ops, order) && IsSemantics(ops, m) && IsSemantics(ops, m')
    ensures forall x :: x in order ==> x in m && x in m' && m[x] == m'[x]
  {
    if order != [] {
      var front, last := Front(order), order[|order| - 1];
      forall i | 0 <= i < |front| ensures DepsIn(ops, front[i], front[..i]) {
        assert front[..i] == order[..i];
        assert DepsIn(ops, order[i], order[..i]);
      }
      SemanticsAgreeOn(ops, front, m, m');
      assert DepsIn(ops, order[|front|], order[..|front|]);
      StatusFrame(ops[last], m, m');
      forall x | x in order ensures x in m && x in m' && m[x] == m'[x] {
        InSplit(order, x);
      }
    }
  }

  /** ... and there is only one such meaning, whatever topological order is used. */
  lemma SemanticsUnique(ops: Ops, order: seq<Id>, m: map<Id, Status>, m': map<Id, Status>)
    requires IsTopo(ops, order) && IsSemantics(ops, m) && IsSemantics(ops, m')
    ensures m == m'
  {
    SemanticsAgreeOn(ops, order, m, m');
    assert forall x :: x in m <==> x in order;
    assert forall x :: x in m' <==> x in order;
  }
}
