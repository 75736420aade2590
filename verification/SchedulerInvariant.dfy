/** The invariant of every reachable scheduler state, kept by each atomic step. */
module SchedulerInvariant {
  import opened Common
  import opened Plans
  import opened Semantics
  import opened Scheduler

  ghost predicate ValidConfig(c: Config, order: seq<Id>) {
    && IsTopo(c.ops, order)
    && Adjacent(c.ops, c.dependents)
    && c.globalCap >= 1
    && forall t :: t in c.tagCaps ==> c.tagCaps[t] >= 1
  }

  lemma ValidConfigClosed(c: Config, order: seq<Id>)
    requires ValidConfig(c, order)
    ensures Closed(c)
  {
    forall d, x | d in c.dependents && x in c.dependents[d] ensures x in c.ops {
      assert x in Get(c.dependents, d);
    }
  }

  // ----- counters and sets -----

  ghost predicate Idle(s: State, x: Id) {
    x !in s.results && x !in s.failed && x !in s.running
  }

  /** Every operation is in at most one of: ready, running, succeeded, failed; its
      counter is the number of dependency occurrences that have not succeeded, and it
      is ready exactly when that number is zero and it has not started. */
  ghost predicate Shape(c: Config, s: State) {
    && s.pending.Keys == c.ops.Keys
    && s.results.Keys <= c.ops.Keys && s.failed <= c.ops.Keys && s.running.Keys <= c.ops.Keys
    && s.reason.Keys <= s.failed
    && (forall x :: x in s.reason ==> s.reason[x] == x)
    && s.results.Keys !! s.failed && s.running.Keys !! s.results.Keys && s.running.Keys !! s.failed
    && NoDup(s.ready)
    && (forall x :: x in c.ops ==> s.pending[x] == Missing(c.ops[x].deps, s.results.Keys))
    && (forall x :: x in s.ready <==> x in c.ops && s.pending[x] == 0 && Idle(s, x))
    && (forall x :: x in s.results || x in s.running || x in s.reason ==> x in c.ops && s.pending[x] == 0)
  }

  ghost predicate HasFailedDep(ops: Ops, failed: set<Id>, x: Id) {
    x in ops && exists d :: d in ops[x].deps && d in failed
  }

  /** `failed` is closed under dependents, except for those still on the stack, and
      an operation in it that did not run has a failed dependency. */
  ghost predicate Failures(c: Config, s: State, stack: seq<Id>) {
    && (forall x, y :: x in s.failed && Edge(c.ops, x, y) ==> y in s.failed || y in stack)
    && (forall x {:trigger HasFailedDep(c.ops, s.failed, x)} ::
          x in s.failed && x !in s.reason ==> HasFailedDep(c.ops, s.failed, x))
  }

  /** What has been decided so far agrees with the sequential meaning. */
  ghost predicate Agrees(m: map<Id, Status>, s: State) {
    && (forall x :: x in s.results ==> x in m && m[x] == Succeeded(s.results[x]))
    && (forall x :: x in s.running ==> x in m && m[x] == OfOutcome(s.running[x]))
    && (forall x :: x in s.reason ==> x in m && m[x].Errored?)
    && (forall x :: x in s.failed && x !in s.reason ==> x in m && m[x] == Skipped)
  }

  ghost function Tagged(c: Config, running: set<Id>, t: string): set<Id> {
    set x | x in running && x in c.ops && c.ops[x].tag == Some(t)
  }

  ghost function Unended(c: Config, s: State): set<Id> {
    c.ops.Keys - (s.results.Keys + s.failed)
  }

  /** In-flight counters are exact and within their caps. */
  ghost predicate Counters(c: Config, s: State) {
    && s.pendingCount == |Unended(c, s)|
    && s.globalInFlight == |s.running.Keys| <= c.globalCap
    && (forall t :: Count(s.tagInFlight, t) == |Tagged(c, s.running.Keys, t)|)
    && (forall t :: t in c.tagCaps ==> Count(s.tagInFlight, t) <= c.tagCaps[t])
  }

  // ----- the lineage log -----

  ghost function Starts(log: seq<Entry>, x: Id): nat {
    if log == [] then 0
    else Starts(Front(log), x) + (if log[|log| - 1] == Start(x) then 1 else 0)
  }

  predicate IsEnd(e: Entry, x: Id) {
    !e.Start? && e.op == x
  }

  /** End entries of x: one of a completed run, or a synthetic skip. */
  ghost function Ends(log: seq<Entry>, x: Id): nat {
    if log == [] then 0
    else Ends(Front(log), x) + (if IsEnd(log[|log| - 1], x) then 1 else 0)
  }

  /** x is a transitive dependent of o. */
  ghost predicate DependsOn(ops: Ops, o: Id, x: Id) {
    exists w :: |w| >= 2 && IsWalk(ops, w) && w[0] == o && w[|w| - 1] == x
  }

  ghost predicate FailedIn(log: seq<Entry>, o: Id) {
    exists message :: End(o, Some(message)) in log
  }

  /** What must have been logged before an entry. */
  ghost predicate EntryOk(ops: Ops, before: seq<Entry>, e: Entry) {
    match e
    case Start(x) => x in ops && forall d :: d in ops[x].deps ==> End(d, None) in before
    case End(x, _) => Start(x) in before
    case Skip(x, o) => DependsOn(ops, o, x) && FailedIn(before, o)
  }

  ghost predicate LogOk(ops: Ops, log: seq<Entry>) {
    log == [] || (LogOk(ops, Front(log)) && EntryOk(ops, Front(log), log[|log| - 1]))
  }

  /** One end entry per ended operation, one start entry per operation that ran. */
  ghost predicate Recorded(c: Config, s: State) {
    && LogOk(c.ops, s.log)
    && (forall x :: Ends(s.log, x) == if x in s.results || x in s.failed then 1 else 0)
    && (forall x :: Starts(s.log, x) == if x in s.results || x in s.running || x in s.reason then 1 else 0)
  }

  /** The entries that say how each operation ended. */
  ghost predicate Witnessed(m: map<Id, Status>, s: State) {
    && (forall x :: x in s.results ==> End(x, None) in s.log)
    && (forall x :: x in s.running ==> Start(x) in s.log)
    && (forall x :: x in s.reason ==> x in m && m[x].Errored? && End(x, Some(m[x].message)) in s.log)
    && (forall x :: x in s.failed && x !in s.reason ==> exists o :: Skip(x, o) in s.log)
  }

  /** The log says exactly what the state says. */
  ghost predicate Logged(c: Config, m: map<Id, Status>, s: State) {
    Recorded(c, s) && Witnessed(m, s)
  }

  ghost predicate Ended(log: seq<Entry>, x: Id) {
    exists message :: End(x, message) in log
  }

  /** Operations that the log shows as started and not ended. */
  ghost function Active(log: seq<Entry>): set<Id> {
    set e | e in log && e.Start? && !Ended(log, e.op) :: e.op
  }

  ghost predicate WithinCaps(c: Config, running: set<Id>) {
    && |running| <= c.globalCap
    && forall t :: t in c.tagCaps ==> |Tagged(c, running, t)| <= c.tagCaps[t]
  }

  /** At no point of the log are more operations active than the caps allow. */
  ghost predicate Capped(c: Config, log: seq<Entry>) {
    forall k :: 0 <= k <= |log| ==> WithinCaps(c, Active(log[..k]))
  }

  /** The log tells which operations are running, and they never exceeded the caps. */
  ghost predicate Metered(c: Config, s: State) {
    Active(s.log) == s.running.Keys && Capped(c, s.log)
  }

  ghost predicate Inv(c: Config, m: map<Id, Status>, s: State, stack: seq<Id>) {
    && IsSemantics(c.ops, m)
    && Shape(c, s) && Failures(c, s, stack) && Agrees(m, s) && Counters(c, s) && Logged(c, m, s)
    && Metered(c, s)
  }

  lemma ActiveAppend(log: seq<Entry>, e: Entry)
    requires e.Start? ==> !Ended(log, e.op)
    ensures Active(log + [e]) ==
            match e
            case Start(x) => Active(log) + {x}
            case End(x, _) => Active(log) - {x}
            case Skip(_, _) => Active(log)
  {
    var log' := log + [e];
    assert e in log' && forall f :: f in log' <==> f in log || f == e;
    forall x ensures Ended(log', x) <==> Ended(log, x) || (e.End? && e.op == x) {
      if Ended(log, x) {
        var message :| End(x, message) in log;
        assert End(x, message) in log';
      }
    }
    forall x ensures x in Active(log) <==> Start(x) in log && !Ended(log, x) {}
    forall x ensures x in Active(log') <==> Start(x) in log' && !Ended(log', x) {}
  }

  lemma CappedAppend(c: Config, log: seq<Entry>, e: Entry)
    requires Capped(c, log) && WithinCaps(c, Active(log + [e]))
    ensures Capped(c, log + [e])
  {
    var log' := log + [e];
    forall k | 0 <= k <= |log'| ensures WithinCaps(c, Active(log'[..k])) {
      if k <= |log| {
        assert log'[..k] == log[..k];
      } else {
        assert log'[..k] == log';
      }
    }
  }

  lemma CountersWithinCaps(c: Config, s: State)
    requires Counters(c, s)
    ensures WithinCaps(c, s.running.Keys)
  {
  }

  /** What starts has not ended, what ends was active, and a skip changes nothing. */
  lemma MeterAppend(c: Config, s: State, s': State, e: Entry)
    requires Metered(c, s) && s'.log == s.log + [e] && WithinCaps(c, s'.running.Keys)
    requires e.Start? ==> !Ended(s.log, e.op)
    requires s'.running.Keys ==
             match e
             case Start(x) => s.running.Keys + {x}
             case End(x, _) => s.running.Keys - {x}
             case Skip(_, _) => s.running.Keys
    ensures Metered(c, s')
  {
    hide WithinCaps, Active, Ended;
    ActiveAppend(s.log, e);
    CappedAppend(c, s.log, e);
  }

  lemma {:induction false} NotEnded(log: seq<Entry>, x: Id)
    requires Ends(log, x) == 0
    ensures !Ended(log, x)
  {
    if log != [] {
      NotEnded(Front(log), x);
      forall message ensures End(x, message) !in log {
        InSplit(log, End(x, message));
      }
    }
  }

  lemma LogAppend(ops: Ops, log: seq<Entry>, e: Entry)
    requires LogOk(ops, log) && EntryOk(ops, log, e)
    ensures LogOk(ops, log + [e])
    ensures forall x :: Ends(log + [e], x) == Ends(log, x) + (if IsEnd(e, x) then 1 else 0)
    ensures forall x :: Starts(log + [e], x) == Starts(log, x) + (if e == Start(x) then 1 else 0)
    ensures forall f :: f in log + [e] <==> f in log || f == e
  {
    assert Front(log + [e]) == log;
  }

  lemma {:induction false} EntryOkAt(ops: Ops, log: seq<Entry>, i: nat)
    requires LogOk(ops, log) && i < |log|
    ensures EntryOk(ops, log[..i], log[i])
  {
    if i == |log| - 1 {
      assert Front(log) == log[..i];
    } else {
      EntryOkAt(ops, Front(log), i);
      assert Front(log)[..i] == log[..i];
    }
  }

  // ----- dispatching -----

  lemma RemoveAtSpec(s: seq<Id>, i: nat)
    requires NoDup(s) && i < |s|
    ensures NoDup(RemoveAt(s, i))
    ensures forall x :: x in RemoveAt(s, i) <==> x in s && x != s[i]
  {
    var r := RemoveAt(s, i);
    forall x | x in s && x != s[i] ensures x in r {
      var k :| 0 <= k < |s| && s[k] == x;
      assert k < i ==> r[k] == x;
      assert k > i ==> r[k - 1] == x;
    }
  }

  /** A ready operation has only succeeded dependencies: the guard in `runOp` and
      the one on failed ready operations never fire. */
  lemma ReadyDepsSucceeded(c: Config, s: State, x: Id)
    requires Shape(c, s) && x in c.ops && s.pending[x] == 0
    ensures forall d :: d in c.ops[x].deps ==> d in s.results
    ensures FirstFailed(c.ops[x].deps, s.failed).None?
  {
    MissingZero(c.ops[x].deps, s.results.Keys);
  }

  lemma OutcomeAgrees(c: Config, m: map<Id, Status>, s: State, x: Id)
    requires IsSemantics(c.ops, m) && Agrees(m, s) && x in c.ops
    requires forall d :: d in c.ops[x].deps ==> d in s.results
    ensures m[x] == OfOutcome(c.ops[x].fn(DepResults(c.ops[x].deps, s.results)))
  {
    var deps := c.ops[x].deps;
    assert DepResults(deps, s.results) == DepValues(deps, m) by {
      forall i | 0 <= i < |deps| ensures DepResults(deps, s.results)[i] == DepValues(deps, m)[i] {
        var d := deps[i];
        assert d in deps;
      }
    }
  }

  lemma TaggedAdd(c: Config, running: set<Id>, id: Id, t: string)
    requires id in c.ops && id !in running
    ensures |Tagged(c, running + {id}, t)| == |Tagged(c, running, t)| + (if c.ops[id].tag == Some(t) then 1 else 0)
  {
    var before, after := Tagged(c, running, t), Tagged(c, running + {id}, t);
    if c.ops[id].tag == Some(t) {
      assert after == before + {id};
    } else {
      assert after == before;
    }
  }

  lemma StartCounters(c: Config, s: State, s': State, id: Id)
    requires Counters(c, s) && id in c.ops && id !in s.running && CanDispatch(c, s, id)
    requires s'.running.Keys == s.running.Keys + {id}
    requires s'.globalInFlight == TakeSlot(c, s, id).globalInFlight
    requires s'.tagInFlight == TakeSlot(c, s, id).tagInFlight
    requires s'.pendingCount == s.pendingCount && s'.results == s.results && s'.failed == s.failed
    ensures Counters(c, s')
  {
    hide Tagged;
    forall t ensures Count(s'.tagInFlight, t) == |Tagged(c, s'.running.Keys, t)| {
      TaggedAdd(c, s.running.Keys, id, t);
    }
  }

  lemma StartLogged(c: Config, m: map<Id, Status>, s: State, s': State, id: Id)
    requires Logged(c, m, s) && id in c.ops && Idle(s, id)
    requires forall d :: d in c.ops[id].deps ==> d in s.results
    requires s.reason.Keys <= s.failed
    requires s'.log == s.log + [Start(id)] && s'.running.Keys == s.running.Keys + {id}
    requires s'.results == s.results && s'.failed == s.failed && s'.reason == s.reason
    ensures Logged(c, m, s')
  {
    LogAppend(c.ops, s.log, Start(id));
    forall x | x in s'.failed && x !in s'.reason ensures exists o :: Skip(x, o) in s'.log {
      var o :| Skip(x, o) in s.log;
      assert Skip(x, o) in s'.log;
    }
  }

  /** The start of an operation whose dependencies all succeeded. */
  ghost predicate Started(c: Config, s: State, s': State, id: Id)
    requires id in c.ops
  {
    && s' == TakeSlot(c, s, id).(log := s.log + [Start(id)], running := s'.running, ready := s'.ready)
    && s'.running == s.running[id := c.ops[id].fn(DepResults(c.ops[id].deps, s.results))]
    && s'.running.Keys == s.running.Keys + {id}
    && NoDup(s'.ready)
    && (forall x :: x in s'.ready <==> x in s.ready && x != id)
  }

  lemma BeginStarts(c: Config, s: State, i: nat)
    requires Closed(c) && Shape(c, s) && i < |s.ready|
    ensures s.ready[i] in c.ops && WellFormed(c, s.(ready := RemoveAt(s.ready, i)))
    ensures Started(c, s, Begin(c, s.(ready := RemoveAt(s.ready, i)), s.ready[i]), s.ready[i])
    ensures Idle(s, s.ready[i]) && forall d :: d in c.ops[s.ready[i]].deps ==> d in s.results
  {
    var id := s.ready[i];
    assert id in s.ready;
    RemoveAtSpec(s.ready, i);
    ReadyDepsSucceeded(c, s, id);
  }

  /** Starting a dispatchable ready operation keeps the invariant. */
  lemma StartInv(c: Config, m: map<Id, Status>, s: State, s': State, id: Id)
    requires Inv(c, m, s, []) && id in s.ready && id in c.ops
    requires CanDispatch(c, s, id) && Idle(s, id) && Started(c, s, s', id)
    requires forall d :: d in c.ops[id].deps ==> d in s.results
    ensures Inv(c, m, s', [])
  {
    assert Ends(s.log, id) == 0;
    hide Metered, IsSemantics, CanDispatch, Counters, Logged, Agrees;
    StartAgrees(c, m, s, s', id);
    StartCounters(c, s, s', id);
    StartLogged(c, m, s, s', id);
    BeginShape(c, s, s', id);
    StartMetered(c, s, s', id);
  }

  lemma StartAgrees(c: Config, m: map<Id, Status>, s: State, s': State, id: Id)
    requires IsSemantics(c.ops, m) && Agrees(m, s) && id in c.ops && Started(c, s, s', id)
    requires forall d :: d in c.ops[id].deps ==> d in s.results
    ensures Agrees(m, s')
  {
    OutcomeAgrees(c, m, s, id);
  }

  lemma StartMetered(c: Config, s: State, s': State, id: Id)
    requires Metered(c, s) && Counters(c, s') && Ends(s.log, id) == 0
    requires s'.log == s.log + [Start(id)] && s'.running.Keys == s.running.Keys + {id}
    ensures Metered(c, s')
  {
    NotEnded(s.log, id);
    CountersWithinCaps(c, s');
    MeterAppend(c, s, s', Start(id));
  }

  lemma EndMetered(c: Config, s: State, s': State, id: Id, message: Option<string>)
    requires Metered(c, s) && Counters(c, s') && s'.log == s.log + [End(id, message)]
    requires s'.running == s.running - {id}
    ensures Metered(c, s')
  {
    assert s'.running.Keys == s.running.Keys - {id};
    CountersWithinCaps(c, s');
    MeterAppend(c, s, s', End(id, message));
  }

  lemma BeginShape(c: Config, s: State, s': State, id: Id)
    requires Shape(c, s) && Failures(c, s, []) && id in s.ready
    requires forall x :: x in s'.ready <==> x in s.ready && x != id
    requires NoDup(s'.ready)
    requires s'.running.Keys == s.running.Keys + {id}
    requires s'.results == s.results && s'.failed == s.failed && s'.reason == s.reason && s'.pending == s.pending
    ensures Shape(c, s') && Failures(c, s', [])
  {
  }

  // ----- settling -----

  lemma RunningInPlan(c: Config, s: State, id: Id)
    requires Shape(c, s) && id in s.running
    ensures id in c.ops && Idle(s.(running := map[]), id)
  {
  }

  lemma EndPending(all: set<Id>, ended: set<Id>, ended': set<Id>, id: Id)
    requires id in all && id !in ended && ended' == ended + {id}
    ensures |all - ended'| == |all - ended| - 1
  {
    assert all - ended' == all - ended - {id};
  }

  lemma EndCounters(c: Config, s: State, s': State, id: Id)
    requires Counters(c, s) && id in s.running && Idle(s.(running := map[]), id) && id in c.ops
    requires s'.running.Keys == s.running.Keys - {id}
    requires s'.globalInFlight == FreeSlot(c, s, id).globalInFlight
    requires s'.tagInFlight == FreeSlot(c, s, id).tagInFlight
    requires s'.pendingCount == s.pendingCount - 1
    requires s'.results.Keys + s'.failed == s.results.Keys + s.failed + {id}
    ensures Counters(c, s')
  {
    EndPending(c.ops.Keys, s.results.Keys + s.failed, s'.results.Keys + s'.failed, id);
    RemoveCard(s.running.Keys, id);
    hide Tagged, Idle;
    forall t
      ensures Count(s'.tagInFlight, t) == |Tagged(c, s'.running.Keys, t)| <= Count(s.tagInFlight, t)
    {
      EndTag(c, s, s', id, t);
    }
  }

  lemma EndTag(c: Config, s: State, s': State, id: Id, t: string)
    requires id in c.ops && id in s.running && s'.running.Keys == s.running.Keys - {id}
    requires s'.tagInFlight == FreeSlot(c, s, id).tagInFlight
    requires Count(s.tagInFlight, t) == |Tagged(c, s.running.Keys, t)|
    ensures Count(s'.tagInFlight, t) == |Tagged(c, s'.running.Keys, t)| <= Count(s.tagInFlight, t)
  {
    assert s.running.Keys == s'.running.Keys + {id};
    TaggedAdd(c, s'.running.Keys, id, t);
  }

  /** The two ways in which `id`, which was running, ends with entry e. */
  ghost predicate EndsWith(m: map<Id, Status>, s: State, s': State, id: Id, e: Entry) {
    && id in m && s'.log == s.log + [e] && s'.running == s.running - {id}
    && (|| (m[id].Succeeded? && e == End(id, None) && s'.results.Keys == s.results.Keys + {id} &&
            s'.failed == s.failed && s'.reason == s.reason)
        || (m[id].Errored? && e == End(id, Some(m[id].message)) && s'.results == s.results &&
            s'.failed == s.failed + {id} && s'.reason.Keys == s.reason.Keys + {id}))
  }

  lemma EndRecorded(c: Config, m: map<Id, Status>, s: State, s': State, id: Id, e: Entry)
    requires Recorded(c, s) && Start(id) in s.log && EndsWith(m, s, s', id, e)
    requires id in s.running && id !in s.results && id !in s.failed
    ensures Recorded(c, s')
  {
    LogAppend(c.ops, s.log, e);
    hide LogOk, EntryOk, Ends, Starts;
  }

  lemma EndWitnessed(m: map<Id, Status>, s: State, s': State, id: Id, e: Entry)
    requires Witnessed(m, s) && EndsWith(m, s, s', id, e)
    requires forall x :: x in s'.failed && x !in s'.reason <==> x in s.failed && x !in s.reason
    ensures Witnessed(m, s')
  {
    assert forall f :: f in s'.log <==> f in s.log || f == e;
    forall x | x in s'.failed && x !in s'.reason ensures exists o :: Skip(x, o) in s'.log {
      assert x in s.failed && x !in s.reason;
      var o :| Skip(x, o) in s.log;
      assert Skip(x, o) in s'.log;
    }
  }

  /** The log part when `id`, which was running, ends with entry e. */
  lemma EndLogged(c: Config, m: map<Id, Status>, s: State, s': State, id: Id, e: Entry)
    requires Shape(c, s) && Logged(c, m, s) && id in s.running && EndsWith(m, s, s', id, e)
    requires forall x :: x in s'.failed && x !in s'.reason <==> x in s.failed && x !in s.reason
    ensures Logged(c, m, s')
  {
    assert Start(id) in s.log && id !in s.results && id !in s.failed;
    hide Shape, Recorded, Witnessed, EndsWith;
    EndRecorded(c, m, s, s', id, e);
    EndWitnessed(m, s, s', id, e);
  }

  lemma OkCounts(c: Config, s: State, id: Id)
    requires Adjacent(c.ops, c.dependents) && Shape(c, s) && id in s.running
    ensures forall x :: x in c.ops ==>
              Missing(c.ops[x].deps, s.results.Keys + {id}) == s.pending[x] - multiset(Get(c.dependents, id))[x]
    ensures forall x :: x in c.ops && s.pending[x] == 0 ==> x !in Get(c.dependents, id)
  {
    var children := Get(c.dependents, id);
    forall x | x in c.ops
      ensures Missing(c.ops[x].deps, s.results.Keys + {id}) == s.pending[x] - multiset(children)[x]
    {
      MissingAdd(c.ops[x].deps, s.results.Keys, id);
    }
    forall x | x in c.ops && s.pending[x] == 0 ensures x !in children {
      assert multiset(children)[x] == 0;
    }
  }

  /** Counter arithmetic of a success: exactly the dependents whose last missing
      dependency this was become ready. */
  lemma OkShape(c: Config, s: State, s': State, id: Id)
    requires Adjacent(c.ops, c.dependents) && Closed(c) && Shape(c, s) && id in s.running
    requires forall x :: x in Get(c.dependents, id) ==> x in s.pending
    requires (s'.pending, s'.ready) == Release(Get(c.dependents, id), s.pending, s.ready, s.failed)
    requires s'.results.Keys == s.results.Keys + {id} && s'.running == s.running - {id}
    requires s'.failed == s.failed && s'.reason == s.reason
    ensures Shape(c, s')
  {
    hide Adjacent, Closed, Release, Missing;
    OkCounts(c, s, id);
    ReleaseSpec(Get(c.dependents, id), s.pending, s.ready, s.failed);
    hide NoDup;
    forall x ensures x in s'.ready <==> x in c.ops && s'.pending[x] == 0 && Idle(s', x) {
      OkReady(c, s, s', id, x);
    }
  }

  /** One operation of the queue after a success. */
  lemma OkReady(c: Config, s: State, s': State, id: Id, x: Id)
    requires s.pending.Keys == c.ops.Keys && s'.pending.Keys == c.ops.Keys && id in s.running
    requires var children := Get(c.dependents, id);
             && (x in children ==> x in c.ops)
             && (x in s.ready <==> x in c.ops && s.pending[x] == 0 && Idle(s, x))
             && (x in c.ops && s.pending[x] == 0 ==> x !in children)
             && (x in s'.ready <==>
                   x in s.ready || (x in children && s.pending[x] == multiset(children)[x] && x !in s.failed))
             && (x in c.ops ==> s'.pending[x] == s.pending[x] - multiset(children)[x])
    requires id in c.ops && s.pending[id] == 0 && id !in s.results && id !in s.failed
    requires forall y :: y in s.results || y in s.running ==> y in c.ops && s.pending[y] == 0
    requires s'.results.Keys == s.results.Keys + {id} && s'.running == s.running - {id} && s'.failed == s.failed
    ensures x in s'.ready <==> x in c.ops && s'.pending[x] == 0 && Idle(s', x)
  {
    assert multiset(Get(c.dependents, id))[x] > 0 <==> x in Get(c.dependents, id);
  }

  /** The state between the catch clause and the cascade: the failed operation has
      ended and its direct dependents are on the stack. */
  ghost function Caught(c: Config, s: State, id: Id, message: string): State
    requires id in c.ops
  {
    FreeSlot(c, s, id).(failed := s.failed + {id}, reason := s.reason[id := id],
                        log := s.log + [End(id, Some(message))], pendingCount := s.pendingCount - 1)
  }

  lemma CaughtFailures(c: Config, s: State, id: Id, message: string)
    requires Adjacent(c.ops, c.dependents) && Failures(c, s, []) && id in c.ops
    ensures Failures(c, Caught(c, s, id, message), Get(c.dependents, id))
  {
    var s', stack := Caught(c, s, id, message), Get(c.dependents, id);
    forall x, y | x in s'.failed && Edge(c.ops, x, y) ensures y in s'.failed || y in stack {
      AdjacentEdge(c.ops, c.dependents, id, y);
    }
    forall x | x in s'.failed && x !in s'.reason ensures HasFailedDep(c.ops, s'.failed, x) {
      assert HasFailedDep(c.ops, s.failed, x);
    }
  }

  lemma CaughtShape(c: Config, m: map<Id, Status>, s: State, id: Id, message: string)
    requires Shape(c, s) && Agrees(m, s) && id in s.running && id in c.ops && s.running[id] == Failure(message)
    ensures var s' := Caught(c, s, id, message);
            && Shape(c, s') && Agrees(m, s')
            && s'.results.Keys + s'.failed == s.results.Keys + s.failed + {id}
            && id in m && m[id] == Errored(message)
            && (forall x :: x in s'.failed && x !in s'.reason <==> x in s.failed && x !in s.reason)
  {
    var s' := Caught(c, s, id, message);
    assert s'.results.Keys + s'.failed == s.results.Keys + s.failed + {id};
  }

  lemma CaughtInv(c: Config, m: map<Id, Status>, s: State, id: Id, message: string)
    requires Adjacent(c.ops, c.dependents) && Inv(c, m, s, [])
    requires id in s.running && id in c.ops && s.running[id] == Failure(message)
    ensures Inv(c, m, Caught(c, s, id, message), Get(c.dependents, id))
  {
    hide Shape, Counters, Agrees, Failures, Logged, Adjacent, Metered;
    var s' := Caught(c, s, id, message);
    RunningInPlan(c, s, id);
    CaughtShape(c, m, s, id, message);
    EndCounters(c, s, s', id);
    EndMetered(c, s, s', id, Some(message));
    EndLogged(c, m, s, s', id, End(id, Some(message)));
    CaughtFailures(c, s, id, message);
  }

  lemma OkAgrees(c: Config, m: map<Id, Status>, s: State, s': State, id: Id)
    requires Agrees(m, s) && Failures(c, s, []) && id in s.running && s.running[id].Success?
    requires s'.results == s.results[id := s.running[id].value] && s'.running == s.running - {id}
    requires s'.failed == s.failed && s'.reason == s.reason
    ensures Agrees(m, s') && Failures(c, s', [])
    ensures id in m && m[id] == Succeeded(s.running[id].value)
  {
  }

  /** The effect of a success on every variable. */
  ghost predicate Succeeds(c: Config, s: State, s': State, id: Id, v: Value)
    requires id in c.ops
  {
    && s'.results == s.results[id := v] && s'.failed == s.failed && s'.reason == s.reason
    && s'.results.Keys == s.results.Keys + {id}
    && s'.results.Keys + s'.failed == s.results.Keys + s.failed + {id}
    && (forall x :: x in Get(c.dependents, id) ==> x in s.pending)
    && (s'.pending, s'.ready) == Release(Get(c.dependents, id), s.pending, s.ready, s.failed)
    && s'.running == s.running - {id} && s'.running.Keys == s.running.Keys - {id}
    && s'.globalInFlight == FreeSlot(c, s, id).globalInFlight
    && s'.tagInFlight == FreeSlot(c, s, id).tagInFlight
    && s'.pendingCount == s.pendingCount - 1
    && s'.log == s.log + [End(id, None)]
  }

  lemma SettleSucceeds(c: Config, s: State, id: Id, v: Value)
    requires WellFormed(c, s) && id in s.running && s.running[id] == Success(v)
    ensures id in c.ops && Succeeds(c, s, Settle(c, s, id), id, v)
  {
    var s' := Settle(c, s, id);
    assert s'.results.Keys + s'.failed == s.results.Keys + s.failed + {id};
    assert s'.running.Keys == s.running.Keys - {id};
  }

  lemma OkInv(c: Config, m: map<Id, Status>, s: State, s': State, id: Id, v: Value)
    requires Closed(c) && Adjacent(c.ops, c.dependents) && Inv(c, m, s, [])
    requires id in s.running && id in c.ops && s.running[id] == Success(v)
    requires Succeeds(c, s, s', id, v)
    ensures Inv(c, m, s', [])
  {
    hide Shape, Counters, Agrees, Failures, Logged, Adjacent, Closed, Metered;
    RunningInPlan(c, s, id);
    OkShape(c, s, s', id);
    OkAgrees(c, m, s, s', id);
    EndCounters(c, s, s', id);
    EndMetered(c, s, s', id, None);
    EndLogged(c, m, s, s', id, End(id, None));
  }

  // ----- the cascade -----

  /** What the stack of a cascade holds: transitive dependents of the operation that
      failed, each with a dependency that already failed. */
  ghost predicate StackOk(c: Config, s: State, stack: seq<Id>, origin: Id) {
    && FailedIn(s.log, origin)
    && (forall y :: y in stack ==> y in c.ops)
    && (forall y :: y in stack ==> HasFailedDep(c.ops, s.failed, y) && DependsOn(c.ops, origin, y))
  }

  lemma DependsOnStep(ops: Ops, o: Id, x: Id, y: Id)
    requires o == x || DependsOn(ops, o, x)
    requires Edge(ops, x, y)
    ensures DependsOn(ops, o, y)
  {
    if DependsOn(ops, o, x) {
      var w :| |w| >= 2 && IsWalk(ops, w) && w[0] == o && w[|w| - 1] == x;
      var w' := w + [y];
      assert IsWalk(ops, w') && w'[0] == o && w'[|w'| - 1] == y;
    } else {
      var w' := [x, y];
      assert IsWalk(ops, w') && w'[0] == o && w'[|w'| - 1] == y;
    }
  }

  lemma SkipLogged(c: Config, m: map<Id, Status>, s: State, x: Id, origin: Id)
    requires Logged(c, m, s) && x !in s.failed && x !in s.results && x !in s.reason
    requires FailedIn(s.log, origin) && DependsOn(c.ops, origin, x)
    ensures Logged(c, m, SkipOne(s, x, origin)) && FailedIn(SkipOne(s, x, origin).log, origin)
  {
    var s' := SkipOne(s, x, origin);
    LogAppend(c.ops, s.log, Skip(x, origin));
    forall y | y in s'.failed && y !in s'.reason ensures exists o :: Skip(y, o) in s'.log {
      if y != x {
        var o :| Skip(y, o) in s.log;
        assert Skip(y, o) in s'.log;
      } else {
        assert Skip(x, origin) in s'.log;
      }
    }
    var message :| End(origin, Some(message)) in s.log;
    assert End(origin, Some(message)) in s'.log;
  }

  /** An operation with a failed dependency has neither started nor become ready. */
  lemma FailedDepIdle(c: Config, s: State, x: Id)
    requires Shape(c, s) && HasFailedDep(c.ops, s.failed, x)
    ensures s.pending[x] > 0 && x !in s.ready && x !in s.results && x !in s.running && x !in s.reason
  {
    MissingZero(c.ops[x].deps, s.results.Keys);
  }

  /** An operation with a failed dependency is skipped by the sequential evaluation too. */
  lemma SkipAgrees(c: Config, m: map<Id, Status>, s: State, x: Id)
    requires IsSemantics(c.ops, m) && Agrees(m, s) && HasFailedDep(c.ops, s.failed, x)
    ensures x in m && m[x] == Skipped
  {
    var d :| d in c.ops[x].deps && d in s.failed;
    assert !m[d].Succeeded?;
    assert !DepsSucceeded(c.ops[x].deps, m);
  }

  lemma SkipCounters(c: Config, s: State, x: Id, origin: Id)
    requires Counters(c, s) && x in c.ops && x !in s.failed && x !in s.results
    ensures Counters(c, SkipOne(s, x, origin))
  {
    var s' := SkipOne(s, x, origin);
    EndPending(c.ops.Keys, s.results.Keys + s.failed, s'.results.Keys + s'.failed, x);
  }

  lemma SkipShape(c: Config, m: map<Id, Status>, s: State, x: Id, origin: Id)
    requires Shape(c, s) && Agrees(m, s) && x !in s.failed && HasFailedDep(c.ops, s.failed, x)
    requires x in m && m[x] == Skipped
    ensures Shape(c, SkipOne(s, x, origin)) && Agrees(m, SkipOne(s, x, origin))
  {
    FailedDepIdle(c, s, x);
  }

  /** One pop that finds a new dependent. */
  lemma SkipInv(c: Config, m: map<Id, Status>, s: State, rest: seq<Id>, x: Id, origin: Id)
    requires Adjacent(c.ops, c.dependents) && x !in s.failed
    requires StackOk(c, s, rest + [x], origin) && Inv(c, m, s, rest + [x])
    ensures x in c.ops && StackOk(c, SkipOne(s, x, origin), rest + Get(c.dependents, x), origin)
    ensures Inv(c, m, SkipOne(s, x, origin), rest + Get(c.dependents, x))
  {
    assert x in rest + [x];
    hide Metered, IsSemantics;
    CountersWithinCaps(c, s);
    MeterAppend(c, s, SkipOne(s, x, origin), Skip(x, origin));
    FailedDepIdle(c, s, x);
    SkipAgrees(c, m, s, x);
    SkipLogged(c, m, s, x, origin);
    SkipCounters(c, s, x, origin);
    SkipShape(c, m, s, x, origin);
    SkipFailures(c, s, rest, x, origin);
    SkipStack(c, s, rest, x, origin);
  }

  lemma PopInv(c: Config, m: map<Id, Status>, s: State, rest: seq<Id>, x: Id, origin: Id)
    requires x in s.failed
    requires StackOk(c, s, rest + [x], origin) && Inv(c, m, s, rest + [x])
    ensures StackOk(c, s, rest, origin) && Inv(c, m, s, rest)
  {
    hide Shape, Agrees, Counters, Logged, Metered, IsSemantics, HasFailedDep, DependsOn, FailedIn;
    assert forall y :: y in rest + [x] <==> y in rest || y == x;
  }

  lemma SkipFailures(c: Config, s: State, stack: seq<Id>, x: Id, origin: Id)
    requires Adjacent(c.ops, c.dependents) && Failures(c, s, stack + [x]) && x !in s.reason
    requires HasFailedDep(c.ops, s.failed, x) && x !in s.failed
    ensures Failures(c, SkipOne(s, x, origin), stack + Get(c.dependents, x))
  {
    var s', stack' := SkipOne(s, x, origin), stack + Get(c.dependents, x);
    forall a, b | a in s'.failed && Edge(c.ops, a, b) ensures b in s'.failed || b in stack' {
      AdjacentEdge(c.ops, c.dependents, x, b);
      if a != x {
        assert b in s.failed || b in stack + [x];
      }
    }
    forall y | y in s'.failed && y !in s'.reason ensures HasFailedDep(c.ops, s'.failed, y) {
      assert HasFailedDep(c.ops, s.failed, y);
    }
  }

  lemma SkipStack(c: Config, s: State, stack: seq<Id>, x: Id, origin: Id)
    requires Adjacent(c.ops, c.dependents) && StackOk(c, s, stack + [x], origin)
    requires FailedIn(SkipOne(s, x, origin).log, origin)
    ensures StackOk(c, SkipOne(s, x, origin), stack + Get(c.dependents, x), origin)
  {
    var s', stack' := SkipOne(s, x, origin), stack + Get(c.dependents, x);
    assert x in stack + [x];
    forall y | y in stack'
      ensures y in c.ops && HasFailedDep(c.ops, s'.failed, y) && DependsOn(c.ops, origin, y)
    {
      if y in stack {
        assert y in stack + [x];
        assert HasFailedDep(c.ops, s.failed, y);
      } else {
        AdjacentEdge(c.ops, c.dependents, x, y);
        DependsOnStep(c.ops, origin, x, y);
        assert x in c.ops[y].deps && x in s'.failed;
      }
    }
  }

  /** The worklist closes `failed` under dependents and logs one skip for each
      operation it adds, naming the operation that failed. */
  lemma {:induction false} CascadeInv(c: Config, m: map<Id, Status>, s: State, stack: seq<Id>, origin: Id)
    requires Closed(c) && Adjacent(c.ops, c.dependents)
    requires StackOk(c, s, stack, origin) && Inv(c, m, s, stack)
    ensures Inv(c, m, Cascade(c, s, stack, origin), [])
    decreases c.ops.Keys - s.failed, |stack|
  {
    hide Inv, StackOk, Adjacent;
    if stack != [] {
      var x, rest := stack[|stack| - 1], stack[..|stack| - 1];
      assert stack == rest + [x];
      assert x in stack;
      if x in s.failed {
        PopInv(c, m, s, rest, x, origin);
        CascadeInv(c, m, s, rest, origin);
      } else {
        SkipInv(c, m, s, rest, x, origin);
        CascadeInv(c, m, SkipOne(s, x, origin), rest + Get(c.dependents, x), origin);
      }
    }
  }

  lemma CaughtStack(c: Config, s: State, id: Id, message: string)
    requires Adjacent(c.ops, c.dependents) && id in c.ops
    ensures StackOk(c, Caught(c, s, id, message), Get(c.dependents, id), id)
  {
    var s', stack := Caught(c, s, id, message), Get(c.dependents, id);
    assert End(id, Some(message)) in s'.log;
    forall y | y in stack
      ensures y in c.ops && HasFailedDep(c.ops, s'.failed, y) && DependsOn(c.ops, id, y)
    {
      AdjacentEdge(c.ops, c.dependents, id, y);
      DependsOnStep(c.ops, id, id, y);
      assert id in c.ops[y].deps && id in s'.failed;
    }
  }

  /** Settling a running operation, either way, keeps the invariant. */
  lemma SettleInv(c: Config, m: map<Id, Status>, s: State, id: Id)
    requires Adjacent(c.ops, c.dependents) && WellFormed(c, s) && Inv(c, m, s, []) && id in s.running
    ensures Inv(c, m, Settle(c, s, id), [])
  {
    hide Inv, Adjacent, StackOk, Succeeds;
    match s.running[id]
    case Success(v) =>
      SettleSucceeds(c, s, id, v);
      OkInv(c, m, s, Settle(c, s, id), id, v);
    case Failure(message) =>
      CaughtInv(c, m, s, id, message);
      CaughtStack(c, s, id, message);
      CascadeInv(c, m, Caught(c, s, id, message), Get(c.dependents, id), id);
  }
}
