/** What every run of the scheduler, under every interleaving, guarantees. */
module SchedulerTheorems {
  import opened Common
  import opened Plans
  import opened Semantics
  import opened Scheduler
  import opened SchedulerInvariant

  // ----- one iteration of the loop -----

  lemma InvWellFormed(c: Config, m: map<Id, Status>, s: State)
    requires Closed(c) && Inv(c, m, s, [])
    ensures WellFormed(c, s)
  {
  }

  /** Twice what still has to end, less what has started: it falls with every start and every end. */
  function Work(s: State): int {
    2 * s.pendingCount - |s.running|
  }

  lemma WorkBound(c: Config, m: map<Id, Status>, s: State)
    requires Inv(c, m, s, [])
    ensures s.pendingCount >= 0 && Work(s) >= s.pendingCount
    ensures s.pendingCount == 0 ==> s.running == map[] && s.results.Keys + s.failed == c.ops.Keys
  {
    hide Failures, Agrees, Logged, IsSemantics, Missing, NoDup, Tagged, Metered;
    SubsetCard(s.running.Keys, Unended(c, s));
    if s.pendingCount == 0 {
      assert Unended(c, s) == {};
      assert s.running.Keys == {};
    }
  }

  lemma {:induction false} CascadeProgress(c: Config, s: State, stack: seq<Id>, origin: Id)
    requires Closed(c) && forall x :: x in stack ==> x in c.ops
    ensures Cascade(c, s, stack, origin).pendingCount <= s.pendingCount
    decreases c.ops.Keys - s.failed, |stack|
  {
    if stack != [] {
      var x, rest := stack[|stack| - 1], stack[..|stack| - 1];
      assert x in stack;
      if x in s.failed {
        CascadeProgress(c, s, rest, origin);
      } else {
        CascadeProgress(c, SkipOne(s, x, origin), rest + Get(c.dependents, x), origin);
      }
    }
  }

  lemma SettleProgress(c: Config, s: State, id: Id)
    requires WellFormed(c, s) && id in s.running
    ensures var r := Settle(c, s, id);
            r.running == s.running - {id} && r.wakes == s.wakes + 1 && Work(r) < Work(s)
  {
    match s.running[id]
    case Success(_) =>
    case Failure(message) => CascadeProgress(c, Caught(c, s, id, message), Get(c.dependents, id), id);
    assert (s.running - {id}).Keys == s.running.Keys - {id};
    RemoveCard(s.running.Keys, id);
    assert |s.running - {id}| == |(s.running - {id}).Keys|;
    assert |s.running| == |s.running.Keys|;
  }

  lemma DispatchInv(c: Config, m: map<Id, Status>, s: State, i: nat)
    requires Closed(c) && Adjacent(c.ops, c.dependents) && Inv(c, m, s, []) && WellFormed(c, s)
    requires i < |s.ready| && s.ready[i] in c.ops && CanDispatch(c, s, s.ready[i])
    ensures Inv(c, m, Dispatch(c, s, i), []) && Work(Dispatch(c, s, i)) < Work(s)
    ensures Dispatch(c, s, i).wakes >= s.wakes
  {
    hide Inv, Adjacent, Begin, Settle, CanDispatch;
    var id := s.ready[i];
    assert id in s.ready;
    var s1 := Begin(c, s.(ready := RemoveAt(s.ready, i)), id);
    BeginStep(c, m, s, i);
    if id in c.throwsSync && id in s1.running && s1.running[id].Failure? {
      SettleInv(c, m, s1, id);
      SettleProgress(c, s1, id);
    }
  }

  lemma BeginStep(c: Config, m: map<Id, Status>, s: State, i: nat)
    requires Closed(c) && Adjacent(c.ops, c.dependents) && Inv(c, m, s, []) && WellFormed(c, s)
    requires i < |s.ready| && s.ready[i] in c.ops && CanDispatch(c, s, s.ready[i])
    requires WellFormed(c, s.(ready := RemoveAt(s.ready, i)))
    ensures var s1 := Begin(c, s.(ready := RemoveAt(s.ready, i)), s.ready[i]);
            Inv(c, m, s1, []) && Work(s1) < Work(s) && s1.wakes == s.wakes
  {
    hide Inv, Adjacent, Begin, CanDispatch;
    var id := s.ready[i];
    assert id in s.ready;
    assert Shape(c, s) by { InvParts(c, m, s); }
    BeginStarts(c, s, i);
    var s1 := Begin(c, s.(ready := RemoveAt(s.ready, i)), id);
    StartInv(c, m, s, s1, id);
    assert |s1.running| == |s1.running.Keys| && |s.running| == |s.running.Keys|;
  }

  lemma InvParts(c: Config, m: map<Id, Status>, s: State)
    requires Inv(c, m, s, [])
    ensures Shape(c, s) && Counters(c, s) && Failures(c, s, [])
  {
  }

  /** A pass over the ready queue keeps the invariant; one that dispatched nothing
      changed nothing and found every ready operation blocked by a cap. */
  lemma {:induction false} DrainInv(c: Config, m: map<Id, Status>, s: State, i: nat)
    requires Closed(c) && Adjacent(c.ops, c.dependents) && Inv(c, m, s, []) && WellFormed(c, s)
    requires i <= |s.ready|
    ensures var (s', dispatched) := Drain(c, s, i);
            && Inv(c, m, s', []) && s'.wakes >= s.wakes
            && (dispatched ==> Work(s') < Work(s))
            && (!dispatched ==> s' == s && forall j :: i <= j < |s.ready| ==>
                  s.ready[j] in c.ops && !CanDispatch(c, s, s.ready[j]))
    decreases |s.ready| - i
  {
    hide Inv, Adjacent, CanDispatch, Dispatch;
    if i < |s.ready| {
      var id := s.ready[i];
      assert id in s.ready;
      NoGuardFires(c, m, s, id);
      if CanDispatch(c, s, id) {
        DispatchInv(c, m, s, i);
        DispatchShrinks(c, s, i);
        DrainInv(c, m, Dispatch(c, s, i), i);
      } else {
        DrainInv(c, m, s, i + 1);
      }
    }
  }

  lemma DispatchShrinks(c: Config, s: State, i: nat)
    requires WellFormed(c, s) && i < |s.ready|
    ensures |Dispatch(c, s, i).ready| == |s.ready| - 1
  {
  }

  /** The guard for failed operations in the ready queue and the guard for failed
      dependencies at the top of `runOp` never fire. */
  lemma NoGuardFires(c: Config, m: map<Id, Status>, s: State, id: Id)
    requires Inv(c, m, s, []) && id in s.ready
    ensures id in c.ops && id !in s.failed && FirstFailed(c.ops[id].deps, s.failed).None?
  {
    ReadyDepsSucceeded(c, s, id);
  }

  /** An operation that has not ended, all of whose dependencies have, can run. */
  lemma UnendedCanRun(c: Config, s: State, y: Id)
    requires Shape(c, s) && Failures(c, s, []) && y in Unended(c, s)
    requires forall d :: d in c.ops[y].deps ==> d in s.results || d in s.failed
    ensures y in s.ready || y in s.running
  {
    forall d | d in c.ops[y].deps ensures d in s.results {
      assert Edge(c.ops, d, y);
    }
    MissingZero(c.ops[y].deps, s.results.Keys);
  }

  lemma {:induction false} FirstUnended(c: Config, s: State, order: seq<Id>, k: nat) returns (first: nat)
    requires k < |order| && order[k] in Unended(c, s)
    requires forall i :: 0 <= i < |order| ==> order[i] in c.ops
    ensures first <= k && order[first] in Unended(c, s)
    ensures forall j :: 0 <= j < first ==> order[j] in s.results || order[j] in s.failed
    decreases k
  {
    if j :| 0 <= j < k && order[j] in Unended(c, s) {
      first := FirstUnended(c, s, order, j);
    } else {
      first := k;
    }
  }

  lemma FirstUnendedDeps(c: Config, order: seq<Id>, s: State, x: Id) returns (y: Id)
    requires IsTopo(c.ops, order) && x in Unended(c, s)
    ensures y in Unended(c, s) && forall d :: d in c.ops[y].deps ==> d in s.results || d in s.failed
  {
    hide Unended;
    assert x in c.ops by { UnendedInPlan(c, s, x); }
    var k :| 0 <= k < |order| && order[k] == x;
    forall i | 0 <= i < |order| ensures order[i] in c.ops {
      assert DepsIn(c.ops, order[i], order[..i]);
    }
    var first := FirstUnended(c, s, order, k);
    y := order[first];
    assert DepsIn(c.ops, y, order[..first]);
    forall d | d in c.ops[y].deps ensures d in s.results || d in s.failed {
      assert d in order[..first];
      var j :| 0 <= j < first && order[..first][j] == d;
    }
  }

  lemma UnendedInPlan(c: Config, s: State, x: Id)
    requires x in Unended(c, s)
    ensures x in c.ops
  {
  }

  lemma ValidConfigParts(c: Config, order: seq<Id>)
    requires ValidConfig(c, order)
    ensures IsTopo(c.ops, order) && Adjacent(c.ops, c.dependents) && Closed(c)
  {
    ValidConfigClosed(c, order);
  }

  /** While something has not ended, something is ready or running. */
  lemma SomethingToDo(c: Config, m: map<Id, Status>, order: seq<Id>, s: State)
    requires ValidConfig(c, order) && Inv(c, m, s, []) && s.pendingCount > 0
    ensures s.ready != [] || s.running != map[]
  {
    hide *;
    ValidConfigParts(c, order);
    InvParts(c, m, s);
    var x := PickUnended(c, s);
    var y := FirstUnendedDeps(c, order, s, x);
    UnendedCanRun(c, s, y);
  }

  lemma PickUnended(c: Config, s: State) returns (x: Id)
    requires Counters(c, s) && s.pendingCount > 0
    ensures x in Unended(c, s)
  {
    x := PickOne(Unended(c, s));
  }

  lemma NothingRunningNothingBlocked(c: Config, s: State, x: Id)
    requires Counters(c, s) && s.running == map[] && x in c.ops
    requires c.globalCap >= 1 && forall t :: t in c.tagCaps ==> c.tagCaps[t] >= 1
    ensures CanDispatch(c, s, x)
  {
    assert s.running.Keys == {};
    if c.ops[x].tag.Some? {
      assert Tagged(c, s.running.Keys, c.ops[x].tag.value) == {};
    }
  }

  /** If every ready operation is blocked, an operation is in flight. */
  lemma BlockedMeansBusy(c: Config, m: map<Id, Status>, order: seq<Id>, s: State)
    requires ValidConfig(c, order) && Inv(c, m, s, []) && s.pendingCount > 0
    requires forall x :: x in s.ready ==> x in c.ops && !CanDispatch(c, s, x)
    ensures s.running != map[]
  {
    hide Inv, Shape, Failures, Counters, Adjacent, IsTopo, CanDispatch;
    InvParts(c, m, s);
    SomethingToDo(c, m, order, s);
    if s.running == map[] {
      var x := s.ready[0];
      NothingRunningNothingBlocked(c, s, x);
    }
  }

  // ----- runs -----

  ghost predicate SysInv(c: Config, m: map<Id, Status>, sys: System) {
    && Inv(c, m, sys.s, [])
    && (sys.loop.Done? ==> sys.s.pendingCount == 0)
    && (sys.loop.Awaiting? ==> sys.loop.seen <= sys.s.wakes)
    && (sys.loop == Awaiting(sys.s.wakes) ==>
          sys.s.pendingCount > 0 && forall x :: x in sys.s.ready ==> x in c.ops && !CanDispatch(c, sys.s, x))
  }

  ghost predicate IsInitial(c: Config, order: seq<Id>, sys: System) {
    && sys == System(Looping, Initial(|order|, sys.s.pending, sys.s.ready))
    && sys.s.pending.Keys == c.ops.Keys
    && (forall x :: x in c.ops ==> sys.s.pending[x] == |c.ops[x].deps|)
    && NoDup(sys.s.ready)
    && (forall x :: x in sys.s.ready <==> x in c.ops && sys.s.pending[x] == 0)
  }

  ghost predicate Steps(c: Config, a: System, b: System) {
    WellFormed(c, a.s) && exists step :: Next(c, a, step, b)
  }

  ghost predicate IsRun(c: Config, order: seq<Id>, run: seq<System>) {
    && run != [] && IsInitial(c, order, run[0])
    && forall i :: 0 <= i < |run| - 1 ==> Steps(c, run[i], run[i + 1])
  }

  /** A step can be appended to a run. */
  lemma RunAppend(c: Config, order: seq<Id>, run: seq<System>, step: Step, next: System)
    requires IsRun(c, order, run) && WellFormed(c, Last(run).s) && Next(c, Last(run), step, next)
    ensures IsRun(c, order, run + [next])
  {
    hide IsInitial, Next;
    var run' := run + [next];
    assert Steps(c, Last(run), next);
    forall i | 0 <= i < |run'| - 1 ensures Steps(c, run'[i], run'[i + 1]) {
      assert i < |run| - 1 ==> Steps(c, run[i], run[i + 1]);
    }
  }

  function Rank(sys: System): int {
    2 * Work(sys.s) + if LoopEnabled(sys) then 1 else 0
  }

  lemma InitialShape(c: Config, order: seq<Id>, sys: System)
    requires IsInitial(c, order, sys)
    ensures Shape(c, sys.s)
  {
    var s := sys.s;
    assert s.results.Keys == {};
    forall x | x in c.ops ensures s.pending[x] == Missing(c.ops[x].deps, s.results.Keys) {
      MissingNone(c.ops[x].deps);
    }
  }

  lemma InitialCounters(c: Config, order: seq<Id>, sys: System)
    requires ValidConfig(c, order) && IsInitial(c, order, sys)
    ensures Counters(c, sys.s) && |order| == |c.ops|
  {
    var s := sys.s;
    assert forall x :: x in Elems(order) <==> x in c.ops;
    assert Elems(order) == c.ops.Keys && NoDup(order);
    hide ValidConfig, NoDup;
    NoDupCard(order);
    assert Unended(c, s) == c.ops.Keys && s.running.Keys == {};
    assert c.globalCap >= 1 && forall t :: t in c.tagCaps ==> c.tagCaps[t] >= 1 by {
      ValidConfigParts(c, order);
    }
    forall t ensures |Tagged(c, s.running.Keys, t)| == 0 {
      assert Tagged(c, s.running.Keys, t) == {};
    }
  }

  lemma InitialLogged(c: Config, m: map<Id, Status>, s: State)
    requires s == Initial(s.pendingCount, s.pending, s.ready)
    ensures Failures(c, s, []) && Agrees(m, s) && Logged(c, m, s)
  {
  }

  lemma InitialMetered(c: Config, s: State)
    requires s == Initial(s.pendingCount, s.pending, s.ready) && Counters(c, s)
    ensures Metered(c, s)
  {
    CountersWithinCaps(c, s);
    assert Active(s.log) == {} == s.running.Keys;
    forall k | 0 <= k <= |s.log| ensures WithinCaps(c, Active(s.log[..k])) {
      assert s.log[..k] == s.log;
    }
  }

  lemma InitialInv(c: Config, order: seq<Id>, sys: System)
    requires ValidConfig(c, order) && IsInitial(c, order, sys)
    ensures forall x :: x in order ==> x in c.ops
    ensures SysInv(c, Sequential(c.ops, order), sys)
    ensures Rank(sys) == 4 * |c.ops| + 1
  {
    hide Shape, Counters, Failures, Agrees, Logged, Adjacent, IsSemantics, Sequential, Metered;
    SequentialIsSemantics(c.ops, order);
    InitialShape(c, order, sys);
    InitialCounters(c, order, sys);
    InitialLogged(c, Sequential(c.ops, order), sys.s);
    InitialMetered(c, sys.s);
  }

  lemma AllBlocked(c: Config, s: State)
    requires forall j :: 0 <= j < |s.ready| ==> s.ready[j] in c.ops && !CanDispatch(c, s, s.ready[j])
    ensures forall x :: x in s.ready ==> x in c.ops && !CanDispatch(c, s, x)
  {
    forall x | x in s.ready ensures x in c.ops && !CanDispatch(c, s, x) {
      var j :| 0 <= j < |s.ready| && s.ready[j] == x;
    }
  }

  lemma StoppedInv(c: Config, m: map<Id, Status>, s: State)
    requires Inv(c, m, s, [])
    ensures s.pendingCount == 0 ==> SysInv(c, m, System(Done, s))
    ensures SysInv(c, m, System(Looping, s))
    ensures s.pendingCount > 0 && (forall x :: x in s.ready ==> x in c.ops && !CanDispatch(c, s, x)) ==>
              SysInv(c, m, System(Awaiting(s.wakes), s))
  {
    hide Inv, CanDispatch;
  }

  lemma SysInvHolds(c: Config, m: map<Id, Status>, sys: System)
    requires SysInv(c, m, sys)
    ensures Inv(c, m, sys.s, [])
  {
  }

  lemma IterateCases(c: Config, s: State)
    requires WellFormed(c, s)
    ensures s.pendingCount <= 0 ==> Iterate(c, s) == System(Done, s)
    ensures s.pendingCount > 0 ==>
              var (s', dispatched) := Drain(c, s, 0);
              && (s'.pendingCount == 0 ==> Iterate(c, s) == System(Done, s'))
              && (s'.pendingCount != 0 && dispatched ==> Iterate(c, s) == System(Looping, s'))
              && (s'.pendingCount != 0 && !dispatched && s'.running != map[] ==>
                    Iterate(c, s) == System(Awaiting(s'.wakes), s'))
  {
  }

  /** An iteration of the loop keeps the invariant, never takes the bail-out, and makes progress. */
  lemma TickInv(c: Config, m: map<Id, Status>, order: seq<Id>, sys: System)
    requires ValidConfig(c, order) && SysInv(c, m, sys) && WellFormed(c, sys.s) && LoopEnabled(sys)
    ensures SysInv(c, m, Iterate(c, sys.s)) && Rank(Iterate(c, sys.s)) < Rank(sys)
  {
    hide Inv, SysInv, CanDispatch, Drain, Iterate, ValidConfig, IsTopo, Adjacent, Closed, WellFormed, Work;
    ValidConfigParts(c, order);
    SysInvHolds(c, m, sys);
    WorkBound(c, m, sys.s);
    IterateCases(c, sys.s);
    if sys.s.pendingCount == 0 {
      StoppedInv(c, m, sys.s);
    } else {
      DrainInv(c, m, sys.s, 0);
      var (s', dispatched) := Drain(c, sys.s, 0);
      WorkBound(c, m, s');
      StoppedInv(c, m, s');
      if s'.pendingCount > 0 && !dispatched {
        AllBlocked(c, s');
        BlockedMeansBusy(c, m, order, s');
      }
    }
  }

  lemma SettledInv(c: Config, m: map<Id, Status>, order: seq<Id>, sys: System, id: Id)
    requires ValidConfig(c, order) && SysInv(c, m, sys) && WellFormed(c, sys.s) && id in sys.s.running
    ensures SysInv(c, m, System(sys.loop, Settle(c, sys.s, id)))
    ensures Rank(System(sys.loop, Settle(c, sys.s, id))) < Rank(sys)
  {
    hide Inv, CanDispatch, Settle;
    SettleInv(c, m, sys.s, id);
    SettleProgress(c, sys.s, id);
    WorkBound(c, m, sys.s);
    assert !sys.loop.Done?;
  }

  lemma StepInv(c: Config, m: map<Id, Status>, order: seq<Id>, a: System, b: System)
    requires ValidConfig(c, order) && SysInv(c, m, a) && Steps(c, a, b)
    ensures SysInv(c, m, b) && Rank(b) < Rank(a)
  {
    hide SysInv, Iterate, Settle, Rank;
    var step :| Next(c, a, step, b);
    match step
    case Tick => TickInv(c, m, order, a);
    case Settled(id) => SettledInv(c, m, order, a, id);
  }

  /** The invariant holds in every state of every run, and each step lowers the rank. */
  lemma {:induction false} RunInv(c: Config, order: seq<Id>, run: seq<System>, i: nat)
    requires ValidConfig(c, order) && IsRun(c, order, run) && i < |run|
    ensures forall x :: x in order ==> x in c.ops
    ensures SysInv(c, Sequential(c.ops, order), run[i])
    ensures Rank(run[i]) + i <= 4 * |c.ops| + 1
  {
    hide SysInv, Rank, IsInitial, Steps;
    InitialInv(c, order, run[0]);
    if i > 0 {
      RunInv(c, order, run, i - 1);
      assert Steps(c, run[i - 1], run[i - 1 + 1]);
      StepInv(c, Sequential(c.ops, order), order, run[i - 1], run[i]);
    }
  }

  /** Completion: a run takes at most 4n + 1 steps, and while the loop has not
      finished, it can continue or an operation is in flight whose end will wake it. */
  lemma RunsComplete(c: Config, order: seq<Id>, run: seq<System>)
    requires ValidConfig(c, order) && IsRun(c, order, run)
    ensures |run| <= 4 * |c.ops| + 2
    ensures var sys := run[|run| - 1];
            !sys.loop.Done? ==> LoopEnabled(sys) || sys.s.running != map[]
    ensures var sys := run[|run| - 1];
            sys.loop.Done? ==> sys.s.running == map[] && sys.s.results.Keys + sys.s.failed == c.ops.Keys
  {
    var n := |run| - 1;
    RunInv(c, order, run, n);
    var m, sys := Sequential(c.ops, order), run[n];
    WorkBound(c, m, sys.s);
    if sys.loop == Awaiting(sys.s.wakes) {
      BlockedMeansBusy(c, m, order, sys.s);
    }
  }

  ghost predicate AtCap(c: Config, s: State, x: Id) {
    x in c.ops && (s.globalInFlight == c.globalCap ||
                   (c.ops[x].tag.Some? && c.ops[x].tag.value in c.tagCaps &&
                    Count(s.tagInFlight, c.ops[x].tag.value) == c.tagCaps[c.ops[x].tag.value]))
  }

  /** Caps and work conservation: in every state of every run the in-flight counters are
      the numbers of running operations and stay within the caps; when the loop waits
      and has not been woken, each ready operation faces a full cap. */
  lemma CapsRespected(c: Config, order: seq<Id>, run: seq<System>, i: nat)
    requires ValidConfig(c, order) && IsRun(c, order, run) && i < |run|
    ensures run[i].s.globalInFlight == |run[i].s.running| <= c.globalCap
    ensures forall t :: Count(run[i].s.tagInFlight, t) == |Tagged(c, run[i].s.running.Keys, t)|
    ensures forall t :: t in c.tagCaps ==> Count(run[i].s.tagInFlight, t) <= c.tagCaps[t]
    ensures run[i].loop == Awaiting(run[i].s.wakes) ==>
              run[i].s.running != map[] && forall x :: x in run[i].s.ready ==> AtCap(c, run[i].s, x)
  {
    RunInv(c, order, run, i);
    assert |run[i].s.running| == |run[i].s.running.Keys|;
    if run[i].loop == Awaiting(run[i].s.wakes) {
      BlockedMeansBusy(c, Sequential(c.ops, order), order, run[i].s);
    }
  }

  /** At no point of the log of a run are more operations started and not ended than the
      global cap allows, nor more of one tag than the cap of the tag. */
  lemma LogCapped(c: Config, order: seq<Id>, run: seq<System>, i: nat)
    requires ValidConfig(c, order) && IsRun(c, order, run) && i < |run|
    ensures Active(run[i].s.log) == run[i].s.running.Keys && Capped(c, run[i].s.log)
  {
    RunInv(c, order, run, i);
  }

  /** Exactly-once and ordering, in every state of every run: an operation that ended
      has one end entry and otherwise none; it has one start entry iff it ran; each
      entry comes after what it depends on. */
  lemma LineageExact(c: Config, order: seq<Id>, run: seq<System>, i: nat)
    requires ValidConfig(c, order) && IsRun(c, order, run) && i < |run|
    ensures var s := run[i].s;
            && (forall x :: Ends(s.log, x) == if x in s.results || x in s.failed then 1 else 0)
            && (forall x :: Starts(s.log, x) == if x in s.results || x in s.running || x in s.reason then 1 else 0)
            && (forall k :: 0 <= k < |s.log| ==> EntryOk(c.ops, s.log[..k], s.log[k]))
            && s.pendingCount == |Unended(c, s)|
  {
    RunInv(c, order, run, i);
    var s := run[i].s;
    forall k | 0 <= k < |s.log| ensures EntryOk(c.ops, s.log[..k], s.log[k]) {
      EntryOkAt(c.ops, s.log, k);
    }
  }

  /** `failed` is closed under dependents, nothing starts below a failure, and the
      pending counters count the dependency occurrences that have not succeeded. */
  lemma FailureClosed(c: Config, order: seq<Id>, run: seq<System>, i: nat)
    requires ValidConfig(c, order) && IsRun(c, order, run) && i < |run|
    ensures var s := run[i].s;
            && (forall x, y :: x in s.failed && Edge(c.ops, x, y) ==> y in s.failed)
            && (forall x :: x in c.ops ==> x in s.pending && s.pending[x] == Missing(c.ops[x].deps, s.results.Keys))
            && (forall x, d :: (x in s.results || x in s.running || x in s.reason) && Edge(c.ops, d, x) ==>
                  d in s.results)
  {
    RunInv(c, order, run, i);
    var s := run[i].s;
    forall x, d | (x in s.results || x in s.running || x in s.reason) && Edge(c.ops, d, x) ensures d in s.results {
      ReadyDepsSucceeded(c, s, x);
    }
  }

  /** What a finished run returned is exactly the sequential meaning of the plan. */
  ghost predicate Faithful(ops: Ops, m: map<Id, Status>, results: map<Id, Value>, log: seq<Entry>) {
    && m.Keys == ops.Keys
    && (forall x :: x in results <==> x in m && m[x].Succeeded?)
    && (forall x :: x in results ==> x in m && m[x] == Succeeded(results[x]))
    && (forall x :: x in m ==> Ends(log, x) == 1)
    && (forall x :: x in m ==> Starts(log, x) == if m[x].Skipped? then 0 else 1)
    && (forall x :: x in m && m[x].Succeeded? ==> End(x, None) in log)
    && (forall x :: x in m && m[x].Errored? ==> End(x, Some(m[x].message)) in log)
    && (forall x :: x in m && m[x].Skipped? ==> exists o :: Skip(x, o) in log)
    && LogOk(ops, log)
  }

  lemma FinishedFaithful(c: Config, m: map<Id, Status>, s: State)
    requires Inv(c, m, s, []) && s.pendingCount == 0
    ensures Faithful(c.ops, m, s.results, s.log)
  {
    EndedStatus(c, m, s);
    hide Shape, Failures, Counters, Agrees, LogOk, StatusOf, Ends, Starts, Metered;
  }

  /** Schedule independence: every run that finishes returns what evaluating the
      operations one by one in topological order returns. */
  lemma ScheduleIndependence(c: Config, order: seq<Id>, run: seq<System>)
    requires ValidConfig(c, order) && IsRun(c, order, run) && run[|run| - 1].loop.Done?
    ensures forall x :: x in order ==> x in c.ops
    ensures Faithful(c.ops, Sequential(c.ops, order), run[|run| - 1].s.results, run[|run| - 1].s.log)
  {
    RunInv(c, order, run, |run| - 1);
    FinishedFaithful(c, Sequential(c.ops, order), run[|run| - 1].s);
  }

  /** Two finished runs of one plan return the same results and fail and skip the same
      operations, whatever their caps, orders, interleavings and synchronous throws. */
  lemma RunsAgree(c: Config, order: seq<Id>, run: seq<System>, c': Config, order': seq<Id>, run': seq<System>)
    requires ValidConfig(c, order) && IsRun(c, order, run) && run[|run| - 1].loop.Done?
    requires ValidConfig(c', order') && IsRun(c', order', run') && run'[|run'| - 1].loop.Done?
    requires c.ops == c'.ops
    ensures var s, s' := run[|run| - 1].s, run'[|run'| - 1].s;
            && s.results == s'.results && s.failed == s'.failed && s.reason.Keys == s'.reason.Keys
            && forall x :: Ends(s.log, x) == Ends(s'.log, x) && Starts(s.log, x) == Starts(s'.log, x)
  {
    hide Inv, IsSemantics, IsTopo, Sequential, Ends, Starts, Adjacent;
    DoneInv(c, order, run);
    DoneInv(c', order', run');
    SemanticsUnique(c.ops, order, Sequential(c.ops, order), Sequential(c.ops, order'));
    RunsAgreeOn(c, c', Sequential(c.ops, order), run[|run| - 1].s, run'[|run'| - 1].s);
  }

  /** Where a finished run ends. */
  lemma DoneInv(c: Config, order: seq<Id>, run: seq<System>)
    requires ValidConfig(c, order) && IsRun(c, order, run) && run[|run| - 1].loop.Done?
    ensures IsTopo(c.ops, order) && forall x :: x in order ==> x in c.ops
    ensures var m, s := Sequential(c.ops, order), run[|run| - 1].s;
            IsSemantics(c.ops, m) && Inv(c, m, s, []) && s.pendingCount == 0
  {
    RunInv(c, order, run, |run| - 1);
    hide Shape, Counters, Failures, Agrees, Logged, Metered, IsSemantics, IsTopo, Adjacent;
  }

  lemma RunsAgreeOn(c: Config, c': Config, m: map<Id, Status>, s: State, s': State)
    requires Inv(c, m, s, []) && s.pendingCount == 0
    requires Inv(c', m, s', []) && s'.pendingCount == 0 && c.ops == c'.ops
    ensures s.results == s'.results && s.failed == s'.failed && s.reason.Keys == s'.reason.Keys
    ensures forall x :: Ends(s.log, x) == Ends(s'.log, x) && Starts(s.log, x) == Starts(s'.log, x)
  {
    hide Inv;
    EndedStatus(c, m, s);
    EndedStatus(c', m, s');
    EndedCounts(c, m, s);
    EndedCounts(c', m, s');
    assert forall x :: x in s.results <==> x in s'.results;
    assert forall x :: x in s.failed <==> x in s'.failed;
    assert forall x :: x in s.reason.Keys <==> x in s'.reason.Keys;
    assert s.results.Keys == s'.results.Keys;
    forall x | x in s.results ensures s.results[x] == s'.results[x] {
      assert x in s'.results;
    }
  }

  lemma EndedCounts(c: Config, m: map<Id, Status>, s: State)
    requires Inv(c, m, s, [])
    ensures forall x :: Ends(s.log, x) == if x in s.results || x in s.failed then 1 else 0
    ensures forall x :: Starts(s.log, x) == if x in s.results || x in s.running || x in s.reason then 1 else 0
  {
  }

  lemma EndedStatus(c: Config, m: map<Id, Status>, s: State)
    requires Inv(c, m, s, []) && s.pendingCount == 0
    ensures forall x :: x in s.results <==> x in c.ops && x in m && m[x].Succeeded?
    ensures forall x :: x in s.results ==> m[x] == Succeeded(s.results[x])
    ensures forall x :: x in s.failed <==> x in c.ops && x in m && !m[x].Succeeded?
    ensures forall x :: x in s.reason <==> x in c.ops && x in m && m[x].Errored?
    ensures s.running == map[]
  {
    WorkBound(c, m, s);
    hide Failures, Counters, Logged, Missing, NoDup, IsSemantics, Metered;
    assert forall x :: x in c.ops ==> x in s.results || x in s.failed;
  }
}
