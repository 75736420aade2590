/** The executor in the program's own form: shared variables, closures that update
    them, and the scheduler loop (packages/parallel/src/executor.ts). Each method is
    proved equal to the corresponding step of the state machine. */
module Executors {
  import opened Common
  import opened Plans
  import opened Semantics
  import opened Scheduler
  import opened SchedulerInvariant
  import opened SchedulerTheorems
  import Limits

  lemma FreeAfterSkip(c: Config, s: State, x: Id, origin: Id, id: Id)
    requires id in c.ops
    ensures SkipOne(FreeSlot(c, s, id), x, origin) == FreeSlot(c, SkipOne(s, x, origin), id)
    ensures SkipOne(s, x, origin).failed == s.failed + {x}
  {
  }

  /** Freeing the slot before or after the cascade makes no difference. */
  lemma {:induction false} FreeSlotCommutes(c: Config, s: State, stack: seq<Id>, origin: Id, id: Id)
    requires Closed(c) && id in c.ops && forall x :: x in stack ==> x in c.ops
    ensures Cascade(c, FreeSlot(c, s, id), stack, origin) == FreeSlot(c, Cascade(c, s, stack, origin), id)
    decreases c.ops.Keys - s.failed, |stack|
  {
    if stack != [] {
      var x, rest := stack[|stack| - 1], stack[..|stack| - 1];
      assert x in stack && FreeSlot(c, s, id).failed == s.failed;
      hide FreeSlot, SkipOne;
      if x in s.failed {
        FreeSlotCommutes(c, s, rest, origin, id);
      } else {
        FreeSlotCommutes(c, SkipOne(s, x, origin), rest + Get(c.dependents, x), origin, id);
        FreeAfterSkip(c, s, x, origin, id);
      }
    }
  }

  /** The variables when a result has been recorded and the dependents released. */
  function RecordOk(c: Config, s: State, id: Id, v: Value): State
    requires forall x :: x in Get(c.dependents, id) ==> x in s.pending
  {
    var (pending, ready) := Release(Get(c.dependents, id), s.pending, s.ready, s.failed);
    s.(results := s.results[id := v], log := s.log + [End(id, None)],
       pendingCount := s.pendingCount - 1, pending := pending, ready := ready)
  }

  /** The variables when a failure has been recorded, before the cascade. */
  function RecordError(s: State, id: Id, message: string): State {
    s.(failed := s.failed + {id}, reason := s.reason[id := id],
       log := s.log + [End(id, Some(message))], pendingCount := s.pendingCount - 1)
  }

  /** Recording a result first and freeing the slot afterwards settles a success. */
  lemma RecordThenFree(c: Config, s: State, id: Id, v: Value)
    requires WellFormed(c, s) && id in s.running && s.running[id] == Success(v)
    ensures id in c.ops && forall x :: x in Get(c.dependents, id) ==> x in s.pending
    ensures Settle(c, s, id) == FreeSlot(c, RecordOk(c, s, id, v), id)
  {
  }

  /** Recording an error, skipping the dependents and freeing the slot settles a failure. */
  lemma CascadeThenFree(c: Config, s: State, id: Id, message: string)
    requires WellFormed(c, s) && id in s.running && s.running[id] == Failure(message)
    ensures id in c.ops && Closed(c) && forall x :: x in Get(c.dependents, id) ==> x in c.ops
    ensures Settle(c, s, id) ==
            FreeSlot(c, Cascade(c, RecordError(s, id, message), Get(c.dependents, id), id), id)
  {
    var recorded := RecordError(s, id, message);
    assert FreeSlot(c, recorded, id) == Caught(c, s, id, message);
    assert Settle(c, s, id) == Cascade(c, Caught(c, s, id, message), Get(c.dependents, id), id);
    hide FreeSlot, Caught, Settle, RecordError, Cascade;
    FreeSlotCommutes(c, recorded, Get(c.dependents, id), id, id);
  }

  /** Where the loop goes after a pass over the ready queue. */
  function AfterDrain(s: State, dispatched: bool): System {
    if s.pendingCount == 0 then System(Done, s)
    else if dispatched then System(Looping, s)
    else if s.running == map[] && s.ready == [] then System(Done, s)
    else System(Awaiting(s.wakes), s)
  }

  lemma TickAppend(c: Config, order: seq<Id>, trace: seq<System>, s: State, s': State, dispatched: bool)
    requires IsRun(c, order, trace) && trace != [] && Last(trace).s == s && LoopEnabled(Last(trace))
    requires WellFormed(c, s) && s.pendingCount > 0 && (s', dispatched) == Drain(c, s, 0)
    ensures IsRun(c, order, trace + [AfterDrain(s', dispatched)])
  {
    hide IsRun, Drain;
    RunAppend(c, order, trace, Tick, AfterDrain(s', dispatched));
  }

  /** One pass of the scheduler loop: what it keeps, that it gets on, and that it is a step. */
  lemma PassFacts(c: Config, m: map<Id, Status>, order: seq<Id>, trace: seq<System>, s: State)
    requires ValidConfig(c, order) && Inv(c, m, s, []) && WellFormed(c, s) && s.pendingCount > 0
    requires IsRun(c, order, trace) && trace != [] && Last(trace).s == s && LoopEnabled(Last(trace))
    ensures var (s', dispatched) := Drain(c, s, 0);
            && Inv(c, m, s', []) && IsRun(c, order, trace + [AfterDrain(s', dispatched)])
            && Work(s) >= 0 && Work(s') >= 0 && s'.pendingCount >= 0
            && (dispatched ==> Work(s') < Work(s))
            && (!dispatched ==> s' == s && s'.running != map[])
            && (s'.pendingCount == 0 ==> s'.running == map[])
            && AfterDrain(s', dispatched) ==
               System(if s'.pendingCount == 0 then Done else if dispatched then Looping else Awaiting(s'.wakes), s')
  {
    hide Inv, Drain, Work, ValidConfig, Adjacent, CanDispatch, IsRun, Closed;
    ValidConfigParts(c, order);
    WorkNonNegative(c, m, s);
    DrainInv(c, m, s, 0);
    var (s', dispatched) := Drain(c, s, 0);
    TickAppend(c, order, trace, s, s', dispatched);
    WorkNonNegative(c, m, s');
    WorkBound(c, m, s');
    if !dispatched {
      AllBlocked(c, s);
      BlockedMeansBusy(c, m, order, s);
    }
  }

  lemma RunStart(c: Config, order: seq<Id>, s: State)
    requires IsInitial(c, order, System(Looping, s))
    ensures IsRun(c, order, [System(Looping, s)])
  {
  }

  lemma DoneAppend(c: Config, order: seq<Id>, trace: seq<System>, s: State)
    requires IsRun(c, order, trace) && trace != [] && Last(trace).s == s && LoopEnabled(Last(trace))
    requires WellFormed(c, s) && s.pendingCount == 0
    ensures IsRun(c, order, trace + [System(Done, s)])
  {
    hide IsRun, Drain;
    RunAppend(c, order, trace, Tick, System(Done, s));
  }

  class Run {
    const c: Config
    var results: map<Id, Value>
    var failed: set<Id>
    var failureReason: map<Id, Id>
    var pending: map<Id, int>
    var ready: seq<Id>
    var running: map<Id, Outcome>
    var globalInFlight: int
    var tagInFlight: map<string, int>
    var pendingCount: int
    var wakes: nat
    var entries: seq<Entry>

    ghost function Snap(): State
      reads this
    {
      State(results, failed, failureReason, pending, ready, running,
            globalInFlight, tagInFlight, pendingCount, wakes, entries)
    }

    constructor (c: Config, order: seq<Id>, pending: map<Id, int>, ready: seq<Id>)
      ensures this.c == c && Snap() == Initial(|order|, pending, ready)
    {
      this.c := c;
      results, failed, failureReason := map[], {}, map[];
      this.pending, this.ready, running := pending, ready, map[];
      globalInFlight, tagInFlight, pendingCount := 0, map[], |order|;
      wakes, entries := 0, [];
    }

    /** Flush every transitive dependent of `id` as skipped, naming `origin`. */
    method CascadeSkip(id: Id, origin: Id)
      requires Closed(c)
      modifies this`failed, this`entries, this`pendingCount
      ensures forall x :: x in Get(c.dependents, id) ==> x in c.ops
      ensures Snap() == Cascade(c, old(Snap()), Get(c.dependents, id), origin)
    {
      var stack := Get(c.dependents, id);
      while stack != []
        invariant forall x :: x in stack ==> x in c.ops
        invariant Cascade(c, Snap(), stack, origin) == Cascade(c, old(Snap()), Get(c.dependents, id), origin)
        decreases c.ops.Keys - failed, |stack|
      {
        var x := stack[|stack| - 1];
        assert x in stack;
        stack := stack[..|stack| - 1];
        if x !in failed {
          failed := failed + {x};
          entries := entries + [Skip(x, origin)];
          pendingCount := pendingCount - 1;
          stack := stack + Get(c.dependents, x);
        }
      }
    }

    /** `runOp` up to the point where it awaits the operation's promise. */
    method StartOp(id: Id)
      requires WellFormed(c, Snap()) && id in c.ops
      modifies this
      ensures Snap() == Begin(c, old(Snap()), id)
    {
      hide Cascade, FirstFailed, DepResults, Closed;
      var op := c.ops[id];
      var failedDep := FirstFailed(op.deps, failed);
      if failedDep.Some? {
        if id !in failed {
          var d := failedDep.value;
          var origin := if d in failureReason then failureReason[d] else d;
          failed := failed + {id};
          entries := entries + [Skip(id, origin)];
          pendingCount := pendingCount - 1;
          CascadeSkip(id, origin);
        }
        return;
      }
      globalInFlight := globalInFlight + 1;
      if op.tag.Some? {
        tagInFlight := tagInFlight[op.tag.value := Count(tagInFlight, op.tag.value) + 1];
      }
      entries := entries + [Start(id)];
      running := running[id := op.fn(DepResults(op.deps, results))];
    }

    /** The finally clause of `runOp`. */
    method Finally(id: Id)
      requires id in c.ops
      modifies this`globalInFlight, this`tagInFlight, this`running, this`wakes
      ensures Snap() == FreeSlot(c, old(Snap()), id)
    {
      var tag := c.ops[id].tag;
      globalInFlight := globalInFlight - 1;
      if tag.Some? {
        tagInFlight := tagInFlight[tag.value := (if tag.value in tagInFlight then tagInFlight[tag.value] else 1) - 1];
      }
      running := running - {id};
      wakes := wakes + 1;
    }

    /** The try clause after the await: record the result and release the dependents. */
    method Resolved(id: Id, v: Value)
      requires WellFormed(c, Snap()) && id in running && running[id] == Success(v)
      modifies this
      ensures Snap() == Settle(c, old(Snap()), id)
    {
      ghost var s := Snap();
      RecordThenFree(c, s, id, v);
      hide Release, Settle, FreeSlot, WellFormed;
      results := results[id := v];
      entries := entries + [End(id, None)];
      pendingCount := pendingCount - 1;
      pending, ready := ReleaseAll(Get(c.dependents, id), pending, ready, failed);
      assert Snap() == RecordOk(c, s, id, v);
      Finally(id);
    }

    /** The catch clause: record the failure and skip everything below it. */
    method Rejected(id: Id, message: string)
      requires WellFormed(c, Snap()) && id in running && running[id] == Failure(message)
      modifies this
      ensures Snap() == Settle(c, old(Snap()), id)
    {
      ghost var s := Snap();
      CascadeThenFree(c, s, id, message);
      hide Cascade, Settle, FreeSlot, WellFormed, Closed;
      failed := failed + {id};
      failureReason := failureReason[id := id];
      entries := entries + [End(id, Some(message))];
      pendingCount := pendingCount - 1;
      assert Snap() == RecordError(s, id, message);
      CascadeSkip(id, id);
      Finally(id);
    }

    /** The rest of `runOp` once the promise settled. */
    method Continue(id: Id)
      requires WellFormed(c, Snap()) && id in running
      modifies this
      ensures Snap() == Settle(c, old(Snap()), id)
    {
      match running[id] {
        case Success(v) => Resolved(id, v);
        case Failure(message) => Rejected(id, message);
      }
    }

    /** Run the ready operation at index i, which has just been taken off the queue. */
    method DispatchAt(i: nat)
      requires WellFormed(c, Snap()) && i < |ready|
      modifies this
      ensures Snap() == Dispatch(c, old(Snap()), i)
    {
      var id := ready[i];
      assert id in ready;
      ready := RemoveAt(ready, i);
      StartOp(id);
      if id in c.throwsSync && id in running && running[id].Failure? {
        Continue(id);
      }
    }

    /** Drain the ready queue while the caps allow. */
    method DrainReady() returns (dispatched: bool)
      requires WellFormed(c, Snap())
      modifies this
      ensures (Snap(), dispatched) == Drain(c, old(Snap()), 0)
    {
      dispatched := false;
      var i := 0;
      while i < |ready|
        invariant i <= |ready| && WellFormed(c, Snap())
        invariant var (s, d) := Drain(c, Snap(), i);
                  (s, d || dispatched) == Drain(c, old(Snap()), 0)
        decreases |ready| - i
      {
        var id := ready[i];
        assert id in ready;
        if id in failed {
          ready := RemoveAt(ready, i);
        } else if !CanDispatchNow(id) {
          i := i + 1;
        } else {
          DispatchShrinks(c, Snap(), i);
          DispatchAt(i);
          dispatched := true;
        }
      }
    }

    function CanDispatchNow(id: Id): (r: bool)
      requires id in c.ops
      reads this
      ensures r == CanDispatch(c, Snap(), id)
    {
      globalInFlight < c.globalCap &&
      (c.ops[id].tag.Some? && c.ops[id].tag.value in c.tagCaps ==>
         Count(tagInFlight, c.ops[id].tag.value) < c.tagCaps[c.ops[id].tag.value])
    }

    /** The await on the wakeup promise: at least one running operation settles, and
        any number of others may before the loop resumes, in any order. */
    method AwaitWakeup(ghost m: map<Id, Status>, ghost order: seq<Id>, ghost before: seq<System>)
      returns (ghost trace: seq<System>)
      requires ValidConfig(c, order) && Inv(c, m, Snap(), []) && running != map[]
      requires IsRun(c, order, before) && before != [] && Last(before) == System(Awaiting(wakes), Snap())
      modifies this
      ensures Inv(c, m, Snap(), []) && Work(Snap()) < old(Work(Snap()))
      ensures IsRun(c, order, trace) && trace != [] && Last(trace).s == Snap() && LoopEnabled(Last(trace))
    {
      hide Inv, Settle, Work, ValidConfig, Adjacent, IsRun;
      ValidConfigParts(c, order);
      InvWellFormed(c, m, Snap());
      ghost var key := PickKey(running);
      var id :| id in running;
      ghost var loop := Last(before).loop;
      SettleInv(c, m, Snap(), id);
      SettleProgress(c, Snap(), id);
      RunAppend(c, order, before, Settled(id), System(loop, Settle(c, Snap(), id)));
      Continue(id);
      trace := before + [System(loop, Snap())];
      while *
        invariant Inv(c, m, Snap(), []) && Work(Snap()) < old(Work(Snap())) && wakes > old(wakes)
        invariant IsRun(c, order, trace) && trace != [] && Last(trace) == System(loop, Snap())
        decreases Work(Snap())
      {
        WorkBound(c, m, Snap());
        WorkNonNegative(c, m, Snap());
        if running == map[] {
          break;
        }
        InvWellFormed(c, m, Snap());
        ghost var key := PickKey(running);
        var next :| next in running;
        SettleInv(c, m, Snap(), next);
        SettleProgress(c, Snap(), next);
        RunAppend(c, order, trace, Settled(next), System(loop, Settle(c, Snap(), next)));
        Continue(next);
        trace := trace + [System(loop, Snap())];
      }
    }

    /** The scheduler loop: it terminates with every operation ended, having taken
        neither guard nor the bail-out, and what it went through is a run. */
    method Loop(ghost m: map<Id, Status>, ghost order: seq<Id>) returns (ghost trace: seq<System>)
      requires ValidConfig(c, order) && Inv(c, m, Snap(), []) && IsInitial(c, order, System(Looping, Snap()))
      modifies this
      ensures Inv(c, m, Snap(), []) && pendingCount == 0 && running == map[]
      ensures IsRun(c, order, trace) && trace != [] && Last(trace) == System(Done, Snap())
    {
      hide Inv, Drain, Work, ValidConfig, Adjacent, CanDispatch, IsRun, IsInitial, WellFormed, Initial, AfterDrain,
           Closed, IsTopo, Steps, Iterate, Next;
      ValidConfigParts(c, order);
      trace := [System(Looping, Snap())];
      RunStart(c, order, Snap());
      while pendingCount > 0
        invariant Inv(c, m, Snap(), [])
        invariant IsRun(c, order, trace) && trace != [] && Last(trace).s == Snap() && LoopEnabled(Last(trace))
        decreases Work(Snap())
      {
        InvWellFormed(c, m, Snap());
        PassFacts(c, m, order, trace, Snap());
        var dispatched := DrainReady();
        trace := trace + [AfterDrain(Snap(), dispatched)];
        if pendingCount == 0 {
          break;
        }
        if !dispatched {
          if running == map[] && ready == [] {
            break;
          }
          trace := AwaitWakeup(m, order, trace);
        }
      }
      WorkBound(c, m, Snap());
      if LoopEnabled(Last(trace)) {
        InvWellFormed(c, m, Snap());
        DoneAppend(c, order, trace, Snap());
        trace := trace + [System(Done, Snap())];
      }
    }
  }

  lemma WorkNonNegative(c: Config, m: map<Id, Status>, s: State)
    requires Inv(c, m, s, [])
    ensures Work(s) >= 0 && s.pendingCount >= 0
  {
    WorkBound(c, m, s);
  }

  datatype Options = Options(concurrency: Option<Limits.Cap>, byTag: seq<(string, Limits.Cap)>)

  /** The caps of a run are those that the options resolve to. */
  ghost predicate AsAsked(c: Config, opts: Options, cpus: nat, tier: Option<string>) {
    && c.globalCap == Limits.GlobalCap(opts.concurrency, cpus)
    && (forall t :: t in c.tagCaps ==> exists i :: 0 <= i < |opts.byTag| && opts.byTag[i].0 == t)
    && (forall i :: 0 <= i < |opts.byTag| ==>
          var (tag, cap) := opts.byTag[i];
          match Limits.TagCap(tag, cap, cpus, tier)
          case None => tag !in c.tagCaps
          case Some(n) => tag in c.tagCaps && c.tagCaps[tag] == n)
  }

  /** A finished run of the plan under these caps that ends with these results and this log. */
  ghost predicate Conducted(c: Config, order: seq<Id>, trace: seq<System>, results: map<Id, Value>, log: seq<Entry>) {
    && ValidConfig(c, order) && IsRun(c, order, trace) && Last(trace).loop.Done?
    && Last(trace).s.results == results && Last(trace).s.log == log
  }

  /** What the function of the operation does with the results of its dependencies, in
      declared order. */
  ghost predicate GoesTo(op: Op, results: map<Id, Value>, outcome: Outcome) {
    exists args: seq<Option<Value>> ::
      && |args| == |op.deps| && op.fn(args) == outcome
      && forall i :: 0 <= i < |args| ==> op.deps[i] in results && args[i] == Some(results[op.deps[i]])
  }

  /** The results, and the failures in the log, solve the equations of the plan. */
  ghost predicate Solved(ops: Ops, results: map<Id, Value>, log: seq<Entry>) {
    && (forall x :: x in results ==> x in ops && GoesTo(ops[x], results, Success(results[x])))
    && (forall x :: x in ops && x !in results ==>
          || (exists d :: d in ops[x].deps && d !in results)
          || (exists message :: GoesTo(ops[x], results, Failure(message)) && End(x, Some(message)) in log))
  }

  lemma FaithfulSolves(ops: Ops, m: map<Id, Status>, results: map<Id, Value>, log: seq<Entry>)
    requires IsSemantics(ops, m) && Faithful(ops, m, results, log)
    ensures Solved(ops, results, log)
  {
    forall x | x in ops && forall d :: d in ops[x].deps ==> d in results
      ensures OfOutcome(ops[x].fn(DepValues(ops[x].deps, m))) == m[x]
      ensures GoesTo(ops[x], results, ops[x].fn(DepValues(ops[x].deps, m)))
    {
      var deps, args := ops[x].deps, DepValues(ops[x].deps, m);
      assert DepsSucceeded(deps, m);
      forall i | 0 <= i < |args| ensures deps[i] in results && args[i] == Some(results[deps[i]]) {
        var d := deps[i];
        assert d in deps;
      }
    }
    forall x | x in results ensures x in ops && GoesTo(ops[x], results, Success(results[x])) {
      assert m[x] == StatusOf(ops[x], m);
    }
  }

  /** `Executor.run`: it fails exactly when the sort does, and otherwise returns what
      evaluating the plan one operation at a time returns, in whichever order. What it
      went through is a run under the caps asked for, and the log shows it: at no point
      are more operations started and not ended than the global cap, or the cap of a tag. */
  method RunPlan(plan: Plan, opts: Options, cpus: nat, tier: Option<string>, throwsSync: set<Id>)
    returns (r: Result<(map<Id, Value>, seq<Entry>), CycleEdge>)
    requires plan.Valid()
    requires forall i, j :: 0 <= i < j < |opts.byTag| ==> opts.byTag[i].0 != opts.byTag[j].0
    ensures r.Err? <==> Cyclic(plan.ops) || Dangling(plan.ops)
    ensures r.Ok? ==> forall order, m ::
              IsTopo(plan.ops, order) && IsSemantics(plan.ops, m) ==> Faithful(plan.ops, m, r.value.0, r.value.1)
    ensures r.Ok? ==> exists order :: IsTopo(plan.ops, order)
    ensures r.Ok? ==> Solved(plan.ops, r.value.0, r.value.1)
    ensures r.Ok? ==> exists c: Config, order, trace ::
              && c.ops == plan.ops && c.throwsSync == throwsSync && AsAsked(c, opts, cpus, tier)
              && Conducted(c, order, trace, r.value.0, r.value.1) && Capped(c, r.value.1)
  {
    hide Inv, IsSemantics, Faithful, Sequential, Adjacent, Cyclic, Dangling, Capped, Solved, IsRun, IsInitial;
    var sorted := plan.Toposort();
    if sorted.Err? {
      return Err(sorted.error);
    }
    var order, ops := sorted.value, plan.ops;
    var tagCaps := Limits.TagCaps(opts.byTag, cpus, tier);
    var pending, dependents := CountDeps(ops, order);
    var ready := ZeroCounters(order, pending);
    var c := Config(ops, dependents, Limits.GlobalCap(opts.concurrency, cpus), tagCaps, throwsSync);
    assert AsAsked(c, opts, cpus, tier);
    var run := new Run(c, order, pending, ready);
    ghost var m := Sequential(ops, order);
    SequentialIsSemantics(ops, order);
    StartIsInitial(c, order, pending, ready);
    InitialInv(c, order, System(Looping, run.Snap()));
    ghost var trace := run.Loop(m, order);
    FinishedFaithful(c, m, run.Snap());
    FaithfulSolves(ops, m, run.results, run.entries);
    LogCapped(c, order, trace, |trace| - 1);
    assert Conducted(c, order, trace, run.results, run.entries);
    forall order', m' | IsTopo(ops, order') && IsSemantics(ops, m')
      ensures Faithful(ops, m', run.results, run.entries)
    {
      SemanticsUnique(ops, order, m, m');
    }
    r := Ok((run.results, run.entries));
  }

  lemma StartIsInitial(c: Config, order: seq<Id>, pending: map<Id, int>, ready: seq<Id>)
    requires pending.Keys == c.ops.Keys && forall x :: x in c.ops ==> pending[x] == |c.ops[x].deps|
    requires NoDup(ready) && forall x :: x in ready <==> x in c.ops && pending[x] == 0
    ensures IsInitial(c, order, System(Looping, Initial(|order|, pending, ready)))
  {
  }
}
