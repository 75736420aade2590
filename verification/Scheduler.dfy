/** The executor as a state machine over its atomic steps (packages/parallel/src/executor.ts).

    Between two awaits the program runs uninterrupted, so a step is one of: an
    iteration of the scheduler loop (which drains the ready queue), or the
    continuation of one operation whose promise settled. */
module Scheduler {
  import opened Common
  import opened Plans

  /** One lineage record. Name and tag of the operation are read off its id. */
  datatype Entry =
    | Start(op: Id)
    | End(op: Id, error: Option<string>)
    | Skip(op: Id, origin: Id)

  /** What a run is given: the plan, its reverse adjacency, the resolved caps, and
      the operations whose function throws before it returns a promise. */
  datatype Config = Config(ops: Ops, dependents: map<Id, seq<Id>>, globalCap: int,
                           tagCaps: map<string, int>, throwsSync: set<Id>)

  /** The variables of a run. `running` holds the suspended operations with the
      outcome their promise will settle to. */
  datatype State = State(results: map<Id, Value>, failed: set<Id>, reason: map<Id, Id>,
                         pending: map<Id, int>, ready: seq<Id>, running: map<Id, Outcome>,
                         globalInFlight: int, tagInFlight: map<string, int>,
                         pendingCount: int, wakes: nat, log: seq<Entry>)

  /** Where the scheduler loop is; `Awaiting(n)` waits for the wakeup promise that
      the (n+1)-st call of `wake` resolves. */
  datatype Loop = Looping | Awaiting(seen: nat) | Done

  datatype System = System(loop: Loop, s: State)

  predicate Closed(c: Config) {
    forall d :: d in c.dependents ==> forall x :: x in c.dependents[d] ==> x in c.ops
  }

  predicate WellFormed(c: Config, s: State) {
    && Closed(c)
    && s.pending.Keys == c.ops.Keys
    && s.running.Keys <= c.ops.Keys
    && forall x :: x in s.ready ==> x in c.ops
  }

  function Count(m: map<string, int>, t: string): int {
    if t in m then m[t] else 0
  }

  function CanDispatch(c: Config, s: State, id: Id): bool
    requires id in c.ops
  {
    s.globalInFlight < c.globalCap &&
    match c.ops[id].tag
    case None => true
    case Some(t) => t in c.tagCaps ==> Count(s.tagInFlight, t) < c.tagCaps[t]
  }

  /** Flush the transitive dependents on the stack as skipped. */
  function Cascade(c: Config, s: State, stack: seq<Id>, origin: Id): (r: State)
    requires Closed(c) && forall x :: x in stack ==> x in c.ops
    ensures r == s.(failed := r.failed, pendingCount := r.pendingCount, log := r.log)
    decreases c.ops.Keys - s.failed, |stack|
  {
    if stack == [] then s
    else
      var id := stack[|stack| - 1];
      var rest := stack[..|stack| - 1];
      if id in s.failed then Cascade(c, s, rest, origin)
      else Cascade(c, SkipOne(s, id, origin), rest + Get(c.dependents, id), origin)
  }

  function SkipOne(s: State, id: Id, origin: Id): State {
    s.(failed := s.failed + {id}, log := s.log + [Skip(id, origin)], pendingCount := s.pendingCount - 1)
  }

  function DepResults(deps: seq<Id>, results: map<Id, Value>): seq<Option<Value>> {
    seq(|deps|, i requires 0 <= i < |deps| => if deps[i] in results then Some(results[deps[i]]) else None)
  }

  function FirstFailed(deps: seq<Id>, failed: set<Id>): (r: Option<Id>)
    ensures r.None? ==> forall d :: d in deps ==> d !in failed
    ensures r.Some? ==> r.value in deps && r.value in failed
  {
    if deps == [] then None
    else if deps[0] in failed then Some(deps[0])
    else FirstFailed(deps[1..], failed)
  }

  function TakeSlot(c: Config, s: State, id: Id): State
    requires id in c.ops
  {
    s.(globalInFlight := s.globalInFlight + 1,
       tagInFlight := match c.ops[id].tag
                      case None => s.tagInFlight
                      case Some(t) => s.tagInFlight[t := Count(s.tagInFlight, t) + 1])
  }

  function FreeSlot(c: Config, s: State, id: Id): State
    requires id in c.ops
  {
    s.(globalInFlight := s.globalInFlight - 1,
       tagInFlight := match c.ops[id].tag
                      case None => s.tagInFlight
                      case Some(t) => s.tagInFlight[t := (if t in s.tagInFlight then s.tagInFlight[t] else 1) - 1],
       running := s.running - {id},
       wakes := s.wakes + 1)
  }

  /** `runOp` up to its await: the guard on failed dependencies, else the start. */
  function Begin(c: Config, s: State, id: Id): (r: State)
    requires WellFormed(c, s) && id in c.ops
    ensures WellFormed(c, r) && r.ready == s.ready
  {
    match FirstFailed(c.ops[id].deps, s.failed)
    case Some(d) =>
      if id in s.failed then s
      else
        var origin := if d in s.reason then s.reason[d] else d;
        Cascade(c, SkipOne(s, id, origin), Get(c.dependents, id), origin)
    case None =>
      var outcome := c.ops[id].fn(DepResults(c.ops[id].deps, s.results));
      TakeSlot(c, s, id).(log := s.log + [Start(id)], running := s.running[id := outcome])
  }

  /** The continuation of `runOp` once its promise settled. */
  function Settle(c: Config, s: State, id: Id): (r: State)
    requires WellFormed(c, s) && id in s.running
    ensures WellFormed(c, r)
  {
    var s0 := FreeSlot(c, s, id);
    match s.running[id]
    case Success(v) =>
      var (pending, ready) := Release(Get(c.dependents, id), s.pending, s.ready, s.failed);
      ReleaseDomain(Get(c.dependents, id), s.pending, s.ready, s.failed);
      s0.(results := s.results[id := v], log := s.log + [End(id, None)],
          pendingCount := s.pendingCount - 1, pending := pending, ready := ready)
    case Failure(message) =>
      Cascade(c, s0.(failed := s.failed + {id}, reason := s.reason[id := id],
                     log := s.log + [End(id, Some(message))], pendingCount := s.pendingCount - 1),
              Get(c.dependents, id), id)
  }

  function RemoveAt(s: seq<Id>, i: nat): seq<Id>
    requires i < |s|
  {
    s[..i] + s[i + 1..]
  }

  /** Take the i-th ready operation and run it; a synchronous throw settles it at once. */
  function Dispatch(c: Config, s: State, i: nat): (r: State)
    requires WellFormed(c, s) && i < |s.ready|
    ensures WellFormed(c, r)
  {
    var id := s.ready[i];
    assert id in s.ready;
    var s1 := Begin(c, s.(ready := RemoveAt(s.ready, i)), id);
    if id in c.throwsSync && id in s1.running && s1.running[id].Failure? then Settle(c, s1, id) else s1
  }

  /** One pass over the ready queue from index i; the flag says whether it dispatched. */
  function Drain(c: Config, s: State, i: nat): (r: (State, bool))
    requires WellFormed(c, s) && i <= |s.ready|
    ensures WellFormed(c, r.0)
    decreases |s.ready| - i
  {
    if i == |s.ready| then (s, false)
    else
      var id := s.ready[i];
      assert id in s.ready;
      if id in s.failed then Drain(c, s.(ready := RemoveAt(s.ready, i)), i)
      else if !CanDispatch(c, s, id) then Drain(c, s, i + 1)
      else (Drain(c, Dispatch(c, s, i), i).0, true)
  }

  /** One iteration of the scheduler loop. */
  function Iterate(c: Config, s: State): (r: System)
    requires WellFormed(c, s)
    ensures WellFormed(c, r.s)
  {
    if s.pendingCount <= 0 then System(Done, s)
    else
      var (s', dispatched) := Drain(c, s, 0);
      if s'.pendingCount == 0 then System(Done, s')
      else if dispatched then System(Looping, s')
      else if s'.running == map[] && s'.ready == [] then System(Done, s')
      else System(Awaiting(s'.wakes), s')
  }

  function Initial(count: int, pending: map<Id, int>, ready: seq<Id>): State {
    State(map[], {}, map[], pending, ready, map[], 0, map[], count, 0, [])
  }

  predicate LoopEnabled(sys: System) {
    sys.loop.Looping? || (sys.loop.Awaiting? && sys.loop.seen < sys.s.wakes)
  }

  datatype Step = Tick | Settled(id: Id)

  /** The interleaving is free: any running operation may settle between two ticks. */
  predicate Next(c: Config, sys: System, step: Step, sys': System)
    requires WellFormed(c, sys.s)
  {
    match step
    case Tick => LoopEnabled(sys) && sys' == Iterate(c, sys.s)
    case Settled(id) => id in sys.s.running && sys' == System(sys.loop, Settle(c, sys.s, id))
  }
}
