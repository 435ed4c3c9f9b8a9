/**
 The static-guard protocol of src/orbis_cxa_guard.c as a state machine: any number of threads and
 guards, one mutex, one condition variable. A step is one section between taking and giving up the
 mutex, or the broadcast that follows one; between any two steps of a thread every other thread may
 take any number of its own.

 The condition variable releases the mutex and parks in one step, wakes everybody on a broadcast,
 may wake anybody at any time, and may refuse to wait at all.
 */
module GuardProtocol {
  import opened GuardTable

  type Thread(==, !new) = nat

  /** Where a thread stands: outside this code (running its own, or an initializer), about to take
      the mutex for a guard, parked on the condition variable, or owing a broadcast. */
  datatype Mode = Outside | Trying(g: Guard) | Parked(g: Guard) | Owing

  /** running: the guards this thread has claimed and neither released nor aborted. */
  datatype ThreadState = ThreadState(mode: Mode, running: set<Guard>)

  /** What the callers of the three entry points observe. */
  datatype Event =
    | Won(t: Thread, g: Guard)        // acquire returned 1
    | Seen(t: Thread, g: Guard)       // acquire returned 0
    | Released(t: Thread, g: Guard)
    | Aborted(t: Thread, g: Guard)
    | Recursed(t: Thread, g: Guard)   // the recursion abort fired

  datatype State = State(shared: Shared, threads: map<Thread, ThreadState>, crashed: bool, log: seq<Event>)

  datatype Step =
    | Call(t: Thread, g: Guard)
    | Turn(t: Thread, refused: bool)
    | WakeUp(t: Thread)
    | Release(t: Thread, g: Guard)
    | Abort(t: Thread, g: Guard)
    | Broadcast(t: Thread)

  /** The identities threads read from their thread pointer. */
  type Identities = Thread -> Identity

  /** Different threads have different identities, unless they have none. */
  ghost predicate Distinct(id: Identities) {
    forall t, u :: t != u && id(t) != 0 ==> id(t) != id(u)
  }

  // ------------------------------------------------------------------------- steps

  predicate Enabled(s: State, step: Step) {
    && !s.crashed
    && step.t in s.threads
    && var me := s.threads[step.t];
    match step
    case Call(_, g) => me.mode == Outside && g != NULL
    case Turn(_, _) => me.mode.Trying?
    case WakeUp(_) => me.mode.Parked?
    case Release(_, g) => me.mode == Outside && g in me.running
    case Abort(_, g) => me.mode == Outside && g in me.running
    case Broadcast(_) => me.mode == Owing
  }

  function SetMode(s: State, t: Thread, m: Mode): State
    requires t in s.threads
  {
    s.(threads := s.threads[t := s.threads[t].(mode := m)])
  }

  function Next(id: Identities, s: State, step: Step): State
    requires Enabled(s, step)
  {
    match step
    case Call(t, g) => SetMode(s, t, Trying(g))
    case Turn(t, refused) => AfterTurn(id, s, t, refused)
    case WakeUp(t) => SetMode(s, t, Trying(s.threads[t].mode.g))
    case Release(t, g) => AfterFinish(s, t, g, true)
    case Abort(t, g) => AfterFinish(s, t, g, false)
    case Broadcast(t) => SetMode(s, t, Outside).(threads := AllAwake(SetMode(s, t, Outside).threads))
  }

  function AfterTurn(id: Identities, s: State, t: Thread, refused: bool): State
    requires Enabled(s, Turn(t, refused))
  {
    var me := s.threads[t];
    var g := me.mode.g;
    var (outcome, shared) := AcquireTurn(s.shared, g, id(t));
    match outcome
    case AlreadyDone => SetMode(s, t, Outside).(log := s.log + [Seen(t, g)])
    case Claimed =>
      s.(shared := shared,
         threads := s.threads[t := ThreadState(Outside, me.running + {g})],
         log := s.log + [Won(t, g)])
    case Recursion => SetMode(s, t, Outside).(crashed := true, log := s.log + [Recursed(t, g)])
    case MustWait =>
      SetMode(s, t, if refused then Trying(g) else Parked(g)).(shared := shared)
  }

  function AfterFinish(s: State, t: Thread, g: Guard, done: bool): State
    requires t in s.threads
  {
    var (wake, shared) := FinishTurn(s.shared, g, done);
    s.(shared := shared,
       threads := s.threads[t := ThreadState(if wake then Owing else Outside, s.threads[t].running - {g})],
       log := s.log + [if done then Released(t, g) else Aborted(t, g)])
  }

  function AllAwake(threads: map<Thread, ThreadState>): map<Thread, ThreadState> {
    map t | t in threads ::
      if threads[t].mode.Parked? then threads[t].(mode := Trying(threads[t].mode.g)) else threads[t]
  }

  ghost predicate Initial(s: State) {
    && s.shared == Shared(map[], seq(OWNERS, _ => FREE_SLOT))
    && (forall t :: t in s.threads ==> s.threads[t] == ThreadState(Outside, {}))
    && !s.crashed && s.log == []
  }

  /** The state after a run of steps, or None when one of them was not enabled. */
  ghost predicate Run(id: Identities, s: State, steps: seq<Step>, end: State)
    decreases |steps|
  {
    if steps == [] then s == end
    else
      var n := |steps| - 1;
      exists mid :: Run(id, s, steps[..n], mid) && Enabled(mid, steps[n]) && Next(id, mid, steps[n]) == end
  }

  ghost predicate Reachable(id: Identities, s: State) {
    exists s0, steps :: Initial(s0) && Run(id, s0, steps, s)
  }

  // ------------------------------------------------------------------------- the specification

  /** The life of one guard as its callers see it: claimed by one thread at a time, aborted back to
      idle, or released once and for all. Anything else is wrong. */
  datatype Phase = Idle | InProgress(t: Thread) | Done | Wrong

  function After(p: Phase, e: Event): Phase {
    match (p, e)
    case (Idle, Won(t, _)) => InProgress(t)
    case (InProgress(t), Released(u, _)) => if t == u then Done else Wrong
    case (InProgress(t), Aborted(u, _)) => if t == u then Idle else Wrong
    case (InProgress(t), Recursed(u, _)) => if t == u then p else Wrong
    case (Done, Seen(_, _)) => Done
    case _ => Wrong
  }

  function PhaseOf(log: seq<Event>, g: Guard): Phase {
    if log == [] then Idle
    else
      var before := PhaseOf(log[..|log| - 1], g);
      if log[|log| - 1].g == g then After(before, log[|log| - 1]) else before
  }

  // ------------------------------------------------------------------------- the invariant

  ghost predicate Runs(s: State, t: Thread, g: Guard) {
    t in s.threads && g in s.threads[t].running
  }

  ghost predicate Owes(s: State, t: Thread) {
    t in s.threads && s.threads[t].mode == Owing
  }

  ghost predicate ParkedOn(s: State, t: Thread, g: Guard) {
    t in s.threads && s.threads[t].mode == Parked(g)
  }

  /** The two bytes of a guard say what phase its callers have seen. */
  ghost predicate BytesTellPhase(s: State) {
    forall g :: CellTellsPhase(s.shared.At(g), PhaseOf(s.log, g))
  }

  ghost predicate CellTellsPhase(c: Cell, p: Phase) {
    && p != Wrong
    && (c.done <==> p == Done)
    && (c.pending <==> p.InProgress?)
    && (c.waiting ==> c.pending)
  }

  /** A thread runs an initializer exactly when the phase says so; never the null guard's. */
  ghost predicate RunnersTellPhase(s: State) {
    && (forall t, g :: Runs(s, t, g) ==> PhaseOf(s.log, g) == InProgress(t) && g != NULL)
    && (forall g :: PhaseOf(s.log, g).InProgress? ==> Runs(s, PhaseOf(s.log, g).t, g))
  }

  /** Every used slot names a guard in progress and the identity of its runner, once. */
  ghost predicate SlotsTellOwners(id: Identities, s: State) {
    var o := s.shared.owners;
    && |o| == OWNERS
    && (forall i :: 0 <= i < |o| && o[i].guard != NULL ==> SlotTellsOwner(id, s, o[i]))
    && (forall i, j :: 0 <= i < j < |o| && o[i].guard != NULL ==> o[i].guard != o[j].guard)
  }

  ghost predicate SlotTellsOwner(id: Identities, s: State, slot: Slot) {
    var p := PhaseOf(s.log, slot.guard);
    p.InProgress? && slot.owner == id(p.t)
  }

  /** A parked thread is covered: its guard's waiting flag is set, or somebody owes a broadcast. */
  ghost predicate ParkedAreCovered(s: State) {
    forall t, g :: ParkedOn(s, t, g) ==> s.shared.At(g).waiting || SomebodyOwes(s)
  }

  ghost predicate SomebodyOwes(s: State) {
    exists u :: Owes(s, u)
  }

  ghost predicate ModesNameGuards(s: State) {
    forall t :: t in s.threads && (s.threads[t].mode.Trying? || s.threads[t].mode.Parked?)
      ==> s.threads[t].mode.g != NULL
  }

  ghost predicate Invariant(id: Identities, s: State) {
    && BytesTellPhase(s)
    && RunnersTellPhase(s)
    && SlotsTellOwners(id, s)
    && ParkedAreCovered(s)
    && ModesNameGuards(s)
  }
}
