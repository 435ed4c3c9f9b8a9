/**
 _umtx_op of include/sys/umtx.h as its caller sees it: the code of one call, with any steps of other threads
 between its own, and what each result says about what happened meanwhile.
 */
module UmtxCall {
  import opened Wrappers
  import opened Umtx

  /** What others can do to a thread inside a call: wake it. */
  ghost predicate OnlyWoken(was: Mode, now: Mode) {
    now == was || (was.Parked? && now.Woken? && now.a == was.a)
  }

  lemma RunGoesOn(s0: State, trace: seq<Step>, s: State, step: Step)
    requires Run(s0, trace, s) && Enabled(s, step)
    ensures Run(s0, trace + [step], Next(s, step))
  {
    hide Enabled, Next;
    assert (trace + [step])[..|trace|] == trace;
  }

  lemma OthersOnlyWake(s: State, step: Step, t: Thread)
    requires Enabled(s, step) && t in s.threads && (step.t != t || step.Rouse?)
    ensures t in Next(s, step).threads && OnlyWoken(s.threads[t].mode, Next(s, step).threads[t].mode)
  {
    hide BucketFor;
  }

  // ------------------------------------------------------------------------- what woke a sleeper

  /** Step k of the run found t asleep, and woke it without its deadline having passed. */
  ghost predicate WokenAt(s0: State, trace: seq<Step>, k: nat, t: Thread) {
    k < |trace| && exists mid :: Run(s0, trace[..k], mid) && Enabled(mid, trace[k]) && Wakes(mid, trace[k], t)
  }

  /** t sleeps, and the step is a wake for its bucket by another thread, or a waking for no reason. */
  ghost predicate Wakes(s: State, step: Step, t: Thread) {
    && t in s.threads && s.threads[t].mode.Parked?
    && (step == Rouse(t, false)
        || (step.Broadcast? && step.t in s.threads && s.threads[step.t].mode.WakeLocked?
            && BucketFor(s.threads[step.t].mode.a) == BucketFor(s.threads[t].mode.a)))
  }

  ghost predicate WokenSometime(s0: State, trace: seq<Step>, t: Thread) {
    exists k: nat :: WokenAt(s0, trace, k, t)
  }

  /** How t was woken in the run: not at all, or by its deadline or not. */
  ghost predicate Tale(s0: State, trace: seq<Step>, t: Thread, timedOut: Option<bool>) {
    && (Rouse(t, true) in trace <==> timedOut == Some(true))
    && (WokenSometime(s0, trace, t) <==> timedOut == Some(false))
  }

  /** What the mode of a thread inside a call says about that. */
  function Known(m: Mode): Option<bool> {
    match m
    case Woken(_, timedOut) => Some(timedOut)
    case Leaving(_, timedOut) => Some(timedOut)
    case _ => None
  }

  lemma {:induction false} RunIsDeterministic(s0: State, trace: seq<Step>, a: State, b: State)
    requires Run(s0, trace, a) && Run(s0, trace, b)
    ensures a == b
    decreases |trace|
  {
    hide Next, Enabled;
    if trace != [] {
      var n := |trace| - 1;
      var x :| Run(s0, trace[..n], x) && Enabled(x, trace[n]) && Next(x, trace[n]) == a;
      var y :| Run(s0, trace[..n], y) && Enabled(y, trace[n]) && Next(y, trace[n]) == b;
      RunIsDeterministic(s0, trace[..n], x, y);
    }
  }

  /** One step more adds at most itself to the tale. */
  lemma WokenOnceMore(s0: State, trace: seq<Step>, s: State, step: Step, t: Thread)
    requires Run(s0, trace, s) && Enabled(s, step)
    ensures WokenSometime(s0, trace + [step], t) <==> WokenSometime(s0, trace, t) || Wakes(s, step, t)
  {
    hide Run, Enabled, Wakes;
    var all := trace + [step];
    forall k: nat | k < |trace| ensures WokenAt(s0, all, k, t) <==> WokenAt(s0, trace, k, t) {
      assert all[..k] == trace[..k];
    }
    assert all[..|trace|] == trace && all[|trace|] == step;
    if WokenAt(s0, all, |trace|, t) {
      var mid :| Run(s0, all[..|trace|], mid) && Enabled(mid, step) && Wakes(mid, step, t);
      RunIsDeterministic(s0, trace, mid, s);
    }
    if Wakes(s, step, t) {
      assert WokenAt(s0, all, |trace|, t);
    }
    if WokenSometime(s0, trace, t) {
      var k: nat :| WokenAt(s0, trace, k, t);
      assert WokenAt(s0, all, k, t);
    }
  }

  /** The tale that the mode tells stays true whatever others do, and whatever wakes t. */
  lemma OthersTell(s0: State, trace: seq<Step>, s: State, step: Step, t: Thread)
    requires Run(s0, trace, s) && Enabled(s, step) && t in s.threads && (step.t != t || step.Rouse?)
    requires Tale(s0, trace, t, Known(s.threads[t].mode))
    ensures t in Next(s, step).threads && Tale(s0, trace + [step], t, Known(Next(s, step).threads[t].mode))
  {
    hide Run, BucketFor, WokenSometime;
    WokenOnceMore(s0, trace, s, step, t);
  }

  /** And the steps of t itself add nothing to it. */
  lemma OwnStepTellsNothing(s0: State, trace: seq<Step>, s: State, step: Step, t: Thread, timedOut: Option<bool>)
    requires Run(s0, trace, s) && Enabled(s, step) && step.t == t && !step.Rouse?
    requires !s.threads[t].mode.Parked? && Tale(s0, trace, t, timedOut)
    ensures Tale(s0, trace + [step], t, timedOut)
  {
    hide Run, BucketFor, WokenSometime;
    WokenOnceMore(s0, trace, s, step, t);
  }

  lemma NothingYet(s0: State, t: Thread)
    ensures Tale(s0, [], t, None)
  {
  }

  // ------------------------------------------------------------------------- the call

  /** The memory and the locks that all threads share. trace tells what has happened to them since s0. */
  class Shared {
    var s: State

    constructor (s: State)
      requires Initial(s)
      ensures this.s == s && Invariant(s)
    {
      this.s := s;
    }

    /** One step, by whomever. */
    method Do(step: Step, ghost s0: State, ghost trace: seq<Step>) returns (ghost trace': seq<Step>)
      requires Invariant(s) && Enabled(s, step) && Run(s0, trace, s)
      modifies this
      ensures s == Next(old(s), step) && Invariant(s) && trace' == trace + [step] && Run(s0, trace', s)
    {
      hide *;
      StepKeepsInvariant(s, step);
      RunGoesOn(s0, trace, s, step);
      s := Next(s, step);
      trace' := trace + [step];
    }

    /** Other threads, and what wakes t, take the steps of gap that are possible when they come up. */
    method Others(t: Thread, gap: seq<Step>, ghost s0: State, ghost trace: seq<Step>)
      returns (ghost trace': seq<Step>)
      requires Invariant(s) && t in s.threads && Run(s0, trace, s)
      requires Tale(s0, trace, t, Known(s.threads[t].mode))
      modifies this
      ensures Invariant(s) && Run(s0, trace', s) && trace <= trace'
      ensures t in s.threads && OnlyWoken(old(s).threads[t].mode, s.threads[t].mode)
      ensures Tale(s0, trace', t, Known(s.threads[t].mode))
    {
      hide Invariant, Run, Enabled, Next, Tale, Known;
      trace' := trace;
      for i := 0 to |gap|
        invariant Invariant(s) && Run(s0, trace', s) && trace <= trace'
        invariant t in s.threads && OnlyWoken(old(s).threads[t].mode, s.threads[t].mode)
        invariant Tale(s0, trace', t, Known(s.threads[t].mode))
      {
        if Enabled(s, gap[i]) && (gap[i].t != t || gap[i].Rouse?) {
          OthersOnlyWake(s, gap[i], t);
          OthersTell(s0, trace', s, gap[i], t);
          trace' := Do(gap[i], s0, trace');
        }
      }
    }

    /** One of the steps of t itself, inside the call. */
    method Own(step: Step, ghost s0: State, ghost trace: seq<Step>, ghost woken: Option<bool>)
      returns (ghost trace': seq<Step>)
      requires Invariant(s) && Enabled(s, step) && Run(s0, trace, s) && step.t in s.threads
      requires !step.Rouse? && !s.threads[step.t].mode.Parked? && Tale(s0, trace, step.t, woken)
      modifies this
      ensures s == Next(old(s), step) && Invariant(s) && trace' == trace + [step] && Run(s0, trace', s)
      ensures Tale(s0, trace', step.t, woken)
    {
      hide *;
      OwnStepTellsNothing(s0, trace, s, step, step.t, woken);
      trace' := Do(step, s0, trace);
    }

    /** _umtx_op called by t, with what others do between its own steps. None when the call has not come
        back yet: it waits for a lock, or sleeps. looked is what it saw when it compared. A wait that slept
        timed out exactly when its deadline is what woke it; a wake has left nobody asleep on the word. */
    method UmtxOp(t: Thread, op: int, addr: Address, val: Long, gaps: seq<seq<Step>>)
      returns (r: Option<Result>, ghost trace: seq<Step>, ghost looked: Option<State>)
      requires Invariant(s) && t in s.threads && s.threads[t].mode.Outside? && |gaps| == 5
      modifies this
      ensures Invariant(s) && Run(old(s), trace, s) && t in s.threads
      ensures r.Some? ==> s.threads[t].mode == Outside(r.value)
      ensures r.Some? && op in {2, 3, 11, 15, 16} ==> LockIsFree(s, addr)
      ensures op in {2, 11, 15} && r.Some? ==>
        && looked.Some? && r.value in {WouldBlock, Slept, TimedOut}
        && (r.value == WouldBlock <==> looked.value.At(addr) != val % 0x1_0000_0000)
        && (r.value == TimedOut <==> Rouse(t, true) in trace)
        && (r.value == Slept <==> WokenSometime(old(s), trace, t))
      ensures op in {3, 16} && r.Some? ==> r.value == Awoke && AllAwakeSometime(old(s), trace, t, addr)
      ensures op !in {2, 3, 11, 15, 16} ==> r == Some(NoSys) && trace == [Begin(t, op, addr, val)]
      ensures looked.Some? ==> HasLock(looked.value, t, addr)
                               && exists k :: 0 <= k <= |trace| && Run(old(s), trace[..k], looked.value)
    {
      hide BucketFor, Invariant, Run, LockIsFree, HasLock, Tale, AllAwakeSometime;
      looked := None;
      RunNowhere(s);
      NothingYet(s, t);
      OwnStep(s, t);
      trace := Own(Begin(t, op, addr, val), old(s), [], None);
      match Dispatch(op) {
        case Unknown => return Some(NoSys), trace, looked;
        case Wake => r, trace := Wake(t, addr, gaps, old(s), trace);
        case Wait => r, trace, looked := Wait(t, addr, val % 0x1_0000_0000, gaps, old(s), trace);
      }
    }

    method Wake(t: Thread, addr: Address, gaps: seq<seq<Step>>, ghost s0: State, ghost trace0: seq<Step>)
      returns (r: Option<Result>, ghost trace: seq<Step>)
      requires Invariant(s) && t in s.threads && s.threads[t].mode == WakeWants(addr) && |gaps| == 5
      requires Run(s0, trace0, s) && Tale(s0, trace0, t, None)
      modifies this
      ensures Invariant(s) && Run(s0, trace, s) && t in s.threads
      ensures r.Some? ==> r.value == Awoke && s.threads[t].mode == Outside(Awoke) && LockIsFree(s, addr)
                          && AllAwakeSometime(s0, trace, t, addr)
    {
      hide BucketFor, Invariant, Run, Enabled, Next, LockIsFree, HasLock, Tale, AllAwakeSometime;
      trace := Others(t, gaps[0], s0, trace0);
      OwnStep(s, t);
      if s.holders[BucketFor(addr)] != None {
        return None, trace;
      }
      trace := Own(Lock(t), s0, trace, None);
      trace := Others(t, gaps[1], s0, trace);
      OwnStep(s, t);
      BroadcastWakesAll(s, t, addr);
      trace := Own(Broadcast(t), s0, trace, None);
      AwakeNow(s0, trace, s, t, addr);
      ghost var awake := trace;
      trace := Others(t, gaps[2], s0, trace);
      OwnStep(s, t);
      trace := Own(Unlock(t), s0, trace, None);
      AwakeEarlier(s0, awake, trace, t, addr);
      r := Some(Awoke);
    }

    method Wait(t: Thread, addr: Address, val: Value, gaps: seq<seq<Step>>, ghost s0: State, ghost trace0: seq<Step>)
      returns (r: Option<Result>, ghost trace: seq<Step>, ghost looked: Option<State>)
      requires Invariant(s) && t in s.threads && s.threads[t].mode == WaitWants(addr, val) && |gaps| == 5
      requires Run(s0, trace0, s) && Tale(s0, trace0, t, None)
      modifies this
      ensures Invariant(s) && Run(s0, trace, s) && t in s.threads
      ensures r.Some? ==> s.threads[t].mode == Outside(r.value) && LockIsFree(s, addr)
      ensures r.Some? ==> looked.Some? && r.value in {WouldBlock, Slept, TimedOut}
                          && (r.value == WouldBlock <==> looked.value.At(addr) != val)
                          && (r.value == TimedOut <==> Rouse(t, true) in trace)
                          && (r.value == Slept <==> WokenSometime(s0, trace, t))
      ensures looked.Some? ==> HasLock(looked.value, t, addr)
                               && exists k :: 0 <= k <= |trace| && Run(s0, trace[..k], looked.value)
    {
      hide BucketFor, Invariant, Run, Enabled, Next, LockIsFree, HasLock, Tale, WokenSometime;
      looked := None;
      trace := Others(t, gaps[0], s0, trace0);
      OwnStep(s, t);
      if s.holders[BucketFor(addr)] != None {
        return None, trace, looked;
      }
      trace := Own(Lock(t), s0, trace, None);
      trace := Others(t, gaps[1], s0, trace);
      OwnStep(s, t);
      looked := Some(s);
      ghost var seen := trace;
      var word := s.At(addr);
      trace := Own(Compare(t), s0, trace, None);
      trace := Others(t, gaps[2], s0, trace);
      OwnStep(s, t);
      assert trace[..|seen|] == seen;
      if word != val {
        trace := Own(Unlock(t), s0, trace, None);
        assert trace[..|seen|] == seen;
        TaleTold(s0, trace, t, None);
        return Some(WouldBlock), trace, looked;
      }
      r, trace := Sleep(t, addr, gaps, s0, trace);
      assert trace[..|seen|] == seen;
    }

    /** The sleep, and what follows it. */
    method Sleep(t: Thread, addr: Address, gaps: seq<seq<Step>>, ghost s0: State, ghost trace0: seq<Step>)
      returns (r: Option<Result>, ghost trace: seq<Step>)
      requires Invariant(s) && t in s.threads && |gaps| == 5
      requires s.threads[t].mode.Compared? && s.threads[t].mode.a == addr && Run(s0, trace0, s)
      requires Tale(s0, trace0, t, None)
      modifies this
      ensures Invariant(s) && Run(s0, trace, s) && trace0 <= trace && t in s.threads
      ensures r.Some? ==> s.threads[t].mode == Outside(r.value) && LockIsFree(s, addr) && r.value in {Slept, TimedOut}
                          && (r.value == TimedOut <==> Rouse(t, true) in trace)
                          && (r.value == Slept <==> WokenSometime(s0, trace, t))
    {
      hide BucketFor, Invariant, Run, Enabled, Next, LockIsFree, HasLock, Tale, WokenSometime;
      OwnStep(s, t);
      trace := Own(Park(t), s0, trace0, None);
      trace := Others(t, gaps[3], s0, trace);
      OwnStep(s, t);
      if s.threads[t].mode.Parked? || s.holders[BucketFor(addr)] != None {
        return None, trace;
      }
      var timedOut := s.threads[t].mode.timedOut;
      trace := Own(Lock(t), s0, trace, Some(timedOut));
      trace := Others(t, gaps[4], s0, trace);
      OwnStep(s, t);
      trace := Own(Unlock(t), s0, trace, Some(timedOut));
      TaleTold(s0, trace, t, Some(timedOut));
      r := Some(if timedOut then TimedOut else Slept);
    }
  }

  lemma TaleTold(s0: State, trace: seq<Step>, t: Thread, timedOut: Option<bool>)
    requires Tale(s0, trace, t, timedOut)
    ensures Rouse(t, true) in trace <==> timedOut == Some(true)
    ensures WokenSometime(s0, trace, t) <==> timedOut == Some(false)
  {
  }

  ghost predicate NobodySleepsOn(s: State, addr: Address) {
    forall u :: u in s.threads && s.threads[u].mode.Parked? ==> s.threads[u].mode.a != addr
  }

  /** Right after a broadcast by t nobody was asleep on the word. */
  ghost predicate AllAwakeSometime(s0: State, trace: seq<Step>, t: Thread, addr: Address) {
    exists k: nat, mid ::
      k < |trace| && trace[k] == Broadcast(t) && Run(s0, trace[..k + 1], mid) && NobodySleepsOn(mid, addr)
  }

  lemma BroadcastWakesAll(s: State, t: Thread, addr: Address)
    requires Enabled(s, Broadcast(t)) && s.threads[t].mode.a == addr
    ensures NobodySleepsOn(Next(s, Broadcast(t)), addr)
  {
    hide BucketFor;
  }

  lemma AwakeNow(s0: State, trace: seq<Step>, s: State, t: Thread, addr: Address)
    requires trace != [] && trace[|trace| - 1] == Broadcast(t) && Run(s0, trace, s) && NobodySleepsOn(s, addr)
    ensures AllAwakeSometime(s0, trace, t, addr)
  {
    hide Run, NobodySleepsOn;
    var k: nat := |trace| - 1;
    assert trace[..k + 1] == trace;
  }

  lemma AwakeEarlier(s0: State, before: seq<Step>, trace: seq<Step>, t: Thread, addr: Address)
    requires AllAwakeSometime(s0, before, t, addr) && before <= trace
    ensures AllAwakeSometime(s0, trace, t, addr)
  {
    hide Run, NobodySleepsOn;
    var k: nat, mid :| k < |before| && before[k] == Broadcast(t) && Run(s0, before[..k + 1], mid)
                       && NobodySleepsOn(mid, addr);
    assert trace[..k + 1] == before[..k + 1];
  }

  lemma RunNowhere(s: State)
    ensures Run(s, [], s)
  {
  }

  /** What t can do next, by where it stands, and where that takes it. */
  lemma OwnStep(s: State, t: Thread)
    requires Invariant(s) && t in s.threads
    ensures var m := s.threads[t].mode;
            && |s.holders| == BUCKETS
            && (Wants(m) && s.holders[BucketFor(m.a)] == None ==>
                  Enabled(s, Lock(t)) && ModeOf(Next(s, Lock(t)), t) == Some(LockedMode(m)))
            && (m.WaitLocked? ==>
                  && Enabled(s, Compare(t)) && HasLock(s, t, m.a)
                  && ModeOf(Next(s, Compare(t)), t)
                     == Some(if s.At(m.a) == m.expected then Compared(m.a, m.expected) else Refused(m.a)))
            && (m.Compared? ==> Enabled(s, Park(t)) && ModeOf(Next(s, Park(t)), t) == Some(Parked(m.a, m.expected)))
            && (m.WakeLocked? ==> Enabled(s, Broadcast(t)) && ModeOf(Next(s, Broadcast(t)), t) == Some(WakeDone(m.a)))
            && (m.Refused? || m.Leaving? || m.WakeDone? ==>
                  && Enabled(s, Unlock(t)) && ModeOf(Next(s, Unlock(t)), t) == Some(Outside(ResultOf(m)))
                  && LockIsFree(Next(s, Unlock(t)), m.a))
  {
    hide BucketFor;
  }

  ghost function ModeOf(s: State, t: Thread): Option<Mode> {
    if t in s.threads then Some(s.threads[t].mode) else None
  }

  ghost predicate HasLock(s: State, t: Thread, a: Address) {
    |s.holders| == BUCKETS && s.holders[BucketFor(a)] == Some(t)
  }

  ghost predicate LockIsFree(s: State, a: Address) {
    |s.holders| == BUCKETS && s.holders[BucketFor(a)] == None
  }
}
