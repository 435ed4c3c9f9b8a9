/**
 Every call of acquire in src/orbis_cxa_guard.c stays in its loop until it has its answer: waking up, by
 whatever means, takes a thread back to the tests of the guard's bytes and nowhere else.
 */
module GuardCalls {
  import opened GuardTable
  import opened GuardProtocol
  import opened GuardSafety

  /** Inside acquire for g: about to take the mutex, or parked. */
  ghost predicate Inside(s: State, t: Thread, g: Guard) {
    t in s.threads && (s.threads[t].mode == Trying(g) || s.threads[t].mode == Parked(g))
  }

  /** An answer of acquire for g: 1, 0, or the recursion abort. */
  predicate Answers(e: Event, t: Thread, g: Guard) {
    e == Won(t, g) || e == Seen(t, g) || e == Recursed(t, g)
  }

  /** Whatever anybody does, a thread inside acquire is still inside for the same guard, unless it took its own
      turn and got an answer for that guard; then it is out. */
  lemma StaysInside(id: Identities, s: State, step: Step, u: Thread, g: Guard)
    requires Enabled(s, step) && Inside(s, u, g)
    ensures var s' := Next(id, s, step);
            Inside(s', u, g) ||
            (step.Turn? && step.t == u && u in s'.threads && s'.threads[u].mode == Outside
             && |s'.log| == |s.log| + 1 && s'.log[..|s.log|] == s.log && Answers(s'.log[|s.log|], u, g))
  {
    hide AcquireTurn, FinishTurn;
  }

  /** A broadcast sends everybody parked back to the tests, and its sender on its way; a thread that wakes by
      itself goes the same way. */
  lemma WakingGoesBack(id: Identities, s: State, step: Step, u: Thread, g: Guard)
    requires Enabled(s, step) && ParkedOn(s, u, g) && (step.Broadcast? || step == WakeUp(u))
    ensures var s' := Next(id, s, step);
            && u in s'.threads && s'.threads[u].mode == Trying(g)
            && (step.Broadcast? ==> step.t in s'.threads && s'.threads[step.t].mode == Outside)
  {
    hide AcquireTurn, FinishTurn;
  }

  /** Whoever takes a turn while another thread initializes, or cannot be told from another, leaves the waiting
      flag set, and parks unless the condition variable refuses. */
  lemma WaitingParks(id: Identities, s: State, t: Thread, g: Guard, refused: bool)
    requires Distinct(id) && Reachable(id, s) && Enabled(s, Turn(t, refused)) && s.threads[t].mode == Trying(g)
    requires PhaseOf(s.log, g).InProgress?
    requires PhaseOf(s.log, g) != InProgress(t) || !Recorded(s.shared.owners, g) || id(t) == 0
    ensures var s' := Next(id, s, Turn(t, refused));
            && s'.shared.At(g).waiting && s'.log == s.log
            && t in s'.threads && s'.threads[t].mode == if refused then Trying(g) else Parked(g)
  {
    hide Reachable;
    ReachableInvariant(id, s);
    TurnFollowsHistory(id, s, t, g);
  }

  /** A release or an abort owes a broadcast exactly when somebody has waited, and leaves the flag clear. */
  lemma FinishOwesIffAwaited(id: Identities, s: State, step: Step)
    requires Enabled(s, step) && (step.Release? || step.Abort?)
    ensures var s' := Next(id, s, step);
            && step.t in s'.threads
            && s'.threads[step.t].mode == (if s.shared.At(step.g).waiting then Owing else Outside)
            && !s'.shared.At(step.g).waiting
  {
  }

  function CallsMade(steps: seq<Step>, t: Thread, g: Guard): nat {
    if steps == [] then 0
    else CallsMade(steps[..|steps| - 1], t, g) + if steps[|steps| - 1] == Call(t, g) then 1 else 0
  }

  function AnswersGiven(log: seq<Event>, t: Thread, g: Guard): nat {
    if log == [] then 0
    else AnswersGiven(log[..|log| - 1], t, g) + if Answers(log[|log| - 1], t, g) then 1 else 0
  }

  /** Over any run every call of acquire is answered once, but for the one the thread may be inside of. */
  lemma {:induction false} EveryCallIsAnsweredOnce(id: Identities, s0: State, steps: seq<Step>, s: State, t: Thread,
                                                   g: Guard)
    requires Initial(s0) && Run(id, s0, steps, s) && t in s0.threads
    ensures t in s.threads
    ensures CallsMade(steps, t, g) == AnswersGiven(s.log, t, g) + if Inside(s, t, g) then 1 else 0
    decreases |steps|
  {
    hide AcquireTurn, FinishTurn, Inside, Enabled, Next, Answers;
    if steps == [] {
      NotInside(s0, t, g);
    } else {
      var n := |steps| - 1;
      var mid :| Run(id, s0, steps[..n], mid) && Enabled(mid, steps[n]) && Next(id, mid, steps[n]) == s;
      EveryCallIsAnsweredOnce(id, s0, steps[..n], mid, t, g);
      StepCounts(id, mid, steps[n], t, g);
    }
  }

  lemma NotInside(s: State, t: Thread, g: Guard)
    requires Initial(s) && t in s.threads
    ensures !Inside(s, t, g)
  {
  }

  /** A step adds what it should: a call puts its thread inside, an answer takes it out. */
  lemma StepCounts(id: Identities, s: State, step: Step, t: Thread, g: Guard)
    requires Enabled(s, step) && t in s.threads
    ensures var s' := Next(id, s, step);
            && t in s'.threads
            && AnswersGiven(s'.log, t, g) + (if Inside(s', t, g) then 1 else 0)
               == AnswersGiven(s.log, t, g) + (if Inside(s, t, g) then 1 else 0) + if step == Call(t, g) then 1 else 0
  {
    hide Next, Inside, Answers, Enabled;
    var s' := Next(id, s, step);
    LogGrows(id, s, step);
    StepAnswers(id, s, step, t, g);
    if s'.log != s.log {
      assert s'.log[..|s'.log| - 1] == s.log;
    }
  }

  lemma LogGrows(id: Identities, s: State, step: Step)
    requires Enabled(s, step)
    ensures var s' := Next(id, s, step); s'.log == s.log || (|s'.log| == |s.log| + 1 && s'.log[..|s.log|] == s.log)
  {
    hide AcquireTurn, FinishTurn;
  }

  lemma StepAnswers(id: Identities, s: State, step: Step, t: Thread, g: Guard)
    requires Enabled(s, step) && t in s.threads
    ensures var s' := Next(id, s, step);
            var answered := |s'.log| > |s.log| && Answers(s'.log[|s.log|], t, g);
            && t in s'.threads
            && (step == Call(t, g) ==> !Inside(s, t, g) && Inside(s', t, g) && !answered)
            && (step != Call(t, g) ==> (Inside(s', t, g) <==> Inside(s, t, g) && !answered))
            && (answered ==> Inside(s, t, g))
  {
    hide AcquireTurn, FinishTurn;
  }
}
