/**
 What every run of the static-guard protocol keeps, and what follows for its callers.
 */
module GuardSafety {
  import opened GuardTable
  import opened GuardProtocol

  // ------------------------------------------------------------------------- small facts

  lemma PhasesAfterEvent(log: seq<Event>, e: Event)
    ensures forall g :: PhaseOf(log + [e], g) == if e.g == g then After(PhaseOf(log, g), e) else PhaseOf(log, g)
  {
  }

  /** Nobody is covered by an owed broadcast any less than before. */
  lemma CoverKept(s: State, s': State)
    requires ParkedAreCovered(s)
    requires forall u :: Owes(s, u) ==> Owes(s', u)
    requires forall g :: s.shared.At(g).waiting ==> s'.shared.At(g).waiting
    requires forall t, g :: ParkedOn(s', t, g) ==> ParkedOn(s, t, g) || s'.shared.At(g).waiting
    ensures ParkedAreCovered(s')
  {
  }

  // ------------------------------------------------------------------------- one step

  lemma ClaimKeepsInvariant(id: Identities, s: State, t: Thread, refused: bool)
    requires Invariant(id, s) && Enabled(s, Turn(t, refused))
    requires AcquireTurn(s.shared, s.threads[t].mode.g, id(t)).0 == Claimed
    ensures Invariant(id, Next(id, s, Turn(t, refused)))
  {
    hide RunnersTellPhase, SlotsTellOwners;
    var g := s.threads[t].mode.g;
    var s' := Next(id, s, Turn(t, refused));
    PhasesAfterEvent(s.log, Won(t, g));
    ClaimKeepsRunners(id, s, t, refused);
    ClaimKeepsSlots(id, s, t, refused);
    assert BytesTellPhase(s') by {
      forall k ensures CellTellsPhase(s'.shared.At(k), PhaseOf(s'.log, k)) {
        assert CellTellsPhase(s.shared.At(k), PhaseOf(s.log, k));
      }
    }
    CoverKept(s, s');
  }

  lemma ClaimKeepsRunners(id: Identities, s: State, t: Thread, refused: bool)
    requires Invariant(id, s) && Enabled(s, Turn(t, refused))
    requires AcquireTurn(s.shared, s.threads[t].mode.g, id(t)).0 == Claimed
    ensures RunnersTellPhase(Next(id, s, Turn(t, refused)))
  {
    hide SlotsTellOwners, ParkedAreCovered;
    var g := s.threads[t].mode.g;
    var s' := Next(id, s, Turn(t, refused));
    PhasesAfterEvent(s.log, Won(t, g));
    assert CellTellsPhase(s.shared.At(g), PhaseOf(s.log, g));
    forall u, k | Runs(s', u, k) ensures PhaseOf(s'.log, k) == InProgress(u) && k != NULL {
      assert Runs(s, u, k) || (u == t && k == g);
    }
    forall k | PhaseOf(s'.log, k).InProgress? ensures Runs(s', PhaseOf(s'.log, k).t, k) {
      assert k != g ==> Runs(s, PhaseOf(s.log, k).t, k);
    }
  }

  lemma ClaimKeepsSlots(id: Identities, s: State, t: Thread, refused: bool)
    requires Invariant(id, s) && Enabled(s, Turn(t, refused))
    requires AcquireTurn(s.shared, s.threads[t].mode.g, id(t)).0 == Claimed
    ensures SlotsTellOwners(id, Next(id, s, Turn(t, refused)))
  {
    hide RunnersTellPhase, ParkedAreCovered;
    var g := s.threads[t].mode.g;
    var s' := Next(id, s, Turn(t, refused));
    PhasesAfterEvent(s.log, Won(t, g));
    assert CellTellsPhase(s.shared.At(g), PhaseOf(s.log, g));
    forall i | 0 <= i < OWNERS && s'.shared.owners[i].guard != NULL
      ensures SlotTellsOwner(id, s', s'.shared.owners[i])
    {
      assert s.shared.owners[i].guard != NULL ==> SlotTellsOwner(id, s, s.shared.owners[i]);
    }
  }

  lemma OtherTurnKeepsInvariant(id: Identities, s: State, t: Thread, refused: bool)
    requires Distinct(id) && Invariant(id, s) && Enabled(s, Turn(t, refused))
    requires AcquireTurn(s.shared, s.threads[t].mode.g, id(t)).0 != Claimed
    ensures Invariant(id, Next(id, s, Turn(t, refused)))
  {
    var g := s.threads[t].mode.g;
    var s' := Next(id, s, Turn(t, refused));
    assert CellTellsPhase(s.shared.At(g), PhaseOf(s.log, g));
    var outcome := AcquireTurn(s.shared, g, id(t)).0;
    if outcome == AlreadyDone {
      PhasesAfterEvent(s.log, Seen(t, g));
    } else if outcome == Recursion {
      PhasesAfterEvent(s.log, Recursed(t, g));
      RecursionMeansReentry(id, s, t, g);
    }
    LogUnmovedKeeps(id, s, s');
    assert forall u, k :: ParkedOn(s', u, k) ==> ParkedOn(s, u, k) || s'.shared.At(k).waiting;
    CoverKept(s, s');
  }

  /** A step that moves no phase, claims nothing and only sets waiting flags of claimed guards. */
  lemma LogUnmovedKeeps(id: Identities, s: State, s': State)
    requires Invariant(id, s)
    requires forall g :: PhaseOf(s'.log, g) == PhaseOf(s.log, g)
    requires s'.shared.owners == s.shared.owners
    requires forall g :: s'.shared.At(g) == s.shared.At(g)
                      || (s.shared.At(g).pending && s'.shared.At(g) == s.shared.At(g).(waiting := true))
    requires forall t, g :: Runs(s', t, g) <==> Runs(s, t, g)
    ensures BytesTellPhase(s') && RunnersTellPhase(s') && SlotsTellOwners(id, s')
  {
  }

  lemma FinishKeepsInvariant(id: Identities, s: State, t: Thread, g: Guard, done: bool)
    requires Invariant(id, s) && t in s.threads && s.threads[t].mode == Outside && Runs(s, t, g)
    ensures Invariant(id, AfterFinish(s, t, g, done))
  {
    var s' := AfterFinish(s, t, g, done);
    PhasesAfterEvent(s.log, if done then Released(t, g) else Aborted(t, g));
    assert PhaseOf(s.log, g) == InProgress(t);
    assert CellTellsPhase(s.shared.At(g), PhaseOf(s.log, g));
    assert BytesTellPhase(s') by {
      forall k ensures CellTellsPhase(s'.shared.At(k), PhaseOf(s'.log, k)) {
        assert CellTellsPhase(s.shared.At(k), PhaseOf(s.log, k));
      }
    }
    assert RunnersTellPhase(s') by {
      forall u, k | Runs(s', u, k) ensures PhaseOf(s'.log, k) == InProgress(u) && k != NULL {
        assert Runs(s, u, k);
      }
      forall k | PhaseOf(s'.log, k).InProgress? ensures Runs(s', PhaseOf(s'.log, k).t, k) {
        assert Runs(s, PhaseOf(s.log, k).t, k);
      }
    }
    assert SlotsTellOwners(id, s') by {
      forall i | 0 <= i < OWNERS && s'.shared.owners[i].guard != NULL
        ensures SlotTellsOwner(id, s', s'.shared.owners[i])
      {
        assert SlotTellsOwner(id, s, s.shared.owners[i]);
      }
    }
    if s.shared.At(g).waiting {
      assert Owes(s', t);
    } else {
      assert forall u, k :: ParkedOn(s', u, k) ==> ParkedOn(s, u, k);
      CoverKept(s, s');
    }
  }

  lemma QuietStepKeepsInvariant(id: Identities, s: State, step: Step)
    requires Invariant(id, s) && Enabled(s, step)
    requires step.Call? || step.WakeUp? || step.Broadcast?
    ensures Invariant(id, Next(id, s, step))
  {
    var s' := Next(id, s, step);
    LogUnmovedKeeps(id, s, s');
    if !step.Broadcast? {
      assert forall u, k :: ParkedOn(s', u, k) ==> ParkedOn(s, u, k);
      CoverKept(s, s');
    }
  }

  lemma StepKeepsInvariant(id: Identities, s: State, step: Step)
    requires Distinct(id) && Invariant(id, s) && Enabled(s, step)
    ensures Invariant(id, Next(id, s, step))
  {
    match step
    case Turn(t, refused) =>
      if AcquireTurn(s.shared, s.threads[t].mode.g, id(t)).0 == Claimed {
        ClaimKeepsInvariant(id, s, t, refused);
      } else {
        OtherTurnKeepsInvariant(id, s, t, refused);
      }
    case Release(t, g) => FinishKeepsInvariant(id, s, t, g, true);
    case Abort(t, g) => FinishKeepsInvariant(id, s, t, g, false);
    case _ => QuietStepKeepsInvariant(id, s, step);
  }

  lemma {:induction false} RunKeepsInvariant(id: Identities, s: State, steps: seq<Step>, end: State)
    requires Distinct(id) && Invariant(id, s) && Run(id, s, steps, end)
    ensures Invariant(id, end)
    decreases |steps|
  {
    if steps != [] {
      var n := |steps| - 1;
      var mid :| Run(id, s, steps[..n], mid) && Enabled(mid, steps[n]) && Next(id, mid, steps[n]) == end;
      RunKeepsInvariant(id, s, steps[..n], mid);
      StepKeepsInvariant(id, mid, steps[n]);
    }
  }

  /** Every reachable state satisfies the invariant. */
  lemma ReachableInvariant(id: Identities, s: State)
    requires Distinct(id) && Reachable(id, s)
    ensures Invariant(id, s)
  {
    var s0, steps :| Initial(s0) && Run(id, s0, steps, s);
    assert Invariant(id, s0);
    RunKeepsInvariant(id, s0, steps, s);
  }

  // ------------------------------------------------------------------------- what callers rely on

  /** At most one thread runs a guard's initializer. */
  lemma OneInitializerAtATime(id: Identities, s: State, t: Thread, u: Thread, g: Guard)
    requires Distinct(id) && Reachable(id, s) && Runs(s, t, g) && Runs(s, u, g)
    ensures t == u
  {
    ReachableInvariant(id, s);
  }

  /** Every guard lives through claim, abort and release in the specified order, in every run. */
  lemma EveryHistoryIsLegal(id: Identities, s: State, g: Guard)
    requires Distinct(id) && Reachable(id, s)
    ensures PhaseOf(s.log, g) != Wrong
  {
    ReachableInvariant(id, s);
    assert CellTellsPhase(s.shared.At(g), PhaseOf(s.log, g));
  }

  /** In a legal history nothing but "already initialized" follows a release: no second claim, no
      second release, no abort. */
  lemma {:induction false} ReleaseIsFinal(log: seq<Event>, g: Guard, i: nat)
    requires PhaseOf(log, g) != Wrong
    requires i < |log| && log[i].g == g && log[i].Released?
    ensures PhaseOf(log, g) == Done
    ensures forall j :: i < j < |log| && log[j].g == g ==> log[j].Seen?
  {
    if i < |log| - 1 {
      var front := log[..|log| - 1];
      assert log == front + [log[|log| - 1]];
      ReleaseIsFinal(front, g, i);
      forall j | i < j < |log| && log[j].g == g ensures log[j].Seen? {
        assert j < |front| ==> front[j] == log[j];
      }
    }
  }

  /** An acquire's outcome is decided by the guard's history: 0 exactly after a release, 1 exactly
      when idle (so also after an abort), the recursion abort exactly for the recorded runner itself,
      and waiting in every other case. */
  lemma TurnFollowsHistory(id: Identities, s: State, t: Thread, g: Guard)
    requires Distinct(id) && Reachable(id, s) && g != NULL
    ensures var p := PhaseOf(s.log, g);
            var outcome := AcquireTurn(s.shared, g, id(t)).0;
            && (outcome == AlreadyDone <==> p == Done)
            && (outcome == Claimed <==> p == Idle)
            && (outcome == Recursion <==> p == InProgress(t) && Recorded(s.shared.owners, g) && id(t) != 0)
  {
    ReachableInvariant(id, s);
    assert CellTellsPhase(s.shared.At(g), PhaseOf(s.log, g));
    var i := FirstWith(s.shared.owners, g);
    if i < OWNERS {
      assert SlotTellsOwner(id, s, s.shared.owners[i]);
    }
  }

  /** No wakeup is lost: whoever is parked is covered by an owed broadcast, or by a running
      initializer whose end will see the waiting flag. */
  lemma NoLostWakeup(id: Identities, s: State, t: Thread, g: Guard)
    requires Distinct(id) && Reachable(id, s) && ParkedOn(s, t, g)
    ensures SomebodyOwes(s) || (s.shared.At(g).waiting && exists u :: Runs(s, u, g))
  {
    ReachableInvariant(id, s);
    var p := PhaseOf(s.log, g);
    assert CellTellsPhase(s.shared.At(g), p);
    assert p.InProgress? ==> Runs(s, p.t, g);
  }

  // ------------------------------------------------------------------------- recursion detection

  /** In a state that keeps the invariant the recursion abort names a true re-entry. */
  lemma RecursionMeansReentry(id: Identities, s: State, t: Thread, g: Guard)
    requires Distinct(id) && Invariant(id, s) && OwnerIsSelf(s.shared.owners, g, id(t)) && g != NULL
    ensures Runs(s, t, g)
  {
  }

  /** Why the identities must differ: two threads that share one make the check fire although
      neither re-entered. This is what happened with the process id as the thread id. */
  lemma SharedIdentityFiresFalsely(id: Identities, t: Thread, u: Thread, g: Guard)
    requires t != u && id(t) == id(u) != 0 && g != NULL
    ensures exists s :: Reachable(id, s) && s.crashed && !Runs(s, u, g)
  {
    hide Run, Reachable, Next;
    var out, trying := ThreadState(Outside, {}), ThreadState(Trying(g), {});
    var s0 := State(Shared(map[], seq(OWNERS, _ => FREE_SLOT)), map[t := out, u := out], false, []);
    InitialIsReachable(id, s0);
    CallArrives(id, s0, t, g);
    var s1 := s0.(threads := s0.threads[t := trying]);
    FirstClaim(id, s1, t, g);
    StepIsReachable(id, s1, Turn(t, false));
    var s2 := Next(id, s1, Turn(t, false));
    CallArrives(id, s2, u, g);
    var s3 := s2.(threads := s2.threads[u := trying]);
    SharedIdentityCrashes(id, s3, t, u, g);
    StepIsReachable(id, s3, Turn(u, false));
  }

  lemma InitialIsReachable(id: Identities, s: State)
    requires Initial(s)
    ensures Reachable(id, s)
  {
    assert Run(id, s, [], s);
  }

  lemma StepIsReachable(id: Identities, s: State, step: Step)
    requires Reachable(id, s) && Enabled(s, step)
    ensures Reachable(id, Next(id, s, step))
  {
    var s0, steps :| Initial(s0) && Run(id, s0, steps, s);
    assert (steps + [step])[..|steps|] == steps;
    assert Run(id, s0, steps + [step], Next(id, s, step));
  }

  lemma CallArrives(id: Identities, s: State, t: Thread, g: Guard)
    requires Reachable(id, s) && !s.crashed && t in s.threads && s.threads[t] == ThreadState(Outside, {}) && g != NULL
    ensures Reachable(id, s.(threads := s.threads[t := ThreadState(Trying(g), {})]))
  {
    StepIsReachable(id, s, Call(t, g));
  }

  lemma FirstClaim(id: Identities, s: State, t: Thread, g: Guard)
    requires t in s.threads && s.threads[t] == ThreadState(Trying(g), {}) && !s.crashed
    requires s.shared == Shared(map[], seq(OWNERS, _ => FREE_SLOT))
    ensures Enabled(s, Turn(t, false))
    ensures Next(id, s, Turn(t, false)) ==
            State(Shared(map[g := Cell(false, true, false)], s.shared.owners[0 := Slot(g, id(t))]),
                  s.threads[t := ThreadState(Outside, {g})], false, s.log + [Won(t, g)])
  {
    FirstWithIs(s.shared.owners, NULL, 0);
    assert {} + {g} == {g};
  }

  lemma SharedIdentityCrashes(id: Identities, s: State, t: Thread, u: Thread, g: Guard)
    requires u in s.threads && s.threads[u] == ThreadState(Trying(g), {}) && !s.crashed
    requires id(u) != 0 && id(t) == id(u) && s.shared.At(g) == Cell(false, true, false)
    requires |s.shared.owners| > 0 && s.shared.owners[0] == Slot(g, id(t))
    ensures Enabled(s, Turn(u, false))
    ensures Next(id, s, Turn(u, false)).crashed && !Runs(Next(id, s, Turn(u, false)), u, g)
  {
  }

  lemma RecordedIff(o: seq<Slot>, g: Guard)
    ensures Recorded(o, g) <==> exists i :: 0 <= i < |o| && o[i].guard == g
  {
  }

  /** The guards somebody is initializing. */
  function InFlight(s: State): set<Guard> {
    set g | g in s.shared.cells && s.shared.cells[g].pending
  }

  ghost predicate AllRecorded(s: State) {
    forall g :: g in InFlight(s) ==> Recorded(s.shared.owners, g)
  }

  ghost function GuardsNamed(o: seq<Slot>): (r: set<Guard>)
    ensures forall g :: g in r ==> exists i :: 0 <= i < |o| && o[i].guard == g
  {
    if o == [] then {} else GuardsNamed(o[..|o| - 1]) + {o[|o| - 1].guard}
  }

  /** Slots with different guards name as many guards as there are slots. */
  lemma {:induction false} DifferentSlotsNameDifferentGuards(o: seq<Slot>)
    requires forall i, j :: 0 <= i < j < |o| ==> o[i].guard != o[j].guard
    ensures |GuardsNamed(o)| == |o|
  {
    if o != [] {
      var front := o[..|o| - 1];
      DifferentSlotsNameDifferentGuards(front);
      assert o[|o| - 1].guard !in GuardsNamed(front);
    }
  }

  /** A full table means 64 guards in flight. */
  lemma FullTableMeansManyInFlight(id: Identities, s: State)
    requires Invariant(id, s) && !Recorded(s.shared.owners, NULL)
    ensures |InFlight(s)| >= 64
  {
    var o := s.shared.owners;
    DifferentSlotsNameDifferentGuards(o);
    forall g | g in GuardsNamed(o) ensures g in InFlight(s) {
      var i :| 0 <= i < |o| && o[i].guard == g;
      assert SlotTellsOwner(id, s, o[i]);
      assert CellTellsPhase(s.shared.At(g), PhaseOf(s.log, g));
    }
    SubsetSize(GuardsNamed(o), InFlight(s));
  }

  lemma SubsetSize(a: set<Guard>, b: set<Guard>)
    requires a <= b
    ensures |a| <= |b|
  {
    assert b == a + (b - a);
  }

  /** A claim is recorded exactly when a slot was free. */
  lemma ClaimRecordedIffSlotFree(id: Identities, s: State, t: Thread, refused: bool)
    requires Invariant(id, s) && Enabled(s, Turn(t, refused))
    requires AcquireTurn(s.shared, s.threads[t].mode.g, id(t)).0 == Claimed
    ensures Recorded(Next(id, s, Turn(t, refused)).shared.owners, s.threads[t].mode.g)
            <==> Recorded(s.shared.owners, NULL)
  {
    var g := s.threads[t].mode.g;
    var o := s.shared.owners;
    var o' := Next(id, s, Turn(t, refused)).shared.owners;
    var i := FirstWith(o, NULL);
    RecordedIff(o', g);
    if i < |o| {
      assert o'[i].guard == g;
    } else {
      forall k | 0 <= k < |o| ensures o[k].guard != g {
        assert SlotTellsOwner(id, s, o[k]);
        assert CellTellsPhase(s.shared.At(g), PhaseOf(s.log, g));
      }
    }
  }

  /** A run that never has more than 64 guards in flight. */
  ghost predicate ModestRun(id: Identities, s: State, steps: seq<Step>, end: State)
    decreases |steps|
  {
    && |InFlight(end)| <= 64
    && if steps == [] then s == end
       else
         var n := |steps| - 1;
         exists mid :: ModestRun(id, s, steps[..n], mid) && Enabled(mid, steps[n]) && Next(id, mid, steps[n]) == end
  }

  /** Detection is complete up to the table's size: as long as a run keeps at most 64 guards in
      flight, every guard in flight is recorded, so every re-entry by a thread with an identity ends
      in the recursion abort and no thread with an identity ever parks behind itself. */
  lemma {:induction false} ModestRunsRecordEverything(id: Identities, s0: State, steps: seq<Step>, s: State)
    requires Distinct(id) && Initial(s0) && ModestRun(id, s0, steps, s)
    ensures Invariant(id, s) && AllRecorded(s)
    ensures forall t, g :: Runs(s, t, g) && id(t) != 0 ==> AcquireTurn(s.shared, g, id(t)).0 == Recursion
    ensures NobodyAwaitsItself(id, s)
    decreases |steps|
  {
    if steps != [] {
      var n := |steps| - 1;
      var mid :| ModestRun(id, s0, steps[..n], mid) && Enabled(mid, steps[n]) && Next(id, mid, steps[n]) == s;
      ModestRunsRecordEverything(id, s0, steps[..n], mid);
      StepKeepsInvariant(id, mid, steps[n]);
      StepKeepsRecorded(id, mid, steps[n]);
      StepKeepsNobodyAwaitsItself(id, mid, steps[n]);
    }
    forall t, g | Runs(s, t, g) && id(t) != 0 ensures AcquireTurn(s.shared, g, id(t)).0 == Recursion {
      RunnerIsRecognized(id, s, t, g);
    }
  }

  ghost predicate NobodyAwaitsItself(id: Identities, s: State) {
    forall t, g :: ParkedOn(s, t, g) && id(t) != 0 ==> !Runs(s, t, g)
  }

  lemma StepKeepsNobodyAwaitsItself(id: Identities, s: State, step: Step)
    requires Invariant(id, s) && AllRecorded(s) && NobodyAwaitsItself(id, s) && Enabled(s, step)
    ensures NobodyAwaitsItself(id, Next(id, s, step))
  {
    var s' := Next(id, s, step);
    forall t, g | ParkedOn(s', t, g) && id(t) != 0 ensures !Runs(s', t, g) {
      if Runs(s, t, g) {
        RunnerIsRecognized(id, s, t, g);
      }
    }
  }

  lemma RunnerIsRecognized(id: Identities, s: State, t: Thread, g: Guard)
    requires Invariant(id, s) && AllRecorded(s) && Runs(s, t, g) && id(t) != 0
    ensures AcquireTurn(s.shared, g, id(t)).0 == Recursion
  {
    assert CellTellsPhase(s.shared.At(g), PhaseOf(s.log, g));
    assert g in InFlight(s);
    var i := FirstWith(s.shared.owners, g);
    assert SlotTellsOwner(id, s, s.shared.owners[i]);
  }

  lemma StepKeepsRecorded(id: Identities, s: State, step: Step)
    requires Invariant(id, s) && AllRecorded(s) && Enabled(s, step)
    requires |InFlight(Next(id, s, step))| <= OWNERS
    ensures AllRecorded(Next(id, s, step))
  {
    var s' := Next(id, s, step);
    forall g | g in InFlight(s') ensures Recorded(s'.shared.owners, g) {
      if g in InFlight(s) {
        RecordStays(id, s, step, g);
      } else {
        NewClaimIsRecorded(id, s, step, g);
      }
    }
  }

  lemma RecordStays(id: Identities, s: State, step: Step, g: Guard)
    requires Invariant(id, s) && Enabled(s, step)
    requires g in InFlight(s) && g in InFlight(Next(id, s, step)) && Recorded(s.shared.owners, g)
    ensures Recorded(Next(id, s, step).shared.owners, g)
  {
    var o, o' := s.shared.owners, Next(id, s, step).shared.owners;
    assert CellTellsPhase(s.shared.At(g), PhaseOf(s.log, g));
    var i := FirstWith(o, g);
    assert o'[i].guard == g;
    RecordedIff(o', g);
  }

  lemma NewClaimIsRecorded(id: Identities, s: State, step: Step, g: Guard)
    requires Invariant(id, s) && Enabled(s, step)
    requires g !in InFlight(s) && g in InFlight(Next(id, s, step))
    requires |InFlight(Next(id, s, step))| <= OWNERS
    ensures Recorded(Next(id, s, step).shared.owners, g)
  {
    assert step.Turn? && g == s.threads[step.t].mode.g;
    assert InFlight(Next(id, s, step)) == InFlight(s) + {g};
    if !Recorded(s.shared.owners, NULL) {
      FullTableMeansManyInFlight(id, s);
    }
    ClaimRecordedIffSlotFree(id, s, step.t, step.refused);
  }
}
