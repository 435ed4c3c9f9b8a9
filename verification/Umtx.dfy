/**
 The futex of include/sys/umtx.h as a state machine: 64 buckets, each a mutex and a condition
 variable, onto which word addresses hash. Taking the lock, comparing the word, parking, waking and
 giving the lock back are separate steps, and the words themselves are stored to at any time without
 any lock.

 Parking gives up the bucket's lock and sleeps in one step; a sleeper may also wake for no reason or
 because its deadline passed.
 */
module Umtx {
  import opened Wrappers

  type Address = nat
  type Thread(==, !new) = nat

  /** The 32-bit word, and the unsigned long a caller passes for it. */
  type Value = v: int | 0 <= v < 0x1_0000_0000
  type Long = v: int | 0 <= v < 0x1_0000_0000_0000_0000

  const BUCKETS: nat := 64

  /** orbis_umtx_bucket_for: the word's index, folded onto itself eight bits further up, modulo the
      table. Modulo 64 only the low six bits of the two operands matter. */
  function BucketFor(addr: Address): (b: nat)
    ensures b < 64
  {
    var v := addr / 4;
    ((v % 64) as bv6 ^ (v / 256 % 64) as bv6) as nat
  }

  datatype Result = Fresh | Slept | TimedOut | WouldBlock | Awoke | NoSys

  /** Where a thread is inside _umtx_op. */
  datatype Mode =
    | Outside(last: Result)
    | WaitWants(a: Address, expected: Value)   // about to lock the bucket
    | WaitLocked(a: Address, expected: Value)  // holds it, has not compared yet
    | Compared(a: Address, expected: Value)    // holds it, found the word equal, about to park
    | Refused(a: Address)                      // holds it, found the word different
    | Parked(a: Address, expected: Value)      // asleep on the bucket's condition variable
    | Woken(a: Address, timedOut: bool)        // awake, about to take the lock again
    | Leaving(a: Address, timedOut: bool)      // holds it again
    | WakeWants(a: Address)
    | WakeLocked(a: Address)                   // holds it, has not broadcast yet
    | WakeDone(a: Address)                     // holds it, has broadcast

  /** owed: the words this thread has changed and not yet issued a wake for. */
  datatype Local = Local(mode: Mode, owed: set<Address>)

  datatype State = State(words: map<Address, Value>, holders: seq<Option<Thread>>, threads: map<Thread, Local>) {
    function At(a: Address): Value {
      if a in words then words[a] else 0
    }
  }

  // ------------------------------------------------------------------------- the operation codes

  datatype Operation = Wait | Wake | Unknown

  const UMTX_OP_WAIT := 2
  const UMTX_OP_WAKE := 3
  const UMTX_OP_WAIT_UINT := 11
  const UMTX_OP_WAIT_UINT_PRIVATE := 15
  const UMTX_OP_WAKE_PRIVATE := 16

  function Dispatch(op: int): Operation {
    if op == UMTX_OP_WAIT || op == UMTX_OP_WAIT_UINT || op == UMTX_OP_WAIT_UINT_PRIVATE then Wait
    else if op == UMTX_OP_WAKE || op == UMTX_OP_WAKE_PRIVATE then Wake
    else Unknown
  }

  // ------------------------------------------------------------------------- steps

  datatype Step =
    | Store(t: Thread, addr: Address, v: Value)
    | Begin(t: Thread, op: int, addr: Address, val: Long)
    | Lock(t: Thread)
    | Compare(t: Thread)
    | Park(t: Thread)
    | Rouse(t: Thread, timedOut: bool)
    | Broadcast(t: Thread)
    | Unlock(t: Thread)

  /** The bucket whose lock a thread holds in this mode. */
  function Holds(m: Mode): Option<nat> {
    match m
    case WaitLocked(a, _) => Some(BucketFor(a))
    case Compared(a, _) => Some(BucketFor(a))
    case Refused(a) => Some(BucketFor(a))
    case Leaving(a, _) => Some(BucketFor(a))
    case WakeLocked(a) => Some(BucketFor(a))
    case WakeDone(a) => Some(BucketFor(a))
    case _ => None
  }

  predicate Wants(m: Mode) {
    m.WaitWants? || m.Woken? || m.WakeWants?
  }

  predicate Enabled(s: State, step: Step) {
    && |s.holders| == BUCKETS
    && step.t in s.threads
    && var m := s.threads[step.t].mode;
    match step
    case Store(_, _, _) => m.Outside?
    case Begin(_, _, _, _) => m.Outside?
    case Lock(_) => Wants(m) && s.holders[BucketFor(m.a)] == None
    case Compare(_) => m.WaitLocked?
    case Park(_) => m.Compared?
    case Rouse(_, _) => m.Parked?
    case Broadcast(_) => m.WakeLocked?
    case Unlock(_) => m.Refused? || m.Leaving? || m.WakeDone?
  }

  function Become(s: State, t: Thread, m: Mode): State
    requires t in s.threads
  {
    s.(threads := s.threads[t := s.threads[t].(mode := m)])
  }

  function SetHolder(s: State, b: nat, h: Option<Thread>): State
    requires b < |s.holders|
  {
    s.(holders := s.holders[b := h])
  }

  function Next(s: State, step: Step): State
    requires Enabled(s, step)
  {
    var t := step.t;
    var m := s.threads[t].mode;
    match step
    case Store(_, a, v) =>
      var owed := s.threads[t].owed + if v == s.At(a) then {} else {a};
      s.(words := s.words[a := v], threads := s.threads[t := s.threads[t].(owed := owed)])
    case Begin(_, op, a, val) => Become(s, t, BeginMode(op, a, val))
    case Lock(_) => Become(SetHolder(s, BucketFor(m.a), Some(t)), t, LockedMode(m))
    case Compare(_) => Become(s, t, if s.At(m.a) == m.expected then Compared(m.a, m.expected) else Refused(m.a))
    case Park(_) => Become(SetHolder(s, BucketFor(m.a), None), t, Parked(m.a, m.expected))
    case Rouse(_, timedOut) => Become(s, t, Woken(m.a, timedOut))
    case Broadcast(_) =>
      s.(threads := Roused(s.threads, BucketFor(m.a))[t := Local(WakeDone(m.a), s.threads[t].owed - {m.a})])
    case Unlock(_) => Become(SetHolder(s, BucketFor(m.a), None), t, Outside(ResultOf(m)))
  }

  /** The value to wait on is the low 32 bits of what was passed. */
  function BeginMode(op: int, a: Address, val: Long): Mode {
    match Dispatch(op)
    case Wait => WaitWants(a, val % 0x1_0000_0000)
    case Wake => WakeWants(a)
    case Unknown => Outside(NoSys)
  }

  function LockedMode(m: Mode): Mode {
    match m
    case WaitWants(a, e) => WaitLocked(a, e)
    case Woken(a, timedOut) => Leaving(a, timedOut)
    case WakeWants(a) => WakeLocked(a)
    case _ => m
  }

  function ResultOf(m: Mode): Result {
    match m
    case Refused(_) => WouldBlock
    case Leaving(_, timedOut) => if timedOut then TimedOut else Slept
    case _ => Awoke
  }

  /** A broadcast on a bucket wakes every sleeper of that bucket, whatever word it sleeps on. */
  function Roused(threads: map<Thread, Local>, b: nat): map<Thread, Local> {
    map t | t in threads ::
      var l := threads[t];
      if l.mode.Parked? && BucketFor(l.mode.a) == b then l.(mode := Woken(l.mode.a, false)) else l
  }

  ghost predicate Initial(s: State) {
    && s.holders == seq(BUCKETS, _ => None)
    && forall t :: t in s.threads ==> s.threads[t] == Local(Outside(Fresh), {})
  }

  ghost predicate Run(s: State, steps: seq<Step>, end: State)
    decreases |steps|
  {
    if steps == [] then s == end
    else
      var n := |steps| - 1;
      exists mid :: Run(s, steps[..n], mid) && Enabled(mid, steps[n]) && Next(mid, steps[n]) == end
  }

  ghost predicate Reachable(s: State) {
    exists s0, steps :: Initial(s0) && Run(s0, steps, s)
  }

  // ------------------------------------------------------------------------- invariant

  /** Each lock is held by exactly the thread whose mode says so. */
  ghost predicate LocksTellHolders(s: State) {
    && |s.holders| == BUCKETS
    && (forall t :: t in s.threads && Holds(s.threads[t].mode).Some?
          ==> s.holders[Holds(s.threads[t].mode).value] == Some(t))
    && (forall b :: 0 <= b < BUCKETS && s.holders[b].Some?
          ==> s.holders[b].value in s.threads && Holds(s.threads[s.holders[b].value].mode) == Some(b))
  }

  /** The thread sleeps, or is about to, expecting a value the word no longer has. */
  ghost predicate Stale(s: State, t: Thread) {
    && t in s.threads
    && var m := s.threads[t].mode;
    (m.Compared? || m.Parked?) && s.At(m.a) != m.expected
  }

  ghost predicate OwesWake(s: State, t: Thread, a: Address) {
    t in s.threads && a in s.threads[t].owed
  }

  ghost predicate SomebodyOwesWake(s: State, a: Address) {
    exists u :: OwesWake(s, u, a)
  }

  ghost predicate StaleSleepersAreOwed(s: State) {
    forall t :: Stale(s, t) ==> SomebodyOwesWake(s, s.threads[t].mode.a)
  }

  ghost predicate Invariant(s: State) {
    LocksTellHolders(s) && StaleSleepersAreOwed(s)
  }

  // ------------------------------------------------------------------------- one step

  lemma TakeKeepsLocks(s: State, t: Thread)
    requires LocksTellHolders(s) && Enabled(s, Lock(t))
    ensures LocksTellHolders(Next(s, Lock(t)))
  {
    hide BucketFor;
  }

  lemma GiveKeepsLocks(s: State, step: Step)
    requires LocksTellHolders(s) && Enabled(s, step) && (step.Park? || step.Unlock?)
    ensures LocksTellHolders(Next(s, step))
  {
    hide BucketFor;
    var s' := Next(s, step);
    assert Holds(s.threads[step.t].mode) == Some(BucketFor(s.threads[step.t].mode.a));
    forall t | t in s'.threads && Holds(s'.threads[t].mode).Some?
      ensures s'.holders[Holds(s'.threads[t].mode).value] == Some(t)
    {
      assert t != step.t && s'.threads[t] == s.threads[t];
    }
  }

  lemma LocksUnmoved(s: State, s': State)
    requires LocksTellHolders(s) && s'.holders == s.holders && s'.threads.Keys == s.threads.Keys
    requires forall u :: u in s.threads ==> Holds(s'.threads[u].mode) == Holds(s.threads[u].mode)
    ensures LocksTellHolders(s')
  {
  }

  /** The steps that neither take nor give a lock leave what everybody holds as it was. */
  lemma StepKeepsLocks(s: State, step: Step)
    requires LocksTellHolders(s) && Enabled(s, step)
    ensures LocksTellHolders(Next(s, step))
  {
    hide BucketFor, LocksTellHolders;
    match step
    case Lock(t) => TakeKeepsLocks(s, t);
    case Park(_) => GiveKeepsLocks(s, step);
    case Unlock(_) => GiveKeepsLocks(s, step);
    case _ => LocksUnmoved(s, Next(s, step));
  }

  lemma BroadcastKeepsOwed(s: State, t: Thread)
    requires Invariant(s) && Enabled(s, Broadcast(t))
    ensures StaleSleepersAreOwed(Next(s, Broadcast(t)))
  {
    hide BucketFor;
    var s' := Next(s, Broadcast(t));
    var a := s.threads[t].mode.a;
    forall w | Stale(s', w) ensures SomebodyOwesWake(s', s'.threads[w].mode.a) {
      var m := s'.threads[w].mode;
      assert Stale(s, w) && s.threads[w].mode == m;
      assert m.a != a;
      var u :| OwesWake(s, u, m.a);
      assert OwesWake(s', u, m.a);
    }
  }

  lemma OtherStepKeepsOwed(s: State, step: Step)
    requires Invariant(s) && Enabled(s, step) && !step.Broadcast?
    ensures StaleSleepersAreOwed(Next(s, step))
  {
    hide BucketFor;
    var s' := Next(s, step);
    forall w | Stale(s', w) ensures SomebodyOwesWake(s', s'.threads[w].mode.a) {
      var a := s'.threads[w].mode.a;
      if Stale(s, w) {
        var u :| OwesWake(s, u, a);
        assert OwesWake(s', u, a);
      } else {
        assert step.Store?;
        assert a != step.addr ==> s'.At(a) == s.At(a);
        assert OwesWake(s', step.t, a);
      }
    }
  }

  lemma StepKeepsInvariant(s: State, step: Step)
    requires Invariant(s) && Enabled(s, step)
    ensures Invariant(Next(s, step))
  {
    StepKeepsLocks(s, step);
    if step.Broadcast? {
      BroadcastKeepsOwed(s, step.t);
    } else {
      OtherStepKeepsOwed(s, step);
    }
  }

  lemma {:induction false} RunKeepsInvariant(s: State, steps: seq<Step>, end: State)
    requires Invariant(s) && Run(s, steps, end)
    ensures Invariant(end)
    decreases |steps|
  {
    if steps != [] {
      var n := |steps| - 1;
      var mid :| Run(s, steps[..n], mid) && Enabled(mid, steps[n]) && Next(mid, steps[n]) == end;
      RunKeepsInvariant(s, steps[..n], mid);
      StepKeepsInvariant(mid, steps[n]);
    }
  }

  lemma ReachableInvariant(s: State)
    requires Reachable(s)
    ensures Invariant(s)
  {
    var s0, steps :| Initial(s0) && Run(s0, steps, s);
    RunKeepsInvariant(s0, steps, s);
  }

  // ------------------------------------------------------------------------- what callers rely on

  /** No sleeper is stranded: whoever sleeps on a value the word no longer has, or is about to, will
      be covered by a wake some thread has yet to issue for that very word. */
  lemma NoSleeperStranded(s: State, t: Thread)
    requires Reachable(s) && Stale(s, t)
    ensures SomebodyOwesWake(s, s.threads[t].mode.a)
  {
    ReachableInvariant(s);
  }

  /** So once every wake has been issued, every sleeper's word still has the value it sleeps on. */
  lemma AllWakesIssuedMeansNobodyStale(s: State)
    requires Reachable(s) && forall t, a :: !OwesWake(s, t, a)
    ensures forall t :: t in s.threads && s.threads[t].mode.Parked?
              ==> s.At(s.threads[t].mode.a) == s.threads[t].mode.expected
  {
    forall t | t in s.threads && s.threads[t].mode.Parked?
      ensures s.At(s.threads[t].mode.a) == s.threads[t].mode.expected
    {
      if Stale(s, t) {
        NoSleeperStranded(s, t);
      }
    }
  }

  /** Two threads never hold one bucket, and whoever holds one has a step to take: a bucket lock is
      always given back. */
  lemma BucketsAreExclusive(s: State, t: Thread, u: Thread)
    requires Reachable(s) && t in s.threads && u in s.threads
    requires Holds(s.threads[t].mode).Some? && Holds(s.threads[t].mode) == Holds(s.threads[u].mode)
    ensures t == u
    ensures Enabled(s, Compare(t)) || Enabled(s, Park(t)) || Enabled(s, Broadcast(t)) || Enabled(s, Unlock(t))
  {
    hide BucketFor;
    ReachableInvariant(s);
  }

  // ------------------------------------------------------------------------- deadlines

  datatype Timespec = Timespec(sec: int, nsec: int)

  const SECOND: int := 1_000_000_000

  ghost function Nanoseconds(t: Timespec): int {
    t.sec * SECOND + t.nsec
  }

  ghost predicate Normal(t: Timespec) {
    0 <= t.nsec < SECOND
  }

  /** orbis_umtx_deadline: the time left on the caller's clock, never negative, from now on the
      condition variable's clock. callerNow is what the caller's clock reads. */
  method Deadline(timeout: Timespec, absolute: bool, callerNow: Timespec, condNow: Timespec) returns (out: Timespec)
    requires Normal(timeout) && Normal(callerNow) && Normal(condNow)
    ensures Normal(out)
    ensures absolute ==>
      Nanoseconds(out) - Nanoseconds(condNow)
      == if Nanoseconds(timeout) <= Nanoseconds(callerNow) then 0 else Nanoseconds(timeout) - Nanoseconds(callerNow)
    ensures !absolute ==> Nanoseconds(out) - Nanoseconds(condNow) == Nanoseconds(timeout)
  {
    var rel := timeout;
    if absolute {
      rel := Timespec(timeout.sec - callerNow.sec, timeout.nsec - callerNow.nsec);
      if rel.nsec < 0 {
        rel := Timespec(rel.sec - 1, rel.nsec + SECOND);
      }
      if rel.sec < 0 {
        rel := Timespec(0, 0);
      }
    }
    out := Timespec(condNow.sec + rel.sec, condNow.nsec + rel.nsec);
    if out.nsec >= SECOND {
      out := Timespec(out.sec + 1, out.nsec - SECOND);
    }
  }

  // ------------------------------------------------------------------------- the hash

  /** The 64 words of an aligned 256-byte block go to 64 different buckets. */
  lemma NeighboursNeverShareABucket(a: Address, b: Address)
    requires a / 256 == b / 256 && a / 4 != b / 4
    ensures BucketFor(a) != BucketFor(b)
  {
    var v, w := a / 4, b / 4;
    assert v / 64 == a / 256 && w / 64 == b / 256;
    assert v == v / 64 * 64 + v % 64 && w == w / 64 * 64 + w % 64;
    assert v / 256 == v / 64 / 4 && w / 256 == w / 64 / 4;
    FoldIsInjective(v % 64, w % 64, v / 256 % 64);
  }

  /** And so do 64 words at a distance of 1 KiB from one to the next, which a plain modulus would put into
      one bucket. */
  lemma StridesNeverShareABucket(a: Address, b: Address)
    requires a / 4 % 64 == b / 4 % 64 && a / 1024 % 64 != b / 1024 % 64
    ensures BucketFor(a) != BucketFor(b)
  {
    assert a / 4 / 256 == a / 1024 && b / 4 / 256 == b / 1024;
    FoldIsInjective(a / 1024 % 64, b / 1024 % 64, a / 4 % 64);
    XorCommutes((a / 4 % 64) as bv6, (a / 1024 % 64) as bv6);
    XorCommutes((b / 4 % 64) as bv6, (b / 1024 % 64) as bv6);
  }

  lemma XorCommutes(p: bv6, q: bv6)
    ensures p ^ q == q ^ p
  {
  }

  lemma FoldIsInjective(x: nat, y: nat, k: nat)
    requires x < 64 && y < 64 && k < 64 && x != y
    ensures (x as bv6 ^ k as bv6) as nat != (y as bv6 ^ k as bv6) as nat
  {
    CastBack(x);
    CastBack(y);
    XorIsInjective(x as bv6, y as bv6, k as bv6);
    CastIsInjective(x as bv6 ^ k as bv6, y as bv6 ^ k as bv6);
  }

  lemma CastBack(x: nat)
    requires x < 64
    ensures (x as bv6) as nat == x
  {
  }

  lemma XorIsInjective(p: bv6, q: bv6, m: bv6)
    requires p != q
    ensures p ^ m != q ^ m
  {
  }

  lemma CastIsInjective(p: bv6, q: bv6)
    requires p != q
    ensures p as nat != q as nat
  {
  }
}
