/**
 Allocation from the JIT arenas of src/orbis_jit.c, and whole runs of calls with the kernel failing
 wherever it likes.
 */
module JitRuns {
  import opened Wrappers
  import opened JitSpans
  import opened JitPlacement
  import opened JitSpec
  import opened JitProofs
  import opened JitFree

  // ------------------------------------------------------------------------- allocation

  /** What a call that may have to take an arena relies on. For a near request the search was given
      the two windows around the module. */
  ghost predicate MayGrow(q: Query, s: State, size: nat, near: bool, anchor: nat, found: Option<nat>,
                          setting: Option<int>, ans: Answers)
  {
    var len := ArenaSize(BlockLength(size), setting);
    && anchor >= MODULE_SPAN
    && (near && found.Some? ==> InWindow(anchor, found.value, len))
    && (near ==> found.Some? ==> MayMap(q, s.kernel, found, len, ans))
    && (!near ==> MayMap(q, s.kernel, None, len, ans))
  }

  /** A block for the caller: new, apart from every other, with its length in front of it, in a shared
      arena, and in reach of the whole module if that was asked for. Or nothing, and no block moved. */
  ghost predicate AllocIsSound(s: State, size: nat, near: bool, anchor: nat, r: Option<nat>, s': State)
    requires anchor >= MODULE_SPAN
  {
    match r
    case None => s'.live == s.live && s'.leaked == s.leaked && s'.kernel == s.kernel
    case Some(p) =>
      p >= UNIT && p % UNIT == 0 &&
      var b := Span(p - UNIT, BlockLength(size));
      && b !in s.live + s.leaked && s'.live == s.live + {b} && s'.leaked == s.leaked
      && (forall c :: c in s.live + s.leaked ==> !c.Overlaps(b))
      && s'.words(b.at) == b.len
      && exists i :: 0 <= i < |s'.arenas| && !s'.arenas[i].dedicated && Inside(b, s'.arenas[i])
                     && (near ==> InReach(anchor, s'.arenas[i].base, s'.arenas[i].size))
  }

  lemma GrowKeepsValid(q: Query, s: State, atleast: nat, near: bool, found: Option<nat>, setting: Option<int>,
                       ans: Answers)
    requires Valid(s)
    requires var len := ArenaSize(atleast, setting);
             if near then found.Some? ==> MayMap(q, s.kernel, found, len, ans) else MayMap(q, s.kernel, None, len, ans)
    ensures var s' := Grow(s, atleast, near, found, setting, ans);
            var len := ArenaSize(atleast, setting);
            && Valid(s') && s'.live == s.live && s'.leaked == s.leaked
            && (s'.arenas == s.arenas ==> s'.kernel == s.kernel)
            && (s'.arenas != s.arenas ==>
                  && |s'.arenas| == |s.arenas| + 1 && s'.arenas[..|s.arenas|] == s.arenas
                  && var a := s'.arenas[|s.arenas|];
                  && !a.dedicated && a.size == len && a.spans == [Span(a.base, len)]
                  && (near ==> Some(a.base) == found))
  {
    hide Valid, MapArena, ArenaSize, MayMap;
    var len := ArenaSize(atleast, setting);
    if |s.arenas| < MAX_ARENAS && !(near && found == None) {
      var at := if near then found else None;
      ValidIsAligned(s);
      MapArenaConserves(q, s.kernel, s.verdict, at, len, ans);
      var o := MapArena(s.kernel, s.verdict, at, len, ans);
      if o.got.Some? {
        var a := Arena(o.got.value.0, len, o.got.value.1, false, [Span(o.got.value.0, len)]);
        NewArenaIsNew(q, s, at, len, ans, a);
        AddArenaKeepsValid(s, a, len, o.verdict);
        assert Grow(s, atleast, near, found, setting, ans) == WithArena(s, a, o.verdict);
      } else {
        VerdictDoesNotMatter(s, o.verdict);
      }
    }
  }

  lemma VerdictDoesNotMatter(s: State, verdict: int)
    requires Valid(s)
    ensures Valid(s.(verdict := verdict))
  {
  }

  lemma GranulesAreUnits(n: nat)
    requires n % GRANULE == 0
    ensures n % UNIT == 0
  {
  }

  lemma NewArenaIsNew(q: Query, s: State, at: Option<nat>, len: nat, ans: Answers, a: Arena)
    requires MayMap(q, s.kernel, at, len, ans) && GranuleAligned(s.kernel)
    requires ans.phys == Some(a.phys) && ans.landed == Some(a.base) && a.size == len
    requires if a.dedicated then a.spans == [] else a.spans == [Span(a.base, len)]
    ensures NewArena(s, a, len)
  {
    hide FreeRun, SeesOurs, PicksFree, GranuleAligned;
    LandsApart(q, s.kernel, at, len, ans);
    GranulesAreUnits(a.base);
    GranulesAreUnits(len);
  }

  /** orbis_jit_alloc keeps the invariant and gives what it should. */
  lemma AllocKeepsValid(q: Query, s: State, size: nat, near: bool, anchor: nat, found: Option<nat>,
                        setting: Option<int>, ans: Answers)
    requires Valid(s) && MayGrow(q, s, size, near, anchor, found, setting, ans)
    ensures var (r, s') := Alloc(s, size, near, anchor, found, setting, ans);
            Valid(s') && AllocIsSound(s, size, near, anchor, r, s')
  {
    hide Valid, Grow, BlockLength, ArenaSize, MayMap, Take, Inside;
    var len := BlockLength(size);
    var i := FirstServing(s.arenas, len, near, anchor, 0);
    if i < |s.arenas| {
      ServeGives(s, s, i, size, near, anchor);
    } else {
      GrowKeepsValid(q, s, len, near, found, setting, ans);
      var s1 := Grow(s, len, near, found, setting, ans);
      if |s1.arenas| > |s.arenas| {
        var a := s1.arenas[|s.arenas|];
        WholeSpanServes(a, len);
        if near {
          WindowPassesTheTest(anchor, a.base, a.size);
        }
        ServeGives(s, s1, |s.arenas|, size, near, anchor);
      }
    }
  }

  /** A request is refused exactly when no arena serves it and none can be taken, for want of a slot, of a
      place in reach, or of one of the kernel's and the stub's answers. */
  lemma AllocRefusesIff(q: Query, s: State, size: nat, near: bool, anchor: nat, found: Option<nat>,
                        setting: Option<int>, ans: Answers)
    requires Valid(s) && MayGrow(q, s, size, near, anchor, found, setting, ans)
    ensures Alloc(s, size, near, anchor, found, setting, ans).0 == None
            <==> (forall a :: a in s.arenas ==> !Serves(a, BlockLength(size), near, anchor))
                 && GrowFails(|s.arenas|, near, found, ans)
  {
    hide Valid, BlockLength, ArenaSize, MayMap, Take, Inside, Grow, GrowFails;
    var len := BlockLength(size);
    var i := FirstServing(s.arenas, len, near, anchor, 0);
    if i == |s.arenas| {
      GrowKeepsValid(q, s, len, near, found, setting, ans);
      GrowFailsIff(s, len, near, found, setting, ans);
      var s1 := Grow(s, len, near, found, setting, ans);
      if |s1.arenas| > |s.arenas| {
        WholeSpanServes(s1.arenas[|s.arenas|], len);
      }
    }
  }

  /** An arena that serves a request: shared, in reach if that was asked for, with a span long enough. */
  ghost predicate CanServe(a: Arena, len: nat, near: bool, anchor: nat)
    requires anchor >= MODULE_SPAN
  {
    !a.dedicated && (near ==> NearModule(anchor, a.base, a.size)) && exists s :: s in a.spans && s.len >= len
  }

  /** The first arena that can serve does, from its lowest span that is long enough; the caller's block begins 64
      bytes behind that span's start. */
  lemma AllocIsFirstFit(s: State, size: nat, near: bool, anchor: nat, found: Option<nat>, setting: Option<int>,
                        ans: Answers, i: nat)
    requires anchor >= MODULE_SPAN && i < |s.arenas| && CanServe(s.arenas[i], BlockLength(size), near, anchor)
    requires forall k :: 0 <= k < i ==> !CanServe(s.arenas[k], BlockLength(size), near, anchor)
    ensures var f := s.arenas[i].spans;
            exists k :: 0 <= k < |f| && f[k].len >= BlockLength(size)
                        && Alloc(s, size, near, anchor, found, setting, ans).0 == Some(f[k].at + 64)
                        && forall m :: 0 <= m < k ==> f[m].len < BlockLength(size)
  {
    hide BlockLength, NearModule, Take, Grow, FirstServing;
    var len := BlockLength(size);
    forall k | 0 <= k <= i
      ensures Serves(s.arenas[k], len, near, anchor) <==> CanServe(s.arenas[k], len, near, anchor)
    {
      TakeIsFirstFit(s.arenas[k].spans, len);
    }
    assert FirstServing(s.arenas, len, near, anchor, 0) == i;
    var f := s.arenas[i].spans;
    TakeIsFirstFit(f, len);
    var k :| 0 <= k < |f| && f[k].len >= len && Take(f, len).value.0 == f[k].at
             && forall m :: 0 <= m < k ==> f[m].len < len;
    assert Alloc(s, size, near, anchor, found, setting, ans).0 == Some(f[k].at + 64);
  }

  lemma GrowFailsIff(s: State, atleast: nat, near: bool, found: Option<nat>, setting: Option<int>, ans: Answers)
    ensures |Grow(s, atleast, near, found, setting, ans).arenas| > |s.arenas|
            <==> !GrowFails(|s.arenas|, near, found, ans)
  {
  }

  lemma WholeSpanServes(a: Arena, len: nat)
    requires a.spans == [Span(a.base, a.size)] && len <= a.size
    ensures Take(a.spans, len).Some?
  {
  }

  lemma ServeGives(s: State, s1: State, i: nat, size: nat, near: bool, anchor: nat)
    requires Valid(s1) && s1.live == s.live && s1.leaked == s.leaked && anchor >= MODULE_SPAN
    requires i < |s1.arenas| && Serves(s1.arenas[i], BlockLength(size), near, anchor)
    ensures var (p, s') := Serve(s1, i, BlockLength(size));
            Valid(s') && AllocIsSound(s, size, near, anchor, Some(p), s')
  {
    hide Valid, BlockLength, Inside;
    var len := BlockLength(size);
    ServeIsSound(s1, i, len);
    var (p, s') := Serve(s1, i, len);
    var b := Span(p - UNIT, len);
    assert s'.arenas[i].base == s1.arenas[i].base && s'.arenas[i].size == s1.arenas[i].size;
    InsideSame(b, s1.arenas[i], s'.arenas[i]);
    ServedBlockIsUnits(s', b);
  }

  lemma InsideSame(b: Span, a: Arena, a': Arena)
    requires Inside(b, a) && a'.base == a.base && a'.size == a.size
    ensures Inside(b, a')
  {
  }

  lemma ServedBlockIsUnits(s: State, b: Span)
    requires Valid(s) && b in s.live
    ensures b.at % UNIT == 0
  {
  }

  /** What orbis_jit_alloc_at gives: a mapping at exactly the address asked for, which was unmapped
      throughout; or nothing, and nothing held that was not held before. */
  ghost predicate AllocAtIsSound(q: Query, s: State, addr: nat, size: nat, r: Option<nat>, s': State) {
    && s'.live == s.live && s'.leaked == s.leaked
    && match r
       case None => s'.arenas == s.arenas && s'.kernel == s.kernel
       case Some(p) =>
         && p == addr && FreeRun(q, addr, addr + RoundUp(size))
         && |s'.arenas| == |s.arenas| + 1
         && var a := s'.arenas[|s.arenas|];
            a.dedicated && a.base == addr && a.size == RoundUp(if size == 0 then 1 else size)
  }

  lemma AllocAtKeepsValid(q: Query, s: State, addr: nat, size: nat, found: Option<nat>, ans: Answers)
    requires Valid(s)
    requires var len := RoundUp(if size == 0 then 1 else size);
             found.Some? && addr % GRANULE == 0 ==> MayMap(q, s.kernel, Some(addr), len, ans)
    ensures var (r, s') := AllocAt(s, addr, size, found, ans);
            Valid(s') && AllocAtIsSound(q, s, addr, size, r, s')
  {
    hide Valid, MapArena, RoundUp;
    var len := RoundUp(if size == 0 then 1 else size);
    if addr != 0 && addr % GRANULE == 0 && |s.arenas| < MAX_ARENAS && found.Some? {
      ValidIsAligned(s);
      MapArenaConserves(q, s.kernel, s.verdict, Some(addr), len, ans);
      var o := MapArena(s.kernel, s.verdict, Some(addr), len, ans);
      if o.got.Some? {
        var a := Arena(o.got.value.0, len, o.got.value.1, true, []);
        NewArenaIsNew(q, s, Some(addr), len, ans, a);
        AddArenaKeepsValid(s, a, len, o.verdict);
        RoundUpOfZero(q, addr, size);
      } else {
        VerdictDoesNotMatter(s, o.verdict);
      }
    }
  }

  /** The address is refused exactly when it is no place for an arena, no slot is free, it is in use, or one
      of the kernel's and the stub's answers is wanting. */
  lemma AllocAtRefusesIff(s: State, addr: nat, size: nat, found: Option<nat>, ans: Answers)
    ensures AllocAt(s, addr, size, found, ans).0 == None
            <==> addr == 0 || addr % 0x4000 != 0 || |s.arenas| >= 8 || found == None || MapFails(Some(addr), ans)
  {
  }

  // ------------------------------------------------------------------------- what is written

  /** Every word of the arenas of s but the one at except is as it was. */
  ghost predicate WordsStay(s: State, s': State, except: int) {
    forall a, x: int :: a in s.arenas && a.Contains(x) && x != except ==> s'.words(x) == s.words(x)
  }

  /** The stub in a new arena touches no word of another. */
  lemma StubStaysInside(s: State, s': State)
    requires Valid(s') && |s'.arenas| == |s.arenas| + 1 && s'.arenas[..|s.arenas|] == s.arenas
    requires s'.words == Stubbed(s.words, s'.arenas[|s.arenas|].base)
    ensures WordsStay(s, s', -1)
  {
    hide ValidBlock, SpansApart, NoByteLost, BlocksApart, Conserved, Spaced;
    var new' := s'.arenas[|s.arenas|];
    assert ValidArena(new') && new'.size >= 8;
    forall a, x: int | a in s.arenas && a.Contains(x) ensures s'.words(x) == s.words(x) {
      var j :| 0 <= j < |s.arenas| && s.arenas[j] == a;
      assert s'.arenas[j] == a;
    }
  }

  /** Of what any arena holds, an allocation writes the header in front of its own block and nothing else. */
  lemma AllocWritesOneHeader(q: Query, s: State, size: nat, near: bool, anchor: nat, found: Option<nat>,
                             setting: Option<int>, ans: Answers)
    requires Valid(s) && MayGrow(q, s, size, near, anchor, found, setting, ans)
    ensures var (r, s') := Alloc(s, size, near, anchor, found, setting, ans);
            WordsStay(s, s', if r == None then -1 else r.value - UNIT)
  {
    hide Valid, BlockLength, ArenaSize, MayMap, Take, Inside, Grow, FirstServing, Stubbed;
    var len := BlockLength(size);
    if FirstServing(s.arenas, len, near, anchor, 0) == |s.arenas| {
      GrowKeepsValid(q, s, len, near, found, setting, ans);
      GrowWrites(s, len, near, found, setting, ans);
      var s1 := Grow(s, len, near, found, setting, ans);
      if s1.arenas != s.arenas {
        StubStaysInside(s, s1);
      }
    }
  }

  lemma GrowWrites(s: State, atleast: nat, near: bool, found: Option<nat>, setting: Option<int>, ans: Answers)
    ensures var s1 := Grow(s, atleast, near, found, setting, ans);
            s1.words == if |s1.arenas| == |s.arenas| then s.words else Stubbed(s.words, s1.arenas[|s.arenas|].base)
  {
    hide ArenaSize, MapArena;
  }

  /** An allocation at an address writes nothing into any arena but its own. */
  lemma AllocAtWritesNothing(q: Query, s: State, addr: nat, size: nat, found: Option<nat>, ans: Answers)
    requires Valid(s)
    requires var len := RoundUp(if size == 0 then 1 else size);
             found.Some? && addr % GRANULE == 0 ==> MayMap(q, s.kernel, Some(addr), len, ans)
    ensures WordsStay(s, AllocAt(s, addr, size, found, ans).1, -1)
  {
    hide Valid, MapArena, RoundUp, MayMap, Stubbed;
    AllocAtKeepsValid(q, s, addr, size, found, ans);
    var s' := AllocAt(s, addr, size, found, ans).1;
    if s'.arenas != s.arenas {
      assert s'.arenas[..|s.arenas|] == s.arenas;
      StubStaysInside(s, s');
    }
  }

  lemma RoundUpOfZero(q: Query, addr: nat, size: nat)
    requires FreeRun(q, addr, addr + RoundUp(if size == 0 then 1 else size))
    ensures FreeRun(q, addr, addr + RoundUp(size))
  {
  }

  // ------------------------------------------------------------------------- runs

  datatype Op =
    | DoAlloc(q: Query, size: nat, near: bool, found: Option<nat>, setting: Option<int>, ans: Answers)
    | DoAllocAt(q: Query, addr: nat, size: nat, found: Option<nat>, ans: Answers)
    | DoFree(addr: nat)
    | DoReleaseAll
    | DoWrite(addr: nat, value: int)

  /** The word at addr lies behind the header of a live block. */
  ghost predicate InPayload(s: State, addr: nat) {
    exists b :: b in s.live && b.at + UNIT <= addr < b.at + b.len
  }

  ghost predicate Permitted(anchor: nat, s: State, op: Op) {
    match op
    case DoAlloc(q, size, near, found, setting, ans) => MayGrow(q, s, size, near, anchor, found, setting, ans)
    case DoAllocAt(q, addr, size, found, ans) =>
      found.Some? && addr % GRANULE == 0 ==>
        MayMap(q, s.kernel, Some(addr), RoundUp(if size == 0 then 1 else size), ans)
    case DoFree(addr) => Freeable(s, addr)
    case DoReleaseAll => true
    case DoWrite(addr, _) => InPayload(s, addr)
  }

  function Next(anchor: nat, s: State, op: Op): State
    requires anchor >= MODULE_SPAN
  {
    match op
    case DoAlloc(_, size, near, found, setting, ans) => Alloc(s, size, near, anchor, found, setting, ans).1
    case DoAllocAt(_, addr, size, found, ans) => AllocAt(s, addr, size, found, ans).1
    case DoFree(addr) => Free(s, addr)
    case DoReleaseAll => ReleaseAll(s)
    case DoWrite(addr, value) => s.(words := SetWord(s.words, addr, value))
  }

  function Run(anchor: nat, s: State, ops: seq<Op>): State
    requires anchor >= MODULE_SPAN
  {
    if ops == [] then s else Next(anchor, Run(anchor, s, ops[..|ops| - 1]), ops[|ops| - 1])
  }

  ghost predicate RunPermitted(anchor: nat, s: State, ops: seq<Op>)
    requires anchor >= MODULE_SPAN
  {
    ops == [] ||
    (RunPermitted(anchor, s, ops[..|ops| - 1]) && Permitted(anchor, Run(anchor, s, ops[..|ops| - 1]), ops[|ops| - 1]))
  }

  /** Blocks lie apart, so a write behind one header reaches no header. */
  lemma WriteKeepsValid(s: State, addr: nat, value: int)
    requires Valid(s) && InPayload(s, addr)
    ensures Valid(s.(words := SetWord(s.words, addr, value)))
  {
  }

  lemma StepKeepsValid(anchor: nat, s: State, op: Op)
    requires anchor >= MODULE_SPAN && Valid(s) && Permitted(anchor, s, op)
    ensures Valid(Next(anchor, s, op))
  {
    hide Valid, MayGrow, MayMap, Alloc, AllocAt, Free, ReleaseAll, Freeable, InPayload;
    match op
    case DoAlloc(q, size, near, found, setting, ans) => AllocKeepsValid(q, s, size, near, anchor, found, setting, ans);
    case DoAllocAt(q, addr, size, found, ans) => AllocAtKeepsValid(q, s, addr, size, found, ans);
    case DoFree(addr) => FreeKeepsValid(s, addr);
    case DoReleaseAll => ReleaseAllIsComplete(s);
    case DoWrite(addr, value) => WriteKeepsValid(s, addr, value);
  }

  /** In every reachable state free spans, live blocks and leaked ones partition every shared arena,
      spans are sorted and never touch, headers are true, and the kernel holds what the table says. */
  lemma {:induction false} RunKeepsValid(anchor: nat, s: State, ops: seq<Op>)
    requires anchor >= MODULE_SPAN && Valid(s) && RunPermitted(anchor, s, ops)
    ensures Valid(Run(anchor, s, ops))
  {
    hide Valid, Permitted, Next;
    if ops != [] {
      RunKeepsValid(anchor, s, ops[..|ops| - 1]);
      StepKeepsValid(anchor, Run(anchor, s, ops[..|ops| - 1]), ops[|ops| - 1]);
    }
  }

  /** After any run from the start: the kernel holds exactly the arenas of the table, and an arena
      whose blocks have all been freed without a leak has come back to one free span. */
  lemma RunFromStart(anchor: nat, s: State, ops: seq<Op>)
    requires anchor >= MODULE_SPAN && Initial(s) && RunPermitted(anchor, s, ops)
    ensures var end := Run(anchor, s, ops);
            && end.kernel.owned == (set i | 0 <= i < |end.arenas| :: end.arenas[i].Physical())
            && end.kernel.mapped == (set i | 0 <= i < |end.arenas| :: end.arenas[i].Range())
            && forall i :: 0 <= i < |end.arenas| && !end.arenas[i].dedicated
                 && (forall b :: b in end.live + end.leaked ==> !Inside(b, end.arenas[i]))
                 ==> end.arenas[i].spans == [Span(end.arenas[i].base, end.arenas[i].size)]
  {
    hide ValidBlock, SpansApart, NoByteLost, ArenasApart, ValidArena, Inside, BlocksApart;
    StartIsValid(s);
    RunKeepsValid(anchor, s, ops);
    var end := Run(anchor, s, ops);
    forall i | 0 <= i < |end.arenas| && !end.arenas[i].dedicated
               && (forall b :: b in end.live + end.leaked ==> !Inside(b, end.arenas[i]))
      ensures end.arenas[i].spans == [Span(end.arenas[i].base, end.arenas[i].size)]
    {
      EmptyArenaIsOneSpan(end, i);
    }
  }

  lemma StartIsValid(s: State)
    requires Initial(s)
    ensures Valid(s)
  {
  }

  // ------------------------------------------------------------------------- adding up

  ghost function Interval(lo: int, n: nat): (r: set<int>)
    ensures |r| == n && forall x :: x in r <==> lo <= x < lo + n
  {
    if n == 0 then {} else Interval(lo, n - 1) + {lo + n - 1}
  }

  /** Free plus live plus leaked bytes equal the arena. */
  lemma BytesAddUp(s: State, i: nat)
    requires Valid(s) && i < |s.arenas| && !s.arenas[i].dedicated
    ensures var a := s.arenas[i];
            var bytes := Interval(a.base, a.size);
            |set x | x in bytes && InSome(a.spans, x)| + |set x | x in bytes && Covered(s.live, x)|
            + |set x | x in bytes && Covered(s.leaked, x)| == a.size
  {
    hide Valid, InSome, Covered;
    var a := s.arenas[i];
    var bytes := Interval(a.base, a.size);
    var free := set x | x in bytes && InSome(a.spans, x);
    var live := set x | x in bytes && Covered(s.live, x);
    var leaked := set x | x in bytes && Covered(s.leaked, x);
    forall x | x in bytes
      ensures x in free + live + leaked && !(x in free && x in live + leaked) && !(x in live && x in leaked)
    {
      OneOwner(s, i, x);
    }
    assert free + live + leaked == bytes && free !! live && (free + live) !! leaked;
  }

  lemma OneOwner(s: State, i: nat, x: int)
    requires Valid(s) && i < |s.arenas| && !s.arenas[i].dedicated && s.arenas[i].Contains(x)
    ensures InSome(s.arenas[i].spans, x) || Covered(s.live, x) || Covered(s.leaked, x)
    ensures InSome(s.arenas[i].spans, x) ==> !Covered(s.live, x) && !Covered(s.leaked, x)
    ensures Covered(s.live, x) ==> !Covered(s.leaked, x)
  {
    hide ValidBlock, Conserved, ArenasApart, ValidArena, InSome;
    CoveredByBoth(s, x);
    if Covered(s.live, x) {
      var b :| b in s.live && b.Has(x);
      forall c | c in s.leaked ensures !c.Has(x) {
        assert b in s.live + s.leaked && c in s.live + s.leaked && b != c;
      }
    }
  }

  lemma CoveredByBoth(s: State, x: int)
    ensures Covered(s.live + s.leaked, x) <==> Covered(s.live, x) || Covered(s.leaked, x)
  {
  }
}
