/** How many free spans an arena of src/orbis_jit.c can have, and so when a free can leak at all. */
module JitCounts {
  import opened Wrappers
  import opened JitSpans
  import opened JitPlacement
  import opened JitSpec
  import opened JitProofs
  import opened JitFree
  import opened JitRuns

  /** The blocks of an arena that end at or before x. */
  ghost function BlocksUpTo(bs: set<Span>, a: Arena, x: int): set<Span> {
    set b | b in bs && Inside(b, a) && b.End() <= x
  }

  /** Between two neighbouring spans there is a block. */
  lemma BlockBetween(s: State, i: nat, k: nat) returns (b: Span)
    requires Valid(s) && i < |s.arenas| && !s.arenas[i].dedicated && k + 1 < |s.arenas[i].spans|
    ensures b in s.live + s.leaked && Inside(b, s.arenas[i])
    ensures s.arenas[i].spans[k].at < s.arenas[i].spans[k].End() <= b.at && b.End() <= s.arenas[i].spans[k + 1].at
  {
    hide ValidBlock, Conserved, ArenasApart, BlocksApart, HeadersTrue;
    var a := s.arenas[i];
    var f := a.spans;
    var x := f[k].End();
    GapIsNotFree(a, k);
    assert Covered(s.live + s.leaked, x);
    b :| b in s.live + s.leaked && b.Has(x);
    StaysInGap(s, i, k, b);
  }

  lemma GapIsNotFree(a: Arena, k: nat)
    requires ValidArena(a) && k + 1 < |a.spans|
    ensures a.Contains(a.spans[k].End()) && !InSome(a.spans, a.spans[k].End())
    ensures a.spans[k].End() < a.spans[k + 1].at && a.spans[k].len > 0 && a.spans[k + 1].len > 0
  {
    assert Inside(a.spans[k], a) && Inside(a.spans[k + 1], a);
  }

  lemma StaysInGap(s: State, i: nat, k: nat, b: Span)
    requires Valid(s) && i < |s.arenas| && k + 1 < |s.arenas[i].spans|
    requires b in s.live + s.leaked && b.Has(s.arenas[i].spans[k].End())
    ensures s.arenas[i].spans[k].End() <= b.at && b.End() <= s.arenas[i].spans[k + 1].at && Inside(b, s.arenas[i])
  {
    hide ValidBlock, Conserved, ArenasApart, BlocksApart, HeadersTrue, NoByteLost;
    var f := s.arenas[i].spans;
    GapIsNotFree(s.arenas[i], k);
    assert f[k].Has(f[k].End() - 1) && InSome(f, f[k].End() - 1) && !Covered(s.live + s.leaked, f[k].End() - 1);
    assert f[k + 1].Has(f[k + 1].at) && InSome(f, f[k + 1].at) && !Covered(s.live + s.leaked, f[k + 1].at);
  }

  lemma {:induction false} BlocksBefore(s: State, i: nat, k: nat)
    requires Valid(s) && i < |s.arenas| && !s.arenas[i].dedicated && k < |s.arenas[i].spans|
    ensures |BlocksUpTo(s.live + s.leaked, s.arenas[i], s.arenas[i].spans[k].at)| >= k
  {
    hide Valid, Inside;
    if k > 0 {
      BlocksBefore(s, i, k - 1);
      var b := BlockBetween(s, i, k - 1);
      var f := s.arenas[i].spans;
      var bs := s.live + s.leaked;
      SubsetSize(BlocksUpTo(bs, s.arenas[i], f[k - 1].at), BlocksUpTo(bs, s.arenas[i], f[k].at), b);
    }
  }

  lemma SubsetSize(small: set<Span>, big: set<Span>, b: Span)
    requires small <= big && b in big && b !in small
    ensures |big| >= |small| + 1
  {
    assert big == (big - small) + small && |big - small| >= |{b}| by {
      assert {b} <= big - small;
      assert big - small == {b} + (big - small - {b});
    }
  }

  ghost function BlocksOf(s: State, a: Arena): set<Span> {
    set b | b in s.live + s.leaked && Inside(b, a)
  }

  /** An arena has at most one free span more than blocks that are live or leaked. */
  lemma SpansAreFew(s: State, i: nat)
    requires Valid(s) && i < |s.arenas|
    ensures |s.arenas[i].spans| <= |BlocksOf(s, s.arenas[i])| + 1
  {
    hide Inside;
    var a := s.arenas[i];
    var n := |a.spans|;
    assert ValidArena(a);
    if n > 0 {
      BlocksBefore(s, i, n - 1);
      NoMoreThanAll(BlocksUpTo(s.live + s.leaked, a, a.spans[n - 1].at), BlocksOf(s, a));
    }
  }

  lemma NoMoreThanAll(small: set<Span>, big: set<Span>)
    requires small <= big
    ensures |small| <= |big|
  {
    assert big == small + (big - small);
  }

  /** So a free leaks nothing while fewer than 255 blocks are out. */
  lemma FewBlocksNoLeak(s: State, addr: nat)
    requires Valid(s) && Freeable(s, addr) && |s.live + s.leaked| < 255
    ensures Free(s, addr).leaked == s.leaked
  {
    hide Valid, Free, Inside, Freeable;
    FreeKeepsValid(s, addr);
    forall i: nat | i < |s.arenas| ensures |s.arenas[i].spans| < MAX_SPANS {
      SpansAreFew(s, i);
      NoMoreThanAll(BlocksOf(s, s.arenas[i]), s.live + s.leaked);
    }
  }

  /** At most 254 blocks are out before every free of the run. */
  ghost predicate FewOut(anchor: nat, s: State, ops: seq<Op>)
    requires anchor >= MODULE_SPAN
  {
    ops == [] ||
    var front := ops[..|ops| - 1];
    FewOut(anchor, s, front) && (ops[|ops| - 1].DoFree? ==> |Run(anchor, s, front).live| < 255)
  }

  /** A run that never frees with more than 254 blocks out leaks nothing. */
  lemma {:induction false} FewOutNeverLeaks(anchor: nat, s: State, ops: seq<Op>)
    requires anchor >= MODULE_SPAN && Initial(s) && RunPermitted(anchor, s, ops) && FewOut(anchor, s, ops)
    ensures Valid(Run(anchor, s, ops)) && Run(anchor, s, ops).leaked == {}
  {
    hide Valid, Permitted, Next;
    StartIsValid(s);
    if ops != [] {
      var front := ops[..|ops| - 1];
      FewOutNeverLeaks(anchor, s, front);
      RunKeepsValid(anchor, s, ops);
      StepLeaksNothing(anchor, Run(anchor, s, front), ops[|ops| - 1]);
    }
  }

  lemma StepLeaksNothing(anchor: nat, s: State, op: Op)
    requires anchor >= MODULE_SPAN && Valid(s) && Permitted(anchor, s, op) && s.leaked == {}
    requires op.DoFree? ==> |s.live| < 255
    ensures Next(anchor, s, op).leaked == {}
  {
    hide Valid, MayGrow, MayMap, Alloc, AllocAt, Free, Freeable, InPayload;
    match op
    case DoAlloc(q, size, near, found, setting, ans) => AllocKeepsValid(q, s, size, near, anchor, found, setting, ans);
    case DoAllocAt(q, addr, size, found, ans) => AllocAtKeepsValid(q, s, addr, size, found, ans);
    case DoFree(addr) =>
      assert s.live + s.leaked == s.live;
      FewBlocksNoLeak(s, addr);
    case _ =>
  }
}
