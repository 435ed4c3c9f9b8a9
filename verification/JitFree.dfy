/**
 Giving blocks and arenas back to the JIT allocator of src/orbis_jit.c.
 */
module JitFree {
  import opened Wrappers
  import opened JitSpans
  import opened JitPlacement
  import opened JitSpec
  import opened JitProofs

  // ------------------------------------------------------------------------- a block into the list

  ghost predicate AllInside(f: seq<Span>, a: Arena) {
    forall k :: 0 <= k < |f| ==> Inside(f[k], a) && f[k].at % UNIT == 0 && f[k].len % UNIT == 0
  }

  lemma InsertInside(f: seq<Span>, i: nat, b: Span, a: Arena)
    requires AllInside(f, a) && i <= |f| && Inside(b, a) && b.at % UNIT == 0 && b.len % UNIT == 0
    ensures AllInside(Insert(f, i, b), a)
  {
  }

  lemma MergeInside(f: seq<Span>, i: nat, a: Arena)
    requires AllInside(f, a) && i + 1 < |f| && f[i].End() == f[i + 1].at
    ensures AllInside(Merge(f, i), a)
  {
  }

  lemma GiveInside(f: seq<Span>, b: Span, a: Arena)
    requires AllInside(f, a) && Inside(b, a) && b.at % UNIT == 0 && b.len % UNIT == 0
    ensures AllInside(Give(f, b), a) && (|f| <= MAX_SPANS ==> |Give(f, b)| <= MAX_SPANS)
  {
    hide Insert, Merge, AllInside, Inside;
    if |f| < MAX_SPANS {
      var i := Place(f, b.at);
      var g := Insert(f, i, b);
      InsertInside(f, i, b, a);
      if i + 1 < |g| && g[i].End() == g[i + 1].at {
        MergeInside(g, i, a);
      }
      var h := MergeNext(g, i);
      if i > 0 && h[i - 1].End() == h[i].at {
        MergeInside(h, i - 1, a);
      }
    }
  }

  lemma GiveKeepsArena(a: Arena, b: Span)
    requires ValidArena(a) && !a.dedicated && Inside(b, a) && b.at % UNIT == 0 && b.len % UNIT == 0 && b.len > 0
    requires forall k :: 0 <= k < |a.spans| ==> !a.spans[k].Overlaps(b)
    ensures ValidArena(a.(spans := Give(a.spans, b)))
  {
    hide Spaced, Give;
    GiveKeepsSpaced(a.spans, b);
    assert AllInside(a.spans, a);
    GiveInside(a.spans, b, a);
  }

  lemma CoveredByOneLess(bs: set<Span>, b: Span, x: int)
    requires BlocksApart(bs) && b in bs
    ensures Covered(bs - {b}, x) <==> Covered(bs, x) && !b.Has(x)
  {
  }

  /** Giving a block back to arena i moves its bytes from the blocks' to the free ones. */
  lemma GiveMovesBytes(ars: seq<Arena>, ars': seq<Arena>, i: nat, bs: set<Span>, b: Span)
    requires SameButSpans(ars, ars', i) && ArenasApart(ars)
    requires forall j :: 0 <= j < |ars| ==> ValidArena(ars[j])
    requires Inside(b, ars[i]) && b in bs && BlocksApart(bs) && SpansApart(ars, bs) && NoByteLost(ars, bs)
    requires forall x :: InSome(ars'[i].spans, x) <==> InSome(ars[i].spans, x) || b.Has(x)
    ensures SpansApart(ars', bs - {b}) && NoByteLost(ars', bs - {b})
  {
    hide InSome, Covered, BlocksApart;
    forall j, x | 0 <= j < |ars'| && InSome(ars'[j].spans, x) ensures !Covered(bs - {b}, x) {
      CoveredByOneLess(bs, b, x);
    }
    forall j, x | 0 <= j < |ars'| && !ars'[j].dedicated && ars'[j].Contains(x)
      ensures InSome(ars'[j].spans, x) || Covered(bs - {b}, x)
    {
      CoveredByOneLess(bs, b, x);
      if j != i {
        OnlyOneArena(ars, j, i, x);
      }
    }
  }

  lemma BlockIsApartFromSpans(s: State, i: nat, b: Span)
    requires Valid(s) && i < |s.arenas| && b in s.live
    ensures forall k :: 0 <= k < |s.arenas[i].spans| ==> !s.arenas[i].spans[k].Overlaps(b)
  {
    hide ValidBlock, Conserved, ArenasApart, NoByteLost, BlocksApart;
    var f := s.arenas[i].spans;
    BlocksHaveLength(s);
    forall k | 0 <= k < |f| ensures !f[k].Overlaps(b) {
      ApartByBytes(f, k, s.live + s.leaked, b);
    }
  }

  /** The live block b goes back to arena i; when the table is full it leaks instead. */
  function Returned(s: State, i: nat, b: Span): State
    requires i < |s.arenas|
  {
    var a := s.arenas[i];
    s.(arenas := s.arenas[i := a.(spans := Give(a.spans, b))],
       live := s.live - {b},
       leaked := if |a.spans| >= MAX_SPANS then s.leaked + {b} else s.leaked)
  }

  lemma ReturnKeepsValid(s: State, i: nat, b: Span)
    requires Valid(s) && i < |s.arenas| && b in s.live && Inside(b, s.arenas[i]) && !s.arenas[i].dedicated
    ensures Valid(Returned(s, i, b))
  {
    if |s.arenas[i].spans| >= MAX_SPANS {
      LeakKeepsValid(s, i, b);
    } else {
      GiveKeepsValid(s, i, b);
    }
  }

  lemma LeakKeepsValid(s: State, i: nat, b: Span)
    requires Valid(s) && i < |s.arenas| && b in s.live && |s.arenas[i].spans| >= MAX_SPANS
    ensures Valid(Returned(s, i, b))
  {
    hide ValidBlock, SpansApart, NoByteLost, Conserved, ArenasApart, BlocksApart, ValidArena;
    var s' := Returned(s, i, b);
    assert s'.arenas == s.arenas;
    assert s'.live + s'.leaked == s.live + s.leaked;
  }

  lemma GiveKeepsValid(s: State, i: nat, b: Span)
    requires Valid(s) && i < |s.arenas| && b in s.live && Inside(b, s.arenas[i]) && !s.arenas[i].dedicated
    requires |s.arenas[i].spans| < MAX_SPANS
    ensures Valid(Returned(s, i, b))
  {
    hide ValidBlock, SpansApart, NoByteLost, Conserved, ArenasApart, BlocksApart, ValidArena, Give, InSome;
    var s' := Returned(s, i, b);
    var bs := s.live + s.leaked;
    var a := s.arenas[i];
    assert s'.live + s'.leaked == bs - {b};
    assert SameButSpans(s.arenas, s'.arenas, i);
    BlockIsUnits(s.arenas, b);
    BlockIsApartFromSpans(s, i, b);
    GiveKeepsArena(a, b);
    SameRanges(s.arenas, s'.arenas, i, s.kernel);
    forall x ensures InSome(Give(a.spans, b), x) <==> InSome(a.spans, x) || b.Has(x) {
      GiveAddsItsBytes(a.spans, b, x);
    }
    GiveMovesBytes(s.arenas, s'.arenas, i, bs, b);
    forall c | c in bs - {b} ensures ValidBlock(s'.arenas, c) {
      SameBlocks(s.arenas, s'.arenas, i, c);
    }
    FewerApart(bs, b);
  }

  lemma BlockIsUnits(ars: seq<Arena>, b: Span)
    requires ValidBlock(ars, b)
    ensures b.at % UNIT == 0 && b.len % UNIT == 0 && b.len >= 2 * UNIT
  {
  }

  lemma FewerApart(bs: set<Span>, b: Span)
    requires BlocksApart(bs)
    ensures BlocksApart(bs - {b})
  {
  }

  // ------------------------------------------------------------------------- an arena back to the kernel

  ghost predicate Removed(ars: seq<Arena>, ars': seq<Arena>, i: nat) {
    && i < |ars| && |ars'| == |ars| - 1
    && (forall k :: 0 <= k < i ==> ars'[k] == ars[k])
    && forall j, k :: i < j < |ars| && i <= k < |ars'| && j == k + 1 ==> ars'[k] == ars[j]
  }

  lemma RemoveConserves(ars: seq<Arena>, ars': seq<Arena>, i: nat, k: Kernel)
    requires Removed(ars, ars', i) && ArenasApart(ars) && Conserved(ars, k)
    requires forall j :: 0 <= j < |ars| ==> ars[j].size > 0
    ensures Conserved(ars', GiveBack(k, ars[i]))
  {
    hide ArenasApart, Removed;
    RemoveOwned(ars, ars', i);
    RemoveMapped(ars, ars', i);
  }

  lemma RemoveOwned(ars: seq<Arena>, ars': seq<Arena>, i: nat)
    requires Removed(ars, ars', i) && ArenasApart(ars)
    requires forall j :: 0 <= j < |ars| ==> ars[j].size > 0
    ensures (set j | 0 <= j < |ars'| :: ars'[j].Physical())
            == (set j | 0 <= j < |ars| :: ars[j].Physical()) - {ars[i].Physical()}
  {
    hide ArenasApart;
    forall j | 0 <= j < |ars| && j != i ensures ars[j] in ars' && ars[j].Physical() != ars[i].Physical() {
      assert ars'[if j < i then j else j - 1] == ars[j];
      DifferentPhysical(ars, i, j);
    }
    forall k | 0 <= k < |ars'| ensures ars'[k].Physical() != ars[i].Physical() && ars'[k] in ars {
      var j := if k < i then k else k + 1;
      assert ars'[k] == ars[j];
    }
  }

  lemma RemoveMapped(ars: seq<Arena>, ars': seq<Arena>, i: nat)
    requires Removed(ars, ars', i) && ArenasApart(ars)
    requires forall j :: 0 <= j < |ars| ==> ars[j].size > 0
    ensures (set j | 0 <= j < |ars'| :: ars'[j].Range())
            == (set j | 0 <= j < |ars| :: ars[j].Range()) - {ars[i].Range()}
  {
    hide ArenasApart;
    forall j | 0 <= j < |ars| && j != i ensures ars[j] in ars' && ars[j].Range() != ars[i].Range() {
      assert ars'[if j < i then j else j - 1] == ars[j];
      DifferentPhysical(ars, i, j);
    }
    forall k | 0 <= k < |ars'| ensures ars'[k].Range() != ars[i].Range() && ars'[k] in ars {
      var j := if k < i then k else k + 1;
      assert ars'[k] == ars[j];
    }
  }

  lemma DifferentPhysical(ars: seq<Arena>, i: nat, m: nat)
    requires ArenasApart(ars) && i < |ars| && m < |ars| && i != m && ars[i].size > 0
    ensures ars[i].Physical() != ars[m].Physical() && ars[i].Range() != ars[m].Range()
  {
  }

  lemma RemoveKeepsApart(ars: seq<Arena>, ars': seq<Arena>, i: nat)
    requires Removed(ars, ars', i) && ArenasApart(ars)
    ensures ArenasApart(ars')
  {
    forall j, k | 0 <= j < k < |ars'|
      ensures !ars'[j].Range().Overlaps(ars'[k].Range()) && !ars'[j].Physical().Overlaps(ars'[k].Physical())
    {
      var m, n := if j < i then j else j + 1, if k < i then k else k + 1;
      assert ars'[j] == ars[m] && ars'[k] == ars[n];
    }
  }

  /** A dedicated arena holds no blocks and no spans, so removing it disturbs none. */
  lemma RemoveKeepsBlocks(ars: seq<Arena>, ars': seq<Arena>, i: nat, bs: set<Span>)
    requires Removed(ars, ars', i) && ars[i].dedicated
    requires (forall b :: b in bs ==> ValidBlock(ars, b)) && SpansApart(ars, bs) && NoByteLost(ars, bs)
    ensures (forall b :: b in bs ==> ValidBlock(ars', b)) && SpansApart(ars', bs) && NoByteLost(ars', bs)
  {
    hide InSome, Covered;
    forall b | b in bs ensures ValidBlock(ars', b) {
      assert InArena(ars, b);
      var j :| 0 <= j < |ars| && !ars[j].dedicated && Inside(b, ars[j]);
      var m := if j < i then j else j - 1;
      assert ars'[m] == ars[j];
    }
    forall j, x | 0 <= j < |ars'| && InSome(ars'[j].spans, x) ensures !Covered(bs, x) {
      var m := if j < i then j else j + 1;
      assert ars'[j] == ars[m];
    }
    forall j, x | 0 <= j < |ars'| && !ars'[j].dedicated && ars'[j].Contains(x)
      ensures InSome(ars'[j].spans, x) || Covered(bs, x)
    {
      var m := if j < i then j else j + 1;
      assert ars'[j] == ars[m];
    }
  }

  lemma RemoveKeepsValid(s: State, i: nat)
    requires Valid(s) && i < |s.arenas| && s.arenas[i].dedicated
    ensures Valid(s.(arenas := s.arenas[..i] + s.arenas[i + 1..], kernel := GiveBack(s.kernel, s.arenas[i])))
  {
    hide ValidBlock, SpansApart, NoByteLost, Conserved, ArenasApart, BlocksApart, GiveBack;
    var ars' := s.arenas[..i] + s.arenas[i + 1..];
    assert Removed(s.arenas, ars', i);
    RemoveConserves(s.arenas, ars', i, s.kernel);
    RemoveKeepsApart(s.arenas, ars', i);
    RemoveKeepsBlocks(s.arenas, ars', i, s.live + s.leaked);
    forall k | 0 <= k < |ars'| ensures ValidArena(ars'[k]) {
      assert ars'[k] == s.arenas[if k < i then k else k + 1];
    }
  }

  // ------------------------------------------------------------------------- free, as callers see it

  /** A free of a live block's pointer ends exactly that block: into the free list, or, when its
      arena's table is full, as a leak. A free of anything else ends none. */
  ghost predicate FreeIsSound(s: State, addr: nat, s': State) {
    && (forall b :: b in s.live && addr == b.at + UNIT ==>
          s'.live == s.live - {b} && (s'.leaked == s.leaked || (s'.leaked == s.leaked + {b} && TableFull(s, b))))
    && ((forall b :: b in s.live ==> addr != b.at + UNIT) ==> s'.live == s.live && s'.leaked == s.leaked)
    && s'.words == s.words && s'.verdict == s.verdict
  }

  ghost predicate TableFull(s: State, b: Span) {
    exists i :: 0 <= i < |s.arenas| && Inside(b, s.arenas[i]) && |s.arenas[i].spans| >= MAX_SPANS
  }

  lemma ArenaOfFinds(s: State, i: nat, addr: nat)
    requires Valid(s) && i < |s.arenas| && s.arenas[i].Contains(addr)
    ensures ArenaOf(s.arenas, addr, 0) == i
  {
  }

  lemma LiveBlockPlace(s: State, b: Span) returns (i: nat)
    requires Valid(s) && b in s.live
    ensures i < |s.arenas| && !s.arenas[i].dedicated && Inside(b, s.arenas[i])
    ensures b.len >= 2 * UNIT && b.len % UNIT == 0 && s.words(b.at) == b.len && b.at > 0
  {
    hide SpansApart, NoByteLost, Conserved, ArenasApart, BlocksApart;
    assert b in s.live + s.leaked;
    assert ValidBlock(s.arenas, b);
    i :| 0 <= i < |s.arenas| && !s.arenas[i].dedicated && Inside(b, s.arenas[i]);
    assert ValidArena(s.arenas[i]);
  }

  lemma FreeOfLiveBlock(s: State, b: Span)
    requires Valid(s) && b in s.live
    ensures var s' := Free(s, b.at + UNIT);
            exists i: nat :: i < |s.arenas| && !s.arenas[i].dedicated && Inside(b, s.arenas[i])
                             && s' == Returned(s, i, b)
  {
    var i := LiveBlockPlace(s, b);
    ArenaOfFinds(s, i, b.at + UNIT);
    assert Free(s, b.at + UNIT) == Returned(s, i, b);
  }

  /** A block goes back into the spans of the arena it came from; all else of every arena stays. */
  lemma FreeTouchesOneArena(s: State, b: Span)
    requires Valid(s) && b in s.live
    ensures var s' := Free(s, b.at + UNIT);
            && s'.kernel == s.kernel && |s'.arenas| == |s.arenas|
            && forall j :: 0 <= j < |s.arenas| ==>
                 && s'.arenas[j] == s.arenas[j].(spans := s'.arenas[j].spans)
                 && (!Inside(b, s.arenas[j]) ==> s'.arenas[j] == s.arenas[j])
  {
    hide Valid, Free, Inside, Give;
    FreeOfLiveBlock(s, b);
  }

  lemma SameStartSameBlock(s: State, b: Span, c: Span)
    requires Valid(s) && b in s.live && c in s.live && b.at == c.at
    ensures b == c
  {
  }

  lemma FreeBlockIsSound(s: State, b: Span)
    requires Valid(s) && b in s.live
    ensures Valid(Free(s, b.at + UNIT)) && FreeIsSound(s, b.at + UNIT, Free(s, b.at + UNIT))
  {
    hide Valid, Free, Inside, Returned, FreeIsSound;
    FreeOfLiveBlock(s, b);
    var i: nat :| i < |s.arenas| && !s.arenas[i].dedicated && Inside(b, s.arenas[i])
                  && Free(s, b.at + UNIT) == Returned(s, i, b);
    ReturnKeepsValid(s, i, b);
    ReturnIsSound(s, i, b);
  }

  lemma ReturnIsSound(s: State, i: nat, b: Span)
    requires Valid(s) && b in s.live && i < |s.arenas| && Inside(b, s.arenas[i])
    ensures FreeIsSound(s, b.at + UNIT, Returned(s, i, b))
  {
    hide Valid, Give, Inside;
    forall c | c in s.live && b.at + UNIT == c.at + UNIT ensures c == b {
      SameStartSameBlock(s, b, c);
    }
  }

  /** Freeing the base of a dedicated arena gives back its mapping and its physical pages, and nothing
      else; freeing a pointer into it that is not its base does nothing. */
  lemma FreeOfDedicated(s: State, i: nat, addr: nat)
    requires Valid(s) && i < |s.arenas| && s.arenas[i].dedicated && s.arenas[i].Contains(addr) && addr != 0
    ensures Valid(Free(s, addr))
    ensures addr == s.arenas[i].base ==>
              && Free(s, addr).kernel
                 == Kernel(s.kernel.owned - {s.arenas[i].Physical()}, s.kernel.mapped - {s.arenas[i].Range()})
              && s.arenas[i].Physical() in s.kernel.owned && s.arenas[i].Range() in s.kernel.mapped
    ensures addr == s.arenas[i].base ==> Free(s, addr).arenas == s.arenas[..i] + s.arenas[i + 1..]
    ensures addr != s.arenas[i].base ==> Free(s, addr) == s
    ensures FreeIsSound(s, addr, Free(s, addr))
  {
    hide ValidBlock, SpansApart, NoByteLost, ArenasApart, BlocksApart, ValidArena;
    ArenaOfFinds(s, i, addr);
    RemoveKeepsValid(s, i);
    forall b | b in s.live ensures addr != b.at + UNIT {
      NotInDedicated(s, i, b, addr);
    }
  }

  lemma NotInDedicated(s: State, i: nat, b: Span, addr: nat)
    requires Valid(s) && i < |s.arenas| && s.arenas[i].dedicated && s.arenas[i].Contains(addr) && b in s.live
    ensures addr != b.at + UNIT
  {
  }

  /** Freeing NULL, or what lies in no arena, changes nothing. */
  lemma FreeOfNothing(s: State, addr: nat)
    requires addr == 0 || forall a :: a in s.arenas ==> !a.Contains(addr)
    ensures Free(s, addr) == s
  {
  }

  /** A free by a well-behaved caller keeps the invariant and does what it should. */
  lemma FreeKeepsValid(s: State, addr: nat)
    requires Valid(s) && Freeable(s, addr)
    ensures Valid(Free(s, addr)) && FreeIsSound(s, addr, Free(s, addr))
  {
    hide Valid, Free;
    if exists b :: b in s.live && addr == b.at + UNIT {
      var b :| b in s.live && addr == b.at + UNIT;
      FreeBlockIsSound(s, b);
    } else if addr != 0 && exists a :: a in s.arenas && a.dedicated && a.Contains(addr) {
      var a :| a in s.arenas && a.dedicated && a.Contains(addr);
      var i :| 0 <= i < |s.arenas| && s.arenas[i] == a;
      FreeOfDedicated(s, i, addr);
    } else {
      FreeOfStranger(s, addr);
    }
  }

  lemma FreeOfStranger(s: State, addr: nat)
    requires addr == 0 || forall a :: a in s.arenas ==> !a.Contains(addr)
    ensures Free(s, addr) == s
  {
  }

  // ------------------------------------------------------------------------- releasing everything

  lemma {:induction false} AllGivenBack(k: Kernel, ars: seq<Arena>)
    ensures var k' := GiveAllBack(k, ars);
            && k'.owned == k.owned - (set i | 0 <= i < |ars| :: ars[i].Physical())
            && k'.mapped == k.mapped - (set i | 0 <= i < |ars| :: ars[i].Range())
  {
    if ars != [] {
      var n := |ars| - 1;
      AllGivenBack(k, ars[..n]);
      assert (set i | 0 <= i < n + 1 :: ars[i].Physical())
          == (set i | 0 <= i < n :: ars[..n][i].Physical()) + {ars[n].Physical()};
      assert (set i | 0 <= i < n + 1 :: ars[i].Range())
          == (set i | 0 <= i < n :: ars[..n][i].Range()) + {ars[n].Range()};
    }
  }

  /** Releasing everything leaves the kernel holding nothing for this file. */
  lemma ReleaseAllIsComplete(s: State)
    requires Valid(s)
    ensures Valid(ReleaseAll(s)) && ReleaseAll(s).kernel == Kernel({}, {})
    ensures ReleaseAll(s).arenas == [] && ReleaseAll(s).live == ReleaseAll(s).leaked == {}
  {
    hide ValidBlock, SpansApart, NoByteLost, ArenasApart, BlocksApart, ValidArena, GiveAllBack;
    AllGivenBack(s.kernel, s.arenas);
    NothingIsValid(s);
  }

  lemma NothingIsValid(s: State)
    ensures Valid(s.(arenas := [], kernel := Kernel({}, {}), live := {}, leaked := {}))
  {
  }

  // ------------------------------------------------------------------------- coming back to one span

  /** Once no block of a shared arena is live or leaked, its free list is one span, the arena. */
  lemma EmptyArenaIsOneSpan(s: State, i: nat)
    requires Valid(s) && i < |s.arenas| && !s.arenas[i].dedicated
    requires forall b :: b in s.live + s.leaked ==> !Inside(b, s.arenas[i])
    ensures s.arenas[i].spans == [Span(s.arenas[i].base, s.arenas[i].size)]
  {
    hide InSome, Covered, SpansApart, Conserved, BlocksApart;
    var a := s.arenas[i];
    var bs := s.live + s.leaked;
    forall x ensures InSome(a.spans, x) <==> a.base <= x < a.base + a.size {
      if InSome(a.spans, x) {
        InSpanInArena(a, x);
      }
      if a.Contains(x) {
        NoBlockHas(s.arenas, bs, i, x);
      }
    }
    FullListIsOneSpan(a.spans, a.base, a.size);
  }

  lemma NoBlockHas(ars: seq<Arena>, bs: set<Span>, i: nat, x: int)
    requires ArenasApart(ars) && i < |ars| && ars[i].Contains(x)
    requires forall b :: b in bs ==> ValidBlock(ars, b) && !Inside(b, ars[i])
    ensures !Covered(bs, x)
  {
  }
}
