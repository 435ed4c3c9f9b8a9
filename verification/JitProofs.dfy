/**
 What every call into the JIT allocator of src/orbis_jit.c keeps: free spans, live blocks and leaked
 ones partition each arena, headers tell true lengths, and the kernel holds what the table says.
 */
module JitProofs {
  import opened Wrappers
  import opened JitSpans
  import opened JitPlacement
  import opened JitSpec

  // ------------------------------------------------------------------------- taking an arena

  /** A run of unmapped granules overlaps nothing this file has mapped. */
  lemma FreeRunIsApart(q: Query, k: Kernel, m: Span, at: nat, len: nat)
    requires SeesOurs(q, k) && m in k.mapped && m.at % GRANULE == 0 && m.len > 0 && at % GRANULE == 0
    requires len > 0 && FreeRun(q, at, at + len)
    ensures !m.Overlaps(Span(at, len))
  {
    var g := if m.at > at then m.at else at;
    assert m.at <= g < m.at + m.len ==> Mapped(q, g);
  }

  ghost predicate GranuleAligned(k: Kernel) {
    forall m :: m in k.mapped ==> m.at % GRANULE == 0 && m.len > 0
  }

  /** Everything a map attempt may rely on: an honest kernel, and, when an address is insisted on, a
      search that found it free. */
  ghost predicate MayMap(q: Query, k: Kernel, at: Option<nat>, len: nat, ans: Answers) {
    && Honest(k, len, ans) && PicksFree(k, at, len, ans)
    && len > 0 && len % GRANULE == 0
    && (at.Some? ==> SeesOurs(q, k) && at.value % GRANULE == 0 && FreeRun(q, at.value, at.value + len))
  }

  lemma LandsApart(q: Query, k: Kernel, at: Option<nat>, len: nat, ans: Answers)
    requires MayMap(q, k, at, len, ans) && GranuleAligned(k) && ans.landed.Some?
    ensures var m := Span(ans.landed.value, len);
            m !in k.mapped && forall o :: o in k.mapped ==> !o.Overlaps(m)
  {
    var m := Span(ans.landed.value, len);
    if at == ans.landed {
      forall o | o in k.mapped ensures !o.Overlaps(m) {
        FreeRunIsApart(q, k, o, m.at, len);
      }
      assert m in k.mapped ==> m.Overlaps(m);
    }
  }

  /** A map attempt that fails at any step leaves the kernel as it was; one that succeeds adds one
      physical range and one mapping, apart from all others and where it was insisted on. */
  lemma MapArenaConserves(q: Query, k: Kernel, verdict: int, at: Option<nat>, len: nat, ans: Answers)
    requires MayMap(q, k, at, len, ans) && GranuleAligned(k)
    ensures var o := MapArena(k, verdict, at, len, ans);
            match o.got
            case None => o.kernel == k
            case Some((base, phys)) =>
              && ans.phys == Some(phys) && ans.landed == Some(base) && (at.Some? ==> at.value == base)
              && o.kernel == Kernel(k.owned + {Span(phys, len)}, k.mapped + {Span(base, len)})
  {
    hide MayMap, GranuleAligned;
    if ans.phys.Some? {
      HonestPhys(q, k, at, len, ans);
      var e := Span(ans.phys.value, len);
      assert k.owned + {e} - {e} == k.owned;
      if ans.landed.Some? {
        LandsApart(q, k, at, len, ans);
        var m := Span(ans.landed.value, len);
        assert k.mapped + {m} - {m} == k.mapped;
      }
    }
  }

  lemma HonestPhys(q: Query, k: Kernel, at: Option<nat>, len: nat, ans: Answers)
    requires MayMap(q, k, at, len, ans) && ans.phys.Some?
    ensures Span(ans.phys.value, len) !in k.owned
  {
  }

  lemma ValidIsAligned(s: State)
    requires Valid(s)
    ensures GranuleAligned(s.kernel)
  {
  }

  /** The new entry of a successful map. */
  ghost predicate NewArena(s: State, a: Arena, len: nat) {
    && ValidArena(a) && a.size == len && len >= 8
    && (a.dedicated || a.spans == [Span(a.base, a.size)])
    && (forall o :: o in s.kernel.owned ==> !o.Overlaps(a.Physical()))
    && (forall o :: o in s.kernel.mapped ==> !o.Overlaps(a.Range()))
  }

  function WithArena(s: State, a: Arena, verdict: int): State {
    State(s.arenas + [a], Kernel(s.kernel.owned + {a.Physical()}, s.kernel.mapped + {a.Range()}), verdict,
          Stubbed(s.words, a.base), s.live, s.leaked)
  }

  lemma NewArenaIsApart(s: State, a: Arena, len: nat)
    requires ArenasApart(s.arenas) && Conserved(s.arenas, s.kernel) && NewArena(s, a, len)
    ensures ArenasApart(s.arenas + [a])
    ensures forall i :: 0 <= i < |s.arenas| ==> !s.arenas[i].Range().Overlaps(a.Range())
  {
  }

  lemma AppendConserves(ars: seq<Arena>, k: Kernel, a: Arena)
    requires Conserved(ars, k)
    ensures Conserved(ars + [a], Kernel(k.owned + {a.Physical()}, k.mapped + {a.Range()}))
  {
    var all := ars + [a];
    var n := |ars|;
    assert all[n] == a && forall i :: 0 <= i < n ==> all[i] == ars[i];
  }

  /** Blocks of the old arenas have nothing to do with a new one. */
  lemma OldBlocksOutside(ars: seq<Arena>, bs: set<Span>, a: Arena, x: int)
    requires (forall b :: b in bs ==> ValidBlock(ars, b)) && a.Contains(x)
    requires forall i :: 0 <= i < |ars| ==> !ars[i].Range().Overlaps(a.Range())
    ensures !Covered(bs, x)
  {
  }

  lemma AppendKeepsBlocks(ars: seq<Arena>, bs: set<Span>, a: Arena)
    requires forall b :: b in bs ==> ValidBlock(ars, b)
    ensures forall b :: b in bs ==> ValidBlock(ars + [a], b)
  {
    var all := ars + [a];
    forall b | b in bs ensures ValidBlock(all, b) {
      assert InArena(ars, b);
      var i :| 0 <= i < |ars| && !ars[i].dedicated && Inside(b, ars[i]);
      assert all[i] == ars[i];
    }
  }

  lemma AppendKeepsPartition(ars: seq<Arena>, bs: set<Span>, a: Arena)
    requires ValidArena(a) && (a.dedicated || a.spans == [Span(a.base, a.size)])
    requires forall b :: b in bs ==> ValidBlock(ars, b)
    requires forall i :: 0 <= i < |ars| ==> !ars[i].Range().Overlaps(a.Range())
    requires SpansApart(ars, bs) && NoByteLost(ars, bs)
    ensures SpansApart(ars + [a], bs) && NoByteLost(ars + [a], bs)
  {
    var all := ars + [a];
    assert forall i :: 0 <= i < |ars| ==> all[i] == ars[i];
    forall i, x | 0 <= i < |all| && InSome(all[i].spans, x) ensures !Covered(bs, x) {
      if i == |ars| {
        OldBlocksOutside(ars, bs, a, x);
      }
    }
    forall i, x | 0 <= i < |all| && !all[i].dedicated && all[i].Contains(x)
      ensures InSome(all[i].spans, x) || Covered(bs, x)
    {
      if i == |ars| {
        assert a.spans[0].Has(x);
      }
    }
  }

  lemma StubMissesHeaders(s: State, a: Arena)
    requires HeadersTrue(s.live, s.words) && a.size >= 8
    requires forall x :: a.Contains(x) ==> !Covered(s.live + s.leaked, x)
    requires forall b :: b in s.live ==> b.len > 0
    ensures HeadersTrue(s.live, Stubbed(s.words, a.base))
  {
    forall b | b in s.live ensures Stubbed(s.words, a.base)(b.at) == b.len {
      assert b in s.live + s.leaked && b.Has(b.at);
      assert Covered(s.live + s.leaked, b.at);
    }
  }

  lemma AddArenaKeepsValid(s: State, a: Arena, len: nat, verdict: int)
    requires Valid(s) && NewArena(s, a, len) && |s.arenas| < MAX_ARENAS
    ensures Valid(WithArena(s, a, verdict))
  {
    hide ValidBlock, BlocksApart, SpansApart, NoByteLost, HeadersTrue, Conserved, ArenasApart, Covered;
    var bs := s.live + s.leaked;
    NewArenaIsApart(s, a, len);
    AppendConserves(s.arenas, s.kernel, a);
    AppendKeepsBlocks(s.arenas, bs, a);
    AppendKeepsPartition(s.arenas, bs, a);
    forall x | a.Contains(x) ensures !Covered(bs, x) {
      OldBlocksOutside(s.arenas, bs, a, x);
    }
    BlocksHaveLength(s);
    StubMissesHeaders(s, a);
  }

  lemma BlocksHaveLength(s: State)
    requires Valid(s)
    ensures forall b :: b in s.live + s.leaked ==> b.len > 0
  {
  }

  // ------------------------------------------------------------------------- serving a block

  lemma TakeKeepsArena(a: Arena, k: nat, len: nat)
    requires ValidArena(a) && k < |a.spans| && 0 < len <= a.spans[k].len && len % UNIT == 0
    ensures ValidArena(a.(spans := TakeAt(a.spans, k, len)))
  {
    hide Spaced, Remove, TakeAt;
    TakeAtKeepsSpaced(a.spans, k, len);
    TakeAtFromSpan(a.spans, k, len);
  }

  /** Every span that is left is an old one, or the end of the one taken from. */
  lemma TakeAtFromSpan(f: seq<Span>, k: nat, len: nat)
    requires k < |f| && 0 < len <= f[k].len
    ensures |TakeAt(f, k, len)| <= |f|
    ensures forall m :: 0 <= m < |TakeAt(f, k, len)| ==>
              var s := TakeAt(f, k, len)[m]; s in f || (len < f[k].len && s == Span(f[k].at + len, f[k].len - len))
  {
    hide Remove;
    if f[k].len == len {
      forall m | 0 <= m < |f| - 1 ensures Remove(f, k)[m] in f {
        assert Remove(f, k)[m] == f[if m < k then m else m + 1];
      }
    }
  }

  /** Replacing one arena's spans moves no range. */
  ghost predicate SameButSpans(ars: seq<Arena>, ars': seq<Arena>, i: nat) {
    && i < |ars| == |ars'|
    && ars'[i] == ars[i].(spans := ars'[i].spans)
    && forall j :: 0 <= j < |ars| && j != i ==> ars'[j] == ars[j]
  }

  lemma SameRanges(ars: seq<Arena>, ars': seq<Arena>, i: nat, k: Kernel)
    requires SameButSpans(ars, ars', i)
    ensures ArenasApart(ars) ==> ArenasApart(ars')
    ensures Conserved(ars, k) ==> Conserved(ars', k)
  {
  }

  lemma SameBlocks(ars: seq<Arena>, ars': seq<Arena>, i: nat, b: Span)
    requires SameButSpans(ars, ars', i) && ValidBlock(ars, b)
    ensures ValidBlock(ars', b)
  {
  }

  /** A span and a block that share no byte do not overlap. */
  lemma ApartByBytes(f: seq<Span>, k: nat, bs: set<Span>, b: Span)
    requires k < |f| && f[k].len > 0 && b in bs && b.len > 0
    requires forall x :: InSome(f, x) ==> !Covered(bs, x)
    ensures !f[k].Overlaps(b)
  {
    var x := if f[k].at > b.at then f[k].at else b.at;
    assert f[k].Has(x) ==> InSome(f, x);
    assert b.Has(x) ==> Covered(bs, x);
  }

  lemma InSpanInArena(a: Arena, x: int)
    requires ValidArena(a) && InSome(a.spans, x)
    ensures a.Contains(x) && !a.dedicated
  {
  }

  lemma CoveredByOneMore(bs: set<Span>, b: Span, x: int)
    ensures Covered(bs + {b}, x) <==> Covered(bs, x) || b.Has(x)
  {
  }

  /** Taking a block out of arena i moves its bytes from the free ones to the blocks'. */
  lemma TakeMovesBytes(ars: seq<Arena>, ars': seq<Arena>, i: nat, bs: set<Span>, b: Span)
    requires SameButSpans(ars, ars', i) && ArenasApart(ars)
    requires forall j :: 0 <= j < |ars| ==> ValidArena(ars[j])
    requires Inside(b, ars[i]) && SpansApart(ars, bs) && NoByteLost(ars, bs)
    requires forall x :: InSome(ars'[i].spans, x) <==> InSome(ars[i].spans, x) && !b.Has(x)
    ensures SpansApart(ars', bs + {b}) && NoByteLost(ars', bs + {b})
  {
    hide InSome, Covered;
    forall j, x | 0 <= j < |ars'| && InSome(ars'[j].spans, x) ensures !Covered(bs + {b}, x) {
      CoveredByOneMore(bs, b, x);
      if j != i {
        InSpanInArena(ars[j], x);
        OnlyOneArena(ars, j, i, x);
      }
    }
    forall j, x | 0 <= j < |ars'| && !ars'[j].dedicated && ars'[j].Contains(x)
      ensures InSome(ars'[j].spans, x) || Covered(bs + {b}, x)
    {
      CoveredByOneMore(bs, b, x);
    }
  }

  lemma OnlyOneArena(ars: seq<Arena>, i: nat, j: nat, x: int)
    requires ArenasApart(ars) && i < |ars| && j < |ars| && i != j && ars[i].Contains(x)
    ensures !ars[j].Contains(x)
  {
  }

  lemma FreshIsApart(f: seq<Span>, k: nat, len: nat, bs: set<Span>)
    requires k < |f| && 0 < len <= f[k].len && (forall c :: c in bs ==> c.len > 0)
    requires forall x :: InSome(f, x) ==> !Covered(bs, x)
    ensures var b := Span(f[k].at, len);
            b !in bs && forall c :: c in bs ==> !c.Overlaps(b) && !b.Overlaps(c) && c.at != b.at
  {
    var b := Span(f[k].at, len);
    forall c | c in bs ensures !c.Overlaps(b) && !b.Overlaps(c) && c.at != b.at {
      ApartByBytes(f, k, bs, c);
    }
    assert b in bs ==> !b.Overlaps(b);
  }

  /** What taking a block gives: a block nobody had, in an arena that serves. */
  lemma ServeIsSound(s: State, i: nat, len: nat)
    requires Valid(s) && i < |s.arenas| && len >= 2 * UNIT && len % UNIT == 0
    requires !s.arenas[i].dedicated && Take(s.arenas[i].spans, len).Some?
    ensures var (p, s') := Serve(s, i, len);
            var b := Span(p - UNIT, len);
            && Valid(s') && b !in s.live + s.leaked && s'.live == s.live + {b}
            && Inside(b, s.arenas[i])
            && (forall c :: c in s.live + s.leaked ==> !c.Overlaps(b))
  {
    hide Spaced, ValidBlock, SpansApart, NoByteLost, Conserved, ArenasApart, TakeAt, BlocksApart;
    var f := s.arenas[i].spans;
    var k := FirstFit(f, len);
    var b := Span(f[k].at, len);
    var bs := s.live + s.leaked;
    var (p, s') := Serve(s, i, len);
    ServeFacts(s, i, k, len);
    assert SameButSpans(s.arenas, s'.arenas, i);
    TakeKeepsArena(s.arenas[i], k, len);
    SameRanges(s.arenas, s'.arenas, i, s.kernel);
    TakeMovesBytes(s.arenas, s'.arenas, i, bs, b);
    assert s'.live + s'.leaked == bs + {b};
    forall c | c in bs + {b} ensures ValidBlock(s'.arenas, c) {
      SameBlocks(s.arenas, s'.arenas, i, c);
    }
    OneMoreApart(bs, b);
  }

  lemma OneMoreApart(bs: set<Span>, b: Span)
    requires BlocksApart(bs) && forall c :: c in bs ==> !c.Overlaps(b) && !b.Overlaps(c)
    ensures BlocksApart(bs + {b})
  {
  }

  lemma ServeFacts(s: State, i: nat, k: nat, len: nat)
    requires Valid(s) && i < |s.arenas| && k < |s.arenas[i].spans| && !s.arenas[i].dedicated
    requires 2 * UNIT <= len <= s.arenas[i].spans[k].len && len % UNIT == 0
    ensures var f := s.arenas[i].spans;
            var b := Span(f[k].at, len);
            && ValidBlock(s.arenas, b) && Inside(b, s.arenas[i])
            && b !in s.live + s.leaked
            && (forall c :: c in s.live + s.leaked ==> !c.Overlaps(b) && !b.Overlaps(c) && c.at != b.at)
            && (forall x :: InSome(TakeAt(f, k, len), x) <==> InSome(f, x) && !b.Has(x))
  {
    hide ValidBlock, Conserved, ArenasApart, NoByteLost, TakeAt, BlocksApart;
    var f := s.arenas[i].spans;
    var bs := s.live + s.leaked;
    BlocksHaveLength(s);
    FreshIsApart(f, k, len, bs);
    SpanMakesBlock(s.arenas, i, k, len);
    forall x ensures InSome(TakeAt(f, k, len), x) <==> InSome(f, x) && !Span(f[k].at, len).Has(x) {
      TakeAtTakesItsBytes(f, k, len, x);
    }
  }

  lemma SpanMakesBlock(ars: seq<Arena>, i: nat, k: nat, len: nat)
    requires i < |ars| && ValidArena(ars[i]) && !ars[i].dedicated && k < |ars[i].spans|
    requires 2 * UNIT <= len <= ars[i].spans[k].len && len % UNIT == 0
    ensures ValidBlock(ars, Span(ars[i].spans[k].at, len)) && Inside(Span(ars[i].spans[k].at, len), ars[i])
  {
  }
}
