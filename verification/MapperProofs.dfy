/**
 What the mapper of src/orbis_mmap.cpp keeps over any run of maps, unmaps and writes, and what its
 callers get.
 */
module MapperProofs {
  import opened Wrappers
  import opened Blocks
  import opened BlockCounts
  import opened MapperSpec

  // ------------------------------------------------------------------------- arithmetic

  lemma PageUpRounds(len: nat)
    requires 0 < len <= WORD - PAGE
    ensures PageUp(len) % 0x4000 == 0 && len <= PageUp(len) < len + 0x4000
  {
  }

  /** Whatever is asked for, a carve-out that the kernel can grant is as long as the request. */
  lemma CarveLengthFits(need: nat)
    requires 0 < need < WORD && CarveLength(need) > 0
    ensures CarveLength(need) % DIRECT_ALIGN == 0 && CarveLength(need) % PAGE == 0
    ensures CarveLength(need) >= need && CarveLength(need) >= CARVE_BYTES
  {
  }

  // ------------------------------------------------------------------------- sums

  lemma {:induction false} SumsOfUpdate(cs: seq<CarveV>, i: nat, c: CarveV)
    requires i < |cs| && c.size == cs[i].size
    ensures SizeSum(cs[i := c]) == SizeSum(cs)
    ensures UsedSum(cs[i := c]) == UsedSum(cs) - UsedBytes(cs[i].blocks) + UsedBytes(c.blocks)
  {
    var n := |cs| - 1;
    if i == n {
      assert cs[i := c][..n] == cs[..n];
    } else {
      SumsOfUpdate(cs[..n], i, c);
      assert cs[i := c][..n] == cs[..n][i := c];
    }
  }

  // ------------------------------------------------------------------------- replacing a block list

  /** Changing only one carve-out's block list, to a valid one, keeps the invariant. */
  lemma ReblockKeepsValid(s: State, i: nat, list: seq<Block>, s': State)
    requires Valid(s) && i < |s.carves| && ValidList(list, s.carves[i].size)
    requires s'.carves == s.carves[i := s.carves[i].(blocks := list)]
    requires s'.held == s.held && s'.kernel == s.kernel
    requires s'.live == s.live - UsedBytes(s.carves[i].blocks) + UsedBytes(list)
    ensures Valid(s')
  {
    hide ValidList, UsedBytes, Apart, Conserved;
    SumsOfUpdate(s.carves, i, s'.carves[i]);
    SameRangesApart(s, s');
  }

  lemma SameRangesApart(s: State, s': State)
    requires Apart(s.carves) && Conserved(s) && s'.kernel == s.kernel && |s'.carves| == |s.carves|
    requires forall k :: 0 <= k < |s.carves| ==>
      s'.carves[k].Range() == s.carves[k].Range() && s'.carves[k].Physical() == s.carves[k].Physical()
    ensures Apart(s'.carves) && Conserved(s')
  {
  }

  lemma ValidAt(s: State, i: nat)
    requires Valid(s) && i < |s.carves|
    ensures ValidCarve(s.carves[i])
  {
  }

  lemma CarvesApart(s: State, i: nat, j: nat)
    requires Valid(s) && i < |s.carves| && j < |s.carves| && i != j
    ensures var c, d := s.carves[i], s.carves[j];
            c.va + c.size <= d.va || d.va + d.size <= c.va
  {
  }

  /** A mapping lies inside the range of its carve-out, and so in no other. */
  lemma LiveInRange(c: CarveV, m: Extent)
    requires ValidCarve(c) && LiveIn(c, m)
    ensures c.va <= m.off && m.off + m.size <= c.va + c.size && m.size > 0
  {
    LiveIsInside(c.blocks, c.size, Extent(m.off - c.va, m.size));
  }

  lemma LiveInOneCarve(s: State, i: nat, j: nat, m: Extent)
    requires Valid(s) && i < |s.carves| && j < |s.carves| && LiveIn(s.carves[i], m) && LiveIn(s.carves[j], m)
    ensures i == j
  {
    hide Valid, LiveIn;
    LiveInValid(s, i, m);
    LiveInValid(s, j, m);
    if i != j {
      CarvesApart(s, i, j);
    }
  }

  lemma LiveInValid(s: State, i: nat, m: Extent)
    requires Valid(s) && i < |s.carves| && LiveIn(s.carves[i], m)
    ensures var c := s.carves[i];
            c.va <= m.off && m.off + m.size <= c.va + c.size && m.size > 0
  {
    LiveInRange(s.carves[i], m);
  }

  /** Live mappings never overlap, within a carve-out or across. */
  lemma LiveMappingsDisjoint(s: State, a: Extent, b: Extent)
    requires Valid(s) && IsLive(s, a) && IsLive(s, b) && a != b
    ensures !a.Overlaps(b)
  {
    hide Valid, LiveIn;
    var i :| 0 <= i < |s.carves| && LiveIn(s.carves[i], a);
    var j :| 0 <= j < |s.carves| && LiveIn(s.carves[j], b);
    LiveInValid(s, i, a);
    LiveInValid(s, j, b);
    if i == j {
      ValidAt(s, i);
      LiveInDisjoint(s.carves[i], a, b);
    } else {
      CarvesApart(s, i, j);
    }
  }

  lemma LiveInDisjoint(c: CarveV, a: Extent, b: Extent)
    requires ValidCarve(c) && LiveIn(c, a) && LiveIn(c, b) && a != b
    ensures !a.Overlaps(b)
  {
    LiveNeverOverlap(c.blocks, c.size, Extent(a.off - c.va, a.size), Extent(b.off - c.va, b.size));
  }

  // ------------------------------------------------------------------------- a carve-out more

  lemma TakeConserves(k: Kernel, len: nat, ans: Answer)
    requires Honest(k, len, ans)
    ensures var (got, k') := TakeFromKernel(k, len, ans);
            match got
            case None => k' == k
            case Some((phys, va)) =>
              && ans == Answer(Some(phys), Some(va)) && va % PAGE == 0
              && k' == Kernel(k.owned + {Extent(phys, len)}, k.mapped + {Extent(va, len)})
  {
  }

  lemma AddCarveKeepsValid(s: State, need: nat, ans: Answer)
    requires Valid(s) && 0 < need < WORD && need % PAGE == 0 && Honest(s.kernel, CarveLength(need), ans)
    ensures var (ok, s') := AddCarve(s, need, ans);
            && Valid(s') && s'.bytes == s.bytes
            && (!ok ==> s' == s)
            && (ok ==> |s'.carves| == |s.carves| + 1 && s'.carves[..|s.carves|] == s.carves
                       && s'.carves[|s.carves|].blocks == [Block(0, CarveLength(need), false)]
                       && need <= CarveLength(need))
  {
    hide Valid, Honest, CarveLength, TakeFromKernel;
    TakeConserves(s.kernel, CarveLength(need), ans);
    if AddCarve(s, need, ans).0 {
      HonestLength(s.kernel, CarveLength(need), ans);
      CarveLengthFits(need);
      NewCarveIsValid(s, CarveLength(need), ans);
      assert AddCarve(s, need, ans).1.carves[..|s.carves|] == s.carves;
    }
  }

  lemma HonestLength(k: Kernel, len: nat, ans: Answer)
    requires Honest(k, len, ans) && ans.granted.Some?
    ensures 0 < len <= PHYSICAL_END
  {
  }

  /** Appending what the kernel granted, within the cap, keeps the invariant. */
  lemma NewCarveIsValid(s: State, len: nat, ans: Answer)
    requires Valid(s) && Honest(s.kernel, len, ans) && ans.granted.Some? && ans.placed.Some?
    requires |s.carves| < MAX_CARVES && (s.held + len) % WORD <= DIRECT_CAP
    requires len % PAGE == 0 && ans.placed.value % PAGE == 0
    ensures var c := CarveV(ans.placed.value, ans.granted.value, len, [Block(0, len, false)]);
            Valid(s.(carves := s.carves + [c], held := s.held + len,
                     kernel := Kernel(s.kernel.owned + {c.Physical()}, s.kernel.mapped + {c.Range()})))
  {
    hide Apart, Conserved, ValidCarve, UsedBytes;
    var c := CarveV(ans.placed.value, ans.granted.value, len, [Block(0, len, false)]);
    var s' := s.(carves := s.carves + [c], held := s.held + len,
                 kernel := Kernel(s.kernel.owned + {c.Physical()}, s.kernel.mapped + {c.Range()}));
    assert s'.carves[..|s.carves|] == s.carves;
    NewCarveIsWellFormed(c, len);
    NewCarveIsApart(s, c);
    AppendConserves(s, s');
  }

  lemma NewCarveIsWellFormed(c: CarveV, len: nat)
    requires c.size == len && c.blocks == [Block(0, len, false)]
    requires len > 0 && len % PAGE == 0 && c.va > 0 && c.va % PAGE == 0 && c.va + len <= ADDRESS_END
    ensures ValidCarve(c) && UsedBytes(c.blocks) == 0
  {
  }

  /** What nobody holds overlaps nothing in the table. */
  lemma NewCarveIsApart(s: State, c: CarveV)
    requires Apart(s.carves) && Conserved(s)
    requires forall o :: o in s.kernel.owned ==> !o.Overlaps(c.Physical())
    requires forall o :: o in s.kernel.mapped ==> !o.Overlaps(c.Range())
    ensures Apart(s.carves + [c])
  {
  }

  lemma AppendConserves(s: State, s': State)
    requires Conserved(s) && |s'.carves| == |s.carves| + 1 && s'.carves[..|s.carves|] == s.carves
    requires var c := s'.carves[|s.carves|];
             s'.kernel == Kernel(s.kernel.owned + {c.Physical()}, s.kernel.mapped + {c.Range()})
    ensures Conserved(s')
  {
  }

  // ------------------------------------------------------------------------- serving

  ghost predicate SameLiveBut(s: State, s': State, m: Extent) {
    forall x :: IsLive(s', x) <==> IsLive(s, x) || x == m
  }

  lemma ReblockLive(s: State, i: nat, s': State)
    requires i < |s.carves|
    requires |s'.carves| == |s.carves| && forall k :: 0 <= k < |s.carves| && k != i ==> s'.carves[k] == s.carves[k]
    ensures forall x :: IsLive(s', x) <==> LiveIn(s'.carves[i], x) || ElsewhereLive(s, i, x)
    ensures forall x :: IsLive(s, x) <==> LiveIn(s.carves[i], x) || ElsewhereLive(s, i, x)
  {
  }

  ghost predicate ElsewhereLive(s: State, i: nat, x: Extent) {
    exists k :: 0 <= k < |s.carves| && k != i && LiveIn(s.carves[k], x)
  }

  lemma LiveInAdds(c: CarveV, list: seq<Block>, off: nat, want: nat)
    requires Live(list) == Live(c.blocks) + {Extent(off, want)}
    ensures forall x :: LiveIn(c.(blocks := list), x) <==> LiveIn(c, x) || x == Extent(c.va + off, want)
  {
  }

  lemma LiveInDrops(c: CarveV, list: seq<Block>, off: nat, size: nat)
    requires Live(list) == Live(c.blocks) - {Extent(off, size)}
    ensures forall x :: LiveIn(c.(blocks := list), x) <==> LiveIn(c, x) && x != Extent(c.va + off, size)
  {
  }

  lemma ServeKeepsValid(s: State, i: nat, want: nat)
    requires Valid(s) && want > 0 && want % PAGE == 0
    requires i < |s.carves| && Alloc(s.carves[i].blocks, want).Some?
    ensures Valid(Serve(s, i, want).1) && Serve(s, i, want).0 % PAGE == 0
  {
    hide Valid, Take, Tiles, Coalesced;
    var c := s.carves[i];
    var k := FirstFit(c.blocks, want, 0);
    ValidAt(s, i);
    TakeKeepsValid(c.blocks, c.size, k, want);
    TakeAddsBytes(c.blocks, k, want);
    LiveSumHolds(s);
    ReblockKeepsValid(s, i, Take(c.blocks, k, want), Serve(s, i, want).1);
    OffsetsArePages(c.blocks, c.size, k);
  }

  lemma LiveSumHolds(s: State)
    requires Valid(s)
    ensures s.live == UsedSum(s.carves)
  {
  }

  lemma OffsetsArePages(b: seq<Block>, size: nat, k: nat)
    requires Tiles(b, size) && k < |b|
    ensures b[k].off % PAGE == 0
  {
  }

  lemma ServeAddsOne(s: State, i: nat, want: nat)
    requires Valid(s) && want > 0 && want % PAGE == 0
    requires i < |s.carves| && Alloc(s.carves[i].blocks, want).Some?
    ensures var (p, s') := Serve(s, i, want);
            SameLiveBut(s, s', Extent(p, want)) && forall x :: IsLive(s, x) ==> !x.Overlaps(Extent(p, want))
  {
    hide Live, LiveIn, Take;
    var c := s.carves[i];
    var k := FirstFit(c.blocks, want, 0);
    var (p, s') := Serve(s, i, want);
    TakeAddsOneMapping(c.blocks, c.size, k, want);
    LiveInAdds(c, Take(c.blocks, k, want), c.blocks[k].off, want);
    ReblockLive(s, i, s');
    forall x | IsLive(s, x) ensures !x.Overlaps(Extent(p, want)) {
      ServedIsApart(s, i, k, want, x);
    }
  }

  lemma ServedIsApart(s: State, i: nat, k: nat, want: nat, x: Extent)
    requires Valid(s) && IsLive(s, x) && i < |s.carves| && k < |s.carves[i].blocks|
    requires !s.carves[i].blocks[k].used && 0 < want <= s.carves[i].blocks[k].size
    ensures !x.Overlaps(Extent(s.carves[i].va + s.carves[i].blocks[k].off, want))
  {
    hide Valid, LiveIn;
    var c := s.carves[i];
    var j :| 0 <= j < |s.carves| && LiveIn(s.carves[j], x);
    LiveInValid(s, j, x);
    ValidAt(s, i);
    if i == j {
      FreshInCarve(c, k, want, x);
    } else {
      CarvesApart(s, i, j);
      BlockIsInside(c.blocks, c.size, k);
    }
  }

  lemma FreshInCarve(c: CarveV, k: nat, want: nat, x: Extent)
    requires ValidCarve(c) && LiveIn(c, x) && k < |c.blocks| && !c.blocks[k].used && want <= c.blocks[k].size
    ensures !x.Overlaps(Extent(c.va + c.blocks[k].off, want))
  {
    FreshMapping(c.blocks, c.size, k, want, Extent(x.off - c.va, x.size));
  }

  lemma BlockIsInside(b: seq<Block>, size: nat, k: nat)
    requires Tiles(b, size) && k < |b|
    ensures b[k].off + b[k].size <= size
  {
    if k < |b| - 1 {
      OffsetsIncrease(b, size, k, |b| - 1);
    }
  }

  // ------------------------------------------------------------------------- what a map gives

  /** Under the lock a request either falls back and changes no mapping, or is served: at a page address, at
      least as long as asked, and apart from everything live. No byte changes either way. */
  ghost predicate MapIsSound(s: State, len: nat, r: MapResult, s': State) {
    && s'.bytes == s.bytes
    && match r
    case Fallback => forall x :: IsLive(s', x) <==> IsLive(s, x)
    case Served(p) =>
      var m := Extent(p, PageUp(len));
      && p % PAGE == 0 && m.size >= len
      && SameLiveBut(s, s', m)
      && (forall x :: IsLive(s, x) ==> !x.Overlaps(m))
  }

  lemma AppendKeepsLive(s: State, s': State)
    requires |s'.carves| == |s.carves| + 1 && s'.carves[..|s.carves|] == s.carves
    requires forall b :: b in s'.carves[|s.carves|].blocks ==> !b.used
    ensures forall x :: IsLive(s', x) <==> IsLive(s, x)
  {
  }

  lemma MapServes(s: State, len: nat, ans: Answer)
    requires Valid(s) && 0 < len <= WORD - PAGE && Honest(s.kernel, CarveLength(PageUp(len)), ans)
    ensures var (r, s') := MapLocked(s, len, ans);
            Valid(s') && MapIsSound(s, len, r, s')
  {
    hide Valid;
    var want := PageUp(len);
    PageUpRounds(len);
    var i := FirstServing(s.carves, want, 0);
    if i < |s.carves| {
      ServeKeepsValid(s, i, want);
      ServeAddsOne(s, i, want);
    } else {
      var (ok, s1) := AddCarve(s, want, ans);
      AddCarveKeepsValid(s, want, ans);
      if ok {
        AppendKeepsLive(s, s1);
        if Alloc(s1.carves[|s.carves|].blocks, want).Some? {
          ServeKeepsValid(s1, |s.carves|, want);
          ServeAddsOne(s1, |s.carves|, want);
        }
      }
    }
  }

  /** The length of a new carve-out: the request or 128 MiB, whichever is more, rounded up to 2 MiB. */
  lemma CarveLengthIs(want: nat, length: nat)
    requires length % 0x20_0000 == 0 && want <= length && 0x800_0000 <= length < WORD
    requires length < want + 0x20_0000 || length < 0x800_0000 + 0x20_0000
    ensures CarveLength(want) == length
  {
  }

  /** addCarveLocked in numbers: length is the request or 128 MiB, whichever is more, rounded up to 2 MiB. It is
      refused exactly when there are twelve carve-outs, or it would exceed the cap of 12 * 128 MiB, or the
      kernel does not grant it, map it, or map it aligned. */
  lemma AddCarveInNumbers(s: State, need: nat, length: nat, ans: Answer)
    requires Valid(s) && need < WORD && Honest(s.kernel, length, ans)
    requires length % 0x20_0000 == 0 && need <= length && 0x800_0000 <= length
    requires length < need + 0x20_0000 || length < 0x800_0000 + 0x20_0000
    ensures var (ok, s') := AddCarve(s, need, ans);
            && (ok <==> |s.carves| < 12 && s.held + length <= 12 * 0x800_0000 && ans.granted.Some? && ans.placed.Some?
                        && ans.placed.value % 0x4000 == 0)
            && (ok ==> s'.held == s.held + length && s'.carves ==
                         s.carves + [CarveV(ans.placed.value, ans.granted.value, length, [Block(0, length, false)])])
            && (!ok ==> s'.carves == s.carves && s'.held == s.held)
  {
    hide Valid, Honest, CarveLength;
    HonestOrNot(s.kernel, length, ans);
    HeldIsSmall(s);
    if length < WORD {
      CarveLengthIs(need, length);
    }
  }

  /** mapOwned under the lock, in numbers. want is the request rounded up to 16 KiB, length what a new
      carve-out would be. It falls back exactly when no block of any carve-out can serve, and there are twelve
      carve-outs, or the new one would exceed the cap, or the kernel does not grant it, map it, or map it
      aligned. The first carve-out with a block that can serve does so, from its lowest one; if there is none,
      the new carve-out is appended and serves from its start. */
  lemma MapInNumbers(s: State, len: nat, ans: Answer, want: nat, length: nat)
    requires Valid(s) && 0 < len <= WORD - 0x4000 && Honest(s.kernel, length, ans)
    requires want % 0x4000 == 0 && len <= want < len + 0x4000
    requires length % 0x20_0000 == 0 && want <= length && 0x800_0000 <= length
    requires length < want + 0x20_0000 || length < 0x800_0000 + 0x20_0000
    ensures var (r, s') := MapLocked(s, len, ans);
            var stuck := forall i, k :: 0 <= i < |s.carves| && 0 <= k < |s.carves[i].blocks| ==> !Serves(s, i, k, want);
            && (r == Fallback <==>
                  stuck && (|s.carves| >= 12 || s.held + length > 12 * 0x800_0000
                            || ans.granted == None || ans.placed == None || ans.placed.value % 0x4000 != 0))
            && (r.Served? && !stuck ==> |s'.carves| == |s.carves| && FirstToServe(s, want, r.addr))
            && (r.Served? && stuck ==>
                  && |s'.carves| == |s.carves| + 1 && s'.held == s.held + length
                  && s'.carves[|s.carves|].size == length
                  && ans.placed == Some(r.addr) == Some(s'.carves[|s.carves|].va))
  {
    hide Valid, Honest, AddCarve, PageUp, Alloc;
    WantIs(len, want);
    var i := FirstServing(s.carves, want, 0);
    if i < |s.carves| {
      ServesFirst(s, i, want);
    } else {
      NobodyServes(s, want);
      AddCarveInNumbers(s, want, length, ans);
      NewCarveServes(want, length);
    }
  }

  /** Block k of carve-out i can serve want. */
  ghost predicate Serves(s: State, i: nat, k: nat, want: nat)
    requires i < |s.carves| && k < |s.carves[i].blocks|
  {
    CanServe(s.carves[i].blocks[k], |s.carves[i].blocks|, want)
  }

  /** p is the start of the first block, in the order of the carve-outs and then of addresses, that can serve. */
  ghost predicate FirstToServe(s: State, want: nat, p: nat) {
    exists i: nat, k: nat ::
      && i < |s.carves| && k < |s.carves[i].blocks| && Serves(s, i, k, want)
      && p == s.carves[i].va + s.carves[i].blocks[k].off
      && (forall m: nat :: m < k ==> !Serves(s, i, m, want))
      && (forall j: nat, m: nat :: j < i && m < |s.carves[j].blocks| ==> !Serves(s, j, m, want))
  }

  lemma WantIs(len: nat, want: nat)
    requires 0 < len <= WORD - 0x4000 && want % 0x4000 == 0 && len <= want < len + 0x4000
    ensures PageUp(len) == want < WORD
  {
  }

  lemma HonestOrNot(k: Kernel, length: nat, ans: Answer)
    requires Honest(k, length, ans)
    ensures ans.granted.Some? ==> length <= PHYSICAL_END
  {
  }

  lemma HeldIsSmall(s: State)
    requires Valid(s)
    ensures s.held <= 12 * 0x800_0000 && |s.carves| <= 12
  {
  }

  lemma ServesFirst(s: State, i: nat, want: nat)
    requires i == FirstServing(s.carves, want, 0) < |s.carves|
    ensures var p := Serve(s, i, want).0; FirstToServe(s, want, p)
  {
    hide Alloc, CanServe;
    forall j: nat, m: nat | j < i && m < |s.carves[j].blocks| ensures !Serves(s, j, m, want) {
      AllocIsFirstFit(s.carves[j].blocks, want);
    }
    var b := s.carves[i].blocks;
    AllocIsFirstFit(b, want);
    var k: nat :| k < |b| && CanServe(b[k], |b|, want) && Alloc(b, want).value.0 == b[k].off
                  && forall m :: 0 <= m < k ==> !CanServe(b[m], |b|, want);
    assert Serves(s, i, k, want);
  }

  lemma NobodyServes(s: State, want: nat)
    requires FirstServing(s.carves, want, 0) == |s.carves|
    ensures forall i, k :: 0 <= i < |s.carves| && 0 <= k < |s.carves[i].blocks| ==> !Serves(s, i, k, want)
  {
    hide Alloc, CanServe;
    forall i, k | 0 <= i < |s.carves| && 0 <= k < |s.carves[i].blocks| ensures !Serves(s, i, k, want) {
      AllocIsFirstFit(s.carves[i].blocks, want);
    }
  }

  lemma NewCarveServes(want: nat, length: nat)
    requires 0 < want <= length
    ensures Alloc([Block(0, length, false)], want).Some? && Alloc([Block(0, length, false)], want).value.0 == 0
  {
    var b := [Block(0, length, false)];
    AllocIsFirstFit(b, want);
    assert CanServe(b[0], |b|, want) && b[0] in b;
  }

  // ------------------------------------------------------------------------- what an unmap does

  lemma CarveOfFinds(s: State, i: nat, addr: nat)
    requires Valid(s) && i < |s.carves| && s.carves[i].Contains(addr)
    ensures CarveOf(s.carves, addr, 0) == i
  {
  }

  /** What unmapping must do: succeed on exactly the live mappings, end exactly that one, otherwise
      change nothing, and never touch a byte. */
  ghost predicate UnmapIsSound(s: State, addr: nat, len: nat, r: UnmapResult, s': State) {
    var m := Extent(addr, PageUp(len));
    && s'.bytes == s.bytes
    && (r == Unmapped <==> IsLive(s, m))
    && (r == Unmapped ==> forall x :: IsLive(s', x) <==> IsLive(s, x) && x != m)
    && (r != Unmapped ==> s' == s)
    && (r == Forwarded <==> forall c :: c in s.carves ==> !c.Contains(addr))
  }

  lemma UnmapIsExact(s: State, addr: nat, len: nat)
    requires Valid(s) && 0 < len <= WORD - PAGE
    ensures var (r, s') := Unmap(s, addr, len);
            Valid(s') && UnmapIsSound(s, addr, len, r, s')
  {
    hide Valid, IsLive, Live, Give;
    UnmapFindsLive(s, addr, len);
    var i := CarveOf(s.carves, addr, 0);
    if Unmap(s, addr, len).0 == Unmapped {
      UnmapKeepsValid(s, i, addr, len);
      UnmapEndsOne(s, i, addr, len);
    }
  }

  /** The carve-out that contains the address is the only one that can have the mapping. */
  lemma UnmapFindsLive(s: State, addr: nat, len: nat)
    requires Valid(s) && 0 < len <= WORD - PAGE
    ensures Unmap(s, addr, len).0 == Unmapped <==> IsLive(s, Extent(addr, PageUp(len)))
  {
    hide Live, Give, Valid, Tiles, PageUp;
    var m := Extent(addr, PageUp(len));
    var i := CarveOf(s.carves, addr, 0);
    if IsLive(s, m) {
      var j :| 0 <= j < |s.carves| && LiveIn(s.carves[j], m);
      LiveInValid(s, j, m);
      CarveOfFinds(s, j, addr);
    }
    if i < |s.carves| {
      ValidAt(s, i);
      FreeFindsExactlyTheLive(s.carves[i].blocks, s.carves[i].size, addr - s.carves[i].va, m.size);
    }
  }

  lemma UnmapKeepsValid(s: State, i: nat, addr: nat, len: nat)
    requires Valid(s) && i == CarveOf(s.carves, addr, 0) < |s.carves|
    requires Free(s.carves[i].blocks, addr - s.carves[i].va, PageUp(len)).Some?
    ensures Valid(Unmap(s, addr, len).1)
  {
    hide Live, Give;
    var c := s.carves[i];
    var k := Locate(c.blocks, addr - c.va, 0);
    GiveKeepsValid(c.blocks, c.size, k);
    GiveTakesBytes(c.blocks, k);
    UsedSumCovers(s.carves, i);
    UsedBytesAt(c.blocks, k);
    ReblockKeepsValid(s, i, Give(c.blocks, k), Unmap(s, addr, len).1);
  }

  lemma UnmapEndsOne(s: State, i: nat, addr: nat, len: nat)
    requires Valid(s) && i == CarveOf(s.carves, addr, 0) < |s.carves|
    requires Free(s.carves[i].blocks, addr - s.carves[i].va, PageUp(len)).Some?
    ensures forall x :: IsLive(Unmap(s, addr, len).1, x) <==> IsLive(s, x) && x != Extent(addr, PageUp(len))
  {
    hide Live, Give, LiveIn, Valid;
    var c := s.carves[i];
    var m := Extent(addr, PageUp(len));
    var k := Locate(c.blocks, addr - c.va, 0);
    ValidAt(s, i);
    GiveRemovesOneMapping(c.blocks, c.size, k);
    LiveInDrops(c, Give(c.blocks, k), addr - c.va, m.size);
    FreeFindsExactlyTheLive(c.blocks, c.size, addr - c.va, m.size);
    ReblockLive(s, i, Unmap(s, addr, len).1);
    LiveNowhereElse(s, i, m);
  }

  lemma LiveNowhereElse(s: State, i: nat, m: Extent)
    requires Valid(s) && i < |s.carves| && m.off >= s.carves[i].va
    requires Extent(m.off - s.carves[i].va, m.size) in Live(s.carves[i].blocks)
    ensures LiveIn(s.carves[i], m) && !ElsewhereLive(s, i, m)
  {
    hide Live;
    forall j | 0 <= j < |s.carves| && j != i ensures !LiveIn(s.carves[j], m) {
      if LiveIn(s.carves[j], m) {
        LiveInOneCarve(s, i, j, m);
      }
    }
  }

  lemma {:induction false} UsedSumCovers(cs: seq<CarveV>, i: nat)
    requires i < |cs|
    ensures UsedBytes(cs[i].blocks) <= UsedSum(cs)
  {
    if i < |cs| - 1 {
      UsedSumCovers(cs[..|cs| - 1], i);
    }
  }
}
