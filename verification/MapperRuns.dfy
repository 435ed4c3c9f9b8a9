/**
 Whole runs of the mapper of src/orbis_mmap.cpp: any sequence of maps, unmaps and writes by whoever
 holds a mapping, with the kernel failing wherever it likes. A map is two steps, the locked part and the
 clearing, and anything may happen between them.
 */
module MapperRuns {
  import opened Wrappers
  import opened Blocks
  import opened BlockCounts
  import opened MapperSpec
  import opened MapperProofs

  datatype Op =
    | DoMap(len: nat, ans: Answer)
    | DoClear(addr: nat, len: nat)
    | DoUnmap(addr: nat, len: nat)
    | DoWrite(addr: nat, value: int)

  /** Lengths a caller may pass, answers an honest kernel may give, clearing and writes of live mappings. */
  ghost predicate Permitted(s: State, op: Op) {
    match op
    case DoMap(len, ans) => 0 < len <= WORD - PAGE && Honest(s.kernel, CarveLength(PageUp(len)), ans)
    case DoClear(addr, len) => IsLive(s, Extent(addr, PageUp(len)))
    case DoUnmap(_, len) => 0 < len <= WORD - PAGE
    case DoWrite(addr, _) => exists m :: IsLive(s, m) && m.off <= addr < m.off + m.size
  }

  function Written(bytes: int -> int, addr: nat, value: int): int -> int {
    x => if x == addr then value else bytes(x)
  }

  function Next(s: State, op: Op): State {
    match op
    case DoMap(len, ans) => MapLocked(s, len, ans).1
    case DoClear(addr, len) => Cleared(s, addr, len)
    case DoUnmap(addr, len) => Unmap(s, addr, len).1
    case DoWrite(addr, value) => s.(bytes := Written(s.bytes, addr, value))
  }

  function Run(s: State, ops: seq<Op>): State {
    if ops == [] then s else Next(Run(s, ops[..|ops| - 1]), ops[|ops| - 1])
  }

  ghost predicate RunPermitted(s: State, ops: seq<Op>) {
    ops == [] || (RunPermitted(s, ops[..|ops| - 1]) && Permitted(Run(s, ops[..|ops| - 1]), ops[|ops| - 1]))
  }

  lemma StepKeepsValid(s: State, op: Op)
    requires MapperSpec.Valid(s) && Permitted(s, op)
    ensures MapperSpec.Valid(Next(s, op))
  {
    hide MapperSpec.Valid;
    match op
    case DoMap(len, ans) => MapServes(s, len, ans);
    case DoClear(addr, len) => BytesDoNotMatter(s, Cleared(s, addr, len).bytes);
    case DoUnmap(addr, len) => UnmapIsExact(s, addr, len);
    case DoWrite(addr, value) => BytesDoNotMatter(s, Written(s.bytes, addr, value));
  }

  lemma BytesDoNotMatter(s: State, bytes: int -> int)
    requires MapperSpec.Valid(s)
    ensures MapperSpec.Valid(s.(bytes := bytes))
  {
  }

  /** In every reachable state the block lists tile their carve-outs, carve-outs and mappings are
      apart, the kernel holds exactly what the table says, and no more than the cap. */
  lemma {:induction false} RunKeepsValid(s: State, ops: seq<Op>)
    requires MapperSpec.Valid(s) && RunPermitted(s, ops)
    ensures MapperSpec.Valid(Run(s, ops))
  {
    if ops != [] {
      RunKeepsValid(s, ops[..|ops| - 1]);
      StepKeepsValid(Run(s, ops[..|ops| - 1]), ops[|ops| - 1]);
    }
  }

  lemma RunFromStartIsValid(s: State, ops: seq<Op>)
    requires Initial(s) && RunPermitted(s, ops)
    ensures var end := Run(s, ops);
            && MapperSpec.Valid(end)
            && end.held == SizeSum(end.carves) <= DIRECT_CAP
            && end.kernel.owned == (set i | 0 <= i < |end.carves| :: end.carves[i].Physical())
            && end.kernel.mapped == (set i | 0 <= i < |end.carves| :: end.carves[i].Range())
  {
    assert MapperSpec.Valid(s);
    RunKeepsValid(s, ops);
  }

  // ------------------------------------------------------------------------- bytes stay put

  /** Nothing but a write into it, or its own clearing, changes a live mapping's bytes. */
  ghost predicate LeavesAlone(op: Op, m: Extent) {
    && (op.DoWrite? ==> !(m.off <= op.addr < m.off + m.size))
    && (op.DoClear? ==> Extent(op.addr, PageUp(op.len)) != m)
  }

  ghost predicate SameBytes(s: State, s': State, m: Extent) {
    forall a :: m.off <= a < m.off + m.size ==> s'.bytes(a) == s.bytes(a)
  }

  lemma StepKeepsBytes(s: State, op: Op, m: Extent)
    requires MapperSpec.Valid(s) && Permitted(s, op) && IsLive(s, m) && LeavesAlone(op, m)
    ensures SameBytes(s, Next(s, op), m)
  {
    hide MapperSpec.Valid, IsLive, PageUp, MapLocked, Unmap;
    match op
    case DoMap(len, ans) => MapServes(s, len, ans);
    case DoClear(addr, len) => LiveMappingsDisjoint(s, Extent(addr, PageUp(len)), m);
    case DoUnmap(addr, len) => UnmapIsExact(s, addr, len);
    case DoWrite(_, _) =>
  }

  /** m is live after every step of the run, and no step writes into it. */
  ghost predicate HeldThroughout(s: State, ops: seq<Op>, m: Extent) {
    && IsLive(Run(s, ops), m)
    && (ops == [] || (HeldThroughout(s, ops[..|ops| - 1], m) && LeavesAlone(ops[|ops| - 1], m)))
  }

  /** A mapping keeps its bytes as long as it is held, whatever others map, unmap and write. */
  lemma {:induction false} HeldMappingKeepsBytes(s: State, ops: seq<Op>, m: Extent)
    requires MapperSpec.Valid(s) && RunPermitted(s, ops) && HeldThroughout(s, ops, m)
    ensures SameBytes(s, Run(s, ops), m)
  {
    hide MapperSpec.Valid, IsLive, Next, Permitted;
    if ops != [] {
      var front := ops[..|ops| - 1];
      HeldMappingKeepsBytes(s, front, m);
      RunKeepsValid(s, front);
      assert IsLive(Run(s, front), m);
      StepKeepsBytes(Run(s, front), ops[|ops| - 1], m);
    }
  }

  // ------------------------------------------------------------------------- what a map returns

  /** m is live after every step of the run: nobody unmaps what nobody but its owner knows. */
  ghost predicate StaysLive(s: State, ops: seq<Op>, m: Extent) {
    IsLive(Run(s, ops), m) && (ops == [] || StaysLive(s, ops[..|ops| - 1], m))
  }

  /** What mapOwned hands out when it returns in s', others having brought the table to s before the clearing:
      a live mapping at a page address, at least as long as asked and apart from every other live one, zero
      all over; and outside it the clearing has changed nothing. */
  ghost predicate HandedOut(s: State, p: nat, len: nat, s': State) {
    var m := Extent(p, PageUp(len));
    && p % PAGE == 0 && m.size >= len && IsLive(s', m)
    && (forall x :: IsLive(s', x) && x != m ==> !x.Overlaps(m))
    && (forall a :: p <= a < p + m.size ==> s'.bytes(a) == 0)
    && (forall a :: !(p <= a < p + m.size) ==> s'.bytes(a) == s.bytes(a))
    && (forall x :: IsLive(s', x) <==> IsLive(s, x))
  }

  /** Every mapping is zero when it is returned, whatever earlier owners wrote, and whatever others map, unmap,
      clear and write between the serving under the lock and the clearing outside it. */
  lemma ZeroWhenReturned(s: State, len: nat, ans: Answer, others: seq<Op>)
    requires MapperSpec.Valid(s) && Permitted(s, DoMap(len, ans))
    requires var (r, s1) := MapLocked(s, len, ans);
             r.Served? && RunPermitted(s1, others) && StaysLive(s1, others, Extent(r.addr, PageUp(len)))
    ensures var (r, s1) := MapLocked(s, len, ans);
            var s2 := Run(s1, others);
            && MapperSpec.Valid(Cleared(s2, r.addr, len)) && HandedOut(s2, r.addr, len, Cleared(s2, r.addr, len))
            && Permitted(s2, DoClear(r.addr, len))
  {
    hide MapperSpec.Valid, IsLive, MapLocked, PageUp, RunPermitted, Honest;
    var (r, s1) := MapLocked(s, len, ans);
    MapServes(s, len, ans);
    RunKeepsValid(s1, others);
    var s2 := Run(s1, others);
    var m := Extent(r.addr, PageUp(len));
    StepKeepsValid(s2, DoClear(r.addr, len));
    forall x ensures IsLive(Cleared(s2, r.addr, len), x) <==> IsLive(s2, x) {
      SameCarvesSameLive(s2, Cleared(s2, r.addr, len), x);
    }
    forall x | IsLive(s2, x) && x != m ensures !x.Overlaps(m) {
      LiveMappingsDisjoint(s2, x, m);
    }
  }

  // ------------------------------------------------------------------------- the table never fills

  /** Every live mapping of every carve-out is at least 240 KiB. */
  ghost predicate AllAtLeast(s: State) {
    forall m :: IsLive(s, m) ==> m.size >= LEAST_MAPPING
  }

  ghost predicate AsksAtLeast(ops: seq<Op>) {
    forall i :: 0 <= i < |ops| && ops[i].DoMap? ==> ops[i].len >= LEAST_MAPPING
  }

  lemma StepKeepsAtLeast(s: State, op: Op)
    requires MapperSpec.Valid(s) && Permitted(s, op) && AllAtLeast(s)
    requires op.DoMap? ==> op.len >= LEAST_MAPPING
    ensures AllAtLeast(Next(s, op))
  {
    hide MapperSpec.Valid, IsLive, MapLocked, Unmap, PageUp;
    match op
    case DoMap(len, ans) => MapServes(s, len, ans);
    case DoUnmap(addr, len) => UnmapIsExact(s, addr, len);
    case _ =>
      forall m | IsLive(Next(s, op), m) ensures m.size >= LEAST_MAPPING {
        SameCarvesSameLive(s, Next(s, op), m);
      }
  }

  lemma SameCarvesSameLive(s: State, s': State, m: Extent)
    requires s'.carves == s.carves
    ensures IsLive(s', m) <==> IsLive(s, m)
  {
  }

  /** Over any run in which every request is at least 240 KiB, a carve-out of the usual size never
      has more than 1093 of its 1536 block slots in use, so it refuses a request only when no free
      block is long enough. */
  lemma SlotsNeverRunOut(s: State, ops: seq<Op>, i: nat, len: nat)
    requires Initial(s) && RunPermitted(s, ops) && AsksAtLeast(ops)
    requires i < |Run(s, ops).carves| && Run(s, ops).carves[i].size <= CARVE_BYTES
    ensures var b := Run(s, ops).carves[i].blocks;
            && |b| <= 1093
            && (Alloc(b, len) == None <==> forall k :: 0 <= k < |b| && !b[k].used ==> b[k].size < len)
  {
    hide MapperSpec.Valid, RunPermitted, Run, AllAtLeast, Alloc, Tiles, LiveAtLeast;
    RunFromStartIsValid(s, ops);
    RunKeepsAtLeast(s, ops);
    var end := Run(s, ops);
    ValidAt(end, i);
    LiveBlocksAtLeast(end, i);
    RefusedOnlyForSize(end.carves[i].blocks, end.carves[i].size, len);
  }

  lemma LiveBlocksAtLeast(s: State, i: nat)
    requires AllAtLeast(s) && i < |s.carves|
    ensures LiveAtLeast(s.carves[i].blocks, LEAST_MAPPING)
  {
    var c := s.carves[i];
    forall k | 0 <= k < |c.blocks| && c.blocks[k].used ensures c.blocks[k].size >= LEAST_MAPPING {
      var m := Extent(c.va + c.blocks[k].off, c.blocks[k].size);
      assert LiveIn(c, m);
      assert IsLive(s, m);
    }
  }

  lemma {:induction false} RunKeepsAtLeast(s: State, ops: seq<Op>)
    requires Initial(s) && RunPermitted(s, ops) && AsksAtLeast(ops)
    ensures AllAtLeast(Run(s, ops))
  {
    if ops != [] {
      var front := ops[..|ops| - 1];
      assert forall i :: 0 <= i < |front| ==> front[i] == ops[i];
      RunKeepsAtLeast(s, front);
      RunFromStartIsValid(s, front);
      StepKeepsAtLeast(Run(s, front), ops[|ops| - 1]);
    }
  }

  // ------------------------------------------------------------------------- describing

  /** An address is described exactly when it lies in a carve-out; then a block is always found, it
      contains the address, and it is called used exactly when the address lies in a live mapping. */
  lemma DescribeIsTruthful(s: State, addr: nat)
    requires MapperSpec.Valid(s)
    ensures var d := Describe(s, addr);
            && (d == None <==> forall c :: c in s.carves ==> !c.Contains(addr))
            && (d.Some? ==>
                  var span := d.value;
                  && span.block.Some?
                  && 1 <= span.index <= |s.carves|
                  && s.carves[span.index - 1].Contains(addr)
                  && span.base == s.carves[span.index - 1].va && span.size == s.carves[span.index - 1].size
                  && span.base + span.offset == addr
                  && span.block.value.off <= span.offset < span.block.value.off + span.block.value.size
                  && (span.block.value.used <==> exists m :: IsLive(s, m) && m.off <= addr < m.off + m.size))
  {
    hide MapperSpec.Valid, IsLive, Tiles;
    var i := CarveOf(s.carves, addr, 0);
    if i < |s.carves| {
      var c := s.carves[i];
      ValidAt(s, i);
      LastBlockEnds(c.blocks, c.size);
      BlockCovers(c.blocks, c.size, addr - c.va, |c.blocks|);
      UsedMeansLive(s, i, BlockOf(c.blocks, addr - c.va, 0), addr);
    }
  }

  lemma LastBlockEnds(b: seq<Block>, size: nat)
    requires Tiles(b, size)
    ensures |b| >= 1 && b[|b| - 1].off + b[|b| - 1].size == size
  {
  }

  lemma UsedMeansLive(s: State, i: nat, k: nat, addr: nat)
    requires MapperSpec.Valid(s) && i < |s.carves| && k < |s.carves[i].blocks| && addr >= s.carves[i].va
    requires var b := s.carves[i].blocks[k]; b.off <= addr - s.carves[i].va < b.off + b.size
    ensures s.carves[i].blocks[k].used <==> exists m :: IsLive(s, m) && m.off <= addr < m.off + m.size
  {
    hide MapperSpec.Valid;
    var c := s.carves[i];
    if c.blocks[k].used {
      var m := Extent(c.va + c.blocks[k].off, c.blocks[k].size);
      assert LiveIn(c, m) && IsLive(s, m);
    } else {
      forall m | IsLive(s, m) ensures !(m.off <= addr < m.off + m.size) {
        ServedIsApart(s, i, k, c.blocks[k].size, m);
      }
    }
  }

  /** The blocks leave no gap. */
  lemma {:induction false} BlockCovers(b: seq<Block>, size: nat, off: nat, n: nat)
    requires Tiles(b, size) && 1 <= n <= |b| && off < b[n - 1].off + b[n - 1].size
    ensures exists k :: 0 <= k < n && b[k].off <= off < b[k].off + b[k].size
  {
    if off < b[n - 1].off {
      assert n > 1;
      assert b[n - 1].off == b[n - 2].off + b[n - 2].size;
      BlockCovers(b, size, off, n - 1);
    } else {
      assert b[n - 1].off <= off < b[n - 1].off + b[n - 1].size;
    }
  }
}
