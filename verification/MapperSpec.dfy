/**
 The direct-memory mapper of src/orbis_mmap.cpp as functions on values: carve-outs taken on demand,
 mappings served from the first carve-out that can, exact-match unmapping, and the bytes behind them.
 */
module MapperSpec {
  import opened Wrappers
  import opened Blocks
  import opened BlockCounts

  const WORD: nat := 0x1_0000_0000_0000_0000
  const DIRECT_ALIGN: nat := 0x200000
  const MAX_CARVES: nat := 12
  const DIRECT_CAP: nat := MAX_CARVES * CARVE_BYTES

  /** What the kernel can ever grant: physical memory ends here, and so do addresses. */
  const PHYSICAL_END: nat := 0x100_0000_0000
  const ADDRESS_END: nat := 0x8000_0000_0000

  /** alignUp to a page and to the direct-memory quantum, in 64 bits: the sum wraps. */
  function PageUp(v: nat): nat {
    (v + PAGE - 1) % WORD / PAGE * PAGE
  }

  function DirectUp(v: nat): nat {
    (v + DIRECT_ALIGN - 1) % WORD / DIRECT_ALIGN * DIRECT_ALIGN
  }

  datatype CarveV = CarveV(va: nat, phys: nat, size: nat, blocks: seq<Block>) {
    function Range(): Extent { Extent(va, size) }
    function Physical(): Extent { Extent(phys, size) }
    predicate Contains(addr: nat) { va <= addr < va + size }
  }

  /** The physical ranges and the mappings the kernel holds on this file's behalf. */
  datatype Kernel = Kernel(owned: set<Extent>, mapped: set<Extent>)

  /** What the kernel answers when asked for a carve-out: a physical offset and an address, or a
      failure of either call, which then has no effect. */
  datatype Answer = Answer(granted: Option<nat>, placed: Option<nat>)

  datatype State = State(carves: seq<CarveV>, held: nat, live: nat, kernel: Kernel, bytes: int -> int)

  datatype MapResult = Served(addr: nat) | Fallback
  datatype UnmapResult = Unmapped | Invalid | Forwarded

  // ------------------------------------------------------------------------- taking a carve-out

  function CarveLength(need: nat): nat {
    DirectUp(if need > CARVE_BYTES then need else CARVE_BYTES)
  }

  /** The kernel grants only ranges that exist and that nobody holds. */
  ghost predicate Honest(k: Kernel, len: nat, ans: Answer) {
    && (ans.granted.Some? ==>
          var e := Extent(ans.granted.value, len);
          len > 0 && e.off + len <= PHYSICAL_END && forall o :: o in k.owned ==> !o.Overlaps(e) && o != e)
    && (ans.placed.Some? ==>
          var e := Extent(ans.placed.value, len);
          e.off > 0 && e.off + len <= ADDRESS_END && forall o :: o in k.mapped ==> !o.Overlaps(e) && o != e)
  }

  /** The kernel calls of addCarveLocked, in order, with what each failure gives back. */
  function TakeFromKernel(k: Kernel, len: nat, ans: Answer): (Option<(nat, nat)>, Kernel) {
    if ans.granted == None then (None, k)
    else
      var e := Extent(ans.granted.value, len);
      var k1 := k.(owned := k.owned + {e});
      if ans.placed == None then (None, k1.(owned := k1.owned - {e}))
      else
        var m := Extent(ans.placed.value, len);
        var k2 := k1.(mapped := k1.mapped + {m});
        if m.off % PAGE != 0 then (None, Kernel(k2.owned - {e}, k2.mapped - {m}))
        else (Some((e.off, m.off)), k2)
  }

  /** addCarveLocked */
  function AddCarve(s: State, need: nat, ans: Answer): (bool, State) {
    var len := CarveLength(need);
    if |s.carves| >= MAX_CARVES || (s.held + len) % WORD > DIRECT_CAP then (false, s)
    else
      var (got, k) := TakeFromKernel(s.kernel, len, ans);
      match got
      case None => (false, s.(kernel := k))
      case Some((phys, va)) =>
        (true, s.(carves := s.carves + [CarveV(va, phys, len, [Block(0, len, false)])],
                  held := s.held + len, kernel := k))
  }

  // ------------------------------------------------------------------------- mapping

  /** The first carve-out that can serve want, or the number of carve-outs. */
  function FirstServing(cs: seq<CarveV>, want: nat, from: nat): (i: nat)
    requires from <= |cs|
    ensures from <= i <= |cs| && (i < |cs| ==> Alloc(cs[i].blocks, want).Some?)
    ensures forall k :: from <= k < i ==> Alloc(cs[k].blocks, want) == None
    decreases |cs| - from
  {
    if from == |cs| || Alloc(cs[from].blocks, want).Some? then from else FirstServing(cs, want, from + 1)
  }

  function Zeroed(bytes: int -> int, at: nat, len: nat): int -> int {
    x => if at <= x < at + len then 0 else bytes(x)
  }

  /** Serve want from carve-out i. Its bytes are whatever earlier owners left. */
  function Serve(s: State, i: nat, want: nat): (nat, State)
    requires i < |s.carves| && Alloc(s.carves[i].blocks, want).Some?
  {
    var c := s.carves[i];
    var (off, list) := Alloc(c.blocks, want).value;
    (c.va + off,
     s.(carves := s.carves[i := c.(blocks := list)],
        live := s.live + want))
  }

  /** The memset of mapOwned, after the lock has been given back. */
  function Cleared(s: State, p: nat, len: nat): State {
    s.(bytes := Zeroed(s.bytes, p, PageUp(len)))
  }

  /** The part of mapOwned under the lock. */
  function MapLocked(s: State, len: nat, ans: Answer): (MapResult, State) {
    var want := PageUp(len);
    var i := FirstServing(s.carves, want, 0);
    if i < |s.carves| then
      var (p, s') := Serve(s, i, want);
      (Served(p), s')
    else
      var (ok, s1) := AddCarve(s, want, ans);
      if ok && Alloc(s1.carves[|s1.carves| - 1].blocks, want).Some? then
        var (p, s') := Serve(s1, |s1.carves| - 1, want);
        (Served(p), s')
      else (Fallback, s1)
  }

  // ------------------------------------------------------------------------- unmapping

  /** carveOfLocked: the first carve-out that contains addr, or the number of carve-outs. */
  function CarveOf(cs: seq<CarveV>, addr: nat, from: nat): (i: nat)
    requires from <= |cs|
    ensures from <= i <= |cs| && (i < |cs| ==> cs[i].Contains(addr))
    ensures forall k :: from <= k < i ==> !cs[k].Contains(addr)
    decreases |cs| - from
  {
    if from == |cs| || cs[from].Contains(addr) then from else CarveOf(cs, addr, from + 1)
  }

  /** __munmap */
  function Unmap(s: State, addr: nat, len: nat): (UnmapResult, State) {
    var i := CarveOf(s.carves, addr, 0);
    if i == |s.carves| then (Forwarded, s)
    else
      var c := s.carves[i];
      var size := PageUp(len);
      match Free(c.blocks, addr - c.va, size)
      case None => (Invalid, s)
      case Some(list) =>
        (Unmapped, s.(carves := s.carves[i := c.(blocks := list)],
                      live := if s.live >= size then s.live - size else 0))
  }

  // ------------------------------------------------------------------------- describing

  /** The parts of MmapDirectSpan: the carve-out and the block an address falls in. */
  datatype Span = Span(index: nat, base: nat, size: nat, offset: nat, block: Option<Block>)

  /** The first block that contains off, or the length of the list. */
  function BlockOf(b: seq<Block>, off: nat, from: nat): (i: nat)
    requires from <= |b|
    ensures from <= i <= |b| && (i < |b| ==> b[i].off <= off < b[i].off + b[i].size)
    ensures forall k :: from <= k < i ==> !(b[k].off <= off < b[k].off + b[k].size)
    decreases |b| - from
  {
    if from == |b| || b[from].off <= off < b[from].off + b[from].size then from else BlockOf(b, off, from + 1)
  }

  /** mmapDirectDescribe, while nobody changes the table. */
  function Describe(s: State, addr: nat): Option<Span> {
    var i := CarveOf(s.carves, addr, 0);
    if i == |s.carves| then None
    else
      var c := s.carves[i];
      var k := BlockOf(c.blocks, addr - c.va, 0);
      Some(Span(i + 1, c.va, c.size, addr - c.va, if k < |c.blocks| then Some(c.blocks[k]) else None))
  }

  // ------------------------------------------------------------------------- the invariant

  function SizeSum(cs: seq<CarveV>): nat {
    if cs == [] then 0 else SizeSum(cs[..|cs| - 1]) + cs[|cs| - 1].size
  }

  function UsedSum(cs: seq<CarveV>): nat {
    if cs == [] then 0 else UsedSum(cs[..|cs| - 1]) + UsedBytes(cs[|cs| - 1].blocks)
  }

  ghost predicate ValidCarve(c: CarveV) {
    && c.size > 0 && c.va > 0 && c.va % PAGE == 0 && c.va + c.size <= ADDRESS_END
    && ValidList(c.blocks, c.size)
  }

  ghost predicate Apart(cs: seq<CarveV>) {
    forall i, j :: 0 <= i < j < |cs| ==>
      !cs[i].Range().Overlaps(cs[j].Range()) && !cs[i].Physical().Overlaps(cs[j].Physical())
  }

  /** What the kernel holds is exactly what the table says. */
  ghost predicate Conserved(s: State) {
    && s.kernel.owned == (set i | 0 <= i < |s.carves| :: s.carves[i].Physical())
    && s.kernel.mapped == (set i | 0 <= i < |s.carves| :: s.carves[i].Range())
  }

  ghost predicate Valid(s: State) {
    && |s.carves| <= MAX_CARVES
    && (forall i :: 0 <= i < |s.carves| ==> ValidCarve(s.carves[i]))
    && Apart(s.carves)
    && Conserved(s)
    && s.held == SizeSum(s.carves) <= DIRECT_CAP
    && s.live == UsedSum(s.carves)
  }

  /** m is a live mapping of carve-out c. */
  ghost predicate LiveIn(c: CarveV, m: Extent) {
    m.off >= c.va && Extent(m.off - c.va, m.size) in Live(c.blocks)
  }

  /** m is a live mapping: an address and a length somebody was given and has not given back. */
  ghost predicate IsLive(s: State, m: Extent) {
    exists i :: 0 <= i < |s.carves| && LiveIn(s.carves[i], m)
  }

  ghost const EMPTY_KERNEL := Kernel({}, {})

  ghost predicate Initial(s: State) {
    s.carves == [] && s.held == 0 && s.live == 0 && s.kernel == EMPTY_KERNEL
  }
}
