/**
 The JIT arenas of src/orbis_jit.c as functions on values: arenas taken from the kernel, blocks with
 their length in front of them, and what every failing call gives back.
 */
module JitSpec {
  import opened Wrappers
  import opened JitSpans
  import opened JitPlacement

  const UNIT: nat := 64
  const MAX_ARENAS: nat := 8
  const MEGABYTE: nat := 1024 * 1024

  /** Physical memory, and addresses of mappings, end here. */
  const PHYSICAL_END: nat := 0x100_0000_0000
  const ADDRESS_END: nat := 0x8000_0000_0000

  datatype Arena = Arena(base: nat, size: nat, phys: nat, dedicated: bool, spans: seq<Span>) {
    function Range(): Span { Span(base, size) }
    function Physical(): Span { Span(phys, size) }
    predicate Contains(x: int) { base <= x < base + size }
  }

  /** The physical ranges and the mappings the kernel holds for this file. */
  datatype Kernel = Kernel(owned: set<Span>, mapped: set<Span>)

  /** live: the blocks handed out and not yet freed, headers included. leaked: the blocks freed while
      the span table was full. verdict: -1 nothing asked, 0 refused, 1 granted and executed. words:
      what memory holds. */
  datatype State = State(arenas: seq<Arena>, kernel: Kernel, verdict: int, words: int -> int,
                         live: set<Span>, leaked: set<Span>)

  /** The kernel's answers while an arena is made: a physical offset, an address, whether execute was
      granted, and what the proof stub returned. */
  datatype Answers = Answers(phys: Option<nat>, landed: Option<nat>, promoted: bool, ran: bool)

  // ------------------------------------------------------------------------- sizes

  function RoundUnit(n: nat): (r: nat)
    ensures n <= r < n + 64 && r % 64 == 0
  {
    (n + UNIT - 1) / UNIT * UNIT
  }

  /** A block is the rounded size and one unit for its header. */
  function BlockLength(size: nat): (r: nat)
    ensures r >= size + UNIT && r >= 2 * UNIT && r % UNIT == 0 && (size > 0 ==> r < size + 2 * UNIT)
    ensures size == 0 ==> r == 2 * UNIT
  {
    RoundUnit(if size == 0 then 1 else size) + UNIT
  }

  /** setting is the number in ORBIS_JIT_ARENA_MB, if it is set to one. */
  function ArenaSize(atleast: nat, setting: Option<int>): (r: nat)
    ensures r >= atleast && r > 0 && r % GRANULE == 0
  {
    var mb := if setting.Some? && 0 < setting.value <= 512 then setting.value else 16;
    var want := mb * MEGABYTE;
    RoundUp(if atleast > want then atleast else want)
  }

  /** A new arena is as long as the request, or as 16 MiB, or as what is set if that is from 1 to 512 MiB, whichever
      is more, rounded up to 16 KiB. */
  lemma ArenaSizeInNumbers(atleast: nat, setting: Option<int>, mb: int, length: nat)
    requires if setting.Some? && 1 <= setting.value <= 512 then mb == setting.value else mb == 16
    requires length % 0x4000 == 0 && atleast <= length && mb * 0x10_0000 <= length
    requires length < atleast + 0x4000 || length < mb * 0x10_0000 + 0x4000
    ensures ArenaSize(atleast, setting) == length
  {
  }

  // ------------------------------------------------------------------------- taking an arena

  /** The module's verdict only ever gets worse. */
  function Record(verdict: int, ok: bool): int {
    if verdict < 0 then (if ok then 1 else 0) else if verdict != 0 && ok then 1 else 0
  }

  datatype MapOutcome = MapOutcome(got: Option<(nat, nat)>, kernel: Kernel, verdict: int)

  /** orbis_jit_map: at is the address insisted on, if any; got is the base and the physical offset. */
  function MapArena(k: Kernel, verdict: int, at: Option<nat>, len: nat, ans: Answers): MapOutcome {
    if ans.phys == None then MapOutcome(None, k, verdict)
    else
      var e := Span(ans.phys.value, len);
      var k1 := k.(owned := k.owned + {e});
      if ans.landed == None then MapOutcome(None, k1.(owned := k1.owned - {e}), verdict)
      else
        var m := Span(ans.landed.value, len);
        var k2 := k1.(mapped := k1.mapped + {m});
        var undone := Kernel(k2.owned - {e}, k2.mapped - {m});
        if at.Some? && at.value != m.at then MapOutcome(None, undone, verdict)
        else if !ans.promoted then MapOutcome(None, undone, Record(verdict, false))
        else if !ans.ran then MapOutcome(None, undone, Record(verdict, false))
        else MapOutcome(Some((m.at, e.at)), k2, Record(verdict, true))
  }

  /** Mapping at a given address, or anywhere, comes to nothing. */
  predicate MapFails(at: Option<nat>, ans: Answers) {
    || ans.phys == None || ans.landed == None || (at.Some? && ans.landed != at)
    || !ans.promoted || !ans.ran
  }

  /** So does taking an arena: all eight slots are in use, there is no place in reach, or mapping fails. */
  predicate GrowFails(count: nat, near: bool, found: Option<nat>, ans: Answers) {
    count >= 8 || (near && found == None) || MapFails(if near then found else None, ans)
  }

  /** The proof stub at the start of a new arena overwrites the word there. */
  function Stubbed(words: int -> int, at: nat): int -> int {
    x => if at <= x < at + 8 then 0 else words(x)
  }

  /** orbis_jit_grow. found is what the address search returned for a near request. */
  function Grow(s: State, atleast: nat, near: bool, found: Option<nat>, setting: Option<int>, ans: Answers): State {
    if |s.arenas| >= MAX_ARENAS || (near && found == None) then s
    else
      var len := ArenaSize(atleast, setting);
      var o := MapArena(s.kernel, s.verdict, if near then found else None, len, ans);
      match o.got
      case None => s.(kernel := o.kernel, verdict := o.verdict)
      case Some((base, phys)) =>
        s.(arenas := s.arenas + [Arena(base, len, phys, false, [Span(base, len)])],
           kernel := o.kernel, verdict := o.verdict, words := Stubbed(s.words, base))
  }

  // ------------------------------------------------------------------------- allocating

  predicate Serves(a: Arena, len: nat, near: bool, anchor: nat)
    requires anchor >= MODULE_SPAN
  {
    !a.dedicated && (near ==> NearModule(anchor, a.base, a.size)) && Take(a.spans, len).Some?
  }

  /** The first arena that serves the request, or the number of arenas. */
  function FirstServing(ars: seq<Arena>, len: nat, near: bool, anchor: nat, from: nat): (i: nat)
    requires from <= |ars| && anchor >= MODULE_SPAN
    ensures from <= i <= |ars| && (i < |ars| ==> Serves(ars[i], len, near, anchor))
    ensures forall k :: from <= k < i ==> !Serves(ars[k], len, near, anchor)
    decreases |ars| - from
  {
    if from == |ars| || Serves(ars[from], len, near, anchor) then from
    else FirstServing(ars, len, near, anchor, from + 1)
  }

  function SetWord(words: int -> int, at: nat, v: int): int -> int {
    x => if x == at then v else words(x)
  }

  /** The block comes out of arena i, and its length goes into its header. */
  function Serve(s: State, i: nat, len: nat): (nat, State)
    requires i < |s.arenas| && Take(s.arenas[i].spans, len).Some?
  {
    var (at, spans) := Take(s.arenas[i].spans, len).value;
    (at + UNIT,
     s.(arenas := s.arenas[i := s.arenas[i].(spans := spans)],
        words := SetWord(s.words, at, len),
        live := s.live + {Span(at, len)}))
  }

  /** orbis_jit_alloc */
  function Alloc(s: State, size: nat, near: bool, anchor: nat, found: Option<nat>, setting: Option<int>, ans: Answers)
    : (Option<nat>, State)
    requires anchor >= MODULE_SPAN
  {
    var len := BlockLength(size);
    var i := FirstServing(s.arenas, len, near, anchor, 0);
    if i < |s.arenas| then
      var (p, s') := Serve(s, i, len);
      (Some(p), s')
    else
      var s1 := Grow(s, len, near, found, setting, ans);
      if |s1.arenas| > |s.arenas| && Take(s1.arenas[|s.arenas|].spans, len).Some? then
        var (p, s') := Serve(s1, |s.arenas|, len);
        (Some(p), s')
      else (None, s1)
  }

  /** orbis_jit_alloc_at. found is what the address search returned for [addr, addr + the length). */
  function AllocAt(s: State, addr: nat, size: nat, found: Option<nat>, ans: Answers): (Option<nat>, State) {
    var len := RoundUp(if size == 0 then 1 else size);
    if addr == 0 || addr % GRANULE != 0 || |s.arenas| >= MAX_ARENAS || found == None then (None, s)
    else
      var o := MapArena(s.kernel, s.verdict, Some(addr), len, ans);
      match o.got
      case None => (None, s.(kernel := o.kernel, verdict := o.verdict))
      case Some((base, phys)) =>
        (Some(base),
         s.(arenas := s.arenas + [Arena(base, len, phys, true, [])],
            kernel := o.kernel, verdict := o.verdict, words := Stubbed(s.words, base)))
  }

  // ------------------------------------------------------------------------- freeing

  function ArenaOf(ars: seq<Arena>, addr: nat, from: nat): (i: nat)
    requires from <= |ars|
    ensures from <= i <= |ars| && (i < |ars| ==> ars[i].Contains(addr))
    ensures forall k :: from <= k < i ==> !ars[k].Contains(addr)
    decreases |ars| - from
  {
    if from == |ars| || ars[from].Contains(addr) then from else ArenaOf(ars, addr, from + 1)
  }

  /** Unmapping and releasing, the two handles of one allocation. */
  function GiveBack(k: Kernel, a: Arena): Kernel {
    Kernel(k.owned - {a.Physical()}, k.mapped - {a.Range()})
  }

  /** A header that this file could have written for a block at blk in a. */
  predicate PlausibleHeader(a: Arena, blk: int, len: int) {
    len >= 2 * UNIT && len % UNIT == 0 && blk + len <= a.base + a.size
  }

  /** orbis_jit_free */
  function Free(s: State, addr: nat): State {
    var i := ArenaOf(s.arenas, addr, 0);
    if addr == 0 || i == |s.arenas| then s
    else
      var a := s.arenas[i];
      if a.dedicated then
        if addr != a.base then s
        else s.(arenas := s.arenas[..i] + s.arenas[i + 1..], kernel := GiveBack(s.kernel, a))
      else if addr < UNIT then s
      else
        var blk := addr - UNIT;
        var len := s.words(blk);
        if !PlausibleHeader(a, blk, len) then s
        else
          var b := Span(blk, len);
          s.(arenas := s.arenas[i := a.(spans := Give(a.spans, b))],
             live := s.live - {b},
             leaked := if |a.spans| >= MAX_SPANS then s.leaked + {b} else s.leaked)
  }

  function GiveAllBack(k: Kernel, ars: seq<Arena>): Kernel {
    if ars == [] then k else GiveBack(GiveAllBack(k, ars[..|ars| - 1]), ars[|ars| - 1])
  }

  /** orbis_jit_release_all */
  function ReleaseAll(s: State): State {
    s.(arenas := [], kernel := GiveAllBack(s.kernel, s.arenas), live := {}, leaked := {})
  }

  // ------------------------------------------------------------------------- the invariant

  ghost predicate Covered(bs: set<Span>, x: int) {
    exists b :: b in bs && b.Has(x)
  }

  ghost predicate Inside(s: Span, a: Arena) {
    a.base <= s.at && s.at + s.len <= a.base + a.size
  }

  ghost predicate ValidArena(a: Arena) {
    && a.size > 0 && a.base > 0 && a.base % GRANULE == 0 && a.size % GRANULE == 0 && a.base + a.size <= ADDRESS_END
    && |a.spans| <= MAX_SPANS && Spaced(a.spans)
    && (forall k :: 0 <= k < |a.spans| ==>
          Inside(a.spans[k], a) && a.spans[k].at % UNIT == 0 && a.spans[k].len % UNIT == 0)
    && (a.dedicated ==> a.spans == [])
  }

  ghost predicate ArenasApart(ars: seq<Arena>) {
    forall i, j :: 0 <= i < j < |ars| ==>
      !ars[i].Range().Overlaps(ars[j].Range()) && !ars[i].Physical().Overlaps(ars[j].Physical())
  }

  ghost predicate Conserved(ars: seq<Arena>, k: Kernel) {
    && k.owned == (set i | 0 <= i < |ars| :: ars[i].Physical())
    && k.mapped == (set i | 0 <= i < |ars| :: ars[i].Range())
  }

  ghost predicate InArena(ars: seq<Arena>, b: Span) {
    exists i :: 0 <= i < |ars| && !ars[i].dedicated && Inside(b, ars[i])
  }

  ghost predicate ValidBlock(ars: seq<Arena>, b: Span) {
    b.at % UNIT == 0 && b.len % UNIT == 0 && b.len >= 2 * UNIT && InArena(ars, b)
  }

  /** Blocks are apart from each other and from every free span. */
  ghost predicate BlocksApart(bs: set<Span>) {
    forall b, c :: b in bs && c in bs && b != c ==> !b.Overlaps(c)
  }

  ghost predicate SpansApart(ars: seq<Arena>, bs: set<Span>) {
    forall i, x :: 0 <= i < |ars| && InSome(ars[i].spans, x) ==> !Covered(bs, x)
  }

  /** No byte of a shared arena is lost: it is free, in a live block, or in a leaked one. */
  ghost predicate NoByteLost(ars: seq<Arena>, bs: set<Span>) {
    forall i, x :: 0 <= i < |ars| && !ars[i].dedicated && ars[i].Contains(x) ==>
      InSome(ars[i].spans, x) || Covered(bs, x)
  }

  ghost predicate HeadersTrue(live: set<Span>, words: int -> int) {
    forall b :: b in live ==> words(b.at) == b.len
  }

  ghost predicate Valid(s: State) {
    && |s.arenas| <= MAX_ARENAS
    && (forall i :: 0 <= i < |s.arenas| ==> ValidArena(s.arenas[i]))
    && ArenasApart(s.arenas)
    && Conserved(s.arenas, s.kernel)
    && s.live !! s.leaked
    && (forall b :: b in s.live + s.leaked ==> ValidBlock(s.arenas, b))
    && BlocksApart(s.live + s.leaked)
    && SpansApart(s.arenas, s.live + s.leaked)
    && NoByteLost(s.arenas, s.live + s.leaked)
    && HeadersTrue(s.live, s.words)
  }

  ghost predicate Initial(s: State) {
    s.arenas == [] && s.kernel == Kernel({}, {}) && s.verdict == -1 && s.live == {} && s.leaked == {}
  }

  // ------------------------------------------------------------------------- what may be assumed

  /** The kernel grants only what exists and nobody holds, at granule addresses. */
  ghost predicate Honest(k: Kernel, len: nat, ans: Answers) {
    && (ans.phys.Some? ==>
          var e := Span(ans.phys.value, len);
          e.at + len <= PHYSICAL_END && e !in k.owned && forall o :: o in k.owned ==> !o.Overlaps(e))
    && (ans.landed.Some? ==>
          var m := Span(ans.landed.value, len);
          m.at > 0 && m.at % GRANULE == 0 && m.at + len <= ADDRESS_END)
  }

  /** Without an address to insist on, or when it lands elsewhere, the kernel picks a place that is
      not in use. With MAP_FIXED it replaces what is there, so nothing is promised. */
  ghost predicate PicksFree(k: Kernel, at: Option<nat>, len: nat, ans: Answers) {
    ans.landed.Some? && at != ans.landed ==>
      var m := Span(ans.landed.value, len);
      m !in k.mapped && forall o :: o in k.mapped ==> !o.Overlaps(m)
  }

  /** The query reports at least this file's own mappings. */
  ghost predicate SeesOurs(q: Query, k: Kernel) {
    forall m, g: nat :: m in k.mapped && g % GRANULE == 0 && m.at <= g < m.at + m.len ==> Mapped(q, g)
  }

  /** Addresses a caller may free: null, outside every arena, inside a dedicated arena, or the
      pointer of a live block. */
  ghost predicate Freeable(s: State, addr: nat) {
    || addr == 0
    || (forall a :: a in s.arenas ==> !a.Contains(addr))
    || (exists a :: a in s.arenas && a.dedicated && a.Contains(addr))
    || (exists b :: b in s.live && addr == b.at + UNIT)
  }
}
