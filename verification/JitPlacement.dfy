/**
 Where src/orbis_jit.c puts an arena: the address search that skips whole mappings, and the test
 whether a 32-bit displacement reaches.
 */
module JitPlacement {
  import opened Wrappers

  const GRANULE: nat := 0x4000
  const WORD: nat := 0x1_0000_0000_0000_0000

  /** What sceKernelVirtualQuery says about a granule: not mapped, or mapped with the end of its
      mapping as reported. */
  type Query = nat -> Option<nat>

  predicate Mapped(q: Query, g: nat) {
    q(g).Some?
  }

  function RoundUp(a: nat): (r: nat)
    ensures a <= r < a + 0x4000 && r % 0x4000 == 0
  {
    (a + GRANULE - 1) / GRANULE * GRANULE
  }

  // ------------------------------------------------------------------------- the search

  /** Every granule of [a, b) is unmapped. */
  ghost predicate FreeRun(q: Query, a: nat, b: nat) {
    forall g: nat :: a <= g < b && g % GRANULE == 0 ==> !Mapped(q, g)
  }

  /** A place for len bytes: aligned, inside the window, all its granules unmapped. */
  ghost predicate Candidate(q: Query, lo: nat, hi: nat, len: nat, at: nat) {
    at % GRANULE == 0 && lo <= at && at + Room(len) <= hi && FreeRun(q, at, at + Room(len))
  }

  /** The whole granules len bytes take, never none. */
  function Room(len: nat): (r: nat)
    ensures r >= len && r >= GRANULE && r % GRANULE == 0
    ensures if len == 0 then r == GRANULE else r < len + GRANULE
  {
    if len == 0 then GRANULE else RoundUp(len)
  }

  /** No report claims a mapping reaches further than it does. A report that is too small, or even
      behind the address asked about, is allowed. */
  ghost predicate NeverOverstates(q: Query) {
    forall p: nat, g: nat :: p % GRANULE == 0 && g % GRANULE == 0 && Mapped(q, p) && p <= g < q(p).value
      ==> Mapped(q, g)
  }

  /** Reported ends are addresses: rounding one up does not wrap. */
  ghost predicate ReportsAddresses(q: Query) {
    forall p: nat :: Mapped(q, p) ==> q(p).value <= WORD - GRANULE
  }

  /** A run that meets a mapped granule is no candidate, wherever it starts before it. */
  lemma MappedRulesOut(q: Query, lo: nat, hi: nat, len: nat, at: nat, p: nat)
    requires p % GRANULE == 0 && Mapped(q, p) && at <= p < at + Room(len)
    ensures !Candidate(q, lo, hi, len, at)
  {
  }

  /** orbis_jit_find_free. Whatever is reported, what it returns is unmapped throughout; and unless a
      report overstates, it returns the lowest place there is, or None when there is none. Where nothing
      is mapped it returns the start in any case. lo is not 0: address 0 would read as NULL. */
  method FindFree(q: Query, lo: nat, hi: nat, len: nat) returns (at: Option<nat>)
    requires 0 < lo <= WORD - GRANULE && hi <= WORD - GRANULE && len < WORD && ReportsAddresses(q)
    ensures at.Some? ==> Candidate(q, lo, hi, len, at.value)
    ensures NeverOverstates(q) ==> match at
              case Some(a) => forall b: nat :: b < a ==> !Candidate(q, lo, hi, len, b)
              case None => forall b: nat :: !Candidate(q, lo, hi, len, b)
    ensures Candidate(q, lo, hi, len, RoundUp(lo)) && FreeRun(q, RoundUp(lo), hi) ==> at == Some(RoundUp(lo))
  {
    hide Candidate, FreeRun, NeverOverstates, Room, RoundUp;
    var p := RoundUp(lo);
    var run := p;
    SearchStarts(q, lo, hi, len);
    while p + GRANULE <= hi
      invariant lo <= run <= p && p % GRANULE == 0 && run % GRANULE == 0
      invariant FreeRun(q, run, p) && p - run < Room(len)
      invariant NeverOverstates(q) ==> NoneBelow(q, lo, hi, len, run)
      invariant FreeRun(q, RoundUp(lo), hi) ==> run == RoundUp(lo)
      decreases hi - p
    {
      var answer := q(p);
      if answer.Some? {
        MappedIsNotFree(q, RoundUp(lo), hi, p);
        var end := answer.value;
        var next := if end > p then RoundUp(end) else p + GRANULE;
        if NeverOverstates(q) {
          SkipIsSafe(q, lo, hi, len, run, p);
        }
        p := next;
        run := p;
        EmptyRun(q, p);
        continue;
      }
      ghost var before := p;
      p := p + GRANULE;
      RunGrows(q, run, before);
      if p - run >= len {
        RunIsRoom(q, lo, hi, len, run, p);
        return Some(run);
      }
      ShortRun(p - run, len);
    }
    NoRoomLeft(q, lo, hi, len, run, p);
    if NeverOverstates(q) {
      NothingNearTheEnd(q, lo, hi, len, run, p);
    }
    return None;
  }

  lemma MappedIsNotFree(q: Query, a: nat, b: nat, p: nat)
    requires Mapped(q, p) && a <= p < b && p % GRANULE == 0
    ensures !FreeRun(q, a, b)
  {
  }

  lemma NoRoomLeft(q: Query, lo: nat, hi: nat, len: nat, run: nat, p: nat)
    requires p % GRANULE == 0 && run % GRANULE == 0 && run <= p && p - run < Room(len) && p + GRANULE > hi
    ensures !Candidate(q, lo, hi, len, run)
  {
  }

  ghost predicate NoneBelow(q: Query, lo: nat, hi: nat, len: nat, run: nat) {
    forall b: nat :: b < run ==> !Candidate(q, lo, hi, len, b)
  }

  lemma SearchStarts(q: Query, lo: nat, hi: nat, len: nat)
    ensures FreeRun(q, RoundUp(lo), RoundUp(lo)) && NoneBelow(q, lo, hi, len, RoundUp(lo))
  {
  }

  lemma EmptyRun(q: Query, p: nat)
    ensures FreeRun(q, p, p)
  {
  }

  lemma RunGrows(q: Query, run: nat, p: nat)
    requires FreeRun(q, run, p) && p % GRANULE == 0 && !Mapped(q, p)
    ensures FreeRun(q, run, p + GRANULE)
  {
  }

  /** Everything a truthful report skips is either behind the run, ruled out by the mapped granule it
      was asked about, or mapped itself. */
  lemma SkipIsSafe(q: Query, lo: nat, hi: nat, len: nat, run: nat, p: nat)
    requires NeverOverstates(q) && p % GRANULE == 0 && run % GRANULE == 0 && run <= p && Mapped(q, p)
    requires p - run < Room(len) && NoneBelow(q, lo, hi, len, run)
    ensures NoneBelow(q, lo, hi, len, if q(p).value > p then RoundUp(q(p).value) else p + GRANULE)
  {
    var next := if q(p).value > p then RoundUp(q(p).value) else p + GRANULE;
    forall b: nat | b < next ensures !Candidate(q, lo, hi, len, b) {
      if b % GRANULE == 0 && b >= run {
        if b <= p {
          MappedRulesOut(q, lo, hi, len, b, p);
        } else {
          assert b < q(p).value;
          MappedRulesOut(q, lo, hi, len, b, b);
        }
      }
    }
  }

  lemma RunIsRoom(q: Query, lo: nat, hi: nat, len: nat, run: nat, p: nat)
    requires FreeRun(q, run, p) && run % GRANULE == 0 && p % GRANULE == 0 && lo <= run < p <= hi
    requires p - run >= len
    ensures Candidate(q, lo, hi, len, run)
  {
  }

  lemma ShortRun(n: nat, len: nat)
    requires n < len
    ensures n < Room(len)
  {
  }

  lemma NothingNearTheEnd(q: Query, lo: nat, hi: nat, len: nat, run: nat, p: nat)
    requires p % GRANULE == 0 && run % GRANULE == 0 && run <= p && p - run < Room(len) && p + GRANULE > hi
    requires NoneBelow(q, lo, hi, len, run)
    ensures forall b: nat :: !Candidate(q, lo, hi, len, b)
  {
  }

  // ------------------------------------------------------------------------- the reach of a displacement

  const REACH: nat := 0x8000_0000
  const MODULE_SPAN: nat := 0x1000_0000
  const WINDOW: nat := REACH - 2 * MODULE_SPAN

  /** orbis_jit_reachable, for ranges that end inside the address space. */
  predicate Reachable(from: nat, len: nat, to: nat, len2: nat) {
    var lo := if from < to then from else to;
    var hi := if from + len > to + len2 then from + len else to + len2;
    hi - lo < REACH
  }

  /** The distance fits a signed 32-bit displacement. */
  predicate Fits(x: int, y: int) {
    -0x8000_0000 <= y - x < 0x8000_0000
  }

  /** A yes means every displacement fits, from any point of one range, or the end of it, to any of
      the other and back. */
  lemma ReachableIsSafe(from: nat, len: nat, to: nat, len2: nat, x: int, y: int)
    requires Reachable(from, len, to, len2)
    requires from <= x <= from + len && to <= y <= to + len2
    ensures Fits(x, y) && Fits(y, x)
  {
  }

  /** A no for ranges side by side is not mere caution: their outer ends are a whole reach apart. */
  lemma UnreachableIsFar(from: nat, len: nat, to: nat, len2: nat)
    requires !Reachable(from, len, to, len2)
    requires from + len <= to || to + len2 <= from
    ensures exists x, y :: from <= x <= from + len && to <= y <= to + len2 && !(Fits(x, y) && Fits(y, x))
  {
    if from + len <= to {
      assert !Fits(to + len2, from) || !Fits(from, to + len2);
    } else {
      assert !Fits(from + len, to) || !Fits(to, from + len);
    }
  }

  /** orbis_jit_near_module, with the anchor's module span in front of and behind it. */
  predicate NearModule(anchor: nat, base: nat, size: nat)
    requires anchor >= MODULE_SPAN
  {
    Reachable(anchor - MODULE_SPAN, 2 * MODULE_SPAN, base, size)
  }

  /** The two windows the search is given: above the module, then below. */
  predicate InWindow(anchor: nat, base: nat, size: nat) {
    || (anchor + MODULE_SPAN <= base && base + size <= anchor + WINDOW)
    || (anchor <= base + WINDOW && base + size + MODULE_SPAN <= anchor)
  }

  /** Every point within 256 MiB of the anchor reaches every point of the arena, and back, by a signed 32-bit
      displacement. */
  ghost predicate InReach(anchor: nat, base: nat, size: nat) {
    forall x: int, y: int :: anchor - 0x1000_0000 <= x <= anchor + 0x1000_0000 && base <= y <= base + size
      ==> Fits(x, y) && Fits(y, x)
  }

  /** The test is exact for an arena on one side of the module. */
  lemma NearModuleIffInReach(anchor: nat, base: nat, size: nat)
    requires anchor >= MODULE_SPAN
    requires anchor + 0x1000_0000 <= base || base + size + 0x1000_0000 <= anchor
    ensures NearModule(anchor, base, size) <==> InReach(anchor, base, size)
  {
    if !NearModule(anchor, base, size) {
      var x: int := if base > anchor then anchor - 0x1000_0000 else anchor + 0x1000_0000;
      var y: int := if base > anchor then base + size else base;
      assert !(Fits(x, y) && Fits(y, x));
    }
  }

  /** A place for len bytes above the module: 256 MiB past the anchor at least, and so that all of it is within
      2 GiB of what lies 256 MiB before the anchor, with the module's span to spare. */
  ghost predicate Above(q: Query, anchor: nat, len: nat, b: nat) {
    && b % 0x4000 == 0 && anchor + 0x1000_0000 <= b && b + Room(len) + 0x2000_0000 <= anchor + 0x8000_0000
    && FreeRun(q, b, b + Room(len))
  }

  /** And the mirrored range below. */
  ghost predicate Below(q: Query, anchor: nat, len: nat, b: nat) {
    && b % 0x4000 == 0 && anchor + 0x2000_0000 <= b + 0x8000_0000 && b + Room(len) + 0x1000_0000 <= anchor
    && FreeRun(q, b, b + Room(len))
  }

  /** The place a search near the module must come to: the lowest above, or if there is none the lowest below,
      or none when there is none at all. */
  ghost predicate NearestPlace(q: Query, anchor: nat, len: nat, at: Option<nat>) {
    && (forall b: nat :: Above(q, anchor, len, b) ==> at.Some? && Above(q, anchor, len, at.value) && at.value <= b)
    && ((forall b: nat :: !Above(q, anchor, len, b)) ==>
          forall b: nat :: Below(q, anchor, len, b) ==> at.Some? && at.value <= b)
  }

  lemma UpperWindow(q: Query, anchor: nat, len: nat, lo: nat, hi: nat)
    requires lo == anchor + MODULE_SPAN && hi == anchor + WINDOW
    ensures forall b: nat :: Candidate(q, lo, hi, len, b) <==> Above(q, anchor, len, b)
  {
    hide FreeRun, Room;
  }

  lemma LowerWindow(q: Query, anchor: nat, len: nat, lo: nat, hi: nat)
    requires anchor >= WINDOW && lo == anchor - WINDOW && hi == anchor - MODULE_SPAN
    ensures forall b: nat :: Candidate(q, lo, hi, len, b) <==> Below(q, anchor, len, b)
  {
    hide FreeRun, Room;
  }

  /** What the window search places always passes the later test, so that every byte of the arena is
      in reach of every byte of the module. */
  lemma WindowPassesTheTest(anchor: nat, base: nat, size: nat)
    requires anchor >= MODULE_SPAN && InWindow(anchor, base, size)
    ensures NearModule(anchor, base, size)
    ensures InReach(anchor, base, size)
  {
  }
}
