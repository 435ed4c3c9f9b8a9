/**
 The JIT allocator of src/orbis_jit.c in place: the span table of one arena, shifted inside its fixed
 array, and the module's state, changed call by call.
 */
module Jit {
  import opened Wrappers
  import opened Memmove
  import opened JitSpans
  import opened JitPlacement
  import opened JitSpec
  import opened JitProofs
  import opened JitFree
  import opened JitRuns

  lemma FirstFitIs(f: seq<Span>, len: nat, i: nat)
    requires i <= |f| && (forall k :: 0 <= k < i ==> f[k].len < len) && (i < |f| ==> f[i].len >= len)
    ensures FirstFit(f, len) == i
  {
  }

  class SpanTable {
    var nspans: nat
    const span: array<Span>

    ghost predicate Valid()
      reads this
    {
      span.Length == MAX_SPANS && nspans <= MAX_SPANS
    }

    function List(): seq<Span>
      requires nspans <= span.Length
      reads this, span
    {
      span[..nspans]
    }

    /** A new arena is one free span. */
    constructor (base: nat, size: nat)
      ensures Valid() && fresh(span) && List() == [Span(base, size)]
    {
      nspans := 1;
      span := new Span[MAX_SPANS](_ => Span(base, size));
    }

    /** orbis_jit_take */
    method TakeSpan(len: nat) returns (at: Option<nat>)
      requires Valid()
      modifies this`nspans, span
      ensures Valid()
      ensures match JitSpans.Take(old(List()), len)
              case None => at == None && List() == old(List())
              case Some((a, list)) => at == Some(a) && List() == list
    {
      hide FirstFit;
      ghost var was := List();
      var i := 0;
      while i < nspans
        invariant i <= nspans && Valid() && List() == was
        invariant forall k :: 0 <= k < i ==> was[k].len < len
      {
        if span[i].len >= len {
          FirstFitIs(was, len, i);
          at := Some(span[i].at);
          if span[i].len == len {
            Move(span, i, i + 1, nspans - i - 1);
            nspans := nspans - 1;
          } else {
            span[i] := Span(span[i].at + len, span[i].len - len);
          }
          assert List() == TakeAt(was, i, len);
          return;
        }
        i := i + 1;
      }
      FirstFitIs(was, len, i);
      return None;
    }

    /** The memmove and store that make room for a span. */
    method InsertAt(i: nat, s: Span)
      requires Valid() && i <= nspans < MAX_SPANS
      modifies this`nspans, span
      ensures Valid() && nspans == old(nspans) + 1 && List() == Insert(old(List()), i, s)
    {
      Move(span, i + 1, i, nspans - i);
      span[i] := s;
      nspans := nspans + 1;
    }

    /** One coalescing step: span i swallows its successor. */
    method MergeAt(i: nat)
      requires Valid() && i + 1 < nspans
      modifies this`nspans, span
      ensures Valid() && nspans == old(nspans) - 1 && List() == Merge(old(List()), i)
    {
      span[i] := Span(span[i].at, span[i].len + span[i + 1].len);
      Move(span, i + 1, i + 2, nspans - i - 2);
      nspans := nspans - 1;
    }

    /** orbis_jit_give */
    method GiveSpan(at: nat, len: nat)
      requires Valid()
      modifies this`nspans, span
      ensures Valid() && List() == Give(old(List()), Span(at, len))
    {
      hide Insert, Merge;
      ghost var was := List();
      var i := 0;
      while i < nspans && span[i].at < at
        invariant i <= nspans && forall k :: 0 <= k < i ==> was[k].at < at
      {
        i := i + 1;
      }
      PlaceIs(was, at, i);
      if nspans >= MAX_SPANS {
        return;
      }
      InsertAt(i, Span(at, len));
      CoalesceAt(i);
    }

    method CoalesceAt(i: nat)
      requires Valid() && i < nspans
      modifies this`nspans, span
      ensures Valid() && List() == MergePrevious(MergeNext(old(List()), i), i)
    {
      hide Merge;
      if i + 1 < nspans && span[i].at + span[i].len == span[i + 1].at {
        MergeAt(i);
      }
      if i > 0 && span[i - 1].at + span[i - 1].len == span[i].at {
        MergeAt(i - 1);
      }
    }
  }

  /** The kernel's answers to a map attempt, by the address insisted on. */
  type Kernelside = Option<nat> -> Answers

  /** The kernel answers honestly, and its query reports at least this file's own mappings. */
  ghost predicate HonestFor(q: Query, k: Kernel, len: nat, answer: Kernelside) {
    SeesOurs(q, k) && forall at :: Honest(k, len, answer(at)) && PicksFree(k, at, len, answer(at))
  }

  /** A request the address space can hold: no rounding wraps. */
  const MAX_REQUEST: nat := 0x4000_0000_0000_0000

  class Allocator {
    var arenas: seq<Arena>
    var kernel: Kernel
    var verdict: int
    var words: int -> int
    ghost var live: set<Span>
    ghost var leaked: set<Span>

    /** The address of a function of this module, from which displacements are measured. */
    const anchor: nat

    ghost function View(): State
      reads this
    {
      State(arenas, kernel, verdict, words, live, leaked)
    }

    ghost predicate Valid()
      reads this
    {
      JitSpec.Valid(View()) && WINDOW < anchor && anchor + WINDOW <= ADDRESS_END
    }

    constructor (anchor: nat, words: int -> int)
      requires WINDOW < anchor && anchor + WINDOW <= ADDRESS_END
      ensures Valid() && Initial(View()) && this.anchor == anchor
    {
      this.anchor := anchor;
      arenas, kernel, verdict, this.words := [], Kernel({}, {}), -1, words;
      live, leaked := {}, {};
      new;
      StartIsValid(View());
    }

    /** The search of orbis_jit_grow: above the module first, then below. What it returns is unmapped
        throughout and in one of the two ranges; unless a report overstates it is the nearest place there, and
        nothing means there is none; and where nothing is mapped above it is the first granule there. */
    method SearchNear(q: Query, len: nat) returns (at: Option<nat>)
      requires Valid() && len < WORD && ReportsAddresses(q)
      ensures at.Some? ==> Above(q, anchor, len, at.value) || Below(q, anchor, len, at.value)
      ensures NeverOverstates(q) ==> NearestPlace(q, anchor, len, at)
      ensures var first := RoundUp(anchor + 0x1000_0000);
              FreeRun(q, first, anchor + 0x6000_0000) && first + Room(len) <= anchor + 0x6000_0000 ==> at == Some(first)
    {
      hide Candidate, FreeRun, Room, Above, Below, JitSpec.Valid, NeverOverstates;
      var lo, hi := anchor + MODULE_SPAN, anchor + WINDOW;
      UpperWindow(q, anchor, len, lo, hi);
      FirstAbove(q, anchor, len);
      at := FindFree(q, lo, hi, len);
      if at == None {
        lo, hi := anchor - WINDOW, anchor - MODULE_SPAN;
        LowerWindow(q, anchor, len, lo, hi);
        at := FindFree(q, lo, hi, len);
      }
    }

    /** orbis_jit_grow; found is where the search put a near arena, None when neither window has room. */
    method GrowArena(q: Query, atleast: nat, near: bool, setting: Option<int>, answer: Kernelside)
      returns (ghost found: Option<nat>)
      requires Valid() && atleast <= MAX_REQUEST && ReportsAddresses(q)
      requires HonestFor(q, kernel, ArenaSize(atleast, setting), answer)
      modifies this
      ensures Valid()
      ensures View() == Grow(old(View()), atleast, near, found, setting, answer(if near then found else None))
      ensures near && found.Some? ==> InWindow(anchor, found.value, ArenaSize(atleast, setting))
      ensures near ==> found.Some? ==> MayMap(q, old(kernel), found, ArenaSize(atleast, setting), answer(found))
      ensures !near ==> MayMap(q, old(kernel), None, ArenaSize(atleast, setting), answer(None))
      ensures |arenas| > |old(arenas)| ==> |arenas| == |old(arenas)| + 1
      ensures near && |arenas| > |old(arenas)| ==>
        FreeRun(q, arenas[|old(arenas)|].base, arenas[|old(arenas)|].base + ArenaSize(atleast, setting))
      ensures near && |old(arenas)| < 8 && NeverOverstates(q) ==>
        NearestPlace(q, anchor, ArenaSize(atleast, setting), found)
      ensures |arenas| > |old(arenas)| ==>
        && arenas[|old(arenas)|].size == ArenaSize(atleast, setting)
        && (near ==> found == Some(arenas[|old(arenas)|].base))
    {
      hide JitSpec.Valid, MapArena, Honest, PicksFree, FreeRun, SeesOurs, NeverOverstates, NearestPlace, Above, Below,
        Room;
      found := None;
      assert MayMap(q, kernel, None, ArenaSize(atleast, setting), answer(None));
      if |arenas| >= MAX_ARENAS {
        return;
      }
      var len := ArenaSize(atleast, setting);
      ArenaSizeFits(atleast, setting);
      var at := None;
      if near {
        at := SearchNear(q, len);
        found := at;
        if at == None {
          return;
        }
        PlaceIsInWindow(q, anchor, len, at.value);
      }
      var ans := answer(at);
      GrowKeepsValid(q, View(), atleast, near, found, setting, ans);
      var o := MapArena(kernel, verdict, at, len, ans);
      kernel, verdict := o.kernel, o.verdict;
      if o.got.Some? {
        arenas := arenas + [Arena(o.got.value.0, len, o.got.value.1, false, [Span(o.got.value.0, len)])];
        words := Stubbed(words, o.got.value.0);
        ValidIsAligned(old(View()));
        MapArenaConserves(q, old(kernel), old(verdict), at, len, ans);
      }
    }

    /** The scan and header write of orbis_jit_alloc, once an arena serves. */
    method ServeFrom(i: nat, len: nat) returns (at: nat)
      requires i < |arenas| && JitSpans.Take(arenas[i].spans, len).Some?
      modifies this
      ensures (at, View()) == Serve(old(View()), i, len)
      ensures |arenas| == |old(arenas)|
      ensures forall k :: 0 <= k < |arenas| ==>
        arenas[k].base == old(arenas)[k].base && arenas[k].size == old(arenas)[k].size
    {
      var (a, spans) := JitSpans.Take(arenas[i].spans, len).value;
      arenas := arenas[i := arenas[i].(spans := spans)];
      words := SetWord(words, a, len);
      live := live + {Span(a, len)};
      at := a + UNIT;
    }

    /** orbis_jit_alloc. found is the place the search came to, if one was looked for. */
    method AllocBlock(q: Query, size: nat, near: bool, setting: Option<int>, answer: Kernelside)
      returns (at: Option<nat>, ghost found: Option<nat>)
      requires Valid() && size <= MAX_REQUEST - 2 * UNIT && ReportsAddresses(q)
      requires HonestFor(q, kernel, ArenaSize(BlockLength(size), setting), answer)
      modifies this
      ensures Valid() && AllocIsSound(old(View()), size, near, anchor, at, View())
      ensures var ans := answer(if near then found else None);
              var stuck := forall a :: a in old(arenas) ==> !Serves(a, BlockLength(size), near, anchor);
              && (at, View()) == Alloc(old(View()), size, near, anchor, found, setting, ans)
              && (at == None <==> stuck && GrowFails(|old(arenas)|, near, found, ans))
              && (stuck && near && |old(arenas)| < 8 && NeverOverstates(q) ==>
                    NearestPlace(q, anchor, ArenaSize(BlockLength(size), setting), found))
      ensures |arenas| > |old(arenas)| ==>
        var a := arenas[|old(arenas)|];
        && a.size == ArenaSize(BlockLength(size), setting)
        && (near ==> found == Some(a.base) && FreeRun(q, a.base, a.base + a.size))
    {
      hide JitSpec.Valid, BlockLength, ArenaSize, HonestFor, MayMap, MayGrow, AllocIsSound, Inside, JitSpans.Take, Grow,
        Serve, Alloc, GrowFails, FreeRun, InWindow, NearestPlace, NeverOverstates;
      var len := BlockLength(size);
      BlockLengthFits(size);
      found := None;
      var i := 0;
      while i < |arenas|
        invariant i <= |arenas| && View() == old(View())
        invariant forall k :: 0 <= k < i ==> !Serves(arenas[k], len, near, anchor)
      {
        if Serves(arenas[i], len, near, anchor) {
          ServeGives(View(), View(), i, size, near, anchor);
          AllocOfServing(View(), i, size, near, anchor, found, setting, answer(None));
          var p := ServeFrom(i, len);
          return Some(p), found;
        }
        i := i + 1;
      }
      ghost var was := View();
      var count := |arenas|;
      found := GrowArena(q, len, near, setting, answer);
      ghost var ans := answer(if near then found else None);
      MayGrowNow(q, was, size, near, anchor, found, setting, ans);
      AllocKeepsValid(q, was, size, near, anchor, found, setting, ans);
      AllocRefusesIff(q, was, size, near, anchor, found, setting, ans);
      AllocOfStuck(was, size, near, anchor, found, setting, ans);
      if |arenas| > count && JitSpans.Take(arenas[|arenas| - 1].spans, len).Some? {
        var p := ServeFrom(|arenas| - 1, len);
        return Some(p), found;
      }
      return None, found;
    }

    /** orbis_jit_alloc_at */
    method AllocArenaAt(q: Query, addr: nat, size: nat, answer: Kernelside) returns (at: Option<nat>)
      requires Valid() && ReportsAddresses(q)
      requires size <= MAX_REQUEST && addr <= MAX_REQUEST
      requires HonestFor(q, kernel, RoundUp(if size == 0 then 1 else size), answer)
      modifies this
      ensures Valid() && AllocAtIsSound(q, old(View()), addr, size, at, View())
      ensures var len := RoundUp(if size == 0 then 1 else size);
              at == None <==> addr == 0 || addr % 0x4000 != 0 || |old(arenas)| >= 8 || !FreeRun(q, addr, addr + len)
                              || MapFails(Some(addr), answer(Some(addr)))
    {
      hide JitSpec.Valid, MapArena, FreeRun, SeesOurs, NeverOverstates, Honest, PicksFree, MapFails, Candidate;
      var len := RoundUp(if size == 0 then 1 else size);
      if addr == 0 || addr % GRANULE != 0 || |arenas| >= MAX_ARENAS {
        return None;
      }
      OnlyPlaceIsTheStart(q, addr, addr + len, len);
      var found := FindFree(q, addr, addr + len, len);
      if found == None {
        return None;
      }
      var ans := answer(Some(addr));
      AllocAtKeepsValid(q, View(), addr, size, found, ans);
      AllocAtRefusesIff(View(), addr, size, found, ans);
      var o := MapArena(kernel, verdict, Some(addr), len, ans);
      kernel, verdict := o.kernel, o.verdict;
      if o.got == None {
        return None;
      }
      arenas := arenas + [Arena(o.got.value.0, len, o.got.value.1, true, [])];
      words := Stubbed(words, o.got.value.0);
      return Some(o.got.value.0);
    }

    /** orbis_jit_free. What becomes of a block is told by the ghost sets. */
    method FreeBlock(addr: nat)
      requires Valid() && Freeable(View(), addr)
      modifies this
      ensures Valid() && View() == Free(old(View()), addr)
      ensures FreeIsSound(old(View()), addr, View())
    {
      hide JitSpec.Valid, FreeIsSound, Freeable, Give;
      FreeKeepsValid(View(), addr);
      if addr == 0 {
        return;
      }
      var i := 0;
      while i < |arenas| && !arenas[i].Contains(addr)
        invariant i <= |arenas| && forall k :: 0 <= k < i ==> !arenas[k].Contains(addr)
      {
        i := i + 1;
      }
      ArenaOfIs(arenas, addr, i);
      if i == |arenas| {
        return;
      }
      var a := arenas[i];
      if a.dedicated {
        if addr == a.base {
          kernel := GiveBack(kernel, a);
          arenas := arenas[..i] + arenas[i + 1..];
        }
        return;
      }
      if addr < UNIT {
        return;
      }
      var len := words(addr - UNIT);
      if PlausibleHeader(a, addr - UNIT, len) {
        var b := Span(addr - UNIT, len);
        arenas := arenas[i := a.(spans := Give(a.spans, b))];
        live := live - {b};
        leaked := if |a.spans| >= MAX_SPANS then leaked + {b} else leaked;
      }
    }

    /** orbis_jit_release_all */
    method ReleaseEverything()
      requires Valid()
      modifies this
      ensures Valid() && View() == ReleaseAll(old(View()))
      ensures arenas == [] && kernel == Kernel({}, {})
    {
      hide JitSpec.Valid;
      ReleaseAllIsComplete(View());
      var i := 0;
      assert arenas[..0] == [];
      while i < |arenas|
        invariant i <= |arenas| && kernel == GiveAllBack(old(kernel), arenas[..i])
        invariant View() == old(View()).(kernel := kernel)
      {
        assert arenas[..i + 1][..i] == arenas[..i];
        kernel := GiveBack(kernel, arenas[i]);
        i := i + 1;
      }
      assert arenas[..i] == arenas;
      arenas := [];
      live, leaked := {}, {};
    }
  }

  lemma FirstAbove(q: Query, anchor: nat, len: nat)
    ensures var first := RoundUp(anchor + 0x1000_0000);
            FreeRun(q, first, anchor + 0x6000_0000) && first + Room(len) <= anchor + 0x6000_0000 ==>
              Candidate(q, anchor + MODULE_SPAN, anchor + WINDOW, len, first)
  {
    hide Room;
  }

  lemma PlaceIsInWindow(q: Query, anchor: nat, len: nat, at: nat)
    requires len % GRANULE == 0 && len > 0 && (Above(q, anchor, len, at) || Below(q, anchor, len, at))
    ensures InWindow(anchor, at, len) && at % GRANULE == 0 && FreeRun(q, at, at + len)
  {
  }

  lemma FirstServingIs(ars: seq<Arena>, len: nat, near: bool, anchor: nat, i: nat)
    requires anchor >= MODULE_SPAN && i <= |ars|
    requires forall k :: 0 <= k < i ==> !Serves(ars[k], len, near, anchor)
    requires i < |ars| ==> Serves(ars[i], len, near, anchor)
    ensures FirstServing(ars, len, near, anchor, 0) == i
  {
  }

  lemma ArenaOfIs(ars: seq<Arena>, addr: nat, i: nat)
    requires i <= |ars| && (forall k :: 0 <= k < i ==> !ars[k].Contains(addr)) && (i < |ars| ==> ars[i].Contains(addr))
    ensures ArenaOf(ars, addr, 0) == i
  {
  }

  lemma BlockLengthFits(size: nat)
    requires size <= MAX_REQUEST - 2 * UNIT
    ensures BlockLength(size) <= MAX_REQUEST
  {
  }

  /** A search of [addr, addr + len) has one place to find, and finds it when it is free. */
  lemma OnlyPlaceIsTheStart(q: Query, addr: nat, hi: nat, len: nat)
    requires hi == addr + len && len > 0 && len % GRANULE == 0 && addr % GRANULE == 0
    ensures forall at: nat :: Candidate(q, addr, hi, len, at) ==> at == addr
    ensures Candidate(q, addr, hi, len, addr) <==> FreeRun(q, addr, hi)
    ensures RoundUp(addr) == addr
  {
  }

  /** The first arena that serves settles the request. */
  lemma AllocOfServing(s: State, i: nat, size: nat, near: bool, anchor: nat, found: Option<nat>,
                       setting: Option<int>, ans: Answers)
    requires anchor >= MODULE_SPAN && i < |s.arenas| && Serves(s.arenas[i], BlockLength(size), near, anchor)
    requires forall k :: 0 <= k < i ==> !Serves(s.arenas[k], BlockLength(size), near, anchor)
    ensures var (p, s') := Serve(s, i, BlockLength(size));
            Alloc(s, size, near, anchor, found, setting, ans) == (Some(p), s')
  {
    hide Serves, Serve, BlockLength;
    FirstServingIs(s.arenas, BlockLength(size), near, anchor, i);
  }

  lemma AllocOfStuck(s: State, size: nat, near: bool, anchor: nat, found: Option<nat>, setting: Option<int>,
                     ans: Answers)
    requires anchor >= MODULE_SPAN
    requires forall k :: 0 <= k < |s.arenas| ==> !Serves(s.arenas[k], BlockLength(size), near, anchor)
    ensures var len := BlockLength(size);
            var s1 := Grow(s, len, near, found, setting, ans);
            Alloc(s, size, near, anchor, found, setting, ans) ==
            if |s1.arenas| > |s.arenas| && JitSpans.Take(s1.arenas[|s.arenas|].spans, len).Some? then
              var (p, s') := Serve(s1, |s.arenas|, len);
              (Some(p), s')
            else (None, s1)
  {
    hide Serves, Serve, BlockLength, Grow, JitSpans.Take;
    FirstServingIs(s.arenas, BlockLength(size), near, anchor, |s.arenas|);
  }

  lemma MayGrowNow(q: Query, s: State, size: nat, near: bool, anchor: nat, found: Option<nat>, setting: Option<int>,
                   ans: Answers)
    requires anchor >= MODULE_SPAN
    requires var len := ArenaSize(BlockLength(size), setting);
             && (near && found.Some? ==> InWindow(anchor, found.value, len))
             && (near ==> found.Some? ==> MayMap(q, s.kernel, found, len, ans))
             && (!near ==> MayMap(q, s.kernel, None, len, ans))
    ensures MayGrow(q, s, size, near, anchor, found, setting, ans)
  {
    hide MayMap, InWindow;
  }

  lemma ArenaSizeFits(atleast: nat, setting: Option<int>)
    requires atleast <= MAX_REQUEST
    ensures ArenaSize(atleast, setting) < WORD
  {
  }
}
