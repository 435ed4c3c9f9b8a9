/**
 The free list of one JIT arena of src/orbis_jit.c: spans sorted by address, taken from the first one
 that fits and given back with coalescing on both sides.
 */
module JitSpans {
  import opened Wrappers

  const MAX_SPANS: nat := 256

  datatype Span = Span(at: nat, len: nat) {
    function End(): nat { at + len }
    ghost predicate Has(x: int) { at <= x < at + len }
    ghost predicate Overlaps(o: Span) { at < o.at + o.len && o.at < at + len }
  }

  /** Sorted, with a gap between any two: disjoint and never touching. */
  ghost predicate Spaced(f: seq<Span>) {
    && (forall i :: 0 <= i < |f| ==> f[i].len > 0)
    && forall i, j :: 0 <= i < j < |f| ==> f[i].at + f[i].len < f[j].at
  }

  ghost predicate InSome(f: seq<Span>, x: int) {
    exists i :: 0 <= i < |f| && f[i].Has(x)
  }

  // ------------------------------------------------------------------------- take

  function FirstFit(f: seq<Span>, len: nat): (i: nat)
    ensures i <= |f| && (i < |f| ==> f[i].len >= len)
    ensures forall k :: 0 <= k < i ==> f[k].len < len
  {
    if f == [] then 0 else if f[0].len >= len then 0 else 1 + FirstFit(f[1..], len)
  }

  function Remove(f: seq<Span>, i: nat): (g: seq<Span>)
    requires i < |f|
    ensures |g| == |f| - 1
    ensures forall k :: 0 <= k < i ==> g[k] == f[k]
    ensures forall k, m :: i <= k < |g| && i < m < |f| && m == k + 1 ==> g[k] == f[m]
  {
    f[..i] + f[i + 1..]
  }

  function TakeAt(f: seq<Span>, i: nat, len: nat): seq<Span>
    requires i < |f| && len <= f[i].len
  {
    if f[i].len == len then Remove(f, i) else f[i := Span(f[i].at + len, f[i].len - len)]
  }

  /** orbis_jit_take: an address and the list without it, or None when nothing fits. */
  function Take(f: seq<Span>, len: nat): Option<(nat, seq<Span>)> {
    var i := FirstFit(f, len);
    if i < |f| then Some((f[i].at, TakeAt(f, i, len))) else None
  }

  /** The lowest span that is long enough is the one taken from, at its start; None when there is none. */
  lemma TakeIsFirstFit(f: seq<Span>, len: nat)
    ensures match Take(f, len)
            case None => forall s :: s in f ==> s.len < len
            case Some((at, _)) =>
              exists i :: 0 <= i < |f| && f[i].len >= len && at == f[i].at && forall k :: 0 <= k < i ==> f[k].len < len
  {
  }

  lemma TakeAtKeepsSpaced(f: seq<Span>, i: nat, len: nat)
    requires Spaced(f) && i < |f| && 0 < len <= f[i].len
    ensures Spaced(TakeAt(f, i, len))
  {
  }

  lemma RemoveTakesItsBytes(f: seq<Span>, i: nat, x: int)
    requires Spaced(f) && i < |f|
    ensures InSome(Remove(f, i), x) <==> InSome(f, x) && !f[i].Has(x)
  {
    hide Remove;
    var g := Remove(f, i);
    if InSome(g, x) {
      var k :| 0 <= k < |g| && g[k].Has(x);
      var j := if k < i then k else k + 1;
      assert f[j] == g[k];
    }
    if InSome(f, x) && !f[i].Has(x) {
      var j :| 0 <= j < |f| && f[j].Has(x);
      var k := if j < i then j else j - 1;
      assert g[k] == f[j];
    }
  }

  lemma ShrinkTakesItsBytes(f: seq<Span>, i: nat, len: nat, x: int)
    requires Spaced(f) && i < |f| && 0 < len < f[i].len
    ensures InSome(f[i := Span(f[i].at + len, f[i].len - len)], x) <==> InSome(f, x) && !Span(f[i].at, len).Has(x)
  {
    var g := f[i := Span(f[i].at + len, f[i].len - len)];
    if InSome(g, x) {
      var k :| 0 <= k < |g| && g[k].Has(x);
      assert f[k].Has(x);
    }
    if InSome(f, x) && !Span(f[i].at, len).Has(x) {
      var k :| 0 <= k < |f| && f[k].Has(x);
      assert g[k].Has(x);
    }
  }

  /** Exactly the taken bytes leave the list. */
  lemma TakeAtTakesItsBytes(f: seq<Span>, i: nat, len: nat, x: int)
    requires Spaced(f) && i < |f| && 0 < len <= f[i].len
    ensures InSome(TakeAt(f, i, len), x) <==> InSome(f, x) && !Span(f[i].at, len).Has(x)
  {
    hide Remove, Spaced, InSome;
    if f[i].len == len {
      RemoveTakesItsBytes(f, i, x);
    } else {
      ShrinkTakesItsBytes(f, i, len, x);
    }
  }

  // ------------------------------------------------------------------------- give

  /** The first span at or past the address. */
  function Place(f: seq<Span>, at: nat): (i: nat)
    ensures i <= |f| && (i < |f| ==> f[i].at >= at)
    ensures forall k :: 0 <= k < i ==> f[k].at < at
  {
    if f == [] then 0 else if f[0].at >= at then 0 else 1 + Place(f[1..], at)
  }

  lemma PlaceIs(f: seq<Span>, at: nat, i: nat)
    requires i <= |f| && (forall k :: 0 <= k < i ==> f[k].at < at) && (i < |f| ==> f[i].at >= at)
    ensures Place(f, at) == i
  {
  }

  function Insert(f: seq<Span>, i: nat, s: Span): (g: seq<Span>)
    requires i <= |f|
    ensures |g| == |f| + 1 && g[i] == s
    ensures forall k :: 0 <= k < i ==> g[k] == f[k]
    ensures forall k, m :: i < k < |g| && i <= m < |f| && k == m + 1 ==> g[k] == f[m]
  {
    f[..i] + [s] + f[i..]
  }

  /** Span i swallows its successor. */
  function Merge(f: seq<Span>, i: nat): (g: seq<Span>)
    requires i + 1 < |f|
    ensures |g| == |f| - 1 && g[i] == Span(f[i].at, f[i].len + f[i + 1].len)
    ensures forall k :: 0 <= k < i ==> g[k] == f[k]
    ensures forall k, m :: i < k < |g| && i + 1 < m < |f| && m == k + 1 ==> g[k] == f[m]
  {
    f[..i] + [Span(f[i].at, f[i].len + f[i + 1].len)] + f[i + 2..]
  }

  function MergeNext(f: seq<Span>, i: nat): seq<Span> {
    if i + 1 < |f| && f[i].End() == f[i + 1].at then Merge(f, i) else f
  }

  function MergePrevious(f: seq<Span>, i: nat): seq<Span>
    requires i < |f|
  {
    if i > 0 && f[i - 1].End() == f[i].at then Merge(f, i - 1) else f
  }

  /** orbis_jit_give. A list that is full takes nothing: the block leaks. */
  function Give(f: seq<Span>, s: Span): seq<Span> {
    if |f| >= MAX_SPANS then f
    else
      var i := Place(f, s.at);
      MergePrevious(MergeNext(Insert(f, i, s), i), i)
  }

  /** Sorted and disjoint, and touching at most on the two sides of span i. */
  ghost predicate SpacedBut(f: seq<Span>, a: int, b: int) {
    && (forall k :: 0 <= k < |f| ==> f[k].len > 0)
    && (forall k, m :: 0 <= k < m < |f| ==> f[k].at + f[k].len <= f[m].at)
    && forall k, m :: 0 <= k < |f| && 0 <= m < |f| && m == k + 1 && k != a && k != b ==> f[k].at + f[k].len < f[m].at
  }

  lemma SpacedButNothing(f: seq<Span>)
    requires SpacedBut(f, -1, -1)
    ensures Spaced(f)
  {
    forall i, j | 0 <= i < j < |f| ensures f[i].at + f[i].len < f[j].at {
      var n := i + 1;
      assert f[i].at + f[i].len < f[n].at;
    }
  }

  lemma InsertOrders(f: seq<Span>, i: nat, s: Span)
    requires Spaced(f) && i == Place(f, s.at) && s.len > 0 && forall k :: 0 <= k < |f| ==> !f[k].Overlaps(s)
    ensures var g := Insert(f, i, s);
            forall k, m :: 0 <= k < m < |g| ==> g[k].at + g[k].len <= g[m].at
  {
  }

  lemma InsertSpaces(f: seq<Span>, s: Span)
    requires Spaced(f) && s.len > 0 && forall k :: 0 <= k < |f| ==> !f[k].Overlaps(s)
    ensures var i := Place(f, s.at); SpacedBut(Insert(f, i, s), i - 1, i)
  {
    hide Insert, Spaced, Place;
    var i := Place(f, s.at);
    InsertIsPositive(f, i, s);
    InsertOrders(f, i, s);
    InsertKeepsGaps(f, i, s);
  }

  lemma InsertIsPositive(f: seq<Span>, i: nat, s: Span)
    requires Spaced(f) && i <= |f| && s.len > 0
    ensures var g := Insert(f, i, s); forall k :: 0 <= k < |g| ==> g[k].len > 0
  {
  }

  lemma InsertKeepsGaps(f: seq<Span>, i: nat, s: Span)
    requires Spaced(f) && i <= |f|
    ensures var g := Insert(f, i, s);
            forall k, m :: 0 <= k < |g| && 0 <= m < |g| && m == k + 1 && k != i - 1 && k != i
              ==> g[k].at + g[k].len < g[m].at
  {
  }

  lemma MergeSpaces(f: seq<Span>, i: nat, a: int)
    requires SpacedBut(f, a, i) && a < i && i + 1 < |f| && f[i].End() == f[i + 1].at
    ensures SpacedBut(Merge(f, i), a, a)
  {
    hide Merge;
    var g := Merge(f, i);
    forall k, m | 0 <= k < m < |g| ensures g[k].len > 0 && g[m].len > 0 && g[k].at + g[k].len <= g[m].at {
      assert k > i ==> g[k] == f[k + 1];
      assert m > i ==> g[m] == f[m + 1];
    }
    forall k, m | 0 <= k < |g| && 0 <= m < |g| && m == k + 1 && k != a ensures g[k].at + g[k].len < g[m].at {
      assert k > i ==> g[k] == f[k + 1];
      assert m > i ==> g[m] == f[m + 1];
    }
    assert g[0].len > 0;
  }

  lemma GiveKeepsSpaced(f: seq<Span>, s: Span)
    requires Spaced(f) && s.len > 0 && forall k :: 0 <= k < |f| ==> !f[k].Overlaps(s)
    ensures Spaced(Give(f, s))
  {
    hide Insert, Merge, Spaced, SpacedBut;
    if |f| < MAX_SPANS {
      var i := Place(f, s.at);
      var g := Insert(f, i, s);
      InsertSpaces(f, s);
      if i + 1 < |g| && g[i].End() == g[i + 1].at {
        MergeSpaces(g, i, i - 1);
      } else {
        ApartAt(g, i - 1, i);
      }
      var h := MergeNext(g, i);
      if i > 0 && h[i - 1].End() == h[i].at {
        SpacedButEither(h, i - 1);
        MergeSpaces(h, i - 1, -1);
      } else {
        ApartAt(h, -1, i - 1);
      }
      SpacedButNothing(MergePrevious(h, i));
    }
  }

  /** A pair that does not touch needs no exception. */
  lemma ApartAt(f: seq<Span>, a: int, b: int)
    requires SpacedBut(f, a, b) || (a == -1 && SpacedBut(f, b, b))
    requires 0 <= b && b + 1 < |f| ==> f[b].End() != f[b + 1].at
    ensures SpacedBut(f, a, a)
  {
  }

  lemma SpacedButEither(f: seq<Span>, a: int)
    requires SpacedBut(f, a, a)
    ensures SpacedBut(f, -1, a)
  {
  }

  lemma MergeKeepsBytes(f: seq<Span>, i: nat, x: int)
    requires i + 1 < |f| && f[i].End() == f[i + 1].at
    ensures InSome(Merge(f, i), x) <==> InSome(f, x)
  {
    hide Merge;
    var g := Merge(f, i);
    if InSome(g, x) {
      var k :| 0 <= k < |g| && g[k].Has(x);
      if k == i {
        assert f[i].Has(x) || f[i + 1].Has(x);
      } else {
        var m := if k < i then k else k + 1;
        assert f[m] == g[k];
      }
    }
    if InSome(f, x) {
      var k :| 0 <= k < |f| && f[k].Has(x);
      var m := if k <= i then k else k - 1;
      assert g[m] == f[k] || m == i;
      assert g[m].Has(x);
    }
  }

  /** Exactly the given bytes join the list, unless it is full. */
  lemma GiveAddsItsBytes(f: seq<Span>, s: Span, x: int)
    ensures InSome(Give(f, s), x) <==> InSome(f, x) || (|f| < MAX_SPANS && s.Has(x))
  {
    hide Insert, Merge, InSome;
    if |f| < MAX_SPANS {
      var i := Place(f, s.at);
      var g := Insert(f, i, s);
      InsertAddsItsBytes(f, i, s, x);
      if i + 1 < |g| && g[i].End() == g[i + 1].at {
        MergeKeepsBytes(g, i, x);
      }
      var h := MergeNext(g, i);
      if i > 0 && h[i - 1].End() == h[i].at {
        MergeKeepsBytes(h, i - 1, x);
      }
    }
  }

  lemma InsertAddsItsBytes(f: seq<Span>, i: nat, s: Span, x: int)
    requires i <= |f|
    ensures InSome(Insert(f, i, s), x) <==> InSome(f, x) || s.Has(x)
  {
    hide Insert;
    var g := Insert(f, i, s);
    if InSome(g, x) && !s.Has(x) {
      var k :| 0 <= k < |g| && g[k].Has(x);
      var m := if k < i then k else k - 1;
      assert f[m] == g[k];
    }
    if InSome(f, x) {
      var m :| 0 <= m < |f| && f[m].Has(x);
      var k := if m < i then m else m + 1;
      assert g[k] == f[m];
    }
    assert g[i] == s;
  }

  // ------------------------------------------------------------------------- the two together

  /** Giving back what was just taken restores the list exactly when the block was a whole span or a
      slot is free for it; otherwise the block leaks. */
  lemma GiveUndoesTake(f: seq<Span>, i: nat, len: nat)
    requires Spaced(f) && |f| <= MAX_SPANS && i < |f| && 0 < len <= f[i].len
    ensures Give(TakeAt(f, i, len), Span(f[i].at, len)) == f <==> f[i].len == len || |f| < MAX_SPANS
  {
    hide Remove, Insert, Merge;
    if f[i].len == len {
      GiveUndoesRemove(f, i);
    } else if |f| < MAX_SPANS {
      GiveUndoesShrink(f, i, len);
    } else {
      assert TakeAt(f, i, len)[i] != f[i];
    }
  }

  lemma GiveUndoesRemove(f: seq<Span>, i: nat)
    requires Spaced(f) && |f| <= MAX_SPANS && i < |f|
    ensures Give(Remove(f, i), f[i]) == f
  {
    var g := Remove(f, i);
    assert i < |g| ==> g[i] == f[i + 1];
    PlaceIs(g, f[i].at, i);
    assert Insert(g, i, f[i]) == f;
  }

  lemma GiveUndoesShrink(f: seq<Span>, i: nat, len: nat)
    requires Spaced(f) && |f| < MAX_SPANS && i < |f| && 0 < len < f[i].len
    ensures Give(f[i := Span(f[i].at + len, f[i].len - len)], Span(f[i].at, len)) == f
  {
    var g := f[i := Span(f[i].at + len, f[i].len - len)];
    PlaceIs(g, f[i].at, i);
    var h := Insert(g, i, Span(f[i].at, len));
    assert h[i + 1] == g[i];
    assert Merge(h, i) == f;
  }

  lemma EndIsOutside(f: seq<Span>, i: nat)
    requires Spaced(f) && i < |f|
    ensures !InSome(f, f[i].End())
  {
  }

  /** A list that contains every byte of [base, base + size) and none outside is one span. */
  lemma FullListIsOneSpan(f: seq<Span>, base: nat, size: nat)
    requires Spaced(f) && size > 0
    requires forall x :: InSome(f, x) <==> base <= x < base + size
    ensures f == [Span(base, size)]
  {
    assert InSome(f, base);
    var i :| 0 <= i < |f| && f[i].Has(base);
    EndIsOutside(f, i);
    assert f[i].Has(f[i].at) && InSome(f, f[i].at);
    assert f[i].Has(f[i].End() - 1) && InSome(f, f[i].End() - 1);
    assert f[i] == Span(base, size);
    if |f| > 1 {
      var k := if i == 0 then 1 else 0;
      assert f[k].Has(f[k].at) && InSome(f, f[k].at);
    }
  }
}
