/**
 The block list of one carve-out of src/orbis_mmap.cpp, as a value: first-fit allocation, exact-match
 free with coalescing on both sides, and what the two keep.
 */
module Blocks {
  import opened Wrappers

  const PAGE: nat := 0x4000
  const MAX_BLOCKS: nat := 1536

  datatype Block = Block(off: nat, size: nat, used: bool)

  /** A mapping inside one carve-out: an offset and a length. */
  datatype Extent = Extent(off: nat, size: nat) {
    ghost predicate Overlaps(other: Extent) {
      off < other.off + other.size && other.off < off + size
    }
  }

  // ------------------------------------------------------------------------- the shape

  ghost predicate WellSized(b: Block) {
    b.size > 0 && b.size % PAGE == 0 && b.off % PAGE == 0
  }

  /** The blocks tile [0, size): whole pages, in order, without a gap. */
  ghost predicate Tiles(s: seq<Block>, size: nat) {
    && |s| >= 1
    && (forall i :: 0 <= i < |s| ==> WellSized(s[i]))
    && s[0].off == 0 && s[|s| - 1].off + s[|s| - 1].size == size
    && forall i, j :: 0 <= i < |s| && 0 <= j < |s| && j == i + 1 ==> s[j].off == s[i].off + s[i].size
  }

  /** No two neighbours are free: everything that could be merged has been. */
  ghost predicate Coalesced(s: seq<Block>) {
    forall i, j :: 0 <= i < |s| && 0 <= j < |s| && j == i + 1 ==> s[i].used || s[j].used
  }

  ghost predicate ValidList(s: seq<Block>, size: nat) {
    Tiles(s, size) && Coalesced(s) && |s| <= MAX_BLOCKS
  }

  /** The live mappings a block list describes. */
  ghost function Live(s: seq<Block>): set<Extent> {
    set i | 0 <= i < |s| && s[i].used :: Extent(s[i].off, s[i].size)
  }

  lemma {:induction false} OffsetsIncrease(s: seq<Block>, size: nat, i: nat, j: nat)
    requires Tiles(s, size) && i < j < |s|
    ensures s[i].off + s[i].size <= s[j].off
    ensures s[j].off + s[j].size <= size
    decreases |s| - i
  {
    if j < |s| - 1 {
      OffsetsIncrease(s, size, j, |s| - 1);
    }
    if i + 1 < j {
      OffsetsIncrease(s, size, i + 1, j);
    }
  }

  /** Live mappings never overlap. */
  lemma LiveNeverOverlap(s: seq<Block>, size: nat, a: Extent, b: Extent)
    requires Tiles(s, size) && a in Live(s) && b in Live(s) && a != b
    ensures !a.Overlaps(b)
  {
    var i :| 0 <= i < |s| && s[i].used && a == Extent(s[i].off, s[i].size);
    var j :| 0 <= j < |s| && s[j].used && b == Extent(s[j].off, s[j].size);
    if i < j {
      OffsetsIncrease(s, size, i, j);
    } else if j < i {
      OffsetsIncrease(s, size, j, i);
    }
  }

  lemma LiveIsInside(s: seq<Block>, size: nat, a: Extent)
    requires Tiles(s, size) && a in Live(s)
    ensures a.size > 0 && a.off + a.size <= size
  {
    var i :| 0 <= i < |s| && s[i].used && a == Extent(s[i].off, s[i].size);
    if i < |s| - 1 {
      OffsetsIncrease(s, size, i, |s| - 1);
    }
  }

  // ------------------------------------------------------------------------- allocation

  predicate Fits(s: seq<Block>, i: nat, len: nat)
    requires i < |s|
  {
    !s[i].used && (s[i].size == len || (s[i].size > len && |s| < MAX_BLOCKS))
  }

  /** The first block that can serve len, or the length of the list. */
  function FirstFit(s: seq<Block>, len: nat, from: nat): (i: nat)
    requires from <= |s|
    ensures from <= i <= |s| && (i < |s| ==> Fits(s, i, len))
    ensures forall k :: from <= k < i ==> !Fits(s, k, len)
    decreases |s| - from
  {
    if from == |s| || Fits(s, from, len) then from else FirstFit(s, len, from + 1)
  }

  function Split(s: seq<Block>, i: nat, len: nat): (t: seq<Block>)
    requires i < |s| && len < s[i].size
    ensures |t| == |s| + 1 && t[..i] == s[..i] && t[i + 2..] == s[i + 1..]
    ensures t[i] == Block(s[i].off, len, true) && t[i + 1] == Block(s[i].off + len, s[i].size - len, false)
    ensures forall k :: 0 <= k < i ==> t[k] == s[k]
    ensures forall j, k :: i < j < |s| && i + 2 <= k < |t| && k == j + 1 ==> t[k] == s[j]
  {
    s[..i] + [Block(s[i].off, len, true), Block(s[i].off + len, s[i].size - len, false)] + s[i + 1..]
  }

  function Take(s: seq<Block>, i: nat, len: nat): seq<Block>
    requires i < |s| && len <= s[i].size
  {
    if s[i].size == len then s[i := s[i].(used := true)] else Split(s, i, len)
  }

  /** The offset served and the new list, or None when no block fits. */
  function Alloc(s: seq<Block>, len: nat): Option<(nat, seq<Block>)> {
    var i := FirstFit(s, len, 0);
    if i < |s| then Some((s[i].off, Take(s, i, len))) else None
  }

  /** A block that can serve len in a list of n blocks: free, and just right or, with a slot left, longer. */
  predicate CanServe(b: Block, n: nat, len: nat) {
    !b.used && (b.size == len || (b.size > len && n < 1536))
  }

  /** The lowest block that can serve is the one served; None when there is none. */
  lemma AllocIsFirstFit(s: seq<Block>, len: nat)
    ensures match Alloc(s, len)
            case None => forall b :: b in s ==> !CanServe(b, |s|, len)
            case Some((off, _)) =>
              exists i :: 0 <= i < |s| && CanServe(s[i], |s|, len) && off == s[i].off
                          && forall k :: 0 <= k < i ==> !CanServe(s[k], |s|, len)
  {
    assert forall k :: 0 <= k < |s| ==> (Fits(s, k, len) <==> CanServe(s[k], |s|, len));
  }

  lemma SplitKeepsTiles(s: seq<Block>, size: nat, i: nat, len: nat)
    requires Tiles(s, size) && i < |s| && 0 < len < s[i].size && len % PAGE == 0
    ensures Tiles(Split(s, i, len), size)
  {
    hide Split;
    var t := Split(s, i, len);
    assert WellSized(s[i]);
    forall k | 0 <= k < |t| ensures WellSized(t[k]) {
      if k > i + 1 {
        assert t[k] == s[k - 1];
      }
    }
    forall a, b | 0 <= a < |t| && 0 <= b < |t| && b == a + 1 ensures t[b].off == t[a].off + t[a].size {
      if a > i {
        assert t[b] == s[b - 1];
        assert a > i + 1 ==> t[a] == s[a - 1];
      }
    }
    assert i + 1 < |t| - 1 ==> t[|t| - 1] == s[|s| - 1];
  }

  lemma SplitKeepsCoalesced(s: seq<Block>, i: nat, len: nat)
    requires Coalesced(s) && i < |s| && len < s[i].size && !s[i].used
    ensures Coalesced(Split(s, i, len))
  {
    hide Split;
    var t := Split(s, i, len);
    forall a, b | 0 <= a < |t| && 0 <= b < |t| && b == a + 1 ensures t[a].used || t[b].used {
      if a > i {
        assert t[b] == s[b - 1];
        assert a > i + 1 ==> t[a] == s[a - 1];
      }
    }
  }

  lemma TakeKeepsValid(s: seq<Block>, size: nat, i: nat, len: nat)
    requires ValidList(s, size) && len > 0 && len % PAGE == 0
    requires i < |s| && Fits(s, i, len)
    ensures ValidList(Take(s, i, len), size)
  {
    if s[i].size != len {
      SplitKeepsTiles(s, size, i, len);
      SplitKeepsCoalesced(s, i, len);
    }
  }

  lemma TakeAddsOneMapping(s: seq<Block>, size: nat, i: nat, len: nat)
    requires ValidList(s, size) && len > 0 && len % PAGE == 0
    requires i < |s| && Fits(s, i, len)
    ensures Live(Take(s, i, len)) == Live(s) + {Extent(s[i].off, len)}
  {
    var t := Take(s, i, len);
    var e := Extent(s[i].off, len);
    forall x | x in Live(t) ensures x in Live(s) + {e} {
      var k :| 0 <= k < |t| && t[k].used && x == Extent(t[k].off, t[k].size);
      if |t| > |s| && k > i {
        assert t[k] == s[k - 1];
      }
    }
    forall x | x in Live(s) + {e} ensures x in Live(t) {
      if x == e {
        assert t[i].used;
      } else {
        var k :| 0 <= k < |s| && s[k].used && x == Extent(s[k].off, s[k].size);
        assert t[if |t| > |s| && k > i then k + 1 else k] == s[k];
      }
    }
  }

  lemma FreshMapping(s: seq<Block>, size: nat, i: nat, len: nat, a: Extent)
    requires Tiles(s, size) && i < |s| && !s[i].used && len <= s[i].size && a in Live(s)
    ensures !a.Overlaps(Extent(s[i].off, len))
  {
    var j :| 0 <= j < |s| && s[j].used && a == Extent(s[j].off, s[j].size);
    if i < j {
      OffsetsIncrease(s, size, i, j);
    } else if j < i {
      OffsetsIncrease(s, size, j, i);
    }
  }

  // ------------------------------------------------------------------------- free

  /** Where the binary search ends: the first block at or past off. */
  function Locate(s: seq<Block>, off: nat, from: nat): (i: nat)
    requires from <= |s|
    ensures from <= i <= |s| && (i < |s| ==> s[i].off >= off)
    ensures forall k :: from <= k < i ==> s[k].off < off
    decreases |s| - from
  {
    if from == |s| || s[from].off >= off then from else Locate(s, off, from + 1)
  }

  predicate IsLiveAt(s: seq<Block>, i: nat, off: nat, len: nat) {
    i < |s| && s[i].off == off && s[i].used && s[i].size == len
  }

  /** Merges block i with its successor. */
  function Merge(s: seq<Block>, i: nat): (t: seq<Block>)
    requires i + 1 < |s|
    ensures |t| == |s| - 1 && t[i] == s[i].(size := s[i].size + s[i + 1].size)
    ensures forall k :: 0 <= k < i ==> t[k] == s[k]
    ensures forall j, k :: i + 1 < j < |s| && i < k < |t| && j == k + 1 ==> t[k] == s[j]
  {
    s[..i] + [s[i].(size := s[i].size + s[i + 1].size)] + s[i + 2..]
  }

  function MergeNext(s: seq<Block>, i: nat): seq<Block> {
    if i + 1 < |s| && !s[i + 1].used then Merge(s, i) else s
  }

  function MergePrevious(s: seq<Block>, i: nat): seq<Block>
    requires i < |s|
  {
    if i > 0 && !s[i - 1].used then Merge(s, i - 1) else s
  }

  function Give(s: seq<Block>, i: nat): seq<Block>
    requires i < |s|
  {
    MergePrevious(MergeNext(s[i := s[i].(used := false)], i), i)
  }

  /** The new list, or None when (off, len) is not exactly a live mapping. */
  function Free(s: seq<Block>, off: nat, len: nat): Option<seq<Block>> {
    var i := Locate(s, off, 0);
    if IsLiveAt(s, i, off, len) then Some(Give(s, i)) else None
  }

  /** Free succeeds on exactly the live mappings. */
  lemma FreeFindsExactlyTheLive(s: seq<Block>, size: nat, off: nat, len: nat)
    requires Tiles(s, size)
    ensures Free(s, off, len).Some? <==> Extent(off, len) in Live(s)
  {
    var i := Locate(s, off, 0);
    if Extent(off, len) in Live(s) {
      var j :| 0 <= j < |s| && s[j].used && Extent(off, len) == Extent(s[j].off, s[j].size);
      assert i <= j;
      if i < j {
        OffsetsIncrease(s, size, i, j);
      }
    }
  }

  /** Every pair of neighbours but possibly the one at i is coalesced. */
  ghost predicate CoalescedBut(s: seq<Block>, i: int, k: int) {
    forall a, b :: 0 <= a < |s| && 0 <= b < |s| && b == a + 1 && a != i && a != k ==> s[a].used || s[b].used
  }

  lemma MergeKeepsTiles(s: seq<Block>, size: nat, i: nat)
    requires Tiles(s, size) && i + 1 < |s|
    ensures Tiles(Merge(s, i), size)
  {
    hide Merge, WellSized;
    var t := Merge(s, i);
    JoinIsWellSized(s[i], s[i + 1]);
    forall a | 0 <= a < |t| ensures WellSized(t[a]) {
      assert a > i ==> t[a] == s[a + 1];
    }
    forall a, b | 0 <= a < |t| && 0 <= b < |t| && b == a + 1 ensures t[b].off == t[a].off + t[a].size {
      assert a > i ==> t[a] == s[a + 1];
      assert b > i ==> t[b] == s[b + 1];
    }
    assert |t| - 1 > i ==> t[|t| - 1] == s[|s| - 1];
  }

  lemma JoinIsWellSized(a: Block, b: Block)
    requires WellSized(a) && WellSized(b)
    ensures WellSized(a.(size := a.size + b.size))
  {
  }

  /** Merging two free blocks changes no live mapping. */
  lemma MergeKeepsLive(s: seq<Block>, i: nat)
    requires i + 1 < |s| && !s[i].used && !s[i + 1].used
    ensures Live(Merge(s, i)) == Live(s)
  {
    var t := Merge(s, i);
    forall x | x in Live(t) ensures x in Live(s) {
      var k :| 0 <= k < |t| && t[k].used && x == Extent(t[k].off, t[k].size);
      assert k > i ==> t[k] == s[k + 1];
    }
    forall x | x in Live(s) ensures x in Live(t) {
      var k :| 0 <= k < |s| && s[k].used && x == Extent(s[k].off, s[k].size);
      assert k != i && k != i + 1;
      assert t[if k > i then k - 1 else k] == s[k];
    }
  }

  /** Merging two free neighbours settles their own pair and moves the rest. */
  lemma MergeKeepsCoalesced(s: seq<Block>, i: nat, before: int)
    requires i + 1 < |s| && !s[i].used && !s[i + 1].used && before < i
    requires CoalescedBut(s, i, before)
    requires i + 2 < |s| ==> s[i + 2].used
    ensures CoalescedBut(Merge(s, i), before, before)
  {
    hide Merge;
    var t := Merge(s, i);
    forall a, b | 0 <= a < |t| && 0 <= b < |t| && b == a + 1 && a != before ensures t[a].used || t[b].used {
      if a >= i {
        assert t[b] == s[b + 1];
        assert a > i ==> t[a] == s[a + 1];
      }
    }
  }

  lemma GiveKeepsValid(s: seq<Block>, size: nat, i: nat)
    requires ValidList(s, size) && i < |s| && s[i].used
    ensures ValidList(Give(s, i), size)
  {
    hide Merge, Tiles;
    var s1 := s[i := s[i].(used := false)];
    UnmarkKeepsTiles(s, size, i);
    assert CoalescedBut(s1, i, i - 1);
    var s2 := MergeNext(s1, i);
    if i + 1 < |s1| && !s1[i + 1].used {
      MergeKeepsTiles(s1, size, i);
      MergeKeepsCoalesced(s1, i, i - 1);
    }
    assert CoalescedBut(s2, i - 1, i - 1);
    if i > 0 && !s2[i - 1].used {
      MergeKeepsTiles(s2, size, i - 1);
      MergeKeepsCoalesced(s2, i - 1, -1);
    }
  }

  lemma UnmarkKeepsTiles(s: seq<Block>, size: nat, i: nat)
    requires Tiles(s, size) && i < |s|
    ensures Tiles(s[i := s[i].(used := false)], size)
  {
  }

  lemma GiveRemovesOneMapping(s: seq<Block>, size: nat, i: nat)
    requires ValidList(s, size) && i < |s| && s[i].used
    ensures Live(Give(s, i)) == Live(s) - {Extent(s[i].off, s[i].size)}
  {
    var e := Extent(s[i].off, s[i].size);
    var s1 := s[i := s[i].(used := false)];
    assert Live(s1) == Live(s) - {e} by {
      forall x | x in Live(s1) ensures x in Live(s) - {e} {
        var k :| 0 <= k < |s1| && s1[k].used && x == Extent(s1[k].off, s1[k].size);
        assert s1[k] == s[k];
        if k < i {
          OffsetsIncrease(s, size, k, i);
        } else {
          OffsetsIncrease(s, size, i, k);
        }
      }
      forall x | x in Live(s) - {e} ensures x in Live(s1) {
        var k :| 0 <= k < |s| && s[k].used && x == Extent(s[k].off, s[k].size);
        assert s1[k] == s[k];
      }
    }
    var s2 := MergeNext(s1, i);
    if s2 != s1 {
      MergeKeepsLive(s1, i);
    }
    assert i < |s2| && !s2[i].used;
    if MergePrevious(s2, i) != s2 {
      MergeKeepsLive(s2, i - 1);
    }
  }

  /** Freeing what was just allocated restores the list block for block. */
  lemma FreeUndoesAlloc(s: seq<Block>, size: nat, len: nat)
    requires ValidList(s, size) && len > 0 && len % PAGE == 0 && Alloc(s, len).Some?
    ensures Free(Alloc(s, len).value.1, Alloc(s, len).value.0, len) == Some(s)
  {
    var i := FirstFit(s, len, 0);
    var t := Take(s, i, len);
    TakeKeepsValid(s, size, i, len);
    LocateIs(t, size, i);
    GiveUndoesTake(s, i, len);
  }

  lemma GiveUndoesTake(s: seq<Block>, i: nat, len: nat)
    requires Coalesced(s) && i < |s| && !s[i].used && 0 < len <= s[i].size
    ensures Give(Take(s, i, len), i) == s
  {
    var t1 := Take(s, i, len)[i := Block(s[i].off, len, false)];
    if s[i].size == len {
      assert t1 == s;
    } else {
      assert t1[..i] == s[..i] && t1[i + 2..] == s[i + 1..];
      assert Merge(t1, i) == s;
    }
    assert MergeNext(t1, i) == s;
  }

  lemma LocateIs(s: seq<Block>, size: nat, i: nat)
    requires Tiles(s, size) && i < |s|
    ensures Locate(s, s[i].off, 0) == i
  {
    var k := Locate(s, s[i].off, 0);
    assert k <= i;
    if k < i {
      OffsetsIncrease(s, size, k, i);
    }
  }
}
