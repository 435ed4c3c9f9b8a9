/**
 How much a carve-out's block list can hold: live bytes, and the bound on the number of blocks that
 keeps the fixed table of src/orbis_mmap.cpp from filling up.
 */
module BlockCounts {
  import opened Wrappers
  import opened Blocks

  function UsedBytes(s: seq<Block>): nat {
    if s == [] then 0 else UsedBytes(s[..|s| - 1]) + if s[|s| - 1].used then s[|s| - 1].size else 0
  }

  function UsedCount(s: seq<Block>): nat {
    if s == [] then 0 else UsedCount(s[..|s| - 1]) + if s[|s| - 1].used then 1 else 0
  }

  // ------------------------------------------------------------------------- live bytes

  lemma {:induction false} UsedBytesOfConcat(a: seq<Block>, b: seq<Block>)
    ensures UsedBytes(a + b) == UsedBytes(a) + UsedBytes(b)
  {
    if b == [] {
      assert a + b == a;
    } else {
      UsedBytesOfConcat(a, b[..|b| - 1]);
      assert (a + b)[..|a + b| - 1] == a + b[..|b| - 1];
    }
  }

  function Bytes(b: Block): nat {
    if b.used then b.size else 0
  }

  lemma UsedBytesAt(s: seq<Block>, i: nat)
    requires i < |s|
    ensures UsedBytes(s) == UsedBytes(s[..i]) + Bytes(s[i]) + UsedBytes(s[i + 1..])
  {
    assert s == s[..i] + [s[i]] + s[i + 1..];
    UsedBytesOfConcat(s[..i] + [s[i]], s[i + 1..]);
    UsedBytesOfConcat(s[..i], [s[i]]);
  }

  lemma UsedBytesUpdate(s: seq<Block>, i: nat, b: Block)
    requires i < |s|
    ensures UsedBytes(s[i := b]) == UsedBytes(s) - Bytes(s[i]) + Bytes(b)
  {
    var t := s[i := b];
    UsedBytesAt(s, i);
    UsedBytesAt(t, i);
    assert t[..i] == s[..i] && t[i + 1..] == s[i + 1..];
  }

  lemma TakeAddsBytes(s: seq<Block>, i: nat, len: nat)
    requires i < |s| && !s[i].used && len <= s[i].size
    ensures UsedBytes(Take(s, i, len)) == UsedBytes(s) + len
  {
    if s[i].size == len {
      UsedBytesUpdate(s, i, s[i].(used := true));
    } else {
      var t := Take(s, i, len);
      UsedBytesAt(s, i);
      UsedBytesAt(t, i);
      UsedBytesAt(t[i + 1..], 0);
      assert t[..i] == s[..i] && t[i + 1..][1..] == s[i + 1..];
    }
  }

  lemma MergeKeepsBytes(s: seq<Block>, i: nat)
    requires i + 1 < |s| && !s[i].used && !s[i + 1].used
    ensures UsedBytes(Merge(s, i)) == UsedBytes(s)
  {
    var t := Merge(s, i);
    UsedBytesAt(s, i);
    UsedBytesAt(s[i + 1..], 0);
    UsedBytesAt(t, i);
    assert t[..i] == s[..i] && t[i + 1..] == s[i + 1..][1..];
  }

  lemma GiveTakesBytes(s: seq<Block>, i: nat)
    requires i < |s| && s[i].used
    ensures UsedBytes(Give(s, i)) == UsedBytes(s) - s[i].size
  {
    hide Merge, UsedBytes;
    var s1 := s[i := s[i].(used := false)];
    UsedBytesUpdate(s, i, s1[i]);
    if i + 1 < |s1| && !s1[i + 1].used {
      MergeKeepsBytes(s1, i);
    }
    var s2 := MergeNext(s1, i);
    if i > 0 && !s2[i - 1].used {
      MergeKeepsBytes(s2, i - 1);
    }
  }

  // ------------------------------------------------------------------------- the table never fills

  /** At most one free block in front of each live one, and one at the end. */
  lemma {:induction false} TwiceLivePlusOne(s: seq<Block>)
    requires Coalesced(s)
    ensures |s| <= 2 * UsedCount(s) + 1
    ensures s == [] || s[|s| - 1].used ==> |s| <= 2 * UsedCount(s)
  {
    if s != [] {
      TwiceLivePlusOne(s[..|s| - 1]);
    }
  }

  lemma {:induction false} UsedBytesFit(s: seq<Block>, size: nat, n: nat)
    requires Tiles(s, size) && 1 <= n <= |s|
    ensures UsedBytes(s[..n]) <= s[n - 1].off + s[n - 1].size
  {
    assert s[..n][..n - 1] == s[..n - 1];
    if n == 1 {
      assert UsedBytes(s[..0]) == 0;
    } else {
      UsedBytesFit(s, size, n - 1);
      assert s[n - 1].off == s[n - 2].off + s[n - 2].size;
    }
  }

  ghost predicate LiveAtLeast(s: seq<Block>, least: nat) {
    forall i :: 0 <= i < |s| && s[i].used ==> s[i].size >= least
  }

  lemma {:induction false} CountTimesLeast(s: seq<Block>, least: nat)
    requires LiveAtLeast(s, least)
    ensures UsedCount(s) * least <= UsedBytes(s)
  {
    if s != [] {
      CountTimesLeast(s[..|s| - 1], least);
    }
  }

  const CARVE_BYTES: nat := 128 * 1024 * 1024

  /** The smallest mapping musl asks for. */
  const LEAST_MAPPING: nat := 240 * 1024

  /** A full-size carve-out whose mappings are all at least 240 KiB has at most 546 of them and at
      most 1093 blocks, so a block is refused only for being too small. */
  lemma RefusedOnlyForSize(s: seq<Block>, size: nat, len: nat)
    requires ValidList(s, size) && size <= CARVE_BYTES && LiveAtLeast(s, LEAST_MAPPING)
    ensures UsedCount(s) <= 546 && |s| <= 1093
    ensures Alloc(s, len) == None <==> forall i :: 0 <= i < |s| && !s[i].used ==> s[i].size < len
  {
    TwiceLivePlusOne(s);
    UsedBytesFit(s, size, |s|);
    assert s[..|s|] == s;
    CountTimesLeast(s, LEAST_MAPPING);
    assert |s| < MAX_BLOCKS;
    forall i | 0 <= i < |s| ensures Fits(s, i, len) <==> !s[i].used && s[i].size >= len {
    }
  }
}
