/**
 One carve-out of src/orbis_mmap.cpp as the source keeps it: a fixed table of 1536 blocks, of which
 the first n are in use, shifted in place by every split and merge.
 */
module CarveOut {
  import opened Wrappers
  import opened Blocks
  import opened Memmove

  /** The binary search ends where a scan would. */
  lemma SearchLocates(s: seq<Block>, off: nat, i: nat)
    requires i <= |s| && (forall k :: 0 <= k < i ==> s[k].off < off) && (i < |s| ==> s[i].off >= off)
    ensures Locate(s, off, 0) == i
  {
  }

  lemma ScanFinds(s: seq<Block>, len: nat, i: nat)
    requires i <= |s| && (forall k :: 0 <= k < i ==> !Fits(s, k, len)) && (i < |s| ==> Fits(s, i, len))
    ensures FirstFit(s, len, 0) == i
  {
  }

  lemma OffsetsSorted(s: seq<Block>, size: nat)
    requires Tiles(s, size)
    ensures forall i, j :: 0 <= i < j < |s| ==> s[i].off < s[j].off
  {
    forall i, j | 0 <= i < j < |s| ensures s[i].off < s[j].off {
      OffsetsIncrease(s, size, i, j);
      assert WellSized(s[i]);
    }
  }

  class Carve {
    const va: nat
    const phys: nat
    const size: nat
    var n: nat
    const blk: array<Block>

    ghost predicate Valid()
      reads this, blk
    {
      blk.Length == MAX_BLOCKS && n <= MAX_BLOCKS && ValidList(blk[..n], size)
    }

    function List(): seq<Block>
      requires n <= blk.Length
      reads this, blk
    {
      blk[..n]
    }

    /** A fresh carve-out is one free block. */
    constructor (va: nat, phys: nat, size: nat)
      requires size > 0 && size % PAGE == 0
      ensures Valid() && fresh(blk) && n <= blk.Length && List() == [Block(0, size, false)]
      ensures this.va == va && this.phys == phys && this.size == size
    {
      this.va := va;
      this.phys := phys;
      this.size := size;
      n := 1;
      blk := new Block[MAX_BLOCKS](_ => Block(0, size, false));
    }

    /** allocInLocked */
    method AllocIn(len: nat) returns (out: Option<nat>)
      requires Valid() && len > 0 && len % PAGE == 0
      modifies this`n, blk
      ensures Valid()
      ensures match Alloc(old(List()), len)
              case None => out == None && List() == old(List())
              case Some((off, list)) => out == Some(va + off) && List() == list
    {
      hide Split, Tiles, Coalesced, FirstFit;
      ghost var was := List();
      var i := 0;
      while i < n
        invariant i <= n && List() == was && Valid()
        invariant forall k :: 0 <= k < i ==> !Fits(was, k, len)
        decreases n - i
      {
        var b := blk[i];
        assert b == was[i];
        if b.used || b.size < len || (b.size != len && n >= MAX_BLOCKS) {
          i := i + 1;
          continue;
        }
        ScanFinds(was, len, i);
        TakeKeepsValid(was, size, i, len);
        if b.size == len {
          blk[i] := b.(used := true);
          assert List() == Take(was, i, len);
        } else {
          SplitAt(i, len);
        }
        return Some(va + b.off);
      }
      ScanFinds(was, len, n);
      return None;
    }

    /** The split inside allocInLocked: the tail becomes a free block of its own. */
    method SplitAt(i: nat, len: nat)
      requires blk.Length == MAX_BLOCKS && i < n < MAX_BLOCKS && len < blk[i].size
      modifies this`n, blk
      ensures n == old(n) + 1 && List() == Split(old(List()), i, len)
    {
      var b := blk[i];
      Move(blk, i + 2, i + 1, n - i - 1);
      blk[i + 1] := Block(b.off + len, b.size - len, false);
      blk[i] := Block(b.off, len, true);
      n := n + 1;
    }

    /** The binary search inside freeInLocked. */
    method Search(off: nat) returns (lo: nat)
      requires Valid()
      ensures lo == Locate(List(), off, 0)
    {
      ghost var s := List();
      OffsetsSorted(s, size);
      var hi := n;
      lo := 0;
      while lo < hi
        invariant lo <= hi <= n
        invariant forall k :: 0 <= k < lo ==> s[k].off < off
        invariant forall k :: hi <= k < n ==> s[k].off >= off
      {
        var m := (lo + hi) / 2;
        assert blk[m] == s[m];
        if blk[m].off < off {
          lo := m + 1;
        } else {
          hi := m;
        }
      }
      SearchLocates(s, off, lo);
    }

    /** One coalescing step: block i swallows its successor. */
    method MergeAt(i: nat)
      requires blk.Length == MAX_BLOCKS && i + 1 < n <= MAX_BLOCKS
      modifies this`n, blk
      ensures n == old(n) - 1 && List() == Merge(old(List()), i)
    {
      blk[i] := blk[i].(size := blk[i].size + blk[i + 1].size);
      Move(blk, i + 1, i + 2, n - i - 2);
      n := n - 1;
    }

    /** The two coalescing steps of freeInLocked, forward first so that lo stays put. */
    method Coalesce(lo: nat)
      requires blk.Length == MAX_BLOCKS && lo < n <= MAX_BLOCKS
      modifies this`n, blk
      ensures n <= MAX_BLOCKS && List() == MergePrevious(MergeNext(old(List()), lo), lo)
    {
      hide Merge;
      if lo + 1 < n && !blk[lo + 1].used {
        MergeAt(lo);
      }
      if lo > 0 && !blk[lo - 1].used {
        MergeAt(lo - 1);
      }
    }

    /** freeInLocked. The address lies inside the carve-out. */
    method FreeIn(p: nat, len: nat) returns (ok: bool)
      requires Valid() && p >= va
      modifies this`n, blk
      ensures Valid()
      ensures match Free(old(List()), p - va, len)
              case None => !ok && List() == old(List())
              case Some(list) => ok && List() == list
    {
      hide Tiles, Coalesced, Merge, MergeNext, MergePrevious;
      var off := p - va;
      var lo := Search(off);
      if lo >= n || blk[lo].off != off || !blk[lo].used || blk[lo].size != len {
        return false;
      }
      GiveKeepsValid(List(), size, lo);
      Unmark(lo);
      Coalesce(lo);
      return true;
    }

    method Unmark(i: nat)
      requires i < n <= blk.Length
      modifies blk
      ensures List() == old(List())[i := old(blk[i]).(used := false)]
    {
      blk[i] := blk[i].(used := false);
    }
  }
}
