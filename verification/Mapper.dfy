/**
 The mapper of src/orbis_mmap.cpp in place: the table of carve-outs, the byte counters, and the memory
 behind them. Every method moves the table as the function of the same name says. The block list of
 an entry is a value here; CarveOut.Carve does the same operations on the source's fixed table.
 */
module Mapper {
  import opened Wrappers
  import opened Blocks
  import opened MapperSpec
  import opened MapperProofs
  import opened MapperRuns

  class Mapper {
    var carves: seq<CarveV>
    var heldBytes: nat
    var liveBytes: nat
    var kernel: Kernel
    var bytes: int -> int

    ghost function View(): State
      reads this
    {
      State(carves, heldBytes, liveBytes, kernel, bytes)
    }

    ghost predicate Valid()
      reads this
    {
      MapperSpec.Valid(View())
    }

    constructor (bytes: int -> int)
      ensures Valid() && Initial(View()) && View().bytes == bytes
    {
      carves, heldBytes, liveBytes, kernel := [], 0, 0, Kernel({}, {});
      this.bytes := bytes;
    }

    /** addCarveLocked, with the two kernel calls answered by ans. */
    method AddCarveLocked(need: nat, ans: Answer) returns (ok: bool)
      requires Valid() && 0 < need < WORD && need % PAGE == 0 && Honest(kernel, CarveLength(need), ans)
      modifies this
      ensures Valid() && (ok, View()) == AddCarve(old(View()), need, ans)
      ensures ok ==> |carves| == |old(carves)| + 1
    {
      hide MapperSpec.Valid, Honest, CarveLength, TakeFromKernel;
      AddCarveKeepsValid(View(), need, ans);
      TakeConserves(kernel, CarveLength(need), ans);
      if |carves| >= MAX_CARVES {
        return false;
      }
      var len := CarveLength(need);
      if (heldBytes + len) % WORD > DIRECT_CAP {
        return false;
      }
      var (got, k) := TakeFromKernel(kernel, len, ans);
      kernel := k;
      if got == None {
        return false;
      }
      carves := carves + [CarveV(got.value.1, got.value.0, len, [Block(0, len, false)])];
      heldBytes := heldBytes + len;
      return true;
    }

    /** The memset of mapOwned. */
    method Clear(p: nat, len: nat)
      modifies this`bytes
      ensures View() == Cleared(old(View()), p, len)
    {
      bytes := Zeroed(bytes, p, PageUp(len));
    }

    /** mapOwned. others is what happens between giving the lock back and the clearing; nobody unmaps the
        block meanwhile. */
    method MapOwned(len: nat, ans: Answer, others: seq<Op>) returns (r: MapResult)
      requires Valid() && Permitted(View(), DoMap(len, ans))
      requires var (r, s1) := MapLocked(View(), len, ans);
               r.Served? ==> RunPermitted(s1, others) && StaysLive(s1, others, Extent(r.addr, PageUp(len)))
      modifies this
      ensures Valid() && r == MapLocked(old(View()), len, ans).0
      ensures MapIsSound(old(View()), len, r, MapLocked(old(View()), len, ans).1)
      ensures r == Fallback ==> View() == MapLocked(old(View()), len, ans).1
      ensures r.Served? ==> HandedOut(Run(MapLocked(old(View()), len, ans).1, others), r.addr, len, View())
    {
      hide MapperSpec.Valid, MapLocked, Permitted, RunPermitted, Run, StaysLive, HandedOut, MapIsSound, Cleared, PageUp;
      ghost var was := View();
      r := TakeLocked(len, ans);
      if r == Fallback {
        return;
      }
      ZeroWhenReturned(was, len, ans, others);
      Others(others);
      Clear(r.addr, len);
    }

    /** Other threads, one call after the other. */
    method Others(ops: seq<Op>)
      requires Valid() && RunPermitted(View(), ops)
      modifies this
      ensures Valid() && View() == Run(old(View()), ops)
    {
      hide MapperSpec.Valid, Permitted, RunPermitted, Next;
      RunNothing(View(), ops);
      for i := 0 to |ops|
        invariant Valid() && View() == Run(old(View()), ops[..i])
      {
        PermittedSoFar(old(View()), ops, i);
        StepOf(View(), ops[i]);
        match ops[i] {
          case DoMap(len, ans) => var r := TakeLocked(len, ans);
          case DoClear(addr, len) => Clear(addr, len);
          case DoUnmap(addr, len) => var r := Munmap(addr, len);
          case DoWrite(addr, value) => bytes := Written(bytes, addr, value);
        }
        StepKeepsValid(Run(old(View()), ops[..i]), ops[i]);
      }
      assert ops[..|ops|] == ops;
    }

    /** The part of mapOwned under the lock. */
    method TakeLocked(len: nat, ans: Answer) returns (r: MapResult)
      requires Valid() && Permitted(View(), DoMap(len, ans))
      modifies this
      ensures Valid() && (r, View()) == MapLocked(old(View()), len, ans)
      ensures MapIsSound(old(View()), len, r, View())
    {
      hide MapperSpec.Valid, Honest, MapIsSound, Alloc, PageUp, AddCarve;
      MapServes(View(), len, ans);
      PageUpRounds(len);
      PageUpIsWord(len);
      var want := PageUp(len);
      var i := 0;
      while i < |carves|
        invariant i <= |carves| && View() == old(View())
        invariant forall k :: 0 <= k < i ==> Alloc(carves[k].blocks, want) == None
      {
        var got := Alloc(carves[i].blocks, want);
        if got.Some? {
          FirstServingIs(carves, want, i);
          r := Take(i, want);
          return;
        }
        i := i + 1;
      }
      FirstServingIs(carves, want, i);
      var ok := AddCarveLocked(want, ans);
      if ok && Alloc(carves[|carves| - 1].blocks, want).Some? {
        r := Take(|carves| - 1, want);
      } else {
        r := Fallback;
      }
    }

    /** The block is taken and counted. */
    method Take(i: nat, want: nat) returns (r: MapResult)
      requires i < |carves| && Alloc(carves[i].blocks, want).Some?
      modifies this
      ensures var (p, s') := Serve(old(View()), i, want);
              r == Served(p) && View() == s'
    {
      hide Alloc;
      var c := carves[i];
      var (off, list) := Alloc(c.blocks, want).value;
      carves := carves[i := c.(blocks := list)];
      liveBytes := liveBytes + want;
      r := Served(c.va + off);
    }

    /** carveOfLocked */
    method CarveOfLocked(addr: nat) returns (i: nat)
      ensures i == CarveOf(carves, addr, 0)
    {
      i := 0;
      while i < |carves| && !carves[i].Contains(addr)
        invariant i <= |carves| && forall k :: 0 <= k < i ==> !carves[k].Contains(addr)
      {
        i := i + 1;
      }
      CarveOfIs(carves, addr, i);
    }

    /** __munmap */
    method Munmap(addr: nat, len: nat) returns (r: UnmapResult)
      requires Valid() && 0 < len <= WORD - PAGE
      modifies this
      ensures Valid() && (r, View()) == Unmap(old(View()), addr, len)
      ensures UnmapIsSound(old(View()), addr, len, r, View())
    {
      hide MapperSpec.Valid, UnmapIsSound, Free, PageUp;
      UnmapIsExact(View(), addr, len);
      var i := CarveOfLocked(addr);
      if i == |carves| {
        return Forwarded;
      }
      var c := carves[i];
      var size := PageUp(len);
      var list := Free(c.blocks, addr - c.va, size);
      if list == None {
        return Invalid;
      }
      carves := carves[i := c.(blocks := list.value)];
      liveBytes := if liveBytes >= size then liveBytes - size else 0;
      return Unmapped;
    }

    /** mmapDirectDescribe */
    method MmapDirectDescribe(addr: nat) returns (out: Option<Span>)
      ensures out == Describe(View(), addr)
    {
      var i := CarveOfLocked(addr);
      if i == |carves| {
        return None;
      }
      var c := carves[i];
      var off := addr - c.va;
      var k := 0;
      while k < |c.blocks| && !(c.blocks[k].off <= off < c.blocks[k].off + c.blocks[k].size)
        invariant k <= |c.blocks|
        invariant forall m :: 0 <= m < k ==> !(c.blocks[m].off <= off < c.blocks[m].off + c.blocks[m].size)
      {
        k := k + 1;
      }
      BlockOfIs(c.blocks, off, k);
      return Some(Span(i + 1, c.va, c.size, off, if k < |c.blocks| then Some(c.blocks[k]) else None));
    }
  }

  lemma RunNothing(s: State, ops: seq<Op>)
    ensures Run(s, ops[..0]) == s
  {
  }

  lemma {:induction false} PermittedSoFar(s: State, ops: seq<Op>, i: nat)
    requires RunPermitted(s, ops) && i < |ops|
    ensures Permitted(Run(s, ops[..i]), ops[i])
    ensures Run(s, ops[..i + 1]) == Next(Run(s, ops[..i]), ops[i])
    decreases |ops|
  {
    hide Permitted, Next;
    assert ops[..i + 1][..i] == ops[..i];
    if i < |ops| - 1 {
      PermittedSoFar(s, ops[..|ops| - 1], i);
      assert ops[..|ops| - 1][..i] == ops[..i];
    }
  }

  /** What each of the steps asks of a method, and what it does. */
  lemma StepOf(s: State, op: Op)
    requires Permitted(s, op)
    ensures op.DoUnmap? ==> 0 < op.len <= WORD - PAGE && Next(s, op) == Unmap(s, op.addr, op.len).1
    ensures op.DoMap? ==> Next(s, op) == MapLocked(s, op.len, op.ans).1
    ensures op.DoClear? ==> Next(s, op) == Cleared(s, op.addr, op.len)
    ensures op.DoWrite? ==> Next(s, op) == s.(bytes := Written(s.bytes, op.addr, op.value))
  {
  }

  lemma PageUpIsWord(len: nat)
    requires 0 < len <= WORD - PAGE
    ensures PageUp(len) < WORD
  {
  }

  lemma FirstServingIs(cs: seq<CarveV>, want: nat, i: nat)
    requires i <= |cs| && (forall k :: 0 <= k < i ==> Alloc(cs[k].blocks, want) == None)
    requires i < |cs| ==> Alloc(cs[i].blocks, want).Some?
    ensures FirstServing(cs, want, 0) == i
  {
  }

  lemma CarveOfIs(cs: seq<CarveV>, addr: nat, i: nat)
    requires i <= |cs| && (forall k :: 0 <= k < i ==> !cs[k].Contains(addr)) && (i < |cs| ==> cs[i].Contains(addr))
    ensures CarveOf(cs, addr, 0) == i
  {
  }

  lemma BlockOfIs(b: seq<Block>, off: nat, k: nat)
    requires k <= |b|
    requires forall m :: 0 <= m < k ==> !(b[m].off <= off < b[m].off + b[m].size)
    requires k < |b| ==> b[k].off <= off < b[k].off + b[k].size
    ensures BlockOf(b, off, 0) == k
  {
  }
}
