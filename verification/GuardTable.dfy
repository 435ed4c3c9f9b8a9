/**
 The shared state of src/orbis_cxa_guard.c: the two bytes of every C++ static guard and the table of
 64 owners, all under one mutex. The class holds what the source changes in place; each method is
 one section between taking and giving up the mutex, and is proved against a function on values.
 */
module GuardTable {

  /** A guard is the address of its variable; the null address marks a free slot. */
  type Guard = nat
  const NULL: Guard := 0

  /** A thread's identity, the thread pointer; 0 is "no identity". */
  type Identity = nat

  const OWNERS: nat := 64

  /** Byte 0 (done) and the two flags of byte 1. */
  datatype Cell = Cell(done: bool, pending: bool, waiting: bool)

  const UNTOUCHED := Cell(false, false, false)

  datatype Slot = Slot(guard: Guard, owner: Identity)

  const FREE_SLOT := Slot(NULL, 0)

  datatype Shared = Shared(cells: map<Guard, Cell>, owners: seq<Slot>) {
    function At(g: Guard): Cell {
      if g in cells then cells[g] else UNTOUCHED
    }

    function Put(g: Guard, c: Cell): Shared {
      this.(cells := cells[g := c])
    }
  }

  /** What one turn under the mutex tells the caller of __cxa_guard_acquire. */
  datatype Outcome = AlreadyDone | Claimed | Recursion | MustWait

  // ------------------------------------------------------------------------- owners, as values

  /** The first slot that holds g, or the length of the table. */
  function FirstWith(o: seq<Slot>, g: Guard): (i: nat)
    ensures i <= |o| && (i < |o| ==> o[i].guard == g)
    ensures forall k :: 0 <= k < i ==> o[k].guard != g
  {
    if o == [] then 0 else if o[0].guard == g then 0 else 1 + FirstWith(o[1..], g)
  }

  lemma FirstWithIs(o: seq<Slot>, g: Guard, i: nat)
    requires i < |o| && o[i].guard == g && forall k :: 0 <= k < i ==> o[k].guard != g
    ensures FirstWith(o, g) == i
  {
  }

  function SetOwner(o: seq<Slot>, g: Guard, who: Identity): seq<Slot> {
    var i := FirstWith(o, NULL);
    if i < |o| then o[i := Slot(g, who)] else o
  }

  function ClearOwner(o: seq<Slot>, g: Guard): seq<Slot> {
    var i := FirstWith(o, g);
    if i < |o| then o[i := FREE_SLOT] else o
  }

  predicate OwnerIsSelf(o: seq<Slot>, g: Guard, self: Identity) {
    var i := FirstWith(o, g);
    self != 0 && i < |o| && o[i].owner == self
  }

  predicate Recorded(o: seq<Slot>, g: Guard) {
    FirstWith(o, g) < |o|
  }

  // ------------------------------------------------------------------------- turns, as values

  function AcquireTurn(s: Shared, g: Guard, self: Identity): (Outcome, Shared) {
    var c := s.At(g);
    if c.done then (AlreadyDone, s)
    else if !c.pending then
      (Claimed, s.Put(g, c.(pending := true)).(owners := SetOwner(s.owners, g, self)))
    else if OwnerIsSelf(s.owners, g, self) then (Recursion, s)
    else (MustWait, s.Put(g, c.(waiting := true)))
  }

  /** Release when done is true, abort when it is not. The first result says whether to broadcast. */
  function FinishTurn(s: Shared, g: Guard, done: bool): (bool, Shared) {
    var c := s.At(g);
    (c.waiting, s.Put(g, Cell(c.done || done, false, false)).(owners := ClearOwner(s.owners, g)))
  }

  // ------------------------------------------------------------------------- the table in place

  class Table {
    var cells: map<Guard, Cell>
    const owners: array<Slot>

    ghost predicate Valid()
      reads this
    {
      owners.Length == OWNERS
    }

    function View(): Shared
      reads this, owners
    {
      Shared(cells, owners[..])
    }

    constructor ()
      ensures Valid() && fresh(owners)
      ensures View() == Shared(map[], seq(OWNERS, _ => FREE_SLOT))
    {
      cells := map[];
      owners := new Slot[OWNERS](_ => FREE_SLOT);
    }

    /** owner_set */
    method OwnerSet(guard: Guard, owner: Identity)
      requires Valid()
      modifies owners
      ensures owners[..] == SetOwner(old(owners[..]), guard, owner)
    {
      for i := 0 to OWNERS
        invariant owners[..] == old(owners[..])
        invariant forall k :: 0 <= k < i ==> owners[k].guard != NULL
      {
        if owners[i].guard == NULL {
          FirstWithIs(owners[..], NULL, i);
          owners[i] := Slot(guard, owner);
          return;
        }
      }
    }

    /** owner_clear */
    method OwnerClear(guard: Guard)
      requires Valid()
      modifies owners
      ensures owners[..] == ClearOwner(old(owners[..]), guard)
    {
      for i := 0 to OWNERS
        invariant owners[..] == old(owners[..])
        invariant forall k :: 0 <= k < i ==> owners[k].guard != guard
      {
        if owners[i].guard == guard {
          FirstWithIs(owners[..], guard, i);
          owners[i] := FREE_SLOT;
          return;
        }
      }
    }

    /** owner_is_self */
    method IsSelf(guard: Guard, self: Identity) returns (r: bool)
      requires Valid()
      ensures r <==> OwnerIsSelf(owners[..], guard, self)
    {
      if self == 0 {
        return false;
      }
      for i := 0 to OWNERS
        invariant forall k :: 0 <= k < i ==> owners[k].guard != guard
      {
        if owners[i].guard == guard {
          FirstWithIs(owners[..], guard, i);
          return owners[i].owner == self;
        }
      }
      return false;
    }

    function CellAt(guard: Guard): Cell
      reads this
    {
      if guard in cells then cells[guard] else UNTOUCHED
    }

    /** One pass of the loop in __cxa_guard_acquire, up to the return, the abort or the wait. */
    method Acquire(guard: Guard, self: Identity) returns (outcome: Outcome)
      requires Valid()
      modifies this, owners
      ensures Valid()
      ensures (outcome, View()) == AcquireTurn(old(View()), guard, self)
    {
      var cell := CellAt(guard);
      if cell.done {
        return AlreadyDone;
      }
      if !cell.pending {
        cells := cells[guard := cell.(pending := true)];
        OwnerSet(guard, self);
        return Claimed;
      }
      var mine := IsSelf(guard, self);
      if mine {
        return Recursion;
      }
      cells := cells[guard := cell.(waiting := true)];
      return MustWait;
    }

    /** The locked part of __cxa_guard_release. */
    method Release(guard: Guard) returns (wake: bool)
      requires Valid()
      modifies this, owners
      ensures Valid()
      ensures (wake, View()) == FinishTurn(old(View()), guard, true)
    {
      var cell := CellAt(guard).(done := true);
      wake := cell.waiting;
      cells := cells[guard := cell.(pending := false, waiting := false)];
      OwnerClear(guard);
    }

    /** The locked part of __cxa_guard_abort. */
    method Abort(guard: Guard) returns (wake: bool)
      requires Valid()
      modifies this, owners
      ensures Valid()
      ensures (wake, View()) == FinishTurn(old(View()), guard, false)
    {
      var cell := CellAt(guard);
      wake := cell.waiting;
      cells := cells[guard := cell.(pending := false, waiting := false)];
      OwnerClear(guard);
    }
  }
}
