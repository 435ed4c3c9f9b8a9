/** memmove between two places of one table, as both in-place tables of the allocators use it. */
module Memmove {

  /** memmove of count entries inside one table. */
  method Move<T>(a: array<T>, to: nat, from: nat, count: nat)
    requires to + count <= a.Length && from + count <= a.Length
    modifies a
    ensures a[..] == old(a[..to]) + old(a[from..from + count]) + old(a[to + count..])
  {
    if to <= from {
      MoveDown(a, to, from, count);
    } else {
      MoveUp(a, to, from, count);
    }
  }

  method MoveDown<T>(a: array<T>, to: nat, from: nat, count: nat)
    requires to <= from && from + count <= a.Length
    modifies a
    ensures a[..] == old(a[..to]) + old(a[from..from + count]) + old(a[to + count..])
  {
    ghost var was, d := a[..], from - to;
    for i := 0 to count
      invariant forall k :: to <= k < to + i ==> a[k] == was[k + d]
      invariant forall k :: 0 <= k < to || to + i <= k < a.Length ==> a[k] == was[k]
    {
      a[to + i] := a[from + i];
    }
    MovedIsSpliced(a[..], was, to, from, count);
  }

  method MoveUp<T>(a: array<T>, to: nat, from: nat, count: nat)
    requires from < to && to + count <= a.Length
    modifies a
    ensures a[..] == old(a[..to]) + old(a[from..from + count]) + old(a[to + count..])
  {
    ghost var was, d := a[..], to - from;
    for i := count downto 0
      invariant forall k :: to + i <= k < to + count ==> a[k] == was[k - d]
      invariant forall k :: 0 <= k < to + i || to + count <= k < a.Length ==> a[k] == was[k]
    {
      a[to + i] := a[from + i];
    }
    MovedIsSpliced(a[..], was, to, from, count);
  }

  lemma MovedIsSpliced<T>(now: seq<T>, was: seq<T>, to: nat, from: nat, count: nat)
    requires |now| == |was| && to + count <= |was| && from + count <= |was|
    requires forall k :: to <= k < to + count ==> now[k] == was[k - to + from]
    requires forall k :: 0 <= k < to || to + count <= k < |was| ==> now[k] == was[k]
    ensures now == was[..to] + was[from..from + count] + was[to + count..]
  {
  }
}
