/** Writing a run of elements over part of a buffer. */
module Splicing {

  function Splice<T>(was: seq<T>, at: nat, b: seq<T>): seq<T>
    requires at + |b| <= |was|
  {
    was[..at] + b + was[at + |b|..]
  }

  lemma SpliceTwice<T>(was: seq<T>, at: nat, b: seq<T>, e: seq<T>)
    requires at + |b| + |e| <= |was|
    ensures |Splice(was, at, b)| == |was|
    ensures Splice(Splice(was, at, b), at + |b|, e) == Splice(was, at, b + e)
  {
  }

  lemma SpliceNothing<T>(was: seq<T>, at: nat)
    requires at <= |was|
    ensures Splice(was, at, []) == was
  {
  }
}
