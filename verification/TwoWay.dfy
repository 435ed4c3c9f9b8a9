/**
 The wide-character substring search of src/orbis_wchar32.c: wcsstr and its two-way core.

 A C string is the sequence of elements from its first one up to and including the terminating
 zero, so an index inside the sequence is a read the source may do. size_t arithmetic wraps as it
 does on the machine: the source keeps "the cut minus one" in unsigned variables, and minus one is
 the largest of them.
 */
module TwoWay {
  import opened Wrappers
  import opened Factorization
  import SuffixLoop

  // ------------------------------------------------------------------------- size_t

  type Size = n: int | 0 <= n < 0x1_0000_0000_0000_0000
  const SIZE_MAX: Size := 0xffff_ffff_ffff_ffff

  function Plus(a: Size, b: Size): Size {
    if a + b <= SIZE_MAX then a + b else a + b - SIZE_MAX - 1
  }

  function Minus(a: Size, b: Size): Size {
    if b <= a then a - b else a - b + SIZE_MAX + 1
  }

  function Max(a: Size, b: Size): Size {
    if a > b then a else b
  }

  /** a | 63, for an a that is far from wrapping. */
  function Or63(a: Size): (r: Size)
    requires a < 0x4000_0000_0000_0000
    ensures a <= r <= a + 63 && r % 64 == 63
  {
    a / 64 * 64 + 63
  }

  // ------------------------------------------------------------------------- strings

  type WChar = c: int | -0x8000_0000 <= c < 0x8000_0000

  /** A terminated string that fits the address space (an element is four bytes). */
  ghost predicate CString(m: seq<WChar>) {
    && 1 <= |m| < 0x3fff_ffff_ffff_0000
    && m[|m| - 1] == 0
    && forall i :: 0 <= i < |m| - 1 ==> m[i] != 0
  }

  function Text(m: seq<WChar>): seq<WChar>
    requires |m| >= 1
  {
    m[..|m| - 1]
  }

  /** x[lo..hi] is what stands in h, shifted by at. */
  ghost predicate Matches(h: Word, x: Word, at: nat, lo: nat, hi: nat) {
    && hi <= |x| && at + hi <= |h|
    && forall i, j :: lo <= i < hi && 0 <= j < |h| && j == at + i ==> x[i] == h[j]
  }

  ghost predicate OccursAt(h: Word, x: Word, at: nat) {
    Matches(h, x, at, 0, |x|)
  }

  /** What a search returns: the first occurrence, or None exactly when there is none. */
  ghost predicate IsFirstOccurrence(h: Word, x: Word, r: Option<nat>) {
    match r
    case Some(at) => OccursAt(h, x, at) && forall i: nat :: i < at ==> !OccursAt(h, x, i)
    case None => forall i: nat :: !OccursAt(h, x, i)
  }

  // ------------------------------------------------------------------------- factorization

  /** The loop's variables in the source's terms: ip and jp are one below the starts they stand
      for, ip possibly at minus one. */
  ghost predicate LoopState(n: seq<WChar>, ip: Size, jp: Size, k: Size, p: Size, rev: bool) {
    && CString(n)
    && (ip == SIZE_MAX || ip < |n| - 1)
    && SuffixLoop.Invariant(Text(n), Plus(ip, 1), jp + 1, k, p, rev)
  }

  /** A better start leaves fewer to find; jp + k alone can go down. */
  ghost function StartsLeft(n: seq<WChar>, ip: Size): int {
    |n| - Plus(ip, 1)
  }

  ghost function LettersLeft(n: seq<WChar>, jp: Size, k: Size): int {
    |n| - Plus(jp, k)
  }

  /** What the loop's sums come to: none wraps, except where minus one is meant. */
  lemma IndicesInRange(n: seq<WChar>, ip: Size, jp: Size, k: Size, p: Size, rev: bool)
    requires LoopState(n, ip, jp, k, p, rev)
    ensures Plus(jp, k) == jp + k < |n| && Plus(ip, k) == Plus(ip, 1) + k - 1 < |n| - 1
    ensures Plus(jp, p) == jp + p && Plus(k, 1) == k + 1 && Plus(jp, 1) == jp + 1
    ensures Minus(jp + k, ip) == jp + k + 1 - Plus(ip, 1)
    ensures k <= p && Plus(ip, 1) <= jp < |n| - 1 && StartsLeft(n, ip) > 0 && LettersLeft(n, jp, k) > 0
  {
  }

  lemma AfterEqual(n: seq<WChar>, ip: Size, jp: Size, k: Size, p: Size, rev: bool)
    requires LoopState(n, ip, jp, k, p, rev) && Plus(jp, k) < |n| - 1 && Plus(ip, k) < |n| - 1
    requires n[Plus(ip, k)] == n[Plus(jp, k)]
    ensures k == p ==> LoopState(n, ip, Plus(jp, p), 1, p, rev)
    ensures k != p ==> LoopState(n, ip, jp, Plus(k, 1), p, rev)
    ensures k == p ==> LettersLeft(n, Plus(jp, p), 1) < LettersLeft(n, jp, k)
    ensures k != p ==> LettersLeft(n, jp, Plus(k, 1)) < LettersLeft(n, jp, k)
  {
    hide SuffixLoop.Invariant;
    IndicesInRange(n, ip, jp, k, p, rev);
    SuffixLoop.EqualLetters(Text(n), Plus(ip, 1), jp + 1, k, p, rev);
  }

  lemma AfterSmaller(n: seq<WChar>, ip: Size, jp: Size, k: Size, p: Size, rev: bool)
    requires LoopState(n, ip, jp, k, p, rev) && Plus(jp, k) < |n| - 1 && Plus(ip, k) < |n| - 1
    requires Less(n[Plus(jp, k)], n[Plus(ip, k)], rev)
    ensures LoopState(n, ip, Plus(jp, k), 1, Minus(Plus(jp, k), ip), rev)
    ensures LettersLeft(n, Plus(jp, k), 1) < LettersLeft(n, jp, k)
  {
    hide SuffixLoop.Invariant;
    IndicesInRange(n, ip, jp, k, p, rev);
    SuffixLoop.SmallerLetter(Text(n), Plus(ip, 1), jp + 1, k, p, rev);
  }

  lemma AfterGreater(n: seq<WChar>, ip: Size, jp: Size, k: Size, p: Size, rev: bool)
    requires LoopState(n, ip, jp, k, p, rev) && Plus(jp, k) < |n| - 1 && Plus(ip, k) < |n| - 1
    requires Less(n[Plus(ip, k)], n[Plus(jp, k)], rev)
    ensures LoopState(n, jp, Plus(jp, 1), 1, 1, rev)
    ensures StartsLeft(n, jp) < StartsLeft(n, ip)
  {
    hide SuffixLoop.Invariant;
    IndicesInRange(n, ip, jp, k, p, rev);
    SuffixLoop.GreaterLetter(Text(n), Plus(ip, 1), jp + 1, k, p, rev);
  }

  lemma AtLoopExit(n: seq<WChar>, ip: Size, jp: Size, k: Size, p: Size, rev: bool)
    requires LoopState(n, ip, jp, k, p, rev) && Plus(jp, k) >= |n| - 1
    ensures MaximalSuffix(Text(n), Plus(ip, 1), rev)
    ensures 1 <= p <= |n| - 1 - Plus(ip, 1)
    ensures SmallestPeriodOn(Text(n), Plus(ip, 1), |n| - 1, p)
  {
    SuffixLoop.Finish(Text(n), Plus(ip, 1), jp + 1, k, p, rev);
  }

  /** One factorization loop. The returned ip is the start of the maximal suffix minus one. */
  method MaximalSuffixLoop(n: seq<WChar>, l: Size, rev: bool) returns (ip: Size, p: Size)
    requires CString(n) && l == |n| - 1 && l >= 1
    ensures MaximalSuffix(Text(n), Plus(ip, 1), rev)
    ensures 1 <= p <= l - Plus(ip, 1) && SmallestPeriodOn(Text(n), Plus(ip, 1), l, p)
  {
    var jp: Size, k: Size := 0, 1;
    ip, p := SIZE_MAX, 1;
    assert LoopState(n, ip, jp, k, p, rev) by {
      SuffixLoop.Start(Text(n), rev);
    }
    hide *;
    while Plus(jp, k) < l
      invariant LoopState(n, ip, jp, k, p, rev)
      decreases StartsLeft(n, ip), LettersLeft(n, jp, k)
    {
      IndicesInRange(n, ip, jp, k, p, rev);
      if n[Plus(ip, k)] == n[Plus(jp, k)] {
        AfterEqual(n, ip, jp, k, p, rev);
        if k == p {
          jp := Plus(jp, p);
          k := 1;
        } else {
          k := Plus(k, 1);
        }
      } else if Less(n[Plus(jp, k)], n[Plus(ip, k)], rev) {
        AfterSmaller(n, ip, jp, k, p, rev);
        jp := Plus(jp, k);
        k := 1;
        p := Minus(jp, ip);
      } else {
        LessIsTotal(n[Plus(ip, k)], n[Plus(jp, k)], rev);
        AfterGreater(n, ip, jp, k, p, rev);
        ip, jp := jp, Plus(jp, 1);
        k, p := 1, 1;
      }
    }
    AtLoopExit(n, ip, jp, k, p, rev);
  }

  /** wmemcmp over two stretches of one string: the sign of the first difference, or 0. */
  method Wmemcmp(m: seq<WChar>, l: nat, r: nat, count: nat) returns (sign: int)
    requires l + count <= |m| && r + count <= |m|
    ensures sign == 0 <==> Agree(m, l, r, count)
  {
    var c := 0;
    while c < count && m[l + c] == m[r + c]
      invariant c <= count && Agree(m, l, r, c)
    {
      c := c + 1;
    }
    sign := if c == count then 0 else if m[l + c] < m[r + c] then -1 else 1;
  }

  /** wmemchr for the terminating zero: it stops there and so never reads past it. */
  method WmemchrZero(m: seq<WChar>, from: nat, count: nat) returns (r: Option<nat>)
    requires CString(m) && from < |m|
    ensures match r
            case Some(z) => from <= z && z - from < count && z == |m| - 1
            case None => from + count < |m|
  {
    var s := from;
    while s < from + count && m[s] != 0
      invariant from <= s <= from + count && s < |m|
    {
      s := s + 1;
    }
    r := if s < from + count then Some(s) else None;
  }

  /** What the search relies on: a critical cut, a shift no longer than any period, and the length
      of the prefix that still matches after such a shift. */
  ghost predicate Plan(x: Word, cut: nat, shift: nat, keep: nat) {
    && cut < |x| && Critical(x, cut)
    && 1 <= shift <= |x|
    && (forall d :: 1 <= d < shift ==> !Period(x, d))
    && (keep == 0 || (keep == |x| - shift && Period(x, shift) && cut < shift))
  }

  /** The cut, the shift and the remembered length that the source computes from the needle. */
  method Prepare(n: seq<WChar>, l: Size) returns (ms: Size, p: Size, mem0: Size)
    requires CString(n) && l == |n| - 1 && l >= 1
    ensures Plan(Text(n), Plus(ms, 1), p, mem0)
  {
    ghost var x := Text(n);
    var p0, ip;
    ms, p0 := MaximalSuffixLoop(n, l, false);
    ip, p := MaximalSuffixLoop(n, l, true);
    if Plus(ip, 1) > Plus(ms, 1) {
      LaterCutIsCritical(x, Plus(ip, 1), Plus(ms, 1), true);
      ms := ip;
    } else {
      LaterCutIsCritical(x, Plus(ms, 1), Plus(ip, 1), false);
      p := p0;
    }
    ghost var cut := Plus(ms, 1);
    var differ := Wmemcmp(n, 0, p, Plus(ms, 1));
    assert differ == 0 <==> Agree(x, 0, p, cut);
    if differ != 0 {
      forall d | Period(x, d) ensures d > cut && d > l - cut {
        AperiodicNeedle(x, cut, p, d);
      }
      assert cut >= 1;
      mem0 := 0;
      p := Plus(Max(ms, Minus(Minus(l, ms), 1)), 1);
    } else {
      PeriodicNeedle(x, cut, p);
      mem0 := Minus(l, p);
    }
  }

  // ------------------------------------------------------------------------- the shifts

  /** An occurrence that overlaps what matched right of the cut repeats around the cut. */
  lemma OccurrenceIsRepetition(h: Word, x: Word, cut: nat, at: nat, k: nat, s: nat)
    requires cut <= k <= |x| && Matches(h, x, at, cut, k)
    requires at < s && (k == |x| || s - at <= k - cut) && OccursAt(h, x, s)
    ensures Repetition(x, cut, s - at)
  {
    forall i, j | 0 <= i < cut <= j < |x| && j == i + (s - at) ensures x[i] == x[j] {
      assert x[i] == h[s + i];
      assert x[j] == h[at + j];
    }
  }

  /** After a mismatch at k, right of the cut, no occurrence starts within the next k - cut. */
  lemma NoOccurrenceBeforeMismatch(h: Word, x: Word, cut: nat, at: nat, k: nat, s: nat)
    requires cut < |x| && Critical(x, cut)
    requires cut <= k < |x| && at + k < |h| && Matches(h, x, at, cut, k) && x[k] != h[at + k]
    requires at < s <= at + (k - cut)
    ensures !OccursAt(h, x, s)
  {
    if OccursAt(h, x, s) {
      assert x[k - (s - at)] == h[at + k];
      OccurrenceIsRepetition(h, x, cut, at, k, s);
    }
  }

  /** After the right part matched, no occurrence starts before the shift. */
  lemma NoOccurrenceBeforeShift(h: Word, x: Word, cut: nat, shift: nat, at: nat, s: nat)
    requires cut < |x| && Critical(x, cut)
    requires forall d :: 1 <= d < shift ==> !Period(x, d)
    requires Matches(h, x, at, cut, |x|)
    requires at < s < at + shift
    ensures !OccursAt(h, x, s)
  {
    if OccursAt(h, x, s) {
      OccurrenceIsRepetition(h, x, cut, at, |x|, s);
    }
  }

  /** The remembered prefix really matches after the shift, because the cut is shorter than it. */
  lemma PrefixStillMatches(h: Word, x: Word, cut: nat, shift: nat, keep: nat, at: nat)
    requires Plan(x, cut, shift, keep)
    requires Matches(h, x, at, cut, |x|)
    ensures Matches(h, x, at + shift, 0, keep)
  {
    forall i, j | 0 <= i < keep && 0 <= j < |h| && j == at + shift + i ensures x[i] == h[j] {
      var m := i + shift;
      assert x[i] == x[m];
      assert x[m] == h[j];
    }
  }

  // ------------------------------------------------------------------------- the search

  method TwoWayWcsstr(h: seq<WChar>, n: seq<WChar>) returns (r: Option<nat>)
    requires CString(h) && CString(n) && n[0] != 0
    ensures IsFirstOccurrence(Text(h), Text(n), r)
  {
    hide Critical, Matches, OccursAt, Period;
    ghost var hay, x := Text(h), Text(n);
    EmptyMatch(hay, x, 0);
    var l: Size := 0;
    while n[l] != 0 && h[l] != 0
      invariant l < |n| && l < |h|
      decreases |n| - l
    {
      l := l + 1;
    }
    if n[l] != 0 {
      NoRoomLeft(hay, x, 0);
      return None;
    }
    var ms, p, mem0 := Prepare(n, l);
    ghost var cut := Plus(ms, 1);
    var mem: Size := 0;
    var z: Size, at: Size := 0, 0;
    while true
      invariant at + mem <= z < |h|
      invariant mem == 0 || mem == mem0
      invariant Matches(hay, x, at, 0, mem)
      invariant forall i: nat :: i < at ==> !OccursAt(hay, x, i)
      decreases |h| - at
    {
      if Minus(z, at) < l {
        var grow := Or63(l);
        var z2 := WmemchrZero(h, z, grow);
        if z2.Some? {
          z := z2.value;
          if Minus(z, at) < l {
            NoRoomLeft(hay, x, at);
            return None;
          }
        } else {
          z := Plus(z, grow);
        }
      }
      assert at + l <= z;
      var k := CompareRight(h, n, at, Max(Plus(ms, 1), mem), mem, cut);
      if n[k] != 0 {
        MismatchHere(hay, x, at, k);
        EmptyMatch(hay, x, at + Minus(k, ms));
        forall s: nat | at < s < at + Minus(k, ms) ensures !OccursAt(hay, x, s) {
          NoOccurrenceBeforeMismatch(hay, x, cut, at, k, s);
        }
        at := Plus(at, Minus(k, ms));
        mem := 0;
        continue;
      }
      k := CompareLeft(h, n, at, Plus(ms, 1), mem);
      if k <= mem {
        return Some(at);
      }
      forall s: nat | at < s < at + p ensures !OccursAt(hay, x, s) {
        NoOccurrenceBeforeShift(hay, x, cut, p, at, s);
      }
      PrefixStillMatches(hay, x, cut, p, mem0, at);
      at := Plus(at, p);
      mem := mem0;
    }
  }

  lemma EmptyMatch(h: Word, x: Word, at: nat)
    ensures at <= |h| ==> Matches(h, x, at, 0, 0)
  {
  }

  lemma MismatchHere(h: Word, x: Word, at: nat, k: nat)
    requires k < |x| && at + k < |h| && x[k] != h[at + k]
    ensures !OccursAt(h, x, at)
  {
  }

  lemma NoRoomLeft(h: Word, x: Word, at: nat)
    requires at + |x| > |h| && forall i: nat :: i < at ==> !OccursAt(h, x, i)
    ensures forall i: nat :: !OccursAt(h, x, i)
  {
  }

  /** The loop over the right part: it ends at a mismatch, or at the needle's terminator. */
  method CompareRight(h: seq<WChar>, n: seq<WChar>, at: Size, from: Size, ghost mem: nat, ghost cut: nat)
    returns (k: Size)
    requires CString(h) && CString(n) && at + |n| <= |h| && cut < |n| - 1 && mem < |n|
    requires from == if cut > mem then cut else mem
    requires Matches(Text(h), Text(n), at, 0, mem)
    ensures from <= k < |n| && Matches(Text(h), Text(n), at, cut, k)
    ensures n[k] != 0 ==> n[k] != h[at + k]
  {
    k := from;
    while n[k] != 0 && n[k] == h[at + k]
      invariant from <= k < |n|
      invariant Matches(Text(h), Text(n), at, cut, k)
      decreases |n| - k
    {
      k := k + 1;
    }
  }

  /** The loop over the left part, backwards down to the remembered prefix. */
  method CompareLeft(h: seq<WChar>, n: seq<WChar>, at: Size, from: Size, mem: Size) returns (k: Size)
    requires CString(h) && CString(n) && at + |n| <= |h| && from < |n|
    requires Matches(Text(h), Text(n), at, from, |n| - 1)
    requires Matches(Text(h), Text(n), at, 0, mem)
    ensures k <= from
    ensures k <= mem <==> OccursAt(Text(h), Text(n), at)
  {
    k := from;
    while k > mem && n[k - 1] == h[at + k - 1]
      invariant k <= from
      invariant Matches(Text(h), Text(n), at, k, |n| - 1)
    {
      k := k - 1;
    }
    if k > mem {
      assert Text(n)[k - 1] != Text(h)[at + (k - 1)];
    }
  }

  /** wcschr for a non-zero character. */
  method Wcschr(h: seq<WChar>, c: WChar) returns (r: Option<nat>)
    requires CString(h) && c != 0
    ensures match r
            case Some(i) => i < |h| - 1 && h[i] == c && c !in h[..i]
            case None => c !in h
  {
    var s := 0;
    while h[s] != 0 && h[s] != c
      invariant s < |h| && c !in h[..s]
      decreases |h| - s
    {
      s := s + 1;
    }
    r := if h[s] != 0 then Some(s) else None;
  }

  /** wcsstr. */
  method Wcsstr(h: seq<WChar>, n: seq<WChar>) returns (r: Option<nat>)
    requires CString(h) && CString(n)
    ensures IsFirstOccurrence(Text(h), Text(n), r)
  {
    ghost var hay, x := Text(h), Text(n);
    if n[0] == 0 {
      return Some(0);
    }
    assert x[0] == n[0];
    if h[0] == 0 {
      return None;
    }
    var hh := Wcschr(h, n[0]);
    if hh == None {
      forall i: nat ensures !OccursAt(hay, x, i) {
        assert i < |hay| ==> hay[i] != x[0];
      }
      return None;
    }
    forall i: nat | i < hh.value ensures !OccursAt(hay, x, i) {
      assert hay[i] in h[..hh.value];
    }
    if n[1] == 0 {
      return hh;
    }
    if h[hh.value + 1] == 0 {
      return None;
    }
    var rest := h[hh.value..];
    r := TwoWayWcsstr(rest, n);
    assert Text(rest) == hay[hh.value..];
    FirstOccurrenceOfTail(hay, x, hh.value, r);
    if r.Some? {
      r := Some(hh.value + r.value);
    }
  }

  /** A search of the tail after skipping starts where nothing occurs is a search of the whole. */
  lemma FirstOccurrenceOfTail(h: Word, x: Word, skip: nat, r: Option<nat>)
    requires skip <= |h| && forall i: nat :: i < skip ==> !OccursAt(h, x, i)
    requires IsFirstOccurrence(h[skip..], x, r)
    ensures IsFirstOccurrence(h, x, if r.Some? then Some(skip + r.value) else None)
  {
    var tail := h[skip..];
    forall i: nat ensures OccursAt(tail, x, i) <==> OccursAt(h, x, skip + i) {
      if OccursAt(tail, x, i) {
        forall a, b | 0 <= a < |x| && 0 <= b < |h| && b == skip + i + a ensures x[a] == h[b] {
          assert x[a] == tail[i + a];
        }
      }
      if OccursAt(h, x, skip + i) {
        forall a, b | 0 <= a < |x| && 0 <= b < |tail| && b == i + a ensures x[a] == tail[b] {
          assert x[a] == h[skip + b];
        }
      }
    }
    forall i: nat | OccursAt(h, x, i) ensures i >= skip && OccursAt(tail, x, i - skip) {
      assert i >= skip;
      assert i == skip + (i - skip);
    }
  }
}
