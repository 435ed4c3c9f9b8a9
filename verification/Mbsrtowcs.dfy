/**
 mbsrtowcs of src/orbis_wchar32.c, storing and counting. A call may resume inside a character; p is the
 beginning of it that an earlier call has taken, so that what the call delivers is what decoding p and
 the new bytes together delivers.
 */
module Mbsrtowcs {
  import opened Wrappers
  import opened Utf8
  import opened Mbrtowc
  import opened BytesToWide
  import opened Splicing
  import TwoWay

  /** Reading k more characters, or up to the terminating zero, stays inside u. */
  ghost predicate Readable(u: Bytes, k: nat) {
    4 * k <= |u| || Terminated(u)
  }

  // ------------------------------------------------------------------------- one character

  /** The partial character p has grown to q by the bytes of s from i0 to i. */
  ghost predicate Inside(p: Bytes, s: Bytes, i0: nat, q: Bytes, c: Wide, i: nat) {
    && i0 <= i <= |s| && q == p + s[i0..i] && q != [] && IsPartial(q) && c == StateOf(q)
    && !IsPartial(p + s[i0..])
  }

  /** The bytes from resume on: p with the bytes at i0 either makes a character, or cannot. The bytes are
      all there, because p with all of s is more than the beginning of a character. On failure the pointer
      is one before i0, at the lead byte when p is just the lead. */
  method FinishChar(ghost p: Bytes, s: Bytes, i0: nat, c0: Wide) returns (ok: bool, wc: Wide, i: int)
    requires Inside(p, s, i0, p, c0, i0)
    ensures ok ==> i0 < i <= |s| && IsChar(p + s[i0..i]) && wc == Value(p + s[i0..i])
    ensures !ok ==> i == i0 - 1 && First(p + s[i0..]) == 0
  {
    hide *;
    var c := c0;
    i := i0;
    MoreToRead(p, s, i0, p, c, i);
    Garbled(p, s, i0, p, c, i);
    if OutOfBounds(c, s[i]) {
      return false, c, i - 1;
    }
    Grow(p, s, i0, p, c, i);
    c := Shift(c, s[i]);
    i := i + 1;
    if HighBit(c) {
      ghost var q := p + [s[i0]];
      MoreToRead(p, s, i0, q, c, i);
      Garbled(p, s, i0, q, c, i);
      if s[i] - 0x80 >= 0x40 {
        return false, c, i - 2;
      }
      Grow(p, s, i0, q, c, i);
      c := Shift(c, s[i]);
      i := i + 1;
      if HighBit(c) {
        q := q + [s[i0 + 1]];
        MoreToRead(p, s, i0, q, c, i);
        Garbled(p, s, i0, q, c, i);
        if s[i] - 0x80 >= 0x40 {
          return false, c, i - 3;
        }
        Grow(p, s, i0, q, c, i);
        AllGrown(p, s, i0, q + [s[i]], Shift(c, s[i]), i + 1);
        c := Shift(c, s[i]);
        i := i + 1;
      }
    }
    return true, c, i;
  }

  lemma MoreToRead(p: Bytes, s: Bytes, i0: nat, q: Bytes, c: Wide, i: nat)
    requires Inside(p, s, i0, q, c, i)
    ensures i0 <= i < |s|
  {
  }

  lemma Garbled(p: Bytes, s: Bytes, i0: nat, q: Bytes, c: Wide, i: nat)
    requires Inside(p, s, i0, q, c, i) && i < |s|
    ensures OutOfBounds(c, s[i]) ==> First(p + s[i0..]) == 0
    ensures |q| >= 2 ==> (s[i] - 0x80 >= 0x40 <==> OutOfBounds(c, s[i]))
  {
    hide StateOf, OutOfBounds, First, IsPartial, Step, IsChar;
    TailCheck(s[i]);
    if |q| >= 2 {
      LaterBytesAreTails(q, s[i]);
    }
    if OutOfBounds(c, s[i]) {
      HighIsNotZero(q);
      PartialStep(c, s[i]);
      StepFollowsDefinition(q, s[i]);
      assert s[i0..] == s[i0..i] + s[i..];
      assert p + s[i0..] == q + s[i..];
      NothingPast(q, s[i], s[i..]);
      NoFirst(q, s[i..]);
    }
  }

  lemma NoFirst(q: Bytes, s: Bytes)
    requires forall n :: 0 <= n <= |s| ==> !IsChar(q + s[..n])
    requires IsPartial(q)
    ensures First(q + s) == 0
  {
    hide IsPartial, Tail, Second;
    var n := First(q + s);
    assert forall m :: |q| <= m <= |q| + |s| ==> (q + s)[..m] == q + s[..m - |q|];
    var m := if n <= |q| then n else |q|;
    assert q[..m] == (q + s)[..m];
    ShorterIsNoChar(q, m);
    EmptyIsNoChar(q + s);
  }

  lemma EmptyIsNoChar(u: Bytes)
    ensures !IsChar(u[..0])
  {
  }

  lemma ShorterIsNoChar(q: Bytes, n: nat)
    requires IsPartial(q) && n <= |q|
    ensures !IsChar(q[..n])
  {
  }

  lemma Grow(p: Bytes, s: Bytes, i0: nat, q: Bytes, c: Wide, i: nat)
    requires Inside(p, s, i0, q, c, i) && i < |s|
    ensures OutOfBounds(c, s[i]) ||
            if HighBit(Shift(c, s[i])) then Inside(p, s, i0, q + [s[i]], Shift(c, s[i]), i + 1) && |q + [s[i]]| >= 2
            else IsChar(p + s[i0..i + 1]) && Shift(c, s[i]) == Value(p + s[i0..i + 1])
  {
    hide StateOf, OutOfBounds, Shift, HighBit, Value, IsPartial, IsChar, Step;
    HighIsNotZero(q);
    PartialStep(c, s[i]);
    StepFollowsDefinition(q, s[i]);
    assert q + [s[i]] == p + s[i0..i + 1];
  }

  lemma AllGrown(p: Bytes, s: Bytes, i0: nat, q: Bytes, c: Wide, i: nat)
    requires |q| >= 4
    ensures !Inside(p, s, i0, q, c, i)
  {
  }

  // ------------------------------------------------------------------------- many characters

  /** Of at most K characters from t, cs have been delivered, from the first j bytes. */
  ghost predicate Reached(t: Bytes, K: nat, cs: seq<Wide>, j: nat) {
    j <= |t| && |cs| <= K && Decode(t, K) == Prepend(cs, j, Decode(t[j..], K - |cs|))
  }

  lemma AtStart(t: Bytes, K: nat)
    ensures Reached(t, K, [], 0)
  {
  }

  lemma OneMore(t: Bytes, K: nat, cs: seq<Wide>, j: nat, n: nat)
    requires Reached(t, K, cs, j) && |cs| < K && 0 < n && j + n <= |t| && IsChar(t[j..j + n]) && t[j] != 0
    ensures Reached(t, K, cs + [Value(t[j..j + n])], j + n)
  {
    hide Decode, Value, IsChar, IsPartial, First;
    var u := t[j..];
    assert u[..n] == t[j..j + n] && u[n..] == t[j + n..];
    CharLength(t[j..j + n]);
    CharIsFirst(u[..n], u);
    DecodeTakes(u, K - |cs|);
    var v := [Value(u[..n])];
    var d := Decode(u[n..], K - |cs| - 1);
    assert cs + (v + d.chars) == (cs + v) + d.chars;
    assert K - |cs + v| == K - |cs| - 1;
  }

  lemma CharLength(x: Bytes)
    requires IsChar(x)
    ensures 1 <= |x| <= 4
  {
  }

  lemma NoMore(t: Bytes, K: nat, cs: seq<Wide>, j: nat)
    requires Reached(t, K, cs, j)
    ensures |cs| == K ==> Decode(t, K) == Text(cs, j, Full)
    ensures |cs| < K && !Takes(t[j..]) ==>
      Decode(t, K) == Text(cs, j, if IsPartial(t[j..]) then Dry else if t[j] == 0 then Ended else Bad)
  {
  }

  lemma StillReadable(p: Bytes, s: Bytes, n: nat, k: nat)
    requires Readable(s, k) && k > 0 && n <= |s| && IsChar(p + s[..n]) && (p + s)[0] != 0
    ensures Readable(s[n..], k - 1)
  {
  }

  /** What the terminator adds to the buffer. */
  function Zero(why: Why): seq<Wide> {
    if why.Ended? then [0] else []
  }

  /** The characters cs stand in the buffer from at on, and nothing else of it has changed. */
  ghost predicate Stored(now: seq<Wide>, was: seq<Wide>, at: nat, cs: seq<Wide>) {
    at + |cs| <= |was| && now == Splice(was, at, cs)
  }

  lemma StoreOne(now: seq<Wide>, was: seq<Wide>, at: nat, cs: seq<Wide>, wc: Wide)
    requires Stored(now, was, at, cs) && at + |cs| < |was|
    ensures |now| == |was| && Stored(now[at + |cs| := wc], was, at, cs + [wc])
  {
  }

  lemma Ascii(b: Byte)
    ensures b - 1 < 0x7f <==> 0 < b < 0x80
    ensures b < 0x80 ==> IsChar([b]) && Value([b]) == b as Wide
    ensures !(0 < b < 0x80) ==> (b - 0xc2 > 0xf4 - 0xc2 <==> b == 0 || Length(b) == 0)
    ensures !(0 < b < 0x80) && b != 0 && Length(b) != 0 ==> b >= 0x80 && b - 0xc2 <= 0xf4 - 0xc2
  {
  }

  /** Everything a call with room for k characters stores, from t on. */
  function Stores(t: Bytes, k: nat): seq<Wide> {
    var d := Decode(t, k);
    d.chars + Zero(d.why)
  }

  /** The storing loop of mbsrtowcs, entered with wn1 of the room wn0 left. */
  method StoreLoop(ws: array<Wide>, at: nat, s: Bytes, wn0: TwoWay.Size, wn1: TwoWay.Size)
    returns (ret: Option<nat>, next: Option<nat>)
    requires Readable(s, wn1) && at + |Stores(s, wn1)| <= ws.Length
    modifies ws
    ensures var d := Decode(s, wn1);
            && !d.why.Dry? && ws[..] == Splice(old(ws[..]), at, Stores(s, wn1))
            && |d.chars| <= wn1 && ret == (if d.why.Bad? then None else Some(Counted(wn0, wn1, |d.chars|)))
            && next == (if d.why.Ended? then None else Some(d.used))
  {
    hide *;
    ghost var was, cs := ws[..], [];
    var i: nat, wn: TwoWay.Size, w: nat := 0, wn1, at;
    AtStart(s, wn1);
    StoresFit(was, at, s, wn1, cs, 0);
    StoredAtStart(was, at);
    assert s[0..] == s;
    while true
      invariant i <= |s| && wn + |cs| == wn1 && w == at + |cs|
      invariant Reached(s, wn1, cs, i) && Readable(s[i..], wn) && Stored(ws[..], was, at, cs)
      decreases |s| - i
    {
      ghost var now := ws[..];
      StopHere(now, was, at, s, wn1, cs, i);
      CountedSoFar(wn0, wn1, |cs|);
      if wn == 0 {
        return Some(wn0), Some(i);
      }
      AByteIsThere(s[i..], wn);
      Ascii(s[i]);
      var n: nat, wc;
      if s[i] - 1 < 0x7f {
        wc, n := s[i] as Wide, 1;
        assert s[i..i + 1] == [s[i]];
      } else {
        if s[i] - 0xc2 > 0xf4 - 0xc2 {
          NoLead(s[i..]);
          if s[i] == 0 {
            EndHere(now, was, at, s, wn1, cs, i);
            ws[w] := 0;
            assert ws[..] == now[w := 0];
            return Some(TwoWay.Minus(wn0, wn)), None;
          }
          return None, Some(i);
        }
        LeadTaken(s, i);
        var ok, c, j := FinishChar([s[i]], s, i + 1, LeadState(s[i]));
        NoCharacter(s[i..]);
        if !ok {
          return None, Some(j);
        }
        assert [s[i]] + s[i + 1..j] == s[i..j];
        wc, n := c, j - i;
      }
      Onwards(s, wn1, cs, i, n);
      StoresFit(was, at, s, wn1, cs + [wc], i + n);
      ws[w] := wc;
      assert ws[..] == now[w := wc];
      StoreOne(now, was, at, cs, wc);
      cs := cs + [wc];
      w := w + 1;
      wn := wn - 1;
      i := i + n;
    }
  }

  /** wn0 minus what is left of wn1 after n stores: n more than had been taken before. */
  function Counted(wn0: TwoWay.Size, wn1: TwoWay.Size, n: nat): nat
    requires n <= wn1
  {
    TwoWay.Minus(wn0, wn1 - n)
  }

  lemma CountedSoFar(wn0: TwoWay.Size, wn1: TwoWay.Size, n: nat)
    requires n <= wn1
    ensures Counted(wn0, wn1, n) == TwoWay.Minus(wn0, wn1 - n)
    ensures Counted(wn0, wn1, wn1) == wn0
  {
  }

  /** What has been delivered is the beginning of what the call stores. */
  lemma StoresFit(was: seq<Wide>, at: nat, t: Bytes, K: nat, cs: seq<Wide>, j: nat)
    requires Reached(t, K, cs, j) && at + |Stores(t, K)| <= |was|
    ensures at + |cs| <= |was|
  {
    hide Decode;
  }

  lemma Onwards(s: Bytes, K: nat, cs: seq<Wide>, i: nat, n: nat)
    requires Reached(s, K, cs, i) && |cs| < K && 0 < n && i + n <= |s| && IsChar(s[i..i + n]) && s[i] != 0
    requires Readable(s[i..], K - |cs|)
    ensures Reached(s, K, cs + [Value(s[i..i + n])], i + n) && Readable(s[i + n..], K - |cs| - 1)
  {
    hide *;
    OneMore(s, K, cs, i, n);
    assert [] + s[i..] == s[i..] && [] + s[i..][..n] == s[i..i + n] && s[i..][n..] == s[i + n..];
    StillReadable([], s[i..], n, K - |cs|);
  }

  ghost predicate Terminated(u: Bytes) {
    exists i :: 0 <= i < |u| && u[i] == 0
  }

  lemma OnwardsToZero(s: Bytes, K: nat, cs: seq<Wide>, i: nat, n: nat)
    requires Reached(s, K, cs, i) && |cs| < K && 0 < n && i + n <= |s| && IsChar(s[i..i + n]) && s[i] != 0
    requires Terminated(s[i..])
    ensures Reached(s, K, cs + [Value(s[i..i + n])], i + n) && Terminated(s[i + n..])
  {
    hide *;
    OneMore(s, K, cs, i, n);
    assert [] + s[i..] == s[i..] && [] + s[i..][..n] == s[i..i + n] && s[i..][n..] == s[i + n..];
    TerminatorStaysAhead([], s[i..], n);
  }

  lemma StoredAtStart(was: seq<Wide>, at: nat)
    requires at <= |was|
    ensures Stored(was, was, at, [])
  {
  }

  lemma AByteIsThere(u: Bytes, k: nat)
    requires Readable(u, k) && k > 0
    ensures u != [] && !IsPartial(u)
  {
  }

  lemma EmptyIsPartial()
    ensures IsPartial([])
  {
  }

  lemma NoLead(u: Bytes)
    requires u != [] && (u[0] == 0 || Length(u[0]) == 0)
    ensures u[0] != 0 ==> First(u) == 0
    ensures !Takes(u)
  {
  }

  lemma NoCharacter(u: Bytes)
    requires u != []
    ensures First(u) == 0 ==> !Takes(u)
  {
  }

  lemma LeadTaken(s: Bytes, i: nat)
    requires i < |s| && s[i] >= 0x80 && s[i] - 0xc2 <= 0xf4 - 0xc2 && !IsPartial(s[i..])
    ensures Inside([s[i]], s, i + 1, [s[i]], LeadState(s[i]), i + 1)
    ensures [s[i]] + s[i + 1..] == s[i..]
  {
  }

  lemma StopHere(now: seq<Wide>, was: seq<Wide>, at: nat, t: Bytes, K: nat, cs: seq<Wide>, j: nat)
    requires Reached(t, K, cs, j) && Stored(now, was, at, cs)
    ensures |cs| == K || (|cs| < K && !IsPartial(t[j..]) && !Takes(t[j..]) && t[j] != 0) ==>
              && Decode(t, K) == Text(cs, j, if |cs| == K then Full else Bad)
              && Stores(t, K) == cs && now == Splice(was, at, Stores(t, K))
  {
    hide Decode, Splice, IsPartial, First;
    NoMore(t, K, cs, j);
    assert cs + [] == cs;
  }

  lemma EndHere(now: seq<Wide>, was: seq<Wide>, at: nat, t: Bytes, K: nat, cs: seq<Wide>, j: nat)
    requires Reached(t, K, cs, j) && Stored(now, was, at, cs) && at + |Stores(t, K)| <= |was|
    requires |cs| < K && j < |t| && t[j] == 0
    ensures Decode(t, K) == Text(cs, j, Ended) && at + |cs| < |now| == |was|
    ensures now[at + |cs| := 0] == Splice(was, at, Stores(t, K))
  {
    hide Decode, Splice, First;
    NoMore(t, K, cs, j);
    StoreOne(now, was, at, cs, 0);
  }

  /** The room a call really has. A pending character is finished and stored without a look at wn; with no
      room at all wn then wraps, and what is left is all a size_t can count. */
  function Room(c0: Wide, wn0: TwoWay.Size): nat {
    if c0 != 0 && wn0 == 0 then TwoWay.SIZE_MAX + 1 else wn0
  }

  /** mbsrtowcs into a buffer, in state c0, which p has led to. What it stores is what decoding p and the
      new bytes together delivers, and nothing else of ws changes; ws goes on behind the room far enough
      for that. When the pending character fails the pointer is one before the new bytes. *st is left 0. */
  method Mbsrtowcs(ws: array<Wide>, at: nat, s: Bytes, wn0: TwoWay.Size, c0: Wide, ghost p: Bytes)
    returns (ret: Option<nat>, next: Option<int>, st: Wide)
    requires IsPartial(p) && c0 == StateOf(p) && |s| <= TwoWay.SIZE_MAX
    requires Readable(s, Room(c0, wn0)) && at + |Stores(p + s, Room(c0, wn0))| <= ws.Length
    modifies ws
    ensures st == 0
    ensures var d := Decode(p + s, Room(c0, wn0));
            && !d.why.Dry? && ws[..] == Splice(old(ws[..]), at, Stores(p + s, Room(c0, wn0)))
            && ret == (if d.why.Bad? then None else Some(|d.chars|))
            && next == if d.why.Ended? then None else if c0 != 0 && d.chars == [] then Some(-1) else Some(d.used - |p|)
  {
    hide IsPartial, StateOf, Decode, First, Splice, Readable, Inside, IsChar, Value, Stored, Stores;
    NonZeroIsPartial(p);
    ghost var was := ws[..];
    if c0 == 0 {
      assert p + s == s;
      ret, next := StoreLoop(ws, at, s, wn0, wn0);
      CountedInAll(wn0, Decode(s, wn0));
      return ret, next, 0;
    }
    ghost var K := Room(c0, wn0);
    Pending(p, s, K);
    assert s[0..] == s;
    var ok, c, i := FinishChar(p, s, 0, c0);
    if !ok {
      PendingFails(p, s, c0, K);
      SpliceNothing(was, at);
      return None, Some(i), 0;
    }
    PendingTaken(p, s, c0, i, K);
    PendingStores(p, s, i, c, K);
    ws[at] := c;
    ghost var now := ws[..];
    var wn := TwoWay.Minus(wn0, 1);
    ret, next := StoreLoop(ws, at + 1, s[i..], wn0, wn);
    ghost var d := Decode(s[i..], wn);
    StoredFirst(was, now, at, c, Stores(s[i..], wn));
    CountedAfterOne(s[i..], wn0, wn, d);
    next := if next.Some? then Some(next.value + i) else None;
    st := 0;
  }

  lemma CountedInAll(wn0: TwoWay.Size, d: Text)
    requires |d.chars| <= wn0
    ensures Counted(wn0, wn0, |d.chars|) == |d.chars|
  {
  }

  /** After the pending character the count comes out right although wn may have wrapped. */
  lemma CountedAfterOne(u: Bytes, wn0: TwoWay.Size, wn: TwoWay.Size, d: Text)
    requires wn == TwoWay.Minus(wn0, 1) && d == Decode(u, wn) && |u| < TwoWay.SIZE_MAX
    ensures |d.chars| <= wn && Counted(wn0, wn, |d.chars|) == |d.chars| + 1
  {
    hide Decode;
    DecodeThenEncodeAll(u, wn);
    EncodingIsNoShorter(d.chars);
  }

  lemma {:induction false} EncodingIsNoShorter(ws: seq<Wide>)
    requires AllScalars(ws)
    ensures |ws| <= |EncodeAll(ws)|
  {
    hide Encode, IsScalar;
    if ws != [] {
      EncodeThenDecode(ws[0]);
      CharLength(Encode(ws[0]).value);
      EncodingIsNoShorter(ws[1..]);
    }
  }

  lemma PendingStores(p: Bytes, s: Bytes, i: nat, c: Wide, k: nat)
    requires i <= |s| && k > 0 && Decode(p + s, k) == Prepend([c], |p| + i, Decode(s[i..], k - 1))
    ensures Stores(p + s, k) == [c] + Stores(s[i..], k - 1)
  {
    hide Decode;
    var d := Decode(s[i..], k - 1);
    assert [c] + (d.chars + Zero(d.why)) == ([c] + d.chars) + Zero(d.why);
  }

  /** Every store stays inside the room the caller gave exactly when no character is pending, or there is
      room for one, or the pending one fails. */
  lemma StoresStayInsideIff(p: Bytes, s: Bytes, wn0: TwoWay.Size)
    requires IsPartial(p) && Readable(s, Room(StateOf(p), wn0))
    ensures |Stores(p + s, Room(StateOf(p), wn0))| <= wn0 <==> p == [] || wn0 > 0 || First(p + s) == 0
  {
    hide Decode, First, IsPartial, StateOf;
    NonZeroIsPartial(p);
    var K := Room(StateOf(p), wn0);
    DecodeThenEncodeAll(p + s, K);
    if p != [] && wn0 == 0 {
      ReadableMeansMore(p, s, K);
      PartialLead(p);
      if First(p + s) == 0 {
        DecodeStops(p + s, K);
      } else {
        DecodeTakes(p + s, K);
      }
    }
  }

  lemma ReadableMeansMore(p: Bytes, s: Bytes, k: nat)
    requires IsPartial(p) && Readable(s, k) && k > 0
    ensures !IsPartial(p + s)
  {
    if Terminated(s) {
      var i :| 0 <= i < |s| && s[i] == 0;
      assert (p + s)[|p| + i] == 0;
    }
  }

  /** The pending lead of a two-byte character, its second byte and the terminator, with no room at all:
      two characters are stored. */
  lemma NoRoomIsOverrun()
    ensures var p: Bytes, s: Bytes := [0xc3], [0xa9, 0];
            && IsPartial(p) && StateOf(p) != 0 && Readable(s, Room(StateOf(p), 0))
            && Stores(p + s, Room(StateOf(p), 0)) == [0xe9, 0]
  {
    hide Decode, First, StateOf;
    var p: Bytes, s: Bytes := [0xc3], [0xa9, 0];
    NonZeroIsPartial(p);
    var t, K := p + s, Room(StateOf(p), 0);
    assert s[1] == 0;
    assert t[..2] == [0xc3, 0xa9] && t[2..] == [0];
    CharIsFirst([0xc3, 0xa9], t);
    DecodeTakes(t, K);
    NotPartialFromZero([0]);
    NoLead([0]);
    DecodeStops([0], K - 1);
  }

  lemma StoredFirst(was: seq<Wide>, now: seq<Wide>, at: nat, c: Wide, cs: seq<Wide>)
    requires at + 1 + |cs| <= |was| && now == was[at := c]
    ensures |now| == |was| && Splice(now, at + 1, cs) == Splice(was, at, [c] + cs)
  {
  }

  lemma Pending(p: Bytes, s: Bytes, k: nat)
    requires IsPartial(p) && p != [] && Readable(s, k) && k > 0
    ensures Inside(p, s, 0, p, StateOf(p), 0)
  {
  }

  lemma PendingFails(p: Bytes, s: Bytes, c: Wide, k: nat)
    requires Inside(p, s, 0, p, c, 0) && k > 0 && First(p + s[0..]) == 0
    ensures Decode(p + s, k) == Text([], 0, Bad) && Stores(p + s, k) == []
  {
  }

  lemma PartialLead(p: Bytes)
    requires IsPartial(p) && p != []
    ensures p[0] != 0
  {
  }

  lemma PendingTaken(p: Bytes, s: Bytes, c: Wide, i: int, k: nat)
    requires Inside(p, s, 0, p, c, 0) && k > 0 && 0 < i <= |s| && IsChar(p + s[0..i]) && Readable(s, k)
    ensures Decode(p + s, k) == Prepend([Value(p + s[0..i])], |p| + i, Decode(s[i..], k - 1))
    ensures Readable(s[i..], k - 1)
  {
    hide StateOf, Value, IsPartial, First, Decode, Readable, IsChar;
    var t, x := p + s, p + s[0..i];
    assert s[..i] == s[0..i] && s[0..] == s;
    assert t[..|x|] == x && t[|x|..] == s[i..];
    PartialLead(p);
    StillReadable(p, s, i, k);
    CharIsFirst(x, t);
    DecodeTakes(t, k);
  }

  // ------------------------------------------------------------------------- counting

  /** From resume0 on: like FinishChar, but the state is not shifted; its bits 25 and 19 tell whether a
      third and a fourth byte belong to the character. */
  method SkipChar(ghost p: Bytes, s: Bytes, i0: nat, c: Wide) returns (ok: bool, i: int)
    requires Inside(p, s, i0, p, c, i0)
    ensures ok ==> i0 < i <= |s| && IsChar(p + s[i0..i])
    ensures !ok ==> i == i0 - 1 && First(p + s[i0..]) == 0
  {
    hide *;
    i := i0;
    MoreToRead(p, s, i0, p, c, i);
    Garbled(p, s, i0, p, c, i);
    if OutOfBounds(c, s[i]) {
      return false, i - 1;
    }
    Grow(p, s, i0, p, c, i);
    TellsLength(c, s[i]);
    ghost var q, c2 := p + [s[i]], Shift(c, s[i]);
    i := i + 1;
    if c & 0x200_0000 != 0 {
      MoreToRead(p, s, i0, q, c2, i);
      Garbled(p, s, i0, q, c2, i);
      if s[i] - 0x80 >= 0x40 {
        return false, i - 2;
      }
      Grow(p, s, i0, q, c2, i);
      TailCheck(s[i]);
      TellsLengthTwice(c, s[i - 1], s[i]);
      q, c2 := q + [s[i]], Shift(c2, s[i]);
      i := i + 1;
      if c & 0x8_0000 != 0 {
        MoreToRead(p, s, i0, q, c2, i);
        Garbled(p, s, i0, q, c2, i);
        if s[i] - 0x80 >= 0x40 {
          return false, i - 3;
        }
        Grow(p, s, i0, q, c2, i);
        AllGrown(p, s, i0, q + [s[i]], Shift(c2, s[i]), i + 1);
        i := i + 1;
      }
    }
    return true, i;
  }

  lemma TellsLength(c: Wide, b: Byte)
    requires !OutOfBounds(c, b)
    ensures c & 0x200_0000 != 0 <==> HighBit(Shift(c, b))
  {
  }

  lemma TellsLengthTwice(c: Wide, b: Byte, d: Byte)
    requires !OutOfBounds(c, b)
    ensures Tail(d) ==> (c & 0x8_0000 != 0 <==> HighBit(Shift(Shift(c, b), d)))
  {
  }

  /** The counting loop of mbsrtowcs. The room wn0 plays no part: size_t arithmetic on it wraps, and the
      difference comes out right all the same. */
  method CountLoop(s: Bytes, wn0: TwoWay.Size) returns (ret: Option<nat>)
    requires |s| < 0x1_0000_0000_0000_0000 && Terminated(s)
    ensures var d := Decode(s, |s| + 1);
            (d.why.Ended? || d.why.Bad?) && ret == if d.why.Bad? then None else Some(|d.chars|)
  {
    hide *;
    ghost var cs, K := [], |s| + 1;
    var i: nat, wn := 0, wn0;
    AtStart(s, K);
    NothingTaken(wn0);
    assert s[0..] == s;
    while true
      invariant i <= |s| && |cs| <= i && TwoWay.Minus(wn0, wn) == |cs|
      invariant Reached(s, K, cs, i) && Terminated(s[i..])
      decreases |s| - i
    {
      NoMore(s, K, cs, i);
      TerminatorAhead(s[i..], K - |cs|);
      Ascii(s[i]);
      var n: nat;
      if s[i] - 1 < 0x7f {
        assert s[i..i + 1] == [s[i]];
        n := 1;
      } else {
        if s[i] - 0xc2 > 0xf4 - 0xc2 {
          NoLead(s[i..]);
          return if s[i] == 0 then Some(TwoWay.Minus(wn0, wn)) else None;
        }
        LeadTaken(s, i);
        var ok, j := SkipChar([s[i]], s, i + 1, LeadState(s[i]));
        NoCharacter(s[i..]);
        if !ok {
          return None;
        }
        assert [s[i]] + s[i + 1..j] == s[i..j];
        n := j - i;
      }
      OnwardsToZero(s, K, cs, i, n);
      cs := cs + [Value(s[i..i + n])];
      OneTaken(wn0, wn);
      wn := TwoWay.Minus(wn, 1);
      i := i + n;
    }
  }

  lemma NothingTaken(wn: TwoWay.Size)
    ensures TwoWay.Minus(wn, wn) == 0
  {
  }

  lemma OneTaken(wn0: TwoWay.Size, wn: TwoWay.Size)
    requires TwoWay.Minus(wn0, wn) < 0xffff_ffff_ffff_ffff
    ensures TwoWay.Minus(wn0, TwoWay.Minus(wn, 1)) == TwoWay.Minus(wn0, wn) + 1
  {
  }

  lemma TerminatorAhead(u: Bytes, k: nat)
    requires Terminated(u)
    ensures u != [] && !IsPartial(u)
  {
  }

  lemma TerminatorStaysAhead(p: Bytes, u: Bytes, n: nat)
    requires Terminated(u)
    requires n <= |u| && IsChar(p + u[..n]) && (p + u)[0] != 0
    ensures Terminated(u[n..])
  {
    hide IsChar;
    var i :| 0 <= i < |u| && u[i] == 0;
    var x := p + u[..n];
    CharLength(x);
    assert x[..|x|] == x && x[0] == (p + u)[0];
    assert i < n ==> x[|p| + i] == 0;
    NonZeroLead(x, |x|);
    assert u[n..][i - n] == 0;
  }

  /** mbsrtowcs with no buffer, in state c0, which it leaves alone. */
  method MbsrtowcsCount(s: Bytes, wn0: TwoWay.Size, c0: Wide, ghost p: Bytes) returns (ret: Option<nat>)
    requires |s| < 0x1_0000_0000_0000_0000 && Terminated(s)
    requires IsPartial(p) && c0 == StateOf(p)
    ensures var d := Decode(p + s, |p| + |s| + 1);
            (d.why.Ended? || d.why.Bad?) && ret == if d.why.Bad? then None else Some(|d.chars|)
  {
    hide IsPartial, StateOf, Decode, First, Inside, IsChar, Value;
    NonZeroIsPartial(p);
    if c0 == 0 {
      assert p + s == s;
      ret := CountLoop(s, wn0);
      return;
    }
    ghost var K := |p| + |s| + 1;
    ReadableByZero(s, K);
    Pending(p, s, K);
    assert s[0..] == s;
    var ok, i := SkipChar(p, s, 0, c0);
    if !ok {
      PendingFails(p, s, c0, K);
      return None;
    }
    PendingTaken(p, s, c0, i, K);
    PartialLead(p);
    assert s[0..i] == s[..i] && (p + s)[0] == p[0];
    TerminatorStaysAhead(p, s, i);
    var n := CountLoop(s[i..], TwoWay.Minus(wn0, 1));
    DecodeGoesOn(s[i..], |s[i..]| + 1, K - 1);
    ret := if n.Some? then Some(n.value + 1) else None;
  }

  lemma ReadableByZero(s: Bytes, k: nat)
    requires Terminated(s)
    ensures Readable(s, k)
  {
  }

  /** The count asked for with no buffer is exact: room for more than that many characters is enough for
      the whole string, and any less room is filled. */
  lemma CountIsExact(u: Bytes, k: nat)
    requires Decode(u, |u| + 1).why.Ended?
    ensures var d := Decode(u, |u| + 1);
            if k > |d.chars| then Decode(u, k) == d
            else Decode(u, k).why.Full? && Decode(u, k).chars == d.chars[..k]
  {
    hide Decode, IsPartial, First;
    var d := Decode(u, |u| + 1);
    DecodeThenEncodeAll(u, |u| + 1);
    var rest := u[d.used..];
    assert u == u[..d.used] + rest && rest[0] == 0;
    DecodeOfEncoding(d.chars, rest, k);
    if k > |d.chars| {
      NotPartialFromZero(rest);
      NoLead(rest);
      DecodeStops(rest, k - |d.chars|);
      assert d.chars + [] == d.chars;
    }
  }

  lemma NotPartialFromZero(u: Bytes)
    requires u != [] && u[0] == 0
    ensures !IsPartial(u)
  {
  }
}
