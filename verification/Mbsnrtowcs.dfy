/**
 mbsnrtowcs of src/orbis_wchar32.c: at most n bytes, in batches through mbsrtowcs and, near the end, one
 mbrtowc at a time. The input is a sequence of exactly n bytes that need not be terminated, so every read
 the model does is a read inside them.
 */
module Mbsnrtowcs {
  import opened Wrappers
  import opened Utf8
  import opened Mbrtowc
  import opened BytesToWide
  import opened Splicing
  import opened Strings = Mbsrtowcs
  import TwoWay

  /** The elements of wbuf. */
  const SCRATCH: nat := 256

  /** With no buffer there is no limit but the input: fewer characters than |s| + 1. */
  function Limit(counting: bool, s: Bytes, wn: nat): nat {
    if counting then |s| + 1 else wn
  }

  /** A call: whether it only counts, its buffer and what that held, its input and its limit. */
  datatype Job = Job(counting: bool, was: seq<Wide>, base: nat, s: Bytes, wn0: nat) {
    ghost predicate Fits() {
      if counting then |was| == SCRATCH else base + wn0 <= |was|
    }

    function Max(): nat {
      Limit(counting, s, wn0)
    }
  }

  /** The characters cs have come from the first i bytes. Storing, they stand in the buffer, the next one
      goes to w and wn more fit; counting, the buffer is the scratch. */
  ghost predicate Under(job: Job, now: seq<Wide>, w: nat, wn: nat, cs: seq<Wide>, i: nat) {
    && job.Fits() && Reached(job.s, job.Max(), cs, i) && |cs| <= i <= |job.s| && |now| == |job.was|
    && if job.counting then w + wn == SCRATCH
       else wn + |cs| == job.wn0 && w == job.base + |cs| && Stored(now, job.was, job.base, cs)
  }

  /** What the call returns, and the contents of the buffer then. */
  ghost predicate Finished(job: Job, now: seq<Wide>, cnt: Option<nat>, next: Option<nat>) {
    var d := Decode(job.s, job.Max());
    && cnt == (if d.why.Bad? then None else Some(|d.chars|))
    && next == (if d.why.Ended? then None else Some(d.used))
    && (!job.counting ==> job.base + |d.chars| + |Zero(d.why)| <= |job.was|
                          && now == Splice(job.was, job.base, d.chars + Zero(d.why)))
  }

  /** mbsnrtowcs from the initial state. With no buffer it counts, converting into a scratch of 256. It
      does what a plain loop of mbrtowc calls does. rounds is how often its last loop goes round. */
  method Mbsnrtowcs(wcs: array?<Wide>, at: nat, s: Bytes, wn0: TwoWay.Size)
    returns (cnt: Option<nat>, next: Option<nat>, st: Wide, ghost rounds: nat)
    requires |s| <= TwoWay.SIZE_MAX && (wcs != null ==> at + wn0 <= wcs.Length)
    modifies if wcs == null then {} else {wcs}
    ensures st == 0
    ensures var d := PlainLoop(s, Limit(wcs == null, s, wn0));
            && cnt == (if d.why.Bad? then None else Some(|d.chars|))
            && next == (if d.why.Ended? then None else Some(d.used))
            && (wcs != null ==> at + |d.chars| + |Zero(d.why)| <= wcs.Length
                                && wcs[..] == Splice(old(wcs[..]), at, d.chars + Zero(d.why)))
    ensures rounds == Rounds(wcs == null, s, if wcs == null then SCRATCH else wn0)
  {
    hide Rounds, Decode, PlainLoop, First, IsPartial, Splice;
    PlainLoopDecodes(s, Limit(wcs == null, s, wn0));
    if wcs == null {
      var wbuf := new Wide[SCRATCH];
      cnt, next, rounds := Batches(true, wbuf, 0, s, wn0);
    } else {
      cnt, next, rounds := Batches(false, wcs, at, s, wn0);
    }
    st := 0;
  }

  /** The batches, as long as they are worth it; then the rest. */
  method Batches(counting: bool, ws: array<Wide>, base: nat, s: Bytes, wn0: TwoWay.Size)
    returns (cnt: Option<nat>, next: Option<nat>, ghost rounds: nat)
    requires |s| <= TwoWay.SIZE_MAX && Job(counting, ws[..], base, s, wn0).Fits() && (counting ==> base == 0)
    modifies ws
    ensures Finished(Job(counting, old(ws[..]), base, s, wn0), ws[..], cnt, next)
    ensures rounds == Rounds(counting, s, if counting then SCRATCH else wn0)
  {
    hide *;
    ghost var job, cs: seq<Wide> := Job(counting, ws[..], base, s, wn0), [];
    var w: nat, wn: nat, n: nat, i: nat, sum: nat := base, if counting then 256 else wn0, |s|, 0, 0;
    UnderWay(job);
    assert s[0..] == s;
    while wn > 0 && (n / 4 >= wn || n / 4 > 32)
      invariant i <= |s| && n == |s| - i && Under(job, ws[..], w, wn, cs, i) && sum == |cs|
      invariant counting ==> w == 0 && wn == 256
      invariant Rounds(counting, s[i..], wn) == Rounds(counting, s, if counting then SCRATCH else wn0)
      decreases n
    {
      var n2 := if n / 4 >= wn then wn else n / 4;
      ghost var now, d := ws[..], Decode(s[i..], n2);
      BatchFits(job, now, w, wn, cs, i, n2);
      RoundsOfBatch(counting, s, i, wn);
      var l, s', _ := Strings.Mbsrtowcs(ws, w, s[i..], n2, 0, []);
      BatchDone(job, ws[..], now, w, wn, cs, i, n2);
      if l == None {
        return None, Some(i + s'.value), 0;
      }
      sum := sum + l.value;
      if s' == None {
        return Some(sum), None, 0;
      }
      if !counting {
        w := w + l.value;
        wn := wn - l.value;
      }
      cs := cs + d.chars;
      i := i + s'.value;
      n := n - s'.value;
    }
    RoundsOfTail(job, ws[..], w, wn, cs, i);
    cnt, next, rounds := OneByOne(job, ws, s, w, wn, n, i, cs, sum);
  }

  /** The rest of the call, one mbrtowc at a time; rounds is how often a character is stored. Counting,
      there are at most 131 bytes left, so the scratch, from its start, is not left either. */
  method OneByOne(ghost job: Job, ws: array<Wide>, s: Bytes, w0: nat, wn0: nat, n0: nat, i0: nat,
                  ghost cs0: seq<Wide>, sum0: nat)
    returns (cnt: Option<nat>, next: Option<nat>, ghost rounds: nat)
    requires s == job.s && i0 <= |s| && n0 == |s| - i0 && sum0 == |cs0|
    requires Under(job, ws[..], w0, wn0, cs0, i0) && (job.counting ==> w0 == 0 && n0 <= 131)
    modifies ws
    ensures Finished(job, ws[..], cnt, next)
    ensures rounds == |Decode(job.s, job.Max()).chars| - |cs0|
  {
    hide *;
    ghost var cs := cs0;
    var w: nat, wn: nat, n: nat, i: nat, sum: nat := w0, wn0, n0, i0, sum0;
    rounds := 0;
    while wn > 0 && n > 0
      invariant i <= |s| && n == |s| - i && Under(job, ws[..], w, wn, cs, i) && sum == |cs|
      invariant job.counting ==> w + n <= 131
      invariant rounds == |cs| - |cs0|
      decreases n
    {
      StartIsValid();
      var r := MbrtowcCall(0, s[i..]);
      ghost var now := ws[..];
      OneFits(job, now, w, wn, cs, i);
      if r.wc.Some? {
        ws[w] := r.wc.value;
        assert ws[..] == now[w := r.wc.value];
      }
      OneDone(job, ws[..], now, w, wn, cs, i);
      if r.ret == Illegal {
        return None, Some(i), rounds;
      } else if r.ret == Nul {
        return Some(sum), None, rounds;
      } else if r.ret == Incomplete {
        return Some(sum), Some(i), rounds;
      }
      cs := cs + [r.wc.value];
      i := i + r.ret.n;
      n := n - r.ret.n;
      w := w + 1;
      wn := wn - 1;
      sum := sum + 1;
      rounds := rounds + 1;
    }
    AllDone(job, ws[..], w, wn, cs, i);
    return Some(sum), Some(i), rounds;
  }

  lemma UnderWay(job: Job)
    requires job.Fits() && (job.counting ==> job.base == 0)
    ensures Under(job, job.was, job.base, if job.counting then 256 else job.wn0, [], 0)
  {
  }

  lemma StartIsValid()
    ensures ValidState(0)
  {
    StartIsZero();
  }

  lemma BatchFits(job: Job, now: seq<Wide>, w: nat, wn: nat, cs: seq<Wide>, i: nat,
                  m: TwoWay.Size)
    requires Under(job, now, w, wn, cs, i) && (job.counting ==> w == 0) && 0 < m <= wn && 4 * m <= |job.s| - i
    ensures i <= |job.s| && w + |Stores(job.s[i..], m)| <= |now| && Readable(job.s[i..], m)
    ensures IsPartial([]) && StateOf([]) == 0 && [] + job.s[i..] == job.s[i..] && Room(0, m) == m
  {
    hide Decode, First, Stored, Reached;
    StartIsZero();
    DecodeThenEncodeAll(job.s[i..], m);
  }

  /** After a batch the call goes on behind it, or is finished the way the batch was. */
  lemma BatchDone(job: Job, now': seq<Wide>, now: seq<Wide>, w: nat, wn: nat, cs: seq<Wide>, i: nat, m: nat)
    requires Under(job, now, w, wn, cs, i) && 0 < m <= wn && m <= |job.s| - i
    requires var d := Decode(job.s[i..], m);
             !d.why.Dry? && w + |Stores(job.s[i..], m)| <= |now| && now' == Splice(now, w, Stores(job.s[i..], m))
    ensures var d := Decode(job.s[i..], m);
            && (d.why.Full? ==> |d.chars| == m && 0 < d.used <= |job.s| - i
                                && Under(job, now', if job.counting then w else w + m,
                                         if job.counting then wn else wn - m, cs + d.chars, i + d.used))
            && (d.why.Bad? ==> Finished(job, now', None, Some(i + d.used)))
            && (d.why.Ended? ==> Finished(job, now', Some(|cs| + |d.chars|), None))
  {
    hide Decode, Splice, First, IsPartial, Encode;
    var d := Decode(job.s[i..], m);
    BatchDecodes(job.s, job.Max(), cs, i, m);
    if !job.counting {
      BatchStored(now', now, job.was, job.base, cs, d.chars + Zero(d.why));
      assert (cs + d.chars) + Zero(d.why) == cs + (d.chars + Zero(d.why));
      assert d.chars + Zero(Full) == d.chars;
    } else {
      SpliceLength(now, w, d.chars + Zero(d.why));
    }
  }

  lemma BatchDecodes(s: Bytes, K: nat, cs: seq<Wide>, i: nat, m: nat)
    requires Reached(s, K, cs, i) && 0 < m <= K - |cs|
    ensures var d := Decode(s[i..], m);
            if d.why.Full? then |d.chars| == m <= d.used <= |s| - i && Reached(s, K, cs + d.chars, i + d.used)
            else Decode(s, K) == Prepend(cs, i, d)
  {
    hide Decode, First, IsPartial;
    var d := Decode(s[i..], m);
    DecodeGoesOn(s[i..], m, K - |cs|);
    DecodeThenEncodeAll(s[i..], m);
    if d.why.Full? {
      EncodingIsNoShorter(d.chars);
      var j := i + d.used;
      assert s[i..][d.used..] == s[j..];
      var e := Decode(s[j..], K - |cs| - m);
      assert cs + (d.chars + e.chars) == (cs + d.chars) + e.chars;
      assert K - |cs + d.chars| == K - |cs| - m;
    }
  }

  lemma BatchStored(now': seq<Wide>, now: seq<Wide>, was: seq<Wide>, base: nat, cs: seq<Wide>, more: seq<Wide>)
    requires Stored(now, was, base, cs) && base + |cs| + |more| <= |now| && now' == Splice(now, base + |cs|, more)
    ensures |now| == |was| == |now'| && Stored(now', was, base, cs + more)
  {
  }

  lemma SpliceLength(now: seq<Wide>, at: nat, more: seq<Wide>)
    requires at + |more| <= |now|
    ensures |Splice(now, at, more)| == |now|
  {
  }

  lemma OneFits(job: Job, now: seq<Wide>, w: nat, wn: nat, cs: seq<Wide>, i: nat)
    requires Under(job, now, w, wn, cs, i) && wn > 0
    ensures w < |now|
  {
  }

  lemma OneDone(job: Job, now': seq<Wide>, now: seq<Wide>, w: nat, wn: nat, cs: seq<Wide>, i: nat)
    requires Under(job, now, w, wn, cs, i) && wn > 0 && i < |job.s| && w < |now|
    requires var r := Call(0, job.s[i..]); now' == if r.wc.Some? then now[w := r.wc.value] else now
    ensures var r := Call(0, job.s[i..]);
            match r.ret
            case Got(n) =>
              r.wc.Some? && 0 < n <= |job.s| - i && Under(job, now', w + 1, wn - 1, cs + [r.wc.value], i + n)
            case Nul => Finished(job, now', Some(|cs|), None)
            case Illegal => Finished(job, now', None, Some(i))
            case Incomplete => Finished(job, now', Some(|cs|), Some(i))
    ensures !Call(0, job.s[i..]).ret.Got? ==> Decode(job.s, job.Max()).chars == cs
  {
    hide Decode, Splice, First, IsPartial, Call, Value, IsChar;
    var u, K := job.s[i..], job.Max();
    CallIsFirst(u);
    CallUsesItsBytes(0, u);
    NoMore(job.s, K, cs, i);
    assert |cs| < K;
    var r := Call(0, u);
    assert cs + [] == cs;
    if r.ret.Got? {
      var n := r.ret.n;
      assert u[..n] == job.s[i..i + n];
      OneMore(job.s, K, cs, i, n);
    } else {
      Untaken(u);
    }
    if !job.counting && r.wc.Some? {
      StoreOne(now, job.was, job.base, cs, r.wc.value);
    }
  }

  lemma Untaken(u: Bytes)
    requires IsPartial(u) || (u != [] && (u[0] == 0 || First(u) == 0))
    ensures !Takes(u)
  {
  }

  lemma AllDone(job: Job, now: seq<Wide>, w: nat, wn: nat, cs: seq<Wide>, i: nat)
    requires Under(job, now, w, wn, cs, i) && (wn == 0 || i == |job.s|) && (job.counting ==> w <= 131)
    ensures Finished(job, now, Some(|cs|), Some(i)) && Decode(job.s, job.Max()).chars == cs
  {
  }

  // ------------------------------------------------------------------------- how long the last loop is

  /** What the batches leave to the last loop: the bytes and the room; None when a batch ends the call. */
  datatype Rest = Rest(bytes: Bytes, room: nat)

  function AfterBatches(counting: bool, u: Bytes, wn: nat): Option<Rest>
    decreases |u|
  {
    if wn > 0 && (|u| / 4 >= wn || |u| / 4 > 32) then
      var m := if |u| / 4 >= wn then wn else |u| / 4;
      FullBatchTakes(u, m);
      var d := Decode(u, m);
      if d.why.Full? then AfterBatches(counting, u[d.used..], if counting then wn else wn - m) else None
    else Some(Rest(u, wn))
  }

  lemma FullBatchTakes(u: Bytes, m: nat)
    requires m > 0
    ensures Decode(u, m).why.Full? ==> 0 < Decode(u, m).used <= |u|
  {
    hide Decode;
    DecodeThenEncodeAll(u, m);
    EncodingIsNoShorter(Decode(u, m).chars);
  }

  /** How often the last loop goes round: once for every character left to it. */
  function Rounds(counting: bool, u: Bytes, wn: nat): nat {
    match AfterBatches(counting, u, wn)
    case None => 0
    case Some(rest) => |Decode(rest.bytes, rest.room).chars|
  }

  lemma RoundsOfBatch(counting: bool, s: Bytes, i: nat, wn: nat)
    requires i <= |s| && wn > 0 && ((|s| - i) / 4 >= wn || (|s| - i) / 4 > 32)
    ensures var u := s[i..];
            var m := if |u| / 4 >= wn then wn else |u| / 4;
            var d := Decode(u, m);
            if d.why.Full? then
              i + d.used <= |s|
              && Rounds(counting, u, wn) == Rounds(counting, s[i + d.used..], if counting then wn else wn - m)
            else Rounds(counting, u, wn) == 0
  {
    hide Decode;
    var u := s[i..];
    var m := if |u| / 4 >= wn then wn else |u| / 4;
    FullBatchTakes(u, m);
    var d := Decode(u, m);
    if d.why.Full? {
      assert u[d.used..] == s[i + d.used..];
    }
  }

  /** When the batches have come to their end, the characters still missing are those of the last loop. */
  lemma RoundsOfTail(job: Job, now: seq<Wide>, w: nat, wn: nat, cs: seq<Wide>, i: nat)
    requires Under(job, now, w, wn, cs, i)
    requires var n := |job.s| - i; wn == 0 || (n / 4 < wn && n / 4 <= 32)
    requires job.counting ==> w == 0
    ensures |Decode(job.s, job.Max()).chars| - |cs| == Rounds(job.counting, job.s[i..], wn)
  {
    hide Decode, Splice;
    var u := job.s[i..];
    if job.counting {
      var k := job.Max() - |cs|;
      RoomDoesNotMatter(u, wn, k);
    }
  }

  lemma RoomDoesNotMatter(u: Bytes, m: nat, k: nat)
    requires |u| < m && |u| < k
    ensures Decode(u, m) == Decode(u, k)
  {
    hide Decode;
    var least := if m < k then m else k;
    DecodeThenEncodeAll(u, least);
    EncodingIsNoShorter(Decode(u, least).chars);
    DecodeGoesOn(u, least, m);
    DecodeGoesOn(u, least, k);
  }

  /** The last loop goes round at most 131 times: never past the scratch, whatever the input. */
  lemma {:induction false} RoundsAreFew(counting: bool, u: Bytes, wn: nat)
    ensures Rounds(counting, u, wn) <= 131
    decreases |u|
  {
    hide Decode;
    if wn > 0 && (|u| / 4 >= wn || |u| / 4 > 32) {
      var m := if |u| / 4 >= wn then wn else |u| / 4;
      FullBatchTakes(u, m);
      var d := Decode(u, m);
      if d.why.Full? {
        RoundsAreFew(counting, u[d.used..], if counting then wn else wn - m);
      }
    } else {
      DecodeThenEncodeAll(u, wn);
      EncodingIsNoShorter(Decode(u, wn).chars);
    }
  }

  /** The bound of 128 that the source names is met exactly when the batches do not leave room for 128
      characters together with bytes that begin with 128 characters. */
  lemma RoundsBelow128Iff(counting: bool, u: Bytes, wn: nat)
    ensures Rounds(counting, u, wn) < 128 <==>
            match AfterBatches(counting, u, wn)
            case None => true
            case Some(rest) => rest.room < 128 || |Decode(rest.bytes, 128).chars| < 128
  {
    hide Decode;
    match AfterBatches(counting, u, wn)
    case None =>
    case Some(rest) =>
      DecodeThenEncodeAll(rest.bytes, rest.room);
      DecodeThenEncodeAll(rest.bytes, 128);
      if rest.room >= 128 {
        DecodeGoesOn(rest.bytes, 128, rest.room);
      }
  }

  ghost predicate IsAscii(u: Bytes) {
    forall i :: 0 <= i < |u| ==> 0 < u[i] < 0x80
  }

  /** ASCII input of at most 131 bytes is counted by the last loop alone, a round for every byte: 131 of
      them make it go round 131 times. */
  lemma AsciiRounds(u: Bytes)
    requires IsAscii(u) && |u| <= 131
    ensures Rounds(true, u, SCRATCH) == |u|
  {
    AsciiDecodes(u, SCRATCH);
  }

  lemma {:induction false} AsciiDecodes(u: Bytes, k: nat)
    requires IsAscii(u) && k > |u|
    ensures |Decode(u, k).chars| == |u|
    decreases |u|
  {
    hide Decode, First, Value, IsPartial;
    if u == [] {
      EmptyIsPartial();
      DecodeStops(u, k);
    } else {
      Ascii(u[0]);
      assert u[..1] == [u[0]];
      CharIsFirst([u[0]], u);
      DecodeTakes(u, k);
      AsciiDecodes(u[1..], k - 1);
    }
  }

  /** So the bound of 128 can be missed. */
  lemma BoundCanBeMissed()
    ensures exists u: Bytes :: |u| == 131 && Rounds(true, u, SCRATCH) == 131
  {
    var a: Byte := 0x61;
    var u: Bytes := seq(131, _ => a);
    AsciiRounds(u);
  }
}
