/**
 From wide strings to UTF-8: wcrtomb, wcsrtombs and wcsnrtombs of src/orbis_wchar32.c. A conversion
 writes into dst from index at on; the source string is a sequence and the source pointer an index in
 it, None once the terminator has been converted.
 */
module WideToBytes {
  import opened Wrappers
  import opened Utf8
  import opened Splicing

  /** wcrtomb: the number of bytes stored, or None for -1. */
  method Wcrtomb(dst: array<Byte>, at: nat, wc: Wide) returns (l: Option<nat>)
    requires Encode(wc).Some? ==> at + |Encode(wc).value| <= dst.Length
    modifies dst
    ensures l.Some? <==> IsScalar(wc)
    ensures l.Some? ==> Encode(wc).Some? && l.value == |Encode(wc).value| && 1 <= l.value <= 4
                        && dst[..] == Splice(old(dst[..]), at, Encode(wc).value)
    ensures l.None? ==> dst[..] == old(dst[..])
  {
    hide *;
    EncodeThenDecode(wc);
    EncodeByRange(wc);
    ghost var was := dst[..];
    if wc < 0x80 {
      dst[at] := wc as Byte;
      SpliceUpdates(was, at, [wc as Byte]);
      return Some(1);
    } else if wc < 0x800 {
      dst[at] := LeadByte(0xc0, wc >> 6);
      dst[at + 1] := TailByte(wc);
      SpliceUpdates(was, at, [LeadByte(0xc0, wc >> 6), TailByte(wc)]);
      return Some(2);
    } else if wc < 0xd800 || wc - 0xe000 < 0x2000 {
      dst[at] := LeadByte(0xe0, wc >> 12);
      dst[at + 1] := TailByte(wc >> 6);
      dst[at + 2] := TailByte(wc);
      SpliceUpdates(was, at, [LeadByte(0xe0, wc >> 12), TailByte(wc >> 6), TailByte(wc)]);
      return Some(3);
    } else if wc - 0x10000 < 0x100000 {
      dst[at] := LeadByte(0xf0, wc >> 18);
      dst[at + 1] := TailByte(wc >> 12);
      dst[at + 2] := TailByte(wc >> 6);
      dst[at + 3] := TailByte(wc);
      SpliceUpdates(was, at, [LeadByte(0xf0, wc >> 18), TailByte(wc >> 12), TailByte(wc >> 6), TailByte(wc)]);
      return Some(4);
    }
    return None;
  }

  lemma EncodeByRange(wc: Wide)
    ensures wc < 0x80 ==> Encode(wc) == Some([wc as Byte])
    ensures 0x80 <= wc < 0x800 ==>
      LeadFits(0xc0, wc >> 6) && Encode(wc) == Some([LeadByte(0xc0, wc >> 6), TailByte(wc)])
    ensures wc >= 0x800 && (wc < 0xd800 || wc - 0xe000 < 0x2000) ==>
      LeadFits(0xe0, wc >> 12) && Encode(wc) == Some([LeadByte(0xe0, wc >> 12), TailByte(wc >> 6), TailByte(wc)])
    ensures wc >= 0xd800 && wc - 0xe000 >= 0x2000 && wc - 0x10000 < 0x100000 ==>
      LeadFits(0xf0, wc >> 18)
      && Encode(wc) == Some([LeadByte(0xf0, wc >> 18), TailByte(wc >> 12), TailByte(wc >> 6), TailByte(wc)])
    ensures wc >= 0xd800 && wc - 0xe000 >= 0x2000 && wc - 0x10000 >= 0x100000 ==> Encode(wc) == None
  {
    hide TailByte, LeadByte;
  }

  /** Storing up to four bytes one after the other is one splice. */
  lemma SpliceUpdates(was: Bytes, at: nat, b: Bytes)
    requires 1 <= |b| <= 4 && at + |b| <= |was|
    ensures Splice(was, at, b) ==
            var w1 := was[at := b[0]];
            var w2 := if |b| < 2 then w1 else w1[at + 1 := b[1]];
            var w3 := if |b| < 3 then w2 else w2[at + 2 := b[2]];
            if |b| < 4 then w3 else w3[at + 3 := b[3]]
  {
  }

  // ------------------------------------------------------------------------- what a conversion is

  /** Why a conversion stops: at the terminator, at a value that is no scalar, for lack of room in the
      buffer, or because its share of the source is used up. */
  datatype Why = Ended | Bad | Full | Dry

  datatype Conversion = Conversion(chars: nat, bytes: nat, why: Why)

  function After(k: nat, b: nat, c: Conversion): Conversion {
    Conversion(c.chars + k, c.bytes + b, c.why)
  }

  /** How far a conversion of ws into n bytes gets. */
  function Convert(ws: seq<Wide>, n: nat): Conversion {
    if ws == [] then Conversion(0, 0, Dry)
    else if Encode(ws[0]).None? then Conversion(0, 0, Bad)
    else
      var e := Encode(ws[0]).value;
      if |e| > n then Conversion(0, 0, Full)
      else if ws[0] == 0 then Conversion(0, 0, Ended)
      else After(1, |e|, Convert(ws[1..], n - |e|))
  }

  /** The characters that stand before any terminator and all have an encoding. */
  predicate IsText(ws: seq<Wide>) {
    AllScalars(ws) && forall i :: 0 <= i < |ws| ==> ws[i] != 0
  }

  lemma TextTail(ws: seq<Wide>)
    requires ws != [] && IsText(ws[1..]) && IsScalar(ws[0]) && ws[0] != 0
    ensures IsText(ws)
  {
  }

  lemma TailOfText(ws: seq<Wide>)
    requires ws != [] && IsText(ws)
    ensures IsText(ws[1..])
  {
  }

  function Terminator(why: Why): Bytes {
    if why.Ended? then [0] else []
  }

  /** What was converted is text, its bytes with the terminator fit, and the stop is real: there is a
      terminator there, or no scalar value, or a character with more bytes than are left. */
  lemma {:induction false} ConvertMeaning(ws: seq<Wide>, n: nat)
    ensures var c := Convert(ws, n);
            && c.chars <= |ws| && IsText(ws[..c.chars])
            && c.bytes == |EncodeAll(ws[..c.chars])|
            && c.bytes + |Terminator(c.why)| <= n
            && (c.why.Dry? <==> c.chars == |ws|)
            && (c.why.Ended? ==> ws[c.chars] == 0)
            && (c.why.Bad? <==> c.chars < |ws| && !IsScalar(ws[c.chars]))
            && (c.why.Full? ==> Encode(ws[c.chars]).Some? && c.bytes + |Encode(ws[c.chars]).value| > n)
    decreases |ws|
  {
    hide Encode, IsScalar;
    if ws != [] {
      EncodeThenDecode(ws[0]);
      EncodeNul();
      var k := Convert(ws, n).chars;
      if k > 0 {
        var e := Encode(ws[0]).value;
        ConvertMeaning(ws[1..], n - |e|);
        assert ws[..k][1..] == ws[1..][..k - 1] && ws[..k][0] == ws[0];
        TextTail(ws[..k]);
      }
    }
  }

  lemma EncodeNul()
    ensures Encode(0) == Some([0]) && IsScalar(0)
  {
  }

  /** It is the longest such prefix: the characters of no longer one fit, and one with a terminator after
      it is not cut short if the terminator fits too. */
  lemma {:induction false} ConvertIsLongest(ws: seq<Wide>, n: nat, k: nat)
    requires k <= |ws| && IsText(ws[..k]) && |EncodeAll(ws[..k])| <= n
    ensures k <= Convert(ws, n).chars
    ensures k < |ws| && ws[k] == 0 && |EncodeAll(ws[..k])| < n
            ==> Convert(ws, n) == Conversion(k, |EncodeAll(ws[..k])|, Ended)
    decreases k
  {
    hide Encode, IsScalar;
    EncodeNul();
    if k > 0 {
      EncodeThenDecode(ws[0]);
      assert ws[..k][0] == ws[0] && ws[..k][1..] == ws[1..][..k - 1];
      var e := Encode(ws[0]).value;
      assert IsText(ws[1..][..k - 1]) by {
        TailOfText(ws[..k]);
      }
      ConvertIsLongest(ws[1..], n - |e|, k - 1);
    }
  }

  /** The bytes a conversion leaves in the buffer. */
  function Output(ws: seq<Wide>, n: nat): (b: Bytes)
    ensures |b| <= n
  {
    ConvertMeaning(ws, n);
    var c := Convert(ws, n);
    EncodeAll(ws[..c.chars]) + Terminator(c.why)
  }

  /** i characters have been converted and n of the N bytes are left. */
  ghost predicate Reached(ws: seq<Wide>, N: nat, i: nat, n: nat) {
    && i <= |ws| && n <= N && IsText(ws[..i]) && |EncodeAll(ws[..i])| == N - n
    && Convert(ws, N) == After(i, N - n, Convert(ws[i..], n))
  }

  lemma AtStart(ws: seq<Wide>, N: nat)
    ensures Reached(ws, N, 0, N) && EncodeAll(ws[..0]) == []
  {
  }

  lemma OneMore(ws: seq<Wide>, N: nat, i: nat, n: nat)
    requires Reached(ws, N, i, n) && i < |ws| && Encode(ws[i]).Some? && |Encode(ws[i]).value| <= n && ws[i] != 0
    ensures Reached(ws, N, i + 1, n - |Encode(ws[i]).value|)
    ensures EncodeAll(ws[..i + 1]) == EncodeAll(ws[..i]) + Encode(ws[i]).value
  {
    hide Encode, IsScalar;
    EncodeThenDecode(ws[i]);
    assert ws[..i + 1] == ws[..i] + [ws[i]];
    EncodeAllAppends(ws[..i], [ws[i]]);
    assert EncodeAll([ws[i]]) == Encode(ws[i]).value + EncodeAll([]);
    assert ws[i..][1..] == ws[i + 1..];
  }

  lemma NoMore(ws: seq<Wide>, N: nat, i: nat, n: nat, why: Why)
    requires Reached(ws, N, i, n)
    requires why.Dry? ==> i == |ws|
    requires !why.Dry? ==> i < |ws| && (Encode(ws[i]).None? <==> why.Bad?)
    requires why.Full? ==> |Encode(ws[i]).value| > n
    requires why.Ended? ==> ws[i] == 0 && n > 0
    ensures Convert(ws, N) == Conversion(i, N - n, why)
    ensures Output(ws, N) == EncodeAll(ws[..i]) + Terminator(why)
  {
  }

  lemma Ascii(wc: Wide)
    ensures wc - 1 < 0x7f ==> Encode(wc) == Some([wc as Byte])
    ensures wc - 1 < 0x7f ==> wc != 0
    ensures wc - 1 >= 0x7f ==> wc == 0 || wc >= 0x80
  {
  }

  // ------------------------------------------------------------------------- wcsrtombs

  /** Reading n more characters from i on, or up to the terminator, stays inside the source string. */
  ghost predicate Readable(ws: seq<Wide>, i: nat, n: nat) {
    i + n <= |ws| || exists j :: i <= j < |ws| && ws[j] == 0
  }

  /** wcsrtombs with no buffer: the bytes of the whole string, or None for -1. */
  method WcsrtombsLength(ws: seq<Wide>) returns (n: Option<nat>)
    requires exists j :: 0 <= j < |ws| && ws[j] == 0
    ensures var c := Convert(ws, 4 * |ws|);
            (c.why.Ended? <==> n.Some?) && (n.Some? ==> n.value == c.bytes) && (n.None? ==> c.why.Bad?)
  {
    hide Encode, IsScalar, Convert, Reached, EncodeAll, IsText, Splice;
    var N := 4 * |ws|;
    ghost var left: nat := N;
    var bytes, i := 0, 0;
    AtStart(ws, N);
    while true
      invariant i < |ws| && left >= 4 * (|ws| - i) && left == N - bytes
      invariant Reached(ws, N, i, left) && exists j :: i <= j < |ws| && ws[j] == 0
      decreases |ws| - i
    {
      Ascii(ws[i]);
      EncodeThenDecode(ws[i]);
      EncodeIsShort(ws[i]);
      if ws[i] == 0 {
        EncodeNul();
        NoMore(ws, N, i, left, Ended);
        return Some(bytes);
      }
      if ws[i] >= 0x80 {
        var buf := new Byte[4];
        var l := Wcrtomb(buf, 0, ws[i]);
        if l.None? {
          NoMore(ws, N, i, left, Bad);
          return None;
        }
        bytes := bytes + l.value;
      } else {
        AsciiIsOne(ws[i]);
        bytes := bytes + 1;
      }
      OneMore(ws, N, i, left);
      left := N - bytes;
      i := i + 1;
    }
  }

  lemma EncodeIsShort(wc: Wide)
    ensures Encode(wc).Some? ==> 1 <= |Encode(wc).value| <= 4
  {
  }

  lemma AsciiIsOne(wc: Wide)
    requires wc < 0x80
    ensures Encode(wc) == Some([wc as Byte])
  {
  }

  /** What wcsrtombs makes of an unencodable value right where the buffer is full: it never looks. */
  function Unseen(c: Conversion, n: nat): Conversion {
    if c.why.Bad? && c.bytes == n then c.(why := Full) else c
  }

  /** wcsrtombs into n0 bytes of dst. */
  method Wcsrtombs(dst: array<Byte>, at: nat, ws: seq<Wide>, n0: nat) returns (ret: Option<nat>, next: Option<nat>)
    requires at + n0 <= dst.Length && Readable(ws, 0, n0)
    modifies dst
    ensures dst[..] == Splice(old(dst[..]), at, Output(ws, n0))
    ensures var c := Unseen(Convert(ws, n0), n0);
            && ret == (if c.why.Bad? then None else Some(c.bytes))
            && next == (if c.why.Ended? then None else Some(c.chars))
  {
    hide Encode, IsScalar, Convert, Reached, EncodeAll, IsText, Splice, Output, Stored;
    ghost var was := dst[..];
    var n: nat, s: nat, i: nat := n0, at, 0;
    AtStart(ws, n0);
    StoredAtStart(was, at, ws);
    while n >= 4
      invariant n <= n0 && i <= |ws| && s == at + n0 - n
      invariant Reached(ws, n0, i, n) && Readable(ws, i, n) && Stored(dst[..], was, at, ws, i)
      decreases n
    {
      Ascii(ws[i]);
      EncodeThenDecode(ws[i]);
      EncodeIsShort(ws[i]);
      ghost var now := dst[..];
      if ws[i] - 1 >= 0x7f {
        if ws[i] == 0 {
          EndHere(now, was, at, ws, n0, i, n);
          dst[s] := 0;
          assert dst[..] == now[s := 0];
          return Some(n0 - n), None;
        }
        var l := Wcrtomb(dst, s, ws[i]);
        if l.None? {
          StopHere(now, was, at, ws, n0, i, n, Bad);
          return None, Some(i);
        }
        s := s + l.value;
        n := n - l.value;
      } else {
        dst[s] := ws[i] as Byte;
        assert dst[..] == now[s := ws[i] as Byte];
        SpliceOne(now, s, ws[i] as Byte);
        s := s + 1;
        n := n - 1;
      }
      StoreOne(dst[..], now, was, at, ws, n0, i, n + |Encode(ws[i]).value|);
      i := i + 1;
    }
    ret, next := WcsrtombsTail(dst, at, ws, n0, was, n, s, i);
  }

  /** The second loop of wcsrtombs, for the last few bytes of the buffer: a character is encoded aside
      first, and stored only if it fits. */
  method WcsrtombsTail(dst: array<Byte>, at: nat, ws: seq<Wide>, n0: nat, ghost was: Bytes, n1: nat, s1: nat, i1: nat)
    returns (ret: Option<nat>, next: Option<nat>)
    requires at + n0 <= dst.Length == |was| && n1 <= n0 && i1 <= |ws| && s1 == at + n0 - n1
    requires Reached(ws, n0, i1, n1) && Readable(ws, i1, n1) && Stored(dst[..], was, at, ws, i1)
    modifies dst
    ensures dst[..] == Splice(was, at, Output(ws, n0))
    ensures var c := Unseen(Convert(ws, n0), n0);
            && ret == (if c.why.Bad? then None else Some(c.bytes))
            && next == (if c.why.Ended? then None else Some(c.chars))
  {
    hide Encode, IsScalar, Convert, Reached, EncodeAll, IsText, Splice, Output, Stored;
    var n: nat, s: nat, i: nat := n1, s1, i1;
    while n > 0
      invariant n <= n0 && i <= |ws| && s == at + n0 - n
      invariant Reached(ws, n0, i, n) && Readable(ws, i, n) && Stored(dst[..], was, at, ws, i)
      decreases n
    {
      Ascii(ws[i]);
      EncodeIsShort(ws[i]);
      ghost var now := dst[..];
      if ws[i] - 1 >= 0x7f {
        if ws[i] == 0 {
          EndHere(now, was, at, ws, n0, i, n);
          dst[s] := 0;
          assert dst[..] == now[s := 0];
          return Some(n0 - n), None;
        }
        var buf := new Byte[4];
        var l := Wcrtomb(buf, 0, ws[i]);
        EncodeThenDecode(ws[i]);
        if l.None? {
          StopHere(now, was, at, ws, n0, i, n, Bad);
          return None, Some(i);
        }
        if l.value > n {
          StopHere(now, was, at, ws, n0, i, n, Full);
          return Some(n0 - n), Some(i);
        }
        l := Wcrtomb(dst, s, ws[i]);
        s := s + l.value;
        n := n - l.value;
      } else {
        dst[s] := ws[i] as Byte;
        assert dst[..] == now[s := ws[i] as Byte];
        SpliceOne(now, s, ws[i] as Byte);
        s := s + 1;
        n := n - 1;
      }
      StoreOne(dst[..], now, was, at, ws, n0, i, n + |Encode(ws[i]).value|);
      i := i + 1;
    }
    NoRoom(dst[..], was, at, ws, n0, i);
    return Some(n0), Some(i);
  }

  /** The first i characters stand in the buffer, and nothing else of it has changed. */
  ghost predicate Stored(now: Bytes, was: Bytes, at: nat, ws: seq<Wide>, i: nat) {
    i <= |ws| && IsText(ws[..i]) && at + |EncodeAll(ws[..i])| <= |was| && now == Splice(was, at, EncodeAll(ws[..i]))
  }

  lemma StoredAtStart(was: Bytes, at: nat, ws: seq<Wide>)
    requires at <= |was|
    ensures Stored(was, was, at, ws, 0)
  {
  }

  lemma SpliceOne(now: Bytes, s: nat, b: Byte)
    requires s < |now|
    ensures now[s := b] == Splice(now, s, [b])
  {
  }

  lemma StoreOne(now': Bytes, now: Bytes, was: Bytes, at: nat, ws: seq<Wide>, N: nat, i: nat, n: nat)
    requires Reached(ws, N, i, n) && Stored(now, was, at, ws, i) && at + N <= |was|
    requires i < |ws| && Encode(ws[i]).Some? && |Encode(ws[i]).value| <= n && ws[i] != 0
    requires |now| == |was| && now' == Splice(now, at + N - n, Encode(ws[i]).value)
    ensures Reached(ws, N, i + 1, n - |Encode(ws[i]).value|) && Stored(now', was, at, ws, i + 1)
  {
    hide Encode, IsScalar, Convert, Splice;
    OneMore(ws, N, i, n);
    SpliceTwice(was, at, EncodeAll(ws[..i]), Encode(ws[i]).value);
  }

  lemma StopHere(now: Bytes, was: Bytes, at: nat, ws: seq<Wide>, N: nat, i: nat, n: nat, why: Why)
    requires Reached(ws, N, i, n) && Stored(now, was, at, ws, i) && at + N <= |was|
    requires why.Bad? || why.Full? || why.Dry?
    requires if why.Dry? then i == |ws| else i < |ws| && (Encode(ws[i]).None? <==> why.Bad?)
    requires why.Full? ==> |Encode(ws[i]).value| > n
    ensures Convert(ws, N) == Conversion(i, N - n, why) && now == Splice(was, at, Output(ws, N))
  {
  }

  lemma EndHere(now: Bytes, was: Bytes, at: nat, ws: seq<Wide>, N: nat, i: nat, n: nat)
    requires Reached(ws, N, i, n) && Stored(now, was, at, ws, i) && at + N <= |was|
    requires i < |ws| && ws[i] == 0 && n > 0
    ensures |now| == |was|
    ensures Convert(ws, N) == Conversion(i, N - n, Ended) && now[at + N - n := 0] == Splice(was, at, Output(ws, N))
  {
  }

  lemma NoRoom(now: Bytes, was: Bytes, at: nat, ws: seq<Wide>, N: nat, i: nat)
    requires Reached(ws, N, i, 0) && Stored(now, was, at, ws, i) && at + N <= |was|
    ensures var c := Unseen(Convert(ws, N), N);
            c.chars == i && c.bytes == N && (c.why.Full? || c.why.Dry?) && now == Splice(was, at, Output(ws, N))
  {
    hide Encode, IsScalar, Convert, Splice, Output, Stored, Reached;
    ReachedInside(ws, N, i, 0);
    if i == |ws| {
      StopHere(now, was, at, ws, N, i, 0, Dry);
    } else {
      EncodeIsShort(ws[i]);
      StopHere(now, was, at, ws, N, i, 0, if Encode(ws[i]).None? then Bad else Full);
    }
  }

  lemma ReachedInside(ws: seq<Wide>, N: nat, i: nat, n: nat)
    requires Reached(ws, N, i, n)
    ensures i <= |ws| && n <= N
  {
  }

  // ------------------------------------------------------------------------- wcsnrtombs

  /** The characters wcsnrtombs may look at. */
  function Share(ws: seq<Wide>, wn: nat): seq<Wide> {
    if wn <= |ws| then ws[..wn] else ws
  }

  /** wcsnrtombs into n0 bytes of dst, from at most wn0 characters. It looks at a value before it looks
      at the room that is left. */
  method Wcsnrtombs(dst: array<Byte>, at: nat, ws0: seq<Wide>, wn0: nat, n0: nat)
    returns (cnt: Option<nat>, next: Option<nat>)
    requires at + n0 <= dst.Length && Readable(ws0, 0, wn0)
    modifies dst
    ensures dst[..] == Splice(old(dst[..]), at, Output(Share(ws0, wn0), n0))
    ensures var c := Convert(Share(ws0, wn0), n0);
            && cnt == (if c.why.Bad? then None else Some(c.bytes))
            && next == (if c.why.Ended? then None else Some(c.chars))
  {
    hide Encode, IsScalar, Convert, Reached, EncodeAll, IsText, Splice, Output, Stored;
    ghost var ws, was := Share(ws0, wn0), dst[..];
    var n: nat, s: nat, i: nat, wn := n0, at, 0, wn0;
    AtStart(ws, n0);
    StoredAtStart(was, at, ws);
    while wn > 0
      invariant n <= n0 && i <= |ws| && s == at + n0 - n && wn == wn0 - i
      invariant Reached(ws, n0, i, n) && Readable(ws0, i, wn) && Stored(dst[..], was, at, ws, i)
      decreases wn
    {
      InsideShare(ws0, wn0, n0, i, n);
      EncodeIsShort(ws0[i]);
      EncodeThenDecode(ws0[i]);
      ghost var now := dst[..];
      var l: Option<nat>;
      var tmp := new Byte[4];
      ghost var blank := tmp[..];
      if ws0[i] == 0 && n > 0 {
        EndHere(now, was, at, ws, n0, i, n);
        EncodeNul();
        SpliceOne(now, s, 0);
      }
      if n < 4 {
        l := Wcrtomb(tmp, 0, ws0[i]);
      } else {
        l := Wcrtomb(dst, s, ws0[i]);
      }
      if l.None? {
        StopHere(now, was, at, ws, n0, i, n, Bad);
        return None, Some(i);
      }
      if n < 4 {
        if l.value > n {
          StopHere(now, was, at, ws, n0, i, n, Full);
          return Some(n0 - n), Some(i);
        }
        SpliceStart(tmp[..], blank, Encode(ws0[i]).value);
        CopyOver(dst, s, tmp, l.value);
      }
      s := s + l.value;
      n := n - l.value;
      if ws0[i] == 0 {
        return Some(n0 - n - l.value), None;
      }
      StoreOne(dst[..], now, was, at, ws, n0, i, n + l.value);
      i := i + 1;
      wn := wn - 1;
    }
    StopHere(dst[..], was, at, ws, n0, i, n, Dry);
    return Some(n0 - n), Some(i);
  }

  /** wcsnrtombs with no buffer. */
  method WcsnrtombsLength(ws0: seq<Wide>, wn0: nat) returns (cnt: Option<nat>)
    requires Readable(ws0, 0, wn0)
    ensures var ws := Share(ws0, wn0);
            var c := Convert(ws, 4 * |ws|);
            !c.why.Full? && cnt == if c.why.Bad? then None else Some(c.bytes)
  {
    hide Encode, IsScalar, Convert, Reached, EncodeAll, IsText, Splice;
    ghost var ws := Share(ws0, wn0);
    ghost var N := 4 * |ws|;
    var i: nat, wn, bytes: nat := 0, wn0, 0;
    AtStart(ws, N);
    while wn > 0
      invariant i <= |ws| && wn == wn0 - i && bytes <= 4 * i
      invariant Reached(ws, N, i, N - bytes) && Readable(ws0, i, wn)
      decreases wn
    {
      InsideShare(ws0, wn0, N, i, N - bytes);
      EncodeIsShort(ws0[i]);
      EncodeThenDecode(ws0[i]);
      var tmp := new Byte[4];
      var l := Wcrtomb(tmp, 0, ws0[i]);
      if l.None? {
        NoMore(ws, N, i, N - bytes, Bad);
        return None;
      }
      if ws0[i] == 0 {
        NoMore(ws, N, i, N - bytes, Ended);
        return Some(bytes);
      }
      OneMore(ws, N, i, N - bytes);
      bytes := bytes + l.value;
      i := i + 1;
      wn := wn - 1;
    }
    NoMore(ws, N, i, N - bytes, Dry);
    return Some(bytes);
  }

  /** The length asked for with no buffer is exact: with room for it and the terminator the whole string
      is converted, with any less it is not. */
  lemma LengthIsExact(ws: seq<Wide>, n: nat)
    requires Convert(ws, 4 * |ws|).why.Ended?
    ensures var c := Convert(ws, 4 * |ws|);
            if n > c.bytes then Convert(ws, n) == c else Convert(ws, n).why.Full?
  {
    hide Convert, Encode, IsScalar, EncodeAll;
    var c, d := Convert(ws, 4 * |ws|), Convert(ws, n);
    ConvertMeaning(ws, 4 * |ws|);
    ConvertMeaning(ws, n);
    if n > c.bytes {
      ConvertIsLongest(ws, n, c.chars);
    } else {
      ShorterStops(ws, n, c.chars, d.chars);
    }
  }

  lemma ShorterStops(ws: seq<Wide>, n: nat, k: nat, m: nat)
    requires k < |ws| && ws[k] == 0 && IsText(ws[..k]) && n <= |EncodeAll(ws[..k])|
    requires m == Convert(ws, n).chars
    ensures Convert(ws, n).why.Full?
  {
    hide Convert, Encode, EncodeAll;
    ConvertMeaning(ws, n);
    EncodeNul();
    assert forall j :: 0 <= j < m ==> ws[..m][j] == ws[j];
    if m < k {
      assert ws[..k][m] == ws[m];
      EncodeThenDecode(ws[m]);
    }
  }

  lemma InsideShare(ws: seq<Wide>, wn: nat, N: nat, i: nat, n: nat)
    requires Reached(Share(ws, wn), N, i, n) && i < wn && Readable(ws, i, wn - i)
    ensures i < |ws| && i < |Share(ws, wn)| && ws[i] == Share(ws, wn)[i]
  {
  }

  lemma SpliceStart(now: Bytes, was: Bytes, e: Bytes)
    requires |e| <= |was| && now == Splice(was, 0, e)
    ensures now[..|e|] == e
  {
  }

  /** memcpy of the first l bytes of tmp. */
  method CopyOver(dst: array<Byte>, s: nat, tmp: array<Byte>, l: nat)
    requires dst != tmp && l <= tmp.Length && s + l <= dst.Length
    modifies dst
    ensures dst[..] == Splice(old(dst[..]), s, tmp[..l])
  {
    for j := 0 to l
      invariant dst[s..s + j] == tmp[..j]
      invariant forall k :: 0 <= k < s || s + j <= k < dst.Length ==> dst[k] == old(dst[k])
    {
      dst[s + j] := tmp[j];
    }
  }
}
