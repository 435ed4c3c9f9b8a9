/**
 UTF-16 on the same state word: mbrtoc16 and c16rtomb of src/orbis_wchar32.c, next to the code units that
 section 2 of RFC 2781 gives a scalar value.
 */
module Utf16 {
  import opened Wrappers
  import opened Utf8
  import opened Mbrtowc
  import opened Splicing
  import opened WideToBytes

  type Unit = bv16

  function High(v: Wide): Unit {
    0xd800 + (((v - 0x10000) >> 10) & 0x3ff) as Unit
  }

  function Low(v: Wide): Unit {
    0xdc00 + (v & 0x3ff) as Unit
  }

  predicate IsHigh(u: Unit) {
    0xd800 <= u <= 0xdbff
  }

  predicate IsLow(u: Unit) {
    0xdc00 <= u <= 0xdfff
  }

  /** The scalar value of a surrogate pair. */
  function PairValue(h: Unit, l: Unit): Wide {
    0x10000 + ((h as Wide - 0xd800) << 10) + (l as Wide - 0xdc00)
  }

  function UnitsOf(v: Wide): seq<Unit> {
    if v < 0x10000 then [v as Unit] else [High(v), Low(v)]
  }

  function UnitsOfAll(vs: seq<Wide>): seq<Unit> {
    if vs == [] then [] else UnitsOf(vs[0]) + UnitsOfAll(vs[1..])
  }

  lemma {:induction false} UnitsOfAllAppends(a: seq<Wide>, b: seq<Wide>)
    ensures UnitsOfAll(a + b) == UnitsOfAll(a) + UnitsOfAll(b)
  {
    hide UnitsOf;
    if a == [] {
      assert a + b == b;
    } else {
      assert (a + b)[1..] == a[1..] + b;
      UnitsOfAllAppends(a[1..], b);
    }
  }

  // ------------------------------------------------------------------------- reading

  /** A low surrogate waits in the state word: the word, as a signed number, is positive. */
  predicate Pending(ps: Wide) {
    ps != 0 && !HighBit(ps)
  }

  /** Storing a wide value through a 16-bit pointer. */
  function Truncated(w: Wide): Unit {
    (w & 0xffff) as Unit
  }

  /** The value returned: (size_t)-3, or what mbrtowc returned. */
  datatype Return16 = Second16 | First16(r: Return)

  datatype Result16 = Result16(ret: Return16, unit: Option<Unit>, state: Wide)

  /** The word an outer character leaves waiting, and the unit it delivers first. */
  function Waiting(wc: Wide): Wide {
    (wc & 0x3ff) + 0xdc00
  }

  function Leading(wc: Wide): Wide {
    0xd7c0 + (wc >> 10)
  }

  predicate NeedsPair(wc: Wide) {
    wc >= 0x10000
  }

  function Call16(ps: Wide, s: Bytes): Result16 {
    if Pending(ps) then Result16(Second16, Some(Truncated(ps)), 0)
    else
      var r := Call(ps, s);
      if r.wc == None then Result16(First16(r.ret), None, r.state)
      else if NeedsPair(r.wc.value) then
        Result16(First16(r.ret), Some(Truncated(Leading(r.wc.value))), Waiting(r.wc.value))
      else Result16(First16(r.ret), Some(Truncated(r.wc.value)), r.state)
  }

  /** mbrtoc16: the unit stored through pc16, if any, is the unit of the result. */
  method Mbrtoc16(ps: Wide, s: Bytes) returns (r: Result16)
    requires Pending(ps) || ValidState(ps)
    ensures r == Call16(ps, s)
  {
    hide Call, ValidState, Truncated, Waiting, Leading, NeedsPair, Pending;
    if Pending(ps) {
      return Result16(Second16, Some(Truncated(ps)), 0);
    }
    var m := MbrtowcCall(ps, s);
    CharacterOrNone(ps, s);
    if m.ret.Nul? || m.ret.Got? {
      if NeedsPair(m.wc.value) {
        return Result16(First16(m.ret), Some(Truncated(Leading(m.wc.value))), Waiting(m.wc.value));
      }
      return Result16(First16(m.ret), Some(Truncated(m.wc.value)), m.state);
    }
    return Result16(First16(m.ret), None, m.state);
  }

  lemma {:induction false} CharacterOrNone(c: Wide, s: Bytes)
    ensures Call(c, s).wc.Some? <==> Call(c, s).ret.Nul? || Call(c, s).ret.Got?
    decreases |s|
  {
    hide Step;
    if s != [] && Step(c, s[0]).More? {
      CharacterOrNone(Step(c, s[0]).c, s[1..]);
    }
  }

  /** Unless a surrogate waits the value returned is that of mbrtowc, so 0 exactly for a zero byte; a waiting one
      is delivered as it stands in the state word, without a look at the bytes. */
  lemma ReturnIsMbrtowcs(ps: Wide, s: Bytes)
    ensures ps == 0 || HighBit(ps) ==> Call16(ps, s).ret == First16(Call(ps, s).ret)
    ensures ps != 0 && !HighBit(ps) ==> Call16(ps, s) == Result16(Second16, Some((ps & 0xffff) as Unit), 0)
    ensures Call16(0, s).ret == First16(Nul) <==> s != [] && s[0] == 0
  {
    hide Call, Waiting, Leading, NeedsPair, StateOf;
    StartIsZero();
    CallFollowsDefinition([], s);
    ZeroIsLow();
  }

  lemma ZeroIsLow()
    ensures !HighBit(0)
  {
  }

  /** The two uses of the state word never meet: what a partial character leaves is never taken for a
      surrogate, and a surrogate left waiting always is. */
  lemma StatesAreDistinct(p: Bytes, v: Wide)
    requires IsPartial(p)
    ensures !Pending(StateOf(p)) && Pending(Waiting(v))
  {
  }

  lemma WaitingIsLow(v: Wide)
    ensures Pending(Waiting(v))
  {
  }

  datatype Stream16 = Stream16(units: seq<Unit>, failed: bool, state: Wide)

  /** Calls on one buffer until it runs dry or a call fails. */
  function Read(ps: Wide, s: Bytes): Stream16
    decreases |s|, if Pending(ps) then 1 else 0
  {
    CallUsesItsBytes(ps, s);
    var r := Call16(ps, s);
    match r.ret
    case Second16 =>
      var rest := Read(0, s);
      rest.(units := [r.unit.value] + rest.units)
    case First16(m) =>
      if m.Incomplete? then Stream16([], false, r.state)
      else if m.Illegal? then Stream16([], true, r.state)
      else
        var rest := Read(r.state, s[Taken(m)..]);
        rest.(units := [r.unit.value] + rest.units)
  }

  lemma UnitsAreDelivered(v: Wide)
    requires IsScalar(v)
    ensures !NeedsPair(v) ==> UnitsOf(v) == [Truncated(v)]
    ensures NeedsPair(v) ==> UnitsOf(v) == [Truncated(Leading(v)), Truncated(Waiting(v))]
  {
  }

  /** Reading by units delivers exactly the units of the characters that reading by characters delivers,
      with the same failure and, at the end, the same state. */
  lemma {:induction false} ReadDeliversTheUnits(p: Bytes, s: Bytes)
    requires IsPartial(p)
    ensures var d := Drain(StateOf(p), s); Read(StateOf(p), s) == Stream16(UnitsOfAll(d.chars), d.failed, d.state)
    decreases |s|
  {
    hide Call, StateOf, IsPartial, Truncated, Waiting, Leading, NeedsPair, UnitsOf, Pending, IsScalar, Value, Encode,
      IsChar;
    var c := StateOf(p);
    StatesAreDistinct(p, 0);
    CharacterOrNone(c, s);
    CallUsesItsBytes(c, s);
    DrainStops(c, s);
    var r := Call(c, s);
    StateAfterFailure(p, s);
    if r.ret.Got? || r.ret.Nul? {
      DrainTakes(c, s);
      var v, rest := r.wc.value, s[Taken(r.ret)..];
      CharactersAreScalars(p, s);
      UnitsAreDelivered(v);
      StartIsZero();
      ReadDeliversTheUnits([], rest);
      ReadTakes(c, s);
      var d := Drain(0, rest);
      assert ([v] + d.chars)[0] == v && ([v] + d.chars)[1..] == d.chars;
      assert UnitsOfAll([v] + d.chars) == UnitsOf(v) + UnitsOfAll(d.chars);
    }
  }

  lemma ReadTakes(c: Wide, s: Bytes)
    requires !Pending(c) && (Call(c, s).ret.Got? || Call(c, s).ret.Nul?) && Call(c, s).wc.Some? && Call(c, s).state == 0
    requires Taken(Call(c, s).ret) <= |s|
    ensures var r := Call(c, s);
            var rest := Read(0, s[Taken(r.ret)..]);
            var v := r.wc.value;
            Read(c, s) == rest.(units :=
              (if NeedsPair(v) then [Truncated(Leading(v)), Truncated(Waiting(v))] else [Truncated(v)]) + rest.units)
  {
    hide Call, Truncated, Waiting, Leading, NeedsPair, Pending, Read;
    var r := Call(c, s);
    var v, t := r.wc.value, s[Taken(r.ret)..];
    ReadOne(c, s);
    WaitingIsLow(v);
    if NeedsPair(v) {
      ReadWaiting(Waiting(v), t);
      assert [Truncated(Leading(v))] + ([Truncated(Waiting(v))] + Read(0, t).units)
          == [Truncated(Leading(v)), Truncated(Waiting(v))] + Read(0, t).units;
    }
  }

  lemma ReadOne(c: Wide, s: Bytes)
    requires !Pending(c) && (Call(c, s).ret.Got? || Call(c, s).ret.Nul?) && Call(c, s).wc.Some?
    requires Taken(Call(c, s).ret) <= |s|
    ensures var r := Call(c, s);
            var v := r.wc.value;
            var rest := Read(if NeedsPair(v) then Waiting(v) else r.state, s[Taken(r.ret)..]);
            Read(c, s) == rest.(units := [if NeedsPair(v) then Truncated(Leading(v)) else Truncated(v)] + rest.units)
  {
  }

  lemma ReadWaiting(ps: Wide, s: Bytes)
    requires Pending(ps)
    ensures Read(ps, s) == Read(0, s).(units := [Truncated(ps)] + Read(0, s).units)
  {
  }

  lemma StateAfterFailure(p: Bytes, s: Bytes)
    requires IsPartial(p)
    ensures Call(StateOf(p), s).ret.Illegal? ==> Call(StateOf(p), s).state == 0
  {
    hide Call, StateOf, IsPartial, IsChar, Value;
    CallFollowsDefinition(p, s);
  }

  lemma CharactersAreScalars(p: Bytes, s: Bytes)
    requires IsPartial(p)
    ensures var r := Call(StateOf(p), s); (r.ret.Got? || r.ret.Nul?) && r.wc.Some? ==> IsScalar(r.wc.value)
  {
    hide Call, StateOf, IsPartial, IsChar, Value, Encode, IsScalar;
    CallFollowsDefinition(p, s);
    EncodeNul();
    var r := Call(StateOf(p), s);
    if r.ret.Got? {
      DecodeThenEncode(p + s[..r.ret.n]);
    }
  }

  // ------------------------------------------------------------------------- writing

  /** What one unit does in state x: the bytes it completes, None for -1, and the state left. */
  datatype Put = Put(bytes: Option<Bytes>, state: Wide)

  function HeldBack(h: Unit): Wide {
    (h as Wide - 0xd7c0) << 10
  }

  function Put16(x: Wide, u: Unit): Put {
    if x == 0 && u as Wide - 0xd800 < 0x400 then Put(Some([]), HeldBack(u))
    else if x != 0 then
      if u as Wide - 0xdc00 >= 0x400 then Put(None, 0) else Put(Encode(x + u as Wide - 0xdc00), 0)
    else Put(Encode(u as Wide), 0)
  }

  /** c16rtomb: the number of bytes stored at at, or None for -1, and the state word left. */
  method C16rtomb(dst: array<Byte>, at: nat, c16: Unit, x0: Wide) returns (ret: Option<nat>, x: Wide)
    requires at + 4 <= dst.Length
    modifies dst
    ensures var r := Put16(x0, c16);
            && x == r.state && (ret.Some? <==> r.bytes.Some?)
            && (if r.bytes.Some? then
                  ret.value == |r.bytes.value| <= 4 && dst[..] == Splice(old(dst[..]), at, r.bytes.value)
                else dst[..] == old(dst[..]))
  {
    hide Encode, IsScalar, Splice, HeldBack;
    x := x0;
    if x == 0 && c16 as Wide - 0xd800 < 0x400 {
      SpliceNothing(dst[..], at);
      return Some(0), HeldBack(c16);
    }
    var wc;
    if x != 0 {
      if c16 as Wide - 0xdc00 >= 0x400 {
        return None, 0;
      }
      wc := x + c16 as Wide - 0xdc00;
      x := 0;
    } else {
      wc := c16 as Wide;
    }
    EncodeIsShort(wc);
    EncodeThenDecode(wc);
    ret := Wcrtomb(dst, at, wc);
  }

  datatype Written = Written(bytes: Bytes, failed: bool, state: Wide)

  /** One call a unit, until one fails. */
  function Write(x: Wide, us: seq<Unit>): Written
    decreases |us|
  {
    if us == [] then Written([], false, x)
    else
      var r := Put16(x, us[0]);
      if r.bytes.None? then Written([], true, r.state)
      else
        var rest := Write(r.state, us[1..]);
        rest.(bytes := r.bytes.value + rest.bytes)
  }

  lemma PutBasic(u: Unit)
    ensures IsHigh(u) ==> Put16(0, u) == Put(Some([]), HeldBack(u)) && HeldBack(u) != 0
    ensures IsLow(u) ==> Put16(0, u) == Put(None, 0)
    ensures !IsHigh(u) ==> Put16(0, u) == Put(Encode(u as Wide), 0)
    ensures !IsHigh(u) && !IsLow(u) ==> IsScalar(u as Wide) && UnitsOf(u as Wide) == [u]
  {
  }

  lemma PairSum(h: Unit, l: Unit)
    requires IsHigh(h)
    ensures HeldBack(h) != 0 && (IsLow(l) ==> HeldBack(h) + l as Wide - 0xdc00 == PairValue(h, l))
    ensures !IsLow(l) <==> l as Wide - 0xdc00 >= 0x400
  {
  }

  lemma PairIsScalar(h: Unit, l: Unit)
    requires IsHigh(h) && IsLow(l)
    ensures IsScalar(PairValue(h, l)) && PairValue(h, l) >= 0x10000
  {
  }

  lemma PairUnits(h: Unit, l: Unit)
    requires IsHigh(h) && IsLow(l)
    ensures High(PairValue(h, l)) == h && Low(PairValue(h, l)) == l
  {
  }

  lemma PutPair(h: Unit, l: Unit)
    requires IsHigh(h)
    ensures HeldBack(h) != 0
    ensures if IsLow(l) then Put16(HeldBack(h), l) == Put(Encode(PairValue(h, l)), 0)
            else Put16(HeldBack(h), l) == Put(None, 0)
    ensures IsLow(l) ==> IsScalar(PairValue(h, l)) && UnitsOf(PairValue(h, l)) == [h, l]
  {
    hide HeldBack, PairValue, Encode, High, Low, IsHigh, IsLow, IsScalar;
    PairSum(h, l);
    if IsLow(l) {
      PairIsScalar(h, l);
      PairUnits(h, l);
    }
  }

  lemma UnitsArePairs(v: Wide)
    requires IsScalar(v)
    ensures v < 0x10000 ==> UnitsOf(v) == [v as Unit] && !IsHigh(v as Unit) && (v as Unit) as Wide == v
    ensures v >= 0x10000 ==> IsHigh(High(v)) && IsLow(Low(v)) && PairValue(High(v), Low(v)) == v
  {
  }

  /** A high surrogate that waits for its second half, and the state word that holds it back. */
  predicate HeldIn(tail: seq<Unit>, x: Wide) {
    if tail == [] then x == 0 else |tail| == 1 && IsHigh(tail[0]) && x == HeldBack(tail[0])
  }

  /** Well-formed UTF-16, but for a pair that is cut short, is written as the bytes of its characters. */
  lemma {:induction false} WriteOfUnits(vs: seq<Wide>, tail: seq<Unit>, x: Wide)
    requires AllScalars(vs) && HeldIn(tail, x)
    ensures Write(0, UnitsOfAll(vs) + tail) == Written(EncodeAll(vs), false, x)
  {
    hide Encode, IsScalar, UnitsOf, IsHigh, HeldBack, High, Low, Write, HeldIn, IsChar, Value;
    if vs == [] {
      assert UnitsOfAll(vs) + tail == tail;
      WriteTail(tail, x);
    } else {
      var rest := UnitsOfAll(vs[1..]) + tail;
      WriteOfUnits(vs[1..], tail, x);
      WriteCharacter(vs[0], rest);
      assert UnitsOfAll(vs) + tail == UnitsOf(vs[0]) + rest;
    }
  }

  lemma WriteTail(tail: seq<Unit>, x: Wide)
    requires HeldIn(tail, x)
    ensures Write(0, tail) == Written([], false, x)
  {
  }

  lemma WriteOne(x: Wide, u: Unit, us: seq<Unit>)
    ensures Write(x, [u] + us) ==
            var r := Put16(x, u);
            if r.bytes.None? then Written([], true, r.state)
            else Write(r.state, us).(bytes := r.bytes.value + Write(r.state, us).bytes)
  {
  }

  lemma WriteCharacter(v: Wide, rest: seq<Unit>)
    requires IsScalar(v)
    ensures Encode(v).Some?
    ensures Write(0, UnitsOf(v) + rest) == Write(0, rest).(bytes := Encode(v).value + Write(0, rest).bytes)
  {
    hide Encode, IsScalar, IsHigh, IsLow, Put16, HeldBack, High, Low, PairValue, Write;
    EncodeThenDecode(v);
    UnitsArePairs(v);
    if v < 0x10000 {
      PutBasic(v as Unit);
      WriteOne(0, v as Unit, rest);
    } else {
      PutBasic(High(v));
      PutPair(High(v), Low(v));
      WriteOne(0, High(v), [Low(v)] + rest);
      WriteOne(HeldBack(High(v)), Low(v), rest);
      assert UnitsOf(v) + rest == [High(v)] + ([Low(v)] + rest);
      var w := Write(0, rest);
      assert [] + (Encode(v).value + w.bytes) == Encode(v).value + w.bytes;
    }
  }

  /** And only such units are written without failure. */
  lemma {:induction false} WriteAcceptsOnlyUtf16(us: seq<Unit>) returns (vs: seq<Wide>, tail: seq<Unit>)
    requires !Write(0, us).failed
    ensures AllScalars(vs) && HeldIn(tail, Write(0, us).state)
    ensures us == UnitsOfAll(vs) + tail && Write(0, us).bytes == EncodeAll(vs)
    decreases |us|
  {
    hide Encode, IsScalar, UnitsOf, IsHigh, IsLow, Put16, HeldBack, High, Low, PairValue;
    vs, tail := [], [];
    if us != [] {
      var u := us[0];
      PutBasic(u);
      WriteOne(0, u, us[1..]);
      assert us == [u] + us[1..];
      if !IsHigh(u) {
        var v := u as Wide;
        var vs', tail' := WriteAcceptsOnlyUtf16(us[1..]);
        vs, tail := [v] + vs', tail';
        Rejoin(v, vs', tail');
      } else if |us| == 1 {
        tail := us;
      } else {
        var l, rest := us[1], us[2..];
        PutPair(u, l);
        WriteOne(HeldBack(u), l, rest);
        assert us[1..] == [l] + rest;
        var v := PairValue(u, l);
        var vs', tail' := WriteAcceptsOnlyUtf16(rest);
        vs, tail := [v] + vs', tail';
        Rejoin(v, vs', tail');
        assert us == [u, l] + rest;
      }
    }
  }

  lemma Rejoin(v: Wide, vs: seq<Wide>, tail: seq<Unit>)
    requires IsScalar(v) && AllScalars(vs)
    ensures AllScalars([v] + vs) && Encode(v).Some? && EncodeAll([v] + vs) == Encode(v).value + EncodeAll(vs)
    ensures UnitsOfAll([v] + vs) + tail == UnitsOf(v) + (UnitsOfAll(vs) + tail)
  {
  }

  // ------------------------------------------------------------------------- there and back

  /** Bytes that read as whole characters are the bytes that writing their units gives. */
  lemma BytesThereAndBack(s: Bytes)
    requires var r := Read(0, s); !r.failed && r.state == 0
    ensures Write(0, Read(0, s).units) == Written(s, false, 0)
  {
    hide Read, Write, Drain, StateOf, IsPartial, Encode, UnitsOf, IsScalar;
    StartIsZero();
    ReadDeliversTheUnits([], s);
    DrainAcceptsOnlyText(s);
    var d := Drain(0, s);
    var q :| IsPartial(q) && d.state == StateOf(q) && s == EncodeAll(d.chars) + q;
    NonZeroIsPartial(q);
    WriteOfUnits(d.chars, [], 0);
    assert UnitsOfAll(d.chars) + [] == UnitsOfAll(d.chars);
  }

  /** Units that are written as whole pairs are the units that reading their bytes gives. */
  lemma UnitsThereAndBack(us: seq<Unit>)
    requires var w := Write(0, us); !w.failed && w.state == 0
    ensures Read(0, Write(0, us).bytes) == Stream16(us, false, 0)
  {
    hide Read, Write, Drain, StateOf, IsPartial, Encode, UnitsOf, IsScalar, HeldBack, IsHigh;
    var vs, tail := WriteAcceptsOnlyUtf16(us);
    if tail != [] {
      PutBasic(tail[0]);
    }
    StartIsZero();
    DrainOfEncoding(vs, []);
    assert EncodeAll(vs) + [] == EncodeAll(vs);
    ReadDeliversTheUnits([], EncodeAll(vs));
    assert UnitsOfAll(vs) + [] == UnitsOfAll(vs);
  }
}
