/**
 mbrtowc of src/orbis_wchar32.c: one character from a buffer, restartable at any byte.
 */
module Mbrtowc {
  import opened Wrappers
  import opened Utf8

  /** The value returned: 0, the number of bytes, (size_t)-2 or (size_t)-1. */
  datatype Return = Nul | Got(n: nat) | Incomplete | Illegal

  /** With it, the character stored, if any, and the state left in *st. */
  datatype Result = Result(ret: Return, wc: Option<Wide>, state: Wide)

  function Later(r: Result, k: nat): Result {
    if r.ret.Got? then r.(ret := Got(r.ret.n + k)) else r
  }

  /** One call in state c on the bytes s. */
  function Call(c: Wide, s: Bytes): Result
    decreases |s|
  {
    if s == [] then Result(Incomplete, None, c)
    else
      match Step(c, s[0])
      case Emit(wc) => Result(if wc == 0 && c == 0 then Nul else Got(1), Some(wc), 0)
      case Fail => Result(Illegal, None, 0)
      case More(c') => Later(Call(c', s[1..]), 1)
  }

  /** A state some earlier call left behind. */
  ghost predicate ValidState(c: Wide) {
    exists p :: IsPartial(p) && c == StateOf(p)
  }

  // ------------------------------------------------------------------------- the code

  /** mbrtowc, in state c0 on the bytes s. */
  method MbrtowcCall(c0: Wide, s: Bytes) returns (r: Result)
    requires ValidState(c0)
    ensures r == Call(c0, s)
  {
    hide Step, LeadState, OutOfBounds, Shift, HighBit, AtByte, IsPartial, StateOf;
    ghost var p :| IsPartial(p) && c0 == StateOf(p);
    var c := c0;
    if |s| == 0 {
      return Result(Incomplete, None, c);
    }
    var i := 0;
    NonZeroIsPartial(p);
    if c == 0 {
      StartStep(s[0]);
      if s[0] < 0x80 {
        return Result(if s[0] == 0 then Nul else Got(1), Some(s[0] as Wide), 0);
      }
      if s[0] - 0xc2 > 0xf4 - 0xc2 {
        return Result(Illegal, None, 0);
      }
      AfterLead(s);
      c := LeadState(s[0]);
      p := [s[0]];
      i := 1;
    } else {
      AtPending(c0, s, p);
    }
    if i < |s| {
      Spoiled(c0, s, p, c, i);
      if OutOfBounds(c, s[i]) {
        return Result(Illegal, None, 0);
      }
      while true
        invariant i < |s| && AtByte(c0, s, p, c, i) && !OutOfBounds(c, s[i])
        decreases |s| - i
      {
        Advance(c0, s, p, c, i);
        p := p + [s[i]];
        c := Shift(c, s[i]);
        i := i + 1;
        if !HighBit(c) {
          return Result(Got(i), Some(c), 0);
        }
        if i == |s| {
          break;
        }
        LaterCheck(c0, s, p, c, i);
        Spoiled(c0, s, p, c, i);
        if s[i] - 0x80 >= 0x40 {
          return Result(Illegal, None, 0);
        }
      }
    }
    RunsDry(c0, s, p, c, i);
    return Result(Incomplete, None, c);
  }

  /** i bytes of s have been taken, c is the state after the partial character p, and the rest of the
      call is the call in that state on the rest of the bytes. */
  ghost predicate AtByte(c0: Wide, s: Bytes, p: Bytes, c: Wide, i: nat) {
    i <= |s| && IsPartial(p) && p != [] && c == StateOf(p) && Call(c0, s) == Later(Call(c, s[i..]), i)
  }

  lemma AtPending(c0: Wide, s: Bytes, p: Bytes)
    requires IsPartial(p) && p != [] && c0 == StateOf(p)
    ensures AtByte(c0, s, p, c0, 0)
  {
  }

  lemma AfterLead(s: Bytes)
    requires s != [] && s[0] >= 0x80 && s[0] - 0xc2 <= 0xf4 - 0xc2
    ensures AtByte(0, s, [s[0]], LeadState(s[0]), 1)
  {
  }

  lemma Spoiled(c0: Wide, s: Bytes, p: Bytes, c: Wide, i: nat)
    requires AtByte(c0, s, p, c, i) && i < |s|
    ensures OutOfBounds(c, s[i]) ==> Call(c0, s) == Result(Illegal, None, 0)
  {
  }

  lemma Advance(c0: Wide, s: Bytes, p: Bytes, c: Wide, i: nat)
    requires AtByte(c0, s, p, c, i) && i < |s| && !OutOfBounds(c, s[i])
    ensures var c' := Shift(c, s[i]);
            if HighBit(c') then AtByte(c0, s, p + [s[i]], c', i + 1) && |p| >= 1
            else Call(c0, s) == Result(Got(i + 1), Some(c'), 0)
  {
    hide Step, StateOf, OutOfBounds, Shift, HighBit, IsPartial, IsChar, Value;
    HighIsNotZero(p);
    PartialStep(c, s[i]);
    StepFollowsDefinition(p, s[i]);
    assert s[i..][1..] == s[i + 1..];
  }

  lemma LaterCheck(c0: Wide, s: Bytes, p: Bytes, c: Wide, i: nat)
    requires AtByte(c0, s, p, c, i) && i < |s| && |p| >= 2
    ensures s[i] - 0x80 >= 0x40 <==> OutOfBounds(c, s[i])
  {
  }

  lemma RunsDry(c0: Wide, s: Bytes, p: Bytes, c: Wide, i: nat)
    requires AtByte(c0, s, p, c, i) && i == |s|
    ensures Call(c0, s) == Result(Incomplete, None, c)
  {
  }

  lemma StartStep(b: Byte)
    ensures b < 0x80 ==> Step(0, b) == Emit(b as Wide)
    ensures b >= 0x80 && b - 0xc2 > 0xf4 - 0xc2 ==> Step(0, b) == Fail
    ensures b >= 0x80 && b - 0xc2 <= 0xf4 - 0xc2 ==> Step(0, b) == More(LeadState(b))
    ensures b == 0 <==> b as Wide == 0
  {
  }

  lemma NonZeroIsPartial(p: Bytes)
    requires IsPartial(p)
    ensures p == [] <==> StateOf(p) == 0
  {
  }

  lemma PartialStep(c: Wide, b: Byte)
    requires c != 0
    ensures Step(c, b) == if OutOfBounds(c, b) then Fail
                          else if HighBit(Shift(c, b)) then More(Shift(c, b))
                          else Emit(Shift(c, b))
  {
  }

  lemma TailCheck(b: Byte)
    ensures b - 0x80 >= 0x40 <==> !Tail(b)
  {
  }

  // ------------------------------------------------------------------------- what it accepts

  /** From the state after the partial character p, a call on s delivers a character exactly when p and
      a beginning of s make one, with its value; waits exactly when all of s continues p properly; and
      is illegal in every other case. */
  lemma {:induction false} CallFollowsDefinition(p: Bytes, s: Bytes)
    requires IsPartial(p)
    ensures var r := Call(StateOf(p), s);
            && (r.ret.Incomplete? <==> IsPartial(p + s))
            && (r.ret.Incomplete? ==> r == Result(Incomplete, None, StateOf(p + s)))
            && (r.ret.Got? ==> r.ret.n <= |s| && IsChar(p + s[..r.ret.n])
                               && r == Result(r.ret, Some(Value(p + s[..r.ret.n])), 0))
            && (r.ret.Nul? <==> p == [] && s != [] && s[0] == 0)
            && (r.ret.Nul? ==> r == Result(Nul, Some(0), 0))
            && (r.ret.Illegal? <==> !IsPartial(p + s) && forall n :: 0 <= n <= |s| ==> !IsChar(p + s[..n]))
            && (r.ret.Illegal? ==> r == Result(Illegal, None, 0))
    decreases |s|
  {
    hide Step, StateOf, Value, IsChar, IsPartial;
    if s == [] {
      assert p + s == p;
      PartialIsNoChar(p);
      assert forall n :: 0 <= n <= |s| ==> p + s[..n] == p;
    } else {
      var b := s[0];
      var q := p + [b];
      StepFollowsDefinition(p, b);
      assert p + s[..1] == q;
      PartialIsNoChar(p);
      assert p + s[..0] == p;
      ZeroIsWhole(p, b);
      if IsChar(q) {
        NotPartialPast(q, p + s);
        NulIsFirst(p, b);
      } else if IsPartial(q) {
        CallFollowsDefinition(q, s[1..]);
        assert q + s[1..] == p + s;
        forall n | 1 <= n <= |s| ensures q + s[1..][..n - 1] == p + s[..n] {
        }
        HighIsNotZero(q);
        NoNulAfter(StateOf(q), s[1..]);
      } else {
        NothingPast(p, b, s);
      }
    }
  }

  lemma ZeroIsWhole(p: Bytes, b: Byte)
    requires IsPartial(p)
    ensures p == [] && b == 0 ==> IsChar(p + [b])
    ensures IsChar(p + [b]) ==> !IsPartial(p + [b])
  {
  }

  lemma PartialIsNoChar(p: Bytes)
    requires IsPartial(p)
    ensures !IsChar(p)
  {
  }

  /** Nothing longer than a whole character is partial. */
  lemma NotPartialPast(q: Bytes, t: Bytes)
    requires IsChar(q) && |q| <= |t| && t[..|q|] == q
    ensures !IsPartial(t)
  {
  }

  lemma NulIsFirst(p: Bytes, b: Byte)
    requires IsPartial(p) && IsChar(p + [b])
    ensures Value(p + [b]) == 0 && StateOf(p) == 0 <==> p == [] && b == 0
  {
  }

  /** Every state a byte leaves behind is high, hence never the initial one. */
  lemma MoreIsNotZero(c: Wide, b: Byte)
    requires Step(c, b).More?
    ensures Step(c, b).c != 0
  {
  }

  lemma {:induction false} NoNulAfter(c: Wide, s: Bytes)
    requires c != 0
    ensures !Call(c, s).ret.Nul?
    decreases |s|
  {
    hide Step;
    if s != [] && Step(c, s[0]).More? {
      MoreIsNotZero(c, s[0]);
      NoNulAfter(Step(c, s[0]).c, s[1..]);
    }
  }

  /** A byte that neither continues nor completes p spoils everything that follows. */
  lemma NothingPast(p: Bytes, b: Byte, s: Bytes)
    requires IsPartial(p) && s != [] && s[0] == b && !IsChar(p + [b]) && !IsPartial(p + [b])
    ensures !IsPartial(p + s) && forall n :: 0 <= n <= |s| ==> !IsChar(p + s[..n])
  {
  }

  // ------------------------------------------------------------------------- split input

  /** Cutting the input of a call anywhere changes nothing: a call that runs dry on the first part and
      one more on the second part, in the state left behind, do what one call on both does. */
  lemma {:induction false} CallSplits(c: Wide, a: Bytes, b: Bytes)
    ensures Call(c, a + b) == if Call(c, a).ret.Incomplete? then Later(Call(Call(c, a).state, b), |a|) else Call(c, a)
    decreases |a|
  {
    hide Step;
    if a == [] {
      assert a + b == b;
    } else {
      assert (a + b)[0] == a[0] && (a + b)[1..] == a[1..] + b;
      if Step(c, a[0]).More? {
        CallSplits(Step(c, a[0]).c, a[1..], b);
      }
    }
  }

  lemma {:induction false} CallUsesItsBytes(c: Wide, s: Bytes)
    ensures Call(c, s).ret.Got? ==> 1 <= Call(c, s).ret.n <= |s|
    ensures Call(c, s).ret.Nul? ==> s != []
    ensures Call(c, s).ret.Got? || Call(c, s).ret.Nul? ==> Call(c, s).wc.Some? && Call(c, s).state == 0
    decreases |s|
  {
    hide Step;
    if s != [] && Step(c, s[0]).More? {
      CallUsesItsBytes(Step(c, s[0]).c, s[1..]);
    }
  }

  /** What a caller that keeps calling has collected: the characters, and the state, or the failure. */
  datatype Stream = Stream(chars: seq<Wide>, failed: bool, state: Wide)

  function Taken(r: Return): nat {
    match r
    case Nul => 1
    case Got(n) => n
    case _ => 0
  }

  /** Calls on one buffer until it runs dry or a call fails. */
  function Drain(c: Wide, s: Bytes): Stream
    decreases |s|
  {
    CallUsesItsBytes(c, s);
    var r := Call(c, s);
    match r.ret
    case Incomplete => Stream([], false, r.state)
    case Illegal => Stream([], true, 0)
    case _ =>
      var rest := Drain(r.state, s[Taken(r.ret)..]);
      Stream([r.wc.value] + rest.chars, rest.failed, rest.state)
  }

  function Append(first: Stream, rest: Stream): Stream {
    Stream(first.chars + rest.chars, rest.failed, rest.state)
  }

  /** Buffers that arrive one after the other, the state carried across. */
  function DrainAll(c: Wide, parts: seq<Bytes>): Stream
    decreases |parts|
  {
    if parts == [] then Stream([], false, c) else
      var first := Drain(c, parts[0]);
      if first.failed then first else Append(first, DrainAll(first.state, parts[1..]))
  }

  function Concat(parts: seq<Bytes>): Bytes {
    if parts == [] then [] else parts[0] + Concat(parts[1..])
  }

  lemma {:induction false} DrainSplits(c: Wide, a: Bytes, b: Bytes)
    ensures var first := Drain(c, a);
            Drain(c, a + b) == if first.failed then first else Append(first, Drain(first.state, b))
    decreases |a|
  {
    hide Call, Drain;
    CallSplits(c, a, b);
    CallUsesItsBytes(c, a);
    var r := Call(c, a);
    if r.ret.Got? || r.ret.Nul? {
      var k := Taken(r.ret);
      DrainTakes(c, a);
      DrainTakes(c, a + b);
      assert (a + b)[k..] == a[k..] + b;
      DrainSplits(r.state, a[k..], b);
      var first := Drain(r.state, a[k..]);
      assert [r.wc.value] + (first.chars + Drain(first.state, b).chars)
          == ([r.wc.value] + first.chars) + Drain(first.state, b).chars;
    } else {
      DrainStops(c, a);
      DrainStops(c, a + b);
      if r.ret.Incomplete? {
        DrainGoesOn(c, a, b);
        assert Drain(c, a + b) == Append(Drain(c, a), Drain(r.state, b));
      }
    }
  }

  lemma DrainTakes(c: Wide, s: Bytes)
    requires Call(c, s).ret.Got? || Call(c, s).ret.Nul?
    ensures var r := Call(c, s);
            Taken(r.ret) <= |s| && r.wc.Some?
            && Drain(c, s) == Append(Stream([r.wc.value], false, r.state), Drain(r.state, s[Taken(r.ret)..]))
  {
    hide Call;
    CallUsesItsBytes(c, s);
  }

  lemma DrainStops(c: Wide, s: Bytes)
    ensures Call(c, s).ret.Incomplete? ==> Drain(c, s) == Stream([], false, Call(c, s).state)
    ensures Call(c, s).ret.Illegal? ==> Drain(c, s) == Stream([], true, 0)
  {
  }

  lemma DrainGoesOn(c: Wide, a: Bytes, b: Bytes)
    requires Call(c, a).ret.Incomplete?
    ensures Drain(c, a + b) == Drain(Call(c, a).state, b)
  {
    hide Call;
    CallSplits(c, a, b);
    var r := Call(Call(c, a).state, b);
    CallUsesItsBytes(Call(c, a).state, b);
    if a == [] {
      EmptyCall(c);
      assert a + b == b;
    } else {
      IncompleteIsNotZero(c, a);
      NoNulAfter(Call(c, a).state, b);
      if r.ret.Got? {
        assert (a + b)[|a| + r.ret.n..] == b[r.ret.n..];
      }
    }
  }

  lemma EmptyCall(c: Wide)
    ensures Call(c, []) == Result(Incomplete, None, c)
  {
  }

  lemma {:induction false} IncompleteIsNotZero(c: Wide, a: Bytes)
    requires a != [] && Call(c, a).ret.Incomplete?
    ensures Call(c, a).state != 0
    decreases |a|
  {
    hide Step;
    MoreIsNotZero(c, a[0]);
    if |a| > 1 {
      IncompleteIsNotZero(Step(c, a[0]).c, a[1..]);
    }
  }

  /** However the input is cut into buffers, even one byte at a time or with empty ones, the characters,
      the failure and the state left are those of the whole. */
  lemma {:induction false} ChunksDoNotMatter(c: Wide, parts: seq<Bytes>)
    ensures DrainAll(c, parts) == Drain(c, Concat(parts))
    decreases |parts|
  {
    hide Call, Drain;
    if parts == [] {
      DrainNothing(c);
    } else {
      DrainSplits(c, parts[0], Concat(parts[1..]));
      var first := Drain(c, parts[0]);
      if !first.failed {
        ChunksDoNotMatter(first.state, parts[1..]);
      }
    }
  }

  lemma DrainNothing(c: Wide)
    ensures Drain(c, []) == Stream([], false, c)
  {
  }

  // ------------------------------------------------------------------------- whole strings

  lemma {:induction false} OneCharacter(p: Bytes, rest: Bytes)
    requires IsChar(p)
    ensures var r := Call(0, p + rest);
            Taken(r.ret) == |p| && (r.ret.Nul? || r.ret.Got?) && r.wc == Some(Value(p)) && r.state == 0
  {
    hide Call, StateOf, Value;
    var r := Call(StateOf([]), p + rest);
    CallFollowsDefinition([], p + rest);
    StartIsZero();
    assert [] + (p + rest) == p + rest && (p + rest)[..|p|] == p;
    NotPartialPast(p, p + rest);
    if r.ret.Got? {
      assert [] + (p + rest)[..r.ret.n] == (p + rest)[..r.ret.n];
    } else if r.ret.Nul? {
      NulValue(p);
    }
  }

  lemma StartIsZero()
    ensures IsPartial([]) && StateOf([]) == 0
  {
  }

  lemma NulValue(p: Bytes)
    requires IsChar(p) && p[0] == 0
    ensures |p| == 1 && Value(p) == 0
  {
  }

  /** Text that is well-formed but for a last character cut short is read as exactly that. */
  lemma {:induction false} DrainOfEncoding(ws: seq<Wide>, q: Bytes)
    requires AllScalars(ws) && IsPartial(q)
    ensures Drain(0, EncodeAll(ws) + q) == Stream(ws, false, StateOf(q))
    decreases |ws|
  {
    hide Call, Encode, Value, StateOf, IsPartial, IsChar;
    if ws == [] {
      StartIsZero();
      CallFollowsDefinition([], q);
      assert EncodeAll(ws) + q == q && [] + q == q;
    } else {
      EncodeThenDecode(ws[0]);
      var p := Encode(ws[0]).value;
      var rest := EncodeAll(ws[1..]) + q;
      assert EncodeAll(ws) + q == p + rest;
      OneCharacter(p, rest);
      assert (p + rest)[|p|..] == rest;
      DrainOfEncoding(ws[1..], q);
    }
  }

  /** And only such text is read without failure. */
  lemma {:induction false} DrainAcceptsOnlyText(s: Bytes)
    requires !Drain(0, s).failed
    ensures AllScalars(Drain(0, s).chars)
    ensures exists q :: IsPartial(q) && Drain(0, s).state == StateOf(q) && s == EncodeAll(Drain(0, s).chars) + q
    decreases |s|
  {
    hide Call, Encode, Value, StateOf, IsPartial, IsChar, Drain, IsScalar;
    var d := Drain(0, s);
    var r := Call(0, s);
    StartIsZero();
    CallFollowsDefinition([], s);
    assert [] + s == s;
    CallUsesItsBytes(0, s);
    DrainStops(0, s);
    if r.ret.Incomplete? {
      assert s == EncodeAll(d.chars) + s;
    } else if r.ret.Got? || r.ret.Nul? {
      DrainTakes(0, s);
      TakenIsOneCharacter(s);
      var rest := s[Taken(r.ret)..];
      DrainAcceptsOnlyText(rest);
      var q :| IsPartial(q) && Drain(0, rest).state == StateOf(q) && rest == EncodeAll(Drain(0, rest).chars) + q;
      OneMoreCharacter(s, Taken(r.ret), Drain(0, rest).chars, q);
    }
  }

  lemma OneMoreCharacter(s: Bytes, k: nat, ws: seq<Wide>, q: Bytes)
    requires k <= |s| && IsChar(s[..k]) && AllScalars(ws) && s[k..] == EncodeAll(ws) + q
    ensures AllScalars([Value(s[..k])] + ws) && s == EncodeAll([Value(s[..k])] + ws) + q
  {
    hide Encode, Value, IsChar, IsScalar;
    var all := [Value(s[..k])] + ws;
    DecodeThenEncode(s[..k]);
    assert all[1..] == ws;
    assert s == s[..k] + s[k..];
  }

  lemma TakenIsOneCharacter(s: Bytes)
    requires Call(0, s).ret.Got? || Call(0, s).ret.Nul?
    ensures var r := Call(0, s);
            var k := Taken(r.ret);
            k <= |s| && IsChar(s[..k]) && r == Result(r.ret, Some(Value(s[..k])), 0)
  {
    hide Call, StateOf, Value;
    var r := Call(0, s);
    StartIsZero();
    CallFollowsDefinition([], s);
    if r.ret.Got? {
      assert [] + s[..r.ret.n] == s[..r.ret.n];
    } else {
      assert s[..1] == [s[0]];
      NulValue([s[0]]);
    }
  }

  // ------------------------------------------------------------------------- mbtowc

  /** mbtowc: without a state, so a character that is cut short is as illegal as a malformed one. One
      test on the lead byte's state tells that s is long enough, before any later byte is read. */
  method Mbtowc(s: Bytes) returns (ret: Return, wc: Option<Wide>)
    ensures var r := Call(0, s); ret == (if r.ret.Incomplete? then Illegal else r.ret) && wc == r.wc
  {
    hide *;
    TooShortToFinish(s);
    if |s| == 0 {
      return Illegal, None;
    }
    FirstOfCall(s);
    if s[0] < 0x80 {
      return if s[0] == 0 then Nul else Got(1), Some(s[0] as Wide);
    }
    if s[0] - 0xc2 > 0xf4 - 0xc2 {
      return Illegal, None;
    }
    AfterLead(s);
    LeadTellsLength(s[0]);
    var c := LeadState(s[0]);
    if |s| < 4 && TooFew(c, |s|) {
      return Illegal, None;
    }
    LongEnough(s);
    Spoiled(0, s, [s[0]], c, 1);
    if OutOfBounds(c, s[1]) {
      return Illegal, None;
    }
    Advance(0, s, [s[0]], c, 1);
    c := Shift(c, s[1]);
    if !HighBit(c) {
      return Got(2), Some(c);
    }
    ghost var p := [s[0]] + [s[1]];
    MoreBytesNeeded(0, s, p, c, 2);
    Spoiled(0, s, p, c, 2);
    LaterCheck(0, s, p, c, 2);
    if s[2] - 0x80 >= 0x40 {
      return Illegal, None;
    }
    Advance(0, s, p, c, 2);
    c := Shift(c, s[2]);
    if !HighBit(c) {
      return Got(3), Some(c);
    }
    p := p + [s[2]];
    MoreBytesNeeded(0, s, p, c, 3);
    Spoiled(0, s, p, c, 3);
    LaterCheck(0, s, p, c, 3);
    if s[3] - 0x80 >= 0x40 {
      return Illegal, None;
    }
    Advance(0, s, p, c, 3);
    FourIsAll(0, s, p + [s[3]], Shift(c, s[3]));
    return Got(4), Some(Shift(c, s[3]));
  }

  lemma FirstOfCall(s: Bytes)
    requires s != []
    ensures s[0] < 0x80 ==> Call(0, s) == Result(if s[0] == 0 then Nul else Got(1), Some(s[0] as Wide), 0)
    ensures s[0] >= 0x80 && s[0] - 0xc2 > 0xf4 - 0xc2 ==> Call(0, s) == Result(Illegal, None, 0)
  {
  }

  /** The test of the source: shifting the state once for every byte but one leaves it high. */
  predicate TooFew(c: Wide, n: nat)
    requires 1 <= n < 4
  {
    HighBit(c << (6 * n - 6))
  }

  /** For a lead's state that is so exactly when the bytes at hand are too few. */
  lemma LeadTellsLength(l: Byte)
    requires l >= 0x80 && l - 0xc2 <= 0xf4 - 0xc2
    ensures 2 <= Length(l) <= 4
    ensures forall n: nat :: 1 <= n < 4 ==> (TooFew(LeadState(l), n) <==> n < Length(l))
  {
    LeadShifted(l);
    forall n: nat | 1 <= n < 4 ensures TooFew(LeadState(l), n) <==> n < Length(l) {
      assert n == 1 || n == 2 || n == 3;
    }
  }

  lemma LeadShifted(l: Byte)
    requires l >= 0x80 && l - 0xc2 <= 0xf4 - 0xc2
    ensures 2 <= Length(l) <= 4
    ensures HighBit(LeadState(l) << 0)
    ensures HighBit(LeadState(l) << 6) <==> Length(l) > 2
    ensures HighBit(LeadState(l) << 12) <==> Length(l) > 3
  {
  }

  lemma LongEnough(s: Bytes)
    requires 1 <= |s| && 2 <= Length(s[0]) <= 4
    requires |s| >= 4 || |s| >= Length(s[0])
    ensures |s| >= 2
  {
  }

  lemma TooShortToFinish(s: Bytes)
    ensures Call(0, s).ret.Incomplete? || Call(0, s).ret.Illegal? ==> Call(0, s).wc == None
    ensures s == [] || |s| < Length(s[0]) ==> Call(0, s).ret.Incomplete? || Call(0, s).ret.Illegal?
  {
    hide Call, StateOf, Value;
    StartIsZero();
    CallFollowsDefinition([], s);
    CallUsesItsBytes(0, s);
    if Call(0, s).ret.Got? || Call(0, s).ret.Nul? {
      TakenIsOneCharacter(s);
    }
  }

  lemma MoreBytesNeeded(c0: Wide, s: Bytes, p: Bytes, c: Wide, i: nat)
    requires AtByte(c0, s, p, c, i) && s != [] && p[0] == s[0] && |p| == i && (|s| >= 4 || |s| >= Length(s[0]))
    ensures i < |s|
  {
  }

  lemma FourIsAll(c0: Wide, s: Bytes, p: Bytes, c: Wide)
    requires |p| == 4
    ensures !AtByte(c0, s, p, c, 4)
  {
  }
}
