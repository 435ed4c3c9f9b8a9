/**
 UTF-8 as src/orbis_wchar32.c decodes it, one byte at a time through a packed 32-bit state word, next
 to UTF-8 as sections 3 and 4 of RFC 3629 define it.
 */
module Utf8 {
  import opened Wrappers

  type Byte = bv8
  type Bytes = seq<Byte>
  type Wide = bv32

  // ------------------------------------------------------------------------- the definition

  /** How many bytes the sequence led by l has; 0 when no sequence starts with it. */
  function Length(l: Byte): nat {
    if l <= 0x7f then 1
    else if 0xc2 <= l <= 0xdf then 2
    else if 0xe0 <= l <= 0xef then 3
    else if 0xf0 <= l <= 0xf4 then 4
    else 0
  }

  predicate Tail(b: Byte) {
    0x80 <= b <= 0xbf
  }

  /** Which second bytes may follow the lead l of a longer sequence. */
  predicate Second(l: Byte, b: Byte) {
    Tail(b)
    && (l == 0xe0 ==> b >= 0xa0) && (l == 0xed ==> b <= 0x9f)
    && (l == 0xf0 ==> b >= 0x90) && (l == 0xf4 ==> b <= 0x8f)
  }

  /** p is a non-empty beginning of some character's bytes, the whole included. */
  predicate Begins(p: Bytes) {
    && 1 <= |p| <= Length(p[0])
    && (|p| >= 2 ==> Second(p[0], p[1]))
    && (|p| >= 3 ==> Tail(p[2]))
    && (|p| >= 4 ==> Tail(p[3]))
  }

  /** p is exactly one character. */
  predicate IsChar(p: Bytes) {
    Begins(p) && |p| == Length(p[0])
  }

  predicate IsPartial(p: Bytes) {
    p == [] || (Begins(p) && |p| < Length(p[0]))
  }

  function Low6(b: Byte): Wide {
    (b & 0x3f) as Wide
  }

  /** The scalar value of one character: the lead's free bits, then six from each tail. */
  function Value(p: Bytes): Wide
    requires IsChar(p)
  {
    if |p| == 1 then p[0] as Wide
    else if |p| == 2 then ((p[0] & 0x1f) as Wide << 6) | Low6(p[1])
    else if |p| == 3 then ((p[0] & 0x0f) as Wide << 12) | (Low6(p[1]) << 6) | Low6(p[2])
    else Joined(p[0], p[1], p[2], p[3])
  }

  function Joined(l: Byte, b: Byte, d: Byte, e: Byte): Wide {
    ((l & 0x07) as Wide << 18) | (Low6(b) << 12) | (Low6(d) << 6) | Low6(e)
  }

  /** The Unicode scalar values: everything up to 10FFFF but the surrogates. */
  predicate IsScalar(v: Wide) {
    v < 0xd800 || 0xe000 <= v <= 0x10ffff
  }

  // ------------------------------------------------------------------------- the packed state

  /** R(a, b) of the source: the upper six bits, a negative offset that checks the next byte. */
  function Range(a: Wide, b: Wide): Wide {
    (if a == 0x80 then 0x40 - b else 0 - a) << 23
  }

  /** bittab[l - 0xc2], from the macros C, D, E and F that build the table. */
  function LeadState(l: Byte): Wide {
    var x := (l & 0x0f) as Wide;
    if l < 0xd0 then Range(0x80, 0xc0) | x
    else if l < 0xe0 then Range(0x80, 0xc0) | (x + 16)
    else if l < 0xf0 then
      (if x == 0 then Range(0xa0, 0xc0) else if x == 0xd then Range(0x80, 0xa0) else Range(0x80, 0xc0))
      | (Range(0x80, 0xc0) >> 6) | x
    else
      (if x >= 5 then 0
       else if x == 0 then Range(0x90, 0xc0)
       else if x == 4 then Range(0x80, 0x90)
       else Range(0x80, 0xc0))
      | (Range(0x80, 0xc0) >> 6) | (Range(0x80, 0xc0) >> 12) | x
  }

  /** The arithmetic shift of a 32-bit word by 26. */
  function Sar26(c: Wide): Wide {
    (c >> 26) | (if c & 0x8000_0000 != 0 then 0xffff_ffc0 else 0)
  }

  /** OOB(c, b): the next byte is outside the range the state's upper bits allow. */
  predicate OutOfBounds(c: Wide, b: Byte) {
    var t := b as Wide >> 3;
    ((t - 0x10) | (t + Sar26(c))) & 0xffff_fff8 != 0
  }

  function Shift(c: Wide, b: Byte): Wide {
    (c << 6) | (b as Wide - 0x80)
  }

  predicate HighBit(c: Wide) {
    c & 0x8000_0000 != 0
  }

  datatype Outcome = More(c: Wide) | Emit(wc: Wide) | Fail

  /** What mbrtowc makes of one more byte in state c. */
  function Step(c: Wide, b: Byte): Outcome {
    if c == 0 then
      if b < 0x80 then Emit(b as Wide)
      else if b - 0xc2 > 0xf4 - 0xc2 then Fail
      else More(LeadState(b))
    else if OutOfBounds(c, b) then Fail
    else
      var c' := Shift(c, b);
      if HighBit(c') then More(c') else Emit(c')
  }

  /** The state after a partial character. */
  function StateOf(p: Bytes): Wide
    requires IsPartial(p)
  {
    if p == [] then 0
    else if |p| == 1 then LeadState(p[0])
    else if |p| == 2 then Shift(LeadState(p[0]), p[1])
    else Shift(Shift(LeadState(p[0]), p[1]), p[2])
  }

  // ------------------------------------------------------------------------- the two agree

  /** Every partial state has the high bit set; so none is 0, and none is a pending surrogate. */
  lemma PartialStatesAreHigh(p: Bytes)
    requires IsPartial(p) && p != []
    ensures HighBit(StateOf(p))
  {
  }

  /** Past the second byte the range check is the plain one for a tail byte. */
  lemma LaterBytesAreTails(p: Bytes, b: Byte)
    requires IsPartial(p) && |p| >= 2
    ensures OutOfBounds(StateOf(p), b) <==> !Tail(b)
  {
  }

  lemma LeadBounds(l: Byte, b: Byte)
    requires Length(l) >= 2
    ensures OutOfBounds(LeadState(l), b) <==> !Second(l, b)
  {
  }

  /** Shifting in the second byte completes a two-byte character or leaves the high bit set. */
  lemma SecondShift(l: Byte, b: Byte)
    requires Length(l) >= 2 && Second(l, b)
    ensures HighBit(Shift(LeadState(l), b)) <==> Length(l) > 2
    ensures Length(l) == 2 ==> Shift(LeadState(l), b) == ((l & 0x1f) as Wide << 6) | Low6(b)
  {
  }

  lemma ThirdShift(l: Byte, b: Byte, d: Byte)
    requires Length(l) >= 3 && Second(l, b) && Tail(d)
    ensures HighBit(Shift(Shift(LeadState(l), b), d)) <==> Length(l) > 3
    ensures Length(l) == 3 ==>
      Shift(Shift(LeadState(l), b), d) == ((l & 0x0f) as Wide << 12) | (Low6(b) << 6) | Low6(d)
  {
  }

  lemma FourthShift(l: Byte, b: Byte, d: Byte, e: Byte)
    requires Length(l) == 4 && Second(l, b) && Tail(d) && Tail(e)
    ensures var c := Shift(Shift(Shift(LeadState(l), b), d), e);
            !HighBit(c) && c == Joined(l, b, d, e)
  {
  }

  lemma LeadStateIsNotZero(l: Byte)
    requires Length(l) >= 2
    ensures LeadState(l) != 0 && HighBit(LeadState(l))
  {
  }

  /** The decoder's step is the definition, byte by byte: it completes exactly the characters, with
      their value, waits after exactly the proper beginnings, and fails on everything else. */
  lemma StepFollowsDefinition(p: Bytes, b: Byte)
    requires IsPartial(p)
    ensures Step(StateOf(p), b) ==
            if IsChar(p + [b]) then Emit(Value(p + [b]))
            else if IsPartial(p + [b]) then More(StateOf(p + [b]))
            else Fail
  {
    hide LeadState, OutOfBounds, Shift, HighBit, Low6;
    var q := p + [b];
    if p == [] {
      FirstByte(b);
    } else if |p| == 1 {
      assert q[0] == p[0] && q[1] == b;
      LeadStateIsNotZero(p[0]);
      LeadBounds(p[0], b);
      if Second(p[0], b) {
        SecondShift(p[0], b);
      }
    } else if |p| == 2 {
      assert q[0] == p[0] && q[1] == p[1] && q[2] == b;
      HighIsNotZero(p);
      LaterBytesAreTails(p, b);
      if Tail(b) {
        ThirdShift(p[0], p[1], b);
      }
    } else {
      assert q[0] == p[0] && q[1] == p[1] && q[2] == p[2] && q[3] == b;
      HighIsNotZero(p);
      LaterBytesAreTails(p, b);
      if Tail(b) {
        FourthShift(p[0], p[1], p[2], b);
      }
    }
  }

  lemma HighIsNotZero(p: Bytes)
    requires IsPartial(p) && p != []
    ensures StateOf(p) != 0
  {
  }

  lemma FirstByte(b: Byte)
    ensures Step(0, b) == if Length(b) == 1 then Emit(b as Wide)
                          else if Length(b) >= 2 then More(LeadState(b))
                          else Fail
  {
  }

  // ------------------------------------------------------------------------- encoding

  /** One of the later bytes of a sequence: its mark and six bits. */
  function TailByte(bits: Wide): Byte {
    (0x80 | (bits & 0x3f)) as Byte
  }

  predicate LeadFits(mark: Wide, bits: Wide) {
    mark | bits <= 0xff
  }

  function LeadByte(mark: Wide, bits: Wide): Byte
    requires LeadFits(mark, bits)
  {
    (mark | bits) as Byte
  }

  /** wcrtomb: the bytes of a character, or None for what is no scalar value. */
  function Encode(wc: Wide): Option<Bytes> {
    if wc < 0x80 then Some([wc as Byte])
    else if wc < 0x800 then
      Some([LeadByte(0xc0, wc >> 6), TailByte(wc)])
    else if wc < 0xd800 || wc - 0xe000 < 0x2000 then
      Some([LeadByte(0xe0, wc >> 12), TailByte(wc >> 6), TailByte(wc)])
    else if wc - 0x10000 < 0x100000 then
      Some([LeadByte(0xf0, wc >> 18), TailByte(wc >> 12),
            TailByte(wc >> 6), TailByte(wc)])
    else None
  }

  lemma EncodeOne(wc: Wide)
    requires wc < 0x80
    ensures var p := [wc as Byte]; IsChar(p) && Value(p) == wc
  {
  }

  lemma EncodeTwo(wc: Wide)
    requires 0x80 <= wc < 0x800
    ensures var p := [LeadByte(0xc0, wc >> 6), TailByte(wc)];
            IsChar(p) && Value(p) == wc
  {
  }

  lemma ThreeShape(wc: Wide)
    requires 0x800 <= wc < 0xd800 || 0xe000 <= wc < 0x10000
    ensures var l := LeadByte(0xe0, wc >> 12); 0xe0 <= l <= 0xef && Second(l, TailByte(wc >> 6))
    ensures Tail(TailByte(wc))
  {
  }

  lemma ThreeValue(wc: Wide)
    requires wc < 0x10000
    ensures ((LeadByte(0xe0, wc >> 12) & 0x0f) as Wide << 12) | (Low6(TailByte(wc >> 6)) << 6)
            | Low6(TailByte(wc)) == wc
  {
  }

  lemma EncodeThree(wc: Wide)
    requires 0x800 <= wc < 0xd800 || 0xe000 <= wc < 0x10000
    ensures var p := [LeadByte(0xe0, wc >> 12), TailByte(wc >> 6), TailByte(wc)];
            IsChar(p) && Value(p) == wc
  {
    hide Second, Tail, Low6, TailByte, LeadByte;
    ThreeShape(wc);
    ThreeValue(wc);
  }

  lemma FourShape(wc: Wide)
    requires 0x10000 <= wc <= 0x10ffff
    ensures LeadFits(0xf0, wc >> 18)
    ensures var l := LeadByte(0xf0, wc >> 18); 0xf0 <= l <= 0xf4 && Second(l, TailByte(wc >> 12))
    ensures Tail(TailByte(wc >> 6)) && Tail(TailByte(wc))
  {
  }

  lemma FourValue(wc: Wide)
    requires wc <= 0x10ffff
    ensures LeadFits(0xf0, wc >> 18)
    ensures Joined(LeadByte(0xf0, wc >> 18), TailByte(wc >> 12), TailByte(wc >> 6), TailByte(wc)) == wc
  {
  }

  lemma FourTogether(l: Byte, b: Byte, d: Byte, e: Byte)
    requires 0xf0 <= l <= 0xf4 && Second(l, b) && Tail(d) && Tail(e)
    ensures IsChar([l, b, d, e])
    ensures Value([l, b, d, e]) == Joined(l, b, d, e)
  {
    hide Second, Tail, Joined;
  }

  lemma EncodeFour(wc: Wide)
    requires 0x10000 <= wc <= 0x10ffff
    ensures LeadFits(0xf0, wc >> 18)
    ensures var p := [LeadByte(0xf0, wc >> 18), TailByte(wc >> 12), TailByte(wc >> 6), TailByte(wc)];
            IsChar(p) && Value(p) == wc
  {
    hide *;
    FourShape(wc);
    FourValue(wc);
    FourTogether(LeadByte(0xf0, wc >> 18), TailByte(wc >> 12), TailByte(wc >> 6), TailByte(wc));
  }

  /** Exactly the scalar values have an encoding; it is one character and decodes to the value. */
  lemma EncodeThenDecode(wc: Wide)
    ensures Encode(wc).Some? <==> IsScalar(wc)
    ensures IsScalar(wc) ==> IsChar(Encode(wc).value) && Value(Encode(wc).value) == wc
  {
    hide IsChar, Value;
    ThirdRangeIsPlain(wc);
    FourthRangeIsPlain(wc);
    if wc < 0x80 {
      EncodeOne(wc);
    } else if wc < 0x800 {
      EncodeTwo(wc);
    } else if wc < 0xd800 || 0xe000 <= wc < 0x10000 {
      EncodeThree(wc);
    } else if 0x10000 <= wc <= 0x10ffff {
      EncodeFour(wc);
    }
  }

  lemma ThirdRangeIsPlain(wc: Wide)
    ensures wc - 0xe000 < 0x2000 <==> 0xe000 <= wc < 0x10000
  {
  }

  lemma FourthRangeIsPlain(wc: Wide)
    ensures wc - 0x10000 < 0x100000 <==> 0x10000 <= wc <= 0x10ffff
  {
  }

  lemma ValueInRange(p: Bytes)
    requires IsChar(p)
    ensures |p| == 1 ==> Value(p) < 0x80
    ensures |p| == 2 ==> 0x80 <= Value(p) < 0x800
    ensures |p| == 3 ==> 0x800 <= Value(p) < 0xd800 || 0xe000 <= Value(p) < 0x10000
    ensures |p| == 4 ==> 0x10000 <= Value(p) <= 0x10ffff
  {
  }

  lemma BytesComeBack(p: Bytes)
    requires IsChar(p)
    ensures |p| == 1 ==> Value(p) as Byte == p[0]
    ensures |p| == 2 ==> LeadByte(0xc0, Value(p) >> 6) == p[0] && TailByte(Value(p)) == p[1]
    ensures |p| == 3 ==>
      && LeadByte(0xe0, Value(p) >> 12) == p[0] && TailByte(Value(p) >> 6) == p[1]
      && TailByte(Value(p)) == p[2]
    ensures |p| == 4 ==>
      && LeadByte(0xf0, Value(p) >> 18) == p[0] && TailByte(Value(p) >> 12) == p[1]
      && TailByte(Value(p) >> 6) == p[2] && TailByte(Value(p)) == p[3]
  {
  }

  /** Every character's value is a scalar value, and encodes back to the same bytes. */
  lemma DecodeThenEncode(p: Bytes)
    requires IsChar(p)
    ensures IsScalar(Value(p)) && Encode(Value(p)) == Some(p)
  {
    hide Value;
    ValueInRange(p);
    ThirdRangeIsPlain(Value(p));
    FourthRangeIsPlain(Value(p));
    BytesComeBack(p);
    assert |p| == 1 ==> p == [p[0]];
    assert |p| == 2 ==> p == [p[0], p[1]];
    assert |p| == 3 ==> p == [p[0], p[1], p[2]];
    assert |p| == 4 ==> p == [p[0], p[1], p[2], p[3]];
  }

  // ------------------------------------------------------------------------- strings of characters

  predicate AllScalars(ws: seq<Wide>) {
    forall i :: 0 <= i < |ws| ==> IsScalar(ws[i])
  }

  /** The bytes of a whole string. */
  function EncodeAll(ws: seq<Wide>): Bytes
    requires AllScalars(ws)
  {
    if ws == [] then []
    else
      EncodeThenDecode(ws[0]);
      Encode(ws[0]).value + EncodeAll(ws[1..])
  }

  lemma {:induction false} EncodeAllAppends(a: seq<Wide>, b: seq<Wide>)
    requires AllScalars(a) && AllScalars(b)
    ensures AllScalars(a + b) && EncodeAll(a + b) == EncodeAll(a) + EncodeAll(b)
  {
    hide Encode, IsScalar;
    if a == [] {
      assert a + b == b;
    } else {
      EncodeThenDecode(a[0]);
      assert (a + b)[1..] == a[1..] + b;
      EncodeAllAppends(a[1..], b);
    }
  }
}
