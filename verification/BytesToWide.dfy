/**
 What a conversion from UTF-8 to a wide string delivers, by the definition of a character alone, and how
 conversions of parts of the input fit together.
 */
module BytesToWide {
  import opened Wrappers
  import opened Utf8
  import opened Mbrtowc

  /** Why a conversion stops: at the terminating zero, at bytes that begin no character, after as many
      characters as there is room for, or for lack of input, maybe inside a character. */
  datatype Why = Ended | Bad | Full | Dry

  datatype Text = Text(chars: seq<Wide>, used: nat, why: Why)

  function Prepend(cs: seq<Wide>, j: nat, d: Text): Text {
    Text(cs + d.chars, j + d.used, d.why)
  }

  /** The bytes of the whole character that u begins with; 0 if there is none. */
  function First(u: Bytes): (n: nat)
    ensures n > 0 ==> n <= |u| && n <= 4 && IsChar(u[..n])
  {
    if u != [] && 1 <= Length(u[0]) <= |u| && IsChar(u[..Length(u[0])]) then Length(u[0]) else 0
  }

  /** At most k characters from u. */
  function Decode(u: Bytes, k: nat): Text
    decreases k
  {
    if k == 0 then Text([], 0, Full)
    else if IsPartial(u) then Text([], 0, Dry)
    else if u[0] == 0 then Text([], 0, Ended)
    else
      var n := First(u);
      if n == 0 then Text([], 0, Bad) else Prepend([Value(u[..n])], n, Decode(u[n..], k - 1))
  }

  lemma CharIsFirst(x: Bytes, u: Bytes)
    requires IsChar(x) && |x| <= |u| && u[..|x|] == x
    ensures First(u) == |x| && !IsPartial(u) && u[0] == x[0]
  {
  }

  /** One mbrtowc from the initial state tells the same four cases apart. */
  lemma CallIsFirst(u: Bytes)
    ensures var r := Call(0, u);
            && (r.ret.Incomplete? <==> IsPartial(u))
            && (r.ret.Nul? <==> u != [] && u[0] == 0)
            && (r.ret.Got? ==> r.ret.n == First(u) > 0 && r.wc == Some(Value(u[..First(u)])))
            && (r.ret.Illegal? <==> !IsPartial(u) && First(u) == 0)
            && (r.ret.Nul? ==> r.wc == Some(0))
            && (r.ret.Incomplete? || r.ret.Illegal? ==> r.wc == None)
  {
    hide Call, StateOf, Value, IsPartial;
    StartIsZero();
    CallFollowsDefinition([], u);
    assert [] + u == u;
    var r := Call(0, u);
    if r.ret.Got? || r.ret.Nul? {
      TakenIsOneCharacter(u);
      CharIsFirst(u[..Taken(r.ret)], u);
      NulOnlyForZero(u);
    } else if First(u) > 0 {
      assert [] + u[..First(u)] == u[..First(u)];
      CharIsFirst(u[..First(u)], u);
    }
  }

  lemma NulOnlyForZero(u: Bytes)
    requires u != []
    ensures Call(0, u).ret.Nul? <==> u[0] == 0
    ensures Call(0, u).ret.Nul? ==> Call(0, u).wc == Some(0)
  {
    hide Step;
    StartStep(u[0]);
    if Step(0, u[0]).More? {
      MoreIsNotZero(0, u[0]);
      NoNulAfter(Step(0, u[0]).c, u[1..]);
    }
  }

  /** A plain loop of mbrtowc calls on what is left of the input. */
  function PlainLoop(u: Bytes, k: nat): Text
    decreases k
  {
    if k == 0 then Text([], 0, Full)
    else
      CallUsesItsBytes(0, u);
      var r := Call(0, u);
      match r.ret
      case Incomplete => Text([], 0, Dry)
      case Nul => Text([], 0, Ended)
      case Illegal => Text([], 0, Bad)
      case Got(n) => Prepend([r.wc.value], n, PlainLoop(u[n..], k - 1))
  }

  lemma {:induction false} PlainLoopDecodes(u: Bytes, k: nat)
    ensures PlainLoop(u, k) == Decode(u, k)
    decreases k
  {
    hide Call, IsPartial, Value, First;
    if k > 0 {
      CallIsFirst(u);
      CallUsesItsBytes(0, u);
      NonPartialIsNotEmpty(u);
      if Call(0, u).ret.Got? {
        PlainLoopDecodes(u[First(u)..], k - 1);
      }
    }
  }

  // ------------------------------------------------------------------------- what it means

  /** The bytes used are exactly the encoding of the characters delivered, none of them is zero, and the
      stop is real. */
  lemma {:induction false} DecodeThenEncodeAll(u: Bytes, k: nat)
    ensures var d := Decode(u, k);
            && |d.chars| <= k && d.used <= |u|
            && AllScalars(d.chars) && (forall i :: 0 <= i < |d.chars| ==> d.chars[i] != 0)
            && EncodeAll(d.chars) == u[..d.used]
            && (d.why.Full? <==> |d.chars| == k)
            && (d.why.Dry? ==> IsPartial(u[d.used..]))
            && (d.why.Ended? ==> d.used < |u| && u[d.used] == 0)
            && (d.why.Bad? ==> !IsPartial(u[d.used..]) && First(u[d.used..]) == 0)
    decreases k
  {
    hide IsPartial, IsChar, Value, Encode, IsScalar, First, Decode;
    if k == 0 {
      DecodeNone(u);
    } else if Takes(u) {
      var n := First(u);
      var d' := Decode(u[n..], k - 1);
      DecodeTakes(u, k);
      DecodeThenEncodeAll(u[n..], k - 1);
      Glued(u, n, d'.chars, d'.used);
      assert u[n..][d'.used..] == u[n + d'.used..];
    } else {
      DecodeStops(u, k);
      assert u[0..] == u;
      NonPartialIsNotEmpty(u);
    }
  }

  lemma Glued(u: Bytes, n: nat, cs: seq<Wide>, used: nat)
    requires 0 < n <= |u| && IsChar(u[..n]) && u[0] != 0 && used <= |u| - n
    requires AllScalars(cs) && (forall i :: 0 <= i < |cs| ==> cs[i] != 0) && EncodeAll(cs) == u[n..][..used]
    ensures var all := [Value(u[..n])] + cs;
            AllScalars(all) && (forall i :: 0 <= i < |all| ==> all[i] != 0) && EncodeAll(all) == u[..n + used]
  {
    hide IsChar, Value, Encode, IsScalar;
    var all := [Value(u[..n])] + cs;
    DecodeThenEncode(u[..n]);
    NonZeroLead(u, n);
    assert all[1..] == cs;
    assert u[..n] + u[n..][..used] == u[..n + used];
  }

  lemma NonPartialIsNotEmpty(u: Bytes)
    ensures !IsPartial(u) ==> u != []
  {
  }

  lemma NonZeroLead(u: Bytes, n: nat)
    requires 0 < n <= |u| && IsChar(u[..n]) && u[0] != 0
    ensures Value(u[..n]) != 0
    ensures forall i :: 0 <= i < n ==> u[i] != 0
  {
  }

  /** A well-formed beginning is delivered character by character, as far as there is room. */
  lemma {:induction false} DecodeOfEncoding(ws: seq<Wide>, rest: Bytes, k: nat)
    requires AllScalars(ws) && forall i :: 0 <= i < |ws| ==> ws[i] != 0
    ensures Decode(EncodeAll(ws) + rest, k) ==
            if k <= |ws| then Text(ws[..k], |EncodeAll(ws[..k])|, Full)
            else Prepend(ws, |EncodeAll(ws)|, Decode(rest, k - |ws|))
    decreases |ws|
  {
    hide IsPartial, IsChar, Value, Encode, IsScalar, First, Decode;
    DecodeNone(rest);
    DecodeNone(EncodeAll(ws) + rest);
    if ws == [] {
      assert EncodeAll(ws) + rest == rest && ws[..0] == ws;
      var d := Decode(rest, k);
      assert ws + d.chars == d.chars;
    } else if k == 0 {
      assert ws[..0] == [];
    } else {
      EncodeThenDecode(ws[0]);
      var p := Encode(ws[0]).value;
      var u := p + (EncodeAll(ws[1..]) + rest);
      assert EncodeAll(ws) + rest == u;
      CharIsFirst(p, u);
      assert u[..|p|] == p && u[|p|..] == EncodeAll(ws[1..]) + rest;
      EncodeNonZero(ws[0]);
      DecodeTakes(u, k);
      DecodeOfEncoding(ws[1..], rest, k - 1);
      if k <= |ws| {
        assert ws[..k][1..] == ws[1..][..k - 1] && ws[..k] == [ws[0]] + ws[1..][..k - 1];
      } else {
        var d := Decode(rest, k - |ws|);
        assert [ws[0]] + (ws[1..] + d.chars) == ws + d.chars;
        assert |EncodeAll(ws)| == |p| + |EncodeAll(ws[1..])|;
      }
    }
  }

  lemma EncodeNonZero(wc: Wide)
    requires wc != 0 && IsScalar(wc)
    ensures Encode(wc).Some? && |Encode(wc).value| > 0 && Encode(wc).value[0] != 0
  {
  }

  /** Converting m characters and then going on is converting k; and a conversion that stops for any
      other reason than room is not changed by more room. */
  lemma {:induction false} DecodeGoesOn(u: Bytes, m: nat, k: nat)
    requires m <= k
    ensures var d := Decode(u, m);
            && (d.why.Full? ==> d.used <= |u| && Decode(u, k) == Prepend(d.chars, d.used, Decode(u[d.used..], k - m)))
            && (!d.why.Full? ==> Decode(u, k) == d)
    decreases m
  {
    hide IsPartial, IsChar, Value, First, Decode;
    if m == 0 {
      DecodeNone(u);
      assert u[0..] == u;
    } else if Takes(u) {
      var n := First(u);
      DecodeTakes(u, m);
      DecodeTakes(u, k);
      DecodeGoesOn(u[n..], m - 1, k - 1);
      var d := Decode(u[n..], m - 1);
      if d.why.Full? {
        assert u[n..][d.used..] == u[n + d.used..];
        var e := Decode(u[n + d.used..], k - m);
        assert [Value(u[..n])] + (d.chars + e.chars) == ([Value(u[..n])] + d.chars) + e.chars;
      }
    } else {
      DecodeStops(u, m);
      DecodeStops(u, k);
    }
  }

  predicate Takes(u: Bytes) {
    !IsPartial(u) && u[0] != 0 && First(u) > 0
  }

  lemma DecodeNone(u: Bytes)
    ensures Decode(u, 0) == Text([], 0, Full)
  {
  }

  lemma DecodeTakes(u: Bytes, k: nat)
    requires k > 0 && Takes(u)
    ensures Decode(u, k) == Prepend([Value(u[..First(u)])], First(u), Decode(u[First(u)..], k - 1))
  {
  }

  lemma DecodeStops(u: Bytes, k: nat)
    requires k > 0 && !Takes(u)
    ensures Decode(u, k) == Text([], 0, if IsPartial(u) then Dry else if u[0] == 0 then Ended else Bad)
  {
  }
}
