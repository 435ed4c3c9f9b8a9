/** The two string conversions of src/orbis_wchar32.c undo each other. */
module WideRoundTrip {
  import opened Utf8
  import opened Mbrtowc
  import opened BytesToWide
  import opened WideToBytes
  import Strings = Mbsrtowcs

  /** A terminated wide string, written where there is room for it and read back, is itself. */
  lemma ThereAndBack(ws: seq<Wide>, n: nat, k: nat)
    requires IsText(ws) && n > |EncodeAll(ws)| && k > |ws|
    ensures Output(ws + [0], n) == EncodeAll(ws) + [0]
    ensures Decode(Output(ws + [0], n), k) == Text(ws, |EncodeAll(ws)|, BytesToWide.Ended)
  {
    hide Decode, Convert, IsText, EncodeAll, IsPartial, First;
    var all := ws + [0];
    assert all[..|ws|] == ws;
    ConvertIsLongest(all, n, |ws|);
    TextHasNoZero(ws);
    DecodeOfEncoding(ws, [0], k);
    Strings.NotPartialFromZero([0]);
    Strings.NoLead([0]);
    DecodeStops([0], k - |ws|);
    assert ws + [] == ws;
  }

  /** Terminated well-formed bytes, read and written back, are themselves. */
  lemma BackAndThere(u: Bytes, n: nat, k: nat)
    requires Decode(u, k).why.Ended? && n > Decode(u, k).used
    ensures var d := Decode(u, k); d.used < |u| && Output(d.chars + [0], n) == u[..d.used + 1]
  {
    hide Decode, Convert, EncodeAll, IsPartial, First;
    var d := Decode(u, k);
    var all := d.chars + [0];
    DecodeThenEncodeAll(u, k);
    assert all[..|d.chars|] == d.chars;
    ConvertIsLongest(all, n, |d.chars|);
    assert u[..d.used + 1] == u[..d.used] + [0];
  }

  /** What a buffer too short for the string receives is whole characters: read back, it is the part of
      the string that was converted, with no byte left over. */
  lemma ShortBufferHoldsWholeCharacters(ws: seq<Wide>, n: nat, k: nat)
    requires !Convert(ws, n).why.Ended? && k > Convert(ws, n).chars
    ensures var c := Convert(ws, n);
            c.chars <= |ws| && Decode(Output(ws, n), k) == Text(ws[..c.chars], |Output(ws, n)|, BytesToWide.Dry)
  {
    hide Decode, Convert, EncodeAll, IsPartial, First, IsText;
    var c := Convert(ws, n);
    ConvertMeaning(ws, n);
    TextHasNoZero(ws[..c.chars]);
    DecodeOfEncoding(ws[..c.chars], [], k);
    Strings.EmptyIsPartial();
    DecodeStops([], k - c.chars);
    assert EncodeAll(ws[..c.chars]) + [] == EncodeAll(ws[..c.chars]);
    assert ws[..c.chars] + [] == ws[..c.chars];
  }

  lemma TextHasNoZero(ws: seq<Wide>)
    requires IsText(ws)
    ensures AllScalars(ws) && forall i :: 0 <= i < |ws| ==> ws[i] != 0
  {
  }
}
