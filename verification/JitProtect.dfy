/**
 Promotion of pages a caller already owns, src/orbis_jit.c: the table of ranges already promoted, the
 proof stub that overwrites six bytes, and the module's verdict.
 */
module JitProtect {
  import opened Wrappers
  import opened JitPlacement
  import JitSpec

  const MAX_PROMOTED: nat := 16
  const STUB_LENGTH: nat := 6

  datatype Entry = Entry(base: nat, end: nat, ok: bool) {
    predicate Contains(b: nat, e: nat) { b >= base && e <= end }
    predicate Meets(b: nat, e: nat) { b < end && e > base }
  }

  /** A stub that was written: where, and the rounded range it stands for. */
  datatype Stub = Stub(at: nat, base: nat, end: nat)

  /** promoted: the granules the kernel has made executable. stubs: every stub written so far.
      answers: what every call has returned. */
  datatype State = State(table: seq<Entry>, verdict: int, promoted: set<nat>, stubs: seq<Stub>, answers: seq<bool>)

  /** What the kernel and the stub would say: execute granted, and the stub ran. */
  datatype Oracle = Oracle(granted: bool, ran: bool)

  function RoundDown(a: nat): (r: nat)
    ensures r <= a < r + GRANULE && r % GRANULE == 0
  {
    a / GRANULE * GRANULE
  }

  function FirstContaining(t: seq<Entry>, b: nat, e: nat): (i: nat)
    ensures i <= |t| && (i < |t| ==> t[i].Contains(b, e))
    ensures forall k :: 0 <= k < i ==> !t[k].Contains(b, e)
  {
    if t == [] then 0 else if t[0].Contains(b, e) then 0 else 1 + FirstContaining(t[1..], b, e)
  }

  function FirstMeeting(t: seq<Entry>, b: nat, e: nat): (i: nat)
    ensures i <= |t| && (i < |t| ==> t[i].Meets(b, e))
    ensures forall k :: 0 <= k < i ==> !t[k].Meets(b, e)
  {
    if t == [] then 0 else if t[0].Meets(b, e) then 0 else 1 + FirstMeeting(t[1..], b, e)
  }

  /** The granules of [b, e). */
  ghost function Granules(b: nat, e: nat): set<nat> {
    set g | b <= g < e && g % GRANULE == 0 :: g
  }

  function Widened(x: Entry, b: nat, e: nat): Entry {
    Entry(if b < x.base then b else x.base, if e > x.end then e else x.end, x.ok)
  }

  ghost function Answer(s: State, ok: bool): State {
    s.(answers := s.answers + [ok])
  }

  /** orbis_jit_protect */
  ghost function Protect(s: State, addr: nat, len: nat, o: Oracle): (bool, State) {
    var b := RoundDown(addr);
    var e := RoundUp(addr + len);
    var c := FirstContaining(s.table, b, e);
    if c < |s.table| then (s.table[c].ok, Answer(s, s.table[c].ok))
    else
      var m := FirstMeeting(s.table, b, e);
      var s1 := if o.granted then s.(promoted := s.promoted + Granules(b, e)) else s;
      if o.granted && m < |s.table| then
        var ok := s.table[m].ok;
        (ok, Answer(s1.(table := s.table[m := Widened(s.table[m], b, e)]), ok))
      else
        var ok := o.granted && o.ran;
        var s2 := if o.granted then s1.(stubs := s1.stubs + [Stub(addr, b, e)]) else s1;
        var s3 := s2.(verdict := JitSpec.Record(s2.verdict, ok),
                      table := if |s2.table| < MAX_PROMOTED then s2.table + [Entry(b, e, ok)] else s2.table);
        (ok, Answer(s3, ok))
  }

  // ------------------------------------------------------------------------- the invariant

  ghost predicate Aligned(x: Entry) {
    x.base % GRANULE == 0 && x.end % GRANULE == 0 && x.base <= x.end
  }

  /** An entry that says yes stands for pages that were all promoted. */
  ghost predicate EntryTrue(s: State, x: Entry) {
    Aligned(x) && (x.ok ==> Granules(x.base, x.end) <= s.promoted)
  }

  /** Every stub written stands for a range some entry contains. */
  ghost predicate StubRecorded(s: State, t: Stub) {
    exists i :: 0 <= i < |s.table| && s.table[i].base <= t.base && t.end <= s.table[i].end
  }

  function AllTrue(a: seq<bool>): bool {
    forall i :: 0 <= i < |a| ==> a[i]
  }

  /** The verdict: -1 before any answer, then whether all answers were yes. */
  ghost predicate VerdictTells(s: State) {
    s.verdict == if s.answers == [] then -1 else if AllTrue(s.answers) then 1 else 0
  }

  ghost predicate AnswersKnown(s: State) {
    && (s.answers == [] ==> s.table == [])
    && (forall i :: 0 <= i < |s.table| && !s.table[i].ok ==> !AllTrue(s.answers))
  }

  ghost predicate Valid(s: State) {
    && |s.table| <= MAX_PROMOTED
    && (forall i :: 0 <= i < |s.table| ==> EntryTrue(s, s.table[i]))
    && VerdictTells(s) && AnswersKnown(s)
  }

  ghost predicate Initial(s: State) {
    s.table == [] && s.verdict == -1 && s.stubs == [] && s.answers == []
  }

  lemma MorePromoted(s: State, s': State, x: Entry)
    requires EntryTrue(s, x) && s.promoted <= s'.promoted
    ensures EntryTrue(s', x)
  {
  }

  lemma WidenedIsTrue(s: State, x: Entry, b: nat, e: nat)
    requires EntryTrue(s, x) && b % GRANULE == 0 && e % GRANULE == 0 && x.Meets(b, e)
    requires Granules(b, e) <= s.promoted
    ensures EntryTrue(s, Widened(x, b, e))
  {
  }

  lemma AnswerJoins(a: seq<bool>, ok: bool)
    ensures AllTrue([]) && (AllTrue(a + [ok]) <==> AllTrue(a) && ok)
  {
    var b := a + [ok];
    assert b[|a|] == ok;
    assert forall i :: 0 <= i < |a| ==> b[i] == a[i];
  }

  /** What any call must leave behind, given how it changed the table. */
  lemma StillValid(s: State, s': State, ok: bool)
    requires Valid(s) && s'.answers == s.answers + [ok] && s.promoted <= s'.promoted
    requires |s'.table| <= MAX_PROMOTED && forall i :: 0 <= i < |s'.table| ==> EntryTrue(s', s'.table[i])
    requires s'.verdict == JitSpec.Record(s.verdict, ok)
    requires forall i :: 0 <= i < |s'.table| && !s'.table[i].ok ==>
      !ok || exists j :: 0 <= j < |s.table| && !s.table[j].ok
    ensures Valid(s')
  {
    hide EntryTrue, AllTrue;
    AnswerJoins(s.answers, ok);
  }

  /** An answer taken from an entry is already part of the verdict. */
  lemma OldVerdictStands(s: State, i: nat)
    requires Valid(s) && i < |s.table|
    ensures JitSpec.Record(s.verdict, s.table[i].ok) == s.verdict
  {
  }

  lemma ProtectKeepsValid(s: State, addr: nat, len: nat, o: Oracle)
    requires Valid(s)
    ensures Valid(Protect(s, addr, len, o).1)
  {
    hide AllTrue, Granules, FirstContaining, FirstMeeting, RoundDown, RoundUp, VerdictTells, AnswersKnown;
    var b := RoundDown(addr);
    var e := RoundUp(addr + len);
    var (ok, s') := Protect(s, addr, len, o);
    forall i | 0 <= i < |s.table| ensures EntryTrue(s', s.table[i]) {
      MorePromoted(s, s', s.table[i]);
    }
    var c := FirstContaining(s.table, b, e);
    var m := FirstMeeting(s.table, b, e);
    if c < |s.table| {
      OldVerdictStands(s, c);
    } else if o.granted && m < |s.table| {
      OldVerdictStands(s, m);
      WidenedIsTrue(s', s.table[m], b, e);
      assert forall i :: 0 <= i < |s.table| ==> s'.table[i].ok == s.table[i].ok;
    } else {
      assert EntryTrue(s', Entry(b, e, ok));
    }
    StillValid(s, s', ok);
  }

  // ------------------------------------------------------------------------- what a caller relies on

  /** A yes means every page of the request was promoted. */
  lemma YesMeansPromoted(s: State, addr: nat, len: nat, o: Oracle)
    requires Valid(s) && Protect(s, addr, len, o).0
    ensures Granules(RoundDown(addr), RoundUp(addr + len)) <= Protect(s, addr, len, o).1.promoted
  {
  }

  /** The six bytes stay inside the pages the call is about. */
  ghost predicate StubFits(addr: nat, len: nat) {
    addr + STUB_LENGTH <= RoundUp(addr + len)
  }

  /** The stub the call writes, if it writes one, touches no byte of a recorded range. */
  ghost predicate StubAvoids(s: State, addr: nat, len: nat, o: Oracle) {
    |Protect(s, addr, len, o).1.stubs| > |s.stubs| ==>
      forall i :: 0 <= i < |s.table| ==> Apart(addr, addr + STUB_LENGTH, s.table[i])
  }

  ghost predicate Apart(lo: nat, hi: nat, x: Entry) {
    hi <= x.base || x.end <= lo || x.base == x.end
  }

  lemma FittingStubAvoids(s: State, addr: nat, len: nat, o: Oracle)
    requires Valid(s) && (StubFits(addr, len) || (len == 0 && addr % GRANULE == 0))
    ensures StubAvoids(s, addr, len, o)
  {
    hide VerdictTells, AnswersKnown, Apart, StubFits, Protect;
    if |Protect(s, addr, len, o).1.stubs| > |s.stubs| {
      StubMeansClear(s, addr, len, o);
      forall i | 0 <= i < |s.table| ensures Apart(addr, addr + STUB_LENGTH, s.table[i]) {
        assert EntryTrue(s, s.table[i]);
        FittingMisses(addr, len, s.table[i]);
      }
    }
  }

  lemma StubMeansClear(s: State, addr: nat, len: nat, o: Oracle)
    requires |Protect(s, addr, len, o).1.stubs| > |s.stubs|
    ensures var b, e := RoundDown(addr), RoundUp(addr + len);
            forall x :: x in s.table ==> !x.Contains(b, e) && !x.Meets(b, e)
  {
  }

  lemma FittingMisses(addr: nat, len: nat, x: Entry)
    requires StubFits(addr, len) || (len == 0 && addr % GRANULE == 0)
    requires var b, e := RoundDown(addr), RoundUp(addr + len); !x.Contains(b, e) && !x.Meets(b, e)
    requires x.base % GRANULE == 0 && x.end % GRANULE == 0 && x.base <= x.end
    ensures Apart(addr, addr + STUB_LENGTH, x)
  {
  }

  // ------------------------------------------------------------------------- runs

  datatype Call = Call(addr: nat, len: nat, o: Oracle)

  ghost function Run(s: State, calls: seq<Call>): State {
    if calls == [] then s
    else
      var n := |calls| - 1;
      Protect(Run(s, calls[..n]), calls[n].addr, calls[n].len, calls[n].o).1
  }

  /** Every call finds a free slot in the table. */
  ghost predicate HasRoom(s: State, calls: seq<Call>) {
    calls == [] ||
    var n := |calls| - 1;
    HasRoom(s, calls[..n]) && |Run(s, calls[..n]).table| < 16
  }

  /** Every call is about enough bytes for the stub. */
  ghost predicate AllFit(calls: seq<Call>) {
    forall i :: 0 <= i < |calls| ==> StubFits(calls[i].addr, calls[i].len)
  }

  lemma OneCallMore(s: State, calls: seq<Call>, c: Call)
    ensures Run(s, calls + [c]) == Protect(Run(s, calls), c.addr, c.len, c.o).1
    ensures HasRoom(s, calls + [c]) <==> HasRoom(s, calls) && |Run(s, calls).table| < MAX_PROMOTED
    ensures AllFit(calls + [c]) <==> AllFit(calls) && StubFits(c.addr, c.len)
  {
    var all := calls + [c];
    assert all[..|all| - 1] == calls && all[|calls|] == c;
    assert forall i :: 0 <= i < |calls| ==> all[i] == calls[i];
  }

  lemma {:induction false} RunKeepsValid(s: State, calls: seq<Call>)
    requires Initial(s)
    ensures Valid(Run(s, calls))
  {
    if calls != [] {
      var n := |calls| - 1;
      RunKeepsValid(s, calls[..n]);
      ProtectKeepsValid(Run(s, calls[..n]), calls[n].addr, calls[n].len, calls[n].o);
    }
  }

  ghost predicate StubsRecorded(s: State) {
    forall k :: 0 <= k < |s.stubs| ==> StubRecorded(s, s.stubs[k]) && StubInside(s.stubs[k])
  }

  ghost predicate StubInside(t: Stub) {
    t.base <= t.at && t.at + STUB_LENGTH <= t.end
  }

  ghost predicate StubsApart(s: State) {
    forall k, m :: 0 <= k < m < |s.stubs| ==> s.stubs[k].end <= s.stubs[m].base || s.stubs[m].end <= s.stubs[k].base
  }

  lemma StubsStayRecorded(s: State, s': State, t: Stub)
    requires StubRecorded(s, t)
    requires |s.table| <= |s'.table|
    requires forall i :: 0 <= i < |s.table| ==> s'.table[i].base <= s.table[i].base && s.table[i].end <= s'.table[i].end
    ensures StubRecorded(s', t)
  {
  }

  lemma CallKeepsStubs(s: State, addr: nat, len: nat, o: Oracle)
    requires StubsRecorded(s) && StubsApart(s) && StubFits(addr, len) && |s.table| < MAX_PROMOTED
    ensures StubsRecorded(Protect(s, addr, len, o).1) && StubsApart(Protect(s, addr, len, o).1)
  {
    hide FirstContaining, FirstMeeting, Granules;
    var b := RoundDown(addr);
    var e := RoundUp(addr + len);
    var s' := Protect(s, addr, len, o).1;
    forall k | 0 <= k < |s.stubs| ensures StubRecorded(s', s.stubs[k]) {
      StubsStayRecorded(s, s', s.stubs[k]);
    }
    if |s'.stubs| > |s.stubs| {
      assert s'.table[|s.table|].base == b && s'.table[|s.table|].end == e;
      forall k | 0 <= k < |s.stubs| ensures s.stubs[k].end <= b || e <= s.stubs[k].base {
        assert StubRecorded(s, s.stubs[k]);
        var i :| 0 <= i < |s.table| && s.table[i].base <= s.stubs[k].base && s.stubs[k].end <= s.table[i].end;
        assert !s.table[i].Meets(b, e);
      }
    }
  }

  /** In any sequence of overlapping or repeated calls that the table has room for, no granule is
      stubbed twice: the ranges the stubs stand for are disjoint, and each stub stays inside its own. */
  lemma {:induction false} NoGranuleStubbedTwice(s: State, calls: seq<Call>)
    requires Initial(s) && HasRoom(s, calls) && AllFit(calls)
    ensures StubsApart(Run(s, calls)) && StubsRecorded(Run(s, calls))
  {
    if calls != [] {
      var n := |calls| - 1;
      NoGranuleStubbedTwice(s, calls[..n]);
      CallKeepsStubs(Run(s, calls[..n]), calls[n].addr, calls[n].len, calls[n].o);
    }
  }

  // ------------------------------------------------------------------------- what the table remembers

  /** The pages a call is about. */
  ghost function Pages(c: Call): set<nat> {
    Granules(RoundDown(c.addr), RoundUp(c.addr + c.len))
  }

  /** All pages of a call lie in one entry, which holds the answer it was given. */
  ghost predicate Remembered(t: seq<Entry>, c: Call, ok: bool) {
    exists i :: 0 <= i < |t| && t[i].base <= RoundDown(c.addr) && RoundUp(c.addr + c.len) <= t[i].end && t[i].ok == ok
  }

  ghost predicate EntriesOnlyGrow(t: seq<Entry>, t': seq<Entry>) {
    && |t| <= |t'|
    && forall i :: 0 <= i < |t| ==> t'[i].base <= t[i].base && t[i].end <= t'[i].end && t'[i].ok == t[i].ok
  }

  lemma StaysRemembered(t: seq<Entry>, t': seq<Entry>, c: Call, ok: bool)
    requires Remembered(t, c, ok) && EntriesOnlyGrow(t, t')
    ensures Remembered(t', c, ok)
  {
    hide RoundDown, RoundUp;
    var i :| 0 <= i < |t| && t[i].base <= RoundDown(c.addr) && RoundUp(c.addr + c.len) <= t[i].end && t[i].ok == ok;
    assert t'[i].base <= RoundDown(c.addr) && RoundUp(c.addr + c.len) <= t'[i].end && t'[i].ok == ok;
  }

  lemma CallIsRemembered(s: State, c: Call)
    requires |s.table| < MAX_PROMOTED
    ensures var (ok, s') := Protect(s, c.addr, c.len, c.o);
            EntriesOnlyGrow(s.table, s'.table) && Remembered(s'.table, c, ok) && s'.answers == s.answers + [ok]
  {
    hide RoundDown, RoundUp, Granules, FirstContaining, FirstMeeting;
    var b, e := RoundDown(c.addr), RoundUp(c.addr + c.len);
    var t, t' := s.table, Protect(s, c.addr, c.len, c.o).1.table;
    var i, m := FirstContaining(t, b, e), FirstMeeting(t, b, e);
    var k := if i < |t| then i else if c.o.granted && m < |t| then m else |t|;
    assert t'[k].base <= b && e <= t'[k].end && t'[k].ok == Protect(s, c.addr, c.len, c.o).0;
  }

  /** After any run that the table has room for, every call's pages lie in one entry, with its answer. */
  lemma {:induction false} EveryCallIsRemembered(s: State, calls: seq<Call>, k: nat)
    requires Initial(s) && HasRoom(s, calls) && k < |calls|
    ensures |Run(s, calls).answers| == |calls| && Remembered(Run(s, calls).table, calls[k], Run(s, calls).answers[k])
  {
    hide Protect, Remembered, EntriesOnlyGrow;
    var n := |calls| - 1;
    CallIsRemembered(Run(s, calls[..n]), calls[n]);
    AnswersAreCounted(s, calls[..n]);
    if k < n {
      EveryCallIsRemembered(s, calls[..n], k);
      StaysRemembered(Run(s, calls[..n]).table, Run(s, calls).table, calls[k], Run(s, calls[..n]).answers[k]);
    }
  }

  lemma {:induction false} AnswersAreCounted(s: State, calls: seq<Call>)
    requires Initial(s) && HasRoom(s, calls)
    ensures |Run(s, calls).answers| == |calls|
  {
    hide Protect;
    if calls != [] {
      var n := |calls| - 1;
      AnswersAreCounted(s, calls[..n]);
      CallIsRemembered(Run(s, calls[..n]), calls[n]);
    }
  }

  /** So a later call about pages inside an earlier call's writes no stub, promotes nothing and changes nothing
      in the table: it is answered from there. */
  lemma RepeatsDoNothing(s: State, calls: seq<Call>, k: nat, c: Call)
    requires Initial(s) && HasRoom(s, calls) && k < |calls|
    requires RoundDown(calls[k].addr) <= RoundDown(c.addr)
    requires RoundUp(c.addr + c.len) <= RoundUp(calls[k].addr + calls[k].len)
    ensures var was := Run(s, calls);
            var (ok, now) := Protect(was, c.addr, c.len, c.o);
            now == was.(answers := was.answers + [ok])
  {
    hide Granules, RoundDown, RoundUp, Run, HasRoom, Protect;
    EveryCallIsRemembered(s, calls, k);
    var t := Run(s, calls).table;
    var i :| 0 <= i < |t| && t[i].base <= RoundDown(calls[k].addr) && RoundUp(calls[k].addr + calls[k].len) <= t[i].end
             && t[i].ok == Run(s, calls).answers[k];
    ContainedDoesNothing(Run(s, calls), i, c);
  }

  lemma ContainedDoesNothing(s: State, i: nat, c: Call)
    requires i < |s.table| && s.table[i].Contains(RoundDown(c.addr), RoundUp(c.addr + c.len))
    ensures var (ok, now) := Protect(s, c.addr, c.len, c.o);
            now == s.(answers := s.answers + [ok])
  {
    hide RoundDown, RoundUp, Granules;
  }

  ghost predicate InTable(t: seq<Entry>, g: nat) {
    exists i :: 0 <= i < |t| && t[i].base <= g < t[i].end
  }

  ghost predicate InCalls(calls: seq<Call>, g: nat) {
    exists i :: 0 <= i < |calls| && RoundDown(calls[i].addr) <= g < RoundUp(calls[i].addr + calls[i].len)
  }

  /** The three things a call does to a table with room: nothing, widen an entry it meets, append its pages. */
  lemma TableMoves(s: State, c: Call)
    requires |s.table| < MAX_PROMOTED
    ensures var b, e := RoundDown(c.addr), RoundUp(c.addr + c.len);
            var t, t' := s.table, Protect(s, c.addr, c.len, c.o).1.table;
            || (t' == t && exists i :: 0 <= i < |t| && t[i].Contains(b, e))
            || (exists m :: 0 <= m < |t| && t[m].Meets(b, e) && t' == t[m := Widened(t[m], b, e)])
            || (exists ok :: t' == t + [Entry(b, e, ok)])
  {
    hide Granules, RoundDown, RoundUp, Widened;
    var b, e := RoundDown(c.addr), RoundUp(c.addr + c.len);
    var i, m := FirstContaining(s.table, b, e), FirstMeeting(s.table, b, e);
    if i < |s.table| {
      assert s.table[i].Contains(b, e);
    } else if c.o.granted && m < |s.table| {
      assert s.table[m].Meets(b, e);
    } else {
      assert Protect(s, c.addr, c.len, c.o).1.table == s.table + [Entry(b, e, c.o.granted && c.o.ran)];
    }
  }

  lemma OneCallAdds(s: State, c: Call, g: nat)
    requires |s.table| < MAX_PROMOTED
    ensures InTable(Protect(s, c.addr, c.len, c.o).1.table, g)
            <==> InTable(s.table, g) || RoundDown(c.addr) <= g < RoundUp(c.addr + c.len)
  {
    hide RoundDown, RoundUp, Protect;
    TableMoves(s, c);
    var b, e := RoundDown(c.addr), RoundUp(c.addr + c.len);
    var t, t' := s.table, Protect(s, c.addr, c.len, c.o).1.table;
    if m :| 0 <= m < |t| && t[m].Meets(b, e) && t' == t[m := Widened(t[m], b, e)] {
      ReplacedCovers(t, m, b, e, g);
    } else if ok :| t' == t + [Entry(b, e, ok)] {
      AppendedCovers(t, Entry(b, e, ok), g);
    }
  }

  lemma ReplacedCovers(t: seq<Entry>, m: nat, b: nat, e: nat, g: nat)
    requires m < |t| && t[m].Meets(b, e)
    ensures InTable(t[m := Widened(t[m], b, e)], g) <==> InTable(t, g) || b <= g < e
  {
    var t' := t[m := Widened(t[m], b, e)];
    if InTable(t, g) {
      var i :| 0 <= i < |t| && t[i].base <= g < t[i].end;
      assert t'[i].base <= g < t'[i].end;
    }
    assert b <= g < e ==> t'[m].base <= g < t'[m].end;
  }

  lemma AppendedCovers(t: seq<Entry>, x: Entry, g: nat)
    ensures InTable(t + [x], g) <==> InTable(t, g) || x.base <= g < x.end
  {
    var t' := t + [x];
    assert t'[|t|] == x && forall i :: 0 <= i < |t| ==> t'[i] == t[i];
    if InTable(t, g) {
      var i :| 0 <= i < |t| && t[i].base <= g < t[i].end;
      assert t'[i].base <= g < t'[i].end;
    }
  }

  /** After any run that the table has room for, the table covers the pages of the calls and no others. */
  lemma {:induction false} TableIsUnion(s: State, calls: seq<Call>, g: nat)
    requires Initial(s) && HasRoom(s, calls)
    ensures InTable(Run(s, calls).table, g) <==> InCalls(calls, g)
  {
    hide Protect, InTable, InCalls, RoundDown, RoundUp, Initial;
    if calls == [] {
      EmptyTable(s, calls, g);
    } else {
      var n := |calls| - 1;
      TableIsUnion(s, calls[..n], g);
      OneCallAdds(Run(s, calls[..n]), calls[n], g);
      InLastCall(calls, g);
    }
  }

  lemma InLastCall(calls: seq<Call>, g: nat)
    requires calls != []
    ensures var n := |calls| - 1;
            InCalls(calls, g) <==>
            InCalls(calls[..n], g) || RoundDown(calls[n].addr) <= g < RoundUp(calls[n].addr + calls[n].len)
  {
    hide RoundDown, RoundUp;
    var front := calls[..|calls| - 1];
    assert forall i :: 0 <= i < |front| ==> front[i] == calls[i];
    if InCalls(front, g) {
      var i :| 0 <= i < |front| && RoundDown(front[i].addr) <= g < RoundUp(front[i].addr + front[i].len);
      assert calls[i] == front[i];
    }
  }

  lemma EmptyTable(s: State, calls: seq<Call>, g: nat)
    requires Initial(s) && calls == []
    ensures !InTable(Run(s, calls).table, g) && !InCalls(calls, g)
  {
  }

  ghost predicate NoneEmpty(t: seq<Entry>) {
    forall i :: 0 <= i < |t| ==> t[i].base < t[i].end
  }

  lemma {:induction false} EntriesAreNotEmpty(s: State, calls: seq<Call>)
    requires Initial(s) && AllFit(calls)
    ensures NoneEmpty(Run(s, calls).table)
  {
    hide Granules, FirstContaining, FirstMeeting;
    if calls != [] {
      var n := |calls| - 1;
      EntriesAreNotEmpty(s, calls[..n]);
      assert StubFits(calls[n].addr, calls[n].len);
    }
  }

  /** What a call does, by the calls before it alone: a stub is written, at the caller's address, exactly when the
      promotion is granted and no page was the subject of an earlier call, and then the answer is whether it
      ran; what is not granted promotes nothing. */
  lemma CallByHistory(s: State, calls: seq<Call>, c: Call)
    requires Initial(s) && HasRoom(s, calls) && AllFit(calls) && StubFits(c.addr, c.len)
    ensures var b, e := RoundDown(c.addr), RoundUp(c.addr + c.len);
            var was := Run(s, calls);
            var (ok, now) := Protect(was, c.addr, c.len, c.o);
            && (c.o.granted && (forall g: nat :: b <= g < e ==> !InCalls(calls, g)) ==>
                  && ok == c.o.ran && now.promoted == was.promoted + Pages(c)
                  && now.stubs == was.stubs + [Stub(c.addr, b, e)])
            && (!c.o.granted ==> now.stubs == was.stubs && now.promoted == was.promoted)
            && ((exists g: nat :: b <= g < e && InCalls(calls, g)) ==>
                  now.stubs == was.stubs && now.promoted <= was.promoted + Pages(c))
  {
    hide Granules, RoundDown, RoundUp, Run, HasRoom, InTable, InCalls, AllFit, Protect, NoneEmpty;
    var b, e := RoundDown(c.addr), RoundUp(c.addr + c.len);
    NotGranted(Run(s, calls), c);
    var t := Run(s, calls).table;
    forall g: nat ensures InTable(t, g) <==> InCalls(calls, g) {
      TableIsUnion(s, calls, g);
    }
    EntriesAreNotEmpty(s, calls);
    if exists g: nat :: b <= g < e && InTable(t, g) {
      var g: nat :| b <= g < e && InTable(t, g);
      EntryMeets(t, b, e, g);
      MeetingCall(Run(s, calls), c);
    } else {
      NothingMeets(t, b, e);
      FreshCall(Run(s, calls), c);
    }
  }

  lemma NotGranted(s: State, c: Call)
    ensures var now := Protect(s, c.addr, c.len, c.o).1;
            !c.o.granted ==> now.stubs == s.stubs && now.promoted == s.promoted
  {
    hide RoundDown, RoundUp, FirstMeeting, FirstContaining;
  }

  lemma MeetingCall(s: State, c: Call)
    requires FirstMeeting(s.table, RoundDown(c.addr), RoundUp(c.addr + c.len)) < |s.table|
    ensures var now := Protect(s, c.addr, c.len, c.o).1; now.stubs == s.stubs && now.promoted <= s.promoted + Pages(c)
  {
    hide RoundDown, RoundUp, Granules, FirstMeeting, FirstContaining;
  }

  lemma FreshCall(s: State, c: Call)
    requires var b, e := RoundDown(c.addr), RoundUp(c.addr + c.len);
             FirstMeeting(s.table, b, e) == FirstContaining(s.table, b, e) == |s.table|
    ensures var b, e := RoundDown(c.addr), RoundUp(c.addr + c.len);
            var (ok, now) := Protect(s, c.addr, c.len, c.o);
            c.o.granted ==> ok == c.o.ran && now.promoted == s.promoted + Pages(c)
                            && now.stubs == s.stubs + [Stub(c.addr, b, e)]
  {
    hide RoundDown, RoundUp, Granules, FirstMeeting, FirstContaining;
  }

  lemma EntryMeets(t: seq<Entry>, b: nat, e: nat, g: nat)
    requires b <= g < e && InTable(t, g)
    ensures FirstMeeting(t, b, e) < |t|
  {
    hide FirstMeeting;
    var i :| 0 <= i < |t| && t[i].base <= g < t[i].end;
    assert t[i].Meets(b, e);
  }

  lemma NothingMeets(t: seq<Entry>, b: nat, e: nat)
    requires b < e && NoneEmpty(t) && forall g: nat :: b <= g < e ==> !InTable(t, g)
    ensures FirstMeeting(t, b, e) == |t| && FirstContaining(t, b, e) == |t|
  {
    hide FirstMeeting, FirstContaining;
    forall i | 0 <= i < |t| ensures !t[i].Meets(b, e) && !t[i].Contains(b, e) {
      var g := if b < t[i].base then t[i].base else b;
      assert t[i].base <= g < t[i].end ==> InTable(t, g);
    }
  }

  // ------------------------------------------------------------------------- when the promise holds

  /** No two stubs have a byte in common: code behind an earlier stub is never written over. */
  ghost predicate BytesApart(s: State) {
    forall k, m :: 0 <= k < m < |s.stubs| ==>
      s.stubs[k].at + STUB_LENGTH <= s.stubs[m].at || s.stubs[m].at + STUB_LENGTH <= s.stubs[k].at
  }

  /** In a run from the start that the table has room for, of calls that fit but for c, c does no harm. */
  ghost predicate Harmless(s: State, before: seq<Call>, c: Call, after: seq<Call>) {
    Initial(s) && AllFit(before) && AllFit(after) && HasRoom(s, before + [c] + after) ==>
      BytesApart(Run(s, before + [c] + after))
  }

  /** A call does no harm in any run exactly when the six bytes fit the pages it is about. */
  lemma HarmlessIffItFits(addr: nat, len: nat)
    ensures StubFits(addr, len) <==> forall s, before, o, after :: Harmless(s, before, Call(addr, len, o), after)
  {
    if StubFits(addr, len) {
      forall s, before, o, after ensures Harmless(s, before, Call(addr, len, o), after) {
        FittingIsHarmless(s, before, Call(addr, len, o), after);
      }
    } else {
      var s := Start();
      if len == 0 && addr % GRANULE == 0 {
        EmptyRequestIsStubbedAgain(s, addr);
        assert !Harmless(s, [], Call(addr, 0, YES), [Call(addr, GRANULE, YES)]) by {
          assert [] + [Call(addr, 0, YES)] + [Call(addr, GRANULE, YES)]
              == [Call(addr, 0, YES), Call(addr, GRANULE, YES)];
        }
      } else {
        Spill(s, addr, len);
        var e := RoundUp(addr + len);
        assert !Harmless(s, [Call(e, GRANULE, YES)], Call(addr, len, YES), []) by {
          assert [Call(e, GRANULE, YES)] + [Call(addr, len, YES)] + [] == [Call(e, GRANULE, YES), Call(addr, len, YES)];
        }
      }
    }
  }

  /** The stubs written before it are safe from a call, in any run, exactly when it fits or is about no
      byte at all at the start of a granule; so are all recorded ranges. */
  lemma EarlierStubsAreSafeIff(addr: nat, len: nat)
    ensures var careful := StubFits(addr, len) || (len == 0 && addr % GRANULE == 0);
            && (careful <==> forall s, before, o :: Harmless(s, before, Call(addr, len, o), []))
            && (careful <==> forall s, calls, o :: Initial(s) ==> StubAvoids(Run(s, calls), addr, len, o))
  {
    if StubFits(addr, len) || (len == 0 && addr % GRANULE == 0) {
      forall s, before, o ensures Harmless(s, before, Call(addr, len, o), []) {
        CarefulIsHarmless(s, before, Call(addr, len, o));
      }
      forall s, calls, o | Initial(s) ensures StubAvoids(Run(s, calls), addr, len, o) {
        RunKeepsValid(s, calls);
        FittingStubAvoids(Run(s, calls), addr, len, o);
      }
    } else {
      var s := Start();
      Spill(s, addr, len);
      var e := RoundUp(addr + len);
      var first := [Call(e, GRANULE, YES)];
      assert !Harmless(s, first, Call(addr, len, YES), []) by {
        assert first + [Call(addr, len, YES)] + [] == [Call(e, GRANULE, YES), Call(addr, len, YES)];
      }
      assert !StubAvoids(Run(s, first), addr, len, YES);
    }
  }

  const YES := Oracle(true, true)

  lemma Start() returns (s: State)
    ensures Initial(s)
  {
    s := State([], -1, {}, [], []);
  }

  lemma FittingIsHarmless(s: State, before: seq<Call>, c: Call, after: seq<Call>)
    requires StubFits(c.addr, c.len)
    ensures Harmless(s, before, c, after)
  {
    hide StubFits, Initial, Run, HasRoom;
    var all := before + [c] + after;
    if Initial(s) && AllFit(before) && AllFit(after) && HasRoom(s, all) {
      assert AllFit(all);
      NoGranuleStubbedTwice(s, all);
      ApartInBytes(Run(s, all));
    }
  }

  lemma ApartInBytes(s: State)
    requires StubsApart(s) && StubsRecorded(s)
    ensures BytesApart(s)
  {
    hide StubRecorded;
  }

  lemma CarefulIsHarmless(s: State, before: seq<Call>, c: Call)
    requires StubFits(c.addr, c.len) || (c.len == 0 && c.addr % GRANULE == 0)
    ensures Harmless(s, before, c, [])
  {
    hide Initial, Run, HasRoom, Protect, Valid, StubFits, StubsApart;
    assert before + [c] + [] == before + [c];
    OneCallMore(s, before, c);
    if Initial(s) && AllFit(before) && HasRoom(s, before + [c]) {
      NoGranuleStubbedTwice(s, before);
      ApartInBytes(Run(s, before));
      RunKeepsValid(s, before);
      FittingStubAvoids(Run(s, before), c.addr, c.len, c.o);
      NewStubIsApart(Run(s, before), c);
    }
  }

  lemma NewStubIsApart(s: State, c: Call)
    requires BytesApart(s) && StubsRecorded(s) && StubAvoids(s, c.addr, c.len, c.o)
    ensures BytesApart(Protect(s, c.addr, c.len, c.o).1)
  {
    hide FirstContaining, FirstMeeting, RoundDown, RoundUp, Granules;
    var s' := Protect(s, c.addr, c.len, c.o).1;
    if |s'.stubs| > |s.stubs| {
      forall k | 0 <= k < |s.stubs|
        ensures s.stubs[k].at + STUB_LENGTH <= c.addr || c.addr + STUB_LENGTH <= s.stubs[k].at
      {
        var t := s.stubs[k];
        assert StubRecorded(s, t) && StubInside(t);
        var i :| 0 <= i < |s.table| && s.table[i].base <= t.base && t.end <= s.table[i].end;
        assert Apart(c.addr, c.addr + STUB_LENGTH, s.table[i]);
      }
    }
  }

  /** The first call of a run writes a stub and records its pages. */
  lemma FirstCall(s: State, c: Call)
    requires Initial(s) && c.o == YES
    ensures var b, e := RoundDown(c.addr), RoundUp(c.addr + c.len);
            && Run(s, [c]).table == [Entry(b, e, true)] && Run(s, [c]).stubs == [Stub(c.addr, b, e)]
            && HasRoom(s, [c])
  {
    hide RoundDown, RoundUp, Granules;
    OneCallMore(s, [], c);
    assert [] + [c] == [c];
  }

  /** A second one writes another if its pages neither lie in the first one's nor meet them. */
  lemma SecondCall(s: State, c: Call, d: Call)
    requires Initial(s) && c.o == YES && d.o == YES
    requires var x := Entry(RoundDown(c.addr), RoundUp(c.addr + c.len), true);
             var b, e := RoundDown(d.addr), RoundUp(d.addr + d.len);
             !x.Contains(b, e) && !x.Meets(b, e)
    ensures HasRoom(s, [c, d]) && |Run(s, [c, d]).stubs| == 2
    ensures Run(s, [c, d]).stubs[0].at == c.addr && Run(s, [c, d]).stubs[1].at == d.addr
  {
    hide RoundDown, RoundUp, Granules, Run, HasRoom;
    FirstCall(s, c);
    OneCallMore(s, [c], d);
    assert [c] + [d] == [c, d];
    var b, e := RoundDown(d.addr), RoundUp(d.addr + d.len);
    assert FirstContaining(Run(s, [c]).table, b, e) == 1 && FirstMeeting(Run(s, [c]).table, b, e) == 1;
  }

  /** A request too short for the stub, after the next granule was promoted: its stub overwrites the other. */
  lemma Spill(s: State, addr: nat, len: nat)
    requires Initial(s) && !StubFits(addr, len) && !(len == 0 && addr % GRANULE == 0)
    ensures var e := RoundUp(addr + len);
            var calls := [Call(e, GRANULE, YES), Call(addr, len, YES)];
            && AllFit([calls[0]]) && HasRoom(s, calls) && addr < e < addr + STUB_LENGTH
            && |Run(s, calls).stubs| == 2 && Run(s, calls).stubs[0].at == e && Run(s, calls).stubs[1].at == addr
            && !StubAvoids(Run(s, [calls[0]]), addr, len, YES)
  {
    hide Run, HasRoom, Granules;
    var e := RoundUp(addr + len);
    var c, d := Call(e, GRANULE, YES), Call(addr, len, YES);
    assert RoundDown(e) == e && RoundUp(e + GRANULE) == e + GRANULE && RoundDown(addr) < e;
    FirstCall(s, c);
    SecondCall(s, c, d);
    OneCallMore(s, [c], d);
    assert [c] + [d] == [c, d];
    assert !Apart(addr, addr + STUB_LENGTH, Run(s, [c]).table[0]);
  }

  /** A request about no byte records no page, so the next call at its granule is stubbed again. */
  lemma EmptyRequestIsStubbedAgain(s: State, addr: nat)
    requires Initial(s) && addr % GRANULE == 0
    ensures var calls := [Call(addr, 0, YES), Call(addr, GRANULE, YES)];
            && AllFit([calls[1]]) && HasRoom(s, calls)
            && |Run(s, calls).stubs| == 2 && Run(s, calls).stubs[0].at == Run(s, calls).stubs[1].at == addr
  {
    hide Run, HasRoom, Granules;
    assert RoundDown(addr) == addr && RoundUp(addr) == addr && RoundUp(addr + GRANULE) == addr + GRANULE;
    SecondCall(s, Call(addr, 0, YES), Call(addr, GRANULE, YES));
  }

  // ------------------------------------------------------------------------- in place

  class Promotions {
    const promoted: array<Entry>
    var n: nat
    var verdict: int
    ghost var pages: set<nat>
    ghost var stubs: seq<Stub>
    ghost var answers: seq<bool>

    ghost predicate Fixed()
      reads this
    {
      promoted.Length == MAX_PROMOTED && n <= MAX_PROMOTED
    }

    ghost function View(): State
      requires Fixed()
      reads this, promoted
    {
      State(promoted[..n], verdict, pages, stubs, answers)
    }

    constructor ()
      ensures Fixed() && fresh(promoted) && Initial(View()) && Valid(View())
    {
      promoted := new Entry[MAX_PROMOTED](_ => Entry(0, 0, false));
      n, verdict := 0, -1;
      pages, stubs, answers := {}, [], [];
    }

    /** orbis_jit_protect, with mprotect and the stub answered by o. */
    method ProtectPages(addr: nat, len: nat, o: Oracle) returns (ok: bool)
      requires Fixed() && Valid(View())
      modifies this, promoted
      ensures Fixed() && Valid(View()) && (ok, View()) == Protect(old(View()), addr, len, o)
    {
      hide Valid, Granules, RoundDown, RoundUp, FirstContaining, FirstMeeting, Widened;
      ghost var was := View();
      ProtectKeepsValid(was, addr, len, o);
      var b, e := RoundDown(addr), RoundUp(addr + len);
      var c := FindContaining(b, e);
      if c < n {
        ok := promoted[c].ok;
        answers := answers + [ok];
        return;
      }
      var m := FindMeeting(b, e);
      if o.granted {
        pages := pages + Granules(b, e);
      }
      if o.granted && m < n {
        ok := promoted[m].ok;
        promoted[m] := Widened(promoted[m], b, e);
        assert promoted[..n] == was.table[m := Widened(was.table[m], b, e)];
        answers := answers + [ok];
        return;
      }
      if o.granted {
        stubs := stubs + [Stub(addr, b, e)];
      }
      ok := o.granted && o.ran;
      verdict := JitSpec.Record(verdict, ok);
      if n < MAX_PROMOTED {
        promoted[n] := Entry(b, e, ok);
        n := n + 1;
        assert promoted[..n] == was.table + [Entry(b, e, ok)];
      }
      answers := answers + [ok];
    }

    method FindContaining(b: nat, e: nat) returns (i: nat)
      requires Fixed()
      ensures i == FirstContaining(promoted[..n], b, e)
    {
      i := 0;
      while i < n && !promoted[i].Contains(b, e)
        invariant i <= n && forall k :: 0 <= k < i ==> !promoted[k].Contains(b, e)
      {
        i := i + 1;
      }
      FirstContainingIs(promoted[..n], b, e, i);
    }

    method FindMeeting(b: nat, e: nat) returns (i: nat)
      requires Fixed()
      ensures i == FirstMeeting(promoted[..n], b, e)
    {
      i := 0;
      while i < n && !promoted[i].Meets(b, e)
        invariant i <= n && forall k :: 0 <= k < i ==> !promoted[k].Meets(b, e)
      {
        i := i + 1;
      }
      FirstMeetingIs(promoted[..n], b, e, i);
    }
  }

  lemma FirstContainingIs(t: seq<Entry>, b: nat, e: nat, i: nat)
    requires i <= |t| && (forall k :: 0 <= k < i ==> !t[k].Contains(b, e)) && (i < |t| ==> t[i].Contains(b, e))
    ensures FirstContaining(t, b, e) == i
  {
  }

  lemma FirstMeetingIs(t: seq<Entry>, b: nat, e: nat, i: nat)
    requires i <= |t| && (forall k :: 0 <= k < i ==> !t[k].Meets(b, e)) && (i < |t| ==> t[i].Meets(b, e))
    ensures FirstMeeting(t, b, e) == i
  {
  }
}
