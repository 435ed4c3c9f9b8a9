/**
 The one verdict of src/orbis_jit.c, which arenas being mapped and pages being promoted both record in:
 runs in which calls of both kinds follow one another in any order.
 */
module JitVerdict {
  import opened Wrappers
  import opened JitPlacement
  import JitSpec
  import JitRuns
  import JitProtect

  /** A call on the arenas, or a promotion. */
  datatype Event = OnArenas(op: JitRuns.Op) | OnPages(call: JitProtect.Call)

  /** Both parts keep the verdict word; it is one, and pages.answers lists what has been recorded or
      answered so far. */
  datatype Module = Module(arenas: JitSpec.State, pages: JitProtect.State)

  /** What a map attempt records: nothing until the kernel has placed it, then whether it may run code. */
  function MapRecords(at: Option<nat>, ans: JitSpec.Answers): seq<bool> {
    if ans.phys == None || ans.landed == None || (at.Some? && ans.landed != at) then []
    else [ans.promoted && ans.ran]
  }

  /** What a call on the arenas records. */
  function Records(anchor: nat, s: JitSpec.State, op: JitRuns.Op): seq<bool>
    requires anchor >= MODULE_SPAN
  {
    match op
    case DoAlloc(_, size, near, found, _, ans) =>
      var served := JitSpec.FirstServing(s.arenas, JitSpec.BlockLength(size), near, anchor, 0) < |s.arenas|;
      if served || |s.arenas| >= JitSpec.MAX_ARENAS || (near && found == None) then []
      else MapRecords(if near then found else None, ans)
    case DoAllocAt(_, addr, _, found, ans) =>
      if addr == 0 || addr % GRANULE != 0 || |s.arenas| >= JitSpec.MAX_ARENAS || found == None then []
      else MapRecords(Some(addr), ans)
    case _ => []
  }

  ghost function Step(anchor: nat, m: Module, e: Event): Module
    requires anchor >= MODULE_SPAN
  {
    match e
    case OnArenas(op) =>
      var arenas := JitRuns.Next(anchor, m.arenas, op);
      Module(arenas, m.pages.(verdict := arenas.verdict, answers := m.pages.answers + Records(anchor, m.arenas, op)))
    case OnPages(c) =>
      var pages := JitProtect.Protect(m.pages, c.addr, c.len, c.o).1;
      Module(m.arenas.(verdict := pages.verdict), pages)
  }

  ghost function Run(anchor: nat, m: Module, events: seq<Event>): Module
    requires anchor >= MODULE_SPAN
  {
    if events == [] then m else Step(anchor, Run(anchor, m, events[..|events| - 1]), events[|events| - 1])
  }

  ghost predicate Permitted(anchor: nat, m: Module, events: seq<Event>)
    requires anchor >= MODULE_SPAN
  {
    events == [] ||
    var front := events[..|events| - 1];
    var e := events[|events| - 1];
    Permitted(anchor, m, front) && (e.OnArenas? ==> JitRuns.Permitted(anchor, Run(anchor, m, front).arenas, e.op))
  }

  ghost predicate Initial(m: Module) {
    JitSpec.Initial(m.arenas) && JitProtect.Initial(m.pages)
  }

  ghost predicate Valid(m: Module) {
    JitSpec.Valid(m.arenas) && JitProtect.Valid(m.pages) && m.arenas.verdict == m.pages.verdict
  }

  /** A call on the arenas moves the verdict by what it records, and in no other way. */
  lemma VerdictMoves(anchor: nat, s: JitSpec.State, op: JitRuns.Op)
    requires anchor >= MODULE_SPAN
    ensures var r := Records(anchor, s, op);
            JitRuns.Next(anchor, s, op).verdict == if r == [] then s.verdict else JitSpec.Record(s.verdict, r[0])
    ensures |Records(anchor, s, op)| <= 1
  {
    match op
    case DoAlloc(_, size, near, found, setting, ans) =>
      GrowMoves(s, JitSpec.BlockLength(size), near, found, setting, ans);
    case DoAllocAt(_, addr, size, found, ans) =>
      MapMoves(s.kernel, s.verdict, Some(addr), RoundUp(if size == 0 then 1 else size), ans);
    case _ =>
  }

  lemma MapMoves(k: JitSpec.Kernel, verdict: int, at: Option<nat>, len: nat, ans: JitSpec.Answers)
    ensures var r := MapRecords(at, ans);
            JitSpec.MapArena(k, verdict, at, len, ans).verdict
            == if r == [] then verdict else JitSpec.Record(verdict, r[0])
  {
  }

  lemma GrowMoves(s: JitSpec.State, atleast: nat, near: bool, found: Option<nat>, setting: Option<int>,
                  ans: JitSpec.Answers)
    ensures var r := if |s.arenas| >= JitSpec.MAX_ARENAS || (near && found == None) then []
                     else MapRecords(if near then found else None, ans);
            JitSpec.Grow(s, atleast, near, found, setting, ans).verdict
            == if r == [] then s.verdict else JitSpec.Record(s.verdict, r[0])
  {
    hide JitSpec.MapArena, JitSpec.ArenaSize, MapRecords;
    MapMoves(s.kernel, s.verdict, if near then found else None, JitSpec.ArenaSize(atleast, setting), ans);
  }

  lemma MoreAnswers(p: JitProtect.State, verdict: int, r: seq<bool>)
    requires JitProtect.Valid(p) && |r| <= 1
    requires verdict == if r == [] then p.verdict else JitSpec.Record(p.verdict, r[0])
    ensures JitProtect.Valid(p.(verdict := verdict, answers := p.answers + r))
  {
    hide JitProtect.AllTrue;
    var p' := p.(verdict := verdict, answers := p.answers + r);
    if r == [] {
      assert p.answers + r == p.answers;
    } else {
      assert r == [r[0]];
      JitProtect.AnswerJoins(p.answers, r[0]);
    }
    assert forall x :: JitProtect.EntryTrue(p, x) ==> JitProtect.EntryTrue(p', x);
  }

  lemma StepKeepsValid(anchor: nat, m: Module, e: Event)
    requires anchor >= MODULE_SPAN && Valid(m)
    requires e.OnArenas? ==> JitRuns.Permitted(anchor, m.arenas, e.op)
    ensures Valid(Step(anchor, m, e))
  {
    hide JitSpec.Valid, JitProtect.Valid, JitRuns.Permitted, JitRuns.Next, JitProtect.Protect, Records;
    match e
    case OnArenas(op) =>
      JitRuns.StepKeepsValid(anchor, m.arenas, op);
      VerdictMoves(anchor, m.arenas, op);
      MoreAnswers(m.pages, JitRuns.Next(anchor, m.arenas, op).verdict, Records(anchor, m.arenas, op));
    case OnPages(c) =>
      JitProtect.ProtectKeepsValid(m.pages, c.addr, c.len, c.o);
      JitRuns.VerdictDoesNotMatter(m.arenas, JitProtect.Protect(m.pages, c.addr, c.len, c.o).1.verdict);
  }

  /** Over any run of both kinds of calls, whatever fails: the verdict is -1 before anything was recorded
      and then whether all was yes, both parts keep their invariants, and they agree on the verdict. */
  lemma {:induction false} VerdictIsTheConjunction(anchor: nat, m: Module, events: seq<Event>)
    requires anchor >= MODULE_SPAN && Initial(m) && Permitted(anchor, m, events)
    ensures var end := Run(anchor, m, events);
            && Valid(end)
            && end.arenas.verdict ==
               if end.pages.answers == [] then -1 else if JitProtect.AllTrue(end.pages.answers) then 1 else 0
  {
    hide JitSpec.Valid, JitRuns.Permitted, Step, JitProtect.AllTrue;
    if events == [] {
      JitRuns.StartIsValid(m.arenas);
    } else {
      var front := events[..|events| - 1];
      VerdictIsTheConjunction(anchor, m, front);
      StepKeepsValid(anchor, Run(anchor, m, front), events[|events| - 1]);
    }
  }
}
