/**
 * The event log over whole runs: any messages, in any order, with resets and flushes of the update
 * queue at any time.
 */
module LogRuns {
  import opened Sequences
  import opened JsText
  import opened Delivery
  import opened ProgressServer
  import opened EventLog

  datatype Step = Message(m: Progress) | Reset | Flush

  function Next(s: LogState, step: Step): LogState {
    match step
    case Message(m) => OnMessage(s, m)
    case Reset => OnReset(s)
    case Flush => OnFlush(s)
  }

  const START := LogState([], [], 0, ZERO)

  function Run(steps: seq<Step>): LogState {
    if steps == [] then START else Next(Run(Front(steps)), Last(steps))
  }

  // ----- What the log shows once the queue is flushed -----

  function BodiesOf(entries: seq<Entry>): (r: seq<Body>)
    ensures |r| == |entries|
  {
    if entries == [] then [] else BodiesOf(Front(entries)) + [Last(entries).body]
  }

  function Shown(bodies: seq<Body>, us: seq<Update>): seq<Body> {
    if us == [] then bodies
    else match Last(us)
      case Append(body) => Shown(bodies, Front(us)) + [body]
      case Clear => []
  }

  function View(s: LogState): seq<Body> {
    Shown(BodiesOf(s.entries), s.queue)
  }

  lemma ShownSnoc(bodies: seq<Body>, us: seq<Update>, body: Body)
    ensures Shown(bodies, us + [Append(body)]) == Shown(bodies, us) + [body]
  {
    assert Front(us + [Append(body)]) == us;
  }

  lemma {:induction false} ShownAppends(bodies: seq<Body>, us: seq<Update>, more: seq<Body>)
    ensures Shown(bodies, us + Appends(more)) == Shown(bodies, us) + more
    decreases |more|
  {
    hide Shown;
    if more == [] {
      assert us + [] == us;
    } else {
      var init, x := Front(more), Last(more);
      ShownAppends(bodies, us, init);
      ShownSnoc(bodies, us + Appends(init), x);
      assert us + Appends(more) == us + Appends(init) + [Append(x)];
      assert more == init + [x];
    }
  }

  lemma {:induction false} ApplyAllShows(s: LogState, us: seq<Update>)
    ensures BodiesOf(ApplyAll(s, us).entries) == Shown(BodiesOf(s.entries), us)
    decreases |us|
  {
    if us != [] {
      ApplyAllShows(s, Front(us));
      var t := ApplyAll(s, Front(us));
      if Last(us).Append? {
        assert Front(t.entries + [Entry(t.eventId + 1, Last(us).body)]) == t.entries;
      }
    }
  }

  /** A message adds its entries at the end, a reset empties the log, and flushing shows what was queued. */
  lemma ViewOfStep(s: LogState, step: Step)
    ensures View(Next(s, step)) == match step
      case Message(m) => View(s) + NewBodies(s.last, m)
      case Reset => []
      case Flush => View(s)
    ensures BodiesOf(OnFlush(s).entries) == View(s)
  {
    match step {
      case Message(m) =>
        ShownAppends(BodiesOf(s.entries), s.queue, NewBodies(s.last, m));
      case Reset =>
        assert Front(s.queue + [Clear]) == s.queue;
      case Flush =>
    }
    ApplyAllShows(s, s.queue);
  }

  // ----- Ids -----

  function Waiting(us: seq<Update>): nat {
    if us == [] then 0 else Waiting(Front(us)) + (if Last(us).Append? then 1 else 0)
  }

  /** How many entries were still queued at the last reset. */
  function WaitingAtReset(steps: seq<Step>): nat {
    if steps == [] then 0
    else if Last(steps).Reset? then Waiting(Run(Front(steps)).queue)
    else WaitingAtReset(Front(steps))
  }

  ghost predicate NumberedFrom(entries: seq<Entry>, base: int) {
    forall i :: 0 <= i < |entries| ==> entries[i].id == base + i
  }

  lemma ApplyAllSnoc(s: LogState, us: seq<Update>, u: Update)
    ensures ApplyAll(s, us + [u]) == ApplyUpdate(ApplyAll(s, us), u)
  {
    assert Front(us + [u]) == us;
  }

  lemma {:induction false} ApplyAllConcat(s: LogState, a: seq<Update>, b: seq<Update>)
    ensures ApplyAll(s, a + b) == ApplyAll(ApplyAll(s, a), b)
    decreases |b|
  {
    if b == [] {
      assert a + b == a;
    } else {
      hide ApplyAll, ApplyUpdate;
      var init, u := Front(b), Last(b);
      assert b == init + [u] && a + b == a + init + [u];
      ApplyAllConcat(s, a, init);
      ApplyAllSnoc(s, a + init, u);
      ApplyAllSnoc(ApplyAll(s, a), init, u);
    }
  }

  lemma {:induction false} ApplyAllIgnores(s: LogState, queue: seq<Update>, last: Counters, us: seq<Update>)
    ensures ApplyAll(s.(queue := queue, last := last), us) == ApplyAll(s, us).(queue := queue, last := last)
    decreases |us|
  {
    if us != [] {
      ApplyAllIgnores(s, queue, last, Front(us));
    }
  }

  lemma {:induction false} AppendsNumber(s: LogState, bodies: seq<Body>, base: int)
    requires NumberedFrom(s.entries, base) && s.eventId == base + |s.entries| - 1
    ensures var t := ApplyAll(s, Appends(bodies));
      NumberedFrom(t.entries, base) && t.eventId == base + |t.entries| - 1
    decreases |bodies|
  {
    if bodies != [] {
      AppendsNumber(s, Front(bodies), base);
      assert Front(Appends(bodies)) == Appends(Front(bodies));
    }
  }

  lemma {:induction false} ApplyAllCounts(s: LogState, us: seq<Update>)
    ensures ApplyAll(s, us).eventId == s.eventId + Waiting(us)
    decreases |us|
  {
    if us != [] {
      ApplyAllCounts(s, Front(us));
    }
  }

  ghost predicate Numbered(s: LogState, base: int) {
    NumberedFrom(OnFlush(s).entries, base) && OnFlush(s).eventId == base + |OnFlush(s).entries| - 1
  }

  lemma MessageKeepsNumbering(s: LogState, m: Progress, base: int)
    requires Numbered(s, base)
    ensures Numbered(OnMessage(s, m), base)
  {
    hide NewBodies, NextCounters;
    var extra := Appends(NewBodies(s.last, m));
    ApplyAllConcat(s, s.queue, extra);
    ApplyAllIgnores(s, s.queue + extra, NextCounters(s.last, m), s.queue + extra);
    AppendsNumber(ApplyAll(s, s.queue), NewBodies(s.last, m), base);
  }

  lemma ResetStartsNumbering(s: LogState)
    ensures Numbered(OnReset(s), Waiting(s.queue) + 1)
  {
    assert Front(s.queue + [Clear]) == s.queue;
    ApplyAllCounts(OnReset(s), s.queue);
  }

  lemma StartIsNumbered()
    ensures Numbered(START, 1)
  {
  }

  lemma FlushKeepsNumbering(s: LogState, base: int)
    requires Numbered(s, base)
    ensures Numbered(OnFlush(s), base)
  {
    hide NumberedFrom;
  }

  /** Once flushed, the entries are numbered consecutively, from one more than were queued at the last reset. */
  lemma {:induction false} IdsAreConsecutive(steps: seq<Step>)
    ensures Numbered(Run(steps), WaitingAtReset(steps) + 1)
    decreases |steps|
  {
    if steps == [] {
      StartIsNumbered();
    } else {
      hide OnMessage, OnReset, OnFlush, Waiting, Numbered;
      var s := Run(Front(steps));
      IdsAreConsecutive(Front(steps));
      match Last(steps) {
        case Message(m) => MessageKeepsNumbering(s, m, WaitingAtReset(Front(steps)) + 1);
        case Reset => ResetStartsNumbering(s);
        case Flush => FlushKeepsNumbering(s, WaitingAtReset(Front(steps)) + 1);
      }
    }
  }

  /** The ids are 1, 2, 3, ... exactly when no entry was still queued at the last reset (or none is shown). */
  lemma IdsStartAtOneIff(steps: seq<Step>)
    ensures var f := OnFlush(Run(steps));
      NumberedFrom(f.entries, 1) <==> f.entries == [] || WaitingAtReset(steps) == 0
  {
    hide Run, OnFlush, WaitingAtReset;
    IdsAreConsecutive(steps);
    var f := OnFlush(Run(steps));
    assert f.entries != [] ==> f.entries[0].id == WaitingAtReset(steps) + 1;
  }

  /** The library may run the first update of an empty queue at once; the others wait. */
  function FirstAtOnce(s: LogState): LogState {
    if s.queue == [] then s else ApplyUpdate(s.(queue := s.queue[1..]), s.queue[0])
  }

  /** A first message that changes the stage and reports duplicates, and so adds two entries. */
  predicate AddsTwo(m: Progress) {
    && m.errorMessage == "" && m.stage != ""
    && m.statistics.Some? && m.statistics.value.recentErrors == None && m.statistics.value.validationReasons == None
    && m.statistics.value.recentValidationLogs == None
    && m.statistics.value.duplicateCount.Some? && m.statistics.value.duplicateCount.value > 0
  }

  predicate ChangesStage(m: Progress) {
    m.errorMessage == "" && m.stage != "" && m.statistics == None
  }

  /**
   * Entries still queued at a reset take the first ids with them: the only entry shown has id 3, and
   * if the library runs the first update at once, it still has id 2.
   */
  lemma IdsCanStartLate(before: Progress, after: Progress)
    requires AddsTwo(before) && ChangesStage(after)
    ensures var steps := [Message(before), Reset, Message(after)];
      && WaitingAtReset(steps) == 2
      && OnFlush(Run(steps)).entries == [Entry(3, StageChange(after.stage))]
    ensures var s := OnMessage(OnReset(FirstAtOnce(OnMessage(START, before))), after);
      OnFlush(s).entries == [Entry(2, StageChange(after.stage))]
  {
    hide OnFlush, OnMessage, AddsTwo, ChangesStage, WaitingAtReset, Waiting;
    RunOfThree(before, after);
    WaitingBeforeReset(before, after);
    var x, y, z := StageChange(before.stage), Second(before), StageChange(after.stage);
    var s := OnMessage(START, before);
    TwoQueued(before);
    OneQueued(OnReset(s), after);
    OneQueued(OnReset(FirstAtOnce(s)), after);
    WaitingTwo(x, y);
    assert OnReset(s).queue + [Append(z)] == [Append(x), Append(y), Clear, Append(z)];
    FlushFour(OnMessage(OnReset(s), after), x, y, z);
    assert OnReset(FirstAtOnce(s)).queue + [Append(z)] == [Append(y), Clear, Append(z)];
    FlushThree(OnMessage(OnReset(FirstAtOnce(s)), after), y, z);
  }

  lemma RunSnoc(steps: seq<Step>, step: Step)
    ensures Run(steps + [step]) == Next(Run(steps), step)
  {
    assert Front(steps + [step]) == steps;
  }

  lemma RunOfThree(before: Progress, after: Progress)
    ensures Run([Message(before), Reset, Message(after)]) == OnMessage(OnReset(OnMessage(START, before)), after)
  {
    hide OnMessage, OnReset;
    var a, b := [Message(before)], [Message(before), Reset];
    assert [] + [Message(before)] == a && a + [Reset] == b;
    assert b + [Message(after)] == [Message(before), Reset, Message(after)];
    RunSnoc([], Message(before));
    RunSnoc(a, Reset);
    RunSnoc(b, Message(after));
  }

  lemma WaitingBeforeReset(before: Progress, after: Progress)
    ensures WaitingAtReset([Message(before), Reset, Message(after)]) == Waiting(OnMessage(START, before).queue)
  {
    hide OnMessage, Waiting, Run;
    var a, b := [Message(before)], [Message(before), Reset];
    assert Front([Message(before), Reset, Message(after)]) == b && Front(b) == a;
    assert [] + [Message(before)] == a;
    RunSnoc([], Message(before));
    NothingRun();
  }

  lemma NothingRun()
    ensures Run([]) == START
  {
  }

  function Second(m: Progress): Body
    requires AddsTwo(m)
  {
    Duplicates(m.statistics.value.duplicateCount.value, m.statistics.value.duplicateCount.value)
  }

  lemma TwoQueued(m: Progress)
    requires AddsTwo(m)
    ensures var s := OnMessage(START, m);
      s.queue == [Append(StageChange(m.stage)), Append(Second(m))] && s.entries == [] && s.eventId == 0
  {
    hide NextCounters;
    var x, y := StageChange(m.stage), Second(m);
    assert NewBodies(START.last, m) == [x, y];
    assert Front([x, y]) == [x] && Front([x]) == [];
    assert Appends([x]) == [Append(x)];
  }

  lemma OneQueued(s: LogState, m: Progress)
    requires ChangesStage(m) && s.last == ZERO
    ensures OnMessage(s, m).queue == s.queue + [Append(StageChange(m.stage))]
    ensures OnMessage(s, m).entries == s.entries && OnMessage(s, m).eventId == s.eventId
  {
    hide NextCounters;
    var body := StageChange(m.stage);
    assert NewBodies(s.last, m) == [body];
    assert Front([body]) == [];
  }

  lemma WaitingTwo(x: Body, y: Body)
    ensures Waiting([Append(x), Append(y)]) == 2
  {
    assert Front([Append(x), Append(y)]) == [Append(x)] && Front([Append(x)]) == [];
    assert Waiting([Append(x)]) == 1;
  }

  lemma FlushThree(s: LogState, y: Body, z: Body)
    requires s.queue == [Append(y), Clear, Append(z)]
    ensures OnFlush(s).entries == [Entry(s.eventId + 2, z)]
  {
    var a, b := [Append(y)], [Append(y), Clear];
    assert Front(s.queue) == b && Front(b) == a && Front(a) == [];
    assert ApplyAll(s, a) == ApplyUpdate(s, Append(y));
    assert ApplyAll(s, b) == ApplyUpdate(ApplyAll(s, a), Clear);
  }

  lemma FlushFour(s: LogState, x: Body, y: Body, z: Body)
    requires s.queue == [Append(x), Append(y), Clear, Append(z)]
    ensures OnFlush(s).entries == [Entry(s.eventId + 3, z)]
  {
    var rest := [Append(y), Clear, Append(z)];
    assert s.queue == [Append(x)] + rest;
    ApplyAllConcat(s, [Append(x)], rest);
    assert Front([Append(x)]) == [];
    assert ApplyAll(s, [Append(x)]) == ApplyUpdate(s, Append(x));
    var t := ApplyUpdate(s, Append(x)).(queue := rest);
    FlushThree(t, y, z);
    ApplyAllIgnores(ApplyUpdate(s, Append(x)), rest, t.last, rest);
  }

  // ----- Duplicates and milestones -----

  /** The sum of the increments shown. */
  function DuplicatesShown(bodies: seq<Body>): int {
    if bodies == [] then 0
    else DuplicatesShown(Front(bodies)) + (if Last(bodies).Duplicates? then Last(bodies).added else 0)
  }

  function MilestonesShown(bodies: seq<Body>): seq<int> {
    if bodies == [] then []
    else MilestonesShown(Front(bodies)) + (if Last(bodies).Milestone? then [Last(bodies).milestone] else [])
  }

  /** The largest duplicate count received since the last reset. */
  function HighestDuplicateCount(steps: seq<Step>): int {
    if steps == [] then 0
    else match Last(steps)
      case Reset => 0
      case Flush => HighestDuplicateCount(Front(steps))
      case Message(m) =>
        var h := HighestDuplicateCount(Front(steps));
        if m.statistics.Some? && m.statistics.value.duplicateCount.Some?
        then Max(h, m.statistics.value.duplicateCount.value) else h
  }

  lemma DuplicatesSnoc(a: seq<Body>, x: Body)
    ensures DuplicatesShown(a + [x]) == DuplicatesShown(a) + if x.Duplicates? then x.added else 0
  {
    assert Front(a + [x]) == a;
  }

  lemma {:induction false} DuplicatesConcat(a: seq<Body>, b: seq<Body>)
    ensures DuplicatesShown(a + b) == DuplicatesShown(a) + DuplicatesShown(b)
    decreases |b|
  {
    if b == [] {
      assert a + b == a;
    } else {
      hide DuplicatesShown;
      var init, x := Front(b), Last(b);
      assert b == init + [x] && a + b == a + init + [x];
      DuplicatesConcat(a, init);
      DuplicatesSnoc(a + init, x);
      DuplicatesSnoc(init, x);
    }
  }

  lemma MilestonesSnoc(a: seq<Body>, x: Body)
    ensures MilestonesShown(a + [x]) == MilestonesShown(a) + if x.Milestone? then [x.milestone] else []
  {
    assert Front(a + [x]) == a;
  }

  lemma {:induction false} MilestonesConcat(a: seq<Body>, b: seq<Body>)
    ensures MilestonesShown(a + b) == MilestonesShown(a) + MilestonesShown(b)
    decreases |b|
  {
    if b == [] {
      assert a + b == a;
    } else {
      hide MilestonesShown;
      var init, x := Front(b), Last(b);
      assert b == init + [x] && a + b == a + init + [x];
      MilestonesConcat(a, init);
      MilestonesSnoc(a + init, x);
      MilestonesSnoc(init, x);
    }
  }

  lemma ErrorsSnoc(a: seq<Body>, x: Body)
    ensures ErrorsShown(a + [x]) == ErrorsShown(a) + if x.ErrorItem? then [x.error] else []
  {
    assert Front(a + [x]) == a;
  }

  lemma {:induction false} ErrorsConcat(a: seq<Body>, b: seq<Body>)
    ensures ErrorsShown(a + b) == ErrorsShown(a) + ErrorsShown(b)
    decreases |b|
  {
    if b == [] {
      assert a + b == a;
    } else {
      hide ErrorsShown;
      var init, x := Front(b), Last(b);
      assert b == init + [x] && a + b == a + init + [x];
      ErrorsConcat(a, init);
      ErrorsSnoc(a + init, x);
      ErrorsSnoc(init, x);
    }
  }

  lemma LogsSnoc(a: seq<Body>, x: Body)
    ensures LogsShown(a + [x]) == LogsShown(a) + if x.LogItem? then [x.log] else []
  {
    assert Front(a + [x]) == a;
  }

  lemma {:induction false} LogsConcat(a: seq<Body>, b: seq<Body>)
    ensures LogsShown(a + b) == LogsShown(a) + LogsShown(b)
    decreases |b|
  {
    if b == [] {
      assert a + b == a;
    } else {
      hide LogsShown;
      var init, x := Front(b), Last(b);
      assert b == init + [x] && a + b == a + init + [x];
      LogsConcat(a, init);
      LogsSnoc(a + init, x);
      LogsSnoc(init, x);
    }
  }

  lemma ProjectionsConcat(a: seq<Body>, b: seq<Body>)
    ensures DuplicatesShown(a + b) == DuplicatesShown(a) + DuplicatesShown(b)
    ensures MilestonesShown(a + b) == MilestonesShown(a) + MilestonesShown(b)
    ensures ErrorsShown(a + b) == ErrorsShown(a) + ErrorsShown(b)
    ensures LogsShown(a + b) == LogsShown(a) + LogsShown(b)
  {
    DuplicatesConcat(a, b);
    MilestonesConcat(a, b);
    ErrorsConcat(a, b);
    LogsConcat(a, b);
  }

  lemma ProjectionsOfOne(x: Body)
    ensures DuplicatesShown([x]) == if x.Duplicates? then x.added else 0
    ensures MilestonesShown([x]) == if x.Milestone? then [x.milestone] else []
    ensures ErrorsShown([x]) == if x.ErrorItem? then [x.error] else []
    ensures LogsShown([x]) == if x.LogItem? then [x.log] else []
  {
    assert Front([x]) == [];
  }

  function ErrorsShown(bodies: seq<Body>): seq<ProcessingError> {
    if bodies == [] then []
    else ErrorsShown(Front(bodies)) + (if Last(bodies).ErrorItem? then [Last(bodies).error] else [])
  }

  function LogsShown(bodies: seq<Body>): seq<ValidationLog> {
    if bodies == [] then []
    else LogsShown(Front(bodies)) + (if Last(bodies).LogItem? then [Last(bodies).log] else [])
  }

  lemma {:induction false} ProjectionsOfErrorItems(errors: seq<ProcessingError>)
    ensures var b := ErrorItems(errors);
      DuplicatesShown(b) == 0 && MilestonesShown(b) == [] && ErrorsShown(b) == errors && LogsShown(b) == []
    decreases |errors|
  {
    if errors != [] {
      ProjectionsOfErrorItems(Front(errors));
      assert Front(ErrorItems(errors)) == ErrorItems(Front(errors));
      assert errors == Front(errors) + [Last(errors)];
    }
  }

  lemma {:induction false} ProjectionsOfLogItems(logs: seq<ValidationLog>)
    ensures var b := LogItems(logs);
      DuplicatesShown(b) == 0 && MilestonesShown(b) == [] && ErrorsShown(b) == [] && LogsShown(b) == logs
    decreases |logs|
  {
    if logs != [] {
      ProjectionsOfLogItems(Front(logs));
      assert Front(LogItems(logs)) == LogItems(Front(logs));
      assert logs == Front(logs) + [Last(logs)];
    }
  }

  /** Neither increments nor milestones nor errors nor validation logs. */
  predicate NoneOfThose(b: seq<Body>) {
    DuplicatesShown(b) == 0 && MilestonesShown(b) == [] && ErrorsShown(b) == [] && LogsShown(b) == []
  }

  lemma NothingIsShown()
    ensures NoneOfThose([])
  {
  }

  lemma AddingReason(items: seq<Body>, key: string, count: nat)
    requires NoneOfThose(items)
    ensures NoneOfThose(items + [Reason(key, count)])
  {
    assert Front(items + [Reason(key, count)]) == items;
  }

  lemma {:induction false} ProjectionsOfReasonItems(prev: map<string, nat>, reasons: seq<(string, nat)>)
    ensures NoneOfThose(ReasonItems(prev, reasons))
    decreases |reasons|
  {
    hide NoneOfThose;
    if reasons == [] {
      NothingIsShown();
    } else {
      var items := ReasonItems(prev, Front(reasons));
      ProjectionsOfReasonItems(prev, Front(reasons));
      AddingReason(items, Last(reasons).0, Last(reasons).1);
      assert items + [] == items;
    }
  }

  /** The errors a message adds to the log. */
  function NewErrors(c: Counters, m: Progress): seq<ProcessingError> {
    if m.statistics.Some? && m.statistics.value.recentErrors.Some? then
      Take(m.statistics.value.recentErrors.value, GetOr(m.statistics.value.totalErrorCount, 0), c.errors)
    else []
  }

  function NewLogs(c: Counters, m: Progress): seq<ValidationLog> {
    if m.statistics.Some? && m.statistics.value.recentValidationLogs.Some? then
      Take(m.statistics.value.recentValidationLogs.value, GetOr(m.statistics.value.totalValidationLogCount, 0), c.logs)
    else []
  }

  /** What each message adds, kind by kind. */
  lemma ProjectionsOfMessage(c: Counters, m: Progress)
    ensures var b := NewBodies(c, m);
      && DuplicatesShown(b) == NextCounters(c, m).duplicates - c.duplicates
      && MilestonesShown(b) == (if NewMilestone(c, m) then [MilestoneOf(m)] else [])
      && ErrorsShown(b) == NewErrors(c, m)
      && LogsShown(b) == NewLogs(c, m)
  {
    ProjectionsOfStage(c, m);
    if m.statistics.Some? {
      var s := m.statistics.value;
      ProjectionsOfStatistics(c, s);
      ProjectionsConcat(StageBodies(c, m), StatisticsBodies(c, s));
    } else {
      assert NewBodies(c, m) == StageBodies(c, m);
    }
  }

  lemma ProjectionsOfStage(c: Counters, m: Progress)
    ensures var b := StageBodies(c, m);
      && DuplicatesShown(b) == 0 && ErrorsShown(b) == [] && LogsShown(b) == []
      && MilestonesShown(b) == if NewMilestone(c, m) then [MilestoneOf(m)] else []
  {
    if StageBodies(c, m) != [] {
      ProjectionsOfOne(StageBodies(c, m)[0]);
    }
  }

  lemma ProjectionsOfStatistics(c: Counters, s: Statistics)
    ensures var b := StatisticsBodies(c, s);
      && DuplicatesShown(b) == Max(c.duplicates, GetOr(s.duplicateCount, c.duplicates)) - c.duplicates
      && MilestonesShown(b) == []
      && ErrorsShown(b)
        == (if s.recentErrors.Some? then Take(s.recentErrors.value, GetOr(s.totalErrorCount, 0), c.errors) else [])
      && LogsShown(b)
        == (if s.recentValidationLogs.Some?
            then Take(s.recentValidationLogs.value, GetOr(s.totalValidationLogCount, 0), c.logs) else [])
  {
    hide ErrorsShown, LogsShown, DuplicatesShown, MilestonesShown;
    var e, d, r, l := ErrorBodies(c.errors, s), DuplicateBodies(c.duplicates, s),
                      ReasonBodies(c.reasons, s), LogBodies(c.logs, s);
    Empty();
    ProjectionsConcat(e + d + r, l);
    ProjectionsConcat(e + d, r);
    ProjectionsConcat(e, d);
    if s.recentErrors.Some? {
      ProjectionsOfErrorItems(Take(s.recentErrors.value, GetOr(s.totalErrorCount, 0), c.errors));
    }
    if d != [] {
      ProjectionsOfOne(d[0]);
    }
    if s.validationReasons.Some? {
      ProjectionsOfReasonItems(c.reasons, s.validationReasons.value);
    }
    if s.recentValidationLogs.Some? {
      ProjectionsOfLogItems(Take(s.recentValidationLogs.value, GetOr(s.totalValidationLogCount, 0), c.logs));
    }
  }

  lemma Empty()
    ensures DuplicatesShown([]) == 0 && MilestonesShown([]) == [] && ErrorsShown([]) == [] && LogsShown([]) == []
  {
  }

  /** Increasing multiples of 10000, the last of them being `last` (0 if there is none). */
  ghost predicate AreMilestones(ms: seq<int>, last: int) {
    && (forall i :: 0 <= i < |ms| ==> ms[i] > 0 && ms[i] % 10000 == 0)
    && (forall i, j :: 0 <= i < j < |ms| ==> ms[i] < ms[j])
    && last == if ms == [] then 0 else Sequences.Last(ms)
  }

  ghost predicate Accounted(s: LogState, highest: int) {
    && DuplicatesShown(View(s)) == s.last.duplicates == highest
    && AreMilestones(MilestonesShown(View(s)), s.last.milestone)
  }

  lemma MilestoneKeepsOrder(ms: seq<int>, c: Counters, m: Progress)
    requires AreMilestones(ms, c.milestone) && NewMilestone(c, m)
    ensures AreMilestones(ms + [MilestoneOf(m)], MilestoneOf(m))
  {
    assert forall i :: 0 <= i < |ms| ==> ms[i] <= Sequences.Last(ms);
  }

  lemma MessageKeepsAccount(s: LogState, m: Progress, highest: int)
    requires Accounted(s, highest)
    ensures Accounted(OnMessage(s, m), if m.statistics.Some? && m.statistics.value.duplicateCount.Some?
                                       then Max(highest, m.statistics.value.duplicateCount.value) else highest)
  {
    hide View, NewBodies, MilestonesShown, DuplicatesShown, ErrorsShown, LogsShown, AreMilestones;
    ViewOfStep(s, Message(m));
    ProjectionsConcat(View(s), NewBodies(s.last, m));
    ProjectionsOfMessage(s.last, m);
    var ms := MilestonesShown(View(s));
    assert MilestonesShown(View(OnMessage(s, m))) == ms + if NewMilestone(s.last, m) then [MilestoneOf(m)] else [];
    assert ms + [] == ms;
    if NewMilestone(s.last, m) {
      MilestoneKeepsOrder(ms, s.last, m);
    }
  }

  /**
   * Over any run: the duplicate increments shown add up to the largest count received since the
   * last reset, and the milestones shown are strictly increasing multiples of 10000.
   */
  lemma {:induction false} LogAccounting(steps: seq<Step>)
    ensures Accounted(Run(steps), HighestDuplicateCount(steps))
    decreases |steps|
  {
    hide View, MilestonesShown, DuplicatesShown, OnFlush, OnMessage;
    Empty();
    if steps == [] {
      StartShowsNothing();
    } else {
      var s := Run(Front(steps));
      LogAccounting(Front(steps));
      ViewOfStep(s, Sequences.Last(steps));
      match Sequences.Last(steps) {
        case Message(m) => MessageKeepsAccount(s, m, HighestDuplicateCount(Front(steps)));
        case Reset =>
        case Flush => FlushKeepsCounters(s);
      }
    }
  }

  lemma StartShowsNothing()
    ensures View(START) == []
  {
  }

  lemma FlushKeepsCounters(s: LogState)
    ensures OnFlush(s).last == s.last
  {
    ApplyAllKeepsCounters(s, s.queue);
  }

  lemma {:induction false} ApplyAllKeepsCounters(s: LogState, us: seq<Update>)
    ensures ApplyAll(s, us).last == s.last
    decreases |us|
  {
    if us != [] {
      ApplyAllKeepsCounters(s, Front(us));
    }
  }
}
