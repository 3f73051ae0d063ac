/**
 * What the event log says over whole runs, stated on the messages received since the last reset:
 * which stage errors, stage changes, milestones and duplicate increments it shows, and in which order
 * the entries of one message come.
 */
module LogContent {
  import opened Sequences
  import opened JsText
  import opened Delivery
  import opened ProgressServer
  import opened EventLog
  import opened LogRuns

  // ----- Kinds of entries -----

  datatype Kind = OfStageError | OfStageChange | OfMilestone | OfError | OfDuplicates | OfReason | OfLog

  function KindOf(b: Body): Kind {
    match b
    case StageError(_, _) => OfStageError
    case StageChange(_) => OfStageChange
    case Milestone(_, _, _) => OfMilestone
    case ErrorItem(_) => OfError
    case Duplicates(_, _) => OfDuplicates
    case Reason(_, _) => OfReason
    case LogItem(_) => OfLog
  }

  /** The entries of one kind, in order. */
  function OfKind(bodies: seq<Body>, k: Kind): seq<Body> {
    if bodies == [] then []
    else OfKind(Front(bodies), k) + if KindOf(Last(bodies)) == k then [Last(bodies)] else []
  }

  lemma OfKindSnoc(a: seq<Body>, x: Body, k: Kind)
    ensures OfKind(a + [x], k) == OfKind(a, k) + if KindOf(x) == k then [x] else []
  {
    assert Front(a + [x]) == a;
  }

  lemma {:induction false} OfKindConcat(a: seq<Body>, b: seq<Body>, k: Kind)
    ensures OfKind(a + b, k) == OfKind(a, k) + OfKind(b, k)
    decreases |b|
  {
    if b == [] {
      assert a + b == a;
    } else {
      hide OfKind;
      var init, x := Front(b), Last(b);
      assert b == init + [x] && a + b == a + init + [x];
      OfKindConcat(a, init, k);
      OfKindSnoc(a + init, x, k);
      OfKindSnoc(init, x, k);
    }
  }

  lemma {:induction false} OfOneKind(bodies: seq<Body>, own: Kind, k: Kind)
    requires forall i :: 0 <= i < |bodies| ==> KindOf(bodies[i]) == own
    ensures OfKind(bodies, k) == if k == own then bodies else []
    decreases |bodies|
  {
    if bodies != [] {
      hide KindOf, OfKind;
      var init, x := Front(bodies), Last(bodies);
      assert bodies == init + [x] && KindOf(x) == own;
      OfOneKind(init, own, k);
      OfKindSnoc(init, x, k);
    }
  }

  // ----- What the messages call for -----

  /** The messages since the last reset. */
  function MessagesSince(steps: seq<Step>): seq<Progress> {
    if steps == [] then []
    else match Last(steps)
      case Message(m) => MessagesSince(Front(steps)) + [m]
      case Reset => []
      case Flush => MessagesSince(Front(steps))
  }

  function StageBefore(ms: seq<Progress>): string {
    if ms == [] then "" else Last(ms).stage
  }

  /** The error messages, with their stages. */
  function StageErrorsIn(ms: seq<Progress>): seq<Body> {
    if ms == [] then []
    else
      var m := Last(ms);
      StageErrorsIn(Front(ms)) + if m.errorMessage != "" then [StageError(m.stage, m.errorMessage)] else []
  }

  /** The stages of the messages without an error whose stage is not that of the message before. */
  function StageChangesIn(ms: seq<Progress>): seq<Body> {
    if ms == [] then []
    else
      var m := Last(ms);
      StageChangesIn(Front(ms))
      + if m.errorMessage == "" && m.stage != StageBefore(Front(ms)) then [StageChange(m.stage)] else []
  }

  function HighestMilestone(ms: seq<Progress>): int {
    var shown := MilestonesIn(ms);
    if shown == [] || !Last(shown).Milestone? then 0 else Last(shown).milestone
  }

  /**
   * The full ten thousands reached by messages that neither report an error nor change the stage,
   * each when it is first exceeded.
   */
  function MilestonesIn(ms: seq<Progress>): seq<Body> {
    if ms == [] then []
    else
      var m := Last(ms);
      var shown := MilestonesIn(Front(ms));
      var highest := if shown == [] || !Last(shown).Milestone? then 0 else Last(shown).milestone;
      var reached := m.processedCount - m.processedCount % 10000;
      shown
      + if m.errorMessage == "" && m.stage == StageBefore(Front(ms)) && m.totalCount > 0
           && reached > 0 && reached > highest
        then [Milestone(reached, m.totalCount, m.percentage)] else []
  }

  function DuplicateCount(m: Progress): int {
    if m.statistics.Some? && m.statistics.value.duplicateCount.Some? then m.statistics.value.duplicateCount.value else 0
  }

  function HighestDuplicates(ms: seq<Progress>): int {
    if ms == [] then 0
    else
      var h := HighestDuplicates(Front(ms));
      if DuplicateCount(Last(ms)) > h then DuplicateCount(Last(ms)) else h
  }

  /** For every new highest count of duplicates, by how much it is higher, and the count. */
  function DuplicatesIn(ms: seq<Progress>): seq<Body> {
    if ms == [] then []
    else
      var h, n := HighestDuplicates(Front(ms)), DuplicateCount(Last(ms));
      DuplicatesIn(Front(ms)) + if n > h then [Duplicates(n - h, n)] else []
  }

  // ----- One message -----

  lemma {:induction false} ItemKinds(errors: seq<ProcessingError>, logs: seq<ValidationLog>)
    ensures forall i :: 0 <= i < |errors| ==> KindOf(ErrorItems(errors)[i]) == OfError
    ensures forall i :: 0 <= i < |logs| ==> KindOf(LogItems(logs)[i]) == OfLog
    decreases |errors| + |logs|
  {
    if errors != [] {
      ItemKinds(Front(errors), logs);
    } else if logs != [] {
      ItemKinds(errors, Front(logs));
    }
  }

  lemma {:induction false} ReasonKinds(prev: map<string, nat>, reasons: seq<(string, nat)>)
    ensures forall i :: 0 <= i < |ReasonItems(prev, reasons)| ==> KindOf(ReasonItems(prev, reasons)[i]) == OfReason
    decreases |reasons|
  {
    if reasons != [] {
      ReasonKinds(prev, Front(reasons));
    }
  }

  /** The four parts of what the statistics add are each of one kind. */
  lemma StatisticsKinds(c: Counters, s: Statistics)
    ensures var e, d, r, l := ErrorBodies(c.errors, s), DuplicateBodies(c.duplicates, s),
                              ReasonBodies(c.reasons, s), LogBodies(c.logs, s);
      && (forall i :: 0 <= i < |e| ==> KindOf(e[i]) == OfError)
      && (forall i :: 0 <= i < |d| ==> KindOf(d[i]) == OfDuplicates)
      && (forall i :: 0 <= i < |r| ==> KindOf(r[i]) == OfReason)
      && (forall i :: 0 <= i < |l| ==> KindOf(l[i]) == OfLog)
  {
    hide Take, IsSuccess;
    var errors := if s.recentErrors.Some?
                  then Take(s.recentErrors.value, GetOr(s.totalErrorCount, 0), c.errors) else [];
    var logs := if s.recentValidationLogs.Some?
                then Take(s.recentValidationLogs.value, GetOr(s.totalValidationLogCount, 0), c.logs) else [];
    ItemKinds(errors, logs);
    if s.validationReasons.Some? {
      ReasonKinds(c.reasons, s.validationReasons.value);
    }
  }

  function PlaceOf(k: Kind): nat {
    match k
    case OfStageError | OfStageChange | OfMilestone => 0
    case OfError => 1
    case OfDuplicates => 2
    case OfReason => 3
    case OfLog => 4
  }

  /**
   * The entries of one message: at most one about its stage comes first, then errors, duplicates,
   * reasons and validation logs.
   */
  lemma EntriesOfMessageInOrder(c: Counters, m: Progress)
    ensures var b := NewBodies(c, m);
      && (forall i, j :: 0 <= i < j < |b| ==> PlaceOf(KindOf(b[i])) <= PlaceOf(KindOf(b[j])))
      && (forall i :: 1 <= i < |b| ==> PlaceOf(KindOf(b[i])) > 0)
  {
    hide ErrorBodies, DuplicateBodies, ReasonBodies, LogBodies, MilestoneOf, NewMilestone;
    if m.statistics.Some? {
      StatisticsKinds(c, m.statistics.value);
    }
  }

  lemma KindsOfStatistics(c: Counters, s: Statistics, k: Kind)
    ensures OfKind(StatisticsBodies(c, s), k) ==
      match k
      case OfError => ErrorBodies(c.errors, s)
      case OfDuplicates => DuplicateBodies(c.duplicates, s)
      case OfReason => ReasonBodies(c.reasons, s)
      case OfLog => LogBodies(c.logs, s)
      case _ => []
  {
    hide ErrorBodies, DuplicateBodies, ReasonBodies, LogBodies, OfKind;
    var e, d, r, l := ErrorBodies(c.errors, s), DuplicateBodies(c.duplicates, s),
                      ReasonBodies(c.reasons, s), LogBodies(c.logs, s);
    StatisticsKinds(c, s);
    OfKindConcat(e + d + r, l, k);
    OfKindConcat(e + d, r, k);
    OfKindConcat(e, d, k);
    OfOneKind(e, OfError, k);
    OfOneKind(d, OfDuplicates, k);
    OfOneKind(r, OfReason, k);
    OfOneKind(l, OfLog, k);
  }

  lemma KindsOfStage(c: Counters, m: Progress, k: Kind)
    ensures OfKind(StageBodies(c, m), k) ==
      match k
      case OfStageError => if m.errorMessage != "" then [StageError(m.stage, m.errorMessage)] else []
      case OfStageChange => if m.errorMessage == "" && m.stage != c.stage then [StageChange(m.stage)] else []
      case OfMilestone =>
        var reached := m.processedCount - m.processedCount % 10000;
        if m.errorMessage == "" && m.stage == c.stage && m.totalCount > 0 && reached > 0 && reached > c.milestone
        then [Milestone(reached, m.totalCount, m.percentage)] else []
      case _ => []
  {
    var b := StageBodies(c, m);
    assert m.processedCount / 10000 * 10000 == m.processedCount - m.processedCount % 10000;
    if b != [] {
      OfOneKind(b, KindOf(b[0]), k);
    }
  }

  lemma KindsOfMessage(c: Counters, m: Progress, k: Kind)
    ensures OfKind(NewBodies(c, m), k) == OfKind(StageBodies(c, m), k)
      + if m.statistics.Some? then OfKind(StatisticsBodies(c, m.statistics.value), k) else []
  {
    hide OfKind, StageBodies, StatisticsBodies;
    if m.statistics.Some? {
      OfKindConcat(StageBodies(c, m), StatisticsBodies(c, m.statistics.value), k);
    } else {
      assert StageBodies(c, m) + [] == StageBodies(c, m);
      assert OfKind(StageBodies(c, m), k) + [] == OfKind(StageBodies(c, m), k);
    }
  }

  // ----- Runs -----

  ghost predicate SaysWhatArrived(s: LogState, ms: seq<Progress>) {
    && OfKind(View(s), OfStageError) == StageErrorsIn(ms)
    && OfKind(View(s), OfStageChange) == StageChangesIn(ms)
    && OfKind(View(s), OfMilestone) == MilestonesIn(ms)
    && OfKind(View(s), OfDuplicates) == DuplicatesIn(ms)
    && s.last.stage == StageBefore(ms)
    && s.last.milestone == HighestMilestone(ms)
    && s.last.duplicates == HighestDuplicates(ms) >= 0
  }

  lemma MessageSaysIt(s: LogState, m: Progress, ms: seq<Progress>)
    requires SaysWhatArrived(s, ms)
    ensures SaysWhatArrived(OnMessage(s, m), ms + [m])
  {
    hide OfKind, View, NewBodies, StageBodies, StatisticsBodies, SaysWhatArrived, OnMessage;
    ViewOfStep(s, Message(m));
    CountersAfter(s, m);
    StageKindsKept(s, m, ms);
    MilestonesKept(s, m, ms);
    DuplicatesKept(s, m, ms);
    SaysIt(OnMessage(s, m), ms + [m]);
  }

  lemma SaysIt(s: LogState, ms: seq<Progress>)
    requires OfKind(View(s), OfStageError) == StageErrorsIn(ms) && OfKind(View(s), OfStageChange) == StageChangesIn(ms)
    requires OfKind(View(s), OfMilestone) == MilestonesIn(ms) && OfKind(View(s), OfDuplicates) == DuplicatesIn(ms)
    requires s.last.stage == StageBefore(ms) && s.last.milestone == HighestMilestone(ms)
    requires s.last.duplicates == HighestDuplicates(ms) >= 0
    ensures SaysWhatArrived(s, ms)
  {
  }

  lemma CountersAfter(s: LogState, m: Progress)
    ensures OnMessage(s, m).last == NextCounters(s.last, m)
    ensures View(OnMessage(s, m)) == View(s) + NewBodies(s.last, m)
  {
    hide View, NewBodies, NextCounters;
    ViewOfStep(s, Message(m));
  }

  lemma StageKindsKept(s: LogState, m: Progress, ms: seq<Progress>)
    requires SaysWhatArrived(s, ms)
    ensures var t, ns := OnMessage(s, m), ms + [m];
      && OfKind(View(t), OfStageError) == StageErrorsIn(ns)
      && OfKind(View(t), OfStageChange) == StageChangesIn(ns)
      && t.last.stage == StageBefore(ns)
  {
    hide OfKind, View, NewBodies, StageBodies, StatisticsBodies, OnMessage;
    CountersAfter(s, m);
    assert Front(ms + [m]) == ms;
    ShownOfKind(s, m, OfStageError);
    KindsOfStage(s.last, m, OfStageError);
    ShownOfKind(s, m, OfStageChange);
    KindsOfStage(s.last, m, OfStageChange);
    assert StageErrorsIn(ms) + [] == StageErrorsIn(ms) && StageChangesIn(ms) + [] == StageChangesIn(ms);
  }

  /** What a message adds to the entries of one kind about its stage. */
  lemma ShownOfKind(s: LogState, m: Progress, k: Kind)
    ensures PlaceOf(k) == 0 ==>
      OfKind(View(OnMessage(s, m)), k) == OfKind(View(s), k) + OfKind(StageBodies(s.last, m), k)
    ensures k == OfDuplicates ==>
      OfKind(View(OnMessage(s, m)), k) == OfKind(View(s), k)
        + if m.statistics.Some? then DuplicateBodies(s.last.duplicates, m.statistics.value) else []
  {
    hide OfKind, View, NewBodies, StageBodies, StatisticsBodies, DuplicateBodies, OnMessage;
    CountersAfter(s, m);
    OfKindConcat(View(s), NewBodies(s.last, m), k);
    KindsOfMessage(s.last, m, k);
    if k == OfDuplicates {
      KindsOfStage(s.last, m, k);
    }
    if m.statistics.Some? {
      KindsOfStatistics(s.last, m.statistics.value, k);
    }
    var stage := OfKind(StageBodies(s.last, m), k);
    assert stage + [] == stage;
  }

  lemma MilestoneCounter(c: Counters, m: Progress)
    ensures NextCounters(c, m).milestone ==
      var reached := m.processedCount - m.processedCount % 10000;
      if m.errorMessage == "" && m.stage == c.stage && m.totalCount > 0 && reached > 0 && reached > c.milestone
      then reached else c.milestone
  {
    hide ReasonMap, Max, GetOr;
    assert m.processedCount / 10000 * 10000 == m.processedCount - m.processedCount % 10000;
  }

  lemma MilestonesKept(s: LogState, m: Progress, ms: seq<Progress>)
    requires SaysWhatArrived(s, ms)
    ensures var t, ns := OnMessage(s, m), ms + [m];
      OfKind(View(t), OfMilestone) == MilestonesIn(ns) && t.last.milestone == HighestMilestone(ns)
  {
    hide OfKind, View, NewBodies, StageBodies, StatisticsBodies, OnMessage, NextCounters;
    CountersAfter(s, m);
    assert Front(ms + [m]) == ms;
    ShownOfKind(s, m, OfMilestone);
    KindsOfStage(s.last, m, OfMilestone);
    MilestoneCounter(s.last, m);
    assert MilestonesIn(ms) + [] == MilestonesIn(ms);
  }

  lemma DuplicatesKept(s: LogState, m: Progress, ms: seq<Progress>)
    requires SaysWhatArrived(s, ms)
    ensures var t, ns := OnMessage(s, m), ms + [m];
      OfKind(View(t), OfDuplicates) == DuplicatesIn(ns) && t.last.duplicates == HighestDuplicates(ns) >= 0
  {
    hide OfKind, View, NewBodies, StageBodies, StatisticsBodies, OnMessage;
    CountersAfter(s, m);
    assert Front(ms + [m]) == ms;
    ShownOfKind(s, m, OfDuplicates);
    assert DuplicatesIn(ms) + [] == DuplicatesIn(ms);
  }

  /**
   * Over any run: the log shows exactly the error messages, the changes of stage, the milestones and
   * the duplicate increments that the messages since the last reset call for, each kind in order.
   */
  lemma {:induction false} LogSaysWhatArrived(steps: seq<Step>)
    ensures SaysWhatArrived(Run(steps), MessagesSince(steps))
    decreases |steps|
  {
    hide SaysWhatArrived, OnMessage, OnFlush, OnReset, View;
    if steps == [] {
      StartShowsNothing();
      NothingArrived(START);
    } else {
      var s := Run(Front(steps));
      LogSaysWhatArrived(Front(steps));
      match Last(steps) {
        case Message(m) => MessageSaysIt(s, m, MessagesSince(Front(steps)));
        case Reset =>
          ViewOfStep(s, Reset);
          ResetZeroes(s);
          NothingArrived(OnReset(s));
        case Flush => FlushSaysTheSame(s, MessagesSince(Front(steps)));
      }
    }
  }

  lemma NothingArrived(s: LogState)
    requires View(s) == [] && s.last == ZERO
    ensures SaysWhatArrived(s, [])
  {
    hide View;
  }

  lemma ResetZeroes(t: LogState)
    ensures OnReset(t).last == ZERO
  {
  }

  lemma FlushSaysTheSame(s: LogState, ms: seq<Progress>)
    requires SaysWhatArrived(s, ms)
    ensures SaysWhatArrived(OnFlush(s), ms)
  {
    hide View, OnFlush, OfKind;
    ViewOfStep(s, Flush);
    FlushKeepsCounters(s);
  }

  // ----- Reasons -----

  /** The reasons a message logs: not a success, and more often than in the message before. */
  function IsLogged(prev: map<string, nat>): ((string, nat)) -> bool {
    (r: (string, nat)) =>
      !(|r.0| >= 5 && r.0[..5] == "VALID") && r.1 > (if r.0 in prev then prev[r.0] else 0)
  }

  function ReasonEntries(reasons: seq<(string, nat)>): (r: seq<Body>)
    ensures |r| == |reasons| && forall i :: 0 <= i < |reasons| ==> r[i] == Reason(reasons[i].0, reasons[i].1)
  {
    seq(|reasons|, i requires 0 <= i < |reasons| => Reason(reasons[i].0, reasons[i].1))
  }

  /** A message logs exactly those of its reasons, in their order. */
  lemma {:induction false} ReasonsOfMessage(prev: map<string, nat>, reasons: seq<(string, nat)>)
    returns (logged: seq<(string, nat)>)
    ensures IsFiltered(reasons, IsLogged(prev), logged) && ReasonItems(prev, reasons) == ReasonEntries(logged)
    decreases |reasons|
  {
    hide IsFiltered;
    if reasons == [] {
      logged := [];
      NothingIsFiltered(IsLogged(prev));
    } else {
      var init, r := Front(reasons), Last(reasons);
      var before := ReasonsOfMessage(prev, init);
      logged := before + if IsLogged(prev)(r) then [r] else [];
      FilteredSnoc(init, r, IsLogged(prev), before);
      assert reasons == init + [r];
      assert IsSuccess(r.0) <==> |r.0| >= 5 && r.0[..5] == "VALID";
    }
  }

  /** The record kept for the next message holds each reason with its count. */
  lemma {:induction false} RecordHolds(reasons: seq<(string, nat)>)
    requires forall i, j :: 0 <= i < j < |reasons| ==> reasons[i].0 != reasons[j].0
    ensures forall i :: 0 <= i < |reasons| ==>
      reasons[i].0 in ReasonMap(reasons) && ReasonMap(reasons)[reasons[i].0] == reasons[i].1
    ensures forall key :: key in ReasonMap(reasons) ==> exists i :: 0 <= i < |reasons| && reasons[i].0 == key
    decreases |reasons|
  {
    if reasons != [] {
      var init := Front(reasons);
      RecordHolds(init);
      assert forall i :: 0 <= i < |init| ==> init[i] == reasons[i];
      forall key | key in ReasonMap(reasons)
        ensures exists i :: 0 <= i < |reasons| && reasons[i].0 == key
      {
        if key == Last(reasons).0 {
          assert reasons[|reasons| - 1].0 == key;
        } else {
          assert key in ReasonMap(init);
          var i :| 0 <= i < |init| && init[i].0 == key;
          assert reasons[i].0 == key;
        }
      }
    }
  }
}
