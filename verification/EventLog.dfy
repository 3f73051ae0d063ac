/**
 * The event log of the upload page: how each progress message becomes log entries, with the
 * counters that remember what was already logged.
 *
 * State updates are queued, as the user-interface library does: an updater runs, and an entry gets
 * its id, when the queue is flushed; the counters change at once.
 */
module EventLog {
  import opened Sequences
  import opened JsText
  import opened Delivery
  import opened ProgressServer

  /** What an entry says; its wording and colour are not modelled. */
  datatype Body =
    | StageError(stage: string, text: string)
    | StageChange(stage: string)
    | Milestone(milestone: int, total: int, percentage: int)
    | ErrorItem(error: ProcessingError)
    | Duplicates(added: int, total: int)
    | Reason(key: string, count: nat)
    | LogItem(log: ValidationLog)

  datatype Entry = Entry(id: int, body: Body)

  /** A queued update of the list of entries. */
  datatype Update = Append(body: Body) | Clear

  datatype Counters = Counters(
    stage: string, errors: int, duplicates: int, reasons: map<string, nat>, milestone: int, logs: int)

  const ZERO := Counters("", 0, 0, map[], 0, 0)

  datatype LogState = LogState(entries: seq<Entry>, queue: seq<Update>, eventId: int, last: Counters)

  // ----- What a message adds, as functions of the counters -----

  function StageBodies(c: Counters, m: Progress): seq<Body> {
    if m.errorMessage != "" then [StageError(m.stage, m.errorMessage)]
    else if m.stage != c.stage then [StageChange(m.stage)]
    else if NewMilestone(c, m) then [Milestone(MilestoneOf(m), m.totalCount, m.percentage)]
    else []
  }

  /** The last full ten thousand of entries that the message reports as processed. */
  function MilestoneOf(m: Progress): int {
    m.processedCount / 10000 * 10000
  }

  predicate NewMilestone(c: Counters, m: Progress) {
    && m.errorMessage == "" && m.stage == c.stage
    && m.processedCount > 0 && m.totalCount > 0
    && MilestoneOf(m) > 0 && MilestoneOf(m) > c.milestone
  }

  function GetOr(x: Option<int>, default: int): int {
    match x case None => default case Some(v) => v
  }

  function ErrorBodies(last: int, s: Statistics): seq<Body> {
    match s.recentErrors
    case None => []
    case Some(recent) => ErrorItems(Take(recent, GetOr(s.totalErrorCount, 0), last))
  }

  function ErrorItems(errors: seq<ProcessingError>): (r: seq<Body>)
    ensures |r| == |errors|
  {
    if errors == [] then [] else ErrorItems(Front(errors)) + [ErrorItem(Last(errors))]
  }

  function DuplicateBodies(last: int, s: Statistics): seq<Body> {
    match s.duplicateCount
    case None => []
    case Some(n) => if n > last then [Duplicates(n - last, n)] else []
  }

  /** Reasons of certificates that are valid are not logged. */
  predicate IsSuccess(key: string) {
    "VALID" <= key
  }

  function PreviousCount(prev: map<string, nat>, key: string): nat {
    if key in prev then prev[key] else 0
  }

  function ReasonItems(prev: map<string, nat>, reasons: seq<(string, nat)>): seq<Body> {
    if reasons == [] then []
    else
      var (key, count) := Last(reasons);
      ReasonItems(prev, Front(reasons))
      + if !IsSuccess(key) && count > PreviousCount(prev, key) then [Reason(key, count)] else []
  }

  lemma ReasonItemsSnoc(prev: map<string, nat>, reasons: seq<(string, nat)>, key: string, count: nat)
    ensures ReasonItems(prev, reasons + [(key, count)]) ==
      if !IsSuccess(key) && count > PreviousCount(prev, key)
      then ReasonItems(prev, reasons) + [Reason(key, count)] else ReasonItems(prev, reasons)
  {
    hide IsSuccess, PreviousCount;
    assert Front(reasons + [(key, count)]) == reasons;
  }

  lemma NothingToLog(prev: map<string, nat>)
    ensures Appends(ReasonItems(prev, [])) == []
  {
  }

  function ReasonBodies(prev: map<string, nat>, s: Statistics): seq<Body> {
    match s.validationReasons
    case None => []
    case Some(reasons) => ReasonItems(prev, reasons)
  }

  /** The record of reasons that is kept for the next message. */
  function ReasonMap(reasons: seq<(string, nat)>): map<string, nat> {
    if reasons == [] then map[] else ReasonMap(Front(reasons))[Last(reasons).0 := Last(reasons).1]
  }

  function LogBodies(last: int, s: Statistics): seq<Body> {
    match s.recentValidationLogs
    case None => []
    case Some(recent) => LogItems(Take(recent, GetOr(s.totalValidationLogCount, 0), last))
  }

  function LogItems(logs: seq<ValidationLog>): (r: seq<Body>)
    ensures |r| == |logs|
  {
    if logs == [] then [] else LogItems(Front(logs)) + [LogItem(Last(logs))]
  }

  function StatisticsBodies(c: Counters, s: Statistics): seq<Body> {
    ErrorBodies(c.errors, s) + DuplicateBodies(c.duplicates, s) + ReasonBodies(c.reasons, s) + LogBodies(c.logs, s)
  }

  function NewBodies(c: Counters, m: Progress): seq<Body> {
    StageBodies(c, m) + match m.statistics { case None => [] case Some(s) => StatisticsBodies(c, s) }
  }

  function Max(a: int, b: int): int {
    if a < b then b else a
  }

  function NextCounters(c: Counters, m: Progress): Counters {
    var d := c.(stage := m.stage, milestone := if NewMilestone(c, m) then MilestoneOf(m) else c.milestone);
    match m.statistics
    case None => d
    case Some(s) => d.(
      errors := if s.recentErrors.Some? then Max(c.errors, GetOr(s.totalErrorCount, 0)) else c.errors,
      duplicates := Max(c.duplicates, GetOr(s.duplicateCount, c.duplicates)),
      reasons := if s.validationReasons.Some? then ReasonMap(s.validationReasons.value) else c.reasons,
      logs := if s.recentValidationLogs.Some? then Max(c.logs, GetOr(s.totalValidationLogCount, 0)) else c.logs)
  }

  function Appends(bodies: seq<Body>): (r: seq<Update>)
    ensures |r| == |bodies|
  {
    if bodies == [] then [] else Appends(Front(bodies)) + [Append(Last(bodies))]
  }

  lemma AppendsSnoc(a: seq<Body>, x: Body)
    ensures Appends(a + [x]) == Appends(a) + [Append(x)]
  {
    assert Front(a + [x]) == a;
  }

  lemma {:induction false} AppendsConcat(a: seq<Body>, b: seq<Body>)
    ensures Appends(a + b) == Appends(a) + Appends(b)
    decreases |b|
  {
    if b == [] {
      assert a + b == a;
    } else {
      hide Appends;
      var init, x := Front(b), Last(b);
      assert b == init + [x] && a + b == a + init + [x];
      AppendsConcat(a, init);
      AppendsSnoc(a + init, x);
      AppendsSnoc(init, x);
    }
  }

  lemma AppendsStatistics(a: seq<Body>, b: seq<Body>, c: seq<Body>, d: seq<Body>, e: seq<Body>)
    ensures Appends(a + (b + c + d + e)) == Appends(a) + Appends(b) + Appends(c) + Appends(d) + Appends(e)
  {
    hide Appends;
    AppendsConcat(a, b + c + d + e);
    AppendsConcat(b + c + d, e);
    AppendsConcat(b + c, d);
    AppendsConcat(b, c);
  }

  // ----- The steps, as functions of the state -----

  function OnMessage(s: LogState, m: Progress): LogState {
    s.(queue := s.queue + Appends(NewBodies(s.last, m)), last := NextCounters(s.last, m))
  }

  /** `resetStages`, and the log's clear button. */
  function OnReset(s: LogState): LogState {
    LogState(s.entries, s.queue + [Clear], 0, ZERO)
  }

  function ApplyUpdate(s: LogState, u: Update): LogState {
    match u
    case Append(body) => s.(entries := s.entries + [Entry(s.eventId + 1, body)], eventId := s.eventId + 1)
    case Clear => s.(entries := [])
  }

  function ApplyAll(s: LogState, us: seq<Update>): LogState {
    if us == [] then s else ApplyUpdate(ApplyAll(s, Front(us)), Last(us))
  }

  function OnFlush(s: LogState): LogState {
    ApplyAll(s, s.queue).(queue := [])
  }

  // ----- The component -----

  class EventLogPanel {
    var entries: seq<Entry>
    var queue: seq<Update>
    var eventIdRef: int
    var lastStageRef: string
    var lastErrorCountRef: int
    var lastDuplicateCountRef: int
    var lastValidationReasonsRef: map<string, nat>
    var lastMilestoneRef: int
    var lastValidationLogCountRef: int

    ghost function Last(): Counters
      reads this
    {
      Counters(lastStageRef, lastErrorCountRef, lastDuplicateCountRef, lastValidationReasonsRef,
               lastMilestoneRef, lastValidationLogCountRef)
    }

    ghost function State(): LogState
      reads this
    {
      LogState(entries, queue, eventIdRef, Last())
    }

    constructor ()
      ensures State() == LogState([], [], 0, ZERO)
    {
      entries, queue, eventIdRef := [], [], 0;
      lastStageRef, lastErrorCountRef, lastDuplicateCountRef := "", 0, 0;
      lastValidationReasonsRef, lastMilestoneRef, lastValidationLogCountRef := map[], 0, 0;
    }

    method AddEntry(body: Body)
      modifies this`queue
      ensures queue == old(queue) + Appends([body])
    {
      queue := queue + [Append(body)];
      assert Appends([]) == [] && Front([body]) == [];
    }

    /** The part of `handleProgressUpdate` that keeps the log. */
    method HandleProgressUpdate(m: Progress)
      modifies this
      ensures State() == OnMessage(old(State()), m)
    {
      hide StageBodies, ErrorBodies, DuplicateBodies, ReasonBodies, LogBodies, NewMilestone, MilestoneOf, ReasonMap,
        Appends, Max;
      ghost var c := Last();
      LogStage(m);
      if m.statistics.Some? {
        var s := m.statistics.value;
        SurfaceErrors(s);
        SurfaceDuplicates(s);
        SurfaceReasons(s);
        SurfaceLogs(s);
        AppendsStatistics(StageBodies(c, m), ErrorBodies(c.errors, s), DuplicateBodies(c.duplicates, s),
                          ReasonBodies(c.reasons, s), LogBodies(c.logs, s));
      } else {
        assert NewBodies(c, m) == StageBodies(c, m);
      }
    }

    /** Error messages, stage changes and milestones. */
    method LogStage(m: Progress)
      modifies this`queue, this`lastMilestoneRef, this`lastStageRef
      ensures queue == old(queue) + Appends(StageBodies(old(Last()), m))
      ensures lastStageRef == m.stage
      ensures lastMilestoneRef == if NewMilestone(old(Last()), m) then MilestoneOf(m) else old(lastMilestoneRef)
    {
      if m.errorMessage != "" {
        AddEntry(StageError(m.stage, m.errorMessage));
      } else if m.stage != lastStageRef {
        AddEntry(StageChange(m.stage));
      } else if m.processedCount > 0 && m.totalCount > 0 {
        var milestone := m.processedCount / 10000 * 10000;
        if milestone > 0 && milestone > lastMilestoneRef {
          lastMilestoneRef := milestone;
          AddEntry(Milestone(milestone, m.totalCount, m.percentage));
        }
      }
      lastStageRef := m.stage;
    }

    method LogErrors(errors: seq<ProcessingError>)
      modifies this`queue
      ensures queue == old(queue) + Appends(ErrorItems(errors))
    {
      for i := 0 to |errors|
        invariant queue == old(queue) + Appends(ErrorItems(errors[..i]))
      {
        assert Front(errors[..i + 1]) == errors[..i];
        AppendsConcat(ErrorItems(errors[..i]), [ErrorItem(errors[i])]);
        AddEntry(ErrorItem(errors[i]));
      }
      assert errors[..|errors|] == errors;
    }

    method SurfaceErrors(s: Statistics)
      modifies this`queue, this`lastErrorCountRef
      ensures queue == old(queue) + Appends(ErrorBodies(old(lastErrorCountRef), s))
      ensures lastErrorCountRef ==
        if s.recentErrors.Some? then Max(old(lastErrorCountRef), GetOr(s.totalErrorCount, 0))
        else old(lastErrorCountRef)
    {
      if s.recentErrors.Some? {
        var newCount := GetOr(s.totalErrorCount, 0);
        if newCount > lastErrorCountRef {
          var addedCount := newCount - lastErrorCountRef;
          LogErrors(Recent(s.recentErrors.value, addedCount));
          lastErrorCountRef := newCount;
        }
      }
    }

    method SurfaceDuplicates(s: Statistics)
      modifies this`queue, this`lastDuplicateCountRef
      ensures queue == old(queue) + Appends(DuplicateBodies(old(lastDuplicateCountRef), s))
      ensures lastDuplicateCountRef
        == Max(old(lastDuplicateCountRef), GetOr(s.duplicateCount, old(lastDuplicateCountRef)))
    {
      if s.duplicateCount.Some? {
        var dupCount := s.duplicateCount.value;
        if dupCount > lastDuplicateCountRef {
          AddEntry(Duplicates(dupCount - lastDuplicateCountRef, dupCount));
          lastDuplicateCountRef := dupCount;
        }
      }
    }

    method LogReasons(prev: map<string, nat>, reasons: seq<(string, nat)>)
      modifies this`queue
      ensures queue == old(queue) + Appends(ReasonItems(prev, reasons))
    {
      hide Appends, ReasonItems, IsSuccess, PreviousCount;
      NothingToLog(prev);
      assert reasons[..0] == [];
      for i := 0 to |reasons|
        invariant queue == old(queue) + Appends(ReasonItems(prev, reasons[..i]))
      {
        var (key, count) := reasons[i];
        assert reasons[..i + 1] == reasons[..i] + [reasons[i]];
        ghost var items := ReasonItems(prev, reasons[..i]);
        ReasonItemsSnoc(prev, reasons[..i], key, count);
        AppendsConcat(items, [Reason(key, count)]);
        if !IsSuccess(key) {
          var prevCount := PreviousCount(prev, key);
          if count > prevCount {
            AddEntry(Reason(key, count));
          }
        }
      }
      assert reasons[..|reasons|] == reasons;
    }

    method SurfaceReasons(s: Statistics)
      modifies this`queue, this`lastValidationReasonsRef
      ensures queue == old(queue) + Appends(ReasonBodies(old(lastValidationReasonsRef), s))
      ensures lastValidationReasonsRef ==
        if s.validationReasons.Some? then ReasonMap(s.validationReasons.value) else old(lastValidationReasonsRef)
    {
      if s.validationReasons.Some? {
        LogReasons(lastValidationReasonsRef, s.validationReasons.value);
        lastValidationReasonsRef := ReasonMap(s.validationReasons.value);
      }
    }

    method LogValidations(logs: seq<ValidationLog>)
      modifies this`queue
      ensures queue == old(queue) + Appends(LogItems(logs))
    {
      for i := 0 to |logs|
        invariant queue == old(queue) + Appends(LogItems(logs[..i]))
      {
        assert Front(logs[..i + 1]) == logs[..i];
        AppendsConcat(LogItems(logs[..i]), [LogItem(logs[i])]);
        AddEntry(LogItem(logs[i]));
      }
      assert logs[..|logs|] == logs;
    }

    method SurfaceLogs(s: Statistics)
      modifies this`queue, this`lastValidationLogCountRef
      ensures queue == old(queue) + Appends(LogBodies(old(lastValidationLogCountRef), s))
      ensures lastValidationLogCountRef ==
        if s.recentValidationLogs.Some? then Max(old(lastValidationLogCountRef), GetOr(s.totalValidationLogCount, 0))
        else old(lastValidationLogCountRef)
    {
      if s.recentValidationLogs.Some? {
        var totalCount := GetOr(s.totalValidationLogCount, 0);
        if totalCount > lastValidationLogCountRef {
          var addedCount := totalCount - lastValidationLogCountRef;
          LogValidations(Recent(s.recentValidationLogs.value, addedCount));
          lastValidationLogCountRef := totalCount;
        }
      }
    }

    /** The log's part of `resetStages`; the clear button does the same. */
    method Reset()
      modifies this
      ensures State() == OnReset(old(State()))
    {
      queue := queue + [Clear];
      eventIdRef := 0;
      lastStageRef, lastErrorCountRef, lastDuplicateCountRef := "", 0, 0;
      lastValidationReasonsRef, lastMilestoneRef, lastValidationLogCountRef := map[], 0, 0;
    }

    /** The queued updaters run, in order. */
    method Flush()
      modifies this
      ensures State() == OnFlush(old(State()))
    {
      var updates := queue;
      ghost var s := State();
      for i := 0 to |updates|
        invariant State() == ApplyAll(s, updates[..i])
      {
        assert Front(updates[..i + 1]) == updates[..i];
        match updates[i] {
          case Append(body) =>
            eventIdRef := eventIdRef + 1;
            entries := entries + [Entry(eventIdRef, body)];
          case Clear =>
            entries := [];
        }
      }
      assert updates[..|updates|] == updates;
      queue := [];
    }
  }
}
