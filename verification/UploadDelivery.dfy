/**
 * The upload page and the server together: the server records errors and validation logs and sends
 * progress messages; the channel loses, repeats and reorders them; the user clears the log at will.
 */
module UploadDelivery {
  import opened Sequences
  import opened JsText
  import opened Delivery
  import opened ProgressServer
  import opened EventLog
  import opened LogRuns

  /**
   * `errors` and `logs` are everything the server recorded for this upload, `sent` every message it
   * sent. The two flags tell whether, since the last reset of the log, each message that raised a
   * counter raised it by at most the size of the window.
   */
  datatype System = System(
    errors: seq<ProcessingError>, logs: seq<ValidationLog>, sent: set<Progress>, client: LogState,
    errorGapsFit: bool, logGapsFit: bool)

  datatype Event =
    | RecordError(error: ProcessingError)
    | RecordLog(log: ValidationLog)
    | Send(m: Progress)
    | Deliver(m: Progress)
    | ResetLog
    | FlushLog

  const INITIAL := System([], [], {}, START, true, true)

  /** The statistics, if any, describe the histories up to some earlier moment. */
  ghost predicate Describes(m: Progress, errors: seq<ProcessingError>, logs: seq<ValidationLog>, n: int, k: int) {
    m.statistics.Some? ==> SentWith(m.statistics.value, errors, logs, n, k)
  }

  /** A message is sent with the statistics of the moment, and only sent messages arrive. */
  ghost predicate Enabled(s: System, e: Event) {
    match e
    case Send(m) => Describes(m, s.errors, s.logs, |s.errors|, |s.logs|)
    case Deliver(m) => m in s.sent
    case _ => true
  }

  function ErrorTotal(m: Progress): int {
    if m.statistics.Some? && m.statistics.value.recentErrors.Some?
    then GetOr(m.statistics.value.totalErrorCount, 0) else 0
  }

  function LogTotal(m: Progress): int {
    if m.statistics.Some? && m.statistics.value.recentValidationLogs.Some?
    then GetOr(m.statistics.value.totalValidationLogCount, 0) else 0
  }

  function After(s: System, e: Event): System {
    match e
    case RecordError(x) => s.(errors := s.errors + [x])
    case RecordLog(x) => s.(logs := s.logs + [x])
    case Send(m) => s.(sent := s.sent + {m})
    case Deliver(m) => s.(
      client := Next(s.client, Message(m)),
      errorGapsFit := s.errorGapsFit && ErrorTotal(m) - s.client.last.errors <= MAX_RECENT_ERRORS,
      logGapsFit := s.logGapsFit && LogTotal(m) - s.client.last.logs <= MAX_RECENT_VALIDATION_LOGS)
    case ResetLog => s.(client := Next(s.client, Reset), errorGapsFit := true, logGapsFit := true)
    case FlushLog => s.(client := Next(s.client, Flush))
  }

  function RunAll(events: seq<Event>): System {
    if events == [] then INITIAL else After(RunAll(Front(events)), Last(events))
  }

  ghost predicate IsRun(events: seq<Event>) {
    events == [] || (IsRun(Front(events)) && Enabled(RunAll(Front(events)), Last(events)))
  }

  function ErrorLog(s: System): seq<ProcessingError> {
    ErrorsShown(View(s.client))
  }

  function ValidationLogShown(s: System): seq<ValidationLog> {
    LogsShown(View(s.client))
  }

  ghost predicate Delivered<T>(h: seq<T>, last: int, log: seq<T>, gapsFit: bool) {
    InOrderOnce(h, last, log) && CompleteIff(h, last, log, gapsFit)
  }

  ghost predicate SentSoFar(s: System) {
    forall m :: m in s.sent ==> exists n, k :: Describes(m, s.errors, s.logs, n, k)
  }

  ghost predicate Inv(s: System) {
    && SentSoFar(s)
    && Delivered(s.errors, s.client.last.errors, ErrorLog(s), s.errorGapsFit)
    && Delivered(s.logs, s.client.last.logs, ValidationLogShown(s), s.logGapsFit)
  }

  lemma TakeDelivers<T>(h: seq<T>, w: nat, recent: seq<T>, n: int, last: int, log: seq<T>, gapsFit: bool)
    requires Delivered(h, last, log, gapsFit) && IsSnapshot(h, w, recent, n)
    ensures Delivered(h, Max(last, n), log + Take(recent, n, last), gapsFit && n - last <= w)
  {
    TakeKeepsOrder(h, w, recent, n, last, log);
    TakeKeepsComplete(h, w, recent, n, last, log, gapsFit);
  }

  lemma DescribesLater(m: Progress, errors: seq<ProcessingError>, logs: seq<ValidationLog>, n: int, k: int,
                       moreErrors: seq<ProcessingError>, moreLogs: seq<ValidationLog>)
    requires Describes(m, errors, logs, n, k)
    ensures Describes(m, errors + moreErrors, logs + moreLogs, n, k)
  {
    if m.statistics.Some? {
      assert (errors + moreErrors)[..n] == errors[..n];
      assert (logs + moreLogs)[..k] == logs[..k];
    }
  }

  lemma DeliverKeepsInv(s: System, m: Progress)
    requires Inv(s) && m in s.sent
    ensures Inv(After(s, Deliver(m)))
  {
    hide ErrorsShown, LogsShown, View, NewBodies, OnMessage, Take, InOrderOnce, CompleteIff, SentWith;
    var c := s.client.last;
    ViewOfStep(s.client, Message(m));
    ProjectionsConcat(View(s.client), NewBodies(c, m));
    ProjectionsOfMessage(c, m);
    CountersOfMessage(s.client, m);
    var n, k :| Describes(m, s.errors, s.logs, n, k);
    if m.statistics.Some? {
      var st := m.statistics.value;
      assert SentWith(st, s.errors, s.logs, n, k);
      SnapshotsOf(st, s.errors, s.logs, n, k);
      TakeDelivers(s.errors, MAX_RECENT_ERRORS, st.recentErrors.value, n, c.errors, ErrorLog(s), s.errorGapsFit);
      TakeDelivers(s.logs, MAX_RECENT_VALIDATION_LOGS, st.recentValidationLogs.value, k, c.logs,
                   ValidationLogShown(s), s.logGapsFit);
    } else {
      assert ErrorLog(s) + [] == ErrorLog(s) && ValidationLogShown(s) + [] == ValidationLogShown(s);
      CountersAreNatural(s);
    }
  }

  lemma SnapshotsOf(st: Statistics, errors: seq<ProcessingError>, logs: seq<ValidationLog>, n: int, k: int)
    requires SentWith(st, errors, logs, n, k)
    ensures st.recentErrors.Some? && st.totalErrorCount == Some(n)
    ensures IsSnapshot(errors, MAX_RECENT_ERRORS, st.recentErrors.value, n)
    ensures st.recentValidationLogs.Some? && st.totalValidationLogCount == Some(k)
    ensures IsSnapshot(logs, MAX_RECENT_VALIDATION_LOGS, st.recentValidationLogs.value, k)
  {
  }

  lemma CountersAreNatural(s: System)
    requires Inv(s)
    ensures s.client.last.errors >= 0 && s.client.last.logs >= 0
  {
  }

  lemma CountersOfMessage(s: LogState, m: Progress)
    ensures OnMessage(s, m).last == NextCounters(s.last, m)
  {
  }

  lemma RecordKeepsInv(s: System, e: Event)
    requires Inv(s) && (e.RecordError? || e.RecordLog?)
    ensures Inv(After(s, e))
  {
    hide ErrorsShown, LogsShown, View, SentWith;
    var t := After(s, e);
    var x: seq<ProcessingError> := if e.RecordError? then [e.error] else [];
    var y: seq<ValidationLog> := if e.RecordLog? then [e.log] else [];
    assert t.errors == s.errors + x && t.logs == s.logs + y;
    forall m | m in t.sent
      ensures exists n, k :: Describes(m, t.errors, t.logs, n, k)
    {
      var n, k :| Describes(m, s.errors, s.logs, n, k);
      DescribesLater(m, s.errors, s.logs, n, k, x, y);
    }
    if e.RecordError? {
      GrowthDelivers(s.errors, e.error, s.client.last.errors, ErrorLog(s), s.errorGapsFit);
    } else {
      GrowthDelivers(s.logs, e.log, s.client.last.logs, ValidationLogShown(s), s.logGapsFit);
    }
  }

  lemma GrowthDelivers<T>(h: seq<T>, x: T, last: int, log: seq<T>, gapsFit: bool)
    requires Delivered(h, last, log, gapsFit)
    ensures Delivered(h + [x], last, log, gapsFit)
  {
    GrowthKeepsOrder(h, x, last, log);
    assert (h + [x])[..last] == h[..last];
  }

  lemma NothingIsDelivered<T>(h: seq<T>)
    ensures Delivered(h, 0, [], true)
  {
    NothingIsInOrder(h);
  }

  lemma ClientStepKeepsInv(s: System, e: Event)
    requires Inv(s) && (e.ResetLog? || e.FlushLog?)
    ensures Inv(After(s, e))
  {
    hide ErrorsShown, LogsShown, View, OnFlush, Delivered;
    Empty();
    ViewOfStep(s.client, if e.ResetLog? then Reset else Flush);
    FlushKeepsCounters(s.client);
    NothingIsDelivered(s.errors);
    NothingIsDelivered(s.logs);
  }

  /** In every reachable state the delivery invariant holds. */
  lemma {:induction false} ReachableInv(events: seq<Event>)
    requires IsRun(events)
    ensures Inv(RunAll(events))
    decreases |events|
  {
    hide Inv, After;
    if events == [] {
      InitialInv();
    } else {
      var s, e := RunAll(Front(events)), Last(events);
      ReachableInv(Front(events));
      match e {
        case Send(m) => SendKeepsInv(s, m);
        case Deliver(m) => DeliverKeepsInv(s, m);
        case RecordError(_) => RecordKeepsInv(s, e);
        case RecordLog(_) => RecordKeepsInv(s, e);
        case ResetLog => ClientStepKeepsInv(s, e);
        case FlushLog => ClientStepKeepsInv(s, e);
      }
    }
  }

  lemma InitialInv()
    ensures Inv(INITIAL)
  {
    hide Delivered, ErrorsShown, LogsShown, View;
    StartShowsNothing();
    Empty();
    NothingIsDelivered<ProcessingError>([]);
    NothingIsDelivered<ValidationLog>([]);
  }

  lemma SendKeepsInv(s: System, m: Progress)
    requires Inv(s) && Enabled(s, Send(m))
    ensures Inv(After(s, Send(m)))
  {
    hide Delivered, ErrorsShown, LogsShown, View;
    forall x | x in s.sent + {m}
      ensures exists n, k :: Describes(x, s.errors, s.logs, n, k)
    {
      if x == m {
        assert Describes(m, s.errors, s.logs, |s.errors|, |s.logs|);
      }
    }
  }

  /** The largest totals delivered since the last reset of the log. */
  function HighestErrorTotal(events: seq<Event>): int {
    if events == [] then 0
    else match Last(events)
      case ResetLog => 0
      case Deliver(m) => Max(HighestErrorTotal(Front(events)), ErrorTotal(m))
      case _ => HighestErrorTotal(Front(events))
  }

  function HighestLogTotal(events: seq<Event>): int {
    if events == [] then 0
    else match Last(events)
      case ResetLog => 0
      case Deliver(m) => Max(HighestLogTotal(Front(events)), LogTotal(m))
      case _ => HighestLogTotal(Front(events))
  }

  /** The counters of the page have reached these totals, neither less nor more. */
  lemma {:induction false} CountersReachHighestTotals(events: seq<Event>)
    ensures var last := RunAll(events).client.last;
      && last.errors == HighestErrorTotal(events) >= 0
      && last.logs == HighestLogTotal(events) >= 0
    decreases |events|
  {
    hide OnMessage, OnFlush, NextCounters, ErrorTotal, LogTotal;
    if events != [] {
      var s := RunAll(Front(events));
      CountersReachHighestTotals(Front(events));
      match Last(events) {
        case Deliver(m) =>
          CountersOfMessage(s.client, m);
          TotalsOfMessage(s.client.last, m);
        case FlushLog => FlushKeepsCounters(s.client);
        case _ =>
      }
    }
  }

  lemma TotalsOfMessage(c: Counters, m: Progress)
    requires c.errors >= 0 && c.logs >= 0
    ensures NextCounters(c, m).errors == Max(c.errors, ErrorTotal(m))
    ensures NextCounters(c, m).logs == Max(c.logs, LogTotal(m))
  {
    hide ReasonMap, NewMilestone, MilestoneOf;
  }

  /**
   * Delivery. However messages are lost, repeated or late: the errors shown since the last reset
   * are entries of the server's history, each position at most once and in its order; and they are
   * all of the history up to the largest total delivered exactly when every gap fitted the window of
   * 100. The same holds for the validation logs, with a window of 200.
   */
  lemma AtMostOnceAndExactlyWhenGapsFit(events: seq<Event>)
    requires IsRun(events)
    ensures var s := RunAll(events);
      && InOrderOnce(s.errors, HighestErrorTotal(events), ErrorLog(s))
      && 0 <= HighestErrorTotal(events) <= |s.errors|
      && (ErrorLog(s) == s.errors[..HighestErrorTotal(events)] <==> s.errorGapsFit)
      && InOrderOnce(s.logs, HighestLogTotal(events), ValidationLogShown(s))
      && 0 <= HighestLogTotal(events) <= |s.logs|
      && (ValidationLogShown(s) == s.logs[..HighestLogTotal(events)] <==> s.logGapsFit)
  {
    CountersReachHighestTotals(events);
    hide ErrorLog, ValidationLogShown, RunAll, InOrderOnce, SentSoFar;
    ReachableInv(events);
    var s := RunAll(events);
    CompleteMeansPrefix(s.errors, s.client.last.errors, ErrorLog(s), s.errorGapsFit);
    CompleteMeansPrefix(s.logs, s.client.last.logs, ValidationLogShown(s), s.logGapsFit);
  }
}
