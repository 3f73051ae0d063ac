/**
 * The three stages of the upload page and its overall status, driven by file selection, uploads,
 * progress messages, the one-second timer, and polling of the database.
 */
module UploadStages {
  import opened Sequences
  import opened JsText
  import opened StageProgress

  /** A stage as shown; its texts are not modelled. */
  datatype Stage = Stage(status: Status, percentage: int)

  datatype Overall = NotStarted | Processing | Finalized | Broken

  const INITIAL_STAGE := Stage(Idle, 0)
  const DONE := Stage(Completed, 100)

  /** `timers` are the parse stages that pending one-second timers are going to set. */
  datatype Ui = Ui(upload: Stage, parse: Stage, db: Stage, overall: Overall, isProcessing: bool,
                   fileSelected: bool, timers: seq<Stage>)

  const INITIAL := Ui(INITIAL_STAGE, INITIAL_STAGE, INITIAL_STAGE, NotStarted, false, false, [])

  /** What the database says about the upload; `Underway` stands for the five other statuses. */
  datatype UploadStatus = Pending | InWork | Done | Aborted | Underway
  datatype UploadRecord = UploadRecord(status: UploadStatus, hasCertificates: bool,
                                       totalEntries: nat, processedEntries: nat)

  datatype Rejection = Reuploadable | Duplicate | OtherError

  datatype Event =
    | SelectFile(valid: bool)
    | StartUpload
    | Accepted
    | Rejected(reason: Rejection)
    | Progress(stage: string, percentage: int)
    | TimerFires(i: nat)
    | Poll(record: UploadRecord)

  // ----- The steps, as functions of the state -----

  predicate Is(name: string, stage: ProcessingStage) {
    name == StageToString(stage)
  }

  function ResetStages(u: Ui): Ui {
    u.(upload := INITIAL_STAGE, parse := INITIAL_STAGE, db := INITIAL_STAGE, overall := NotStarted)
  }

  /** A stage that later stages imply; one already completed is left as it is. */
  function Complete(s: Stage): Stage {
    if s.status != Completed then DONE else s
  }

  function StageStatusOf(stage: string, percentage: int): Stage {
    var status := GetStatus(stage);
    Stage(status, if status == Completed then 100 else CalculateStagePercentage(stage, percentage))
  }

  function OnProgress(u: Ui, stage: string, percentage: int): Ui {
    var s := StageStatusOf(stage, percentage);
    var p := CalculateStagePercentage(stage, percentage);
    match FamilyOf(stage)
    case Upload => u.(upload := s)
    case Parsing =>
      if Is(stage, PARSING_COMPLETED) then
        u.(upload := Complete(u.upload), parse := s.(status := InProgress), timers := u.timers + [s])
      else u.(upload := Complete(u.upload), parse := s)
    case Validation =>
      u.(upload := Complete(u.upload), parse := Complete(u.parse),
         db := Stage(if Is(stage, VALIDATION_COMPLETED) then InProgress else s.status, p))
    case DbSaving =>
      u.(upload := Complete(u.upload), parse := Complete(u.parse),
         db := if Is(stage, DB_SAVING_COMPLETED) then DONE else Stage(InProgress, p))
    case LdapSaving =>
      u.(upload := Complete(u.upload), parse := Complete(u.parse),
         db := if Is(stage, LDAP_SAVING_COMPLETED) then DONE else Stage(InProgress, p))
    case AllCompleted => u.(upload := DONE, parse := DONE, db := DONE, overall := Finalized, isProcessing := false)
    case AllFailed => u.(overall := Broken, isProcessing := false)
    case Other => u
  }

  function PollPercentage(r: UploadRecord): int {
    var total := if r.totalEntries == 0 then 1 else r.totalEntries;
    var p := RoundQuotient(100 * r.processedEntries, total);
    if p < 99 then p else 99
  }

  predicate PollSetsDb(r: UploadRecord) {
    r.status == Done || r.hasCertificates
  }

  function OnPoll(u: Ui, r: UploadRecord): Ui {
    var a := if r.status != Pending then u.(upload := DONE, parse := DONE) else u;
    var b :=
      if !PollSetsDb(r) then a
      else if r.status == InWork then a.(db := Stage(InProgress, PollPercentage(r)))
      else a.(db := DONE);
    match r.status
    case Done => b.(overall := Finalized, isProcessing := false)
    case Aborted => b.(overall := Broken, isProcessing := false)
    case _ => b
  }

  function After(u: Ui, e: Event): Ui {
    match e
    case SelectFile(valid) => if valid then ResetStages(u.(fileSelected := true)) else u
    case StartUpload =>
      if u.isProcessing || !u.fileSelected then u
      else ResetStages(u.(isProcessing := true, overall := Processing)).(upload := Stage(InProgress, 0))
    case Accepted => u.(upload := DONE)
    case Rejected(Reuploadable) => u.(isProcessing := false, overall := NotStarted)
    case Rejected(_) => u.(upload := Stage(Failed, 0), overall := Broken, isProcessing := false)
    case Progress(stage, percentage) => OnProgress(u, stage, percentage)
    case TimerFires(i) =>
      if i < |u.timers| then u.(parse := u.timers[i], timers := u.timers[..i] + u.timers[i + 1..]) else u
    case Poll(r) => OnPoll(u, r)
  }

  function Run(u: Ui, events: seq<Event>): Ui {
    if events == [] then u else After(Run(u, Front(events)), Last(events))
  }

  // ----- The component -----

  class FileUploadPage {
    var uploadStage: Stage
    var parseStage: Stage
    var dbSaveStage: Stage
    var overallStatus: Overall
    var isProcessing: bool
    var selectedFile: bool
    var timers: seq<Stage>

    ghost function State(): Ui
      reads this
    {
      Ui(uploadStage, parseStage, dbSaveStage, overallStatus, isProcessing, selectedFile, timers)
    }

    constructor ()
      ensures State() == INITIAL
    {
      uploadStage, parseStage, dbSaveStage := INITIAL_STAGE, INITIAL_STAGE, INITIAL_STAGE;
      overallStatus, isProcessing, selectedFile, timers := NotStarted, false, false, [];
    }

    method Reset()
      modifies this
      ensures State() == ResetStages(old(State()))
    {
      uploadStage := INITIAL_STAGE;
      parseStage := INITIAL_STAGE;
      dbSaveStage := INITIAL_STAGE;
      overallStatus := NotStarted;
    }

    method HandleFileSelect(valid: bool)
      modifies this
      ensures State() == After(old(State()), SelectFile(valid))
    {
      if valid {
        selectedFile := true;
        Reset();
      }
    }

    /** The upload button, disabled while processing, and `doUpload` up to the request. */
    method StartUploading()
      modifies this
      ensures State() == After(old(State()), StartUpload)
    {
      if isProcessing || !selectedFile {
        return;
      }
      isProcessing := true;
      overallStatus := Processing;
      Reset();
      uploadStage := Stage(InProgress, 0);
    }

    /** `doUpload` after the request succeeded. */
    method UploadAccepted()
      modifies this
      ensures State() == After(old(State()), Accepted)
    {
      uploadStage := DONE;
    }

    /** `doUpload` after the request failed. */
    method UploadRejected(reason: Rejection)
      modifies this
      ensures State() == After(old(State()), Rejected(reason))
    {
      if reason == Reuploadable {
        isProcessing := false;
        overallStatus := NotStarted;
        return;
      }
      uploadStage := Stage(Failed, 0);
      overallStatus := Broken;
      isProcessing := false;
    }

    method CompleteEarlierStages()
      modifies this
      ensures State() == old(State()).(upload := Complete(old(uploadStage)), parse := Complete(old(parseStage)))
    {
      if uploadStage.status != Completed {
        uploadStage := DONE;
      }
      if parseStage.status != Completed {
        parseStage := DONE;
      }
    }

    /** The part of `handleProgressUpdate` that moves the stages. */
    method HandleProgressUpdate(stage: string, percentage: int)
      modifies this
      ensures State() == After(old(State()), Progress(stage, percentage))
    {
      hide FamilyOf, GetStatus, CalculateStagePercentage, Is;
      var stagePercent := CalculateStagePercentage(stage, percentage);
      var status := GetStatus(stage);
      var stageStatus := Stage(status, if status == Completed then 100 else stagePercent);
      match FamilyOf(stage) {
        case Upload =>
          uploadStage := stageStatus;
        case Parsing =>
          if uploadStage.status != Completed {
            uploadStage := DONE;
          }
          if Is(stage, PARSING_COMPLETED) {
            parseStage := stageStatus.(status := InProgress);
            timers := timers + [stageStatus];
          } else {
            parseStage := stageStatus;
          }
        case Validation =>
          CompleteEarlierStages();
          dbSaveStage := Stage(if Is(stage, VALIDATION_COMPLETED) then InProgress else status, stagePercent);
        case DbSaving =>
          CompleteEarlierStages();
          dbSaveStage := Stage(if Is(stage, DB_SAVING_COMPLETED) then Completed else InProgress,
                               if Is(stage, DB_SAVING_COMPLETED) then 100 else stagePercent);
        case LdapSaving =>
          CompleteEarlierStages();
          dbSaveStage := Stage(if Is(stage, LDAP_SAVING_COMPLETED) then Completed else InProgress,
                               if Is(stage, LDAP_SAVING_COMPLETED) then 100 else stagePercent);
        case AllCompleted =>
          uploadStage, parseStage, dbSaveStage := DONE, DONE, DONE;
          overallStatus := Finalized;
          isProcessing := false;
        case AllFailed =>
          overallStatus := Broken;
          isProcessing := false;
        case Other =>
      }
    }

    method FireTimer(i: nat)
      modifies this
      ensures State() == After(old(State()), TimerFires(i))
    {
      if i < |timers| {
        parseStage := timers[i];
        timers := timers[..i] + timers[i + 1..];
      }
    }

    method SyncStateFromDB(upload: UploadRecord)
      modifies this
      ensures State() == After(old(State()), Poll(upload))
    {
      if upload.status != Pending {
        uploadStage := DONE;
        parseStage := DONE;
      }
      var totalEntries := if upload.totalEntries == 0 then 1 else upload.totalEntries;
      if upload.status == Done || upload.hasCertificates {
        if upload.status == InWork {
          var pct := RoundQuotient(100 * upload.processedEntries, totalEntries);
          if pct > 99 {
            pct := 99;
          }
          dbSaveStage := Stage(InProgress, pct);
        } else {
          dbSaveStage := DONE;
        }
      }
      if upload.status == Done {
        overallStatus := Finalized;
        isProcessing := false;
      } else if upload.status == Aborted {
        overallStatus := Broken;
        isProcessing := false;
      }
    }
  }

  // ----- Overall status -----

  /** Finished means not processing; and `PROCESSING` itself is never seen, being overwritten at once. */
  predicate Settled(u: Ui) {
    u.overall != Processing && (u.overall == Finalized || u.overall == Broken ==> !u.isProcessing)
  }

  lemma {:induction false} AlwaysSettled(events: seq<Event>)
    ensures Settled(Run(INITIAL, events))
    decreases |events|
  {
    hide FamilyOf, GetStatus, CalculateStagePercentage, Is;
    if events != [] {
      AlwaysSettled(Front(events));
    }
  }

  // ----- The order of the stages -----

  /** A stage that has begun means that the stages before it are completed. */
  predicate Ordered(u: Ui) {
    && (u.db.status != Idle ==> u.upload.status == Completed && u.parse.status == Completed)
    && (u.parse.status != Idle ==> u.upload.status == Completed)
  }

  /** The events that put a stage behind one that has already begun. */
  predicate BreaksOrder(u: Ui, e: Event) {
    match e
    case Progress(stage, _) =>
      (match FamilyOf(stage)
       case Upload => GetStatus(stage) != Completed && u.parse.status != Idle
       case Parsing => (Is(stage, PARSING_COMPLETED) || GetStatus(stage) != Completed) && u.db.status != Idle
       case _ => false)
    case TimerFires(i) => i < |u.timers| && u.upload.status != Completed
    case Rejected(reason) => reason != Reuploadable && u.parse.status != Idle
    case Poll(r) => r.status == Pending && r.hasCertificates
                    && (u.upload.status != Completed || u.parse.status != Completed)
    case _ => false
  }

  predicate TimersComplete(u: Ui) {
    forall i :: 0 <= i < |u.timers| ==> u.timers[i] == DONE
  }

  lemma {:induction false} TimersAlwaysComplete(events: seq<Event>)
    ensures TimersComplete(Run(INITIAL, events))
    decreases |events|
  {
    if events != [] {
      TimersAlwaysComplete(Front(events));
      StepKeepsTimers(Run(INITIAL, Front(events)), Last(events));
    }
  }

  lemma ParsingCompletedIsCompleted()
    ensures forall stage :: Is(stage, PARSING_COMPLETED) ==> GetStatus(stage) == StageProgress.Status.Completed
  {
    var s := "PARSING_COMPLETED";
    assert s[7..] == "_COMPLETED";
    assert EndsWith(s, "_COMPLETED");
    assert s[|s| - 4] == 'E';
    assert !EndsWith(s, "_STARTED") by {
      assert s[|s| - 8..][0] == 'O';
    }
    assert !EndsWith(s, "_IN_PROGRESS") by {
      assert s[|s| - 12..][11] == 'D';
    }
  }

  lemma StepKeepsTimers(u: Ui, e: Event)
    requires TimersComplete(u)
    ensures TimersComplete(After(u, e))
  {
    hide FamilyOf, GetStatus, CalculateStagePercentage, Is;
    ParsingCompletedIsCompleted();
  }

  lemma ProgressKeepsOrderIff(u: Ui, stage: string, percentage: int)
    requires Ordered(u)
    ensures Ordered(OnProgress(u, stage, percentage)) <==> !BreaksOrder(u, Progress(stage, percentage))
  {
    hide FamilyOf, GetStatus, CalculateStagePercentage, Is;
  }

  /** Each event keeps the order of the stages exactly when it is not one of those. */
  lemma StepKeepsOrderIff(u: Ui, e: Event)
    requires Ordered(u) && TimersComplete(u)
    ensures Ordered(After(u, e)) <==> !BreaksOrder(u, e)
  {
    hide FamilyOf, GetStatus, CalculateStagePercentage, Is, OnProgress;
    if e.Progress? {
      ProgressKeepsOrderIff(u, e.stage, e.percentage);
    }
  }

  /** How far the processing has come when such an event happens; -1 if it does not say. */
  function Rank(e: Event): int {
    match e
    case Progress(stage, _) =>
      (match FamilyOf(stage)
       case Upload => 0
       case Parsing => 1
       case Validation | DbSaving | LdapSaving | AllCompleted => 2
       case _ => -1)
    case Poll(r) => if PollSetsDb(r) then 2 else if r.status != Pending then 1 else -1
    case _ => -1
  }

  function MaxRank(events: seq<Event>): int {
    if events == [] then -1
    else
      var m := MaxRank(Front(events));
      if Rank(Last(events)) > m then Rank(Last(events)) else m
  }

  /** A timer or a poll of a record that is as the server writes it: no certificates while it is pending. */
  predicate IsTimerOrPoll(e: Event) {
    e.TimerFires? || (e.Poll? && (e.record.status == Pending ==> !e.record.hasCertificates))
  }

  /** Messages that never go back to an earlier phase, with timers and polls, also late ones, in between. */
  ghost predicate IsForward(events: seq<Event>) {
    events == [] ||
    (var e := Last(events);
     && IsForward(Front(events))
     && (IsTimerOrPoll(e) || (e.Progress? && (Rank(e) == -1 || Rank(e) >= MaxRank(Front(events))))))
  }

  /** The state when the server has accepted an upload and no timer of an earlier one is pending. */
  predicate FreshUpload(u: Ui) {
    u.upload == DONE && u.parse.status == Idle && u.db.status == Idle && u.timers == []
  }

  ghost predicate InPhase(u: Ui, rank: int) {
    && Ordered(u) && TimersComplete(u)
    && (u.parse.status != Idle || u.timers != [] ==> rank >= 1)
    && (u.db.status != Idle ==> rank >= 2)
    && (rank >= 1 ==> u.upload.status == Completed)
  }

  lemma ForwardStep(u: Ui, e: Event, rank: int)
    requires InPhase(u, rank)
    requires IsTimerOrPoll(e) || (e.Progress? && (Rank(e) == -1 || Rank(e) >= rank))
    ensures InPhase(After(u, e), if Rank(e) > rank then Rank(e) else rank)
  {
    hide FamilyOf, GetStatus, CalculateStagePercentage, Is, TimersComplete;
    StepKeepsOrderIff(u, e);
    StepKeepsTimers(u, e);
    ParsingCompletedIsCompleted();
    if e.TimerFires? && e.i < |u.timers| {
      assert u.timers != [];
    }
  }

  /** Within one upload, the stages stay in order however timers and polls interleave with the messages. */
  lemma {:induction false} ForwardRunsStayOrdered(u: Ui, events: seq<Event>)
    requires FreshUpload(u) && IsForward(events)
    ensures Ordered(Run(u, events)) && InPhase(Run(u, events), MaxRank(events))
    decreases |events|
  {
    hide InPhase, FamilyOf;
    if events == [] {
      FreshIsInPhase(u);
    } else {
      ForwardRunsStayOrdered(u, Front(events));
      ForwardStep(Run(u, Front(events)), Last(events), MaxRank(Front(events)));
    }
    PhaseIsOrdered(Run(u, events), MaxRank(events));
  }

  lemma FreshIsInPhase(u: Ui)
    requires FreshUpload(u)
    ensures InPhase(u, -1)
  {
  }

  lemma PhaseIsOrdered(u: Ui, rank: int)
    requires InPhase(u, rank)
    ensures Ordered(u)
  {
  }

  // ----- The server's order for LDIF files -----

  /** The parse stage waits for its timer although everything else is completed. */
  predicate ParsingLags(u: Ui) {
    && u.upload == DONE && u.parse.status == InProgress && u.db == DONE
    && u.overall == Finalized && !u.isProcessing && u.timers != [] && TimersComplete(u)
  }

  /** The server reports the end of parsing last: that takes the parse stage of a completed upload back. */
  lemma LateParsingLags(u: Ui, percentage: int)
    requires AllDone(u) && TimersComplete(u)
    ensures var v := After(u, Progress("PARSING_COMPLETED", percentage));
      ParsingLags(v) && !Ordered(v) && !AllDone(v)
  {
    hide GetStatus, CalculateStagePercentage, FamilyOf;
    ParsingCompletedIsCompleted();
    ParsingIsParsing();
  }

  predicate CompletesParsing(u: Ui, e: Event) {
    match e
    case TimerFires(i) => i < |u.timers|
    case Poll(r) => r.status != Pending
    case _ => false
  }

  predicate ParsingCaughtUp(u: Ui, events: seq<Event>) {
    events != [] && (ParsingCaughtUp(u, Front(events)) || CompletesParsing(Run(u, Front(events)), Last(events)))
  }

  ghost predicate TimersAndPolls(events: seq<Event>) {
    forall i :: 0 <= i < |events| ==> IsTimerOrPoll(events[i])
  }

  /** Polls that find the record completed, as it is before the server sends those messages. */
  ghost predicate PollsFindItDone(events: seq<Event>) {
    forall i :: 0 <= i < |events| && events[i].Poll? ==> events[i].record.status == Done
  }

  /**
   * From there the stages are in order exactly from the moment a timer fires or a poll finds the
   * record no longer pending; with a completed record, everything is then completed again.
   */
  lemma OrderReturnsIffParsingCatchesUp(u: Ui, events: seq<Event>)
    requires ParsingLags(u) && TimersAndPolls(events)
    ensures Ordered(Run(u, events)) <==> ParsingCaughtUp(u, events)
    ensures PollsFindItDone(events) ==> (AllDone(Run(u, events)) <==> ParsingCaughtUp(u, events))
  {
    CatchUp(u, events);
  }

  predicate Catching(u: Ui, caughtUp: bool) {
    && u.upload == DONE && u.db.status != Idle && TimersComplete(u)
    && (if caughtUp then u.parse == DONE else u.parse.status == InProgress)
  }

  predicate OthersDone(u: Ui) {
    u.db == DONE && u.overall == Finalized && !u.isProcessing
  }

  lemma {:induction false} CatchUp(u: Ui, events: seq<Event>)
    requires ParsingLags(u) && TimersAndPolls(events)
    ensures Catching(Run(u, events), ParsingCaughtUp(u, events))
    ensures PollsFindItDone(events) ==> OthersDone(Run(u, events))
    decreases |events|
  {
    if events != [] {
      var init, e := Front(events), Last(events);
      assert forall i :: 0 <= i < |init| ==> init[i] == events[i];
      assert e == events[|events| - 1];
      CatchUp(u, init);
      CatchUpStep(Run(u, init), e, ParsingCaughtUp(u, init));
    }
  }

  lemma CatchUpStep(u: Ui, e: Event, caughtUp: bool)
    requires Catching(u, caughtUp) && IsTimerOrPoll(e)
    ensures Catching(After(u, e), caughtUp || CompletesParsing(u, e))
    ensures OthersDone(u) && (e.Poll? ==> e.record.status == Done) ==> OthersDone(After(u, e))
  {
    hide RoundQuotient;
  }

  /** The messages of a successful LDIF upload, as the server sends them. */
  const LDIF_UPLOAD := [SelectFile(true), StartUpload, Accepted, Progress("PARSING_IN_PROGRESS", 30),
                        Progress("VALIDATION_IN_PROGRESS", 99), Progress("VALIDATION_COMPLETED", 100),
                        Progress("COMPLETED", 100), Progress("PARSING_COMPLETED", 100)]

  /** A successful LDIF upload ends out of order, until its timer fires. */
  lemma LdifUploadEndsOutOfOrder()
    ensures var u := Run(INITIAL, LDIF_UPLOAD);
      ParsingLags(u) && !Ordered(u) && AllDone(After(u, TimerFires(0)))
  {
    hide Run;
    var init := LDIF_UPLOAD[..6];
    var u := Run(INITIAL, init);
    TimersAlwaysComplete(init + [Progress("COMPLETED", 100)]);
    RunStep(INITIAL, init, Progress("COMPLETED", 100));
    CompletionCompletesAll(u, 100);
    RunStep(INITIAL, init + [Progress("COMPLETED", 100)], Progress("PARSING_COMPLETED", 100));
    assert LDIF_UPLOAD == init + [Progress("COMPLETED", 100)] + [Progress("PARSING_COMPLETED", 100)];
    LateParsingLags(After(u, Progress("COMPLETED", 100)), 100);
    LaggingTimer(Run(INITIAL, LDIF_UPLOAD));
  }

  lemma LaggingTimer(u: Ui)
    requires ParsingLags(u)
    ensures AllDone(After(u, TimerFires(0)))
  {
  }

  /**
   * The stages of two uploads do get mixed up: the timer that an LDIF upload leaves behind completes
   * the parse stage of the next, if that is started before the timer fires.
   */
  lemma LeftoverTimerBreaksOrder()
    ensures
      var u := Run(INITIAL, LDIF_UPLOAD + [StartUpload]);
      Ordered(u) && u.upload == Stage(InProgress, 0) && u.isProcessing && !Ordered(After(u, TimerFires(0)))
  {
    LdifUploadEndsOutOfOrder();
    TimersAlwaysComplete(LDIF_UPLOAD);
    FileStaysSelected();
    RunStep(INITIAL, LDIF_UPLOAD, StartUpload);
    LaggingRestart(Run(INITIAL, LDIF_UPLOAD));
  }

  lemma LaggingRestart(u: Ui)
    requires ParsingLags(u) && u.fileSelected
    ensures var v := After(u, StartUpload);
      Ordered(v) && v.upload == Stage(InProgress, 0) && v.isProcessing && !Ordered(After(v, TimerFires(0)))
  {
  }

  lemma FileStaysSelected()
    ensures Run(INITIAL, LDIF_UPLOAD).fileSelected
  {
    hide Run;
    RunNothing(INITIAL);
    RunStep(INITIAL, [], SelectFile(true));
    assert [] + [SelectFile(true)] == [SelectFile(true)];
    SelectionStays([SelectFile(true)], LDIF_UPLOAD);
  }

  lemma {:induction false} SelectionStays(a: seq<Event>, b: seq<Event>)
    requires a <= b && Run(INITIAL, a).fileSelected
    ensures Run(INITIAL, b).fileSelected
    decreases |b|
  {
    if |a| < |b| {
      hide Run;
      SelectionStays(a, Front(b));
      RunStep(INITIAL, Front(b), Last(b));
      assert b == Front(b) + [Last(b)];
      StepKeepsSelection(Run(INITIAL, Front(b)), Last(b));
    } else {
      assert a == b;
    }
  }

  lemma StepKeepsSelection(u: Ui, e: Event)
    requires u.fileSelected
    ensures After(u, e).fileSelected
  {
    hide FamilyOf, GetStatus, CalculateStagePercentage, Is, RoundQuotient;
  }

  lemma RunNothing(u: Ui)
    ensures Run(u, []) == u
  {
  }

  lemma RunStep(u: Ui, events: seq<Event>, e: Event)
    ensures Run(u, events + [e]) == After(Run(u, events), e)
  {
    assert Front(events + [e]) == events;
  }

  lemma ParsingIsParsing()
    ensures FamilyOf("PARSING_COMPLETED") == Parsing
  {
    assert "PARSING_COMPLETED"[0] == 'P';
  }

  lemma CompletedIsAllCompleted()
    ensures FamilyOf("COMPLETED") == AllCompleted
  {
    assert "COMPLETED"[0] == 'C';
  }

  // ----- The end -----

  predicate AllDone(u: Ui) {
    u.upload == DONE && u.parse == DONE && u.db == DONE && u.overall == Finalized && !u.isProcessing
  }

  /** A completion message completes everything. */
  lemma CompletionCompletesAll(u: Ui, percentage: int)
    ensures AllDone(After(u, Progress("COMPLETED", percentage)))
  {
    CompletedIsAllCompleted();
  }

  /** The events that take a completed upload back. */
  predicate UndoesCompletion(u: Ui, e: Event) {
    match e
    case SelectFile(valid) => valid
    case StartUpload => u.fileSelected
    case Accepted => false
    case Rejected(_) => true
    case Progress(stage, percentage) =>
      var p := CalculateStagePercentage(stage, percentage);
      (match FamilyOf(stage)
       case Upload => GetStatus(stage) != Completed
       case Parsing => Is(stage, PARSING_COMPLETED) || GetStatus(stage) != Completed
       case Validation => Is(stage, VALIDATION_COMPLETED) || Stage(GetStatus(stage), p) != DONE
       case DbSaving => !Is(stage, DB_SAVING_COMPLETED)
       case LdapSaving => !Is(stage, LDAP_SAVING_COMPLETED)
       case AllCompleted => false
       case AllFailed => true
       case Other => false)
    case TimerFires(_) => false
    case Poll(r) => r.status == Aborted || (r.status == InWork && r.hasCertificates)
  }

  /** What completion message and timers completed stays so, except for exactly these events. */
  lemma CompletionUndoneIff(u: Ui, e: Event)
    requires AllDone(u) && TimersComplete(u)
    ensures AllDone(After(u, e)) <==> !UndoesCompletion(u, e)
  {
    hide FamilyOf, GetStatus, CalculateStagePercentage, Is, RoundQuotient;
  }

  /** None of the events undoes a completion at the moment it happens. */
  predicate NothingUndone(u: Ui, events: seq<Event>) {
    events == [] || (NothingUndone(u, Front(events)) && !UndoesCompletion(Run(u, Front(events)), Last(events)))
  }

  /** Everything is completed at the start and after each of the events. */
  predicate StaysDone(u: Ui, events: seq<Event>) {
    if events == [] then AllDone(u) else StaysDone(u, Front(events)) && AllDone(Run(u, events))
  }

  /** A completed upload stays completed throughout a run exactly as long as no such event happens. */
  lemma {:induction false} StaysDoneIffNothingUndone(u: Ui, events: seq<Event>)
    requires AllDone(u) && TimersComplete(u)
    ensures StaysDone(u, events) <==> NothingUndone(u, events)
    ensures TimersComplete(Run(u, events)) && (StaysDone(u, events) ==> AllDone(Run(u, events)))
    decreases |events|
  {
    hide AllDone, After, UndoesCompletion, TimersComplete;
    if events != [] {
      var init, e := Front(events), Last(events);
      StaysDoneIffNothingUndone(u, init);
      StepKeepsTimers(Run(u, init), e);
      if StaysDone(u, init) {
        CompletionUndoneIff(Run(u, init), e);
      }
    }
  }

  // ----- Percentages -----

  predicate InRange(s: Stage) {
    0 <= s.percentage <= 100
  }

  predicate AllInRange(u: Ui) {
    && InRange(u.upload) && InRange(u.parse) && InRange(u.db)
    && forall i :: 0 <= i < |u.timers| ==> InRange(u.timers[i])
  }

  ghost predicate OverallInRange(events: seq<Event>) {
    forall i :: 0 <= i < |events| && events[i].Progress? ==> 0 <= events[i].percentage <= 100
  }

  lemma ProgressKeepsRange(u: Ui, stage: string, percentage: int)
    requires AllInRange(u) && 0 <= percentage <= 100
    ensures AllInRange(OnProgress(u, stage, percentage))
  {
    hide FamilyOf, GetStatus, CalculateStagePercentage, Is;
    StagePercentageMonotone(stage, percentage, percentage);
  }

  lemma PollKeepsRange(u: Ui, r: UploadRecord)
    requires AllInRange(u)
    ensures AllInRange(OnPoll(u, r))
  {
    hide RoundQuotient;
    var total := if r.totalEntries == 0 then 1 else r.totalEntries;
    RoundMonotone(0, 100 * r.processedEntries, total);
    RoundZero(total);
  }

  lemma StepKeepsRange(u: Ui, e: Event)
    requires AllInRange(u)
    requires e.Progress? ==> 0 <= e.percentage <= 100
    ensures AllInRange(After(u, e))
  {
    hide OnProgress, OnPoll;
    if e.Progress? {
      ProgressKeepsRange(u, e.stage, e.percentage);
    } else if e.Poll? {
      PollKeepsRange(u, e.record);
    }
  }

  lemma RoundZero(total: int)
    requires total > 0
    ensures RoundQuotient(0, total) == 0
  {
    MultipleQuotient(0, 2 * total);
    QuotientBelow(total, 1, 2 * total);
  }

  /** Every percentage ever shown lies between 0 and 100 when those received do. */
  lemma {:induction false} PercentagesInRange(events: seq<Event>)
    requires OverallInRange(events)
    ensures AllInRange(Run(INITIAL, events))
    decreases |events|
  {
    hide AllInRange, After;
    if events == [] {
      InitialInRange();
    } else {
      var init := Front(events);
      assert forall i :: 0 <= i < |init| ==> init[i] == events[i];
      PercentagesInRange(init);
      StepKeepsRange(Run(INITIAL, init), Last(events));
    }
  }

  lemma InitialInRange()
    ensures AllInRange(INITIAL)
  {
  }
}
