/**
 * What each message of the server, each poll and each request does to the upload page, stated on the
 * server's stages and on the numbers, without the page's rules for reading stage names.
 */
module StageEffects {
  import opened Sequences
  import opened JsText
  import opened StageProgress
  import opened UploadStages

  // ----- How the page reads the server's stage names -----

  function FamilyOfStage(stage: ProcessingStage): Family {
    match stage
    case UPLOAD_COMPLETED => Upload
    case PARSING_STARTED | PARSING_IN_PROGRESS | PARSING_COMPLETED => Parsing
    case DB_SAVING_STARTED | DB_SAVING_IN_PROGRESS | DB_SAVING_COMPLETED => DbSaving
    case LDAP_SAVING_STARTED | LDAP_SAVING_IN_PROGRESS | LDAP_SAVING_COMPLETED => LdapSaving
    case COMPLETED => AllCompleted
    case FAILED => AllFailed
    case _ => Validation
  }

  lemma FamilyByPrefix(s: string)
    ensures StartsWith(s, "UPLOAD") ==> FamilyOf(s) == Upload
    ensures StartsWith(s, "PARSING") ==> FamilyOf(s) == Parsing
    ensures StartsWith(s, "VALIDATION") ==> FamilyOf(s) == Validation
    ensures StartsWith(s, "DB_SAVING") ==> FamilyOf(s) == DbSaving
    ensures StartsWith(s, "LDAP_SAVING") ==> FamilyOf(s) == LdapSaving
  {
    assert StartsWith(s, "PARSING") ==> s[0] == 'P';
    assert StartsWith(s, "VALIDATION") ==> s[0] == 'V';
    assert StartsWith(s, "DB_SAVING") ==> s[0] == 'D';
    assert StartsWith(s, "LDAP_SAVING") ==> s[0] == 'L';
  }

  lemma ReadsFamily(stage: ProcessingStage)
    ensures FamilyOf(StageToString(stage)) == FamilyOfStage(stage)
  {
    var s := StageToString(stage);
    FamilyByPrefix(s);
    FinalNames(s);
    hide FamilyOf, StartsWith;
    match FamilyOfStage(stage) {
      case Upload => Beginning(s, "UPLOAD");
      case Parsing => Beginning(s, "PARSING");
      case Validation => ValidationName(stage);
      case DbSaving => Beginning(s, "DB_SAVING");
      case LdapSaving => Beginning(s, "LDAP_SAVING");
      case _ =>
    }
  }

  lemma ValidationName(stage: ProcessingStage)
    requires FamilyOfStage(stage) == Validation
    ensures StartsWith(StageToString(stage), "VALIDATION")
  {
    hide StartsWith;
    Beginning(StageToString(stage), "VALIDATION");
  }

  /** Only these two names end the processing. */
  lemma FinalNames(s: string)
    ensures FamilyOf(s) == AllCompleted <==> s == "COMPLETED"
    ensures FamilyOf(s) == AllFailed <==> s == "FAILED"
  {
    assert s == "COMPLETED" ==> s[0] == 'C';
    assert s == "FAILED" ==> s[0] == 'F';
  }

  lemma StatusByEnding(s: string)
    ensures EndsWith(s, "_STARTED") || EndsWith(s, "_IN_PROGRESS") ==> GetStatus(s) == InProgress
    ensures EndsWith(s, "_COMPLETED") || s == "COMPLETED" ==> GetStatus(s) == StageProgress.Status.Completed
  {
    hide EndsWith;
    if EndsWith(s, "_COMPLETED") || s == "COMPLETED" {
      CompletedLetters(s);
      OtherLetters(s);
    }
  }

  lemma CompletedLetters(s: string)
    requires EndsWith(s, "_COMPLETED") || s == "COMPLETED"
    ensures |s| >= 4 && s[|s| - 4] == 'E' && s[|s| - 1] == 'D'
  {
    if EndsWith(s, "_COMPLETED") {
      assert s[|s| - 10..][6] == 'E' && s[|s| - 10..][9] == 'D';
    }
  }

  lemma OtherLetters(s: string)
    ensures EndsWith(s, "_STARTED") ==> |s| >= 4 && s[|s| - 4] == 'R'
    ensures EndsWith(s, "_IN_PROGRESS") ==> s != "" && s[|s| - 1] == 'S'
  {
    if EndsWith(s, "_STARTED") {
      assert s[|s| - 8..][4] == 'R';
    }
    if EndsWith(s, "_IN_PROGRESS") {
      assert s[|s| - 12..][11] == 'S';
    }
  }

  /** Stages that have begun, and those that are over, are read as such. */
  lemma ReadsStatus(stage: ProcessingStage)
    ensures IsStarted(stage) || IsInProgress(stage) ==> GetStatus(StageToString(stage)) == InProgress
    ensures IsCompleted(stage) ==> GetStatus(StageToString(stage)) == StageProgress.Status.Completed
    ensures IsUnreported(stage) ==> GetStatus(StageToString(stage)) == Idle
  {
    hide GetStatus, EndsWith, StageToString;
    if IsStarted(stage) {
      StartedEnding(stage);
      StatusByEnding(StageToString(stage));
    } else if IsInProgress(stage) {
      InProgressEnding(stage);
      StatusByEnding(StageToString(stage));
    } else if IsCompleted(stage) {
      CompletedEnding(stage);
      StatusByEnding(StageToString(stage));
    } else {
      IdleIffUnreported(stage);
    }
  }

  /** A name tells its stage apart from the others of the same family with another status. */
  lemma NameTellsStage(stage: ProcessingStage, other: ProcessingStage)
    requires IsCompleted(other) && FamilyOfStage(stage) == FamilyOfStage(other)
    ensures Is(StageToString(stage), other) <==> stage == other
  {
    hide StageToString, GetStatus, FamilyOf;
    ReadsStatus(stage);
    ReadsStatus(other);
  }

  // ----- Messages -----

  /**
   * `r` is `p` on a bar that runs from `lo` to `lo + width`, as a percentage: 0 below it, 100 above,
   * and the nearest number in between, halves upwards.
   */
  ghost predicate IsScaled(r: int, p: int, lo: int, width: int) {
    && (p <= lo ==> r == 0)
    && (p >= lo + width ==> r == 100)
    && (lo < p < lo + width ==>
      0 <= r <= 100 && 200 * (p - lo) - width < 2 * width * r <= 200 * (p - lo) + width)
  }

  lemma ClampScales(p: int, lo: int, width: int)
    requires width == 40 || width == 39 || width == 13
    ensures IsScaled(Clamp(RoundQuotient((p - lo) * 100, width)), p, lo, width)
  {
  }

  /** A stage that a later one implies: completed, and unchanged if it was already. */
  function Implied(s: Stage): Stage {
    if s.status == StageProgress.Status.Completed then s else Stage(StageProgress.Status.Completed, 100)
  }

  /** Upload and parsing are implied, and the database stage is the only other thing that changes. */
  ghost predicate OnlyDb(u: Ui, v: Ui) {
    v == u.(upload := Implied(u.upload), parse := Implied(u.parse), db := v.db)
  }

  ghost predicate Effect(u: Ui, stage: ProcessingStage, p: int, v: Ui) {
    match stage
    case UPLOAD_COMPLETED => v == u.(upload := Stage(StageProgress.Status.Completed, 100))
    case PARSING_STARTED | PARSING_IN_PROGRESS =>
      && v == u.(upload := Implied(u.upload), parse := v.parse)
      && v.parse.status == InProgress && IsScaled(v.parse.percentage, p, 10, 40)
    case PARSING_COMPLETED =>
      v == u.(upload := Implied(u.upload), parse := Stage(InProgress, 100),
              timers := u.timers + [Stage(StageProgress.Status.Completed, 100)])
    case VALIDATION_STARTED | VALIDATION_IN_PROGRESS | VALIDATION_COMPLETED =>
      OnlyDb(u, v) && v.db.status == InProgress && IsScaled(v.db.percentage, p, 60, 39)
    case DB_SAVING_STARTED | DB_SAVING_IN_PROGRESS =>
      OnlyDb(u, v) && v.db.status == InProgress && IsScaled(v.db.percentage, p, 72, 13)
    case LDAP_SAVING_STARTED | LDAP_SAVING_IN_PROGRESS =>
      OnlyDb(u, v) && v.db.status == InProgress && IsScaled(v.db.percentage, p, 87, 13)
    case DB_SAVING_COMPLETED | LDAP_SAVING_COMPLETED =>
      OnlyDb(u, v) && v.db == Stage(StageProgress.Status.Completed, 100)
    case COMPLETED =>
      var done := Stage(StageProgress.Status.Completed, 100);
      v == u.(upload := done, parse := done, db := done, overall := Finalized, isProcessing := false)
    case FAILED => v == u.(overall := Broken, isProcessing := false)
    case _ => OnlyDb(u, v) && v.db.status == Idle && IsScaled(v.db.percentage, p, 60, 39)
  }

  lemma BarOf(stage: ProcessingStage, p: int)
    ensures var r := CalculateStagePercentage(StageToString(stage), p);
      match FamilyOfStage(stage)
      case Parsing => IsScaled(r, p, 10, 40)
      case Validation => IsScaled(r, p, 60, 39)
      case DbSaving => IsScaled(r, p, 72, 13)
      case LdapSaving => IsScaled(r, p, 87, 13)
      case _ => r == p
  {
    hide FamilyOf, StageToString, IsScaled, RoundQuotient, Clamp;
    ReadsFamily(stage);
    ClampScales(p, 10, 40);
    ClampScales(p, 60, 39);
    ClampScales(p, 72, 13);
    ClampScales(p, 87, 13);
  }

  /** What a message of the server does, stage by stage. */
  lemma StageEffect(u: Ui, stage: ProcessingStage, p: int)
    ensures Effect(u, stage, p, After(u, Progress(StageToString(stage), p)))
  {
    hide FamilyOf, GetStatus, CalculateStagePercentage, StageToString, IsScaled, Is;
    ReadsFamily(stage);
    ReadsStatus(stage);
    BarOf(stage, p);
    if FamilyOfStage(stage) == Parsing {
      NameTellsStage(stage, PARSING_COMPLETED);
    } else if FamilyOfStage(stage) == Validation {
      NameTellsStage(stage, VALIDATION_COMPLETED);
    } else if FamilyOfStage(stage) == DbSaving {
      NameTellsStage(stage, DB_SAVING_COMPLETED);
    } else if FamilyOfStage(stage) == LdapSaving {
      NameTellsStage(stage, LDAP_SAVING_COMPLETED);
    }
  }

  /** The name the server sends for a stage it does not know changes nothing. */
  lemma UnknownStageIsIgnored(u: Ui, p: int)
    ensures After(u, Progress("UNKNOWN", p)) == u
  {
    var s := "UNKNOWN";
    assert s[0] == 'U' && s[1] == 'N';
    assert !StartsWith(s, "UPLOAD");
  }

  // ----- Polls, requests and timers -----

  /** What a poll finds decides what is shown, whatever was shown before. */
  lemma PollEffect(u: Ui, r: UploadRecord)
    ensures var v, done := After(u, Poll(r)), Stage(StageProgress.Status.Completed, 100);
      && v.fileSelected == u.fileSelected && v.timers == u.timers
      && (if r.status == Pending then v.upload == u.upload && v.parse == u.parse
          else v.upload == done && v.parse == done)
      && (if r.status == InWork && r.hasCertificates then v.db.status == InProgress && IsShare(v.db.percentage, r)
          else if r.status == Done || r.hasCertificates then v.db == done
          else v.db == u.db)
      && (if r.status == Done then v.overall == Finalized && !v.isProcessing
          else if r.status == Aborted then v.overall == Broken && !v.isProcessing
          else v.overall == u.overall && v.isProcessing == u.isProcessing)
  {
    hide RoundQuotient;
    PollShare(r);
  }

  /** The processed part of the entries in percent, to the nearest number, but never 100. */
  ghost predicate IsShare(p: int, r: UploadRecord) {
    var total := if r.totalEntries == 0 then 1 else r.totalEntries;
    exists q: int {:trigger IsNearest(q, r.processedEntries, total)} ::
      IsNearest(q, r.processedEntries, total) && p == if q >= 99 then 99 else q
  }

  predicate IsNearest(q: int, processed: int, total: int) {
    200 * processed - total < 2 * total * q <= 200 * processed + total
  }

  lemma PollShare(r: UploadRecord)
    ensures IsShare(PollPercentage(r), r)
  {
    var total := if r.totalEntries == 0 then 1 else r.totalEntries;
    assert IsNearest(RoundQuotient(100 * r.processedEntries, total), r.processedEntries, total);
  }

  /** Choosing a file, sending it, and the replies. */
  lemma RequestEffect(u: Ui, e: Event)
    ensures
      var v, idle, done := After(u, e), Stage(Idle, 0), Stage(StageProgress.Status.Completed, 100);
      match e
      case SelectFile(true) =>
        v == u.(upload := idle, parse := idle, db := idle, overall := NotStarted, fileSelected := true)
      case SelectFile(false) => v == u
      case StartUpload =>
        if u.fileSelected && !u.isProcessing
        then v == u.(upload := Stage(InProgress, 0), parse := idle, db := idle, overall := NotStarted,
                     isProcessing := true)
        else v == u
      case Accepted => v == u.(upload := done)
      case Rejected(Reuploadable) => v == u.(isProcessing := false, overall := NotStarted)
      case Rejected(_) => v == u.(upload := Stage(Failed, 0), overall := Broken, isProcessing := false)
      case _ => true
  {
  }

  // ----- Runs -----

  /** The messages, polls and replies that end the processing. */
  predicate Ends(e: Event) {
    match e
    case Rejected(_) => true
    case Progress(stage, _) => stage == "COMPLETED" || stage == "FAILED"
    case Poll(r) => r.status == Done || r.status == Aborted
    case _ => false
  }

  predicate Selected(events: seq<Event>) {
    exists j :: 0 <= j < |events| && events[j] == SelectFile(true)
  }

  /** An upload was started, with a file selected before, and nothing has ended the processing since. */
  ghost predicate Running(events: seq<Event>) {
    exists i {:trigger events[i]} ::
      0 <= i < |events| && events[i] == StartUpload && Selected(events[..i])
      && forall k :: i < k < |events| ==> !Ends(events[k])
  }

  lemma SelectedSnoc(events: seq<Event>, e: Event)
    ensures Selected(events + [e]) <==> Selected(events) || e == SelectFile(true)
  {
    var all := events + [e];
    assert all[|events|] == e;
    assert forall j :: 0 <= j < |events| ==> all[j] == events[j];
  }

  lemma RunningSnoc(events: seq<Event>, e: Event)
    ensures Running(events + [e]) <==>
      (e == StartUpload && Selected(events)) || (Running(events) && !Ends(e))
  {
    var all := events + [e];
    assert all[|events|] == e && all[..|events|] == events;
    if Running(events) && !Ends(e) {
      var i :| 0 <= i < |events| && events[i] == StartUpload && Selected(events[..i])
               && forall k :: i < k < |events| ==> !Ends(events[k]);
      assert all[i] == StartUpload && all[..i] == events[..i];
    }
    if Running(all) {
      var i :| 0 <= i < |all| && all[i] == StartUpload && Selected(all[..i])
               && forall k :: i < k < |all| ==> !Ends(all[k]);
      if i < |events| {
        assert events[i] == StartUpload && events[..i] == all[..i];
        assert forall k :: i < k < |events| ==> events[k] == all[k];
        assert !Ends(all[|events|]);
      }
    }
  }

  lemma ProcessingStep(u: Ui, e: Event)
    ensures After(u, e).fileSelected <==> u.fileSelected || e == SelectFile(true)
    ensures After(u, e).isProcessing <==> (e == StartUpload && u.fileSelected) || (u.isProcessing && !Ends(e))
  {
    hide FamilyOf, GetStatus, CalculateStagePercentage, Is, RoundQuotient;
    if e.Progress? {
      FinalNames(e.stage);
    }
  }

  /** In every run the page is processing exactly from an effective start until the next such end. */
  lemma {:induction false} ProcessingIffRunning(events: seq<Event>)
    ensures Run(INITIAL, events).isProcessing <==> Running(events)
    ensures Run(INITIAL, events).fileSelected <==> Selected(events)
    decreases |events|
  {
    hide After, Ends;
    if events != [] {
      hide Running, Selected;
      var init, e := Front(events), Last(events);
      assert events == init + [e];
      ProcessingIffRunning(init);
      ProcessingStep(Run(INITIAL, init), e);
      RunningSnoc(init, e);
      SelectedSnoc(init, e);
    }
  }

  /** How many timers were started, and how many have fired. */
  function TimersStarted(events: seq<Event>): nat {
    if events == [] then 0
    else
      var e := Last(events);
      TimersStarted(Front(events)) + if e.Progress? && e.stage == "PARSING_COMPLETED" then 1 else 0
  }

  function TimersFired(events: seq<Event>): nat {
    if events == [] then 0
    else
      var e := Last(events);
      TimersFired(Front(events))
      + if e.TimerFires? && e.i < |Run(INITIAL, Front(events)).timers| then 1 else 0
  }

  /** Every end of parsing starts one timer, and a timer fires once. */
  lemma {:induction false} EveryTimerFiresOnce(events: seq<Event>)
    ensures |Run(INITIAL, events).timers| == TimersStarted(events) - TimersFired(events)
    decreases |events|
  {
    if events != [] {
      hide After;
      EveryTimerFiresOnce(Front(events));
      TimerStep(Run(INITIAL, Front(events)), Last(events));
    }
  }

  lemma TimerStep(u: Ui, e: Event)
    ensures |After(u, e).timers| == |u.timers|
      + (if e.Progress? && e.stage == "PARSING_COMPLETED" then 1 else 0)
      - (if e.TimerFires? && e.i < |u.timers| then 1 else 0)
  {
    hide FamilyOf, GetStatus, CalculateStagePercentage, RoundQuotient;
    ParsingIsParsing();
  }

  /** A timer that fires sets the parse stage to completed and nothing else. */
  lemma TimerEffect(u: Ui, i: nat)
    requires TimersComplete(u) && i < |u.timers|
    ensures var v := After(u, TimerFires(i));
      v == u.(parse := Stage(StageProgress.Status.Completed, 100), timers := v.timers)
  {
  }
}
