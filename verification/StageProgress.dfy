/**
 * Stage names, their families, and the percentages: the server maps its counters to an overall
 * percentage, the page maps that back to a percentage of the stage.
 */
module StageProgress {
  import opened JsText

  datatype Status = Idle | InProgress | Completed | Failed

  function GetStatus(stage: string): Status {
    if EndsWith(stage, "_STARTED") || EndsWith(stage, "_IN_PROGRESS") then InProgress
    else if EndsWith(stage, "_COMPLETED") || stage == "COMPLETED" then Completed
    else if stage == "FAILED" then Failed
    else Idle
  }

  /** Which of the page's stages a message is about. */
  datatype Family = Upload | Parsing | Validation | DbSaving | LdapSaving | AllCompleted | AllFailed | Other

  function FamilyOf(stage: string): Family {
    if StartsWith(stage, "UPLOAD") then Upload
    else if StartsWith(stage, "PARSING") then Parsing
    else if StartsWith(stage, "VALIDATION") then Validation
    else if StartsWith(stage, "DB_SAVING") then DbSaving
    else if StartsWith(stage, "LDAP_SAVING") then LdapSaving
    else if stage == "COMPLETED" then AllCompleted
    else if stage == "FAILED" then AllFailed
    else Other
  }

  // ----- Rounding -----

  /** `Math.round(n / d)`: the nearest integer, halves upwards. */
  function RoundQuotient(n: int, d: int): (r: int)
    requires d > 0
    ensures 2 * n - d < 2 * d * r <= 2 * n + d
  {
    (2 * n + d) / (2 * d)
  }

  lemma Product(x: int, d: int)
    requires x >= 0 && d >= 0
    ensures x * d >= 0
  {
  }

  lemma MultiplesApart(x: int, y: int, d: int)
    requires d > 0 && x > y
    ensures x * d >= y * d + d
  {
    Product(x - y - 1, d);
    assert (x - y - 1) * d == x * d - y * d - d;
  }

  lemma QuotientMonotone(a: int, b: int, d: int)
    requires d > 0 && a <= b
    ensures a / d <= b / d
  {
    var x, y := a / d, b / d;
    assert a == x * d + a % d && b == y * d + b % d;
    if x > y {
      MultiplesApart(x, y, d);
    }
  }

  lemma RoundMonotone(m: int, n: int, d: int)
    requires d > 0 && m <= n
    ensures RoundQuotient(m, d) <= RoundQuotient(n, d)
  {
    QuotientMonotone(2 * m + d, 2 * n + d, 2 * d);
  }

  function Clamp(x: int): int {
    if x < 0 then 0 else if x > 100 then 100 else x
  }

  // ----- The page's mapping -----

  function CalculateStagePercentage(stage: string, overall: int): int {
    match FamilyOf(stage)
    case Parsing => Clamp(RoundQuotient((overall - 10) * 100, 40))
    case Validation => Clamp(RoundQuotient((overall - 60) * 100, 39))
    case DbSaving => Clamp(RoundQuotient((overall - 72) * 100, 13))
    case LdapSaving => Clamp(RoundQuotient((overall - 87) * 100, 13))
    case _ => overall
  }

  /** The stage percentage never runs backwards while the overall percentage grows, and stays in range. */
  lemma StagePercentageMonotone(stage: string, p: int, q: int)
    requires p <= q
    ensures CalculateStagePercentage(stage, p) <= CalculateStagePercentage(stage, q)
    ensures FamilyOf(stage) in {Parsing, Validation, DbSaving, LdapSaving} || 0 <= p <= 100 ==>
      0 <= CalculateStagePercentage(stage, p) <= 100
  {
    hide FamilyOf, RoundQuotient;
    RoundMonotone((p - 10) * 100, (q - 10) * 100, 40);
    RoundMonotone((p - 60) * 100, (q - 60) * 100, 39);
    RoundMonotone((p - 72) * 100, (q - 72) * 100, 13);
    RoundMonotone((p - 87) * 100, (q - 87) * 100, 13);
  }

  // ----- The server's mapping -----

  datatype ProcessingStage =
    | UPLOAD_COMPLETED
    | PARSING_STARTED | PARSING_IN_PROGRESS | PARSING_COMPLETED
    | VALIDATION_STARTED | VALIDATION_EXTRACTING_METADATA | VALIDATION_VERIFYING_SIGNATURE
    | VALIDATION_CHECKING_TRUST_CHAIN | VALIDATION_CHECKING_CRL | VALIDATION_CHECKING_ICAO_COMPLIANCE
    | VALIDATION_IN_PROGRESS | VALIDATION_COMPLETED
    | DB_SAVING_STARTED | DB_SAVING_IN_PROGRESS | DB_SAVING_COMPLETED
    | LDAP_SAVING_STARTED | LDAP_SAVING_IN_PROGRESS | LDAP_SAVING_COMPLETED
    | COMPLETED | FAILED

  function StageToBasePercentage(stage: ProcessingStage): int {
    match stage
    case UPLOAD_COMPLETED => 5
    case PARSING_STARTED => 10
    case PARSING_IN_PROGRESS => 30
    case PARSING_COMPLETED => 50
    case VALIDATION_STARTED => 52
    case VALIDATION_EXTRACTING_METADATA => 54
    case VALIDATION_VERIFYING_SIGNATURE => 58
    case VALIDATION_CHECKING_TRUST_CHAIN => 62
    case VALIDATION_CHECKING_CRL => 66
    case VALIDATION_CHECKING_ICAO_COMPLIANCE => 68
    case VALIDATION_IN_PROGRESS => 60
    case VALIDATION_COMPLETED => 70
    case DB_SAVING_STARTED => 72
    case DB_SAVING_IN_PROGRESS => 78
    case DB_SAVING_COMPLETED => 85
    case LDAP_SAVING_STARTED => 87
    case LDAP_SAVING_IN_PROGRESS => 93
    case LDAP_SAVING_COMPLETED => 100
    case COMPLETED => 100
    case FAILED => 0
  }

  function NextPercent(stage: ProcessingStage): int {
    match stage
    case PARSING_IN_PROGRESS => 50
    case VALIDATION_IN_PROGRESS => 99
    case DB_SAVING_IN_PROGRESS => 85
    case _ => 100
  }

  /** `ProcessingProgress::create`: the counters scale within the stage's range. */
  function OverallPercentage(stage: ProcessingStage, processed: int, total: int): int {
    var base := StageToBasePercentage(stage);
    if total > 0 && processed > 0 then base + (NextPercent(stage) - base) * processed / total else base
  }

  lemma MultipleQuotient(x: int, d: int)
    requires d > 0
    ensures x * d / d == x
  {
    var q := x * d / d;
    assert x * d == q * d + x * d % d;
    if x > q {
      MultiplesApart(x, q, d);
    } else if q > x {
      MultiplesApart(q, x, d);
    }
  }

  lemma ScaleMonotone(range: int, a: int, b: int)
    requires 0 <= range && a <= b
    ensures range * a <= range * b
    ensures range > 0 && a < b ==> range * a < range * b
  {
    Product(b - a, range);
    assert range * (b - a) == range * b - range * a;
    if range > 0 && a < b {
      MultiplesApart(b, a, range);
    }
  }

  lemma ScaledQuotient(range: int, processed: int, total: int)
    requires 0 <= range && 0 < processed && 0 < total
    ensures 0 <= range * processed / total
    ensures processed <= total ==> range * processed / total <= range
    ensures processed >= total ==> range * processed / total >= range
    ensures processed < total && range > 0 ==> range * processed / total < range
  {
    Product(range, processed);
    QuotientMonotone(0, range * processed, total);
    MultipleQuotient(range, total);
    if processed <= total {
      ScaleMonotone(range, processed, total);
      QuotientMonotone(range * processed, range * total, total);
      if processed < total && range > 0 {
        QuotientBelow(range * processed, range, total);
      }
    }
    if processed >= total {
      ScaleMonotone(range, total, processed);
      QuotientMonotone(range * total, range * processed, total);
    }
  }

  lemma QuotientBelow(a: int, x: int, d: int)
    requires d > 0 && a < x * d
    ensures a / d < x
  {
    var q := a / d;
    assert a == q * d + a % d;
    if q > x {
      MultiplesApart(q, x, d);
    }
  }

  /** While the server counts from nothing to everything, the overall percentage crosses the stage's range. */
  lemma OverallPercentageCrossesRange(stage: ProcessingStage, p: int, q: int, total: int)
    requires 0 <= p <= q <= total
    ensures StageToBasePercentage(stage) <= OverallPercentage(stage, p, total)
      <= OverallPercentage(stage, q, total) <= NextPercent(stage)
    ensures total > 0 ==> OverallPercentage(stage, total, total) == NextPercent(stage)
  {
    var range := NextPercent(stage) - StageToBasePercentage(stage);
    if p > 0 {
      ScaledQuotient(range, p, total);
      assert range * p <= range * q;
      QuotientMonotone(range * p, range * q, total);
    }
    if total > 0 {
      ScaledQuotient(range, total, total);
      if q > 0 {
        ScaledQuotient(range, q, total);
      }
    }
  }

  /** The server's percentage at the start and at the end of each stage. */
  lemma OverallAtEnds(stage: ProcessingStage, total: int)
    requires total > 0
    ensures (OverallPercentage(stage, 0, total), OverallPercentage(stage, total, total)) ==
      match stage
      case UPLOAD_COMPLETED => (5, 100)
      case PARSING_STARTED => (10, 100)
      case PARSING_IN_PROGRESS => (30, 50)
      case PARSING_COMPLETED => (50, 100)
      case VALIDATION_STARTED => (52, 100)
      case VALIDATION_EXTRACTING_METADATA => (54, 100)
      case VALIDATION_VERIFYING_SIGNATURE => (58, 100)
      case VALIDATION_CHECKING_TRUST_CHAIN => (62, 100)
      case VALIDATION_CHECKING_CRL => (66, 100)
      case VALIDATION_CHECKING_ICAO_COMPLIANCE => (68, 100)
      case VALIDATION_IN_PROGRESS => (60, 99)
      case VALIDATION_COMPLETED => (70, 100)
      case DB_SAVING_STARTED => (72, 100)
      case DB_SAVING_IN_PROGRESS => (78, 85)
      case DB_SAVING_COMPLETED => (85, 100)
      case LDAP_SAVING_STARTED => (87, 100)
      case LDAP_SAVING_IN_PROGRESS => (93, 100)
      case LDAP_SAVING_COMPLETED => (100, 100)
      case COMPLETED => (100, 100)
      case FAILED => (0, 100)
  {
    hide OverallPercentage;
    StartOfStage(stage, total);
    OverallPercentageCrossesRange(stage, 0, total, total);
  }

  lemma StartOfStage(stage: ProcessingStage, total: int)
    ensures OverallPercentage(stage, 0, total) == StageToBasePercentage(stage)
  {
  }

  /** In between, the percentage is the exact share of the range, rounded down. */
  lemma OverallIsShare(stage: ProcessingStage, processed: int, total: int)
    requires total > 0 && processed > 0
    ensures var lo, hi := StageToBasePercentage(stage), NextPercent(stage);
      var r := OverallPercentage(stage, processed, total);
      (r - lo) * total <= (hi - lo) * processed < (r - lo) * total + total
  {
    hide StageToBasePercentage, NextPercent;
    var n := (NextPercent(stage) - StageToBasePercentage(stage)) * processed;
    assert n == n / total * total + n % total;
  }

  /**
   * The two mappings composed, for the stage the server uses for a whole LDIF file: the bar shows
   * 100 exactly when everything is processed, and never runs backwards.
   */
  lemma ValidationBar(p: nat, q: nat, total: nat)
    requires p <= q && total > 0
    ensures var shown := (n: nat) =>
        CalculateStagePercentage("VALIDATION_IN_PROGRESS", OverallPercentage(VALIDATION_IN_PROGRESS, n, total));
      && 0 <= shown(p) <= shown(q) <= 100
      && shown(0) == 0
      && (shown(p) == 100 <==> p >= total)
  {
    assert FamilyOf("VALIDATION_IN_PROGRESS") == Validation by {
      assert "VALIDATION_IN_PROGRESS"[0] == 'V';
    }
    var a := OverallPercentage(VALIDATION_IN_PROGRESS, p, total);
    var b := OverallPercentage(VALIDATION_IN_PROGRESS, q, total);
    if p > 0 {
      assert 39 * p <= 39 * q;
      QuotientMonotone(39 * p, 39 * q, total);
      ScaledQuotient(39, p, total);
    } else if q > 0 {
      ScaledQuotient(39, q, total);
    }
    StagePercentageMonotone("VALIDATION_IN_PROGRESS", a, b);
    StagePercentageMonotone("VALIDATION_IN_PROGRESS", b, b);
  }

  // ----- The names on the wire -----

  function StageToString(stage: ProcessingStage): string {
    match stage
    case UPLOAD_COMPLETED => "UPLOAD_COMPLETED"
    case PARSING_STARTED => "PARSING_STARTED"
    case PARSING_IN_PROGRESS => "PARSING_IN_PROGRESS"
    case PARSING_COMPLETED => "PARSING_COMPLETED"
    case VALIDATION_STARTED => "VALIDATION_STARTED"
    case VALIDATION_EXTRACTING_METADATA => "VALIDATION_EXTRACTING_METADATA"
    case VALIDATION_VERIFYING_SIGNATURE => "VALIDATION_VERIFYING_SIGNATURE"
    case VALIDATION_CHECKING_TRUST_CHAIN => "VALIDATION_CHECKING_TRUST_CHAIN"
    case VALIDATION_CHECKING_CRL => "VALIDATION_CHECKING_CRL"
    case VALIDATION_CHECKING_ICAO_COMPLIANCE => "VALIDATION_CHECKING_ICAO_COMPLIANCE"
    case VALIDATION_IN_PROGRESS => "VALIDATION_IN_PROGRESS"
    case VALIDATION_COMPLETED => "VALIDATION_COMPLETED"
    case DB_SAVING_STARTED => "DB_SAVING_STARTED"
    case DB_SAVING_IN_PROGRESS => "DB_SAVING_IN_PROGRESS"
    case DB_SAVING_COMPLETED => "DB_SAVING_COMPLETED"
    case LDAP_SAVING_STARTED => "LDAP_SAVING_STARTED"
    case LDAP_SAVING_IN_PROGRESS => "LDAP_SAVING_IN_PROGRESS"
    case LDAP_SAVING_COMPLETED => "LDAP_SAVING_COMPLETED"
    case COMPLETED => "COMPLETED"
    case FAILED => "FAILED"
  }

  /** The stages of a single certificate's validation, which are declared but never reported. */
  predicate IsUnreported(stage: ProcessingStage) {
    || stage.VALIDATION_EXTRACTING_METADATA? || stage.VALIDATION_VERIFYING_SIGNATURE?
    || stage.VALIDATION_CHECKING_TRUST_CHAIN? || stage.VALIDATION_CHECKING_CRL?
    || stage.VALIDATION_CHECKING_ICAO_COMPLIANCE?
  }

  lemma ValidationPrefix(s: string)
    requires StartsWith(s, "VALIDATION")
    ensures FamilyOf(s) == Validation
  {
    assert s[0] == 'V';
  }

  lemma NoKnownEnding(s: string)
    requires s != "" && s[|s| - 1] != 'D' && s[|s| - 1] != 'S'
    ensures GetStatus(s) == Idle
  {
  }

  lemma KnownEnding(s: string)
    requires EndsWith(s, "_STARTED") || EndsWith(s, "_IN_PROGRESS") || EndsWith(s, "_COMPLETED")
      || s == "COMPLETED" || s == "FAILED"
    ensures GetStatus(s) != Idle
  {
  }

  lemma Beginning(s: string, prefix: string)
    requires |prefix| <= |s| && forall i :: 0 <= i < |prefix| ==> s[i] == prefix[i]
    ensures StartsWith(s, prefix)
  {
    assert s[..|prefix|] == prefix;
  }

  lemma UnreportedName(stage: ProcessingStage)
    requires IsUnreported(stage)
    ensures var s := StageToString(stage);
      StartsWith(s, "VALIDATION") && s != "" && s[|s| - 1] != 'D' && s[|s| - 1] != 'S'
  {
    hide StartsWith;
    Beginning(StageToString(stage), "VALIDATION");
  }

  /** The page takes every stage name the server declares for one that has begun, but for the unreported ones. */
  lemma IdleIffUnreported(stage: ProcessingStage)
    ensures GetStatus(StageToString(stage)) == Idle <==> IsUnreported(stage)
    ensures IsUnreported(stage) ==> FamilyOf(StageToString(stage)) == Validation
  {
    hide GetStatus, FamilyOf, StageToString;
    var s := StageToString(stage);
    if IsUnreported(stage) {
      UnreportedName(stage);
      ValidationPrefix(s);
      NoKnownEnding(s);
    } else {
      StageEnding(stage);
      KnownEnding(s);
    }
  }

  predicate IsStarted(stage: ProcessingStage) {
    stage.PARSING_STARTED? || stage.VALIDATION_STARTED? || stage.DB_SAVING_STARTED? || stage.LDAP_SAVING_STARTED?
  }

  predicate IsInProgress(stage: ProcessingStage) {
    || stage.PARSING_IN_PROGRESS? || stage.VALIDATION_IN_PROGRESS? || stage.DB_SAVING_IN_PROGRESS?
    || stage.LDAP_SAVING_IN_PROGRESS?
  }

  predicate IsCompleted(stage: ProcessingStage) {
    || stage.UPLOAD_COMPLETED? || stage.PARSING_COMPLETED? || stage.VALIDATION_COMPLETED?
    || stage.DB_SAVING_COMPLETED? || stage.LDAP_SAVING_COMPLETED?
  }

  lemma Ending(s: string, suffix: string)
    requires |suffix| <= |s| && forall i :: 0 <= i < |suffix| ==> s[|s| - |suffix| + i] == suffix[i]
    ensures EndsWith(s, suffix)
  {
  }

  lemma StartedEnding(stage: ProcessingStage)
    requires IsStarted(stage)
    ensures EndsWith(StageToString(stage), "_STARTED")
  {
    hide EndsWith;
    var s := StageToString(stage);
    match stage {
      case PARSING_STARTED => Ending(s, "_STARTED");
      case VALIDATION_STARTED => Ending(s, "_STARTED");
      case DB_SAVING_STARTED => Ending(s, "_STARTED");
      case LDAP_SAVING_STARTED => Ending(s, "_STARTED");
    }
  }

  lemma InProgressEnding(stage: ProcessingStage)
    requires IsInProgress(stage)
    ensures EndsWith(StageToString(stage), "_IN_PROGRESS")
  {
    hide EndsWith;
    var s := StageToString(stage);
    match stage {
      case PARSING_IN_PROGRESS => Ending(s, "_IN_PROGRESS");
      case VALIDATION_IN_PROGRESS => Ending(s, "_IN_PROGRESS");
      case DB_SAVING_IN_PROGRESS => Ending(s, "_IN_PROGRESS");
      case LDAP_SAVING_IN_PROGRESS => Ending(s, "_IN_PROGRESS");
    }
  }

  lemma CompletedEnding(stage: ProcessingStage)
    requires IsCompleted(stage)
    ensures EndsWith(StageToString(stage), "_COMPLETED")
  {
    hide EndsWith;
    var s := StageToString(stage);
    match stage {
      case UPLOAD_COMPLETED => Ending(s, "_COMPLETED");
      case PARSING_COMPLETED => Ending(s, "_COMPLETED");
      case VALIDATION_COMPLETED => Ending(s, "_COMPLETED");
      case DB_SAVING_COMPLETED => Ending(s, "_COMPLETED");
      case LDAP_SAVING_COMPLETED => Ending(s, "_COMPLETED");
    }
  }

  lemma StageEnding(stage: ProcessingStage)
    requires !IsUnreported(stage)
    ensures var s := StageToString(stage);
      || EndsWith(s, "_STARTED") || EndsWith(s, "_IN_PROGRESS") || EndsWith(s, "_COMPLETED")
      || s == "COMPLETED" || s == "FAILED"
  {
    hide EndsWith;
    if IsStarted(stage) {
      StartedEnding(stage);
    } else if IsInProgress(stage) {
      InProgressEnding(stage);
    } else if IsCompleted(stage) {
      CompletedEnding(stage);
    }
  }
}
