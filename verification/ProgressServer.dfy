/**
 * The statistics the server collects while it processes an upload, and the messages that carry them.
 */
module ProgressServer {
  import opened Sequences
  import opened JsText
  import opened Delivery

  datatype ProcessingError = ProcessingError(
    errorType: string, entryDn: string, certificateDn: string, countryCode: string, certificateType: string,
    message: string)

  datatype ValidationLog = ValidationLog(
    certificateType: string, countryCode: string, subjectDn: string, issuerDn: string, validationStatus: string,
    trustChainMessage: string, trustChainPath: string, errorCode: string, fingerprintSha256: string)

  /** The part of the statistics that the event log reads; absent fields are `None`. */
  datatype Statistics = Statistics(
    recentErrors: Option<seq<ProcessingError>>, totalErrorCount: Option<int>,
    duplicateCount: Option<int>, validationReasons: Option<seq<(string, nat)>>,
    recentValidationLogs: Option<seq<ValidationLog>>, totalValidationLogCount: Option<int>)

  datatype Progress = Progress(
    stage: string, percentage: int, processedCount: int, totalCount: int, errorMessage: string,
    statistics: Option<Statistics>)

  const MAX_RECENT_ERRORS: nat := 100
  const MAX_RECENT_VALIDATION_LOGS: nat := 200

  datatype ErrorClass = ParseError | DbSaveError | LdapSaveError

  /** Anything but a database or directory failure counts as a parse error. */
  function ClassOf(errorType: string): ErrorClass {
    if errorType == "DB_SAVE_FAILED" || errorType == "ML_CERT_SAVE_FAILED" then DbSaveError
    else if errorType == "LDAP_SAVE_FAILED" || errorType == "ML_LDAP_SAVE_FAILED" then LdapSaveError
    else ParseError
  }

  /** The class of every error type the server uses, and of any other. */
  lemma ClassesOfTypes(errorType: string)
    ensures ClassOf(errorType) == DbSaveError <==> errorType in {"DB_SAVE_FAILED", "ML_CERT_SAVE_FAILED"}
    ensures ClassOf(errorType) == LdapSaveError <==> errorType in {"LDAP_SAVE_FAILED", "ML_LDAP_SAVE_FAILED"}
    ensures ClassOf("BASE64_DECODE_FAILED") == ClassOf("CERT_PARSE_FAILED") == ClassOf("CRL_PARSE_FAILED")
      == ClassOf("ML_PARSE_FAILED") == ClassOf("ML_CERT_PARSE_FAILED") == ClassOf("ENTRY_PROCESSING_EXCEPTION")
      == ParseError
  {
    assert "DB_SAVE_FAILED"[0] == 'D' && "ML_CERT_SAVE_FAILED"[3] == 'C';
    assert "LDAP_SAVE_FAILED"[0] == 'L' && "ML_LDAP_SAVE_FAILED"[3] == 'L';
    assert "ML_CERT_PARSE_FAILED"[8] == 'P' && "ML_CERT_SAVE_FAILED"[8] == 'S';
    assert "ML_PARSE_FAILED"[3] == 'P';
  }

  /** The errors of one class in the history. */
  function CountClass(h: seq<ProcessingError>, c: ErrorClass): nat {
    if h == [] then 0 else CountClass(Front(h), c) + (if ClassOf(Last(h).errorType) == c then 1 else 0)
  }

  function HasClass(c: ErrorClass): ProcessingError -> bool {
    (e: ProcessingError) => ClassOf(e.errorType) == c
  }

  /** The counter of a class is the number of the errors that belong to it. */
  lemma {:induction false} CountIsNumber(h: seq<ProcessingError>, c: ErrorClass) returns (own: seq<ProcessingError>)
    ensures IsFiltered(h, HasClass(c), own) && CountClass(h, c) == |own|
    decreases |h|
  {
    hide IsFiltered, ClassOf;
    if h == [] {
      own := [];
      NothingIsFiltered(HasClass(c));
    } else {
      var init, e := Front(h), Last(h);
      var before := CountIsNumber(init, c);
      own := before + if HasClass(c)(e) then [e] else [];
      FilteredSnoc(init, e, HasClass(c), before);
      assert h == init + [e];
    }
  }

  lemma {:induction false} ClassesPartition(h: seq<ProcessingError>)
    ensures CountClass(h, ParseError) + CountClass(h, DbSaveError) + CountClass(h, LdapSaveError) == |h|
    decreases |h|
  {
    if h != [] {
      ClassesPartition(Front(h));
    }
  }

  lemma CountSnoc(h: seq<ProcessingError>, e: ProcessingError, c: ErrorClass)
    ensures CountClass(h + [e], c) == CountClass(h, c) + if ClassOf(e.errorType) == c then 1 else 0
  {
    hide ClassOf;
    assert Front(h + [e]) == h;
  }

  class ValidationStatistics {
    var totalErrorCount: nat
    var parseErrorCount: nat
    var dbSaveErrorCount: nat
    var ldapSaveErrorCount: nat
    var recentErrors: seq<ProcessingError>
    var totalValidationLogCount: nat
    var recentValidationLogs: seq<ValidationLog>
    /** Everything ever recorded. */
    ghost var errors: seq<ProcessingError>
    ghost var logs: seq<ValidationLog>

    ghost predicate Valid()
      reads this
    {
      && totalErrorCount == |errors| && recentErrors == Recent(errors, MAX_RECENT_ERRORS)
      && totalValidationLogCount == |logs| && recentValidationLogs == Recent(logs, MAX_RECENT_VALIDATION_LOGS)
      && parseErrorCount == CountClass(errors, ParseError)
      && dbSaveErrorCount == CountClass(errors, DbSaveError)
      && ldapSaveErrorCount == CountClass(errors, LdapSaveError)
      && totalErrorCount == parseErrorCount + dbSaveErrorCount + ldapSaveErrorCount
    }

    constructor ()
      ensures Valid() && errors == [] && logs == []
    {
      totalErrorCount, parseErrorCount, dbSaveErrorCount, ldapSaveErrorCount := 0, 0, 0, 0;
      recentErrors, totalValidationLogCount, recentValidationLogs := [], 0, [];
      errors, logs := [], [];
    }

    method AddProcessingError(error: ProcessingError)
      requires Valid()
      modifies this
      ensures Valid()
      ensures errors == old(errors) + [error] && logs == old(logs)
    {
      hide ClassOf, CountClass;
      totalErrorCount := totalErrorCount + 1;
      match ClassOf(error.errorType) {
        case ParseError => parseErrorCount := parseErrorCount + 1;
        case DbSaveError => dbSaveErrorCount := dbSaveErrorCount + 1;
        case LdapSaveError => ldapSaveErrorCount := ldapSaveErrorCount + 1;
      }
      if |recentErrors| >= MAX_RECENT_ERRORS {
        recentErrors := recentErrors[1..];
      }
      recentErrors := recentErrors + [error];
      CountSnoc(errors, error, ParseError);
      CountSnoc(errors, error, DbSaveError);
      CountSnoc(errors, error, LdapSaveError);
      errors := errors + [error];
    }

    method AddValidationLog(entry: ValidationLog)
      requires Valid()
      modifies this
      ensures Valid()
      ensures logs == old(logs) + [entry] && errors == old(errors)
    {
      totalValidationLogCount := totalValidationLogCount + 1;
      if |recentValidationLogs| >= MAX_RECENT_VALIDATION_LOGS {
        recentValidationLogs := recentValidationLogs[1..];
      }
      recentValidationLogs := recentValidationLogs + [entry];
      logs := logs + [entry];
    }

    /** The statistics as sent: both windows and both totals describe the histories of this moment. */
    method ToJson(duplicateCount: nat, validationReasons: seq<(string, nat)>) returns (s: Statistics)
      requires Valid()
      ensures SentWith(s, errors, logs, |errors|, |logs|)
      ensures s.recentErrors == Some(if |errors| <= 100 then errors else errors[|errors| - 100..])
      ensures s.recentValidationLogs == Some(if |logs| <= 200 then logs else logs[|logs| - 200..])
      ensures s.duplicateCount == Some(duplicateCount) && s.validationReasons == Some(validationReasons)
    {
      s := Statistics(Some(recentErrors), Some(totalErrorCount), Some(duplicateCount), Some(validationReasons),
                      Some(recentValidationLogs), Some(totalValidationLogCount));
    }
  }

  /** The statistics describe the first `n` errors and the first `k` logs. */
  ghost predicate SentWith(s: Statistics, errors: seq<ProcessingError>, logs: seq<ValidationLog>, n: int, k: int) {
    && s.recentErrors.Some? && s.totalErrorCount == Some(n)
    && IsSnapshot(errors, MAX_RECENT_ERRORS, s.recentErrors.value, n)
    && s.recentValidationLogs.Some? && s.totalValidationLogCount == Some(k)
    && IsSnapshot(logs, MAX_RECENT_VALIDATION_LOGS, s.recentValidationLogs.value, k)
  }
}
