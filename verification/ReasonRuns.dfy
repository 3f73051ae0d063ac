/**
 * The counts of validation reasons in the event log. They are compared with the previous message
 * only, so unlike errors they can be logged again after a late message; this says exactly when.
 */
module ReasonRuns {
  import opened Sequences
  import opened JsText
  import opened Delivery
  import opened ProgressServer
  import opened EventLog
  import opened LogRuns

  /** The counts shown for one reason. */
  function CountsShown(bodies: seq<Body>, key: string): seq<nat> {
    if bodies == [] then []
    else
      var b := Last(bodies);
      CountsShown(Front(bodies), key) + if b.Reason? && b.key == key then [b.count] else []
  }

  /** The counts of one reason in the messages since the last reset; 0 where a message lacks it. */
  function CountsReceived(steps: seq<Step>, key: string): seq<nat> {
    if steps == [] then []
    else match Last(steps)
      case Reset => []
      case Flush => CountsReceived(Front(steps), key)
      case Message(m) =>
        CountsReceived(Front(steps), key)
        + if HasReasons(m) then [PreviousCount(ReasonMap(m.statistics.value.validationReasons.value), key)] else []
  }

  predicate HasReasons(m: Progress) {
    m.statistics.Some? && m.statistics.value.validationReasons.Some?
  }

  /** A reason object has each key once. */
  predicate KeysOnce(reasons: seq<(string, nat)>) {
    forall i, j :: 0 <= i < j < |reasons| ==> reasons[i].0 != reasons[j].0
  }

  ghost predicate MessagesWellFormed(steps: seq<Step>) {
    forall i :: 0 <= i < |steps| && steps[i].Message? && HasReasons(steps[i].m) ==>
      KeysOnce(steps[i].m.statistics.value.validationReasons.value)
  }

  function Previous(cs: seq<nat>): nat {
    if cs == [] then 0 else Last(cs)
  }

  /** The counts that are higher than the one before. */
  function Rises(cs: seq<nat>): seq<nat> {
    if cs == [] then []
    else Rises(Front(cs)) + if Last(cs) > Previous(Front(cs)) then [Last(cs)] else []
  }

  lemma CountsSnoc(a: seq<Body>, x: Body, key: string)
    ensures CountsShown(a + [x], key) == CountsShown(a, key) + if x.Reason? && x.key == key then [x.count] else []
  {
    assert Front(a + [x]) == a;
  }

  lemma {:induction false} CountsConcat(a: seq<Body>, b: seq<Body>, key: string)
    ensures CountsShown(a + b, key) == CountsShown(a, key) + CountsShown(b, key)
    decreases |b|
  {
    if b == [] {
      assert a + b == a;
    } else {
      hide CountsShown;
      var init, x := Front(b), Last(b);
      assert b == init + [x] && a + b == a + init + [x];
      CountsConcat(a, init, key);
      CountsSnoc(a + init, x, key);
      CountsSnoc(init, x, key);
    }
  }

  lemma {:induction false} NoCounts(bodies: seq<Body>, key: string)
    requires forall i :: 0 <= i < |bodies| ==> !bodies[i].Reason?
    ensures CountsShown(bodies, key) == []
    decreases |bodies|
  {
    if bodies != [] {
      NoCounts(Front(bodies), key);
    }
  }

  lemma {:induction false} ItemsHaveNoReason(errors: seq<ProcessingError>, logs: seq<ValidationLog>)
    ensures forall i :: 0 <= i < |errors| ==> !ErrorItems(errors)[i].Reason?
    ensures forall i :: 0 <= i < |logs| ==> !LogItems(logs)[i].Reason?
    decreases |errors| + |logs|
  {
    if errors != [] {
      ItemsHaveNoReason(Front(errors), logs);
    } else if logs != [] {
      ItemsHaveNoReason(errors, Front(logs));
    }
  }

  lemma {:induction false} AbsentKey(reasons: seq<(string, nat)>, prev: map<string, nat>, key: string)
    requires forall i :: 0 <= i < |reasons| ==> reasons[i].0 != key
    ensures CountsShown(ReasonItems(prev, reasons), key) == [] && key !in ReasonMap(reasons)
    decreases |reasons|
  {
    if reasons != [] {
      AbsentKey(Front(reasons), prev, key);
      SnocReason(prev, reasons, key);
    }
  }

  lemma SnocReason(prev: map<string, nat>, reasons: seq<(string, nat)>, key: string)
    requires reasons != []
    ensures var (k, n) := Last(reasons);
      CountsShown(ReasonItems(prev, reasons), key) == CountsShown(ReasonItems(prev, Front(reasons)), key)
        + if k == key && !IsSuccess(k) && n > PreviousCount(prev, k) then [n] else []
  {
    var (k, n) := Last(reasons);
    var items := ReasonItems(prev, Front(reasons));
    CountsConcat(items, [Reason(k, n)], key);
    assert Front([Reason(k, n)]) == [];
    assert CountsShown([], key) == [];
    assert items + [] == items;
  }

  /** A message logs the count of a reason exactly when it is higher than in the message before. */
  lemma {:induction false} ReasonLoggedOnRise(prev: map<string, nat>, reasons: seq<(string, nat)>, key: string)
    requires KeysOnce(reasons) && !IsSuccess(key)
    ensures var n := PreviousCount(ReasonMap(reasons), key);
      CountsShown(ReasonItems(prev, reasons), key) == if n > PreviousCount(prev, key) then [n] else []
    decreases |reasons|
  {
    hide IsSuccess;
    if reasons != [] {
      SnocReason(prev, reasons, key);
      if Last(reasons).0 == key {
        AbsentKey(Front(reasons), prev, key);
      } else {
        ReasonLoggedOnRise(prev, Front(reasons), key);
      }
    }
  }

  lemma CountsOfMessage(c: Counters, m: Progress, key: string)
    requires HasReasons(m) ==> KeysOnce(m.statistics.value.validationReasons.value)
    requires !IsSuccess(key)
    ensures CountsShown(NewBodies(c, m), key) ==
      if HasReasons(m) then
        var n := PreviousCount(ReasonMap(m.statistics.value.validationReasons.value), key);
        if n > PreviousCount(c.reasons, key) then [n] else []
      else []
  {
    hide CountsShown, IsSuccess, NewMilestone, MilestoneOf, Take, ReasonMap, ReasonItems;
    NoCounts(StageBodies(c, m), key);
    if m.statistics.Some? {
      var s := m.statistics.value;
      var e, d, r, l := ErrorBodies(c.errors, s), DuplicateBodies(c.duplicates, s),
                        ReasonBodies(c.reasons, s), LogBodies(c.logs, s);
      CountsConcat(StageBodies(c, m), e + d + r + l, key);
      CountsConcat(e + d + r, l, key);
      CountsConcat(e + d, r, key);
      CountsConcat(e, d, key);
      NoErrorCounts(c, s, key);
      if HasReasons(m) {
        ReasonLoggedOnRise(c.reasons, s.validationReasons.value, key);
      } else {
        NoCounts(r, key);
      }
    } else {
      assert NewBodies(c, m) == StageBodies(c, m);
    }
  }

  lemma NoErrorCounts(c: Counters, s: Statistics, key: string)
    ensures CountsShown(ErrorBodies(c.errors, s), key) == []
    ensures CountsShown(DuplicateBodies(c.duplicates, s), key) == []
    ensures CountsShown(LogBodies(c.logs, s), key) == []
  {
    hide Take;
    var errors := if s.recentErrors.Some?
                  then Take(s.recentErrors.value, GetOr(s.totalErrorCount, 0), c.errors) else [];
    var logs := if s.recentValidationLogs.Some?
                then Take(s.recentValidationLogs.value, GetOr(s.totalValidationLogCount, 0), c.logs) else [];
    ItemsHaveNoReason(errors, logs);
    NoCounts(ErrorBodies(c.errors, s), key);
    NoCounts(DuplicateBodies(c.duplicates, s), key);
    NoCounts(LogBodies(c.logs, s), key);
  }

  /** Over any run, the log shows the rises of the received counts. */
  lemma {:induction false} ReasonsShowRises(steps: seq<Step>, key: string)
    requires MessagesWellFormed(steps) && !IsSuccess(key)
    ensures CountsShown(View(Run(steps)), key) == Rises(CountsReceived(steps, key))
    ensures PreviousCount(Run(steps).last.reasons, key) == Previous(CountsReceived(steps, key))
    decreases |steps|
  {
    hide View, NewBodies, OnFlush, IsSuccess, ReasonMap, KeysOnce;
    assert CountsShown([], key) == [];
    if steps == [] {
      StartShowsNothing();
    } else {
      var s := Run(Front(steps));
      assert forall i :: 0 <= i < |Front(steps)| ==> Front(steps)[i] == steps[i];
      ReasonsShowRises(Front(steps), key);
      ViewOfStep(s, Last(steps));
      match Last(steps) {
        case Message(m) =>
          assert steps[|steps| - 1] == Message(m);
          CountsConcat(View(s), NewBodies(s.last, m), key);
          CountsOfMessage(s.last, m, key);
          if HasReasons(m) {
            RisesSnoc(CountsReceived(Front(steps), key),
                      PreviousCount(ReasonMap(m.statistics.value.validationReasons.value), key));
          } else {
            RisesSnoc(CountsReceived(Front(steps), key), 0);
          }
        case Reset =>
        case Flush =>
          FlushKeepsCounters(s);
      }
    }
  }

  lemma RisesSnoc(cs: seq<nat>, n: nat)
    ensures Rises(cs + [n]) == Rises(cs) + if n > Previous(cs) then [n] else []
    ensures cs + [] == cs && Rises(cs) + [] == Rises(cs)
  {
    assert Front(cs + [n]) == cs;
  }

  lemma {:induction false} SuccessItems(prev: map<string, nat>, reasons: seq<(string, nat)>, key: string)
    requires IsSuccess(key)
    ensures CountsShown(ReasonItems(prev, reasons), key) == []
    decreases |reasons|
  {
    if reasons == [] {
      assert CountsShown([], key) == [];
    } else {
      hide CountsShown, IsSuccess;
      SuccessItems(prev, Front(reasons), key);
      SnocReason(prev, reasons, key);
    }
  }

  lemma SuccessesOfMessage(c: Counters, m: Progress, key: string)
    requires IsSuccess(key)
    ensures CountsShown(NewBodies(c, m), key) == []
  {
    hide CountsShown, IsSuccess, NewMilestone, MilestoneOf, Take, ReasonItems;
    NoCounts(StageBodies(c, m), key);
    if m.statistics.Some? {
      var s := m.statistics.value;
      var e, d, r, l := ErrorBodies(c.errors, s), DuplicateBodies(c.duplicates, s),
                        ReasonBodies(c.reasons, s), LogBodies(c.logs, s);
      CountsConcat(StageBodies(c, m), e + d + r + l, key);
      CountsConcat(e + d + r, l, key);
      CountsConcat(e + d, r, key);
      CountsConcat(e, d, key);
      NoErrorCounts(c, s, key);
      if HasReasons(m) {
        SuccessItems(c.reasons, s.validationReasons.value, key);
      } else {
        NoCounts(r, key);
      }
    } else {
      assert NewBodies(c, m) == StageBodies(c, m);
    }
  }

  /** The reasons whose names begin with `VALID` are never shown. */
  lemma {:induction false} SuccessesAreNotShown(steps: seq<Step>, key: string)
    requires |key| >= 5 && key[..5] == "VALID"
    ensures CountsShown(View(Run(steps)), key) == []
    decreases |steps|
  {
    assert IsSuccess(key);
    assert CountsShown([], key) == [];
    hide View, NewBodies, OnFlush, CountsShown, IsSuccess;
    if steps == [] {
      StartShowsNothing();
    } else {
      var s := Run(Front(steps));
      SuccessesAreNotShown(Front(steps), key);
      ViewOfStep(s, Last(steps));
      if Last(steps).Message? {
        CountsConcat(View(s), NewBodies(s.last, Last(steps).m), key);
        SuccessesOfMessage(s.last, Last(steps).m, key);
      }
    }
  }

  // ----- When a count is logged twice -----

  ghost predicate StrictlyIncreasing(s: seq<nat>) {
    forall i, j :: 0 <= i < j < |s| ==> s[i] < s[j]
  }

  /** Whenever a count rises, it rises above all earlier counts. */
  ghost predicate RisesAreRecords(cs: seq<nat>) {
    forall i :: 0 <= i < |cs| && cs[i] > Previous(cs[..i]) ==> forall j :: 0 <= j < i ==> cs[j] < cs[i]
  }

  lemma {:induction false} RisesAreCounts(cs: seq<nat>, x: nat)
    requires x in Rises(cs)
    ensures x in cs
    decreases |cs|
  {
    if !(x in Rises(Front(cs))) {
      assert x == Last(cs);
    } else {
      RisesAreCounts(Front(cs), x);
    }
  }

  /** Every count is reached by some rise up to it. */
  lemma {:induction false} RiseAbove(cs: seq<nat>, j: nat) returns (x: nat)
    requires j < |cs| && cs[j] > 0
    ensures x in Rises(cs) && x >= cs[j]
    decreases |cs|
  {
    var init := Front(cs);
    if j < |init| {
      x := RiseAbove(init, j);
    } else if Last(cs) > Previous(init) {
      x := Last(cs);
    } else {
      x := RiseAbove(init, |init| - 1);
    }
  }

  lemma AboveRisesMeansAboveAll(cs: seq<nat>, n: nat)
    requires n > 0
    ensures (forall x :: x in Rises(cs) ==> x < n) <==> (forall j :: 0 <= j < |cs| ==> cs[j] < n)
  {
    hide Rises;
    if forall x :: x in Rises(cs) ==> x < n {
      forall j | 0 <= j < |cs|
        ensures cs[j] < n
      {
        if cs[j] > 0 {
          var x := RiseAbove(cs, j);
        }
      }
    }
    if forall j :: 0 <= j < |cs| ==> cs[j] < n {
      forall x | x in Rises(cs)
        ensures x < n
      {
        RisesAreCounts(cs, x);
      }
    }
  }

  lemma {:induction false} RisesIncreaseIffRecords(cs: seq<nat>)
    ensures StrictlyIncreasing(Rises(cs)) <==> RisesAreRecords(cs)
    decreases |cs|
  {
    if cs != [] {
      hide StrictlyIncreasing, RisesAreRecords;
      var init, n := Front(cs), Last(cs);
      assert cs == init + [n];
      RisesIncreaseIffRecords(init);
      RecordsSnoc(init, n);
      RisesSnoc(init, n);
      if n > Previous(init) {
        IncreasingSnoc(Rises(init), n);
        AboveRisesMeansAboveAll(init, n);
      }
    }
  }

  lemma RecordsSnoc(cs: seq<nat>, n: nat)
    ensures RisesAreRecords(cs + [n]) <==>
      RisesAreRecords(cs) && (n > Previous(cs) ==> forall j :: 0 <= j < |cs| ==> cs[j] < n)
  {
    var ds := cs + [n];
    assert ds[..|cs|] == cs;
    assert forall i :: 0 <= i < |cs| ==> ds[..i] == cs[..i] && ds[i] == cs[i];
    assert ds[|cs|] == n;
  }

  lemma IncreasingSnoc(s: seq<nat>, n: nat)
    ensures StrictlyIncreasing(s + [n]) <==> StrictlyIncreasing(s) && forall x :: x in s ==> x < n
  {
    var t := s + [n];
    assert t[|s|] == n;
    assert forall i :: 0 <= i < |s| ==> t[i] == s[i];
    if StrictlyIncreasing(t) {
      assert forall i :: 0 <= i < |s| ==> t[i] < t[|s|];
    }
    if StrictlyIncreasing(s) && forall x :: x in s ==> x < n {
      forall i, j | 0 <= i < j < |t|
        ensures t[i] < t[j]
      {
        assert s[i] in s;
      }
    }
  }

  /**
   * The counts shown for a reason are strictly increasing, so that none is shown twice, exactly
   * when every rise in the received counts is a new maximum.
   */
  lemma ReasonsIncreaseIff(steps: seq<Step>, key: string)
    requires MessagesWellFormed(steps) && !IsSuccess(key)
    ensures StrictlyIncreasing(CountsShown(View(Run(steps)), key)) <==> RisesAreRecords(CountsReceived(steps, key))
  {
    ReasonsShowRises(steps, key);
    RisesIncreaseIffRecords(CountsReceived(steps, key));
  }

  /** A message that carries nothing but the count of one reason. */
  function ReasonMessage(key: string, count: nat): Progress {
    Progress("VALIDATION_IN_PROGRESS", 60, 0, 0, "",
             Some(Statistics(None, None, None, Some([(key, count)]), None, None)))
  }

  lemma ReceivedSnoc(steps: seq<Step>, key: string, count: nat)
    ensures CountsReceived(steps + [Message(ReasonMessage(key, count))], key) == CountsReceived(steps, key) + [count]
  {
    var reasons := [(key, count)];
    assert Front(steps + [Message(ReasonMessage(key, count))]) == steps;
    assert ReasonMap(reasons) == map[key := count] by {
      assert Front(reasons) == [];
    }
  }

  /** A count of 5, then a late message with 3, then 5 again. */
  function LateRun(key: string): seq<Step> {
    [Message(ReasonMessage(key, 5)), Message(ReasonMessage(key, 3)), Message(ReasonMessage(key, 5))]
  }

  lemma LateRunReceives(key: string)
    ensures CountsReceived(LateRun(key), key) == [5, 3, 5]
  {
    hide CountsReceived, ReasonMessage;
    var x, y := Message(ReasonMessage(key, 5)), Message(ReasonMessage(key, 3));
    assert [x] == [] + [x] && [x, y] == [x] + [y] && LateRun(key) == [x, y] + [x];
    NothingReceived(key);
    ReceivedSnoc([], key, 5);
    ReceivedSnoc([x], key, 3);
    ReceivedSnoc([x, y], key, 5);
  }

  lemma LateRunIsWellFormed(key: string)
    ensures MessagesWellFormed(LateRun(key))
  {
    forall i | 0 <= i < 3
      ensures KeysOnce(LateRun(key)[i].m.statistics.value.validationReasons.value)
    {
    }
  }

  /** One late message is enough to show a count twice. */
  lemma LateMessageRepeatsReason(key: string)
    requires !IsSuccess(key)
    ensures MessagesWellFormed(LateRun(key)) && CountsShown(View(Run(LateRun(key))), key) == [5, 5]
  {
    hide Run, View, IsSuccess, CountsReceived, LateRun, Rises, CountsShown, MessagesWellFormed;
    LateRunIsWellFormed(key);
    LateRunReceives(key);
    RisesOfLateCounts();
    ReasonsShowRises(LateRun(key), key);
  }

  lemma NothingReceived(key: string)
    ensures CountsReceived([], key) == []
  {
  }

  lemma RisesOfLateCounts()
    ensures Rises([5, 3, 5]) == [5, 5]
  {
    hide Rises;
    var a, b, c := [5], [5, 3], [5, 3, 5];
    assert a == [] + [5] && b == a + [3] && c == b + [5];
    RisesSnoc([], 5);
    RisesSnoc(a, 3);
    RisesSnoc(b, 5);
    NoRises();
  }

  lemma NoRises()
    ensures Rises([]) == []
  {
  }
}
