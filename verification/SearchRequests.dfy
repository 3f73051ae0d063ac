/**
 * Searching certificates: each search aborts the one before it, and replies arrive in any order.
 */
module SearchRequests {
  import opened Sequences
  import opened JsText

  /** What a successful reply carries; the statistics may be missing. */
  datatype Results = Results(certificates: seq<string>, total: int, stats: Option<int>)

  datatype Outcome =
    | Found(results: Results)
    | Refused(message: string)
    | Broke(message: string)
    | Canceled

  /** What the page shows, and which controller its abort reference holds. */
  datatype Page = Page(current: Option<nat>, loading: bool, error: Option<string>,
                       certificates: seq<string>, total: int, stats: Option<int>)

  /** A settled request that changed what is shown, and whether it was the newest at that time. */
  datatype Commit = Commit(id: nat, outcome: Outcome, newest: bool)

  /** The page, the number of requests issued, those still pending, those aborted, and the commits so far. */
  datatype System = System(page: Page, issued: nat, pending: set<nat>, aborted: set<nat>, log: seq<Commit>)

  datatype Event = Search | Settle(id: nat, outcome: Outcome)

  const INITIAL := System(Page(None, false, None, [], 0, None), 0, {}, {}, [])

  // ----- The steps, as functions of the state -----

  function OnSearch(s: System): System {
    System(s.page.(current := Some(s.issued), loading := true, error := None),
           s.issued + 1,
           s.pending + {s.issued},
           if s.page.current.Some? then s.aborted + {s.page.current.value} else s.aborted,
           s.log)
  }

  function Show(p: Page, outcome: Outcome): Page {
    match outcome
    case Found(r) =>
      p.(certificates := r.certificates, total := r.total, stats := if r.stats.Some? then r.stats else p.stats)
    case Refused(message) => p.(error := Some(if message != "" then message else "Search failed"))
    case Broke(message) => p.(error := Some(message))
    case Canceled => p
  }

  function OnSettle(s: System, id: nat, outcome: Outcome): System {
    var shown := Show(s.page, outcome);
    System(if s.page.current == Some(id) then shown.(loading := false) else shown,
           s.issued,
           s.pending - {id},
           s.aborted,
           if outcome == Canceled then s.log else s.log + [Commit(id, outcome, id + 1 == s.issued)])
  }

  function After(s: System, e: Event): System {
    match e
    case Search => OnSearch(s)
    case Settle(id, outcome) => OnSettle(s, id, outcome)
  }

  function Run(events: seq<Event>): System {
    if events == [] then INITIAL else After(Run(Front(events)), Last(events))
  }

  // ----- The component -----

  class SearchPage {
    var searchAbortRef: Option<nat>
    var loading: bool
    var error: Option<string>
    var certificates: seq<string>
    var total: int
    var apiStats: Option<int>
    /** The controllers created, those whose request is pending, those aborted. */
    var issued: nat
    ghost var pending: set<nat>
    var aborted: set<nat>
    ghost var log: seq<Commit>

    ghost function State(): System
      reads this
    {
      System(Page(searchAbortRef, loading, error, certificates, total, apiStats), issued, pending, aborted, log)
    }

    constructor ()
      ensures State() == INITIAL
    {
      searchAbortRef, loading, error, certificates, total, apiStats := None, false, None, [], 0, None;
      issued, pending, aborted, log := 0, {}, {}, [];
    }

    /** `searchCertificates` up to the request. */
    method StartSearch() returns (abortController: nat)
      modifies this
      ensures State() == After(old(State()), Search)
      ensures abortController == old(issued)
    {
      if searchAbortRef.Some? {
        aborted := aborted + {searchAbortRef.value};
      }
      abortController := issued;
      issued := issued + 1;
      searchAbortRef := Some(abortController);
      loading := true;
      error := None;
      pending := pending + {abortController};
    }

    /** `searchCertificates` after the request, with its `catch` and `finally`. */
    method FinishSearch(abortController: nat, outcome: Outcome)
      modifies this
      ensures State() == After(old(State()), Settle(abortController, outcome))
    {
      match outcome {
        case Found(data) =>
          certificates := data.certificates;
          total := data.total;
          if data.stats.Some? {
            apiStats := data.stats;
          }
        case Refused(message) =>
          error := Some(if message != "" then message else "Search failed");
        case Broke(message) =>
          error := Some(message);
        case Canceled =>
      }
      if searchAbortRef == Some(abortController) {
        loading := false;
      }
      pending := pending - {abortController};
      if outcome != Canceled {
        log := log + [Commit(abortController, outcome, abortController + 1 == issued)];
      }
    }
  }

  // ----- Runs -----

  /** Only pending requests settle. */
  ghost predicate IsRun(events: seq<Event>) {
    events == [] ||
    (IsRun(Front(events)) && (Last(events).Settle? ==> Last(events).id in Run(Front(events)).pending))
  }

  /** What holds in every run, whatever the replies: the newest request is the one the page waits for. */
  ghost predicate Waiting(s: System) {
    && s.page.current == (if s.issued == 0 then None else Some(s.issued - 1))
    && (forall i :: i in s.pending ==> i < s.issued)
    && (forall i :: i in s.aborted <==> 0 <= i && i + 1 < s.issued)
    && (s.page.loading <==> s.issued > 0 && s.issued - 1 in s.pending)
  }

  /** `loading` is true exactly while the newest request is pending, and every older one is aborted. */
  lemma {:induction false} LoadingMeansNewestIsPending(events: seq<Event>)
    requires IsRun(events)
    ensures Waiting(Run(events))
    decreases |events|
  {
    if events != [] {
      LoadingMeansNewestIsPending(Front(events));
    }
  }

  /** The replies that were not dropped although their request had been aborted. */
  ghost predicate AbortedAreCanceled(events: seq<Event>) {
    events == [] ||
    (AbortedAreCanceled(Front(events))
     && (Last(events).Settle? && Last(events).id in Run(Front(events)).aborted ==> Last(events).outcome == Canceled))
  }

  predicate OnlyNewest(log: seq<Commit>) {
    forall i :: 0 <= i < |log| ==> log[i].newest
  }

  /** Only newest requests change the page exactly when every aborted request ends as canceled. */
  lemma {:induction false} OnlyNewestCommitsIff(events: seq<Event>)
    requires IsRun(events)
    ensures OnlyNewest(Run(events).log) <==> AbortedAreCanceled(events)
    decreases |events|
  {
    if events != [] {
      var s, e := Run(Front(events)), Last(events);
      OnlyNewestCommitsIff(Front(events));
      LoadingMeansNewestIsPending(Front(events));
      if e.Settle? && e.outcome != Canceled {
        var c := Commit(e.id, e.outcome, e.id + 1 == s.issued);
        assert (s.log + [c])[|s.log|] == c;
        assert forall i :: 0 <= i < |s.log| ==> (s.log + [c])[i] == s.log[i];
        assert OnlyNewest(s.log + [c]) <==> OnlyNewest(s.log) && c.newest;
      }
    }
  }

  // ----- What is shown -----

  /** The results of the last successful commit, if any. */
  function LastFound(log: seq<Commit>): Option<Results> {
    if log == [] then None
    else if Last(log).outcome.Found? then Some(Last(log).outcome.results) else LastFound(Front(log))
  }

  /** The statistics of the last successful commit that carried any. */
  function LastStats(log: seq<Commit>): Option<int> {
    if log == [] then None
    else if Last(log).outcome.Found? && Last(log).outcome.results.stats.Some? then Last(log).outcome.results.stats
    else LastStats(Front(log))
  }

  /** The error that an outcome calls for. */
  function ErrorOf(outcome: Outcome): Option<string> {
    match outcome
    case Refused("") => Some("Search failed")
    case Refused(message) => Some(message)
    case Broke(message) => Some(message)
    case _ => None
  }

  predicate ShowsLatest(s: System) {
    && (forall i, j :: 0 <= i < j < |s.log| ==> s.log[i].id < s.log[j].id)
    && (s.log != [] ==> Last(s.log).id < s.issued)
    && (forall i :: 0 <= i < |s.log| ==> s.log[i].id !in s.pending)
    && (match LastFound(s.log)
        case None => s.page.certificates == [] && s.page.total == 0
        case Some(r) => s.page.certificates == r.certificates && s.page.total == r.total)
    && s.page.stats == LastStats(s.log)
    && (s.page.error ==
        if s.log != [] && Last(s.log).id + 1 == s.issued then ErrorOf(Last(s.log).outcome) else None)
  }

  /**
   * When aborted requests end as canceled: commits come in request order; the page shows the
   * results of the last successful one, and the statistics of the last one that had any; and an
   * error is shown exactly when the newest request has ended in it.
   */
  lemma {:induction false} LatestWins(events: seq<Event>)
    requires IsRun(events) && AbortedAreCanceled(events)
    ensures ShowsLatest(Run(events))
    decreases |events|
  {
    if events != [] {
      var s, e := Run(Front(events)), Last(events);
      LatestWins(Front(events));
      LoadingMeansNewestIsPending(Front(events));
      StepShowsLatest(s, e);
    }
  }

  lemma StepShowsLatest(s: System, e: Event)
    requires ShowsLatest(s) && Waiting(s)
    requires e.Settle? ==> e.id in s.pending && (e.id in s.aborted ==> e.outcome == Canceled)
    ensures ShowsLatest(After(s, e))
  {
    if e.Settle? && e.outcome != Canceled {
      hide ShowsLatest, Waiting;
      CommitShowsLatest(s, e.id, e.outcome);
    }
  }

  /** Only the newest request can commit, and nothing that is pending has committed before. */
  lemma CommitShowsLatest(s: System, id: nat, outcome: Outcome)
    requires ShowsLatest(s) && Waiting(s)
    requires id in s.pending && id !in s.aborted && outcome != Canceled
    ensures ShowsLatest(OnSettle(s, id, outcome))
  {
    hide LastFound, LastStats;
    var c := Commit(id, outcome, id + 1 == s.issued);
    assert id + 1 == s.issued;
    LastSnoc(s.log, c);
    CommitsInOrder(s, c);
  }

  lemma CommitsInOrder(s: System, c: Commit)
    requires ShowsLatest(s) && c.id in s.pending && c.id + 1 == s.issued
    ensures var log := s.log + [c];
      && (forall i, j :: 0 <= i < j < |log| ==> log[i].id < log[j].id)
      && (forall i :: 0 <= i < |log| ==> log[i].id !in s.pending - {c.id})
  {
    hide LastFound, LastStats, Show;
    if s.log != [] {
      assert Last(s.log).id !in s.pending;
      assert forall i :: 0 <= i < |s.log| ==> s.log[i].id <= Last(s.log).id;
    }
  }

  lemma LastSnoc(log: seq<Commit>, c: Commit)
    ensures Last(log + [c]) == c
    ensures LastFound(log + [c]) == if c.outcome.Found? then Some(c.outcome.results) else LastFound(log)
    ensures LastStats(log + [c])
      == if c.outcome.Found? && c.outcome.results.stats.Some? then c.outcome.results.stats else LastStats(log)
  {
    assert Front(log + [c]) == log;
  }

  /**
   * Once the newest request has ended in success, its own results are shown, and no error; next to
   * them stay the statistics of an older request if it brought none itself.
   */
  lemma NewestResultsAreShown(events: seq<Event>)
    requires IsRun(events) && AbortedAreCanceled(events)
    requires var log := Run(events).log; log != [] && Last(log).id + 1 == Run(events).issued && Last(log).outcome.Found?
    ensures var s := Run(events);
      && s.page.certificates == Last(s.log).outcome.results.certificates
      && s.page.total == Last(s.log).outcome.results.total
      && s.page.stats
        == (if Last(s.log).outcome.results.stats.Some? then Last(s.log).outcome.results.stats
            else LastStats(Front(s.log)))
      && s.page.error == None && !s.page.loading
  {
    hide Run, ShowsLatest, Waiting, LastStats;
    LatestWins(events);
    LoadingMeansNewestIsPending(events);
    NewestIsShown(Run(events));
  }

  lemma NewestIsShown(s: System)
    requires ShowsLatest(s) && Waiting(s)
    requires s.log != [] && Last(s.log).id + 1 == s.issued && Last(s.log).outcome.Found?
    ensures var r := Last(s.log).outcome.results;
      && s.page.certificates == r.certificates && s.page.total == r.total
      && s.page.stats == (if r.stats.Some? then r.stats else LastStats(Front(s.log)))
      && s.page.error == None && !s.page.loading
  {
    hide Show;
    assert s.log[|s.log| - 1].id !in s.pending;
  }

  /** A search whose reply lacks statistics shows its results beside those of the search before. */
  lemma OlderStatisticsStay(older: Results, newer: Results)
    requires older.stats.Some? && newer.stats == None
    ensures
      var events := [Search, Settle(0, Found(older)), Search, Settle(1, Found(newer))];
      && IsRun(events) && AbortedAreCanceled(events)
      && Run(events).page.certificates == newer.certificates && Run(events).page.stats == older.stats
  {
    var a, b := [Search], [Search, Settle(0, Found(older))];
    var c := b + [Search];
    var d := c + [Settle(1, Found(newer))];
    assert Front(d) == c && Front(c) == b && Front(b) == a && Front(a) == [];
    assert Run(a).pending == {0} && Run(a).aborted == {};
    assert Run(b).pending == {} && Run(b).aborted == {};
    assert Run(c).pending == {1} && Run(c).aborted == {0};
    assert IsRun(a) && IsRun(b) && IsRun(c);
    assert AbortedAreCanceled(a) && AbortedAreCanceled(b) && AbortedAreCanceled(c);
    assert d == [Search, Settle(0, Found(older)), Search, Settle(1, Found(newer))];
  }

  /** Were an aborted request to deliver its reply after all, the older results would replace the newer. */
  lemma LateReplyWouldWin(older: Results, newer: Results)
    ensures
      var events := [Search, Search, Settle(1, Found(newer)), Settle(0, Found(older))];
      IsRun(events) && Run(events).page.certificates == older.certificates
  {
    var a, b := [Search], [Search, Search];
    var c := b + [Settle(1, Found(newer))];
    var d := c + [Settle(0, Found(older))];
    assert Front(d) == c && Front(c) == b && Front(b) == a && Front(a) == [];
    assert Run(a).pending == {0};
    assert Run(b).pending == {0, 1};
    assert Run(c).pending == {0};
    assert IsRun(a) && IsRun(b) && IsRun(c);
    assert d == [Search, Search, Settle(1, Found(newer)), Settle(0, Found(older))];
  }
}
