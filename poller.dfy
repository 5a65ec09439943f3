/** The poller: the high-water-mark test that gates an ingestion run, and
    the branch selector that skips the wait for manually triggered runs.
    What the extractor and the loader do inside the test is given as
    inputs: the remote API, and the outcome of opening the loader and
    reading the stored comic numbers. */
module Poller {
  import opened Errors
  import opened ComicModel
  import opened Urls
  import opened Extractor

  /** A set with no element is the empty set. */
  lemma EmptyIfNoElement(s: set<int>)
    requires forall y :: y !in s
    ensures s == {}
  {
    var none: set<int> := {};
    assert forall y :: y in s ==> y in none;
    assert s <= none;
  }

  lemma ElementOf(s: set<int>)
    requires s != {}
    ensures exists x :: x in s
  {
    if forall y :: y !in s {
      EmptyIfNoElement(s);
    }
  }

  /** The largest element of a non-empty set. */
  ghost function SetMax(s: set<int>): (m: int)
    requires s != {}
    ensures m in s && forall x :: x in s ==> x <= m
    decreases |s|
  {
    ElementOf(s);
    var x :| x in s;
    var rest := s - {x};
    assert forall y :: y in s ==> y == x || y in rest;
    if rest == {} then x
    else
      var r := SetMax(rest);
      if x > r then x else r
  }

  /** max(existing_ids) if existing_ids else 0 */
  ghost function MaxOrZero(s: set<int>): (m: int)
    ensures s == {} ==> m == 0
    ensures s != {} ==> m in s && forall x :: x in s ==> x <= m
  {
    if s == {} then 0 else SetMax(s)
  }

  /** The handler of check_new_comic_available: RuntimeError and
      psycopg2.Error only. */
  predicate PollerCatches(e: Exc) {
    e.RuntimeError? || e.Psycopg2Error?
  }

  /** What check_new_comic_available returns or raises, and whether it got
      as far as consulting the loader. */
  datatype PollTrace = PollTrace(result: Result<bool, Exc>, consultedLoader: bool)

  /** check_new_comic_available, with the extractor built on the default
      base URL. `stored` is the outcome of entering a loader and calling
      get_existing_comic_ids. */
  ghost function CheckNewComicAvailable(server: Server, stored: Result<set<int>, Exc>): (t: PollTrace)
    ensures t.result.Err? ==> !PollerCatches(t.result.error)
  {
    match FetchCurrentComic(DefaultBaseUrl, server).result
    case Raised(e) =>
      PollTrace(if PollerCatches(e) then Ok(false) else Err(e), false)
    case Returned(None) => PollTrace(Ok(false), false)
    case Returned(Some(current)) =>
      match stored
      case Err(e) => PollTrace(if PollerCatches(e) then Ok(false) else Err(e), true)
      case Ok(ids) => PollTrace(Ok(current.num > MaxOrZero(ids)), true)
  }

  /** With a current comic and the stored numbers in hand, the result is
      current > max(stored or {0}); and it is True exactly when the current
      number exceeds every stored number and, for an empty table, is
      positive. */
  lemma PollerComparesHighWaterMarks(server: Server, ids: set<int>, current: Comic)
    requires FetchCurrentComic(DefaultBaseUrl, server).result == Returned(Some(current))
    ensures CheckNewComicAvailable(server, Ok(ids)).result == Ok(current.num > MaxOrZero(ids))
    ensures CheckNewComicAvailable(server, Ok(ids)).result == Ok(true) <==>
      (forall x :: x in ids ==> x < current.num) && (ids == {} ==> current.num > 0)
  {
    if ids != {} {
      var m := SetMax(ids);
      if forall x :: x in ids ==> x < current.num {
        assert m < current.num;
      }
    }
  }

  /** The comparison is strict: a current comic that is already stored
      is not new. */
  lemma PollerIsStrict(server: Server, current: Comic)
    requires FetchCurrentComic(DefaultBaseUrl, server).result == Returned(Some(current))
    requires current.num == 50
    ensures CheckNewComicAvailable(server, Ok({1, 2, 3, 50})).result == Ok(false)
  {
    var m := SetMax({1, 2, 3, 50});
    assert 50 <= m;
  }

  /** Comic 100 is new against {1, 2, 3, 50}. */
  lemma PollerSeesNewComic(server: Server, current: Comic)
    requires FetchCurrentComic(DefaultBaseUrl, server).result == Returned(Some(current))
    requires current.num == 100
    ensures CheckNewComicAvailable(server, Ok({1, 2, 3, 50})).result == Ok(true)
  {
    var m := SetMax({1, 2, 3, 50});
    assert m <= 50;
  }

  /** Against an empty table, comic 1 is new. */
  lemma PollerEmptyTable(server: Server, current: Comic)
    requires FetchCurrentComic(DefaultBaseUrl, server).result == Returned(Some(current))
    requires current.num == 1
    ensures CheckNewComicAvailable(server, Ok({})).result == Ok(true)
  {
  }

  /** Without a current comic the answer is False and the loader is never
      consulted. */
  lemma PollerNoCurrentComic(server: Server, stored: Result<set<int>, Exc>)
    requires FetchCurrentComic(DefaultBaseUrl, server).result == Returned(None)
    ensures CheckNewComicAvailable(server, stored) == PollTrace(Ok(false), false)
  {
  }

  /** A RuntimeError or psycopg2.Error while reading the stored numbers
      becomes False; a psycopg (v3) error, which is what the loader raises,
      is not caught and propagates, and so do the extractor's request and
      validation errors. */
  lemma PollerErrorHandling(server: Server, e: Exc, current: Comic)
    requires FetchCurrentComic(DefaultBaseUrl, server).result == Returned(Some(current))
    ensures CheckNewComicAvailable(server, Err(e)).result ==
      (if e.RuntimeError? || e.Psycopg2Error? then Ok(false) else Err(e))
    ensures CheckNewComicAvailable(server, Err(PsycopgError)).result == Err(PsycopgError)
  {
  }

  lemma PollerPropagatesFetchErrors(server: Server, stored: Result<set<int>, Exc>)
    requires FetchCurrentComic(DefaultBaseUrl, server).result.Raised?
    ensures var e := FetchCurrentComic(DefaultBaseUrl, server).result.error;
      (e.RequestError? || e.ValidationError?) ==> CheckNewComicAvailable(server, stored) == PollTrace(Err(e), false)
  {
  }

  /** The poller answers True only when it saw a current comic and the
      stored numbers. */
  lemma PollerTrueNeedsEvidence(server: Server, stored: Result<set<int>, Exc>)
    requires CheckNewComicAvailable(server, stored).result == Ok(true)
    ensures FetchCurrentComic(DefaultBaseUrl, server).result.Returned?
    ensures FetchCurrentComic(DefaultBaseUrl, server).result.comic.Some?
    ensures stored.Ok? && CheckNewComicAvailable(server, stored).consultedLoader
  {
  }

  /** The part of the Airflow context the selector reads: the dag_run
      object, if any, and its external_trigger flag. */
  datatype DagRun = DagRun(externalTrigger: bool)

  const SkipSensor: string := "skip_sensor"
  const WaitForNewComic: string := "wait_for_new_comic"

  /** should_skip_sensor */
  function ShouldSkipSensor(dagRun: Option<DagRun>): (branch: string)
    ensures branch == SkipSensor || branch == WaitForNewComic
    ensures branch == SkipSensor <==> dagRun.Some? && dagRun.value.externalTrigger
  {
    if dagRun.Some? && dagRun.value.externalTrigger then SkipSensor else WaitForNewComic
  }
}
