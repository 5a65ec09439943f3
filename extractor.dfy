/** The extractor: one HTTP fetch with its 404 rule and its bounded retry,
    the computation of the missing comic numbers, and the loop that
    collects fetched comics and skips failed ones. The remote API is a
    parameter: a function from (URL, attempt number) to the response. */
module Extractor {
  import opened Errors
  import opened ComicModel
  import opened Urls

  /** What one GET produces: a status with a body that may or may not
      decode as a JSON object, or no response at all (a connection error or
      a timeout). */
  datatype Response = Http(status: int, body: Option<RawComic>) | NoResponse

  /** The remote API: the response to the given attempt at the given URL. */
  type Server = (string, nat) -> Response

  /** stop_after_attempt(3) */
  const MaxAttempts: nat := 3

  /** How one attempt ends: with a value, with an exception the retry
      policy retries (a requests.RequestException), or with one it does
      not. */
  datatype AttemptResult = Answered(comic: Option<Comic>) | Retryable | Fatal(error: Exc)

  /** The body of one decorated fetch, after the GET. */
  function Attempt(resp: Response): (a: AttemptResult)
    ensures resp.Http? && resp.status == 404 ==> a == Answered(None)
    ensures a.Fatal? ==> a.error == ValidationError
  {
    match resp
    case NoResponse => Retryable
    case Http(status, body) =>
      if status == 404 then Answered(None)
      else if 400 <= status < 600 then Retryable     // raise_for_status raises HTTPError
      else match body
        case None => Retryable                        // response.json() raises a JSON decode error
        case Some(raw) =>
          match Parse(raw)
          case Ok(c) => Answered(Some(c))
          case Err(e) => Fatal(e)
  }

  datatype FetchResult = Returned(comic: Option<Comic>) | Raised(error: Exc)

  /** The outcome of a decorated fetch, and how many attempts it made. */
  datatype FetchTrace = FetchTrace(result: FetchResult, attempts: nat)

  /** What the caller sees of the attempt that ended the retry loop; with
      reraise=True an exhausted loop re-raises the last request error. */
  function Settle(a: AttemptResult): FetchResult {
    match a
    case Answered(c) => Returned(c)
    case Retryable => Raised(RequestError)
    case Fatal(e) => Raised(e)
  }

  /** The retry decorator, from attempt k on. */
  function RetryFrom(server: Server, url: string, k: nat): (t: FetchTrace)
    requires k < MaxAttempts
    ensures k < t.attempts <= MaxAttempts
    ensures forall j :: k <= j < t.attempts - 1 ==> Attempt(server(url, j)).Retryable?
    ensures t.result == Settle(Attempt(server(url, t.attempts - 1)))
    ensures Attempt(server(url, t.attempts - 1)).Retryable? ==> t.attempts == MaxAttempts
    decreases MaxAttempts - k
  {
    var a := Attempt(server(url, k));
    if a.Retryable? && k + 1 < MaxAttempts then RetryFrom(server, url, k + 1)
    else FetchTrace(Settle(a), k + 1)
  }

  /** A GET under @retry(stop_after_attempt(3), retry on RequestException,
      reraise=True). */
  function FetchWithRetry(server: Server, url: string): (t: FetchTrace)
    ensures 1 <= t.attempts <= MaxAttempts
    ensures t.result == Settle(Attempt(server(url, t.attempts - 1)))
  {
    RetryFrom(server, url, 0)
  }

  /** fetch_current_comic */
  function FetchCurrentComic(base: string, server: Server): (t: FetchTrace)
    ensures 1 <= t.attempts <= MaxAttempts
    ensures t.result == Settle(Attempt(server(CurrentUrl(base), t.attempts - 1)))
  {
    FetchWithRetry(server, CurrentUrl(base))
  }

  /** fetch_comic_by_id */
  function FetchComicById(base: string, server: Server, id: int): (t: FetchTrace)
    ensures 1 <= t.attempts <= MaxAttempts
    ensures t.result == Settle(Attempt(server(ComicUrl(base, id), t.attempts - 1)))
  {
    FetchWithRetry(server, ComicUrl(base, id))
  }

  /** A fetch makes at most three attempts; every attempt but the last
      raised a request error; the last one decides the outcome, and a
      request error is re-raised only once all three attempts made one. */
  lemma RetryIsBounded(server: Server, url: string)
    ensures var t := FetchWithRetry(server, url);
      && 1 <= t.attempts <= MaxAttempts
      && (forall j :: 0 <= j < t.attempts - 1 ==> Attempt(server(url, j)).Retryable?)
      && (t.result == Raised(RequestError) <==> forall j :: 0 <= j < MaxAttempts ==> Attempt(server(url, j)).Retryable?)
  {
    var t := FetchWithRetry(server, url);
    if t.result == Raised(RequestError) {
      assert Attempt(server(url, t.attempts - 1)).Retryable?;
    }
  }

  /** A 404 on the first attempt ends the fetch at once with "absent": not
      an exception, and no retry. */
  lemma NotFoundIsAbsent(base: string, server: Server, id: int)
    requires server(ComicUrl(base, id), 0).Http? && server(ComicUrl(base, id), 0).status == 404
    ensures FetchComicById(base, server, id) == FetchTrace(Returned(None), 1)
  {
  }

  lemma CurrentNotFoundIsAbsent(base: string, server: Server)
    requires server(CurrentUrl(base), 0).Http? && server(CurrentUrl(base), 0).status == 404
    ensures FetchCurrentComic(base, server) == FetchTrace(Returned(None), 1)
  {
  }

  /** A body that fails validation is not retried: the ValidationError
      surfaces from the attempt that received it. */
  lemma ValidationErrorIsNotRetried(server: Server, url: string)
    requires var resp := server(url, 0);
      resp.Http? && !(400 <= resp.status < 600) && resp.body.Some? && Parse(resp.body.value).Err?
    ensures FetchWithRetry(server, url) == FetchTrace(Raised(ValidationError), 1)
  {
    ParseAcceptsExactly(server(url, 0).body.value);
  }

  /** [i for i in range(1, max_id + 1) if i not in existing_ids] */
  function MissingIds(maxId: int, existing: set<int>): (ids: seq<int>)
    ensures forall i, j :: 0 <= i < j < |ids| ==> ids[i] < ids[j]
    ensures forall id :: id in ids <==> 1 <= id <= maxId && id !in existing
    decreases maxId
  {
    if maxId < 1 then []
    else
      var below := MissingIds(maxId - 1, existing);
      assert forall i :: 0 <= i < |below| ==> below[i] in below;
      below + (if maxId in existing then [] else [maxId])
  }

  /** Each missing number is requested exactly once: the list has as many
      entries as the set of numbers it holds. */
  lemma MissingIdsAreDistinct(maxId: int, existing: set<int>)
    ensures var ids := MissingIds(maxId, existing);
      |ids| == |set id | id in ids|
  {
    DistinctCard(MissingIds(maxId, existing));
  }

  lemma {:induction false} DistinctCard(ids: seq<int>)
    requires forall i, j :: 0 <= i < j < |ids| ==> ids[i] < ids[j]
    ensures |set id | id in ids| == |ids|
  {
    if ids != [] {
      var init := ids[..|ids| - 1];
      DistinctCard(init);
      assert (set id | id in ids) == (set id | id in init) + {ids[|ids| - 1]};
      assert ids[|ids| - 1] !in (set id | id in init);
    }
  }

  /** The result loop of fetch_comics over the given numbers, in order:
      comics are kept, absent numbers and request errors are skipped, and
      any other exception ends the whole call. */
  function Collect(base: string, server: Server, ids: seq<int>): (r: Result<seq<Comic>, Exc>)
    ensures r.Err? ==> !r.error.RequestError?
    decreases |ids|
  {
    if ids == [] then Ok([])
    else
      match Collect(base, server, ids[..|ids| - 1])
      case Err(e) => Err(e)
      case Ok(acc) =>
        match FetchComicById(base, server, ids[|ids| - 1]).result
        case Returned(Some(c)) => Ok(acc + [c])
        case Returned(None) => Ok(acc)
        case Raised(e) => if e.RequestError? then Ok(acc) else Err(e)
  }

  /** The comics collected are exactly the comics the numbers' fetches
      returned: none comes from elsewhere, none of a fetched number is
      lost, and there are at most as many as numbers requested. */
  lemma {:induction false} CollectIsExact(base: string, server: Server, ids: seq<int>)
    requires Collect(base, server, ids).Ok?
    ensures |Collect(base, server, ids).value| <= |ids|
    ensures forall c :: c in Collect(base, server, ids).value <==>
      exists id :: id in ids && FetchComicById(base, server, id).result == Returned(Some(c))
  {
    if ids != [] {
      var init := ids[..|ids| - 1];
      CollectIsExact(base, server, init);
      forall c ensures c in Collect(base, server, ids).value <==>
        exists id :: id in ids && FetchComicById(base, server, id).result == Returned(Some(c))
      {
        if c in Collect(base, server, ids).value {
          if c !in Collect(base, server, init).value {
            assert FetchComicById(base, server, ids[|ids| - 1]).result == Returned(Some(c));
          }
        } else {
          forall id | id in ids
            ensures FetchComicById(base, server, id).result != Returned(Some(c))
          {
            if id in init {
            } else {
              assert id == ids[|ids| - 1];
            }
          }
        }
      }
    }
  }

  /** The loop fails exactly when some number's fetch raised something
      other than a request error. */
  lemma {:induction false} CollectFailsIff(base: string, server: Server, ids: seq<int>)
    ensures Collect(base, server, ids).Err? <==>
      exists id :: id in ids && FetchComicById(base, server, id).result.Raised? &&
        !FetchComicById(base, server, id).result.error.RequestError?
  {
    if ids != [] {
      var init := ids[..|ids| - 1];
      CollectFailsIff(base, server, init);
      var last := ids[|ids| - 1];
      if Collect(base, server, ids).Err? && Collect(base, server, init).Ok? {
        assert FetchComicById(base, server, last).result.Raised?;
      }
      if !Collect(base, server, ids).Err? {
        forall id | id in ids
          ensures !(FetchComicById(base, server, id).result.Raised? &&
                    !FetchComicById(base, server, id).result.error.RequestError?)
        {
          if id !in init { assert id == last; }
        }
      }
    }
  }

  /** The fetch of this number returned a comic. */
  predicate Fetched(base: string, server: Server, id: int) {
    FetchComicById(base, server, id).result.Returned? && FetchComicById(base, server, id).result.comic.Some?
  }

  /** The positions in `ids` of the numbers that satisfy `p`. */
  function Positions(ids: seq<int>, p: int -> bool): set<nat> {
    set i: nat | i < |ids| && p(ids[i])
  }

  /** Appending one number adds its position exactly when it satisfies
      `p`. */
  lemma PositionsStep(ids: seq<int>, p: int -> bool)
    requires ids != []
    ensures var n := |ids| - 1;
      && n !in Positions(ids[..n], p)
      && Positions(ids, p) == Positions(ids[..n], p) + (if p(ids[n]) then {n} else {})
  {
    var n := |ids| - 1;
    var last: set<nat> := if p(ids[n]) then {n} else {};
    forall i: nat
      ensures i in Positions(ids, p) <==> i in Positions(ids[..n], p) || i in last
    {
      if i < n {
        assert ids[i] == ids[..n][i];
      }
    }
  }

  /** The positions of the requested numbers whose fetch returned a comic. */
  function FetchedPositions(base: string, server: Server, ids: seq<int>): set<nat> {
    Positions(ids, id => Fetched(base, server, id))
  }

  /** The loop yields one comic per requested number whose fetch returned
      one, and nothing for any other: no comic is repeated or dropped. */
  lemma {:induction false} CollectCount(base: string, server: Server, ids: seq<int>)
    requires Collect(base, server, ids).Ok?
    ensures |Collect(base, server, ids).value| == |FetchedPositions(base, server, ids)|
    decreases |ids|
  {
    if ids == [] {
      assert FetchedPositions(base, server, ids) == {};
    } else {
      var n := |ids| - 1;
      CollectCount(base, server, ids[..n]);
      PositionsStep(ids, id => Fetched(base, server, id));
    }
  }

  /** The numbers fetch_comics submits: none without a current comic,
      otherwise every missing number up to the current one. */
  function RequestedIds(base: string, server: Server, existing: set<int>): seq<int> {
    match FetchCurrentComic(base, server).result
    case Returned(Some(current)) => MissingIds(current.num, existing)
    case _ => []
  }

  /** fetch_comics, materialised as a list: an exception of
      fetch_current_comic propagates, no current comic gives nothing, and
      otherwise the missing numbers are fetched and collected. */
  function FetchComicsResult(base: string, server: Server, existing: set<int>): (r: Result<seq<Comic>, Exc>)
    ensures r == Err(RequestError) ==> FetchCurrentComic(base, server).result == Raised(RequestError)
  {
    match FetchCurrentComic(base, server).result
    case Raised(e) => Err(e)
    case Returned(None) => Ok([])
    case Returned(Some(current)) => Collect(base, server, MissingIds(current.num, existing))
  }

  /** Without a current comic nothing is requested and nothing yielded. */
  lemma NoCurrentNoRequests(base: string, server: Server, existing: set<int>)
    requires FetchCurrentComic(base, server).result == Returned(None)
    ensures RequestedIds(base, server, existing) == []
    ensures FetchComicsResult(base, server, existing) == Ok([])
  {
  }

  /** The numbers requested are exactly {1..current} minus the existing
      ones, in ascending order; when that set is empty nothing is fetched
      and nothing yielded. */
  lemma RequestsAreTheMissingIds(base: string, server: Server, existing: set<int>, current: Comic)
    requires FetchCurrentComic(base, server).result == Returned(Some(current))
    ensures var ids := RequestedIds(base, server, existing);
      && (forall id :: id in ids <==> 1 <= id <= current.num && id !in existing)
      && (forall i, j :: 0 <= i < j < |ids| ==> ids[i] < ids[j])
      && (ids == [] ==> FetchComicsResult(base, server, existing) == Ok([]))
  {
  }

  /** A successful fetch_comics yields only comics fetched for requested
      numbers, exactly one per requested number whose fetch returned a
      comic, and every comic a requested number's fetch returned. */
  lemma FetchComicsYieldsFetched(base: string, server: Server, existing: set<int>)
    requires FetchComicsResult(base, server, existing).Ok?
    ensures var ids := RequestedIds(base, server, existing);
      var cs := FetchComicsResult(base, server, existing).value;
      && |cs| <= |ids|
      && |cs| == |FetchedPositions(base, server, ids)|
      && forall c :: c in cs <==> exists id :: id in ids && FetchComicById(base, server, id).result == Returned(Some(c))
  {
    if FetchCurrentComic(base, server).result.Returned? && FetchCurrentComic(base, server).result.comic.Some? {
      var current := FetchCurrentComic(base, server).result.comic.value;
      CollectIsExact(base, server, MissingIds(current.num, existing));
      CollectCount(base, server, MissingIds(current.num, existing));
    }
  }

  /** XKCDExtractor: the normalised base URL and whether its HTTP session
      is still open. */
  class XkcdExtractor {
    const baseUrl: string
    var sessionOpen: bool

    constructor (baseUrl: string)
      ensures this.baseUrl == RStripSlashes(baseUrl)
      ensures Normalised(this.baseUrl)
      ensures sessionOpen
    {
      this.baseUrl := RStripSlashes(baseUrl);
      sessionOpen := true;
    }

    /** fetch_comics, run to completion: returns the numbers submitted for
        fetching and the list the generator yields, or the exception that
        ends it. The worker pool is a sequential loop in submission order. */
    method FetchComics(existing: set<int>, server: Server) returns (requested: seq<int>, r: Result<seq<Comic>, Exc>)
      ensures requested == RequestedIds(baseUrl, server, existing)
      ensures r == FetchComicsResult(baseUrl, server, existing)
    {
      var current := FetchCurrentComic(baseUrl, server).result;
      if current.Raised? {
        return [], Err(current.error);
      }
      if current.comic.None? {
        return [], Ok([]);
      }
      var missing := MissingIds(current.comic.value.num, existing);
      requested := missing;
      if missing == [] {
        return requested, Ok([]);
      }
      var comics: seq<Comic> := [];
      var i := 0;
      while i < |missing|
        invariant 0 <= i <= |missing|
        invariant Collect(baseUrl, server, missing[..i]) == Ok(comics)
      {
        var id := missing[i];
        var outcome := FetchComicById(baseUrl, server, id).result;
        CollectStep(baseUrl, server, missing, i);
        if outcome.Raised? {
          if !outcome.error.RequestError? {
            CollectStopsAtError(baseUrl, server, missing, i + 1);
            return requested, Err(outcome.error);
          }
        } else if outcome.comic.Some? {
          comics := comics + [outcome.comic.value];
        }
        i := i + 1;
      }
      assert missing[..i] == missing;
      r := Ok(comics);
    }

    /** __exit__: closes the HTTP session. */
    method Exit()
      modifies this`sessionOpen
      ensures !sessionOpen
    {
      sessionOpen := false;
    }
  }

  /** One more number extends the loop by that number's outcome. */
  lemma CollectStep(base: string, server: Server, ids: seq<int>, i: nat)
    requires i < |ids| && Collect(base, server, ids[..i]).Ok?
    ensures var acc := Collect(base, server, ids[..i]).value;
      Collect(base, server, ids[..i + 1]) ==
        match FetchComicById(base, server, ids[i]).result
        case Returned(Some(c)) => Ok(acc + [c])
        case Returned(None) => Ok(acc)
        case Raised(e) => if e.RequestError? then Ok(acc) else Err(e)
  {
    assert ids[..i + 1][..i] == ids[..i];
  }

  /** Once the loop has failed on a prefix, it has failed on the whole
      sequence, with the same exception. */
  lemma {:induction false} CollectStopsAtError(base: string, server: Server, ids: seq<int>, k: nat)
    requires k <= |ids| && Collect(base, server, ids[..k]).Err?
    ensures Collect(base, server, ids) == Collect(base, server, ids[..k])
    decreases |ids| - k
  {
    if k < |ids| {
      assert ids[..k + 1][..k] == ids[..k];
      CollectStopsAtError(base, server, ids, k + 1);
    } else {
      assert ids[..k] == ids;
    }
  }
}
