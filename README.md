# XKCD incremental ingestion, modelled in Dafny

This project models the ingestion core of an XKCD comic pipeline:

- **Extractor.** It fetches the current comic and comics by number from the XKCD JSON API. It retries failed requests, validates each payload into an `XKCDComic` record, and works out which comic numbers are missing from the warehouse.
- **Loader.** It keeps a PostgreSQL connection and upserts comics into `raw.xkcd_comics` in committed chunks. It can also read the comic numbers already stored.
- **Poller.** It decides whether a new comic is out, and whether a manually triggered run may skip the wait.
- **Driver.** `main` wires the extractor and the loader together and maps errors to an exit status.

The remote API is an input: a function from (URL, attempt number) to a response. Other inputs are:

- whether the database can be reached;
- whether the select of the stored comic numbers fails;
- the load's `load_ts` and `load_id`;
- the chunk, if any, whose upsert statement fails.

The warehouse table is a `map<int, Row>` keyed by `comic_id`.

Files:

- `errors.dfy`: Option, Result and the exception kinds the code raises.
- `comic.dfy`: the record, its validation and its `model_dump`.
- `urls.dfy`: base-URL normalisation, URL building, and the decimal rendering of comic numbers.
- `extractor.dfy`: one HTTP attempt and the retry policy, the missing numbers, the result loop of `fetch_comics`, and the `XkcdExtractor` class.
- `loader.dfy`: the upsert semantics, the chunking of `load_comics`, and the `XkcdLoader` class over a `Warehouse`.
- `poller.dfy`: `check_new_comic_available` and `should_skip_sensor`.
- `run_ingestion.dfy`: `main`, as written and as intended.

The model follows the code in three places where the pipeline's intended behaviour reads differently:

- **Errors from the current-comic fetch.** An exception raised by `fetch_current_comic` (the request error re-raised after three attempts, or a validation error) propagates out of `fetch_comics` and out of `check_new_comic_available`. The code does not turn it into an empty result or into False.
- **Failed per-comic fetches.** Only a `requests.RequestException` is skipped. Any other exception from a per-comic fetch, such as a `ValidationError`, ends `fetch_comics`.
- **The poller's handler.** It catches `psycopg2.Error`. The loader raises `psycopg` (version 3) errors, and those are not caught. The model keeps the two exception classes apart.

## Model

| member | source | states |
|---|---|---|
| Urls.RStripSlashes | ingestion/extractor.py:35 | `rstrip("/")` gives a prefix of the base that does not end in '/', and only slashes follow it in the base |
| Urls.RStripIdempotent | ingestion/extractor.py:35 | stripping a stripped base changes nothing |
| Urls.RStripKeepsNormalised | ingestion/extractor.py:33-35 | a base not ending in '/' (such as the default) is kept as given |
| Urls.IntToDecimal | ingestion/extractor.py:69 | the rendering of `comic_id` in the f-string is non-empty, starts with '-' exactly for a negative number, and is otherwise all digits; DecimalRoundTrip reads it back |
| Urls.CurrentUrl | ingestion/extractor.py:48 | `{base}/info.0.json` is the base followed by the info suffix; UrlJoinsAreClean states its join is clean |
| Urls.ComicUrl | ingestion/extractor.py:69 | `{base}/{id}/info.0.json` starts with the base and a '/', and ends with the info suffix; ComicUrlRoundTrip and ComicUrlInjective state that it names its comic and no other |
| Urls.NatToDecimal | ingestion/extractor.py:69 | the f-string numeral of a number is a non-empty run of digits without a leading zero |
| Urls.DecimalRoundTrip | ingestion/extractor.py:69 | reading back the numeral of any integer, negative ones included, gives that integer |
| Urls.ComicUrlRoundTrip | ingestion/extractor.py:69 | the comic number can be read back out of `{base}/{id}/info.0.json` |
| Urls.ComicUrlInjective | ingestion/extractor.py:69 | distinct comic numbers are fetched from distinct URLs |
| Urls.DecimalHasNoSlashEnds | ingestion/extractor.py:69 | a numeral neither starts nor ends with '/' |
| Urls.UrlJoinsAreClean | ingestion/extractor.py:48-69 | with a normalised base, both URLs start with the base, and every join point is a single '/' with no "//" |
| Urls.StrippedBaseJoinsAreClean | ingestion/extractor.py:35-69 | whatever base is given, the one kept is normalised, so every URL built from it has clean joins |
| ComicModel.ParseAcceptsExactly | ingestion/extractor.py:14-27 | validation succeeds if and only if num is an integer, the seven other required fields are strings, and transcript/link/news are strings when present; failure is a ValidationError |
| ComicModel.Parse | ingestion/extractor.py:14-27 | `XKCDComic(**data)` raises only ValidationError, and an accepted record carries the object's own `num`; ParseAcceptsExactly and ParseFields state which objects are accepted and with which values |
| ComicModel.ParseFields | ingestion/extractor.py:14-27 | a validated record carries the payload's values, and "" for each absent optional field |
| ComicModel.DumpFields | ingestion/loader.py:96 | `model_dump` puts every field under its JSON name |
| ComicModel.Dump | ingestion/loader.py:96 | `model_dump` has exactly the record's eleven field names as keys; DumpFields gives each value, and ParseDump and DumpParse are the round trips with validation |
| ComicModel.ParseDump | ingestion/extractor.py:14-27 | validating a dumped record gives the record back |
| ComicModel.DumpParse | ingestion/extractor.py:14-27 | dumping a validated payload keeps every field value it had, under exactly the record's eleven keys |
| Extractor.Attempt | ingestion/extractor.py:51-57 | a 404 is "absent" without raising; the only exception not retried is a ValidationError |
| Extractor.RetryFrom | ingestion/extractor.py:40-45 | the retry loop stops after at most 3 attempts; every earlier attempt made a request error; the last attempt decides the outcome; a request error ends the loop only on the third attempt |
| Extractor.FetchWithRetry | ingestion/extractor.py:40-45 | a decorated GET makes 1 to 3 attempts and its outcome is the last attempt's, a request error there being re-raised; RetryIsBounded states when that happens |
| Extractor.FetchCurrentComic | ingestion/extractor.py:46-59 | the decorated fetch of `{base}/info.0.json`, with the same bound and outcome; CurrentNotFoundIsAbsent and ValidationErrorIsNotRetried state its 404 and validation cases |
| Extractor.FetchComicById | ingestion/extractor.py:61-79 | the decorated fetch of `{base}/{id}/info.0.json`, with the same bound and outcome; NotFoundIsAbsent states its 404 case |
| Extractor.RetryIsBounded | ingestion/extractor.py:40-45 | a fetch makes 1 to 3 attempts, and re-raises the request error if and only if all three attempts failed with one |
| Extractor.NotFoundIsAbsent | ingestion/extractor.py:67-74 | a 404 for a comic returns None after one attempt |
| Extractor.CurrentNotFoundIsAbsent | ingestion/extractor.py:46-54 | a 404 for the current comic returns None after one attempt |
| Extractor.ValidationErrorIsNotRetried | ingestion/extractor.py:40-59 | a payload that fails validation raises ValidationError from the first attempt, with no retry |
| Extractor.MissingIds | ingestion/extractor.py:90-93 | the numbers requested are exactly {1..max_id} minus the existing ones, in strictly ascending order |
| Extractor.MissingIdsAreDistinct | ingestion/extractor.py:91-93 | each missing number is requested once |
| Extractor.Collect | ingestion/extractor.py:107-115 | the result loop never fails with a request error, because those are skipped; CollectIsExact, CollectCount and CollectFailsIff state what it yields and when it fails |
| Extractor.CollectIsExact | ingestion/extractor.py:107-115 | the comics collected are exactly those that requested fetches returned, and there are at most as many as numbers requested |
| Extractor.CollectCount | ingestion/extractor.py:107-115 | the loop yields exactly one comic per requested position whose fetch returned a comic |
| Extractor.CollectFailsIff | ingestion/extractor.py:107-115 | the loop fails if and only if some fetch raised something other than a request error |
| Extractor.CollectStep | ingestion/extractor.py:107-115 | one more future adds its comic, skips None or a request error, or fails with any other exception |
| Extractor.CollectStopsAtError | ingestion/extractor.py:107-115 | once the loop has failed, later numbers do not change the outcome |
| Extractor.NoCurrentNoRequests | ingestion/extractor.py:85-88 | without a current comic nothing is requested and nothing is yielded |
| Extractor.RequestsAreTheMissingIds | ingestion/extractor.py:90-97 | the numbers submitted are exactly {1..current} minus existing, in ascending order; when there are none, nothing is yielded |
| Extractor.FetchComicsYieldsFetched | ingestion/extractor.py:81-115 | a successful `fetch_comics` yields exactly the comics fetched for requested numbers, and as many as there are requested numbers whose fetch returned a comic, so one per such number |
| Extractor.FetchComicsResult | ingestion/extractor.py:81-115 | a request error escapes `fetch_comics` only from the current-comic fetch; NoCurrentNoRequests, RequestsAreTheMissingIds and FetchComicsYieldsFetched state the rest |

| Extractor.XkcdExtractor.constructor | ingestion/extractor.py:33-38 | the kept base is the given one with trailing slashes stripped, and the session is open |
| Extractor.XkcdExtractor.FetchComics | ingestion/extractor.py:81-115 | the loop over the futures returns the requested numbers and the list or exception that `fetch_comics` specifies |
| Extractor.XkcdExtractor.Exit | ingestion/extractor.py:121-123 | `__exit__` closes the session |
| Loader.UpsertAll | ingestion/loader.py:103-115 | the upsert statement applied to each comic in order; its properties are the lemmas UpsertKeys, UpsertKeepsOthers, UpsertLastWins, UpsertStamps and UpsertAllAppend |
| Loader.UpsertAllAppend | ingestion/loader.py:91-115 | upserting two lists in turn is upserting their concatenation |
| Loader.UpsertKeys | ingestion/loader.py:104-114 | no row is deleted; the keys gained are the input's comic numbers; there is one row per number |
| Loader.UpsertKeepsOthers | ingestion/loader.py:104-114 | rows whose comic_id is not in the input are unchanged |
| Loader.UpsertLastWins | ingestion/loader.py:104-114 | a number's row is the dump of its last occurrence in the input, with this call's load_ts and load_id |
| Loader.UpsertStamps | ingestion/loader.py:88-101 | every row the call touches carries the call's single load_ts and load_id |
| Loader.UpsertOverwrites | ingestion/loader.py:106-111 | rows the input touches do not depend on the table's previous contents |
| Loader.ReloadOverwrites | ingestion/loader.py:106-111 | loading the same comics twice equals loading them once with the second load's stamps |
| Loader.Chunks | ingestion/loader.py:91-92 | the batches `comics[i : i + batch_size]`; its properties are the lemmas ChunksConcatenate, ChunkSizes, ChunkCount and ChunkAt |
| Loader.ChunksConcatenate | ingestion/loader.py:91-92 | the batches, concatenated in order, are the input |
| Loader.ChunkSizes | ingestion/loader.py:91-92 | every batch holds 1 to B comics, and all but the last hold exactly B |
| Loader.ChunkCount | ingestion/loader.py:91 | there are ceil(N/B) batches |
| Loader.ChunkCountExample | ingestion/loader.py:91 | 250 comics in batches of 100 make 3 batches |
| Loader.ChunkAt | ingestion/loader.py:91-92 | batch j is the slice `comics[j*B : (j+1)*B]`, and it starts inside the list |
| Loader.FlattenPrefix | ingestion/loader.py:103-115 | the first k batches, concatenated, are a prefix of all of them concatenated |
| Loader.ChunkPrefix | ingestion/loader.py:103-115 | the batches committed before a failing one form a prefix of the input |
| Loader.LoadedTable | ingestion/loader.py:91-115 | the table after the committed batches; its properties are the lemmas LoadedTableIsUpsert and Ingestion.IngestionKeepsRows |
| Loader.LoadedTableIsUpsert | ingestion/loader.py:91-115 | a load with no failing batch upserts every comic; a load whose batch k fails keeps exactly the upsert of a prefix of the input |
| Loader.UpsertNextChunk | ingestion/loader.py:103-115 | committing one more batch extends the upsert of the batches before it |
| Loader.Warehouse.constructor | ingestion/loader.py:58-63 | the table starts as given |
| Loader.XkcdLoader.constructor | ingestion/loader.py:34-37 | a new loader is not connected and has done nothing |
| Loader.XkcdLoader.Connect | ingestion/loader.py:39-74 | connecting while connected changes nothing; otherwise it opens one connection and makes one commit, or fails with a psycopg error and stays disconnected; rows are untouched |
| Loader.XkcdLoader.Disconnect | ingestion/loader.py:76-81 | afterwards the loader is not connected, whatever state it was in |
| Loader.XkcdLoader.LoadComics | ingestion/loader.py:83-115 | not connected: "Not connected to database" and nothing changes. batch_size 0: ValueError. Negative batch_size: nothing happens. Otherwise the table is the committed batches upserted, with one commit per committed batch and one statement per attempted batch, and a psycopg error if a batch failed |
| Loader.XkcdLoader.UpsertInChunks | ingestion/loader.py:91-115 | the batch loop leaves the table, commit count and statement count stated by the chunked upsert |
| Loader.XkcdLoader.GetExistingComicIds | ingestion/loader.py:117-127 | not connected: "Not connected to database" and no select. Connected: one select, which gives the table's exact key set, or a psycopg error when it fails |
| Loader.XkcdLoader.Enter | ingestion/loader.py:129-132 | `__enter__` connects |
| Loader.XkcdLoader.Exit | ingestion/loader.py:134-136 | `__exit__` leaves the loader disconnected |
| Poller.SetMax | ingestion/poller.py:27 | `max(existing_ids)` is an element of the set and at least every element |
| Poller.MaxOrZero | ingestion/poller.py:27 | `max(existing_ids) if existing_ids else 0`: 0 for an empty set, otherwise an element at least as large as every element |
| Poller.CheckNewComicAvailable | ingestion/poller.py:13-44 | an exception escapes only when the handler does not catch it; the Poller lemmas below state the answer |
| Poller.PollerComparesHighWaterMarks | ingestion/poller.py:25-40 | with a current comic and the stored numbers, the answer is current > max(stored or 0); True exactly when current exceeds every stored number and, for an empty table, is positive |
| Poller.PollerIsStrict | ingestion/poller.py:30 | current 50 against {1,2,3,50} is not new |
| Poller.PollerSeesNewComic | ingestion/poller.py:30 | current 100 against {1,2,3,50} is new |
| Poller.PollerEmptyTable | ingestion/poller.py:27 | current 1 against an empty table is new |
| Poller.PollerNoCurrentComic | ingestion/poller.py:17-20 | no current comic gives False, and the loader is not consulted |
| Poller.PollerErrorHandling | ingestion/poller.py:42-44 | RuntimeError and psycopg2.Error become False; a psycopg (v3) error and any other exception propagate |
| Poller.PollerPropagatesFetchErrors | ingestion/poller.py:15-44 | a request or validation error from the current-comic fetch propagates, and the loader is not consulted |
| Poller.PollerTrueNeedsEvidence | ingestion/poller.py:13-40 | True only after a current comic was seen and the stored numbers were read |
| Poller.ShouldSkipSensor | ingestion/poller.py:47-56 | "skip_sensor" exactly when a dag_run is present and externally triggered, "wait_for_new_comic" otherwise |
| Ingestion.Handled | ingestion/run_ingestion.py:32-34 | exit status 1 exactly for RuntimeError and psycopg.Error; any other exception escapes unchanged |
| Ingestion.LoadStatus | ingestion/run_ingestion.py:30-34 | a load ends with exit 0 or 1, and with 1 exactly when the failing batch k exists, that is when k * 100 is below the number of comics; OneComicOneChunk is a case |
| Ingestion.RunIngestion | ingestion/run_ingestion.py:14-34 | both with blocks are released on every path. A connected run selects the stored numbers exactly once. A failed connect or select exits 1 with nothing requested, the table unchanged and no load. Otherwise the numbers requested are the missing ones for the stored set, and a fetch error maps through the handler. No comics: exit 0 with no load call. Otherwise exactly one load of the whole list, whose table and exit status are the chunked upsert's |
| Ingestion.RunIngestionAsWritten | ingestion/run_ingestion.py:18-22 | as written, every run whose database connects and whose select succeeds ends in an uncaught AttributeError; a failed connect or select exits 1; nothing is requested and nothing is loaded |
| Ingestion.IngestionKeepsRows | ingestion/run_ingestion.py:30 | a run never deletes a stored row, even when a batch fails |
| Ingestion.CleanRunStoresAll | ingestion/run_ingestion.py:30 | a run that exits 0 after loading stores exactly the old numbers plus the fetched comics' numbers |
| Ingestion.NextRunSkipsLoaded | ingestion/run_ingestion.py:20-30 | after a clean load, the next run requests none of the numbers now stored |
| Ingestion.OneComicOneChunk | ingestion/run_ingestion.py:30 | one fetched comic is one batch, so the run exits 1 exactly when batch 0 fails |

## Left out

- HTTP transport is an input function. This covers `requests.Session`, the User-Agent header and the 30-second timeout. A timeout or connection error is the `NoResponse` response.
- The payload decoder distinguishes only integers, strings and other JSON values. A JSON body that is not an object, and so makes `XKCDComic(**data)` raise TypeError, is not represented.
- ComicModel.ParseAcceptsExactly: pydantic's lax coercion is not modelled. For example, a numeric string for `num` is accepted by pydantic and rejected here. The model accepts exactly the payloads whose fields already have the declared types.
- The tenacity backoff delays (`wait_exponential`, 2 to 5 seconds) are left out because they are timing only. The attempt bound and the retried exception class are modelled.
- Extractor.XkcdExtractor.FetchComics: the thread pool and `as_completed` become a sequential loop in submission order. The order in which comics are yielded is therefore the ascending order of their numbers, where the code yields them in completion order. When several fetches raise non-request errors, the model reports the first in submission order, not the first to complete.
- Loader.XkcdLoader.Connect: the SQL of the schema bootstrap is reduced to one commit that leaves the rows unchanged. A single `reachable` input stands for both `psycopg.connect` and the DDL succeeding. The case where the connection opens and the DDL then fails, leaving `self.conn` set, is not separated.
- Loader.XkcdLoader.LoadComics: a failing `executemany` is one failed statement per batch. Its batch commits nothing, and the rows inside it are not split.
- The JSON text of `raw_json`: a row stores the dumped JSON object, not its serialised string.
- `uuid.uuid4()` and `datetime.now(UTC)` are inputs (`loadId`, `loadTs`).
- The 32-bit width of the `comic_id integer` column is not modelled.
- `DatabaseConfig` and `.env` loading, and all logging, are left out.
- The Airflow DAG wiring is not part of this model. Of the DAG's context, only `dag_run.external_trigger` is modelled.
- `check_new_comic_available` is a function of the API and of the outcome of opening the loader and reading its numbers. The with blocks it opens are not modelled as objects.
- Ingestion.RunIngestion: the order of the two `__exit__` calls (the loader first, then the extractor) is performed but not stated. The contract states only the final state.
- The process exit is an `ExitStatus` value, not a process exit.

## Findings

| source | as written | input that shows it | evidently intended | confidence | as-written member | corrected member |
|---|---|---|---|---|---|---|
| ingestion/run_ingestion.py:22 | `main` calls `extractor.fetch_missing_comics(existing_ids)`, but XKCDExtractor defines only `fetch_comics` (ingestion/extractor.py:81). The lookup raises AttributeError, which the handler does not catch | any run whose database connection and select of the stored numbers succeed | call `fetch_comics(existing_ids)`, then load what it yields | high; not executed | Ingestion.RunIngestionAsWritten | Ingestion.RunIngestion |
