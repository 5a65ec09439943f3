/** The ingestion driver: an extractor and a loader opened together, the
    stored comic numbers read, the missing comics fetched and, when there
    are any, loaded in one call; RuntimeError and psycopg errors end the run
    with exit status 1. The remote API, whether the database can be reached,
    whether its select of the stored numbers fails, the load's timestamp and
    id, and the chunk (if any) whose statement fails are inputs. */
module Ingestion {
  import opened Errors
  import opened ComicModel
  import opened Urls
  import opened Extractor
  import opened Loader

  /** How the process ends: an exit status, or an exception that escapes
      main. */
  datatype ExitStatus = Exited(code: int) | Uncaught(error: Exc)

  /** The handler around main's body: RuntimeError and psycopg.Error are
      logged and become sys.exit(1); anything else escapes. */
  function Handled(e: Exc): (s: ExitStatus)
    ensures s == Exited(1) <==> e.RuntimeError? || e.PsycopgError?
    ensures s != Exited(1) ==> s == Uncaught(e)
  {
    if e.RuntimeError? || e.PsycopgError? then Exited(1) else Uncaught(e)
  }

  /** How a load of `cs` in batches of DefaultBatchSize ends: status 1 when
      a chunk's statement fails, 0 otherwise. */
  function LoadStatus(cs: seq<Comic>, failingChunk: Option<nat>): (s: ExitStatus)
    ensures s == Exited(0) || s == Exited(1)
    ensures s == Exited(1) <==> failingChunk.Some? && failingChunk.value * DefaultBatchSize < |cs|
  {
    var n := |Chunks(cs, DefaultBatchSize)|;
    ChunkCount(cs, DefaultBatchSize);
    if Committed(n, failingChunk) < n then Exited(1) else Exited(0)
  }

  /** main with the missing-comics call made to fetch_comics, the generator
      the extractor has. The loader's with block closes the connection and
      then the extractor's closes the session, on every path. The stored
      numbers are selected once per connected run; `selectFails` says
      whether that select raises. `requested` is what fetch_comics submits
      for fetching, empty when it is not called. */
  method RunIngestion(db: Warehouse, server: Server, dbReachable: bool, selectFails: bool, loadTs: int, loadId: int, failingChunk: Option<nat>)
    returns (status: ExitStatus, requested: seq<int>, extractor: XkcdExtractor, loader: XkcdLoader)
    modifies db
    ensures fresh(extractor) && fresh(loader) && loader.db == db
    ensures !extractor.sessionOpen && !loader.connected
    ensures loader.selects == (if dbReachable then 1 else 0)
    ensures !dbReachable || selectFails ==>
      status == Exited(1) && requested == [] && db.table == old(db.table) && loader.loads == []
    ensures dbReachable && !selectFails ==>
      && requested == RequestedIds(DefaultBaseUrl, server, old(db.table).Keys)
      && match FetchComicsResult(DefaultBaseUrl, server, old(db.table).Keys)
         case Err(e) =>
           status == Handled(e) && db.table == old(db.table) && loader.loads == []
         case Ok(cs) =>
           if cs == [] then
             status == Exited(0) && db.table == old(db.table) && loader.loads == []
           else
             && loader.loads == [cs]
             && db.table == LoadedTable(old(db.table), cs, DefaultBatchSize, loadTs, loadId, failingChunk)
             && status == LoadStatus(cs, failingChunk)
  {
    extractor := new XkcdExtractor(DefaultBaseUrl);
    RStripKeepsNormalised(DefaultBaseUrl);
    loader := new XkcdLoader(db);
    requested := [];
    var entered := loader.Enter(dbReachable);
    if entered.Some? {
      extractor.Exit();
      return Handled(entered.value), requested, extractor, loader;
    }
    var stored := loader.GetExistingComicIds(selectFails);
    if stored.Err? {
      loader.Exit();
      extractor.Exit();
      return Handled(stored.error), requested, extractor, loader;
    }
    var fetched;
    requested, fetched := extractor.FetchComics(stored.value, server);
    if fetched.Err? {
      loader.Exit();
      extractor.Exit();
      return Handled(fetched.error), requested, extractor, loader;
    }
    var comics := fetched.value;
    if comics == [] {
      status := Exited(0);
    } else {
      var err := loader.LoadComics(comics, DefaultBatchSize, loadTs, loadId, failingChunk);
      status := if err.Some? then Handled(err.value) else Exited(0);
    }
    loader.Exit();
    extractor.Exit();
  }

  /** main as written: the body calls extractor.fetch_missing_comics, which
      XKCDExtractor does not define, so once the stored numbers are read the
      attribute lookup raises AttributeError, which the handler does not
      catch. Nothing is fetched and nothing is loaded. */
  method RunIngestionAsWritten(db: Warehouse, server: Server, dbReachable: bool, selectFails: bool)
    returns (status: ExitStatus, requested: seq<int>, extractor: XkcdExtractor, loader: XkcdLoader)
    modifies db
    ensures fresh(extractor) && fresh(loader) && loader.db == db
    ensures !extractor.sessionOpen && !loader.connected
    ensures db.table == old(db.table) && loader.loads == [] && requested == []
    ensures !dbReachable || selectFails ==> status == Exited(1)
    ensures dbReachable && !selectFails ==> status == Uncaught(AttributeError("fetch_missing_comics"))
  {
    extractor := new XkcdExtractor(DefaultBaseUrl);
    loader := new XkcdLoader(db);
    requested := [];
    var entered := loader.Enter(dbReachable);
    if entered.Some? {
      extractor.Exit();
      return Handled(entered.value), requested, extractor, loader;
    }
    var stored := loader.GetExistingComicIds(selectFails);
    if stored.Err? {
      loader.Exit();
      extractor.Exit();
      return Handled(stored.error), requested, extractor, loader;
    }
    var raised := AttributeError("fetch_missing_comics");
    loader.Exit();
    extractor.Exit();
    status := Handled(raised);
  }

  /** A run never deletes a row: the stored numbers after a load include
      the ones before it. */
  lemma IngestionKeepsRows(t: Table, cs: seq<Comic>, loadTs: int, loadId: int, failingChunk: Option<nat>)
    ensures t.Keys <= LoadedTable(t, cs, DefaultBatchSize, loadTs, loadId, failingChunk).Keys
  {
    var chunks := Chunks(cs, DefaultBatchSize);
    UpsertKeys(t, Flatten(chunks[..Committed(|chunks|, failingChunk)]), loadTs, loadId);
  }

  /** A load that exits with status 0 stores every comic fetched, and no
      other number. */
  lemma CleanRunStoresAll(t: Table, cs: seq<Comic>, loadTs: int, loadId: int, failingChunk: Option<nat>)
    requires LoadStatus(cs, failingChunk) == Exited(0)
    ensures LoadedTable(t, cs, DefaultBatchSize, loadTs, loadId, failingChunk).Keys == t.Keys + Ids(cs)
  {
    LoadedTableIsUpsert(t, cs, DefaultBatchSize, loadTs, loadId, failingChunk);
    UpsertKeys(t, cs, loadTs, loadId);
  }

  /** The run is incremental: after a clean load, the next run, against
      the same current comic, requests none of the numbers this run
      stored or found stored. */
  lemma NextRunSkipsLoaded(t: Table, cs: seq<Comic>, loadTs: int, loadId: int, failingChunk: Option<nat>, maxId: int)
    requires LoadStatus(cs, failingChunk) == Exited(0)
    ensures forall id :: id in MissingIds(maxId, LoadedTable(t, cs, DefaultBatchSize, loadTs, loadId, failingChunk).Keys) ==>
      id !in t.Keys && id !in Ids(cs)
  {
    CleanRunStoresAll(t, cs, loadTs, loadId, failingChunk);
  }

  /** A single comic is one chunk: its load exits with status 1 exactly
      when chunk 0 fails. */
  lemma OneComicOneChunk(c: Comic, failingChunk: Option<nat>)
    ensures LoadStatus([c], failingChunk) == Exited(1) <==> failingChunk == Some(0)
  {
    assert |Chunks([c], DefaultBatchSize)| == 1;
  }
}
