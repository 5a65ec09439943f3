/** The loader: a two-state connection, the warehouse table as a map from
    comic_id to row, the chunked upsert loop of load_comics with one commit
    per chunk, and the read of the table's keys. */
module Loader {
  import opened Errors
  import opened ComicModel

  /** One row of raw.xkcd_comics: the dumped comic (raw_json), load_ts and
      load_id. The primary key comic_id is the map's key. */
  datatype Row = Row(rawJson: RawComic, loadTs: int, loadId: int)

  type Table = map<int, Row>

  /** load_comics' default batch_size. */
  const DefaultBatchSize: nat := 100

  /** The comic numbers of a list of comics. */
  function Ids(cs: seq<Comic>): set<int> {
    set c | c in cs :: c.num
  }

  /** Upserting the comics in order: insert each row, or overwrite the row
      with the same comic_id. */
  function UpsertAll(t: Table, cs: seq<Comic>, loadTs: int, loadId: int): Table
    decreases |cs|
  {
    if cs == [] then t
    else
      var last := cs[|cs| - 1];
      UpsertAll(t, cs[..|cs| - 1], loadTs, loadId)[last.num := Row(Dump(last), loadTs, loadId)]
  }

  /** Upserting two lists one after the other is upserting their
      concatenation. */
  lemma {:induction false} UpsertAllAppend(t: Table, a: seq<Comic>, b: seq<Comic>, loadTs: int, loadId: int)
    ensures UpsertAll(t, a + b, loadTs, loadId) == UpsertAll(UpsertAll(t, a, loadTs, loadId), b, loadTs, loadId)
    decreases |b|
  {
    if b == [] {
      assert a + b == a;
    } else {
      UpsertAllAppend(t, a, b[..|b| - 1], loadTs, loadId);
      assert (a + b)[..|a + b| - 1] == a + b[..|b| - 1];
    }
  }

  /** No row is deleted, and the keys gained are the input's comic numbers. */
  lemma {:induction false} UpsertKeys(t: Table, cs: seq<Comic>, loadTs: int, loadId: int)
    ensures UpsertAll(t, cs, loadTs, loadId).Keys == t.Keys + Ids(cs)
    decreases |cs|
  {
    if cs != [] {
      var init := cs[..|cs| - 1];
      UpsertKeys(t, init, loadTs, loadId);
      IdsSnoc(cs);
    }
  }

  /** The numbers of a list are those of all but its last comic, and the
      last comic's. */
  lemma IdsSnoc(cs: seq<Comic>)
    requires cs != []
    ensures Ids(cs) == Ids(cs[..|cs| - 1]) + {cs[|cs| - 1].num}
  {
    var init := cs[..|cs| - 1];
    forall id | id in Ids(cs)
      ensures id in Ids(init) + {cs[|cs| - 1].num}
    {
      var c :| c in cs && c.num == id;
      var i :| 0 <= i < |cs| && cs[i] == c;
      if i < |cs| - 1 {
        assert init[i] == c;
      }
    }
    assert cs == init + [cs[|cs| - 1]];
  }

  /** Rows whose comic_id is not in the input keep their previous value. */
  lemma {:induction false} UpsertKeepsOthers(t: Table, cs: seq<Comic>, loadTs: int, loadId: int, k: int)
    requires k in t && k !in Ids(cs)
    ensures k in UpsertAll(t, cs, loadTs, loadId) && UpsertAll(t, cs, loadTs, loadId)[k] == t[k]
    decreases |cs|
  {
    if cs != [] {
      var init := cs[..|cs| - 1];
      assert Ids(init) <= Ids(cs);
      UpsertKeepsOthers(t, init, loadTs, loadId, k);
    }
  }

  /** Last write wins: the row of a comic number is the dump of its last
      occurrence in the input, stamped with this call's load_ts and load_id. */
  lemma {:induction false} UpsertLastWins(t: Table, cs: seq<Comic>, loadTs: int, loadId: int, j: nat)
    requires j < |cs|
    requires forall j' :: j < j' < |cs| ==> cs[j'].num != cs[j].num
    ensures cs[j].num in UpsertAll(t, cs, loadTs, loadId)
    ensures UpsertAll(t, cs, loadTs, loadId)[cs[j].num] == Row(Dump(cs[j]), loadTs, loadId)
    decreases |cs|
  {
    if j < |cs| - 1 {
      UpsertLastWins(t, cs[..|cs| - 1], loadTs, loadId, j);
    }
  }

  /** Every row the input touches carries this call's load_ts and load_id,
      whatever the table held before. */
  lemma {:induction false} UpsertStamps(t: Table, cs: seq<Comic>, loadTs: int, loadId: int, k: int)
    requires k in Ids(cs)
    ensures k in UpsertAll(t, cs, loadTs, loadId)
    ensures UpsertAll(t, cs, loadTs, loadId)[k].loadTs == loadTs
    ensures UpsertAll(t, cs, loadTs, loadId)[k].loadId == loadId
    decreases |cs|
  {
    var last := cs[|cs| - 1];
    if k != last.num {
      var init := cs[..|cs| - 1];
      assert k in Ids(init) by {
        var c :| c in cs && c.num == k;
        assert c in init;
      }
      UpsertStamps(t, init, loadTs, loadId, k);
    }
  }

  /** The rows the input touches do not depend on what the table held. */
  lemma {:induction false} UpsertOverwrites(t1: Table, t2: Table, cs: seq<Comic>, loadTs: int, loadId: int, k: int)
    requires k in Ids(cs)
    ensures k in UpsertAll(t1, cs, loadTs, loadId) && k in UpsertAll(t2, cs, loadTs, loadId)
    ensures UpsertAll(t1, cs, loadTs, loadId)[k] == UpsertAll(t2, cs, loadTs, loadId)[k]
    decreases |cs|
  {
    UpsertStamps(t1, cs, loadTs, loadId, k);
    UpsertStamps(t2, cs, loadTs, loadId, k);
    var last := cs[|cs| - 1];
    if k != last.num {
      var init := cs[..|cs| - 1];
      assert k in Ids(init) by {
        var c :| c in cs && c.num == k;
        assert c in init;
      }
      UpsertOverwrites(t1, t2, init, loadTs, loadId, k);
    }
  }

  /** Loading the same comics again leaves one row per comic number, with
      the second load's payload, load_ts and load_id. */
  lemma ReloadOverwrites(t: Table, cs: seq<Comic>, ts1: int, id1: int, ts2: int, id2: int)
    ensures UpsertAll(UpsertAll(t, cs, ts1, id1), cs, ts2, id2) == UpsertAll(t, cs, ts2, id2)
  {
    var once := UpsertAll(t, cs, ts1, id1);
    var twice := UpsertAll(once, cs, ts2, id2);
    var direct := UpsertAll(t, cs, ts2, id2);
    UpsertKeys(t, cs, ts1, id1);
    UpsertKeys(once, cs, ts2, id2);
    UpsertKeys(t, cs, ts2, id2);
    forall k | k in twice.Keys ensures twice[k] == direct[k] {
      if k in Ids(cs) {
        UpsertOverwrites(once, t, cs, ts2, id2, k);
      } else {
        UpsertKeepsOthers(t, cs, ts1, id1, k);
        UpsertKeepsOthers(once, cs, ts2, id2, k);
        UpsertKeepsOthers(t, cs, ts2, id2, k);
      }
    }
  }

  /** The slices comics[i : i + b] for i in range(0, len(comics), b). */
  function Chunks<T>(s: seq<T>, b: nat): seq<seq<T>>
    requires b > 0
    decreases |s|
  {
    if s == [] then []
    else if |s| <= b then [s]
    else [s[..b]] + Chunks(s[b..], b)
  }

  /** The concatenation of a list of chunks. */
  function Flatten<T>(xs: seq<seq<T>>): seq<T>
    decreases |xs|
  {
    if xs == [] then [] else Flatten(xs[..|xs| - 1]) + xs[|xs| - 1]
  }

  lemma {:induction false} FlattenCons<T>(x: seq<T>, xs: seq<seq<T>>)
    ensures Flatten([x] + xs) == x + Flatten(xs)
    decreases |xs|
  {
    if xs != [] {
      FlattenCons(x, xs[..|xs| - 1]);
      assert ([x] + xs)[..|xs|] == [x] + xs[..|xs| - 1];
    } else {
      assert [x][..0] == [];
    }
  }

  /** The chunks, concatenated in order, are the input: nothing is dropped,
      repeated or reordered. */
  lemma {:induction false} ChunksConcatenate<T>(s: seq<T>, b: nat)
    requires b > 0
    ensures Flatten(Chunks(s, b)) == s
    decreases |s|
  {
    if s != [] {
      if |s| <= b {
        assert Flatten([s]) == Flatten([s][..0]) + s;
      } else {
        ChunksConcatenate(s[b..], b);
        FlattenCons(s[..b], Chunks(s[b..], b));
        assert s[..b] + s[b..] == s;
      }
    }
  }

  /** Every chunk holds between 1 and b items, and all but the last hold
      exactly b. */
  lemma {:induction false} ChunkSizes<T>(s: seq<T>, b: nat)
    requires b > 0
    ensures forall j :: 0 <= j < |Chunks(s, b)| ==> 0 < |Chunks(s, b)[j]| <= b
    ensures forall j :: 0 <= j < |Chunks(s, b)| - 1 ==> |Chunks(s, b)[j]| == b
    decreases |s|
  {
    if |s| > b {
      ChunkSizes(s[b..], b);
      var cs := Chunks(s, b);
      assert forall j :: 1 <= j < |cs| ==> cs[j] == Chunks(s[b..], b)[j - 1];
    }
  }

  /** (y + b) / b == y / b + 1 */
  lemma DivStep(y: nat, b: nat)
    requires b > 0
    ensures (y + b) / b == y / b + 1
  {
    var q, r := y / b, y % b;
    assert y == q * b + r;
    assert y + b == (q + 1) * b + r;
    DivUnique(y + b, b, q + 1, r);
  }

  lemma DivUnique(x: nat, b: nat, q: nat, r: nat)
    requires b > 0 && r < b && x == q * b + r
    ensures x / b == q
  {
    var q', r' := x / b, x % b;
    assert x == q' * b + r';
    if q' < q {
      MulAtLeast(q - q', b);
    } else if q' > q {
      MulAtLeast(q' - q, b);
    }
  }

  lemma {:induction false} MulAtLeast(d: nat, b: nat)
    requires d >= 1
    ensures d * b >= b
  {
    if d > 1 {
      MulAtLeast(d - 1, b);
      assert d * b == (d - 1) * b + b;
    }
  }

  /** There are ceil(N / b) chunks. */
  lemma {:induction false} ChunkCount<T>(s: seq<T>, b: nat)
    requires b > 0
    ensures |Chunks(s, b)| == (|s| + b - 1) / b
    decreases |s|
  {
    if s == [] {
      DivUnique(b - 1, b, 0, b - 1);
    } else if |s| <= b {
      DivUnique(|s| + b - 1, b, 1, |s| - 1);
    } else {
      ChunkCount(s[b..], b);
      DivStep(|s| - b + b - 1, b);
    }
  }

  /** 250 comics in batches of 100 are three chunks. */
  lemma ChunkCountExample<T>(s: seq<T>)
    requires |s| == 250
    ensures |Chunks(s, 100)| == 3
  {
    ChunkCount(s, 100);
  }

  /** The concatenation of the first k items is a prefix of the whole
      concatenation. */
  lemma {:induction false} FlattenPrefix<T>(xs: seq<seq<T>>, k: nat)
    requires k <= |xs|
    ensures Flatten(xs[..k]) <= Flatten(xs)
    decreases |xs|
  {
    if k < |xs| {
      var init := xs[..|xs| - 1];
      FlattenPrefix(init, k);
      assert init[..k] == xs[..k];
      var p, q := Flatten(xs[..k]), Flatten(init);
      assert Flatten(xs) == q + xs[|xs| - 1];
      assert forall j :: 0 <= j < |p| ==> p[j] == q[j] == Flatten(xs)[j];
    } else {
      assert xs[..k] == xs;
    }
  }

  /** The first k chunks, concatenated, are a prefix of the input. */
  lemma ChunkPrefix<T>(s: seq<T>, b: nat, k: nat)
    requires b > 0 && k <= |Chunks(s, b)|
    ensures Flatten(Chunks(s, b)[..k]) <= s
  {
    ChunksConcatenate(s, b);
    FlattenPrefix(Chunks(s, b), k);
  }

  /** How many chunks a load commits: all of them, or those before the
      chunk whose statement fails. */
  function Committed(n: nat, failingChunk: Option<nat>): nat {
    if failingChunk.Some? && failingChunk.value < n then failingChunk.value else n
  }

  /** The table after a load whose batch size is positive: the committed
      chunks' rows upserted into the table. */
  function LoadedTable(t: Table, comics: seq<Comic>, batchSize: nat, loadTs: int, loadId: int, failingChunk: Option<nat>): Table
    requires batchSize > 0
  {
    var chunks := Chunks(comics, batchSize);
    UpsertAll(t, Flatten(chunks[..Committed(|chunks|, failingChunk)]), loadTs, loadId)
  }

  /** A load with no failing chunk upserts every input comic; one whose
      chunk k fails keeps the rows of the chunks before k, which form a
      prefix of the input. */
  lemma LoadedTableIsUpsert(t: Table, comics: seq<Comic>, batchSize: nat, loadTs: int, loadId: int, failingChunk: Option<nat>)
    requires batchSize > 0
    ensures var n := |Chunks(comics, batchSize)|;
      Committed(n, failingChunk) == n ==> LoadedTable(t, comics, batchSize, loadTs, loadId, failingChunk) == UpsertAll(t, comics, loadTs, loadId)
    ensures exists p :: p <= comics && LoadedTable(t, comics, batchSize, loadTs, loadId, failingChunk) == UpsertAll(t, p, loadTs, loadId)
  {
    var chunks := Chunks(comics, batchSize);
    var k := Committed(|chunks|, failingChunk);
    ChunkPrefix(comics, batchSize, k);
    var p := Flatten(chunks[..k]);
    assert p <= comics && LoadedTable(t, comics, batchSize, loadTs, loadId, failingChunk) == UpsertAll(t, p, loadTs, loadId);
    if k == |chunks| {
      assert chunks[..k] == chunks;
      ChunksConcatenate(comics, batchSize);
    }
  }

  /** The database: the table outlives every connection to it. */
  class Warehouse {
    var table: Table

    constructor (table: Table)
      ensures this.table == table
    {
      this.table := table;
    }
  }

  /** XKCDLoader: whether self.conn is open, how many connections,
      upsert statements and commits it has made, and (for specification
      only) the argument of every load_comics call. */
  class XkcdLoader {
    const db: Warehouse
    var connected: bool
    var connections: nat
    var upserts: nat
    var commits: nat
    var selects: nat
    ghost var loads: seq<seq<Comic>>

    constructor (db: Warehouse)
      ensures this.db == db && !connected
      ensures connections == 0 && upserts == 0 && commits == 0 && selects == 0 && loads == []
    {
      this.db := db;
      connected := false;
      connections, upserts, commits, selects := 0, 0, 0, 0;
      loads := [];
    }

    /** connect: a no-op when already connected; otherwise open a connection
        and commit the schema bootstrap, which leaves the rows as they are.
        `reachable` says whether psycopg.connect and the bootstrap succeed. */
    method Connect(reachable: bool) returns (err: Option<Exc>)
      modifies this`connected, this`connections, this`commits
      ensures err == (if old(connected) || reachable then None else Some(PsycopgError))
      ensures connected == (old(connected) || reachable)
      ensures !old(connected) && reachable ==> connections == old(connections) + 1 && commits == old(commits) + 1
      ensures old(connected) || !reachable ==> connections == old(connections) && commits == old(commits)
    {
      if connected {
        return None;
      }
      if !reachable {
        return Some(PsycopgError);
      }
      connected := true;
      connections := connections + 1;
      commits := commits + 1;
      err := None;
    }

    /** disconnect: closes the connection if there is one; always safe. */
    method Disconnect()
      modifies this`connected
      ensures !connected
    {
      if connected {
        connected := false;
      }
    }

    /** load_comics: one load_id and load_ts for the whole call; each chunk
        is one upsert statement followed by a commit. `failingChunk` names
        the chunk, if any, whose statement raises a database error; the
        chunks before it stay committed. */
    method LoadComics(comics: seq<Comic>, batchSize: int, loadTs: int, loadId: int, failingChunk: Option<nat>)
      returns (err: Option<Exc>)
      modifies this`upserts, this`commits, this`loads, db`table
      ensures loads == old(loads) + [comics]
      ensures !old(connected) ==> err == Some(NotConnected)
      ensures !old(connected) || batchSize <= 0 ==>
        db.table == old(db.table) && upserts == old(upserts) && commits == old(commits)
      ensures old(connected) && batchSize == 0 ==> err == Some(ValueError)
      ensures old(connected) && batchSize < 0 ==> err == None
      ensures old(connected) && batchSize > 0 ==>
        var n := |Chunks(comics, batchSize)|;
        var done := Committed(n, failingChunk);
        && db.table == LoadedTable(old(db.table), comics, batchSize, loadTs, loadId, failingChunk)
        && commits == old(commits) + done
        && upserts == old(upserts) + (if done < n then done + 1 else n)
        && err == (if done < n then Some(PsycopgError) else None)
    {
      loads := loads + [comics];
      if !connected {
        return Some(NotConnected);
      }
      if batchSize == 0 {
        return Some(ValueError);
      }
      if batchSize < 0 {
        return None;
      }
      err := UpsertInChunks(comics, batchSize, loadTs, loadId, failingChunk);
    }

    /** The loop of load_comics on an open connection, for
        i in range(0, len(comics), batchSize). */
    method UpsertInChunks(comics: seq<Comic>, batchSize: nat, loadTs: int, loadId: int, failingChunk: Option<nat>)
      returns (err: Option<Exc>)
      requires batchSize > 0
      modifies this`upserts, this`commits, db`table
      ensures var n := |Chunks(comics, batchSize)|;
        var done := Committed(n, failingChunk);
        && db.table == LoadedTable(old(db.table), comics, batchSize, loadTs, loadId, failingChunk)
        && commits == old(commits) + done
        && upserts == old(upserts) + (if done < n then done + 1 else n)
        && err == (if done < n then Some(PsycopgError) else None)
    {
      var chunks := Chunks(comics, batchSize);
      ghost var t0 := db.table;
      // Pass k of the loop is the one with i == k * batchSize, and its
      // batch comics[i : i + batchSize] is chunks[k] (ChunkAt).
      for k := 0 to |chunks|
        invariant db.table == UpsertAll(t0, Flatten(chunks[..k]), loadTs, loadId)
        invariant commits == old(commits) + k && upserts == old(upserts) + k
        invariant failingChunk.Some? ==> k <= failingChunk.value
      {
        var batch := chunks[k];
        upserts := upserts + 1;
        if failingChunk == Some(k) {
          return Some(PsycopgError);
        }
        assert failingChunk.Some? ==> k + 1 <= failingChunk.value;
        UpsertNextChunk(t0, chunks, k, loadTs, loadId);
        db.table := UpsertAll(db.table, batch, loadTs, loadId);
        commits := commits + 1;
      }
      assert chunks[..|chunks|] == chunks;
      ChunksConcatenate(comics, batchSize);
      err := None;
    }

    /** get_existing_comic_ids: the table's key set, the not-connected
        error, or the psycopg error of a select that fails (`selectFails`).
        Each call on a connection runs the select once. */
    method GetExistingComicIds(selectFails: bool) returns (r: Result<set<int>, Exc>)
      modifies this`selects
      ensures !connected ==> r == Err(NotConnected) && selects == old(selects)
      ensures connected ==> selects == old(selects) + 1
      ensures connected && selectFails ==> r == Err(PsycopgError)
      ensures connected && !selectFails ==> r == Ok(db.table.Keys)
    {
      if !connected {
        return Err(NotConnected);
      }
      selects := selects + 1;
      if selectFails {
        return Err(PsycopgError);
      }
      r := Ok(db.table.Keys);
    }

    /** __enter__: connect. */
    method Enter(reachable: bool) returns (err: Option<Exc>)
      modifies this`connected, this`connections, this`commits
      ensures err == (if old(connected) || reachable then None else Some(PsycopgError))
      ensures connected == (old(connected) || reachable)
      ensures !old(connected) && reachable ==> connections == old(connections) + 1 && commits == old(commits) + 1
      ensures old(connected) || !reachable ==> connections == old(connections) && commits == old(commits)
    {
      err := Connect(reachable);
    }

    /** __exit__: disconnect. */
    method Exit()
      modifies this`connected
      ensures !connected
    {
      Disconnect();
    }
  }

  /** Upserting one more chunk extends the upsert of the chunks before it. */
  lemma UpsertNextChunk(t: Table, chunks: seq<seq<Comic>>, k: nat, loadTs: int, loadId: int)
    requires k < |chunks|
    ensures UpsertAll(UpsertAll(t, Flatten(chunks[..k]), loadTs, loadId), chunks[k], loadTs, loadId) ==
      UpsertAll(t, Flatten(chunks[..k + 1]), loadTs, loadId)
  {
    assert chunks[..k + 1][..k] == chunks[..k];
    UpsertAllAppend(t, Flatten(chunks[..k]), chunks[k], loadTs, loadId);
  }

  /** The j-th chunk is the slice s[j * b : (j + 1) * b], and it starts
      inside s: the chunks are the batches of
      for i in range(0, len(s), b). */
  lemma {:induction false} ChunkAt<T>(s: seq<T>, b: nat, j: nat)
    requires b > 0 && j < |Chunks(s, b)|
    ensures j * b < |s|
    ensures Chunks(s, b)[j] == s[j * b..if (j + 1) * b <= |s| then (j + 1) * b else |s|]
    decreases |s|
  {
    if j > 0 {
      MulSucc(j - 1, b);
      MulSucc(j, b);
      ChunkAt(s[b..], b, j - 1);
    }
  }

  lemma MulSucc(k: nat, b: nat)
    ensures (k + 1) * b == k * b + b
  {
  }
}
