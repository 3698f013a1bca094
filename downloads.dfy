/**
 * The download passes: `download_updates`, `sync_downloads` and
 * `update_local_hash`. A successful download writes `downloaded_date`
 * and `local_hash` of its row in one statement; a non-ok response leaves
 * the row alone. `download_updates` also catches every raised fault and
 * goes on, `sync_downloads` does not: a fault ends that pass.
 */
module Downloads {
  import opened Wrappers
  import opened SqlValues
  import opened Remote
  import opened FilesIndex

  /** `datetime.utcnow().isoformat()` at the moment the row's update is written. */
  type Clock = Path -> Timestamp

  /** Whether the file under the local directory exists, and its bytes. */
  type LocalFiles = Path -> Option<Bytes>

  /**
   * The WHERE clause of `download_updates`, in SQL's three-valued logic:
   * `item_type = 'file' AND (lower(cloud_hash) != lower(local_hash) OR local_hash IS NULL)`.
   */
  predicate Outstanding(r: Row)
  {
    r.kind == File && Or(NotEqual(LowerOpt(r.cloudHash), LowerOpt(r.localHash)), IsNull(r.localHash)).Yes?
  }

  /** The WHERE clause of `sync_downloads`: file rows never downloaded. */
  predicate NeverDownloaded(r: Row)
  {
    r.kind == File && r.downloadedDate.None?
  }

  /** One row after its download attempt `d`. */
  function AfterDownload(k: Path, r: Row, d: Download, digest: Digest, clock: Clock): Row
  {
    match d
    case Content(b) => r.(downloadedDate := Some(clock(k)), localHash := Some(digest(b)))
    case _ => r
  }

  /** The table after `download_updates`: every outstanding row attempted once. */
  function DownloadPass(t: Table, fetch: Fetcher, digest: Digest, clock: Clock): (u: Table)
    ensures u.Keys == t.Keys
    ensures forall k :: k in t ==>
      u[k] == t[k].(downloadedDate := u[k].downloadedDate, localHash := u[k].localHash)
    ensures forall k :: k in t && u[k] != t[k] ==> Outstanding(t[k]) && fetch(t[k].itemId).Content?
    ensures forall k :: k in t && Outstanding(t[k]) && fetch(t[k].itemId).Content? ==>
      u[k].downloadedDate.Some? && u[k].localHash == Some(digest(fetch(t[k].itemId).bytes))
  {
    map k | k in t :: if Outstanding(t[k]) then AfterDownload(k, t[k], fetch(t[k].itemId), digest, clock) else t[k]
  }

  /** The rows whose download succeeds: what the `updated` counter counts. */
  function DownloadSuccesses(t: Table, fetch: Fetcher): set<Path>
  {
    set k | k in t && Outstanding(t[k]) && DownloadOk(t, fetch)(k)
  }

  /** Which rows a download attempt counts as a success, for the `updated` and `downloaded` counters. */
  function DownloadOk(fetched: Table, fetch: Fetcher): Path -> bool
  {
    k => k in fetched && fetch(fetched[k].itemId).Content?
  }

  /** The download attempt the pass makes on one selected row. */
  function Attempt(fetch: Fetcher, digest: Digest, clock: Clock): (Path, Row) -> Row
  {
    (k: Path, r: Row) => AfterDownload(k, r, fetch(r.itemId), digest, clock)
  }

  method DownloadUpdates(db: FilesTable, fetch: Fetcher, digest: Digest, clock: Clock) returns (updated: nat)
    modifies db
    ensures db.rows == DownloadPass(old(db.rows), fetch, digest, clock)
    ensures updated == |DownloadSuccesses(old(db.rows), fetch)|
  {
    var keys := db.SelectWhere(Outstanding);
    var fetched := db.rows;
    updated := 0;
    for i := 0 to |keys|
      invariant db.rows == AppliedTo(fetched, keys, i, Attempt(fetch, digest, clock))
      invariant updated == Count(keys[..i], DownloadOk(fetched, fetch))
    {
      var item := keys[i];
      CountStep(keys, i, DownloadOk(fetched, fetch));
      match fetch(fetched[item].itemId)
      case Content(b) =>
        DownloadedStep(fetched, keys, i, fetch, digest, clock);
        db.SetDownloaded(item, clock(item), digest(b));
        updated := updated + 1;
      case NotOk(_) =>
        DownloadedStep(fetched, keys, i, fetch, digest, clock);
      case Raised(_) =>
        DownloadedStep(fetched, keys, i, fetch, digest, clock);
    }
    DownloadPassApplied(fetched, keys, fetch, digest, clock);
    assert keys[..|keys|] == keys;
    CountDistinct(keys, DownloadOk(fetched, fetch), DownloadSuccesses(fetched, fetch));
  }

  /** One more selected key attempted: only a successful download changes its row. */
  lemma DownloadedStep(t: Table, keys: seq<Path>, i: nat, fetch: Fetcher, digest: Digest, clock: Clock)
    requires i < |keys| && Distinct(keys) && keys[i] in t
    ensures var k, before := keys[i], AppliedTo(t, keys, i, Attempt(fetch, digest, clock));
      var after := AppliedTo(t, keys, i + 1, Attempt(fetch, digest, clock));
      && k in before
      && (fetch(t[k].itemId).Content? ==>
            after == before[k := before[k].(downloadedDate := Some(clock(k)), localHash := Some(digest(fetch(t[k].itemId).bytes)))])
      && (!fetch(t[k].itemId).Content? ==> after == before)
  {
    AppliedStep(t, keys, i, Attempt(fetch, digest, clock));
  }

  /** Attempting every selected key, in any order, gives the pass's result. */
  lemma DownloadPassApplied(t: Table, keys: seq<Path>, fetch: Fetcher, digest: Digest, clock: Clock)
    requires forall k :: k in keys <==> k in t && Outstanding(t[k])
    ensures AppliedTo(t, keys, |keys|, Attempt(fetch, digest, clock)) == DownloadPass(t, fetch, digest, clock)
  {
    assert keys[..|keys|] == keys;
  }

  /** What a `sync_downloads` pass ends with. */
  datatype SyncOutcome = SyncOutcome(rows: Table, downloaded: nat, failure: Option<Fault>)

  /**
   * `sync_downloads` over the fetched rows in the order `order`; `fetched`
   * is the result set, from which each row's item id is taken.
   */
  function SyncPass(t: Table, order: seq<Path>, fetched: Table, fetch: Fetcher, digest: Digest, clock: Clock): SyncOutcome
    requires forall k :: k in order ==> k in fetched
    decreases order
  {
    if order == [] then SyncOutcome(t, 0, None)
    else
      var k := order[0];
      var d := fetch(fetched[k].itemId);
      if d.Raised? then SyncOutcome(t, 0, Some(d.fault))
      else
        var t1 := if k in t then t[k := AfterDownload(k, t[k], d, digest, clock)] else t;
        var r := SyncPass(t1, order[1..], fetched, fetch, digest, clock);
        if d.Content? then r.(downloaded := r.downloaded + 1) else r
  }

  /** How many rows of `order` are attempted before the first raised fault. */
  function FirstRaised(order: seq<Path>, fetched: Table, fetch: Fetcher): (p: nat)
    requires forall k :: k in order ==> k in fetched
    ensures p <= |order|
    ensures forall i :: 0 <= i < p ==> !fetch(fetched[order[i]].itemId).Raised?
    ensures p < |order| ==> fetch(fetched[order[p]].itemId).Raised?
    decreases order
  {
    if order == [] || fetch(fetched[order[0]].itemId).Raised? then 0
    else 1 + FirstRaised(order[1..], fetched, fetch)
  }

  method SyncDownloads(db: FilesTable, fetch: Fetcher, digest: Digest, clock: Clock)
    returns (order: seq<Path>, downloaded: nat, failure: Option<Fault>)
    modifies db
    ensures Distinct(order)
    ensures forall k :: k in order <==> k in old(db.rows) && NeverDownloaded(old(db.rows)[k])
    ensures SyncPass(old(db.rows), order, old(db.rows), fetch, digest, clock)
      == SyncOutcome(db.rows, downloaded, failure)
  {
    order := db.SelectWhere(NeverDownloaded);
    var fetched := db.rows;
    downloaded, failure := 0, None;
    for i := 0 to |order|
      invariant db.rows.Keys == fetched.Keys
      invariant forall k :: k in order ==> k in fetched
      invariant
        var rest := SyncPass(db.rows, order[i..], fetched, fetch, digest, clock);
        SyncPass(fetched, order, fetched, fetch, digest, clock) == rest.(downloaded := downloaded + rest.downloaded)
    {
      var item := order[i];
      ghost var rest := SyncPass(db.rows, order[i..], fetched, fetch, digest, clock);
      ghost var t1 := db.rows[item := AfterDownload(item, db.rows[item], fetch(fetched[item].itemId), digest, clock)];
      ghost var next := SyncPass(t1, order[i + 1..], fetched, fetch, digest, clock);
      assert order[i..][1..] == order[i + 1..];
      match fetch(fetched[item].itemId)
      case Raised(f) =>
        assert rest == SyncOutcome(db.rows, 0, Some(f));
        failure := Some(f);
        return;
      case Content(b) =>
        assert rest == next.(downloaded := next.downloaded + 1);
        db.SetDownloaded(item, clock(item), digest(b));
        assert db.rows == t1;
        downloaded := downloaded + 1;
      case NotOk(_) =>
        assert rest == next;
        assert db.rows == t1;
    }
  }

  /** The table after `update_local_hash`: every file row whose local copy exists is re-hashed. */
  function RehashPass(t: Table, disk: LocalFiles, digest: Digest): (u: Table)
    ensures u.Keys == t.Keys
    ensures forall k :: k in t ==> u[k] == t[k].(localHash := u[k].localHash)
    ensures forall k :: k in t && t[k].kind == File && disk(k).Some? ==> u[k].localHash == Some(digest(disk(k).value))
    ensures forall k :: k in t && (t[k].kind == Folder || disk(k).None?) ==> u[k] == t[k]
  {
    map k | k in t :: if t[k].kind == File && disk(k).Some? then t[k].(localHash := Some(digest(disk(k).value))) else t[k]
  }

  /** The rows whose local copy exists: what the `updated` counter of `update_local_hash` counts. */
  function Rehashable(t: Table, disk: LocalFiles): set<Path>
  {
    set k | k in t && t[k].kind == File && LocalCopyExists(disk)(k)
  }

  /** Which visited rows `update_local_hash` counts: those whose local copy exists. */
  function LocalCopyExists(disk: LocalFiles): Path -> bool
  {
    k => disk(k).Some?
  }

  /** What the pass does to one file row: re-hash it when its local copy exists. */
  function Rehash(disk: LocalFiles, digest: Digest): (Path, Row) -> Row
  {
    (k: Path, r: Row) => if disk(k).Some? then r.(localHash := Some(digest(disk(k).value))) else r
  }

  method UpdateLocalHash(db: FilesTable, disk: LocalFiles, digest: Digest) returns (updated: nat)
    modifies db
    ensures db.rows == RehashPass(old(db.rows), disk, digest)
    ensures updated == |Rehashable(old(db.rows), disk)|
  {
    var keys := db.SelectWhere((r: Row) => r.kind == File);
    var fetched := db.rows;
    updated := 0;
    for i := 0 to |keys|
      invariant db.rows == AppliedTo(fetched, keys, i, Rehash(disk, digest))
      invariant updated == Count(keys[..i], LocalCopyExists(disk))
    {
      var item := keys[i];
      CountStep(keys, i, LocalCopyExists(disk));
      RehashedStep(fetched, keys, i, disk, digest);
      match disk(item)
      case Some(bytes) =>
        db.SetLocalHash(item, digest(bytes));
        updated := updated + 1;
      case None =>
    }
    RehashPassApplied(fetched, keys, disk, digest);
    assert keys[..|keys|] == keys;
    CountDistinct(keys, LocalCopyExists(disk), Rehashable(fetched, disk));
  }

  /** One more file key visited: its row is re-hashed exactly when its local copy exists. */
  lemma RehashedStep(t: Table, keys: seq<Path>, i: nat, disk: LocalFiles, digest: Digest)
    requires i < |keys| && Distinct(keys) && keys[i] in t
    ensures var k, before := keys[i], AppliedTo(t, keys, i, Rehash(disk, digest));
      var after := AppliedTo(t, keys, i + 1, Rehash(disk, digest));
      && k in before
      && (disk(k).Some? ==> after == before[k := before[k].(localHash := Some(digest(disk(k).value)))])
      && (disk(k).None? ==> after == before)
  {
    AppliedStep(t, keys, i, Rehash(disk, digest));
  }

  /** Re-hashing every file key, in any order, gives the pass's result. */
  lemma RehashPassApplied(t: Table, keys: seq<Path>, disk: LocalFiles, digest: Digest)
    requires forall k :: k in keys <==> k in t && t[k].kind == File
    ensures AppliedTo(t, keys, |keys|, Rehash(disk, digest)) == RehashPass(t, disk, digest)
  {
    assert keys[..|keys|] == keys;
  }

  // ---------------------------------------------------------------------
  // Properties of the download passes

  /**
   * Under SQL NULL semantics `download_updates` selects a file row exactly
   * when its local hash is NULL, or both hashes are present and differ
   * ignoring ASCII case; a row with NULL cloud hash and a local hash is
   * never selected.
   */
  lemma OutstandingIff(r: Row)
    ensures Outstanding(r) <==>
      r.kind == File &&
      (r.localHash.None? || (r.cloudHash.Some? && Lower(r.cloudHash.value) != Lower(r.localHash.value)))
  {
  }

  /**
   * `sync_downloads` in closed form: the rows before the first raised
   * fault are each attempted once, from their state when selected; the
   * pass fails exactly when some row raises, and every row from that one
   * on is left as it was; the counter counts the successful downloads.
   */
  lemma {:induction false} SyncClosedForm(t: Table, order: seq<Path>, fetched: Table, fetch: Fetcher, digest: Digest, clock: Clock)
    requires forall k :: k in order ==> k in fetched
    requires Distinct(order)
    ensures var r := SyncPass(t, order, fetched, fetch, digest, clock);
      var p := FirstRaised(order, fetched, fetch);
      && (r.failure.Some? <==> p < |order|)
      && r.rows.Keys == t.Keys
      && (forall k :: k in t ==>
            r.rows[k] == if k in order[..p] then AfterDownload(k, t[k], fetch(fetched[k].itemId), digest, clock) else t[k])
      && r.downloaded == Count(order[..p], DownloadOk(fetched, fetch))
  {
    SyncFails(t, order, fetched, fetch, digest, clock);
    SyncRows(t, order, fetched, fetch, digest, clock);
    SyncCounts(t, order, fetched, fetch, digest, clock);
  }

  lemma {:induction false} SyncFails(t: Table, order: seq<Path>, fetched: Table, fetch: Fetcher, digest: Digest, clock: Clock)
    requires forall k :: k in order ==> k in fetched
    ensures SyncPass(t, order, fetched, fetch, digest, clock).failure.Some? <==> FirstRaised(order, fetched, fetch) < |order|
    decreases order
  {
    if order != [] && !fetch(fetched[order[0]].itemId).Raised? {
      var k0 := order[0];
      var t1 := if k0 in t then t[k0 := AfterDownload(k0, t[k0], fetch(fetched[k0].itemId), digest, clock)] else t;
      SyncFails(t1, order[1..], fetched, fetch, digest, clock);
    }
  }

  lemma {:induction false} SyncRows(t: Table, order: seq<Path>, fetched: Table, fetch: Fetcher, digest: Digest, clock: Clock)
    requires forall k :: k in order ==> k in fetched
    requires Distinct(order)
    ensures var r := SyncPass(t, order, fetched, fetch, digest, clock);
      var p := FirstRaised(order, fetched, fetch);
      && r.rows.Keys == t.Keys
      && (forall k :: k in t ==>
            r.rows[k] == if k in order[..p] then AfterDownload(k, t[k], fetch(fetched[k].itemId), digest, clock) else t[k])
    decreases order
  {
    var p := FirstRaised(order, fetched, fetch);
    if order != [] && !fetch(fetched[order[0]].itemId).Raised? {
      var k0 := order[0];
      var t1 := if k0 in t then t[k0 := AfterDownload(k0, t[k0], fetch(fetched[k0].itemId), digest, clock)] else t;
      assert Distinct(order[1..]);
      SyncRows(t1, order[1..], fetched, fetch, digest, clock);
      assert order[..p] == [k0] + order[1..][..p - 1];
      assert k0 !in order[1..];
    }
  }

  lemma {:induction false} SyncCounts(t: Table, order: seq<Path>, fetched: Table, fetch: Fetcher, digest: Digest, clock: Clock)
    requires forall k :: k in order ==> k in fetched
    ensures SyncPass(t, order, fetched, fetch, digest, clock).downloaded
      == Count(order[..FirstRaised(order, fetched, fetch)], DownloadOk(fetched, fetch))
    decreases order
  {
    var p := FirstRaised(order, fetched, fetch);
    if order != [] && !fetch(fetched[order[0]].itemId).Raised? {
      var k0 := order[0];
      var t1 := if k0 in t then t[k0 := AfterDownload(k0, t[k0], fetch(fetched[k0].itemId), digest, clock)] else t;
      SyncCounts(t1, order[1..], fetched, fetch, digest, clock);
      assert order[..p][1..] == order[1..][..p - 1];
    } else {
      assert order[..p] == [];
    }
  }

  /**
   * The `updated` counter of `download_updates` counts exactly the rows the
   * pass writes: each counted row gets a date and the hash of its bytes,
   * and every other row is left as it was.
   */
  lemma DownloadCounterMatchesWrites(t: Table, fetch: Fetcher, digest: Digest, clock: Clock)
    ensures var u := DownloadPass(t, fetch, digest, clock);
      forall k :: k in t ==>
        && (k in DownloadSuccesses(t, fetch) ==>
              u[k] == t[k].(downloadedDate := Some(clock(k)), localHash := Some(digest(fetch(t[k].itemId).bytes))))
        && (k !in DownloadSuccesses(t, fetch) ==> u[k] == t[k])
  {
  }

  /**
   * The `updated` counter of `update_local_hash` counts exactly the rows
   * the pass re-hashes; every other row is left as it was.
   */
  lemma RehashCounterMatchesWrites(t: Table, disk: LocalFiles, digest: Digest)
    ensures var u := RehashPass(t, disk, digest);
      forall k :: k in t ==>
        && (k in Rehashable(t, disk) ==> u[k] == t[k].(localHash := Some(digest(disk(k).value))))
        && (k !in Rehashable(t, disk) ==> u[k] == t[k])
  {
  }

  /** `sync_downloads` keeps the index invariant: it only touches file rows. */
  lemma {:induction false} SyncPreservesConsistent(t: Table, order: seq<Path>, fetched: Table, fetch: Fetcher, digest: Digest, clock: Clock)
    requires Consistent(t)
    requires forall k :: k in order ==> k in fetched
    requires forall k :: k in order && k in t ==> t[k].kind == File
    ensures Consistent(SyncPass(t, order, fetched, fetch, digest, clock).rows)
    decreases order
  {
    if order != [] && !fetch(fetched[order[0]].itemId).Raised? {
      var k0 := order[0];
      var d := fetch(fetched[k0].itemId);
      if k0 in t {
        var t1 := t[k0 := AfterDownload(k0, t[k0], d, digest, clock)];
        assert FileColumnsOnly(t, t1);
        FileColumnsOnlyKeepsConsistent(t, t1);
        SyncPreservesConsistent(t1, order[1..], fetched, fetch, digest, clock);
      } else {
        SyncPreservesConsistent(t, order[1..], fetched, fetch, digest, clock);
      }
    }
  }

  /** `download_updates` keeps the index invariant, date and hash being written together. */
  lemma DownloadPreservesConsistent(t: Table, fetch: Fetcher, digest: Digest, clock: Clock)
    requires Consistent(t)
    ensures Consistent(DownloadPass(t, fetch, digest, clock))
  {
    FileColumnsOnlyKeepsConsistent(t, DownloadPass(t, fetch, digest, clock));
  }

  /** `update_local_hash` keeps the index invariant: a local hash is only ever added. */
  lemma RehashPreservesConsistent(t: Table, disk: LocalFiles, digest: Digest)
    requires Consistent(t)
    ensures Consistent(RehashPass(t, disk, digest))
  {
    FileColumnsOnlyKeepsConsistent(t, RehashPass(t, disk, digest));
  }

  /**
   * A successful download whose content hashes to the row's cloud hash
   * (ignoring case) leaves the row in sync and out of the next pass's
   * selection; a failed one leaves it selected, for a later retry.
   */
  lemma DownloadSettlesRow(t: Table, fetch: Fetcher, digest: Digest, clock: Clock, k: Path)
    requires k in t && Outstanding(t[k])
    ensures var u := DownloadPass(t, fetch, digest, clock);
      && (!fetch(t[k].itemId).Content? ==> Outstanding(u[k]))
      && (fetch(t[k].itemId).Content? && t[k].cloudHash.Some? &&
          Lower(digest(fetch(t[k].itemId).bytes)) == Lower(t[k].cloudHash.value) ==>
            !Outstanding(u[k]) && u[k].downloadedDate.Some?)
  {
    var u := DownloadPass(t, fetch, digest, clock);
    OutstandingIff(u[k]);
  }
}
