/**
 * How the passes compose: `-update_cloud_hash` followed by
 * `-download_updates` converges, and a remote change shows up as stale.
 * The `-sync_all` chain refreshes only missing cloud hashes, so an
 * outdated non-empty cloud hash survives it and the freshly downloaded
 * row shows as stale (`MissingModeKeepsStaleHash`).
 */
module Pipeline {
  import opened Wrappers
  import opened SqlValues
  import opened Remote
  import opened FilesIndex
  import opened CloudHashes
  import opened Downloads
  import opened Reports

  /** A drive that answers every lookup with a non-empty hash. */
  ghost predicate HashesAvailable(lookup: HashLookup)
  {
    forall id :: lookup(id).HashFound? && lookup(id).sha1.Some? && lookup(id).sha1.value != ""
  }

  /** A mirror whose file rows are all in sync has the summary of a converged mirror. */
  lemma InSyncSummary(u: Table)
    requires forall k :: k in u && u[k].kind == File ==> InSync(u[k])
    ensures var s := FindDiffSummary(u);
      && s.same == |FileRows(u)|
      && s.different == 0 && s.cloudOnly == 0 && s.localOnly == 0
      && s.missingCloud == {} && s.missingLocal == {}
  {
    assert FileRowsWhere(u, InSync) == FileRows(u);
    assert FileRowsWhere(u, Stale) == {};
    assert FileRowsWhere(u, CloudHashOnly) == {};
    assert FileRowsWhere(u, LocalHashOnly) == {};
    assert FileRowsWhere(u, CloudHashMissing) == {};
    assert FileRowsWhere(u, LocalHashMissing) == {};
  }

  /**
   * Convergence: when every lookup and every download succeeds and the
   * local hasher agrees with the drive's hash up to letter case, one
   * `update_cloud_hash` and one `download_updates` leave every file row in
   * sync, and the summary reports nothing stale, missing or one-sided.
   */
  lemma Convergence(t: Table, lookup: HashLookup, fetch: Fetcher, digest: Digest, clock: Clock)
    requires IdsPresent(t)
    requires HashesAvailable(lookup)
    requires forall id :: fetch(Some(id)).Content?
    requires forall id :: Lower(digest(fetch(Some(id)).bytes)) == Lower(lookup(id).sha1.value)
    ensures var u := DownloadPass(ReconcilePass(t, RefreshAll, lookup), fetch, digest, clock);
      var s := FindDiffSummary(u);
      && s.same == |FileRows(u)|
      && s.different == 0 && s.cloudOnly == 0 && s.localOnly == 0
      && s.missingCloud == {} && s.missingLocal == {}
  {
    var m := ReconcilePass(t, RefreshAll, lookup);
    var u := DownloadPass(m, fetch, digest, clock);
    forall k | k in u && u[k].kind == File
      ensures InSync(u[k])
    {
      var id := t[k].itemId.value;
      assert fetch(Some(id)).Content?;
      assert Lower(digest(fetch(Some(id)).bytes)) == Lower(lookup(id).sha1.value);
      RowConverges(t, k, lookup, fetch, digest, clock);
    }
    InSyncSummary(u);
  }

  lemma RowConverges(t: Table, k: Path, lookup: HashLookup, fetch: Fetcher, digest: Digest, clock: Clock)
    requires IdsPresent(t) && k in t && t[k].kind == File
    requires HashesAvailable(lookup)
    requires fetch(t[k].itemId).Content?
    requires Lower(digest(fetch(t[k].itemId).bytes)) == Lower(lookup(t[k].itemId.value).sha1.value)
    ensures InSync(DownloadPass(ReconcilePass(t, RefreshAll, lookup), fetch, digest, clock)[k])
  {
    var m := ReconcilePass(t, RefreshAll, lookup);
    var u := DownloadPass(m, fetch, digest, clock);
    var h := lookup(t[k].itemId.value).sha1.value;
    assert m[k] == t[k].(cloudHash := Some(h));
    assert |Lower(h)| == |h|;
    OutstandingIff(m[k]);
    if Outstanding(m[k]) {
      var b := fetch(t[k].itemId).bytes;
      assert u[k] == m[k].(downloadedDate := Some(clock(k)), localHash := Some(digest(b)));
      assert |Lower(digest(b))| == |digest(b)|;
    } else {
      assert u[k] == m[k];
      assert |Lower(m[k].localHash.value)| == |m[k].localHash.value|;
    }
  }

  /**
   * After the drive's content changes, `update_cloud_hash` alone turns an
   * in-sync mirror into one whose stale rows, and whose rows selected by
   * `download_updates`, are exactly those whose new cloud hash differs
   * from the local hash; local hashes are untouched.
   */
  lemma RemoteChangeShowsAsStale(t: Table, lookup: HashLookup)
    requires IdsPresent(t)
    requires HashesAvailable(lookup)
    requires forall k :: k in t && t[k].kind == File ==> InSync(t[k])
    ensures var u := ReconcilePass(t, RefreshAll, lookup);
      forall k :: k in t && t[k].kind == File ==>
        && u[k].localHash == t[k].localHash
        && (Stale(u[k]) <==> Changed(t[k], lookup))
        && (Outstanding(u[k]) <==> Changed(t[k], lookup))
  {
    var u := ReconcilePass(t, RefreshAll, lookup);
    forall k | k in t && t[k].kind == File
      ensures Outstanding(u[k]) <==> Changed(t[k], lookup)
    {
      OutstandingIff(u[k]);
    }
  }

  /** The drive now reports a hash for the row's item that its local hash does not match. */
  predicate Changed(r: Row, lookup: HashLookup)
  {
    r.itemId.Some? && r.localHash.Some? &&
    match lookup(r.itemId.value)
    case HashFound(Some(h)) => Lower(h) != Lower(r.localHash.value)
    case _ => false
  }

  /**
   * `get_missing_cloud_hash` never revisits a non-empty cloud hash. Take a
   * file row with no local copy whose stored cloud hash is outdated: the
   * drive now reports a different hash, and the download succeeds with
   * content that hashes to it. After `get_missing_cloud_hash` then
   * `download_updates` the row is reported as stale. After
   * `update_cloud_hash` then `download_updates` it is in sync.
   */
  lemma MissingModeKeepsStaleHash(t: Table, k: Path, lookup: HashLookup, fetch: Fetcher, digest: Digest, clock: Clock, h: string)
    requires k in t && t[k].kind == File && t[k].itemId.Some?
    requires !Blank(t[k].cloudHash) && t[k].localHash.None?
    requires lookup(t[k].itemId.value) == HashFound(Some(h)) && h != ""
    requires Lower(h) != Lower(t[k].cloudHash.value)
    requires fetch(t[k].itemId).Content? && Lower(digest(fetch(t[k].itemId).bytes)) == Lower(h)
    ensures Stale(DownloadPass(ReconcilePass(t, MissingOnly, lookup), fetch, digest, clock)[k])
    ensures InSync(DownloadPass(ReconcilePass(t, RefreshAll, lookup), fetch, digest, clock)[k])
  {
    var d := digest(fetch(t[k].itemId).bytes);
    assert |Lower(d)| == |d|;
    assert |Lower(h)| == |h|;
  }
}
