/**
 * The read-only reports: `check_updates` and `find_diff_summary`. Both
 * run only SELECTs; here the first is a method that changes nothing and
 * the second a function of the table.
 */
module Reports {
  import opened Wrappers
  import opened SqlValues
  import opened FilesIndex
  import Downloads

  /** `find_diff_summary`'s buckets; NULL and '' both count as missing. */
  predicate InSync(r: Row)
  {
    !Blank(r.cloudHash) && !Blank(r.localHash) && Lower(r.cloudHash.value) == Lower(r.localHash.value)
  }

  predicate Stale(r: Row)
  {
    !Blank(r.cloudHash) && !Blank(r.localHash) && Lower(r.cloudHash.value) != Lower(r.localHash.value)
  }

  predicate CloudHashOnly(r: Row)
  {
    !Blank(r.cloudHash) && Blank(r.localHash)
  }

  predicate LocalHashOnly(r: Row)
  {
    !Blank(r.localHash) && Blank(r.cloudHash)
  }

  predicate CloudHashMissing(r: Row)
  {
    Blank(r.cloudHash)
  }

  predicate LocalHashMissing(r: Row)
  {
    Blank(r.localHash)
  }

  /** Neither hash present: the rows no count of the summary covers. */
  predicate NoHash(r: Row)
  {
    Blank(r.cloudHash) && Blank(r.localHash)
  }

  /** `SELECT item FROM files WHERE item_type = 'file' AND <where>`, as a set of keys. */
  function FileRowsWhere(t: Table, where: Row -> bool): set<Path>
  {
    set k | k in t && t[k].kind == File && where(t[k])
  }

  /**
   * What `find_diff_summary` reports: four counts, and the two lists of
   * items missing a hash (keys, so each appears once).
   */
  datatype Summary = Summary(
    same: nat,
    different: nat,
    missingCloud: set<Path>,
    missingLocal: set<Path>,
    cloudOnly: nat,
    localOnly: nat)

  function FindDiffSummary(t: Table): Summary
  {
    Summary(
      |FileRowsWhere(t, InSync)|,
      |FileRowsWhere(t, Stale)|,
      FileRowsWhere(t, CloudHashMissing),
      FileRowsWhere(t, LocalHashMissing),
      |FileRowsWhere(t, CloudHashOnly)|,
      |FileRowsWhere(t, LocalHashOnly)|)
  }

  /** `check_updates`' test, with Python truthiness and case-sensitive `!=`. */
  predicate Mismatch(r: Row)
  {
    !Blank(r.cloudHash) && !Blank(r.localHash) && r.cloudHash.value != r.localHash.value
  }

  /** `check_updates`: the file rows whose two hashes are present and differ, each once. */
  method CheckUpdates(db: FilesTable) returns (mismatches: seq<Path>)
    ensures Distinct(mismatches)
    ensures forall k :: k in mismatches <==> k in db.rows && db.rows[k].kind == File && Mismatch(db.rows[k])
  {
    var keys := db.SelectWhere((r: Row) => r.kind == File);
    mismatches := [];
    for i := 0 to |keys|
      invariant Distinct(mismatches)
      invariant forall k :: k in mismatches <==> k in keys[..i] && Mismatch(db.rows[k])
    {
      var item := keys[i];
      assert keys[..i + 1] == keys[..i] + [item];
      assert item !in keys[..i];
      if Mismatch(db.rows[item]) {
        mismatches := mismatches + [item];
      }
    }
    assert keys[..|keys|] == keys;
  }

  // ---------------------------------------------------------------------
  // Properties of the reports

  lemma DisjointUnionSize(a: set<Path>, b: set<Path>)
    requires a !! b
    ensures |a + b| == |a| + |b|
  {
  }

  /** Splitting a selection into two exclusive cases splits its count. */
  lemma SplitCount(t: Table, whole: Row -> bool, left: Row -> bool, right: Row -> bool)
    requires forall r :: whole(r) <==> left(r) || right(r)
    requires forall r :: !(left(r) && right(r))
    ensures |FileRowsWhere(t, whole)| == |FileRowsWhere(t, left)| + |FileRowsWhere(t, right)|
  {
    var l, r := FileRowsWhere(t, left), FileRowsWhere(t, right);
    assert FileRowsWhere(t, whole) == l + r;
    DisjointUnionSize(l, r);
  }

  predicate BothHashes(r: Row)
  {
    !Blank(r.cloudHash) && !Blank(r.localHash)
  }

  predicate NotBothHashes(r: Row)
  {
    Blank(r.cloudHash) || Blank(r.localHash)
  }

  /** `SELECT item FROM files WHERE item_type = 'file'`, as a set of keys. */
  function FileRows(t: Table): set<Path>
  {
    set k | k in t && t[k].kind == File
  }

  /**
   * The summary partitions the file rows: in sync, stale, cloud hash
   * only, local hash only, and neither hash, each file row in exactly one.
   */
  lemma SummaryPartitionsFiles(t: Table)
    ensures var s := FindDiffSummary(t);
      s.same + s.different + s.cloudOnly + s.localOnly + |FileRowsWhere(t, NoHash)| == |FileRows(t)|
  {
    var both, notBoth := FileRowsWhere(t, BothHashes), FileRowsWhere(t, NotBothHashes);
    assert FileRows(t) == both + notBoth;
    DisjointUnionSize(both, notBoth);
    SplitCount(t, BothHashes, InSync, Stale);
    SplitCount(t, NotBothHashes, CloudHashOnly, CloudHashMissing);
    SplitCount(t, CloudHashMissing, LocalHashOnly, NoHash);
  }

  lemma SubsetSize(a: set<Path>, b: set<Path>)
    requires a <= b
    ensures |a| <= |b|
  {
    assert b == a + (b - a);
    DisjointUnionSize(a, b - a);
  }

  /**
   * "Cloud hash only" rows are among those missing a local hash, and
   * "local hash only" rows among those missing a cloud hash.
   */
  lemma SummaryOnlyBounds(t: Table)
    ensures var s := FindDiffSummary(t);
      s.cloudOnly <= |s.missingLocal| && s.localOnly <= |s.missingCloud|
  {
    SubsetSize(FileRowsWhere(t, CloudHashOnly), FileRowsWhere(t, LocalHashMissing));
    SubsetSize(FileRowsWhere(t, LocalHashOnly), FileRowsWhere(t, CloudHashMissing));
  }

  /**
   * The two reports compare differently: every stale row is a mismatch
   * for `check_updates`, but hashes differing only in letter case are a
   * mismatch there while the summary counts them as the same.
   */
  lemma StaleIsMismatch(r: Row)
    ensures Stale(r) ==> Mismatch(r)
    ensures Mismatch(r) <==> Stale(r) || (InSync(r) && r.cloudHash != r.localHash)
  {
  }

  lemma CaseOnlyDifference()
    ensures var r := Row(File, Some("id"), None, Some("AB"), Some("ab"), None);
      Mismatch(r) && InSync(r) && !Stale(r)
  {
    assert Lower("AB") == [LowerChar('A')] + Lower("B");
    assert Lower("B") == [LowerChar('B')] + Lower("");
    assert Lower("ab") == [LowerChar('a')] + Lower("b");
    assert Lower("b") == [LowerChar('b')] + Lower("");
  }

  /**
   * The summary and the download selection agree: a stale or cloud-only
   * file row is selected by `download_updates`, an in-sync one is not.
   */
  lemma SummaryAgreesWithSelection(r: Row)
    requires r.kind == File
    ensures Stale(r) ==> Downloads.Outstanding(r)
    ensures CloudHashOnly(r) ==> Downloads.Outstanding(r)
    ensures InSync(r) ==> !Downloads.Outstanding(r)
  {
    Downloads.OutstandingIff(r);
  }
}
