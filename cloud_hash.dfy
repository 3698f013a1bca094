/**
 * Cloud-hash reconciliation: `get_missing_cloud_hash` and
 * `update_cloud_hash`. Each selected file row has its item looked up;
 * an answer overwrites `cloud_hash` (with NULL when the item carries no
 * sha1), a raised fault (401 included) leaves the row as it was and the
 * loop goes on.
 */
module CloudHashes {
  import opened Wrappers
  import opened SqlValues
  import opened Remote
  import opened FilesIndex

  /** Which rows a pass selects. */
  datatype Mode =
    | MissingOnly  // get_missing_cloud_hash
    | RefreshAll   // update_cloud_hash

  /**
   * `item_type = 'file' AND item_id IS NOT NULL`, and for the missing
   * mode also `(cloud_hash IS NULL OR cloud_hash = '')`.
   */
  predicate Selected(mode: Mode, r: Row)
  {
    r.kind == File && r.itemId.Some? && (mode == MissingOnly ==> Blank(r.cloudHash))
  }

  /** One row after its lookup. */
  function Reconciled(r: Row, lookup: HashLookup): Row
    requires r.itemId.Some?
  {
    match lookup(r.itemId.value)
    case HashFound(h) => r.(cloudHash := h)
    case HashFailed(_) => r
  }

  /** The table after a whole pass. */
  function ReconcilePass(t: Table, mode: Mode, lookup: HashLookup): (u: Table)
    ensures u.Keys == t.Keys
    ensures forall k :: k in t ==> u[k] == t[k].(cloudHash := u[k].cloudHash)
    ensures forall k :: k in t && !Selected(mode, t[k]) ==> u[k] == t[k]
    ensures forall k :: k in t && Selected(mode, t[k]) && lookup(t[k].itemId.value).HashFound? ==>
      u[k].cloudHash == lookup(t[k].itemId.value).sha1
    ensures forall k :: k in t && Selected(mode, t[k]) && lookup(t[k].itemId.value).HashFailed? ==>
      u[k] == t[k]
  {
    map k | k in t :: if Selected(mode, t[k]) then Reconciled(t[k], lookup) else t[k]
  }

  method ReconcileCloudHashes(db: FilesTable, mode: Mode, lookup: HashLookup)
    modifies db
    ensures db.rows == ReconcilePass(old(db.rows), mode, lookup)
  {
    var keys := db.SelectWhere(r => Selected(mode, r));
    var fetched := db.rows;
    for i := 0 to |keys|
      invariant db.rows.Keys == fetched.Keys
      invariant forall k :: k in fetched ==>
        db.rows[k] == if k in keys[..i] then Reconciled(fetched[k], lookup) else fetched[k]
    {
      var item := keys[i];
      assert keys[..i + 1] == keys[..i] + [item];
      match lookup(fetched[item].itemId.value)
      case HashFound(h) =>
        db.SetCloudHash(item, h);
      case HashFailed(_) =>
    }
    assert keys[..|keys|] == keys;
  }

  method GetMissingCloudHash(db: FilesTable, lookup: HashLookup)
    modifies db
    ensures db.rows == ReconcilePass(old(db.rows), MissingOnly, lookup)
  {
    ReconcileCloudHashes(db, MissingOnly, lookup);
  }

  method UpdateCloudHash(db: FilesTable, lookup: HashLookup)
    modifies db
    ensures db.rows == ReconcilePass(old(db.rows), RefreshAll, lookup)
  {
    ReconcileCloudHashes(db, RefreshAll, lookup);
  }

  // ---------------------------------------------------------------------
  // Properties of reconciliation

  /** Reconciliation writes only `cloud_hash` of file rows: the invariant holds. */
  lemma ReconcilePreservesConsistent(t: Table, mode: Mode, lookup: HashLookup)
    requires Consistent(t)
    ensures Consistent(ReconcilePass(t, mode, lookup))
  {
    var u := ReconcilePass(t, mode, lookup);
    forall k | k in u && u[k].parent.Some?
      ensures u[k].parent.value in u && u[u[k].parent.value].kind == Folder
    {
      assert u[k].parent == t[k].parent;
      assert u[u[k].parent.value].kind == t[t[k].parent.value].kind;
    }
  }

  /**
   * Against an unchanged provider a second pass of either mode changes
   * nothing more: rows looked up again get the same answer.
   */
  lemma ReconcileIdempotent(t: Table, mode: Mode, lookup: HashLookup)
    ensures var u := ReconcilePass(t, mode, lookup);
      ReconcilePass(u, mode, lookup) == u
  {
    var u := ReconcilePass(t, mode, lookup);
    var v := ReconcilePass(u, mode, lookup);
    forall k | k in u
      ensures v[k] == u[k]
    {
      if Selected(mode, u[k]) {
        assert Selected(mode, t[k]);
      }
    }
  }

  /**
   * When every lookup answers with a non-empty hash, the missing-only
   * pass leaves no file row with an item id that it would select again.
   */
  lemma MissingPassFillsAll(t: Table, lookup: HashLookup)
    requires forall id :: lookup(id).HashFound? && lookup(id).sha1.Some? && lookup(id).sha1.value != ""
    ensures var u := ReconcilePass(t, MissingOnly, lookup);
      forall k :: k in u ==> !Selected(MissingOnly, u[k])
  {
  }
}
