/**
 * The persistent index: the `files` table, keyed by the item's relative
 * path, and the single-statement operations the engine runs on it.
 */
module FilesIndex {
  import opened Wrappers

  /** The relative path of an item, the table's primary key `item`. */
  type Path = string

  /** The `item_type` column: 'file' or 'folder'. */
  datatype Kind = File | Folder

  /** One row of `files`, without its key. */
  datatype Row = Row(
    kind: Kind,
    itemId: Option<string>,
    parent: Option<Path>,
    cloudHash: Option<string>,
    localHash: Option<string>,
    downloadedDate: Option<string>)

  /** The whole table; a map, so no key appears twice. */
  type Table = map<Path, Row>

  /** A row that has been downloaded carries the hash of what was written. */
  ghost predicate DateImpliesLocalHash(t: Table)
  {
    forall k :: k in t && t[k].downloadedDate.Some? ==> t[k].localHash.Some?
  }

  /** Folder rows never get a cloud hash, a local hash or a download date. */
  ghost predicate FoldersCarryNoHashes(t: Table)
  {
    forall k :: k in t && t[k].kind == Folder ==>
      t[k].cloudHash.None? && t[k].localHash.None? && t[k].downloadedDate.None?
  }

  /** Every `parent` names a folder row of the table. */
  ghost predicate ParentsAreFolders(t: Table)
  {
    forall k :: k in t && t[k].parent.Some? ==>
      t[k].parent.value in t && t[t[k].parent.value].kind == Folder
  }

  /** Discovery always stores the provider's id. */
  ghost predicate IdsPresent(t: Table)
  {
    forall k :: k in t ==> t[k].itemId.Some?
  }

  /** The invariant every pass of the engine preserves. */
  ghost predicate Consistent(t: Table)
  {
    DateImpliesLocalHash(t) && FoldersCarryNoHashes(t) && ParentsAreFolders(t) && IdsPresent(t)
  }

  predicate Distinct(keys: seq<Path>)
  {
    forall i, j :: 0 <= i < j < |keys| ==> keys[i] != keys[j]
  }

  /**
   * `u` differs from `t` only in the hash and date columns of file rows,
   * and every row it changes keeps a local hash beside its date.
   */
  ghost predicate FileColumnsOnly(t: Table, u: Table)
  {
    t.Keys == u.Keys &&
    forall k :: k in t ==>
      (u[k] == t[k] ||
       (t[k].kind == File && u[k].kind == File && u[k].itemId == t[k].itemId && u[k].parent == t[k].parent &&
        (u[k].downloadedDate.Some? ==> u[k].localHash.Some?)))
  }

  /** Writing only hash and date columns of file rows keeps the index invariant. */
  lemma FileColumnsOnlyKeepsConsistent(t: Table, u: Table)
    requires Consistent(t) && FileColumnsOnly(t, u)
    ensures Consistent(u)
  {
    forall k | k in u && u[k].parent.Some?
      ensures u[k].parent.value in u && u[u[k].parent.value].kind == Folder
    {
      assert u[k].parent == t[k].parent;
      var p := t[k].parent.value;
      assert u[p].kind == t[p].kind;
    }
  }

  /** How many of `keys` satisfy `ok`: what a pass's counter counts. */
  function Count(keys: seq<Path>, ok: Path -> bool): nat
  {
    if keys == [] then 0 else (if ok(keys[0]) then 1 else 0) + Count(keys[1..], ok)
  }

  lemma {:induction false} CountAppend(keys: seq<Path>, k: Path, ok: Path -> bool)
    ensures Count(keys + [k], ok) == Count(keys, ok) + (if ok(k) then 1 else 0)
  {
    if keys != [] {
      assert (keys + [k])[1..] == keys[1..] + [k];
      CountAppend(keys[1..], k, ok);
    }
  }

  /** The counter after one more key. */
  lemma CountStep(keys: seq<Path>, i: nat, ok: Path -> bool)
    requires i < |keys|
    ensures Count(keys[..i + 1], ok) == Count(keys[..i], ok) + (if ok(keys[i]) then 1 else 0)
  {
    assert keys[..i + 1] == keys[..i] + [keys[i]];
    CountAppend(keys[..i], keys[i], ok);
  }

  /** Dropping the first of distinct keys drops it, and only it, from the counted set. */
  lemma CountedTail(keys: seq<Path>, ok: Path -> bool, s: set<Path>)
    requires Distinct(keys) && keys != []
    requires forall k :: k in s <==> k in keys && ok(k)
    ensures Distinct(keys[1..])
    ensures forall k :: k in s - {keys[0]} <==> k in keys[1..] && ok(k)
    ensures keys[0] in s <==> ok(keys[0])
  {
    forall k
      ensures k in s - {keys[0]} <==> k in keys[1..] && ok(k)
    {
      if k in keys[1..] {
        var j :| 0 <= j < |keys[1..]| && keys[1..][j] == k;
        assert keys[j + 1] == k;
      }
    }
  }

  /** Over distinct keys the counter equals the number of keys it counted. */
  lemma {:induction false} CountDistinct(keys: seq<Path>, ok: Path -> bool, s: set<Path>)
    requires Distinct(keys)
    requires forall k :: k in s <==> k in keys && ok(k)
    ensures Count(keys, ok) == |s|
  {
    if keys == [] {
      assert s == {};
    } else {
      CountedTail(keys, ok, s);
      CountDistinct(keys[1..], ok, s - {keys[0]});
    }
  }

  /** `t` after a pass applied `f` to the rows of the first `i` of `keys`. */
  ghost function AppliedTo(t: Table, keys: seq<Path>, i: nat, f: (Path, Row) -> Row): Table
    requires i <= |keys|
  {
    map k | k in t :: if k in keys[..i] then f(k, t[k]) else t[k]
  }

  /** One more key visited: its row, still as fetched, is replaced by `f` of it. */
  lemma AppliedStep(t: Table, keys: seq<Path>, i: nat, f: (Path, Row) -> Row)
    requires i < |keys| && Distinct(keys) && keys[i] in t
    ensures AppliedTo(t, keys, i, f)[keys[i]] == t[keys[i]]
    ensures AppliedTo(t, keys, i + 1, f) == AppliedTo(t, keys, i, f)[keys[i] := f(keys[i], t[keys[i]])]
  {
    assert keys[..i + 1] == keys[..i] + [keys[i]];
    assert keys[i] !in keys[..i];
  }

  /** The rows of `t` that `u` still holds unchanged, with possibly more besides. */
  ghost predicate Extends(t: Table, u: Table)
  {
    t.Keys <= u.Keys && forall k :: k in t ==> u[k] == t[k]
  }

  /**
   * The `files` table of the store file. The connection is in autocommit
   * mode, so every statement is durable as soon as it has run.
   */
  class FilesTable {
    var rows: Table

    /** Opens the store with whatever rows it already holds. */
    constructor (stored: Table)
      ensures rows == stored
    {
      rows := stored;
    }

    /** `INSERT OR IGNORE`: a row already stored under `path` wins. */
    method InsertOrIgnore(path: Path, row: Row)
      modifies this
      ensures path in rows
      ensures rows == if path in old(rows) then old(rows) else old(rows)[path := row]
    {
      if path !in rows {
        rows := rows[path := row];
      }
    }

    /** `UPDATE files SET cloud_hash = ? WHERE item = ?`. */
    method SetCloudHash(path: Path, hash: Option<string>)
      modifies this
      ensures rows == if path in old(rows) then old(rows)[path := old(rows)[path].(cloudHash := hash)] else old(rows)
    {
      if path in rows {
        rows := rows[path := rows[path].(cloudHash := hash)];
      }
    }

    /** `UPDATE files SET downloaded_date = ?, local_hash = ? WHERE item = ?`: both in one statement. */
    method SetDownloaded(path: Path, date: string, hash: string)
      modifies this
      ensures rows == if path in old(rows)
        then old(rows)[path := old(rows)[path].(downloadedDate := Some(date), localHash := Some(hash))]
        else old(rows)
    {
      if path in rows {
        rows := rows[path := rows[path].(downloadedDate := Some(date), localHash := Some(hash))];
      }
    }

    /** `UPDATE files SET local_hash = ? WHERE item = ?`. */
    method SetLocalHash(path: Path, hash: string)
      modifies this
      ensures rows == if path in old(rows) then old(rows)[path := old(rows)[path].(localHash := Some(hash))] else old(rows)
    {
      if path in rows {
        rows := rows[path := rows[path].(localHash := Some(hash))];
      }
    }

    /**
     * `SELECT item ... WHERE <where>` followed by `fetchall()`: every key
     * whose row satisfies the condition, each once, in an order the store
     * chooses.
     */
    method SelectWhere(where: Row -> bool) returns (keys: seq<Path>)
      ensures Distinct(keys)
      ensures forall k :: k in keys <==> k in rows && where(rows[k])
    {
      var pending := set k | k in rows && where(rows[k]);
      keys := [];
      while pending != {}
        invariant Distinct(keys)
        invariant forall k :: k in keys ==> k !in pending
        invariant forall k :: k in keys || k in pending <==> k in rows && where(rows[k])
        decreases pending
      {
        var k :| k in pending;
        keys := keys + [k];
        pending := pending - {k};
      }
    }
  }
}
