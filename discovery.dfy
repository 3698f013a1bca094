/**
 * Discovery: `populate_db` and `refresh_file_list`. Every listed child
 * whose path is not yet a key gets a new row; a new folder is listed and
 * walked unless some row already names it as parent. A failed listing
 * raises out of the whole walk; the rows inserted before it stay, since
 * every INSERT is committed at once.
 */
module Discovery {
  import opened Wrappers
  import opened Remote
  import opened FilesIndex

  /** `os.path.join(prefix, name)` for two components, POSIX rules. */
  function Join(prefix: string, name: string): string
  {
    if |name| > 0 && name[0] == '/' then name
    else if prefix == "" || prefix[|prefix| - 1] == '/' then prefix + name
    else prefix + "/" + name
  }

  /**
   * The joined path ends with the child's name; at top level it is just
   * the name; and unless the name is absolute it starts with the prefix.
   */
  lemma JoinShape(prefix: string, name: string)
    ensures var p := Join(prefix, name);
      && |p| >= |name| && p[|p| - |name|..] == name
      && (prefix == "" ==> p == name)
      && ((name == [] || name[0] != '/') ==> |p| >= |prefix| && p[..|prefix|] == prefix)
  {
    var p := Join(prefix, name);
    if !(|name| > 0 && name[0] == '/') && prefix != "" && prefix[|prefix| - 1] != '/' {
      assert p == prefix + "/" + name;
    }
  }

  /** `SELECT 1 FROM files WHERE parent = ? LIMIT 1` found a row. */
  predicate HasChildren(t: Table, path: Path)
  {
    exists k :: k in t && t[k].parent == Some(path)
  }

  /** The row `populate_db` inserts for a child it has not seen before. */
  function NewRow(item: DriveItem, parent: Option<Path>): Row
  {
    Row(if item.isFolder then Folder else File, Some(item.id), parent, None, None, None)
  }

  /** A row as discovery leaves it: nothing hashed or downloaded yet. */
  ghost predicate Undownloaded(r: Row)
  {
    r.itemId.Some? && r.cloudHash.None? && r.localHash.None? && r.downloadedDate.None?
  }

  /**
   * The outcome of a walk: the table afterwards, the fault that aborted
   * it (if any) and how many listings (`get_drive_items` calls) it made.
   */
  datatype Walk = Walk(rows: Table, failure: Option<Fault>, listings: nat)

  /** `populate_db(conn, items, token, prefix, parent)` over the table `t`. */
  function Discover(t: Table, items: seq<DriveItem>, prefix: Path, parent: Option<Path>): Walk
    decreases items
  {
    if items == [] then Walk(t, None, 0)
    else
      var item := items[0];
      var path := Join(prefix, item.name);
      if path in t then Discover(t, items[1..], prefix, parent)
      else
        var t1 := t[path := NewRow(item, parent)];
        if !item.isFolder || HasChildren(t1, path) then Discover(t1, items[1..], prefix, parent)
        else
          match item.children
          case ListingFailed(f) => Walk(t1, Some(f), 1)
          case Listed(sub) =>
            var r := Discover(t1, sub, path, Some(path));
            if r.failure.Some? then r.(listings := 1 + r.listings)
            else
              var r2 := Discover(r.rows, items[1..], prefix, parent);
              r2.(listings := 1 + r.listings + r2.listings)
  }

  /** `refresh_file_list`: list the drive root, then walk it at top level. */
  function Refresh(t: Table, root: Listing): Walk
  {
    match root
    case ListingFailed(f) => Walk(t, Some(f), 1)
    case Listed(items) =>
      var r := Discover(t, items, "", None);
      r.(listings := 1 + r.listings)
  }

  method PopulateDb(db: FilesTable, items: seq<DriveItem>, prefix: Path, parent: Option<Path>)
    returns (failure: Option<Fault>, listings: nat)
    modifies db
    ensures Discover(old(db.rows), items, prefix, parent) == Walk(db.rows, failure, listings)
    decreases items
  {
    failure, listings := None, 0;
    for i := 0 to |items|
      invariant
        var spec := Discover(old(db.rows), items, prefix, parent);
        var rest := Discover(db.rows, items[i..], prefix, parent);
        spec == rest.(listings := listings + rest.listings)
    {
      assert items[i..][1..] == items[i + 1..];
      var item := items[i];
      var path := Join(prefix, item.name);
      if path in db.rows {
        continue;
      }
      db.InsertOrIgnore(path, NewRow(item, parent));
      if item.isFolder {
        if HasChildren(db.rows, path) {
          continue;
        }
        match item.children
        case ListingFailed(f) =>
          failure, listings := Some(f), listings + 1;
          return;
        case Listed(sub) =>
          listings := listings + 1;
          var subFailure, subListings := PopulateDb(db, sub, path, Some(path));
          listings := listings + subListings;
          if subFailure.Some? {
            failure := subFailure;
            return;
          }
      }
    }
  }

  method RefreshFileList(db: FilesTable, root: Listing) returns (failure: Option<Fault>, listings: nat)
    modifies db
    ensures Refresh(old(db.rows), root) == Walk(db.rows, failure, listings)
  {
    match root
    case ListingFailed(f) =>
      failure, listings := Some(f), 1;
    case Listed(items) =>
      failure, listings := PopulateDb(db, items, "", None);
      listings := listings + 1;
  }

  // ---------------------------------------------------------------------
  // Properties of discovery

  /** `u` holds every row of `t` unchanged, and each row it adds is undownloaded. */
  ghost predicate Grows(t: Table, u: Table)
  {
    Extends(t, u) && forall k :: k in u && k !in t ==> Undownloaded(u[k])
  }

  lemma GrowsTransitive(t: Table, u: Table, v: Table)
    requires Grows(t, u) && Grows(u, v)
    ensures Grows(t, v)
  {
  }

  /**
   * Discovery only inserts: every row stored before is still there,
   * unchanged, and every row it adds has an id and nothing hashed or
   * downloaded. A failed listing therefore loses no inserted row.
   */
  lemma {:induction false} DiscoverOnlyInserts(t: Table, items: seq<DriveItem>, prefix: Path, parent: Option<Path>)
    ensures Grows(t, Discover(t, items, prefix, parent).rows)
    decreases items
  {
    var r := Discover(t, items, prefix, parent);
    if items != [] {
      var item := items[0];
      var path := Join(prefix, item.name);
      if path in t {
        DiscoverOnlyInserts(t, items[1..], prefix, parent);
      } else {
        var t1 := t[path := NewRow(item, parent)];
        assert Grows(t, t1);
        if !item.isFolder || HasChildren(t1, path) {
          DiscoverOnlyInserts(t1, items[1..], prefix, parent);
          GrowsTransitive(t, t1, r.rows);
        } else if item.children.Listed? {
          var sub := item.children.items;
          DiscoverOnlyInserts(t1, sub, path, Some(path));
          var rs := Discover(t1, sub, path, Some(path));
          GrowsTransitive(t, t1, rs.rows);
          if rs.failure.None? {
            DiscoverOnlyInserts(rs.rows, items[1..], prefix, parent);
            assert r.rows == Discover(rs.rows, items[1..], prefix, parent).rows;
            GrowsTransitive(t, rs.rows, r.rows);
          }
        }
      }
    }
  }

  /**
   * Under the index invariant, the "already expanded" test on a folder
   * that was just inserted never succeeds: no stored row can name a path
   * that is not a key as its parent.
   */
  lemma ExpansionGuardNeverFires(t: Table, path: Path, item: DriveItem, parent: Option<Path>)
    requires ParentsAreFolders(t)
    requires path !in t
    requires parent.Some? ==> parent.value in t
    ensures !HasChildren(t[path := NewRow(item, parent)], path)
  {
    var t1 := t[path := NewRow(item, parent)];
    forall k | k in t1
      ensures t1[k].parent != Some(path)
    {
      if k != path {
        assert t1[k] == t[k];
      }
    }
  }

  /** Adding a folder's child row keeps every parent a folder row. */
  lemma InsertKeepsParents(t: Table, path: Path, item: DriveItem, parent: Option<Path>)
    requires ParentsAreFolders(t) && path !in t
    requires parent.Some? ==> parent.value in t && t[parent.value].kind == Folder
    ensures ParentsAreFolders(t[path := NewRow(item, parent)])
  {
    var t1 := t[path := NewRow(item, parent)];
    forall k | k in t1 && t1[k].parent.Some?
      ensures t1[k].parent.value in t1 && t1[t1[k].parent.value].kind == Folder
    {
      var p := t1[k].parent.value;
      assert p in t && p != path;
    }
  }

  /** Every parent named by a row stays a folder row through a walk. */
  lemma {:induction false} DiscoverKeepsParents(t: Table, items: seq<DriveItem>, prefix: Path, parent: Option<Path>)
    requires ParentsAreFolders(t)
    requires parent.Some? ==> parent.value in t && t[parent.value].kind == Folder
    ensures ParentsAreFolders(Discover(t, items, prefix, parent).rows)
    decreases items
  {
    var r := Discover(t, items, prefix, parent);
    if items != [] {
      var item := items[0];
      var path := Join(prefix, item.name);
      if path in t {
        DiscoverKeepsParents(t, items[1..], prefix, parent);
      } else {
        var t1 := t[path := NewRow(item, parent)];
        InsertKeepsParents(t, path, item, parent);
        if !item.isFolder || HasChildren(t1, path) {
          DiscoverKeepsParents(t1, items[1..], prefix, parent);
        } else if item.children.Listed? {
          var sub := item.children.items;
          DiscoverKeepsParents(t1, sub, path, Some(path));
          DiscoverOnlyInserts(t1, sub, path, Some(path));
          var rs := Discover(t1, sub, path, Some(path));
          if rs.failure.None? {
            assert parent.Some? ==> parent.value in rs.rows && rs.rows[parent.value] == t[parent.value];
            DiscoverKeepsParents(rs.rows, items[1..], prefix, parent);
            assert r.rows == Discover(rs.rows, items[1..], prefix, parent).rows;
          }
        }
      }
    }
  }

  /** Discovery keeps the index invariant when it starts below a folder row. */
  lemma DiscoverPreservesConsistent(t: Table, items: seq<DriveItem>, prefix: Path, parent: Option<Path>)
    requires Consistent(t)
    requires parent.Some? ==> parent.value in t && t[parent.value].kind == Folder
    ensures Consistent(Discover(t, items, prefix, parent).rows)
  {
    DiscoverOnlyInserts(t, items, prefix, parent);
    DiscoverKeepsParents(t, items, prefix, parent);
  }

  /**
   * The first listed child, when its path is new, gets exactly the row
   * `NewRow` builds (kind from the folder facet, its id, the enclosing
   * path as parent, nothing hashed), and that row survives the rest of
   * the walk, failure or not.
   */
  lemma HeadRowShape(t: Table, items: seq<DriveItem>, prefix: Path, parent: Option<Path>)
    requires items != [] && Join(prefix, items[0].name) !in t
    ensures var path := Join(prefix, items[0].name);
      var r := Discover(t, items, prefix, parent);
      path in r.rows && r.rows[path] == NewRow(items[0], parent)
  {
    var item := items[0];
    var path := Join(prefix, item.name);
    var t1 := t[path := NewRow(item, parent)];
    DiscoverOnlyInserts(t1, items[1..], prefix, parent);
    if item.isFolder && !HasChildren(t1, path) && item.children.Listed? {
      var sub := item.children.items;
      DiscoverOnlyInserts(t1, sub, path, Some(path));
      var r := Discover(t1, sub, path, Some(path));
      DiscoverOnlyInserts(r.rows, items[1..], prefix, parent);
    }
  }

  /**
   * A new folder whose listing fails aborts the walk: the folder's own
   * row is kept and none of the later siblings is visited.
   */
  lemma FailedListingAborts(t: Table, items: seq<DriveItem>, prefix: Path, parent: Option<Path>)
    requires Consistent(t)
    requires parent.Some? ==> parent.value in t
    requires items != [] && items[0].isFolder && items[0].children.ListingFailed?
    requires Join(prefix, items[0].name) !in t
    ensures Discover(t, items, prefix, parent)
      == Walk(t[Join(prefix, items[0].name) := NewRow(items[0], parent)], Some(items[0].children.fault), 1)
  {
    ExpansionGuardNeverFires(t, Join(prefix, items[0].name), items[0], parent);
  }

  /**
   * A walk over children that are all known already makes no listing
   * and changes nothing, whatever lies below them: known folders are
   * never re-listed, even one whose own listing once failed.
   */
  lemma {:induction false} DiscoverKnownIsNoop(t: Table, items: seq<DriveItem>, prefix: Path, parent: Option<Path>)
    requires forall i :: 0 <= i < |items| ==> Join(prefix, items[i].name) in t
    ensures Discover(t, items, prefix, parent) == Walk(t, None, 0)
    decreases items
  {
    if items != [] {
      DiscoverKnownIsNoop(t, items[1..], prefix, parent);
    }
  }

  /**
   * A walk over `a + b` is the walk over `a` followed, unless it failed,
   * by the walk over `b` from the table it left: a failure among the
   * first children aborts the walk before any child of `b` is visited.
   */
  lemma {:induction false} DiscoverAppend(t: Table, a: seq<DriveItem>, b: seq<DriveItem>, prefix: Path, parent: Option<Path>)
    ensures var ra := Discover(t, a, prefix, parent);
      Discover(t, a + b, prefix, parent)
        == if ra.failure.Some? then ra
           else var rb := Discover(ra.rows, b, prefix, parent); rb.(listings := ra.listings + rb.listings)
    decreases a
  {
    if a == [] {
      assert a + b == b;
    } else {
      var item := a[0];
      var path := Join(prefix, item.name);
      assert (a + b)[0] == item && (a + b)[1..] == a[1..] + b;
      if path in t {
        DiscoverAppend(t, a[1..], b, prefix, parent);
      } else {
        var t1 := t[path := NewRow(item, parent)];
        if !item.isFolder || HasChildren(t1, path) {
          DiscoverAppend(t1, a[1..], b, prefix, parent);
        } else if item.children.Listed? {
          var rs := Discover(t1, item.children.items, path, Some(path));
          if rs.failure.None? {
            DiscoverAppend(rs.rows, a[1..], b, prefix, parent);
          }
        }
      }
    }
  }

  /**
   * A child whose joined path is already a key is skipped outright: the
   * walk is the same as over the listing without it, so it adds no row
   * and no listing, and nothing below it is visited, whichever position
   * it holds among its siblings.
   */
  lemma DiscoverSkipsKnownChild(t: Table, a: seq<DriveItem>, x: DriveItem, b: seq<DriveItem>, prefix: Path, parent: Option<Path>)
    requires Join(prefix, x.name) in t
    ensures Discover(t, a + [x] + b, prefix, parent) == Discover(t, a + b, prefix, parent)
  {
    var ra := Discover(t, a, prefix, parent);
    DiscoverAppend(t, a, [x] + b, prefix, parent);
    DiscoverAppend(t, a, b, prefix, parent);
    assert a + [x] + b == a + ([x] + b);
    if ra.failure.None? {
      DiscoverOnlyInserts(t, a, prefix, parent);
      assert ([x] + b)[0] == x && ([x] + b)[1..] == b;
    }
  }

  /** A walk that completes leaves a row for every child it was given. */
  lemma {:induction false} DiscoverCoversItems(t: Table, items: seq<DriveItem>, prefix: Path, parent: Option<Path>)
    ensures var r := Discover(t, items, prefix, parent);
      r.failure.None? ==> forall i :: 0 <= i < |items| ==> Join(prefix, items[i].name) in r.rows
    decreases items
  {
    if items != [] {
      var item := items[0];
      var path := Join(prefix, item.name);
      var r := Discover(t, items, prefix, parent);
      if path in t {
        DiscoverCoversItems(t, items[1..], prefix, parent);
        DiscoverOnlyInserts(t, items[1..], prefix, parent);
      } else {
        var t1 := t[path := NewRow(item, parent)];
        if !item.isFolder || HasChildren(t1, path) {
          DiscoverCoversItems(t1, items[1..], prefix, parent);
          DiscoverOnlyInserts(t1, items[1..], prefix, parent);
        } else if item.children.Listed? {
          var sub := item.children.items;
          DiscoverOnlyInserts(t1, sub, path, Some(path));
          var rs := Discover(t1, sub, path, Some(path));
          if rs.failure.None? {
            DiscoverCoversItems(rs.rows, items[1..], prefix, parent);
            DiscoverOnlyInserts(rs.rows, items[1..], prefix, parent);
          }
        }
      }
      if r.failure.None? {
        forall i | 0 <= i < |items|
          ensures Join(prefix, items[i].name) in r.rows
        {
          if i > 0 {
            assert items[i] == items[1..][i - 1];
          }
        }
      }
    }
  }

  /**
   * `row`, stored under `k`, is the row discovery builds for some item of
   * the tree `items` listed under `prefix`: `k` is the item's joined path
   * and `row` is its `NewRow`, whose parent is `parent` for the listed
   * children themselves and the enclosing folder's path below them.
   */
  ghost predicate Describes(k: Path, row: Row, items: seq<DriveItem>, prefix: Path, parent: Option<Path>)
    decreases items
  {
    exists i :: 0 <= i < |items| &&
      ((k == Join(prefix, items[i].name) && row == NewRow(items[i], parent)) ||
       (items[i].isFolder && items[i].children.Listed? &&
        Describes(k, row, items[i].children.items, Join(prefix, items[i].name), Some(Join(prefix, items[i].name)))))
  }

  lemma DescribesHead(k: Path, row: Row, items: seq<DriveItem>, prefix: Path, parent: Option<Path>)
    requires items != [] && k == Join(prefix, items[0].name) && row == NewRow(items[0], parent)
    ensures Describes(k, row, items, prefix, parent)
  {
    assert 0 <= 0 < |items|;
  }

  lemma DescribesBelow(k: Path, row: Row, items: seq<DriveItem>, prefix: Path, parent: Option<Path>)
    requires items != [] && items[0].isFolder && items[0].children.Listed?
    requires Describes(k, row, items[0].children.items, Join(prefix, items[0].name), Some(Join(prefix, items[0].name)))
    ensures Describes(k, row, items, prefix, parent)
  {
    assert 0 <= 0 < |items|;
  }

  lemma DescribesTail(k: Path, row: Row, items: seq<DriveItem>, prefix: Path, parent: Option<Path>)
    requires items != [] && Describes(k, row, items[1..], prefix, parent)
    ensures Describes(k, row, items, prefix, parent)
  {
    var j :| 0 <= j < |items[1..]| &&
      ((k == Join(prefix, items[1..][j].name) && row == NewRow(items[1..][j], parent)) ||
       (items[1..][j].isFolder && items[1..][j].children.Listed? &&
        Describes(k, row, items[1..][j].children.items, Join(prefix, items[1..][j].name), Some(Join(prefix, items[1..][j].name)))));
    assert items[1..][j] == items[j + 1];
  }

  /**
   * Every row a walk adds is the row built for an item of the listed
   * tree: its key is the item's joined path, its kind is Folder exactly
   * when the item has a folder facet, it carries the item's id, and its
   * parent is the enclosing folder's path (the walk's `parent` for the
   * listed children themselves).
   */
  lemma {:induction false} DiscoverRowsDescribeItems(t: Table, items: seq<DriveItem>, prefix: Path, parent: Option<Path>)
    ensures var r := Discover(t, items, prefix, parent);
      forall k :: k in r.rows && k !in t ==> Describes(k, r.rows[k], items, prefix, parent)
    decreases items, 1
  {
    var r := Discover(t, items, prefix, parent);
    if items != [] {
      var item := items[0];
      var path := Join(prefix, item.name);
      if path in t {
        DiscoverRowsDescribeItems(t, items[1..], prefix, parent);
        forall k | k in r.rows && k !in t
          ensures Describes(k, r.rows[k], items, prefix, parent)
        {
          DescribesTail(k, r.rows[k], items, prefix, parent);
        }
      } else {
        var t1 := t[path := NewRow(item, parent)];
        if !item.isFolder || HasChildren(t1, path) {
          DiscoverRowsDescribeItems(t1, items[1..], prefix, parent);
          DiscoverOnlyInserts(t1, items[1..], prefix, parent);
          forall k | k in r.rows && k !in t
            ensures Describes(k, r.rows[k], items, prefix, parent)
          {
            if k == path {
              DescribesHead(k, r.rows[k], items, prefix, parent);
            } else {
              DescribesTail(k, r.rows[k], items, prefix, parent);
            }
          }
        } else if item.children.ListingFailed? {
          forall k | k in r.rows && k !in t
            ensures Describes(k, r.rows[k], items, prefix, parent)
          {
            DescribesHead(k, r.rows[k], items, prefix, parent);
          }
        } else {
          DiscoverSubtreeDescribed(t, items, prefix, parent);
        }
      }
    }
  }

  /** The case of `DiscoverRowsDescribeItems` where the first child is a new folder that is walked. */
  lemma {:induction false} DiscoverSubtreeDescribed(t: Table, items: seq<DriveItem>, prefix: Path, parent: Option<Path>)
    requires items != [] && items[0].isFolder && items[0].children.Listed?
    requires Join(prefix, items[0].name) !in t
    requires !HasChildren(t[Join(prefix, items[0].name) := NewRow(items[0], parent)], Join(prefix, items[0].name))
    ensures var r := Discover(t, items, prefix, parent);
      forall k :: k in r.rows && k !in t ==> Describes(k, r.rows[k], items, prefix, parent)
    decreases items, 0
  {
    var item := items[0];
    var path := Join(prefix, item.name);
    var t1 := t[path := NewRow(item, parent)];
    var sub := item.children.items;
    var rs := Discover(t1, sub, path, Some(path));
    var r := Discover(t, items, prefix, parent);
    DiscoverRowsDescribeItems(t1, sub, path, Some(path));
    DiscoverOnlyInserts(t1, sub, path, Some(path));
    if rs.failure.Some? {
      assert r.rows == rs.rows;
      forall k | k in r.rows && k !in t
        ensures Describes(k, r.rows[k], items, prefix, parent)
      {
        if k == path {
          DescribesHead(k, r.rows[k], items, prefix, parent);
        } else {
          DescribesBelow(k, r.rows[k], items, prefix, parent);
        }
      }
    } else {
      var r2 := Discover(rs.rows, items[1..], prefix, parent);
      assert r.rows == r2.rows;
      DiscoverRowsDescribeItems(rs.rows, items[1..], prefix, parent);
      DiscoverOnlyInserts(rs.rows, items[1..], prefix, parent);
      forall k | k in r.rows && k !in t
        ensures Describes(k, r.rows[k], items, prefix, parent)
      {
        if k == path {
          DescribesHead(k, r.rows[k], items, prefix, parent);
        } else if k in rs.rows {
          DescribesBelow(k, r.rows[k], items, prefix, parent);
        } else {
          DescribesTail(k, r.rows[k], items, prefix, parent);
        }
      }
    }
  }

  /**
   * The joined paths of every node of the listed tree, in the order the
   * walk meets them: a child, then the tree below it, then its siblings.
   */
  function TreePaths(items: seq<DriveItem>, prefix: Path): seq<Path>
    decreases items
  {
    if items == [] then []
    else
      var path := Join(prefix, items[0].name);
      var below := if items[0].isFolder && items[0].children.Listed? then TreePaths(items[0].children.items, path) else [];
      [path] + below + TreePaths(items[1..], prefix)
  }

  /** `k` is the joined path of some node of the tree listed under `prefix`. */
  ghost predicate InTree(k: Path, items: seq<DriveItem>, prefix: Path)
  {
    k in TreePaths(items, prefix)
  }

  lemma DistinctSplit(a: seq<Path>, b: seq<Path>)
    requires Distinct(a + b)
    ensures Distinct(a) && Distinct(b) && forall k :: k in a ==> k !in b
  {
    forall i, j | 0 <= i < |a| && 0 <= j < |b|
      ensures a[i] != b[j]
    {
      assert (a + b)[i] == a[i] && (a + b)[|a| + j] == b[j];
    }
    forall i, j | 0 <= i < j < |a|
      ensures a[i] != a[j]
    {
      assert (a + b)[i] == a[i] && (a + b)[j] == a[j];
    }
    forall i, j | 0 <= i < j < |b|
      ensures b[i] != b[j]
    {
      assert (a + b)[|a| + i] == b[i] && (a + b)[|a| + j] == b[j];
    }
  }

  /** A key that `Describes` relates to the tree is one of the tree's paths. */
  lemma {:induction false} DescribedInTree(k: Path, row: Row, items: seq<DriveItem>, prefix: Path, parent: Option<Path>)
    requires Describes(k, row, items, prefix, parent)
    ensures InTree(k, items, prefix)
    decreases items
  {
    var i :| 0 <= i < |items| &&
      ((k == Join(prefix, items[i].name) && row == NewRow(items[i], parent)) ||
       (items[i].isFolder && items[i].children.Listed? &&
        Describes(k, row, items[i].children.items, Join(prefix, items[i].name), Some(Join(prefix, items[i].name)))));
    var path := Join(prefix, items[i].name);
    if i == 0 {
      if k != path {
        DescribedInTree(k, row, items[0].children.items, path, Some(path));
      }
    } else {
      assert items[1..][i - 1] == items[i];
      DescribedInTree(k, row, items[1..], prefix, parent);
    }
  }

  /** A walk adds rows only under the joined paths of its tree. */
  lemma DiscoverAddsTreePaths(t: Table, items: seq<DriveItem>, prefix: Path, parent: Option<Path>)
    ensures forall k :: k in Discover(t, items, prefix, parent).rows ==> k in t || InTree(k, items, prefix)
  {
    var r := Discover(t, items, prefix, parent);
    DiscoverRowsDescribeItems(t, items, prefix, parent);
    forall k | k in r.rows && k !in t
      ensures InTree(k, items, prefix)
    {
      DescribedInTree(k, r.rows[k], items, prefix, parent);
    }
  }

  /**
   * Completeness: a walk that completes over a tree none of whose paths
   * is a key yet, and where no two nodes share a joined path, leaves a
   * row for every node of the tree, the nodes below new folders included.
   * With `DiscoverRowsDescribeItems` this says that such a walk adds
   * exactly one row per node of the tree.
   */
  lemma {:induction false} DiscoverCoversTree(t: Table, items: seq<DriveItem>, prefix: Path, parent: Option<Path>)
    requires ParentsAreFolders(t)
    requires parent.Some? ==> parent.value in t && t[parent.value].kind == Folder
    requires forall k :: InTree(k, items, prefix) ==> k !in t
    requires Distinct(TreePaths(items, prefix))
    ensures var r := Discover(t, items, prefix, parent);
      r.failure.None? ==> forall k :: InTree(k, items, prefix) ==> k in r.rows
    decreases items
  {
    var r := Discover(t, items, prefix, parent);
    if items != [] && r.failure.None? {
      var item := items[0];
      var path := Join(prefix, item.name);
      var below := if item.isFolder && item.children.Listed? then TreePaths(item.children.items, path) else [];
      var rest := TreePaths(items[1..], prefix);
      assert TreePaths(items, prefix) == [path] + below + rest;
      DistinctSplit([path] + below, rest);
      DistinctSplit([path], below);
      var t1 := t[path := NewRow(item, parent)];
      ExpansionGuardNeverFires(t, path, item, parent);
      InsertKeepsParents(t, path, item, parent);
      if !item.isFolder {
        assert r.rows == Discover(t1, items[1..], prefix, parent).rows;
        DiscoverCoversTree(t1, items[1..], prefix, parent);
        DiscoverOnlyInserts(t1, items[1..], prefix, parent);
        forall k | InTree(k, items, prefix)
          ensures k in r.rows
        {
          if k != path {
            assert InTree(k, items[1..], prefix);
          }
        }
      } else if item.children.Listed? {
        var sub := item.children.items;
        var rs := Discover(t1, sub, path, Some(path));
        DiscoverCoversTree(t1, sub, path, Some(path));
        DiscoverOnlyInserts(t1, sub, path, Some(path));
        DiscoverKeepsParents(t1, sub, path, Some(path));
        DiscoverAddsTreePaths(t1, sub, path, Some(path));
        var r2 := Discover(rs.rows, items[1..], prefix, parent);
        assert rs.failure.None? && r.rows == r2.rows && r2.failure.None?;
        forall k | InTree(k, items[1..], prefix)
          ensures k !in rs.rows
        {
          assert k in rest && k !in t1 && !InTree(k, sub, path);
        }
        DiscoverCoversTree(rs.rows, items[1..], prefix, parent);
        DiscoverOnlyInserts(rs.rows, items[1..], prefix, parent);
        forall k | InTree(k, items, prefix)
          ensures k in r.rows
        {
          if k == path {
            assert k in t1 && k in rs.rows;
            assert k in r2.rows;
          } else if k !in rest {
            assert InTree(k, sub, path) && k in rs.rows;
            assert k in r2.rows;
          } else {
            assert InTree(k, items[1..], prefix);
            assert k in r2.rows;
          }
        }
      }
    }
  }

  /**
   * A refresh that completes over a drive none of whose paths is stored
   * yet, into a table whose parents are folder rows, leaves a row for
   * every node of the drive.
   */
  lemma RefreshCoversTree(t: Table, root: Listing)
    requires ParentsAreFolders(t)
    requires root.Listed? && Distinct(TreePaths(root.items, ""))
    requires forall k :: InTree(k, root.items, "") ==> k !in t
    ensures var r := Refresh(t, root);
      r.failure.None? ==> forall k :: InTree(k, root.items, "") ==> k in r.rows
  {
    DiscoverCoversTree(t, root.items, "", None);
  }

  /**
   * Idempotence: after a refresh that completed, a second refresh of the
   * same drive makes only the root listing and inserts nothing.
   */
  lemma RefreshIdempotent(t: Table, root: Listing)
    requires Refresh(t, root).failure.None?
    ensures var r := Refresh(t, root);
      Refresh(r.rows, root) == Walk(r.rows, None, 1)
  {
    var items := root.items;
    DiscoverCoversItems(t, items, "", None);
    DiscoverKnownIsNoop(Discover(t, items, "", None).rows, items, "", None);
  }

  /**
   * A refresh, complete or aborted, keeps every stored row unchanged and
   * keeps the index invariant.
   */
  lemma RefreshKeepsIndex(t: Table, root: Listing)
    requires Consistent(t)
    ensures var r := Refresh(t, root);
      Extends(t, r.rows) && Consistent(r.rows)
  {
    if root.Listed? {
      DiscoverOnlyInserts(t, root.items, "", None);
      DiscoverPreservesConsistent(t, root.items, "", None);
    }
  }
}
