# OneDrive mirror index: a verified Dafny model

This project models the mirror and reconciliation engine of
`download-onedrive/OneDrive_Download.py`. The engine keeps a SQLite table
`files`, keyed by the relative path `item`, with one row per file or folder
of a OneDrive tree. Each row holds `item_type`, `item_id`, `parent`,
`cloud_hash`, `local_hash` and `downloaded_date`. Several passes, each run
on its own, work on that table:

- discovery (`populate_db`, `refresh_file_list`) inserts every remote child
  whose path is not a key yet, and walks new folders;
- cloud-hash reconciliation (`get_missing_cloud_hash`, `update_cloud_hash`)
  writes `cloud_hash`;
- the download passes (`download_updates`, `sync_downloads`) write
  `downloaded_date` and `local_hash` together;
- `update_local_hash` re-hashes the local copies;
- two read-only reports (`check_updates`, `find_diff_summary`).

Layout, one module per file:

| file | module | what it holds |
|---|---|---|
| wrappers.dfy | Wrappers | `Option`, standing for SQL NULL |
| sql.dfy | SqlValues | SQLite `lower()` (ASCII only), three-valued `!=`, `OR`, `IS NULL`, "NULL or empty" |
| remote.dfy | Remote | the drive as a finite tree of listings; hash lookup, download, hasher and timestamp types |
| index.dfy | FilesIndex | `Row`, the table as `map<Path, Row>`, the index invariant, class `FilesTable` with a method per INSERT and UPDATE and per selection a pass loops over |
| discovery.dfy | Discovery | `Discover`/`Refresh` specifications, `PopulateDb`, `RefreshFileList`, their lemmas |
| cloud_hash.dfy | CloudHashes | `ReconcilePass`, `GetMissingCloudHash`, `UpdateCloudHash`, their lemmas |
| downloads.dfy | Downloads | `DownloadPass`, `SyncPass`, `RehashPass`, the three methods, their lemmas |
| reports.dfy | Reports | `CheckUpdates`, `FindDiffSummary`, the partition lemmas |
| pipeline.dfy | Pipeline | how the passes compose: convergence, and a remote change showing up as stale |

The index invariant is `FilesIndex.Consistent`, the conjunction of four
parts: `DateImpliesLocalHash` (a set `downloaded_date` implies a set
`local_hash`), `FoldersCarryNoHashes` (folder rows have no hashes and no
date), `ParentsAreFolders` (every `parent` names a folder row) and
`IdsPresent` (every row has an `item_id`).

The table is a field `rows: map<Path, Row>` of class `FilesTable`. Each
INSERT and UPDATE, and the row selection of each looping pass, is a method
of that class. The read-only queries of `find_diff_summary` are set
functions of the table. The passes are module-level methods taking the table, as the source's
functions take `conn`. Each pass method is proved against a specification
function over the map: `ReconcilePass`, `DownloadPass`, `RehashPass`,
`Discover` and `SyncPass`. The lemmas are about those functions.

The outside world is passed in as parameters:

- the drive is a `Listing` tree, so the recursion of `populate_db` ends by
  structure;
- `get_cloud_hash` is a `HashLookup`;
- the content download is a `Fetcher`;
- `compute_hash` is a total `Digest` on bytes;
- `utcnow` is a `Clock` giving a non-empty timestamp;
- `os.path.exists` plus the file bytes is `LocalFiles`.

The row order of `fetchall()` is left to the store. `SelectWhere` promises
only that every selected key appears exactly once. Every pass that loops
over a `fetchall()` result, except `sync_downloads`, has an order-free
closed form. `sync_downloads` can stop part-way, so it is specified over
the order it fetched. Discovery is specified over the provider's listing
order: a failed listing, or two children with the same joined path, makes
its result depend on that order.

Where the code's behaviour differs from what its passes evidently aim for
(mirror every drive item, retry what failed), the model follows the code:

- A failed folder listing raises out of the whole discovery (lines 51,
  136-137), not only out of that subtree: no later sibling is visited
  (`FailedListingAborts`, `DiscoverAppend`). The rows inserted before it
  stay, because the connection is in autocommit mode (line 83).
- An already-known path is skipped (lines 122-124) before the "already
  expanded" test (lines 131-135) is reached. So that test only sees freshly
  inserted folders. Under the index invariant it never fires
  (`ExpansionGuardNeverFires`). A known folder is never listed again
  (`DiscoverKnownIsNoop`, `DiscoverSkipsKnownChild`), even one whose earlier listing failed. Its
  missing children stay undiscovered on later refreshes.
- A row with NULL `cloud_hash` and a non-NULL `local_hash` is not selected by
  `download_updates`. Its `!=` is UNKNOWN under SQL's NULL rules
  (`OutstandingIff`).

## Model

| member | source | states |
|---|---|---|
| `FilesIndex.FilesTable.constructor` | download-onedrive/OneDrive_Download.py:82-97 | opening the store gives a table holding exactly the stored rows |
| `FilesIndex.FilesTable.InsertOrIgnore` | download-onedrive/OneDrive_Download.py:127-128 | INSERT OR IGNORE: a row already stored under the key is kept; otherwise the new row is added and nothing else changes |
| `FilesIndex.FilesTable.SetCloudHash` | download-onedrive/OneDrive_Download.py:154-155 | UPDATE of `cloud_hash` by key: only that field of that row changes; an absent key changes nothing |
| `FilesIndex.FilesTable.SetDownloaded` | download-onedrive/OneDrive_Download.py:205-206 | one UPDATE sets `downloaded_date` and `local_hash` of that row together, nothing else |
| `FilesIndex.FilesTable.SetLocalHash` | download-onedrive/OneDrive_Download.py:251-252 | UPDATE of `local_hash` by key only |
| `FilesIndex.FilesTable.SelectWhere` | download-onedrive/OneDrive_Download.py:149-150 | SELECT then fetchall returns every key whose row meets the WHERE clause, and only those, each exactly once |
| `FilesIndex.FileColumnsOnlyKeepsConsistent` | download-onedrive/OneDrive_Download.py:85-93 | changing only hash and date columns of file rows, with a local hash beside any date, keeps the index invariant |
| `SqlValues.Lower` | download-onedrive/OneDrive_Download.py:191 | `lower()` keeps the length and folds each character by ASCII rules |
| `SqlValues.LowerOpt` | download-onedrive/OneDrive_Download.py:191 | `lower(NULL)` is NULL and only NULL |
| `SqlValues.Or` | download-onedrive/OneDrive_Download.py:191 | SQL OR is true iff one side is true, and false iff both sides are false |
| `Discovery.Join` | download-onedrive/OneDrive_Download.py:120 | definition: `os.path.join(path_prefix, name)` by POSIX rules, whose properties `JoinShape` states |
| `Discovery.JoinShape` | download-onedrive/OneDrive_Download.py:120 | the joined path ends with the child's name, is just the name at top level, and starts with the prefix unless the name is absolute |
| `Discovery.NewRow` | download-onedrive/OneDrive_Download.py:119-128 | definition: the row inserted for a new child, kind Folder iff the item has a folder facet, the item's id, the given parent, NULL hashes and date; `DiscoverRowsDescribeItems` and `HeadRowShape` state where it is stored |
| `Discovery.HasChildren` | download-onedrive/OneDrive_Download.py:132-133 | definition: the `SELECT 1 ... WHERE parent = ? LIMIT 1` test found a row |
| `Discovery.Discover` | download-onedrive/OneDrive_Download.py:114-138 | definition of the walk: known paths skipped, a new child inserted, a new folder with no child rows listed and walked, a failed listing aborting with the rows inserted so far; returns rows, fault and number of listings |
| `Discovery.Refresh` | download-onedrive/OneDrive_Download.py:141-144 | definition: the root listing, then the walk with prefix '' and no parent |
| `Discovery.PopulateDb` | download-onedrive/OneDrive_Download.py:114-138 | the loop and recursion leave exactly the table, failure and listing count of the `Discover` specification |
| `Discovery.RefreshFileList` | download-onedrive/OneDrive_Download.py:141-144 | a failed root listing changes nothing; otherwise the top-level walk runs with prefix '' and no parent |
| `Discovery.DiscoverOnlyInserts` | download-onedrive/OneDrive_Download.py:122-128 | discovery never changes or drops a stored row; every row it adds has an id and nothing hashed or downloaded; this holds on failure too |
| `Discovery.ExpansionGuardNeverFires` | download-onedrive/OneDrive_Download.py:131-135 | when every parent is a stored folder, no row names a just-inserted folder as parent, so the "already fetched" skip never happens |
| `Discovery.DiscoverKeepsParents` | download-onedrive/OneDrive_Download.py:128-137 | every `parent` written by discovery names a folder row of the table |
| `Discovery.DiscoverPreservesConsistent` | download-onedrive/OneDrive_Download.py:114-138 | discovery started below a folder row keeps the index invariant |
| `Discovery.HeadRowShape` | download-onedrive/OneDrive_Download.py:119-128 | the first child, if its path is new, ends up with exactly its `NewRow` row, whatever happens later in the walk |
| `Discovery.FailedListingAborts` | download-onedrive/OneDrive_Download.py:131-137 | a new folder whose listing fails aborts the walk with that fault; its own row stays; no later sibling is visited |
| `Discovery.DiscoverKnownIsNoop` | download-onedrive/OneDrive_Download.py:122-124 | children whose paths are all known cause no insert and no listing, whatever lies below them |
| `Discovery.DiscoverAppend` | download-onedrive/OneDrive_Download.py:116-137 | a walk over one listing followed by another is the walk over the first, then (unless it raised) the walk over the second from the table it left; a raise among the first children means no later sibling is visited |
| `Discovery.DiscoverSkipsKnownChild` | download-onedrive/OneDrive_Download.py:117-124 | a child whose joined path is already a key, at any position among its siblings, changes nothing: the walk equals the walk over the listing without it, so no insert and no listing below it |
| `Discovery.DiscoverCoversItems` | download-onedrive/OneDrive_Download.py:116-137 | a walk that completes leaves a row for every child it was given |
| `Discovery.TreePaths` | download-onedrive/OneDrive_Download.py:114-137 | definition: the joined path of every node of the listed tree, in the order the walk meets them |
| `Discovery.DiscoverCoversTree` | download-onedrive/OneDrive_Download.py:116-137 | a walk started below a folder row (or at top level), into a table whose parents are folder rows as the index invariant keeps, that completes over a tree with no path stored yet and no two nodes sharing a joined path leaves a row for every node, including the nodes below new folders |
| `Discovery.DiscoverAddsTreePaths` | download-onedrive/OneDrive_Download.py:116-137 | a walk adds rows only under the joined paths of its tree |
| `Discovery.RefreshCoversTree` | download-onedrive/OneDrive_Download.py:141-144 | a refresh into a table whose parents are folder rows, as the index invariant keeps, that completes over a drive with no path stored yet, no two nodes sharing a path, leaves a row for every node of the drive |
| `Discovery.DiscoverRowsDescribeItems` | download-onedrive/OneDrive_Download.py:116-137 | every row a walk adds, complete or aborted, is stored under an item's joined path and is that item's new row: Folder iff the item has a folder facet, the item's id, NULL hashes and date, and as parent the enclosing folder's path (the walk's parent at top level) |
| `Discovery.RefreshIdempotent` | download-onedrive/OneDrive_Download.py:141-144 | after a complete refresh, refreshing the same drive again makes only the root listing and changes nothing |
| `Discovery.RefreshKeepsIndex` | download-onedrive/OneDrive_Download.py:141-144 | a refresh, complete or aborted, keeps stored rows unchanged and keeps the index invariant |
| `CloudHashes.Selected` | download-onedrive/OneDrive_Download.py:149-164 | definition: the WHERE clauses at lines 149 and 164, file rows with an item id and, in the missing-only mode, a NULL or '' cloud hash |
| `CloudHashes.Reconciled` | download-onedrive/OneDrive_Download.py:152-158 | definition: one row after its lookup, an answer writing the sha1 or NULL into `cloud_hash`, a raised fault leaving the row; `ReconcilePass` states its effect on the table |
| `CloudHashes.ReconcilePass` | download-onedrive/OneDrive_Download.py:147-174 | only `cloud_hash` of selected rows changes; an answer writes the sha1, or NULL when there is none; a raised fault, 401 included, leaves the row unchanged |
| `CloudHashes.ReconcileCloudHashes` | download-onedrive/OneDrive_Download.py:151-158 | the per-row loop with its try/except yields exactly `ReconcilePass` |
| `CloudHashes.GetMissingCloudHash` | download-onedrive/OneDrive_Download.py:147-159 | selects file rows with an item id and a NULL or '' cloud hash |
| `CloudHashes.UpdateCloudHash` | download-onedrive/OneDrive_Download.py:162-174 | selects every file row with an item id |
| `CloudHashes.ReconcilePreservesConsistent` | download-onedrive/OneDrive_Download.py:154-155 | reconciliation keeps the index invariant |
| `CloudHashes.ReconcileIdempotent` | download-onedrive/OneDrive_Download.py:162-174 | against an unchanged provider, a second pass of either mode changes nothing |
| `CloudHashes.MissingPassFillsAll` | download-onedrive/OneDrive_Download.py:149 | when every lookup gives a non-empty hash, the missing-only pass leaves no row that it would select again |
| `Downloads.Outstanding` | download-onedrive/OneDrive_Download.py:191 | definition: the WHERE clause of `download_updates` evaluated in SQL's three-valued logic, a row kept only when it is true |
| `Downloads.NeverDownloaded` | download-onedrive/OneDrive_Download.py:220 | definition: the WHERE clause of `sync_downloads`, file rows with NULL `downloaded_date` |
| `Downloads.AfterDownload` | download-onedrive/OneDrive_Download.py:200-206 | definition: an ok response sets the row's date and the hash of the written bytes in one UPDATE; any other outcome leaves it |
| `Downloads.OutstandingIff` | download-onedrive/OneDrive_Download.py:191 | under NULL semantics a file row is selected iff its local hash is NULL, or both hashes are present and differ after `lower()` |
| `Downloads.DownloadPass` | download-onedrive/OneDrive_Download.py:189-215 | only `downloaded_date` and `local_hash` change; only selected rows whose download succeeds change; those get a date and the hash of the downloaded bytes |
| `Downloads.DownloadUpdates` | download-onedrive/OneDrive_Download.py:189-215 | the loop, with non-ok and raised rows skipped, yields `DownloadPass`; `updated` equals the number of successes |
| `Downloads.DownloadCounterMatchesWrites` | download-onedrive/OneDrive_Download.py:200-208 | the rows `updated` counts are exactly the rows written, each with a date and the hash of its bytes; every other row is unchanged |
| `Downloads.SyncPass` | download-onedrive/OneDrive_Download.py:218-240 | definition of `sync_downloads` over the fetched order: each row attempted from its fetched item id, a raised fault ending the pass with the rows written so far, ok responses counted |
| `Downloads.FirstRaised` | download-onedrive/OneDrive_Download.py:222-237 | the number of rows attempted before the first raised fault: no earlier row raised, and the row at that index did |
| `Downloads.SyncDownloads` | download-onedrive/OneDrive_Download.py:218-240 | selects each never-downloaded file row once, then runs `SyncPass` over that order; a raised fault ends the pass |
| `Downloads.SyncClosedForm` | download-onedrive/OneDrive_Download.py:222-237 | the rows before the first raise are each attempted once from their selected state; the pass fails iff some row raises; rows from that one on are unchanged; `downloaded` counts the successes |
| `Downloads.SyncPreservesConsistent` | download-onedrive/OneDrive_Download.py:227-235 | `sync_downloads` over file rows keeps the index invariant |
| `Downloads.DownloadPreservesConsistent` | download-onedrive/OneDrive_Download.py:200-208 | `download_updates` keeps `downloaded_date` non-NULL ⇒ `local_hash` non-NULL, and the rest of the invariant |
| `Downloads.DownloadSettlesRow` | download-onedrive/OneDrive_Download.py:191-212 | a failed download leaves the row selected for a retry; a successful one whose bytes match the cloud hash, ignoring case, takes it out of the selection |
| `Downloads.RehashPass` | download-onedrive/OneDrive_Download.py:243-256 | only `local_hash` changes, and only for file rows whose local file exists; it becomes the hash of that file |
| `Downloads.UpdateLocalHash` | download-onedrive/OneDrive_Download.py:243-256 | the loop yields `RehashPass`; `updated` equals the number of re-hashed rows |
| `Downloads.RehashCounterMatchesWrites` | download-onedrive/OneDrive_Download.py:249-254 | the rows `updated` counts are exactly the rows re-hashed to their file's hash; every other row is unchanged |
| `Downloads.RehashPreservesConsistent` | download-onedrive/OneDrive_Download.py:247-254 | re-hashing keeps the index invariant |
| `Reports.Mismatch` | download-onedrive/OneDrive_Download.py:182 | definition: both hashes truthy and different, compared case-sensitively |
| `Reports.FindDiffSummary` | download-onedrive/OneDrive_Download.py:259-308 | definition of the report: the same and different counts, the two missing lists as key sets, the two one-sided counts, each over file rows with NULL and '' counted as missing; `SummaryPartitionsFiles` and `SummaryOnlyBounds` state how they relate |
| `Reports.CheckUpdates` | download-onedrive/OneDrive_Download.py:177-186 | read-only; lists each file row once iff both hashes are truthy and differ case-sensitively |
| `Reports.SummaryPartitionsFiles` | download-onedrive/OneDrive_Download.py:259-308 | same + different + cloud-only + local-only + rows with neither hash = the number of file rows |
| `Reports.SummaryOnlyBounds` | download-onedrive/OneDrive_Download.py:280-308 | cloud-only ≤ number missing a local hash; local-only ≤ number missing a cloud hash |
| `Reports.StaleIsMismatch` | download-onedrive/OneDrive_Download.py:182 | a row counted as different by the summary is a mismatch for `check_updates`; a mismatch is either different or the same except for letter case |
| `Reports.CaseOnlyDifference` | download-onedrive/OneDrive_Download.py:182 | hashes "AB" and "ab" are a mismatch for `check_updates` but the same for the summary |
| `Reports.SummaryAgreesWithSelection` | download-onedrive/OneDrive_Download.py:191 | a different or cloud-only file row is selected by `download_updates`; a same row is not |
| `Pipeline.Convergence` | download-onedrive/OneDrive_Download.py:162-215 | if every lookup and download succeeds and the hasher agrees with the drive up to case, `update_cloud_hash` then `download_updates` leave every file row the same, and nothing different, missing or one-sided |
| `Pipeline.RemoteChangeShowsAsStale` | download-onedrive/OneDrive_Download.py:162-191 | from an in-sync mirror, `update_cloud_hash` alone makes exactly the rows whose new hash differs stale and selected for download; local hashes are untouched |
| `Pipeline.MissingModeKeepsStaleHash` | download-onedrive/OneDrive_Download.py:147-215 | for every file row with no local hash whose non-empty cloud hash differs, ignoring case, from the non-empty hash the drive now reports, and whose download succeeds with content hashing to that hash up to case: `get_missing_cloud_hash` then `download_updates` leave it stale, `update_cloud_hash` then `download_updates` leave it in sync |

## Left out

- HTTP and the Graph API: URLs, headers, `@odata.nextLink` pagination in `get_drive_items` (lines 37-56) and the status handling of `get_cloud_hash` (lines 59-74). A listing is given fully drained or as the fault it raised. A lookup gives the `sha1Hash` or a fault (401, another status, transport).
- SHA-1: the `sha1sum` subprocess and the `hashlib` loop of `compute_hash` (lines 100-111). They are foreign code and a digest, so the hash is an uninterpreted total function on bytes. `compute_hash` raising on an unreadable file is not modelled. In `update_local_hash` such a fault would end the pass.
- `Fetcher`: a download's outcome is a function of the row's item id only. A fault from the local write (`os.makedirs`, `open`, lines 197-202 and 224-229) is assumed to be the same for every row with that item id. In the source it depends on the local path, and two rows can share an id (an item's old and new paths after a rename).
- Logging and output: `log_request`, `print`, the file writes, `os.makedirs`. In the download passes every fault from writing is one `Raised` outcome. A fault inside `log_request` after a committed UPDATE is not modelled.
- `read_token`, the `init_db` DDL and the `argparse` dispatch of `__main__` (lines 328-379): these are I/O and command-line handling. The constructor stands for opening the store with its existing rows.
- The real clock: `utcnow` is a parameter giving each row's non-empty timestamp.
- The local directory: `os.path.join(local_dir, item)` is the row's key looked up in `LocalFiles`.
- Durability: commits, crashes and concurrency. Every statement is applied at once, as autocommit does.
- The other five files of the repository (create-list-from-file, import-export-diff, clone-list, import-export, reset-list) are To Do import/export glue and are not part of this model.
