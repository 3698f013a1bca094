/**
 * The remote side of the mirror, reduced to what the engine observes:
 * a finite tree of drive items whose folder listings may fail, a hash
 * lookup per item id, a content download, and the local hasher and clock.
 */
module Remote {
  import opened Wrappers

  type ItemId = string
  type Bytes = seq<bv8>

  /**
   * Everything a remote call or the local write around it can raise:
   * a 401 response, another non-success status, a transport failure, or
   * a local I/O error (creating the directory, writing the file).
   */
  datatype Fault = Unauthorized | HttpStatus(code: int) | Transport | LocalIO

  /**
   * The fully paginated answer to one children listing: either every
   * child in provider order, or the failure that the listing raised.
   */
  datatype Listing = Listed(items: seq<DriveItem>) | ListingFailed(fault: Fault)

  /**
   * A child as the listing returns it: `id`, `name`, whether it carries a
   * `folder` facet, and what listing its own id would return.
   */
  datatype DriveItem = DriveItem(id: ItemId, name: string, isFolder: bool, children: Listing)

  /**
   * What fetching one item's metadata gives: the `sha1Hash` it carries
   * (absent when the item has no file hashes), or the fault it raised.
   */
  datatype HashAnswer = HashFound(sha1: Option<string>) | HashFailed(fault: Fault)

  type HashLookup = ItemId -> HashAnswer

  /**
   * What one content download gives: the bytes of an ok response, the
   * status of a non-ok response, or a raised fault.
   */
  datatype Download = Content(bytes: Bytes) | NotOk(status: int) | Raised(fault: Fault)

  /** The download is addressed by the row's item id exactly as stored, NULL included. */
  type Fetcher = Option<ItemId> -> Download

  /** The local content hash of a file with these bytes (a total function). */
  type Digest = Bytes -> string

  /** A timestamp written into `downloaded_date`; an ISO string is never empty. */
  type Timestamp = s: string | s != [] witness "0"
}
