/**
 * The legacy photo listing and clean-up (lib/photos.ts), over the photo
 * table. Unlike getMedia, this listing probes every row and, by default,
 * deletes the rows whose file is gone while it reads.
 */
module PhotosLib {
  import opened Types
  import opened Store
  import opened Probe
  import Ordering
  import MediaLib

  /** The options object; `cleanupDeleted` defaults to true and `sortBy` to "recent". */
  datatype GetPhotosOptions = GetPhotosOptions(cleanupDeleted: Option<bool>, sortBy: Option<MediaLib.SortOption>)

  /**
   * getPhotos: read the table in the requested order, split the rows by the
   * probe, delete the invalid ones when `cleanupDeleted` holds, and return
   * the valid ones. `listing` is what the read returns: the table's rows in
   * the requested order, rows with equal keys in whatever order the
   * database picks. A throwing read returns the empty list and changes
   * nothing; a throwing delete is swallowed and the valid list is returned.
   */
  method GetPhotos(table: MediaTable, options: GetPhotosOptions, headOk: string -> bool, listing: seq<Photo>,
                   fetchFails: bool, deleteFails: bool)
    returns (photos: seq<Photo>)
    requires table.Valid()
    requires multiset(listing) == multiset(table.rows)
    requires Ordering.Sorted(MediaLib.OrderFor(options.sortBy.GetOr(MediaLib.Recent)), listing)
    modifies table
    ensures table.Valid()
    ensures fetchFails ==> photos == []
    ensures !fetchFails ==> photos == ValidRows(headOk, listing)
    ensures !fetchFails ==> multiset(photos) == multiset(ValidRows(headOk, old(table.rows)))
    ensures !fetchFails ==> MediaLib.InListingOrder(options.sortBy.GetOr(MediaLib.Recent), photos)
    ensures table.rows ==
      if !fetchFails && options.cleanupDeleted.GetOr(true) && !deleteFails
      then ValidRows(headOk, old(table.rows))
      else old(table.rows)
  {
    var cleanupDeleted := options.cleanupDeleted.GetOr(true);
    var sortBy := options.sortBy.GetOr(MediaLib.Recent);
    if fetchFails {
      return [];
    }
    var rows := listing;
    var validPhotos, invalidPhotoIds := SplitByProbe(headOk, rows);
    InvalidIdsExact(headOk, table.rows, rows);
    ListingKeepsReadOrder(headOk, sortBy, rows, table.rows);
    if cleanupDeleted && |invalidPhotoIds| > 0 {
      if !deleteFails {
        DeleteInvalidKeepsValid(headOk, table.rows, invalidPhotoIds);
        FilterUnique((m: Media) => IsMediaUrlValid(headOk, m.url), table.rows);
        table.rows := DeleteManyIdIn(table.rows, invalidPhotoIds);
      }
    } else if cleanupDeleted && !deleteFails {
      NoInvalidIdsNoInvalidRows(headOk, table.rows, rows, invalidPhotoIds);
      AllValidUnchanged(headOk, table.rows);
    }
    photos := validPhotos;
  }

  /** When the listing yields no invalid id, the table has no invalid row. */
  lemma NoInvalidIdsNoInvalidRows(headOk: string -> bool, table: seq<Media>, listed: seq<Media>, ids: seq<string>)
    requires multiset(listed) == multiset(table)
    requires ids == Ids(InvalidRows(headOk, listed)) && |ids| == 0
    ensures |InvalidRows(headOk, table)| == 0
  {
    FilterCount((m: Media) => !IsMediaUrlValid(headOk, m.url), listed);
    FilterCount((m: Media) => !IsMediaUrlValid(headOk, m.url), table);
    assert multiset(InvalidRows(headOk, table)) == multiset(InvalidRows(headOk, listed));
  }

  /**
   * The returned photos keep the order in which the read listed them, are
   * in the requested order, and are the table's valid rows, each as often
   * as the table has it, however the database orders rows with equal keys.
   */
  lemma ListingKeepsReadOrder(headOk: string -> bool, sortBy: MediaLib.SortOption, listing: seq<Media>, table: seq<Media>)
    requires Ordering.Sorted(MediaLib.OrderFor(sortBy), listing)
    requires multiset(listing) == multiset(table)
    ensures IsSubsequence(ValidRows(headOk, listing), listing)
    ensures MediaLib.InListingOrder(sortBy, ValidRows(headOk, listing))
    ensures multiset(ValidRows(headOk, listing)) == multiset(ValidRows(headOk, table))
  {
    FilterIsSubsequence((m: Media) => IsMediaUrlValid(headOk, m.url), listing);
    Ordering.SubsequenceSorted(MediaLib.OrderFor(sortBy), ValidRows(headOk, listing), listing);
    MediaLib.SortedIsListingOrder(sortBy, ValidRows(headOk, listing));
    FilterCount((m: Media) => IsMediaUrlValid(headOk, m.url), listing);
    FilterCount((m: Media) => IsMediaUrlValid(headOk, m.url), table);
  }

  /**
   * cleanupDeletedPhotos: probe every photo, delete those whose URL fails,
   * and report how many rows the delete removed; 0 when nothing fails or
   * when the read or the delete throws.
   */
  method CleanupDeletedPhotos(table: MediaTable, headOk: string -> bool, dbFails: bool) returns (removed: nat)
    requires table.Valid()
    modifies table
    ensures table.Valid()
    ensures dbFails ==> removed == 0 && table.rows == old(table.rows)
    ensures !dbFails ==> table.rows == ValidRows(headOk, old(table.rows))
    ensures !dbFails ==> removed == |InvalidRows(headOk, old(table.rows))|
    ensures removed == |old(table.rows)| - |table.rows|
  {
    if dbFails {
      return 0;
    }
    var photos := table.rows;
    var invalidPhotoIds := CollectInvalidIds(headOk, photos);
    InvalidIdsExact(headOk, photos, photos);
    Partition(headOk, photos);
    if |invalidPhotoIds| > 0 {
      var before := |table.rows|;
      DeleteInvalidKeepsValid(headOk, photos, invalidPhotoIds);
      FilterUnique((m: Media) => IsMediaUrlValid(headOk, m.url), photos);
      table.rows := DeleteManyIdIn(table.rows, invalidPhotoIds);
      removed := before - |table.rows|;
      return;
    }
    AllValidUnchanged(headOk, photos);
    return 0;
  }
}
