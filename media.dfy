/**
 * Listing and clean-up of the unified media table (lib/media.ts).
 */
module MediaLib {
  import opened Types
  import opened Store
  import opened Probe
  import Ordering

  datatype SortOption = Recent | Oldest | Likes

  datatype MediaTypeFilter = All | Images | Videos

  /** The options object of getMedia; an absent field takes its default. */
  datatype GetMediaOptions = GetMediaOptions(
    cleanupDeleted: Option<bool>,
    sortBy: Option<SortOption>,
    mediaType: Option<MediaTypeFilter>)

  /** The options object of getPhotos, which has no type field. */
  datatype GetPhotosOptions = GetPhotosOptions(cleanupDeleted: Option<bool>, sortBy: Option<SortOption>)

  /** The `orderBy` lookup table of the listings. */
  function OrderFor(s: SortOption): Ordering.OrderBy {
    match s
    case Recent => Ordering.OrderBy(Ordering.CreatedAt, Ordering.Desc)
    case Oldest => Ordering.OrderBy(Ordering.CreatedAt, Ordering.Asc)
    case Likes => Ordering.OrderBy(Ordering.LikeCount, Ordering.Desc)
  }

  /** The order a listing promises, stated on the records' own fields. */
  predicate InListingOrder(s: SortOption, r: seq<Media>) {
    match s
    case Recent => forall i, j :: 0 <= i < j < |r| ==> r[i].createdAt >= r[j].createdAt
    case Oldest => forall i, j :: 0 <= i < j < |r| ==> r[i].createdAt <= r[j].createdAt
    case Likes => forall i, j :: 0 <= i < j < |r| ==> r[i].likes >= r[j].likes
  }

  /** The records a type filter admits. */
  predicate MatchesType(t: MediaTypeFilter, m: Media) {
    match t
    case All => true
    case Images => m.kind == Image
    case Videos => m.kind == Video
  }

  /** A list sorted by a sort option's `orderBy` is in that option's listing order. */
  lemma SortedIsListingOrder(s: SortOption, r: seq<Media>)
    requires Ordering.Sorted(OrderFor(s), r)
    ensures InListingOrder(s, r)
  {
    forall i, j | 0 <= i < j < |r|
      ensures Ordering.Precedes(OrderFor(s), r[i], r[j])
    {
    }
  }

  /**
   * getMedia: `findMany({ orderBy, where })`, or the empty list when the
   * query throws. `cleanupDeleted` is accepted and ignored.
   */
  function GetMedia(table: seq<Media>, dbFails: bool, options: GetMediaOptions): (r: seq<Media>)
    ensures dbFails ==> r == []
    ensures InListingOrder(options.sortBy.GetOr(Recent), r)
    ensures forall m :: m in r ==> MatchesType(options.mediaType.GetOr(All), m)
    ensures !dbFails ==>
      forall m :: multiset(r)[m] == if MatchesType(options.mediaType.GetOr(All), m) then multiset(table)[m] else 0
  {
    var sortBy := options.sortBy.GetOr(Recent);
    var mediaType := options.mediaType.GetOr(All);
    if dbFails then []
    else
      FindManyListing(table, sortBy, mediaType);
      FindMany(table, sortBy, mediaType)
  }

  /** The query getMedia sends: rows of the requested type, in the requested order. */
  function FindMany(table: seq<Media>, sortBy: SortOption, mediaType: MediaTypeFilter): seq<Media> {
    Ordering.SortBy(OrderFor(sortBy), Filter((m: Media) => MatchesType(mediaType, m), table))
  }

  /** The query's rows are ordered, of the requested type, and each matching row is there as often as in the table. */
  lemma FindManyListing(table: seq<Media>, sortBy: SortOption, mediaType: MediaTypeFilter)
    ensures InListingOrder(sortBy, FindMany(table, sortBy, mediaType))
    ensures forall m :: m in FindMany(table, sortBy, mediaType) ==> MatchesType(mediaType, m)
    ensures forall m :: multiset(FindMany(table, sortBy, mediaType))[m]
                     == if MatchesType(mediaType, m) then multiset(table)[m] else 0
  {
    var matching := Filter((m: Media) => MatchesType(mediaType, m), table);
    FilterCount((m: Media) => MatchesType(mediaType, m), table);
    var r := FindMany(table, sortBy, mediaType);
    SortedIsListingOrder(sortBy, r);
    assert multiset(r) == multiset(matching);
    forall m | m in r
      ensures MatchesType(mediaType, m)
    {
      assert m in multiset(matching);
    }
  }

  /** The defaults are "recent" and "all", and the clean-up flag changes nothing. */
  lemma GetMediaDefaults(table: seq<Media>, dbFails: bool, cleanupDeleted: Option<bool>)
    ensures GetMedia(table, dbFails, GetMediaOptions(cleanupDeleted, None, None))
         == GetMedia(table, dbFails, GetMediaOptions(None, Some(Recent), Some(All)))
  {
  }

  /** getPhotos: getMedia restricted to images. */
  function GetPhotos(table: seq<Media>, dbFails: bool, options: GetPhotosOptions): (r: seq<Media>)
    ensures forall m :: m in r ==> m.kind == Image
    ensures InListingOrder(options.sortBy.GetOr(Recent), r)
    ensures !dbFails ==> forall m :: multiset(r)[m] == if m.kind == Image then multiset(table)[m] else 0
    ensures dbFails ==> r == []
  {
    GetMedia(table, dbFails, GetMediaOptions(options.cleanupDeleted, options.sortBy, Some(Images)))
  }

  /**
   * cleanupDeletedMedia: probe every row, delete those whose URL fails, and
   * report how many rows the delete removed. When the query or the delete
   * throws, nothing is removed and 0 is reported.
   */
  method CleanupDeletedMedia(table: MediaTable, headOk: string -> bool, dbFails: bool) returns (removed: nat)
    requires table.Valid()
    modifies table
    ensures table.Valid()
    ensures dbFails ==> removed == 0 && table.rows == old(table.rows)
    ensures !dbFails ==> table.rows == ValidRows(headOk, old(table.rows))
    ensures !dbFails ==> removed == |InvalidRows(headOk, old(table.rows))|
    ensures removed == |old(table.rows)| - |table.rows|
  {
    if dbFails {
      return 0;
    }
    var mediaItems := table.rows;
    var invalidMediaIds := CollectInvalidIds(headOk, mediaItems);
    InvalidIdsExact(headOk, mediaItems, mediaItems);
    Partition(headOk, mediaItems);
    if |invalidMediaIds| > 0 {
      var before := |table.rows|;
      DeleteInvalidKeepsValid(headOk, mediaItems, invalidMediaIds);
      FilterUnique((m: Media) => IsMediaUrlValid(headOk, m.url), mediaItems);
      table.rows := DeleteManyIdIn(table.rows, invalidMediaIds);
      removed := before - |table.rows|;
      return;
    }
    AllValidUnchanged(headOk, mediaItems);
    return 0;
  }

  /** cleanupDeletedPhotos: kept for compatibility, it runs cleanupDeletedMedia. */
  method CleanupDeletedPhotos(table: MediaTable, headOk: string -> bool, dbFails: bool) returns (removed: nat)
    requires table.Valid()
    modifies table
    ensures table.Valid()
    ensures dbFails ==> removed == 0 && table.rows == old(table.rows)
    ensures !dbFails ==> table.rows == ValidRows(headOk, old(table.rows))
    ensures !dbFails ==> removed == |InvalidRows(headOk, old(table.rows))|
    ensures removed == |old(table.rows)| - |table.rows|
  {
    removed := CleanupDeletedMedia(table, headOk, dbFails);
  }
}
