/**
 * The one-off migration of the legacy photo table into the media table
 * (scripts/migrate-photo-to-media.js). Each photo is created as an image
 * record under its own id; a create that fails is counted and skipped.
 */
module Migration {
  import opened Types
  import opened Store

  /** The two counters the migration reports. */
  datatype Counts = Counts(successCount: nat, errorCount: nat)

  /** The media rows and the counters part-way through the migration. */
  datatype Progress = Progress(media: seq<Media>, counts: Counts)

  /**
   * The record created for a photo: same id, URL, name, likes and creation
   * time, of type image with file type "image/jpeg" and no thumbnail.
   */
  function ToMedia(p: Photo): (m: Media)
    ensures m.kind == Image && m.fileType == Some("image/jpeg") && m.thumbnail == None
    ensures m.id == p.id && m.url == p.url && m.name == p.name
    ensures m.likes == p.likes && m.createdAt == p.createdAt
  {
    Media(p.id, p.url, p.name, Image, Some("image/jpeg"), None, p.likes, p.createdAt)
  }

  /**
   * `media.create` for one photo. It throws when the id is already taken (the
   * primary key) or when `createFault` says the database refused it; either
   * way the error counter grows and the table is unchanged.
   */
  function MigrateOne(s: Progress, p: Photo, createFault: string -> bool): Progress {
    if HasId(s.media, p.id) || createFault(p.id)
    then s.(counts := s.counts.(errorCount := s.counts.errorCount + 1))
    else Progress(s.media + [ToMedia(p)], s.counts.(successCount := s.counts.successCount + 1))
  }

  /** The migration of `photos`, in order, into a media table holding `existing`. */
  function Migrate(photos: seq<Photo>, existing: seq<Media>, createFault: string -> bool): Progress {
    if photos == [] then Progress(existing, Counts(0, 0))
    else MigrateOne(Migrate(photos[..|photos| - 1], existing, createFault), photos[|photos| - 1], createFault)
  }

  /**
   * Every photo is counted exactly once, each success adds exactly one row,
   * the rows already there stay in front unchanged, every added row is the
   * image record of some photo, and ids stay unique.
   */
  lemma {:induction false} MigrateAccounts(photos: seq<Photo>, existing: seq<Media>, createFault: string -> bool)
    requires UniqueIds(existing)
    ensures var s := Migrate(photos, existing, createFault);
      && s.counts.successCount + s.counts.errorCount == |photos|
      && |s.media| == |existing| + s.counts.successCount
      && s.media[..|existing|] == existing
      && (forall k :: |existing| <= k < |s.media| ==> exists p :: p in photos && s.media[k] == ToMedia(p))
      && UniqueIds(s.media)
  {
    if photos != [] {
      var init := photos[..|photos| - 1];
      var last := photos[|photos| - 1];
      MigrateAccounts(init, existing, createFault);
      var before := Migrate(init, existing, createFault);
      assert forall p :: p in init ==> p in photos;
      if !(HasId(before.media, last.id) || createFault(last.id)) {
        AppendFreshUnique(before.media, ToMedia(last));
        assert (before.media + [ToMedia(last)])[..|existing|] == before.media[..|existing|];
      }
    }
  }

  /** Appending a row whose id is not yet taken keeps ids unique. */
  lemma AppendFreshUnique(rows: seq<Media>, m: Media)
    requires UniqueIds(rows) && !HasId(rows, m.id)
    ensures UniqueIds(rows + [m])
  {
    forall i | 0 <= i < |rows|
      ensures rows[i].id != m.id
    {
      assert rows[i] in rows;
    }
  }

  /** A row present before the migration is still present after it. */
  lemma {:induction false} MigrateKeepsIds(photos: seq<Photo>, existing: seq<Media>, createFault: string -> bool, id: string)
    requires HasId(existing, id)
    ensures HasId(Migrate(photos, existing, createFault).media, id)
  {
    if photos != [] {
      var before := Migrate(photos[..|photos| - 1], existing, createFault);
      MigrateKeepsIds(photos[..|photos| - 1], existing, createFault, id);
      var m :| m in before.media && m.id == id;
      assert m in before.media + [ToMedia(photos[|photos| - 1])];
    }
  }

  /**
   * Without database faults, every photo's id is in the media table
   * afterwards: either it was there already or the photo was created.
   */
  lemma {:induction false} MigrateCovers(photos: seq<Photo>, existing: seq<Media>, createFault: string -> bool)
    requires forall p :: p in photos ==> !createFault(p.id)
    ensures forall p :: p in photos ==> HasId(Migrate(photos, existing, createFault).media, p.id)
  {
    if photos != [] {
      var init := photos[..|photos| - 1];
      var last := photos[|photos| - 1];
      assert forall p :: p in init ==> p in photos;
      MigrateCovers(init, existing, createFault);
      var before := Migrate(init, existing, createFault);
      var after := Migrate(photos, existing, createFault);
      forall p | p in photos
        ensures HasId(after.media, p.id)
      {
        if p in init {
          var m :| m in before.media && m.id == p.id;
          assert m in after.media;
        } else {
          assert p == last by {
            assert photos == init + [last];
          }
          if !HasId(before.media, last.id) {
            assert ToMedia(last) in after.media;
          }
        }
      }
    }
  }

  /**
   * Running the migration again over photos whose ids are all present adds
   * nothing and counts every photo as an error: the migration never
   * duplicates a record.
   */
  lemma {:induction false} RerunAddsNothing(photos: seq<Photo>, media: seq<Media>, createFault: string -> bool)
    requires forall p :: p in photos ==> HasId(media, p.id)
    ensures Migrate(photos, media, createFault) == Progress(media, Counts(0, |photos|))
  {
    if photos != [] {
      assert forall p :: p in photos[..|photos| - 1] ==> p in photos;
      RerunAddsNothing(photos[..|photos| - 1], media, createFault);
    }
  }

  /**
   * migratePhotosToMedia: read every photo, then create each one as a media
   * record, counting successes and failures. A throwing read ends the
   * migration with nothing written and no report. The photo table is only
   * read.
   */
  method MigratePhotosToMedia(photoTable: MediaTable, mediaTable: MediaTable, fetchFails: bool, createFault: string -> bool)
    returns (report: Option<Counts>)
    requires photoTable != mediaTable
    requires mediaTable.Valid()
    modifies mediaTable
    ensures mediaTable.Valid()
    ensures fetchFails ==> report == None && mediaTable.rows == old(mediaTable.rows)
    ensures !fetchFails ==>
      var s := Migrate(photoTable.rows, old(mediaTable.rows), createFault);
      mediaTable.rows == s.media && report == Some(s.counts)
  {
    if fetchFails {
      return None;
    }
    var photos := photoTable.rows;
    var successCount, errorCount := 0, 0;
    for i := 0 to |photos|
      invariant mediaTable.Valid()
      invariant Migrate(photos[..i], old(mediaTable.rows), createFault)
             == Progress(mediaTable.rows, Counts(successCount, errorCount))
    {
      var photo := photos[i];
      assert photos[..i + 1][..i] == photos[..i];
      if HasId(mediaTable.rows, photo.id) || createFault(photo.id) {
        errorCount := errorCount + 1;
      } else {
        AppendFreshUnique(mediaTable.rows, ToMedia(photo));
        mediaTable.rows := mediaTable.rows + [ToMedia(photo)];
        successCount := successCount + 1;
      }
    }
    assert photos[..|photos|] == photos;
    report := Some(Counts(successCount, errorCount));
  }
}
