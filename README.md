# Wedding gallery: a verified model of its core

This project models, in Dafny, the state bookkeeping of a small wedding
photo and video gallery, and proves properties of it. It covers:

- **The gallery component** (`components/gallery.tsx`).
  - The optimistic like flow: a guard, an optimistic +1, then either the server count or a rollback.
  - The liked-id set and its local-storage copy.
  - The double-tap timers and the detail view.
  - The video-thumbnail pass.
  - The displayed count, the heart fill and the poster-source expressions.
  - `GalleryLogic` holds the state as a value (`Visitor`) with one transition function per handler.
  - `GalleryView.Gallery` is the component as an object. Its fields are the state hooks, and each method is proved to perform the matching transition.
  - A like is split into `BeginLike` (up to the awaited call) and `CompleteLike` (when the call ends), so interleavings of several likes can be stated.
- **The server actions** (`app/actions.ts`).
  - `toggleLikePhoto` is an `UPDATE … SET likes = likes + 1 WHERE id = …` over the media table, returning the new count.
  - `saveEmail` is an upsert keyed by e-mail.
  - `saveMessage` is an insert.
- **The media library** (`lib/media.ts`).
  - `getMedia` orders and filters by type, never writes, and returns an empty list on failure.
  - `getPhotos` is `getMedia` restricted to images.
  - `cleanupDeletedMedia` probes every URL and deletes the rows that fail.
- **The legacy photo library** (`lib/photos.ts`).
  - `getPhotos` lists, splits by the probe and, by default, deletes the invalid rows while it reads.
  - `cleanupDeletedPhotos` does the probe-and-delete on its own.
- **The migration script** (`scripts/migrate-photo-to-media.js`). It copies every photo into the media table as an image record and counts successes and failures.

How the environment is abstracted:

- The database tables are objects (`Store.MediaTable`, `EmailTable`, `MessageTable`) whose rows the operations replace.
- A throwing database call is a boolean parameter (`dbFails`, `fetchFails`, `deleteFails`, `createFault`).
- The HEAD probe of `isMediaUrlValid` is an oracle `headOk`.
  - An empty URL is invalid without a request.
  - A request that throws reads as invalid.
- `generateVideoThumbnail` is an oracle `extract`. It returns `None` for a rejected extraction.
- Generated ids and `NOW()` are parameters.
- Local storage is a pair of fields holding what was last written.
- `ORDER BY` on one column leaves the order of rows with equal keys to the database. `getMedia`'s contract states only the order and the multiplicity of rows. The legacy `getPhotos` takes the database's listing as a parameter, which may be any sorted permutation of the table.

Behaviours of the code that the model keeps on purpose:

- The legacy `getPhotos` deletes rows during a read, since `cleanupDeleted` defaults to true (`lib/photos.ts:15`, `lib/photos.ts:50-63`). The model keeps that deletion.
- After a failed like, the count shown returns to the item's stored `likes` (`components/gallery.tsx:135-144`, `components/gallery.tsx:253`). It does not return to whatever the button showed before the attempt.
- The rollback rebuilds the liked set from the set the handler saw when it was called (`components/gallery.tsx:147-149`). So a like of another item begun in the meantime is dropped from the set and from storage, while its own call is still pending and its count still shown. `GalleryLogic.RollbackDropsLaterLike` proves this.
- The thumbnail effect's closure holds the thumbnail map of the first render, which is empty (`components/gallery.tsx:24`, `components/gallery.tsx:52-56`). So on mount every video is extracted again, even one whose thumbnail was just loaded from storage. When any extraction succeeds, the pass's map replaces the loaded cache in state and in storage (`components/gallery.tsx:67-70`). The stored thumbnail of a video whose extraction fails this time is then lost. `GalleryLogic.MountLosesCachedThumbnail` proves this.

## Model

| member | source | states |
|---|---|---|
| Probe.IsMediaUrlValid | lib/utils.ts:22-32 | an empty URL is invalid; any other URL is valid exactly when the HEAD probe succeeds |
| Probe.CollectInvalidIds | lib/media.ts:71-80 | the loop collects exactly the ids of the rows failing the probe, in order: every failing row's id is there and every id there is a failing row's |
| Probe.SplitByProbe | lib/photos.ts:31-47 | the loop returns the rows passing the probe in read order and the ids of the others; together they account for every row read |
| Probe.Partition | lib/photos.ts:35-47 | every row read lands in exactly one of the valid and invalid lists, as often as it was read |
| Probe.InvalidIdsExact | lib/media.ts:73-80 | with unique ids, a row's id is among the collected ids iff that row fails the probe, whatever order the rows were read in |
| Probe.DeleteInvalidKeepsValid | lib/media.ts:83-90 | deleting by the collected ids removes exactly the failing rows and keeps the others in order |
| Probe.NothingInvalidAfterCleanup | lib/media.ts:59-100 | after the failing rows are deleted, a second pass under the same probe finds nothing invalid and removes nothing |
| Probe.AllValidUnchanged | lib/media.ts:95 | when no row fails the probe, the valid rows are the whole table |
| Ordering.SortBy | lib/media.ts:33-36 | the ordered listing is sorted by the requested column and direction and is a permutation of its input |
| Ordering.SubsequenceSorted | lib/photos.ts:35-47 | leaving rows out of a sorted listing keeps it sorted |
| MediaLib.SortedIsListingOrder | lib/media.ts:21-25 | recent: createdAt non-increasing; oldest: createdAt non-decreasing; likes: likes non-increasing |
| MediaLib.GetMedia | lib/media.ts:12-43 | the result is in the requested order, holds only rows of the requested type, and holds each matching row exactly as often as the table does; a failure gives the empty list; the table is only read |
| MediaLib.FindManyListing | lib/media.ts:28-36 | the query's rows are ordered, of the requested type, and a permutation of the matching rows |
| MediaLib.GetMediaDefaults | lib/media.ts:17 | absent options mean "recent" and "all", and `cleanupDeleted` changes nothing |
| MediaLib.GetPhotos | lib/media.ts:48-53 | only images, in the requested order, each image of the table exactly as often as it is there; empty on failure |
| MediaLib.CleanupDeletedMedia | lib/media.ts:59-100 | the table keeps exactly the rows passing the probe, in order, ids stay unique, and the result is the number removed; on failure 0 and the table is unchanged |
| MediaLib.CleanupDeletedPhotos | lib/media.ts:105-107 | the same contract as cleanupDeletedMedia |
| PhotosLib.GetPhotos | lib/photos.ts:11-70 | for any listing the read may return (the table's rows, sorted as requested), returns the listed rows passing the probe in listed order, which are the table's valid rows each as often as the table has it, in the requested order; the table loses exactly the failing rows when cleanupDeleted (default true) holds and the delete succeeds, and is unchanged otherwise; a failing read gives the empty list |
| PhotosLib.NoInvalidIdsNoInvalidRows | lib/photos.ts:50 | an empty invalid-id list means the table has no failing row, so skipping the delete loses nothing |
| PhotosLib.ListingKeepsReadOrder | lib/photos.ts:35-47 | for any sorted listing of the table, the returned photos are an order-preserving subsequence of it, are in the requested order, and are the table's valid rows, each as often as the table has it |
| PhotosLib.CleanupDeletedPhotos | lib/photos.ts:76-116 | the table keeps exactly the rows passing the probe and the result is the number removed; 0 with the table unchanged on failure |
| Actions.IncrementLikes | app/actions.ts:72-77 | every row with the id gains exactly one like; every other row is unchanged |
| Actions.IndexOf | app/actions.ts:80-86 | finds a row with the id, or reports -1 exactly when there is none |
| Actions.ToggleLikePhoto | app/actions.ts:69-96 | an existing id gains one like and the new stored count is returned with success; an unknown id gives "Media not found" with likes 0; a failure gives "Failed to like media" with likes 0; neither error changes the table |
| Actions.NoLostUpdates | app/actions.ts:72-77 | k likes of a row raise its count by exactly k and leave other rows alone |
| Actions.UpsertCount | app/actions.ts:10-29 | saving an e-mail adds a row only when the e-mail is new |
| Actions.UpsertIdempotent | app/actions.ts:14-20 | saving the same e-mail and name twice is the same as saving it once |
| Actions.SaveEmail | app/actions.ts:7-35 | an existing e-mail has only its name updated; a new one gets exactly one new row; the saved row is returned; a failure gives "Failed to save email" and changes nothing |
| Actions.SaveMessage | app/actions.ts:37-64 | one message with the given content and name is appended and returned; a failure gives "Failed to save message" and changes nothing |
| Migration.ToMedia | scripts/migrate-photo-to-media.js:22-31 | the created record copies id, url, name, likes and createdAt, with type image, file type image/jpeg and no thumbnail |
| Migration.MigrateAccounts | scripts/migrate-photo-to-media.js:17-38 | successes plus errors equal the photos read; each success adds one row; existing rows stay in front unchanged; each new row is the image record of some photo; ids stay unique |
| Migration.MigrateKeepsIds | scripts/migrate-photo-to-media.js:20-38 | a record present before the migration is still present after it |
| Migration.MigrateCovers | scripts/migrate-photo-to-media.js:20-38 | without database faults, every photo's id is in the media table afterwards |
| Migration.RerunAddsNothing | scripts/migrate-photo-to-media.js:21-37 | migrating photos whose ids are all present adds nothing and counts every photo as an error |
| Migration.MigratePhotosToMedia | scripts/migrate-photo-to-media.js:8-49 | the media table and the counters are those of migrating the photos in order, a failed create being counted and skipped; a failing read writes nothing; the photo table is only read |
| GalleryLogic.Find | components/gallery.tsx:98 | finds an item with the id exactly when the list has one, and it is the first item with that id |
| GalleryLogic.PosterFallsBack | components/gallery.tsx:209 | after the thumbnail effect, a video the closure's map has no thumbnail for and whose extraction failed renders its stored thumbnail when that is not empty, else its own URL, except that when no thumbnail was made at all a thumbnail already in state keeps showing |
| GalleryLogic.SetAdd | components/gallery.tsx:105-106 | adding an id gives the set with that id and keeps it duplicate-free |
| GalleryLogic.SetDelete | components/gallery.tsx:147-148 | deleting an id gives the set without it, the other ids in their order, and keeps it duplicate-free |
| GalleryLogic.DeleteUndoesAdd | components/gallery.tsx:147-148 | deleting an id just added to a set that lacked it gives the set back |
| GalleryLogic.FromArray | components/gallery.tsx:33 | the set built from the stored array holds exactly its ids, each once |
| GalleryLogic.Mounted | components/gallery.tsx:27-46 | after loading, the liked set holds exactly the stored ids, and the overlay, timers, detail view and pending calls are empty |
| GalleryLogic.Optimistic | components/gallery.tsx:97-102 | the shown count of the item goes up by one (from 0 when the item is missing); other entries are untouched |
| GalleryLogic.Reconciled | components/gallery.tsx:123-129 | the item shows exactly the server's count; other entries are untouched |
| GalleryLogic.Reverted | components/gallery.tsx:135-144 | the item's entry is removed, so it shows its stored count; every other entry is kept |
| GalleryLogic.BeginLike | components/gallery.tsx:84-120 | a like keeps the liked set duplicate-free |
| GalleryLogic.CompleteLike | components/gallery.tsx:117-157 | completing a call keeps the liked set duplicate-free |
| GalleryLogic.Tap | components/gallery.tsx:160-187 | a tap keeps the liked set duplicate-free |
| GalleryLogic.FireTimer | components/gallery.tsx:177-183 | a firing timer keeps the liked set duplicate-free |
| GalleryLogic.LikeGuardNoOp | components/gallery.tsx:91-94 | liking an id already liked changes nothing and issues no call |
| GalleryLogic.BeginLikeEffect | components/gallery.tsx:96-117 | the shown count rises by one, the id joins the liked set, the stored list equals the new set, and one call is issued with the set the handler saw, all before the call; nothing else changes |
| GalleryLogic.BeginThenFailRestores | components/gallery.tsx:130-157 | a like that fails right after it began restores the overlay, liked set and pending calls to their state before the tap, with storage rewritten to match |
| GalleryLogic.SuccessShowsServerCount | components/gallery.tsx:123-129 | after success the item shows exactly the server's count, with no extra +1; the liked set and other counts are unchanged |
| GalleryLogic.FailureShowsStoredCount | components/gallery.tsx:135-157 | after failure the item shows its stored count, is not liked, and storage matches the liked set |
| GalleryLogic.BeginFillsHeart | components/gallery.tsx:248 | a like that began fills the item's heart |
| GalleryLogic.FailureEmptiesHeart | components/gallery.tsx:248 | after a failed like the item's heart is empty |
| GalleryLogic.RollbackDropsLaterLike | components/gallery.tsx:147-149 | a rollback restores the set its handler saw, dropping a like of another item begun meanwhile whose call is still pending |
| GalleryLogic.UnknownTapNoOp | components/gallery.tsx:162-163 | a tap on an unknown id does nothing |
| GalleryLogic.DoubleTapLikes | components/gallery.tsx:166-174 | two taps before the timer fires like the item once, clear its timer and do not open the detail view |
| GalleryLogic.SingleTapOpensDetail | components/gallery.tsx:177-185 | one tap whose timer then fires opens the item in the detail view and clears the timer, without a like |
| GalleryLogic.LikeScenario | components/gallery.tsx:84-158 | an item with 3 likes, double-tapped, shows 4; it still shows 4 when the server answers 4, and shows 3 and is unliked when the call fails |
| GalleryLogic.PassAttemptsUncached | components/gallery.tsx:55-65 | exactly the videos without a cached thumbnail are attempted, in order; a failure does not stop the pass |
| GalleryLogic.PassKeepsCache | components/gallery.tsx:52 | the new cache keeps every cached entry, and every non-empty one unchanged |
| GalleryLogic.PassAddsOnlyExtracted | components/gallery.tsx:56-60 | each added entry is a successful extraction for an uncached video with that id |
| GalleryLogic.PassHasNew | components/gallery.tsx:53-67 | the write-back happens exactly when some uncached video's extraction succeeded |
| GalleryLogic.PosterShowsGenerated | components/gallery.tsx:209 | an uncached video whose frame was extracted shows that frame as its poster |
| GalleryLogic.MountLosesCachedThumbnail | components/gallery.tsx:49-78 | on mount, when another video's extraction succeeds, the loaded thumbnail of a video whose extraction fails is lost from state and storage |
| GalleryView.GenerateMissingThumbnails | components/gallery.tsx:50-65 | the loop computes the thumbnail pass over the videos: cached entries kept, new-thumbnail flag set exactly when an extraction succeeded |
| GalleryView.Gallery.constructor | components/gallery.tsx:20-46 | the component starts in the loaded state, with the stored liked set and thumbnails |
| GalleryView.Gallery.HandleLikePhoto | components/gallery.tsx:84-120 | performs BeginLike on the whole state and issues the call exactly when the id was not liked |
| GalleryView.Gallery.CompleteLike | components/gallery.tsx:117-157 | performs CompleteLike on the whole state |
| GalleryView.Gallery.HandlePhotoTap | components/gallery.tsx:160-187 | performs Tap on the whole state |
| GalleryView.Gallery.FireTimer | components/gallery.tsx:177-183 | performs FireTimer on the whole state |
| GalleryView.Gallery.GenerateThumbnails | components/gallery.tsx:49-78 | runs the pass from the empty map the effect's closure holds, and only when a thumbnail was made replaces the cache in state and storage with the pass's map |

## Left out

- Rendering is not modelled: the grid, the dialog markup, images, icons, the empty-gallery message, and image-error logging. Closing the detail view belongs to the dialog's rendering.
- Toasts, `console` logging and `revalidatePath` are not modelled, because they do not change the modelled state.
- Event `stopPropagation`/`preventDefault` and `clearTimeout` are not modelled: a cleared timer simply never fires in the model.
- React scheduling and batching are not modelled: handlers run one at a time and each sees the latest state. Two captured values are modelled: the like rollback's captured set and the thumbnail effect's captured empty map.
- Thumbnail extraction is assumed to settle. `generateVideoThumbnail` (`lib/utils.ts:53-80`) settles only in its `seeked` and `error` handlers. A video load that stalls without either leaves the promise pending, and the loop then waits forever: no later video is tried and nothing is written back. The oracle `extract` always answers, so `PassAttemptsUncached`, `PassHasNew` and `GenerateMissingThumbnails` describe only passes whose extractions all settle.
- The `media` prop is fixed for a `Gallery` object, so the thumbnail effect is modelled as running once, after mounting. A re-run on a new `media` list is not modelled.
- Local-storage JSON is not modelled. The constructor receives the decoded entries, `None` meaning absent or, for the liked list, not an array. Malformed JSON, which aborts the whole load effect, and failing storage writes, which are caught and logged, are not modelled.
- Real concurrency between visitors and the atomicity of `likes = likes + 1` are not modelled. Actions.NoLostUpdates states the sequential outcome.
- Numbers are unbounded integers. JavaScript doubles and database integer overflow are not modelled.
- The `size` and `duration` columns are not modelled, because no modelled logic reads them.
- Actions.SaveMessage: an insert that returns no row and an insert that throws are the same fault, `dbFails`, because both give the same reply.
- Migration.MigratePhotosToMedia: the counts are returned rather than printed. `$disconnect` and the process exit are not modelled.
- The video player, the upload wiring, the gallery sorter, the message board, `lib/messages.ts` and the utility helpers other than the URL probe are not part of this model.
