/**
 * The gallery component (components/gallery.tsx) as an object: its state
 * hooks are fields, its handlers are methods that update them step by step,
 * and each method is proved to perform the matching transition of
 * GalleryLogic on the whole state.
 */
module GalleryView {
  import opened Types
  import opened GalleryLogic

  /**
   * The thumbnail pass: for each video whose id has no truthy entry in
   * `videoThumbnails`, try to extract a frame and store it; report whether
   * any was stored. A failed extraction is skipped.
   */
  method GenerateMissingThumbnails(media: seq<Media>, videoThumbnails: map<string, string>, extract: string -> Option<string>)
    returns (newThumbnails: map<string, string>, hasNewThumbnails: bool)
    ensures var p := ThumbnailPass(Videos(media), videoThumbnails, extract);
      newThumbnails == p.thumbs && hasNewThumbnails == p.hasNew
    ensures forall id :: Truthy(videoThumbnails, id) ==> id in newThumbnails && newThumbnails[id] == videoThumbnails[id]
    ensures hasNewThumbnails <==>
      exists v :: v in Videos(media) && !Truthy(videoThumbnails, v.id) && extract(v.url).Some?
  {
    var videoItems := Videos(media);
    newThumbnails := videoThumbnails;
    hasNewThumbnails := false;
    for i := 0 to |videoItems|
      invariant ThumbnailPass(videoItems[..i], videoThumbnails, extract).thumbs == newThumbnails
      invariant ThumbnailPass(videoItems[..i], videoThumbnails, extract).hasNew == hasNewThumbnails
    {
      var video := videoItems[i];
      PassStep(videoItems, videoThumbnails, extract, i);
      if !Truthy(videoThumbnails, video.id) {
        var thumbnail := extract(video.url);
        if thumbnail.Some? {
          newThumbnails := newThumbnails[video.id := thumbnail.value];
          hasNewThumbnails := true;
        }
      }
    }
    assert videoItems[..|videoItems|] == videoItems;
    PassKeepsCache(videoItems, videoThumbnails, extract);
    PassHasNew(videoItems, videoThumbnails, extract);
  }

  class Gallery {
    /** The `media` prop. */
    const media: seq<Media>
    /** `likedPhotos`: the optimistic count overlay. */
    var likedPhotos: map<string, int>
    /** `userLikedPhotos`: the ids this visitor has liked. */
    var userLikedPhotos: seq<string>
    /** The `userLikedPhotos` entry of local storage; None while nothing was stored. */
    var storedLikedPhotos: Option<seq<string>>
    /** `doubleTapTimer`: the per-item double-tap timers. */
    var doubleTapTimer: map<string, TimerSlot>
    /** `selectedPhoto`: the item the detail view shows. */
    var selectedPhoto: Option<Media>
    /** The like calls awaiting the server. */
    var pendingLikes: seq<LikeRequest>
    /** `videoThumbnails`: generated thumbnails by video id. */
    var videoThumbnails: map<string, string>
    /** The `videoThumbnails` entry of local storage. */
    var storedThumbnails: Option<map<string, string>>

    function State(): Visitor
      reads this
    {
      Visitor(likedPhotos, userLikedPhotos, storedLikedPhotos, doubleTapTimer, selectedPhoto,
              pendingLikes, videoThumbnails, storedThumbnails)
    }

    ghost predicate Valid()
      reads this
    {
      WellFormed(State())
    }

    /**
     * Mounting: empty state, then the load effect restores the liked set
     * from a stored array and the thumbnail cache from storage.
     */
    constructor (media: seq<Media>, likedEntry: Option<seq<string>>, thumbsEntry: Option<map<string, string>>)
      ensures Valid() && this.media == media
      ensures State() == Mounted(likedEntry, thumbsEntry)
    {
      this.media := media;
      likedPhotos := map[];
      doubleTapTimer := map[];
      selectedPhoto := None;
      pendingLikes := [];
      userLikedPhotos := [];
      videoThumbnails := map[];
      storedLikedPhotos := likedEntry;
      storedThumbnails := thumbsEntry;
      if likedEntry.Some? {
        userLikedPhotos := FromArray(likedEntry.value);
      }
      if thumbsEntry.Some? {
        videoThumbnails := thumbsEntry.value;
      }
    }

    /**
     * handleLikePhoto up to the awaited call. Returns whether the call to
     * toggleLikePhoto was issued.
     */
    method HandleLikePhoto(photoId: string) returns (called: bool)
      requires Valid()
      modifies this
      ensures Valid()
      ensures State() == BeginLike(media, old(State()), photoId)
      ensures called <==> photoId !in old(userLikedPhotos)
    {
      if photoId in userLikedPhotos {
        return false;
      }
      var mediaItem := Find(media, photoId);
      var currentLikes := if mediaItem.Some? then mediaItem.value.likes else 0;
      var newLikes := (if photoId in likedPhotos then likedPhotos[photoId] else currentLikes) + 1;
      assert likedPhotos[photoId := newLikes] == Optimistic(media, likedPhotos, photoId);
      likedPhotos := likedPhotos[photoId := newLikes];
      var newUserLikedPhotos := SetAdd(userLikedPhotos, photoId);
      pendingLikes := pendingLikes + [LikeRequest(photoId, userLikedPhotos)];
      userLikedPhotos := newUserLikedPhotos;
      storedLikedPhotos := Some(newUserLikedPhotos);
      called := true;
    }

    /** handleLikePhoto after the awaited call of pending request `k` ends with `outcome`. */
    method CompleteLike(k: nat, outcome: CallOutcome)
      requires Valid() && k < |pendingLikes|
      modifies this
      ensures Valid()
      ensures State() == GalleryLogic.CompleteLike(old(State()), k, outcome)
    {
      var request := pendingLikes[k];
      pendingLikes := Without(pendingLikes, k);
      if Succeeded(outcome) {
        likedPhotos := likedPhotos[request.photoId := outcome.result.likes];
      } else {
        likedPhotos := map key | key in likedPhotos && key != request.photoId :: likedPhotos[key];
        var revertedUserLikedPhotos := SetDelete(request.likedAtCall, request.photoId);
        userLikedPhotos := revertedUserLikedPhotos;
        storedLikedPhotos := Some(revertedUserLikedPhotos);
      }
    }

    /** handlePhotoTap. */
    method HandlePhotoTap(photoId: string)
      requires Valid()
      modifies this
      ensures Valid()
      ensures State() == Tap(media, old(State()), photoId)
    {
      var mediaItem := Find(media, photoId);
      if mediaItem.None? {
        return;
      }
      if photoId in doubleTapTimer && doubleTapTimer[photoId].Pending? {
        if photoId !in userLikedPhotos {
          var _ := HandleLikePhoto(photoId);
        }
        doubleTapTimer := doubleTapTimer[photoId := Cleared];
      } else {
        doubleTapTimer := doubleTapTimer[photoId := Pending(mediaItem.value)];
      }
    }

    /** The double-tap timer of `photoId` runs out: a single tap opens the detail view. */
    method FireTimer(photoId: string)
      requires Valid()
      modifies this
      ensures Valid()
      ensures State() == GalleryLogic.FireTimer(old(State()), photoId)
    {
      if photoId in doubleTapTimer && doubleTapTimer[photoId].Pending? {
        selectedPhoto := Some(doubleTapTimer[photoId].item);
        doubleTapTimer := doubleTapTimer[photoId := Cleared];
      }
    }

    /**
     * The thumbnail effect: the pass, then the write-back when something was
     * made. The effect depends only on `media`, which is fixed for the
     * object, so it runs once after mounting, and its closure holds the
     * initial empty map rather than the cache the load effect restores.
     */
    method GenerateThumbnails(extract: string -> Option<string>)
      requires Valid()
      modifies this
      ensures Valid()
      ensures State() == ThumbnailEffect(media, old(State()), map[], extract)
    {
      var capturedThumbnails: map<string, string> := map[];
      var newThumbnails, hasNewThumbnails := GenerateMissingThumbnails(media, capturedThumbnails, extract);
      if hasNewThumbnails {
        videoThumbnails := newThumbnails;
        storedThumbnails := Some(newThumbnails);
      }
    }
  }
}
