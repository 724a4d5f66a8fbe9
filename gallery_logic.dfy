/**
 * The visitor-side bookkeeping of the gallery component
 * (components/gallery.tsx) as values: the optimistic like-count overlay,
 * the set of ids this visitor has liked and its copy in local storage, the
 * per-item double-tap timers, the detail view, the like requests still
 * awaiting the server, and the video-thumbnail cache. Each event handler is
 * a transition function on this state.
 */
module GalleryLogic {
  import opened Types
  import Actions

  /** `media.find(p => p.id === id)`: the first item with that id. */
  function Find(media: seq<Media>, id: string): (r: Option<Media>)
    ensures r.Some? <==> HasId(media, id)
    ensures r.Some? ==> r.value in media && r.value.id == id
    ensures r.Some? ==> exists i :: 0 <= i < |media| && media[i] == r.value && forall j :: 0 <= j < i ==> media[j].id != id
  {
    if media == [] then None
    else if media[0].id == id then Some(media[0])
    else
      var r := Find(media[1..], id);
      assert forall m :: m in media[1..] ==> m in media;
      if r.Some? then
        var i :| 0 <= i < |media[1..]| && media[1..][i] == r.value && forall j :: 0 <= j < i ==> media[1..][j].id != id;
        assert media[i + 1] == r.value && forall j :: 0 <= j < i + 1 ==> media[j].id != id;
        r
      else r
  }

  /** The count a like button shows: the overlay's entry when there is one, else the stored count. */
  function DisplayedCount(overlay: map<string, int>, item: Media): int {
    if item.id in overlay then overlay[item.id] else item.likes
  }

  /**
   * The heart is filled when the visitor liked the item or the count it
   * shows exceeds the stored one; a zero overlay entry is falsy and falls
   * back to the stored count.
   */
  predicate HeartFilled(liked: seq<string>, overlay: map<string, int>, item: Media) {
    item.id in liked
    || (if item.id in overlay && overlay[item.id] != 0 then overlay[item.id] else item.likes) > item.likes
  }

  /** A string value is truthy when it is present and not empty. */
  predicate Truthy(cache: map<string, string>, id: string) {
    id in cache && cache[id] != ""
  }

  /**
   * The image a video tile shows: the generated thumbnail, else the stored
   * thumbnail, else the video URL itself, each skipped when empty.
   */
  function PosterSource(thumbs: map<string, string>, item: Media): string {
    if Truthy(thumbs, item.id) then thumbs[item.id]
    else if item.thumbnail.Some? && item.thumbnail.value != "" then item.thumbnail.value
    else item.url
  }

  // ---------------------------------------------------------------------
  // The liked-id set: a JavaScript Set, kept as its insertion order.

  predicate NoDup(s: seq<string>) {
    forall i, j :: 0 <= i < j < |s| ==> s[i] != s[j]
  }

  /** `set.add(x)`: a new id goes to the end; a present one changes nothing. */
  function SetAdd(s: seq<string>, x: string): (r: seq<string>)
    ensures forall y :: y in r <==> y in s || y == x
    ensures NoDup(s) ==> NoDup(r)
    ensures x in s ==> r == s
  {
    if x in s then s else s + [x]
  }

  /** `set.delete(x)`: the others keep their order. */
  function SetDelete(s: seq<string>, x: string): (r: seq<string>)
    ensures r == Filter((y: string) => y != x, s)
    ensures forall y :: y in r <==> y in s && y != x
    ensures NoDup(s) ==> NoDup(r)
    ensures x !in s ==> r == s
  {
    if s == [] then []
    else
      assert s == [s[0]] + s[1..];
      var rest := SetDelete(s[1..], x);
      assert forall y :: y in s[1..] ==> y in s;
      NoDupTail(s);
      if s[0] == x then rest else [s[0]] + rest
  }

  /** Dropping the first id of a duplicate-free list leaves one without that id. */
  lemma NoDupTail(s: seq<string>)
    requires s != []
    ensures NoDup(s) ==> NoDup(s[1..]) && s[0] !in s[1..]
  {
    if NoDup(s) {
      forall i, j | 0 <= i < j < |s| - 1
        ensures s[1..][i] != s[1..][j]
      {
        assert s[1..][i] == s[i + 1] && s[1..][j] == s[j + 1];
      }
      forall i | 0 <= i < |s| - 1
        ensures s[1..][i] != s[0]
      {
        assert s[1..][i] == s[i + 1];
      }
    }
  }

  /** Deleting an id just added to a set that lacked it gives the set back. */
  lemma DeleteUndoesAdd(s: seq<string>, x: string)
    requires x !in s
    ensures SetDelete(SetAdd(s, x), x) == s
  {
    FilterAppend((y: string) => y != x, s, x);
    FilterKeepsAll((y: string) => y != x, s);
  }

  /** `new Set(array)`: each id of the array once. */
  function FromArray(a: seq<string>): (r: seq<string>)
    ensures NoDup(r)
    ensures forall y :: y in r <==> y in a
  {
    if a == [] then []
    else
      assert forall y :: y in a[..|a| - 1] ==> y in a;
      assert a == a[..|a| - 1] + [a[|a| - 1]];
      SetAdd(FromArray(a[..|a| - 1]), a[|a| - 1])
  }

  // ---------------------------------------------------------------------
  // The three state updaters handleLikePhoto passes to the overlay setter.

  /** The optimistic updater: one more than what the button showed. */
  function Optimistic(media: seq<Media>, overlay: map<string, int>, id: string): (r: map<string, int>)
    ensures r.Keys == overlay.Keys + {id}
    ensures forall k :: k in overlay && k != id ==> r[k] == overlay[k]
    ensures Find(media, id).Some? ==>
      DisplayedCount(r, Find(media, id).value) == DisplayedCount(overlay, Find(media, id).value) + 1
    ensures Find(media, id).None? ==> r[id] == (if id in overlay then overlay[id] else 0) + 1
  {
    var mediaItem := Find(media, id);
    var currentLikes := if mediaItem.Some? then mediaItem.value.likes else 0;
    overlay[id := (if id in overlay then overlay[id] else currentLikes) + 1]
  }

  /** The success updater: the server's count, as returned. */
  function Reconciled(overlay: map<string, int>, id: string, likes: int): (r: map<string, int>)
    ensures r.Keys == overlay.Keys + {id}
    ensures forall k :: k in overlay && k != id ==> r[k] == overlay[k]
    ensures forall item: Media {:trigger DisplayedCount(r, item)} :: item.id == id ==> DisplayedCount(r, item) == likes
  {
    overlay[id := likes]
  }

  /** The failure updater: the entry for the id is dropped, the others are copied. */
  function Reverted(overlay: map<string, int>, id: string): (r: map<string, int>)
    ensures r.Keys == overlay.Keys - {id}
    ensures forall k :: k in r ==> r[k] == overlay[k]
    ensures forall item: Media {:trigger DisplayedCount(r, item)} :: item.id == id ==> DisplayedCount(r, item) == item.likes
  {
    map k | k in overlay && k != id :: overlay[k]
  }

  // ---------------------------------------------------------------------
  // The component's state and its event handlers.

  /** A double-tap timer entry: `null` once cleared, or a timer that will open `item`. */
  datatype TimerSlot = Cleared | Pending(item: Media)

  /** A like call awaiting the server, with the liked set its handler saw. */
  datatype LikeRequest = LikeRequest(photoId: string, likedAtCall: seq<string>)

  /** How the awaited toggleLikePhoto call ended. */
  datatype CallOutcome = Threw | Returned(result: Actions.LikeResult)

  datatype Visitor = Visitor(
    overlay: map<string, int>,
    liked: seq<string>,
    storedLiked: Option<seq<string>>,
    timers: map<string, TimerSlot>,
    selected: Option<Media>,
    inFlight: seq<LikeRequest>,
    thumbs: map<string, string>,
    storedThumbs: Option<map<string, string>>)

  /** The liked set and every liked set a pending call captured are duplicate-free. */
  predicate WellFormed(v: Visitor) {
    && NoDup(v.liked)
    && forall k :: 0 <= k < |v.inFlight| ==> NoDup(v.inFlight[k].likedAtCall)
  }

  /**
   * The load effect: the liked set from the stored list when it holds an
   * array, and the cached thumbnails when some are stored.
   */
  function Mounted(likedEntry: Option<seq<string>>, thumbsEntry: Option<map<string, string>>): (v: Visitor)
    ensures WellFormed(v) && v.overlay == map[] && v.timers == map[] && v.selected == None && v.inFlight == []
    ensures forall id :: id in v.liked <==> likedEntry.Some? && id in likedEntry.value
  {
    Visitor(map[], if likedEntry.Some? then FromArray(likedEntry.value) else [], likedEntry,
            map[], None, [], thumbsEntry.GetOr(map[]), thumbsEntry)
  }

  /**
   * handleLikePhoto up to the awaited call: an id already liked changes
   * nothing and calls nothing; otherwise the count goes up by one, the id
   * joins the liked set, the set is stored, and a call is issued.
   */
  function BeginLike(media: seq<Media>, v: Visitor, id: string): (w: Visitor)
    ensures WellFormed(v) ==> WellFormed(w)
  {
    if id in v.liked then v
    else
      var newUserLikedPhotos := SetAdd(v.liked, id);
      v.(overlay := Optimistic(media, v.overlay, id),
         liked := newUserLikedPhotos,
         storedLiked := Some(newUserLikedPhotos),
         inFlight := v.inFlight + [LikeRequest(id, v.liked)])
  }

  /** An outcome is a success when the call returned and its `error` is not truthy. */
  predicate Succeeded(o: CallOutcome) {
    o.Returned? && (o.result.error.None? || o.result.error.value == "")
  }

  /** The in-flight list without its `k`-th request. */
  function Without(s: seq<LikeRequest>, k: nat): (r: seq<LikeRequest>)
    requires k < |s|
    ensures |r| == |s| - 1
    ensures forall i :: 0 <= i < k ==> r[i] == s[i]
    ensures forall i :: k <= i < |r| ==> r[i] == s[i + 1]
  {
    s[..k] + s[k + 1..]
  }

  /**
   * handleLikePhoto after the call of request `k` ends: on success the
   * overlay takes the server's count; otherwise the overlay entry is dropped
   * and the liked set, and its stored copy, become the set the handler saw
   * without the id.
   */
  function CompleteLike(v: Visitor, k: nat, o: CallOutcome): (w: Visitor)
    requires k < |v.inFlight|
    ensures WellFormed(v) ==> WellFormed(w)
  {
    var req := v.inFlight[k];
    if Succeeded(o) then
      v.(overlay := Reconciled(v.overlay, req.photoId, o.result.likes), inFlight := Without(v.inFlight, k))
    else
      var revertedUserLikedPhotos := SetDelete(req.likedAtCall, req.photoId);
      v.(overlay := Reverted(v.overlay, req.photoId),
         liked := revertedUserLikedPhotos,
         storedLiked := Some(revertedUserLikedPhotos),
         inFlight := Without(v.inFlight, k))
  }

  /** The timer for `id` is pending: the truthiness test of the timer table. */
  predicate TimerPending(v: Visitor, id: string) {
    id in v.timers && v.timers[id].Pending?
  }

  /**
   * handlePhotoTap: an unknown id does nothing; a tap while the item's timer
   * is pending likes it (when not yet liked) and clears the timer; any other
   * tap starts the timer.
   */
  function Tap(media: seq<Media>, v: Visitor, id: string): (w: Visitor)
    ensures WellFormed(v) ==> WellFormed(w)
  {
    match Find(media, id)
    case None => v
    case Some(mediaItem) =>
      if TimerPending(v, id) then
        var u := if id !in v.liked then BeginLike(media, v, id) else v;
        u.(timers := u.timers[id := Cleared])
      else
        v.(timers := v.timers[id := Pending(mediaItem)])
  }

  /** The timer of `id` fires: it opens the item it was started for and clears itself. A cleared timer never fires. */
  function FireTimer(v: Visitor, id: string): (w: Visitor)
    ensures WellFormed(v) ==> WellFormed(w)
  {
    if TimerPending(v, id) then
      v.(selected := Some(v.timers[id].item), timers := v.timers[id := Cleared])
    else v
  }

  // ---------------------------------------------------------------------
  // Properties of the like and tap handlers.

  /** Liking an id already liked changes nothing and issues no call. */
  lemma LikeGuardNoOp(media: seq<Media>, v: Visitor, id: string)
    requires id in v.liked
    ensures BeginLike(media, v, id) == v
  {
  }

  /**
   * A like that is not blocked raises the shown count by one, adds the id to
   * the liked set and its stored copy before the call, and issues exactly
   * one call, carrying the set the handler saw; nothing else changes.
   */
  lemma BeginLikeEffect(media: seq<Media>, v: Visitor, id: string, item: Media)
    requires id !in v.liked && Find(media, id) == Some(item)
    ensures var w := BeginLike(media, v, id);
      && DisplayedCount(w.overlay, item) == DisplayedCount(v.overlay, item) + 1
      && (forall k :: k in v.overlay && k != id ==> w.overlay[k] == v.overlay[k])
      && (forall x :: x in w.liked <==> x in v.liked || x == id)
      && w.storedLiked == Some(w.liked)
      && w.inFlight == v.inFlight + [LikeRequest(id, v.liked)]
      && w.timers == v.timers && w.selected == v.selected && w.thumbs == v.thumbs
  {
  }

  /**
   * A like that fails straight after it began leaves the count overlay, the
   * liked set and the pending calls as they were before the tap; the stored
   * list is rewritten to that same set.
   */
  lemma BeginThenFailRestores(media: seq<Media>, v: Visitor, id: string, o: CallOutcome)
    requires id !in v.liked && id !in v.overlay && !Succeeded(o)
    ensures var w := BeginLike(media, v, id);
      CompleteLike(w, |w.inFlight| - 1, o) == v.(storedLiked := Some(v.liked))
  {
    var w := BeginLike(media, v, id);
    var u := CompleteLike(w, |w.inFlight| - 1, o);
    assert u.overlay == v.overlay;
    assert Without(w.inFlight, |w.inFlight| - 1) == v.inFlight;
  }

  /**
   * After a successful call the button shows exactly the server's count and
   * the id stays liked; other counts are untouched.
   */
  lemma SuccessShowsServerCount(v: Visitor, k: nat, o: CallOutcome, item: Media)
    requires k < |v.inFlight| && Succeeded(o) && item.id == v.inFlight[k].photoId
    ensures var w := CompleteLike(v, k, o);
      && DisplayedCount(w.overlay, item) == o.result.likes
      && w.liked == v.liked
      && forall x :: x in v.overlay && x != item.id ==> w.overlay[x] == v.overlay[x]
  {
  }

  /** After a failed call the button shows the item's stored count again and the id is no longer liked. */
  lemma FailureShowsStoredCount(v: Visitor, k: nat, o: CallOutcome, item: Media)
    requires k < |v.inFlight| && !Succeeded(o) && item.id == v.inFlight[k].photoId
    ensures var w := CompleteLike(v, k, o);
      && DisplayedCount(w.overlay, item) == item.likes
      && item.id !in w.liked
      && w.storedLiked == Some(w.liked)
  {
  }

  /** A like that began fills the item's heart at once. */
  lemma BeginFillsHeart(media: seq<Media>, v: Visitor, id: string, item: Media)
    requires id !in v.liked && item.id == id
    ensures var w := BeginLike(media, v, id); HeartFilled(w.liked, w.overlay, item)
  {
  }

  /** After a failed like the item's heart is empty again. */
  lemma FailureEmptiesHeart(v: Visitor, k: nat, o: CallOutcome, item: Media)
    requires k < |v.inFlight| && !Succeeded(o) && item.id == v.inFlight[k].photoId
    ensures var w := CompleteLike(v, k, o); !HeartFilled(w.liked, w.overlay, item)
  {
  }

  /**
   * The rollback rebuilds the liked set from the set its handler saw, so when
   * a like of `a` fails after a like of `b` began, `b` leaves the liked set
   * (and its stored copy) although its own call is still pending and its
   * optimistic count is still shown.
   */
  lemma RollbackDropsLaterLike(media: seq<Media>, v: Visitor, a: string, b: string, o: CallOutcome)
    requires a != b && a !in v.liked && b !in v.liked && !Succeeded(o)
    ensures var w := BeginLike(media, BeginLike(media, v, a), b);
      var u := CompleteLike(w, |v.inFlight|, o);
      && b in w.liked
      && b !in u.liked && b in u.overlay
      && u.inFlight == v.inFlight + [LikeRequest(b, SetAdd(v.liked, a))]
  {
    var w := BeginLike(media, BeginLike(media, v, a), b);
    assert w.inFlight[|v.inFlight|] == LikeRequest(a, v.liked);
  }

  /** A tap on an id that is not in the list does nothing. */
  lemma UnknownTapNoOp(media: seq<Media>, v: Visitor, id: string)
    requires !HasId(media, id)
    ensures Tap(media, v, id) == v
  {
  }

  /**
   * Two taps before the timer fires like the item once (when it was not
   * liked), leave its timer cleared and do not open the detail view.
   */
  lemma DoubleTapLikes(media: seq<Media>, v: Visitor, id: string)
    requires HasId(media, id) && !TimerPending(v, id)
    ensures var w := Tap(media, Tap(media, v, id), id);
      && w.timers == v.timers[id := Cleared]
      && w.selected == v.selected
      && w.overlay == BeginLike(media, v, id).overlay
      && w.liked == BeginLike(media, v, id).liked
      && w.inFlight == BeginLike(media, v, id).inFlight
  {
  }

  /**
   * One tap whose timer then fires opens the detail view on that item and
   * clears the timer; no like is made.
   */
  lemma SingleTapOpensDetail(media: seq<Media>, v: Visitor, id: string)
    requires HasId(media, id) && !TimerPending(v, id)
    ensures var w := FireTimer(Tap(media, v, id), id);
      && w.selected == Find(media, id)
      && w.timers == v.timers[id := Cleared]
      && w.overlay == v.overlay && w.liked == v.liked && w.inFlight == v.inFlight
  {
  }

  /**
   * An item with 3 likes, tapped twice,
   * shows 4 at once; when the server answers 4 it still shows 4, and when
   * the call fails it shows 3 again.
   */
  lemma LikeScenario(m1: Media, v: Visitor)
    requires m1.likes == 3 && v.overlay == map[] && v.liked == [] && v.timers == map[] && v.inFlight == []
    ensures var w := Tap([m1], Tap([m1], v, m1.id), m1.id);
      && DisplayedCount(w.overlay, m1) == 4
      && w.inFlight == [LikeRequest(m1.id, [])]
      && DisplayedCount(CompleteLike(w, 0, Returned(Actions.LikeResult(true, 4, None))).overlay, m1) == 4
      && DisplayedCount(CompleteLike(w, 0, Threw).overlay, m1) == 3
      && CompleteLike(w, 0, Threw).liked == []
  {
    var t := Tap([m1], v, m1.id);
    assert Find([m1], m1.id) == Some(m1);
    assert TimerPending(t, m1.id);
  }

  // ---------------------------------------------------------------------
  // The thumbnail pass.

  /**
   * What the pass has done after some videos: the new cache, whether any
   * thumbnail was made, and the videos it tried to extract a frame from.
   */
  datatype Pass = Pass(thumbs: map<string, string>, hasNew: bool, attempted: seq<string>)

  /**
   * The pass over `videos`, checking each against `cache` (the map the
   * effect started from): a video with a truthy entry is skipped; for the
   * others a frame is extracted, and only a successful extraction is stored.
   * `extract` stands for generateVideoThumbnail, None for a rejection.
   */
  function ThumbnailPass(videos: seq<Media>, cache: map<string, string>, extract: string -> Option<string>): Pass {
    if videos == [] then Pass(cache, false, [])
    else
      var p := ThumbnailPass(videos[..|videos| - 1], cache, extract);
      var video := videos[|videos| - 1];
      if Truthy(cache, video.id) then p
      else match extract(video.url)
        case None => p.(attempted := p.attempted + [video.id])
        case Some(thumbnail) => Pass(p.thumbs[video.id := thumbnail], true, p.attempted + [video.id])
  }

  /** The videos of the list, in order: `media.filter(item => item.type === 'video')`. */
  function Videos(media: seq<Media>): seq<Media> {
    Filter((m: Media) => m.kind == Video, media)
  }

  /**
   * The thumbnail effect as a whole: run the pass over the videos from
   * `captured`, the map the effect's closure holds, and, only when some
   * thumbnail was made, replace the cache in state and in local storage by
   * the pass's map.
   */
  function ThumbnailEffect(media: seq<Media>, v: Visitor, captured: map<string, string>, extract: string -> Option<string>): Visitor {
    var p := ThumbnailPass(Videos(media), captured, extract);
    if p.hasNew then v.(thumbs := p.thumbs, storedThumbs := Some(p.thumbs)) else v
  }

  /** One more video extends the pass by exactly that video's step. */
  lemma PassStep(videos: seq<Media>, cache: map<string, string>, extract: string -> Option<string>, i: nat)
    requires i < |videos|
    ensures var p := ThumbnailPass(videos[..i], cache, extract);
      var video := videos[i];
      var q := ThumbnailPass(videos[..i + 1], cache, extract);
      && q.thumbs == (if !Truthy(cache, video.id) && extract(video.url).Some?
                      then p.thumbs[video.id := extract(video.url).value] else p.thumbs)
      && q.hasNew == (p.hasNew || (!Truthy(cache, video.id) && extract(video.url).Some?))
  {
    assert videos[..i + 1][..i] == videos[..i];
  }

  /** The videos without a truthy cache entry, in order. */
  function Uncached(videos: seq<Media>, cache: map<string, string>): seq<Media> {
    Filter((m: Media) => !Truthy(cache, m.id), videos)
  }

  /**
   * Exactly the videos without a cached thumbnail are attempted, each in
   * turn: a failed extraction does not stop the pass.
   */
  lemma {:induction false} PassAttemptsUncached(videos: seq<Media>, cache: map<string, string>, extract: string -> Option<string>)
    ensures ThumbnailPass(videos, cache, extract).attempted == Ids(Uncached(videos, cache))
  {
    if videos != [] {
      var init := videos[..|videos| - 1];
      var video := videos[|videos| - 1];
      PassAttemptsUncached(init, cache, extract);
      assert videos == init + [video];
      FilterAppend((m: Media) => !Truthy(cache, m.id), init, video);
      IdsAppend(Uncached(init, cache), video);
    }
  }

  /** The pass keeps every cached entry, and every truthy one unchanged. */
  lemma {:induction false} PassKeepsCache(videos: seq<Media>, cache: map<string, string>, extract: string -> Option<string>)
    ensures cache.Keys <= ThumbnailPass(videos, cache, extract).thumbs.Keys
    ensures forall id :: Truthy(cache, id) ==> ThumbnailPass(videos, cache, extract).thumbs[id] == cache[id]
  {
    if videos != [] {
      PassKeepsCache(videos[..|videos| - 1], cache, extract);
    }
  }

  /** Each entry the pass adds or replaces is a successful extraction for an uncached video with that id. */
  lemma {:induction false} PassAddsOnlyExtracted(videos: seq<Media>, cache: map<string, string>, extract: string -> Option<string>)
    ensures var thumbs := ThumbnailPass(videos, cache, extract).thumbs;
      forall id :: id in thumbs ==>
        (id in cache && thumbs[id] == cache[id])
        || exists v :: v in videos && v.id == id && !Truthy(cache, id) && extract(v.url) == Some(thumbs[id])
  {
    if videos != [] {
      var init := videos[..|videos| - 1];
      PassAddsOnlyExtracted(init, cache, extract);
      assert forall v :: v in init ==> v in videos;
      assert videos[|videos| - 1] in videos;
    }
  }

  /** The cache is written back exactly when some uncached video's extraction succeeded. */
  lemma {:induction false} PassHasNew(videos: seq<Media>, cache: map<string, string>, extract: string -> Option<string>)
    ensures ThumbnailPass(videos, cache, extract).hasNew
        <==> exists v :: v in videos && !Truthy(cache, v.id) && extract(v.url).Some?
  {
    if videos != [] {
      var init := videos[..|videos| - 1];
      var video := videos[|videos| - 1];
      PassHasNew(init, cache, extract);
      assert videos == init + [video];
      assert forall v :: v in init ==> v in videos;
      if !ThumbnailPass(videos, cache, extract).hasNew {
        forall v | v in videos && !Truthy(cache, v.id)
          ensures extract(v.url).None?
        {
          if v != video {
            assert v in init;
          }
        }
      }
    }
  }

  /**
   * A video without a cached thumbnail whose frame is extracted (to a
   * non-empty data URL) and whose id no later video shares is shown with
   * that frame as its poster.
   */
  lemma {:induction false} PosterShowsGenerated(videos: seq<Media>, cache: map<string, string>, extract: string -> Option<string>, i: nat, t: string)
    requires i < |videos| && !Truthy(cache, videos[i].id) && extract(videos[i].url) == Some(t) && t != ""
    requires forall j :: i < j < |videos| ==> videos[j].id != videos[i].id
    ensures PosterSource(ThumbnailPass(videos, cache, extract).thumbs, videos[i]) == t
  {
    var init := videos[..|videos| - 1];
    if i < |videos| - 1 {
      assert init[i] == videos[i];
      PosterShowsGenerated(init, cache, extract, i, t);
    } else {
      assert init == videos[..i];
    }
  }

  /**
   * In the pass's map, a video with no truthy entry in the starting map
   * whose extraction failed (for every video sharing its id) has no truthy
   * entry either, so its poster falls back to its stored thumbnail when that
   * is not empty, and otherwise to its own URL.
   */
  lemma PassPosterFallsBack(videos: seq<Media>, cache: map<string, string>, extract: string -> Option<string>, item: Media)
    requires !Truthy(cache, item.id)
    requires forall v :: v in videos && v.id == item.id ==> extract(v.url).None?
    ensures PosterSource(ThumbnailPass(videos, cache, extract).thumbs, item)
         == if item.thumbnail.Some? && item.thumbnail.value != "" then item.thumbnail.value else item.url
  {
    PassAddsOnlyExtracted(videos, cache, extract);
  }

  /**
   * The poster a video tile renders after the thumbnail effect, for a video
   * the closure's map has no truthy entry for and whose extraction failed.
   * When some other thumbnail was made, state takes the pass's map and the
   * tile falls back to the stored thumbnail, else the URL. When none was
   * made, state is untouched: a thumbnail already in state keeps showing,
   * and otherwise the tile falls back the same way.
   */
  lemma PosterFallsBack(media: seq<Media>, v: Visitor, captured: map<string, string>,
                        extract: string -> Option<string>, item: Media)
    requires !Truthy(captured, item.id)
    requires forall m :: m in media && m.kind == Video && m.id == item.id ==> extract(m.url).None?
    ensures var fallback := if item.thumbnail.Some? && item.thumbnail.value != "" then item.thumbnail.value else item.url;
      PosterSource(ThumbnailEffect(media, v, captured, extract).thumbs, item)
      == if ThumbnailPass(Videos(media), captured, extract).hasNew || !Truthy(v.thumbs, item.id)
         then fallback else v.thumbs[item.id]
  {
    PassPosterFallsBack(Videos(media), captured, extract, item);
  }

  /**
   * The effect on mount starts from the initial empty map, not from the
   * cache just loaded. When any video's extraction succeeds, the pass's map
   * replaces the loaded cache, so the cached thumbnail of a video whose
   * extraction fails this time is lost from state and from storage.
   */
  lemma MountLosesCachedThumbnail(media: seq<Media>, v: Visitor, extract: string -> Option<string>, a: string, b: Media)
    requires Truthy(v.thumbs, a)
    requires forall m :: m in media && m.id == a ==> extract(m.url).None?
    requires b in media && b.kind == Video && extract(b.url).Some?
    ensures var w := ThumbnailEffect(media, v, map[], extract);
      && a !in w.thumbs
      && w.storedThumbs.Some? && a !in w.storedThumbs.value
  {
    assert b in Videos(media);
    PassHasNew(Videos(media), map[], extract);
    PassAddsOnlyExtracted(Videos(media), map[], extract);
  }
}
