/** `initVideoJs` and the directives' first mount: the poster override, the
    media rendering that precedes player construction, and the one-shot
    watcher that reports a changed `vjs-media` descriptor. */
module Lifecycle {
  import opened Outcomes
  import opened Dom
  import opened Media
  import Locator

  /** A setup option value; only `poster` is ever written, and it is a string. */
  datatype Setting = Str(s: string) | Other(json: string)

  /** `vjs-setup`, forwarded to video.js. */
  type Options = map<string, Setting>

  const PosterKey: string := "poster"

  predicate Truthy(s: Option<string>) {
    s.Some? && s.value != ""
  }

  /** `if (vjsMedia && vjsMedia.poster) opts.poster = vjsMedia.poster`. */
  function OverridePoster(opts: Options, media: Option<MediaDescriptor>): (r: Options)
    ensures forall k :: k != PosterKey ==> (k in r <==> k in opts)
    ensures forall k :: k != PosterKey && k in r ==> r[k] == opts[k]
    ensures media.Some? && Truthy(media.value.poster) ==>
              PosterKey in r && r[PosterKey] == Str(media.value.poster.value)
    ensures !(media.Some? && Truthy(media.value.poster)) ==> r == opts
  {
    if media.Some? && Truthy(media.value.poster) then opts[PosterKey := Str(media.value.poster.value)]
    else opts
  }

  /** The scope as one digest pass sees it: the current contents of every
      object (`heap`) and the object `vjs-media` is bound to (None for
      undefined or null). Objects are mutable, so the contents behind one
      reference may differ from one pass to the next. */
  datatype Scope = Scope(heap: nat -> MediaDescriptor, media: Option<nat>)

  /** `angular.equals(newVal, oldVal)` for a bound `newVal`: false against
      undefined or null, otherwise equality of the two objects' contents as
      they are at this pass. */
  predicate DeepEquals(s: Scope, previous: Option<nat>)
    requires s.media.Some?
  {
    previous.Some? && s.heap(previous.value) == s.heap(s.media.value)
  }

  /** `$watch` calls its listener when `vjs-media` is not the same object as
      on the last pass; the listener reports a change when the new value is
      bound and not deep-equal to the old object. */
  predicate Fires(previous: Option<nat>, s: Scope) {
    s.media != previous && s.media.Some? && !DeepEquals(s, previous)
  }

  datatype Event = DisposePlayer | MediaChanged

  /** What the listener does when it reports a change: the container
      directive disposes its player first. */
  function ChangeEvents(isContainer: bool): seq<Event> {
    if isContainer then [DisposePlayer, MediaChanged] else [MediaChanged]
  }

  /** The reference a watch last saw; `Unseen` until the first digest. */
  datatype LastSeen = Unseen | Seen(ref: Option<nat>)

  /** The media watcher: registered (`armed`) until it deregisters itself. */
  datatype Watcher = Watcher(armed: bool, last: LastSeen, isContainer: bool)

  /** One digest pass over the watch. On the first pass the listener gets
      the same value as old and new, so it never reports then. */
  function Digest(w: Watcher, s: Scope): (Watcher, seq<Event>) {
    if !w.armed then (w, [])
    else if w.last.Seen? && Fires(w.last.ref, s) then
      (w.(armed := false, last := Seen(s.media)), ChangeEvents(w.isContainer))
    else (w.(last := Seen(s.media)), [])
  }

  /** Digest passes over the successive scopes `vs`: the final watcher and
      every event emitted, in order. */
  function Run(w: Watcher, vs: seq<Scope>): (Watcher, seq<Event>)
    decreases |vs|
  {
    if |vs| == 0 then (w, [])
    else
      var (w1, e1) := Digest(w, vs[0]);
      var (w2, e2) := Run(w1, vs[1..]);
      (w2, e1 + e2)
  }

  /** The reference the watch had seen just before the pass at position `i`. */
  function SeenBefore(w: Watcher, vs: seq<Scope>, i: nat): LastSeen
    requires i < |vs|
  {
    if i == 0 then w.last else Seen(vs[i - 1].media)
  }

  /** The pass at position `i` sees a reportable change. */
  ghost predicate ChangeAt(w: Watcher, vs: seq<Scope>, i: int) {
    0 <= i < |vs| && SeenBefore(w, vs, i).Seen? && Fires(SeenBefore(w, vs, i).ref, vs[i])
  }

  /** The media watcher is one-shot: over any sequence of digests it emits
      nothing or exactly one change report, it emits that report exactly
      when some pass sees a change while it is armed, and it is disarmed
      afterwards. */
  lemma {:induction false} WatcherFiresOnce(w: Watcher, vs: seq<Scope>)
    ensures Run(w, vs).1 == [] || Run(w, vs).1 == ChangeEvents(w.isContainer)
    ensures !w.armed ==> Run(w, vs).1 == []
    ensures w.armed ==> (Run(w, vs).1 == ChangeEvents(w.isContainer) <==> exists i :: ChangeAt(w, vs, i))
    ensures Run(w, vs).0.armed <==> w.armed && Run(w, vs).1 == []
    ensures Run(w, vs).0.isContainer == w.isContainer
    decreases |vs|
  {
    if |vs| != 0 {
      var (w1, e1) := Digest(w, vs[0]);
      var rest := vs[1..];
      WatcherFiresOnce(w1, rest);
      if w.armed && e1 == [] {
        assert !ChangeAt(w, vs, 0);
        assert w1.last == Seen(vs[0].media);
        forall i | 1 <= i < |vs|
          ensures ChangeAt(w, vs, i) <==> ChangeAt(w1, rest, i - 1)
        {
          assert SeenBefore(w, vs, i) == SeenBefore(w1, rest, i - 1);
          assert vs[i] == rest[i - 1];
        }
        if exists i :: ChangeAt(w1, rest, i) {
          var i :| ChangeAt(w1, rest, i);
          assert ChangeAt(w, vs, i + 1);
        }
      } else if w.armed {
        assert ChangeAt(w, vs, 0);
      }
    }
  }

  /** The listener compares identities before contents, and the contents of
      the old object as they are now: keeping the same object (even mutated
      in place) is never reported, and neither is binding an object whose
      contents equal the old object's current ones. */
  lemma ChangeNeedsNewContents(w: Watcher, previous: nat, s: Scope)
    requires w.last == Seen(Some(previous))
    requires s.media.Some? && (s.media.value == previous || s.heap(s.media.value) == s.heap(previous))
    ensures Digest(w, s).1 == []
    ensures Digest(w, s).0.armed == w.armed
  {
  }

  /** Conversely, an armed watcher that has seen a pass reports, and
      deregisters, as soon as `vjs-media` is bound to another object whose
      contents differ from the old object's current ones, or to an object
      where it was undefined or null before. */
  lemma NewContentsReported(w: Watcher, s: Scope)
    requires w.armed && w.last.Seen?
    requires s.media.Some? && s.media != w.last.ref
    requires w.last.ref.Some? ==> s.heap(s.media.value) != s.heap(w.last.ref.value)
    ensures Digest(w, s).1 == ChangeEvents(w.isContainer)
    ensures !Digest(w, s).0.armed
  {
  }

  /** What `initVideoJs` returns or leaves behind. */
  datatype Init =
    | NoPlayer   // video.js missing: `initVideoJs` returns null
    | Started(
        video: Element,               // the element the player is built on
        options: Options,             // the options the player is built with
        rendered: seq<Container>,     // handler calls made before construction
        watcher: Watcher)             // the media watcher just registered

  /** `initVideoJs`: with video.js absent it returns null without looking at
      the media; otherwise it overrides the poster, renders the media (which
      may throw), registers the watcher and starts the player. The container
      directive is recognised by `root` not being a video element. */
  function InitVideoJs(videojsLoaded: bool, vid: Element, root: Element,
                       setup: Option<Options>, media: Option<MediaDescriptor>): (r: Result<Init>)
    ensures !videojsLoaded ==> r == Ok(NoPlayer)
    ensures videojsLoaded ==> (r.Ok? <==> media.None? || Valid(media.value))
    ensures videojsLoaded && r.Err? ==> r == WatchMedia(media).PropagateFailure()
    ensures videojsLoaded && r.Ok? ==>
              r.value.Started? && r.value.video == vid &&
              r.value.options == OverridePoster(setup.GetOr(map[]), media) &&
              (|r.value.rendered| == 1 <==> media.Some?) && |r.value.rendered| <= 1 &&
              (media.Some? ==> RendersDescriptor(media.value, r.value.rendered[0])) &&
              r.value.watcher == Watcher(true, Unseen, root.nodeName != "VIDEO")
  {
    if !videojsLoaded then Ok(NoPlayer)
    else
      var opts := OverridePoster(setup.GetOr(map[]), media);
      var rendered :- WatchMedia(media);
      Ok(Started(vid, opts, rendered, Watcher(true, Unseen, root.nodeName != "VIDEO")))
  }

  /** The directives' `init`: locate the video (container mode or not), then
      run `initVideoJs` on it. Locating already fails without video.js, so a
      mount never ends in the soft null result. */
  function Mount(videojsLoaded: bool, root: Element, isContainer: bool,
                 setup: Option<Options>, media: Option<MediaDescriptor>): (r: Result<Init>)
    ensures r.Ok? ==> r.value.Started?
    ensures !videojsLoaded ==> r == Err(VideoJsNotFound)
    ensures Locator.GetVidElement(videojsLoaded, root, isContainer).Err? ==>
              r == Locator.GetVidElement(videojsLoaded, root, isContainer).PropagateFailure()
    ensures Locator.GetVidElement(videojsLoaded, root, isContainer).Ok? ==>
              r == InitVideoJs(videojsLoaded, Locator.GetVidElement(videojsLoaded, root, isContainer).value,
                               root, setup, media)
    ensures r.Ok? ==> IsVideo(r.value.video)
  {
    var vid :- Locator.GetVidElement(videojsLoaded, root, isContainer);
    InitVideoJs(videojsLoaded, vid, root, setup, media)
  }
}
