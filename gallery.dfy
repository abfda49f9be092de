/**
 * The photo gallery of the invitation page (src/components/WeddingGallery.jsx):
 * a grid of at most nine thumbnails and a full-screen lightbox that shows every
 * gallery image in a paging carousel.
 *
 * The React state of the component is the record `GalleryState`; every event
 * handler and every effect keyed on the selected image is a function from state to
 * state, and the class `Lightbox` holds the same state in mutable fields with one
 * method per handler, each proved to perform its function. The image count `n`
 * (the length of the image list, a build-time constant) is a parameter, `n >= 1`.
 */
module Gallery {

  import opened Wrappers

  /** Number of thumbnails shown in the grid. */
  const MaxThumbnails: nat := 9

  // ---------------------------------------------------------------------------
  // Thumbnails and index arithmetic
  // ---------------------------------------------------------------------------

  /** The thumbnail grid: the first images of the list, at most nine of them. */
  function Thumbnails<T>(images: seq<T>): (t: seq<T>)
    ensures |t| <= MaxThumbnails && t <= images
    ensures |images| <= MaxThumbnails ==> t == images
    ensures |images| >= MaxThumbnails ==> |t| == MaxThumbnails
  {
    if |images| <= MaxThumbnails then images else images[..MaxThumbnails]
  }

  /** Number of thumbnails for a list of `n` images. */
  function ThumbnailCount(n: nat): nat {
    if n <= MaxThumbnails then n else MaxThumbnails
  }

  /** The grid has `min(9, n)` thumbnails. */
  lemma ThumbnailCountIsGridSize<T>(images: seq<T>)
    ensures |Thumbnails(images)| == ThumbnailCount(|images|)
  {
  }

  /** Every thumbnail position is a valid image index: `openModal` never gets one out of range. */
  lemma ThumbnailIndexValid<T>(images: seq<T>, t: int)
    requires 0 <= t < |Thumbnails(images)|
    ensures t < |images| && t < MaxThumbnails
    ensures Thumbnails(images)[t] == images[t]
  {
  }

  /** The remainder of JavaScript's `%`: truncated toward zero, so it takes the sign of `a`. */
  function JsRem(a: int, b: int): (r: int)
    requires b != 0
    ensures Abs(r) < Abs(b)
    ensures a >= 0 ==> r >= 0
    ensures a <= 0 ==> r <= 0
    ensures b > 0 && a >= 0 ==> r == a % b
    ensures b > 0 && a < 0 ==> r == -((-a) % b)
  {
    var m := Abs(a) % Abs(b);
    if a < 0 then -m else m
  }

  function Abs(x: int): nat {
    if x < 0 then -x else x
  }

  /** The two images fetched ahead when image `i` is opened, as the preload effect computes them. */
  function PreloadIndices(i: int, n: nat): seq<int>
    requires n >= 1
  {
    [JsRem(i - 1 + n, n), JsRem(i + 1, n)]
  }

  /** The previous image in the cyclic order of the gallery. */
  function Prev(i: int, n: nat): int {
    if i == 0 then n - 1 else i - 1
  }

  /** The next image in the cyclic order of the gallery. */
  function Next(i: int, n: nat): int {
    if i == n - 1 then 0 else i + 1
  }

  /** For a valid index the preload request is exactly the cyclic neighbours, both valid indices. */
  lemma PreloadIsNeighbours(i: int, n: nat)
    requires n >= 1 && 0 <= i < n
    ensures PreloadIndices(i, n) == [Prev(i, n), Next(i, n)]
    ensures forall k :: 0 <= k < 2 ==> 0 <= PreloadIndices(i, n)[k] < n
  {
    if i == 0 {
      RemOfSmall(n - 1, n);
    } else {
      RemWrapsOnce(i - 1, n);
    }
    if i == n - 1 {
      RemWrapsOnce(0, n);
    } else {
      RemOfSmall(i + 1, n);
    }
  }

  lemma RemOfSmall(a: int, n: nat)
    requires 0 <= a < n
    ensures JsRem(a, n) == a
  {
    EuclideanRemainder(a, n, 0);
  }

  lemma RemWrapsOnce(a: int, n: nat)
    requires 0 <= a < n
    ensures JsRem(a + n, n) == a
  {
    EuclideanRemainder(a + n, n, 1);
  }

  /** A value in the `k`-th block of `n` (for `k` 0 or 1) leaves its offset in that block as remainder. */
  lemma EuclideanRemainder(x: int, n: nat, k: int)
    requires n >= 1 && (k == 0 || k == 1) && k * n <= x < k * n + n
    ensures x % n == x - k * n
  {
    var q, m := x / n, x % n;
    assert x == q * n + m && 0 <= m < n;
    if q < k {
      assert false;
    } else if q > k {
      assert false;
    }
  }

  /** `Prev` undoes `Next` and vice versa on valid indices. */
  lemma NeighboursInverse(i: int, n: nat)
    requires n >= 1 && 0 <= i < n
    ensures 0 <= Next(i, n) < n && 0 <= Prev(i, n) < n
    ensures Prev(Next(i, n), n) == i && Next(Prev(i, n), n) == i
  {
  }

  /** Whether slide `index` of the lightbox renders its image: within one position of the counter. */
  predicate IsActive(current: int, index: int) {
    Abs(current - index) <= 1
  }

  /** The slides that render their image when the counter shows `current`. */
  function ActiveSlides(current: int, n: nat): set<int> {
    set i | 0 <= i < n && IsActive(current, i)
  }

  /** The active window is the counter's slide and its two linear neighbours: at most three slides. */
  lemma ActiveWindow(current: int, n: nat)
    ensures ActiveSlides(current, n) <= {current - 1, current, current + 1}
    ensures |ActiveSlides(current, n)| <= 3
    ensures 0 <= current < n ==> current in ActiveSlides(current, n)
  {
    var w := {current - 1, current, current + 1};
    assert ActiveSlides(current, n) <= w;
    SubsetCard(ActiveSlides(current, n), w);
    assert |w| == 3;
  }

  lemma SubsetCard(a: set<int>, b: set<int>)
    requires a <= b
    ensures |a| <= |b|
  {
    assert b == a + (b - a);
  }

  /** The window does not wrap: on the first image, the last is active only in a gallery of one or two. */
  lemma ActiveWindowDoesNotWrap(n: nat)
    requires n >= 1
    ensures (n - 1 in ActiveSlides(0, n)) <==> n <= 2
  {
  }

  /** The number the counter shows before ` / n`: one-based, so between 1 and `n`. */
  function CounterShown(current: int, n: nat): (shown: int)
    requires 0 <= current < n
    ensures 1 <= shown <= n
    ensures shown == n <==> current == n - 1
  {
    current + 1
  }

  // ---------------------------------------------------------------------------
  // Component state and its transitions
  // ---------------------------------------------------------------------------

  /**
   * The state of the gallery component.
   * - selected: the image the lightbox was opened on, `None` when it is closed;
   * - current: the index the counter shows, written by `openModal` and by the carousel;
   * - scrollLocked: whether the page body's overflow is set to hidden;
   * - keyListener: whether the window keydown handler is attached;
   * - loaded: the slides whose `ModalImage` has seen its image load since the lightbox opened;
   * - requested: the log of image indices fetched ahead by the preload effect.
   */
  datatype GalleryState = GalleryState(
    selected: Option<int>,
    current: int,
    scrollLocked: bool,
    keyListener: bool,
    loaded: set<int>,
    requested: seq<int>)

  /** The state on page load. */
  function Initial(): GalleryState {
    GalleryState(None, 0, false, false, {}, [])
  }

  /** The consistency every reachable state keeps. */
  predicate Valid(s: GalleryState, n: nat) {
    n >= 1
    && (s.selected.Some? ==> 0 <= s.selected.value < n)
    && 0 <= s.current < n
    && s.scrollLocked == s.selected.Some?
    && s.keyListener == s.selected.Some?
    && (s.selected.None? ==> s.loaded == {})
    && (forall i :: i in s.loaded ==> 0 <= i < n)
    && (forall k :: 0 <= k < |s.requested| ==> 0 <= s.requested[k] < n)
  }

  /** What the preload effect requests for a selection: nothing while the lightbox is closed. */
  function Preloads(selected: Option<int>, n: nat): seq<int>
    requires n >= 1
  {
    if selected.Some? then PreloadIndices(selected.value, n) else []
  }

  /**
   * The effects keyed on the selection, run after a render in which it changed: the
   * preload effect logs its requests and the keydown effect attaches the listener
   * while open and removes it otherwise. Mounting or unmounting the lightbox gives
   * every `ModalImage` fresh state, so the loaded flags start over.
   */
  function SelectionChanged(s: GalleryState, before: Option<int>, n: nat): GalleryState
    requires n >= 1
  {
    s.(requested := s.requested + Preloads(s.selected, n),
       keyListener := s.selected.Some?,
       loaded := if before.None? || s.selected.None? then {} else s.loaded)
  }

  /** `openModal(index)` followed by the effects it triggers. */
  function Open(s: GalleryState, index: int, n: nat): (r: GalleryState)
    requires n >= 1 && 0 <= index < n
    ensures r.selected == Some(index) && r.current == index && r.scrollLocked
  {
    var t := s.(selected := Some(index), current := index, scrollLocked := true);
    if s.selected != t.selected then SelectionChanged(t, s.selected, n) else t
  }

  /** `closeModal()` followed by the effects it triggers. */
  function Close(s: GalleryState, n: nat): (r: GalleryState)
    requires n >= 1
    ensures r.selected.None? && !r.scrollLocked && r.current == s.current
  {
    var t := s.(selected := None, scrollLocked := false);
    if s.selected != t.selected then SelectionChanged(t, s.selected, n) else t
  }

  /** The carousel's `select` callback: the counter follows the snap the carousel settled on. */
  function OnSelect(s: GalleryState, snap: int): GalleryState {
    s.(current := snap)
  }

  datatype Key = Escape | ArrowLeft | ArrowRight | OtherKey

  /**
   * A key pressed on the window. Only the attached handler reacts; Escape closes,
   * the arrow keys only command the carousel (whose later `select` callback is `OnSelect`).
   */
  function KeyDown(s: GalleryState, key: Key, n: nat): GalleryState
    requires n >= 1
  {
    if s.keyListener && key == Escape then Close(s, n) else s
  }

  /** The `onLoad` of slide `i`'s image, which is only in the page while the slide is active. */
  function ImageLoaded(s: GalleryState, i: int): GalleryState {
    if s.selected.Some? && IsActive(s.current, i) then s.(loaded := s.loaded + {i}) else s
  }

  /** Where a click inside the open lightbox lands. */
  datatype Target = Backdrop | CloseButton | Content | PrevButton | NextButton

  /**
   * A click on the lightbox: the backdrop and the close button close it; the image
   * area stops propagation and the arrow buttons only command the carousel.
   * Nothing of the lightbox is rendered while it is closed.
   */
  function Click(s: GalleryState, target: Target, n: nat): GalleryState
    requires n >= 1
  {
    if s.selected.None? then s
    else match target
      case Backdrop => Close(s, n)
      case CloseButton => Close(s, n)
      case _ => s
  }

  /** What one slide of the lightbox renders. */
  datatype SlideView = Placeholder | Slide(spinner: bool, imageVisible: bool)

  /** The render of `ModalImage` for slide `i`. */
  function ViewSlide(s: GalleryState, i: int): (v: SlideView)
    ensures v.Placeholder? <==> !IsActive(s.current, i)
    ensures v.Slide? ==> v.spinner != v.imageVisible
  {
    if !IsActive(s.current, i) then Placeholder
    else Slide(i !in s.loaded, i in s.loaded)
  }

  /** The spinner of a slide shows exactly while the slide is active and its image has not loaded. */
  lemma SpinnerIffActiveAndPending(s: GalleryState, i: int)
    ensures (ViewSlide(s, i).Slide? && ViewSlide(s, i).spinner) <==> (IsActive(s.current, i) && i !in s.loaded)
  {
  }

  // ---------------------------------------------------------------------------
  // User events and runs
  // ---------------------------------------------------------------------------

  datatype Event =
    | ThumbnailClick(t: int)
    | LightboxClick(target: Target)
    | KeyPress(key: Key)
    | CarouselSelect(snap: int)
    | SlideLoaded(slide: int)

  /** Events the page can deliver: a thumbnail and a slide that exist, a snap the carousel can report. */
  predicate EventOk(e: Event, n: nat) {
    match e
    case ThumbnailClick(t) => 0 <= t < ThumbnailCount(n)
    case CarouselSelect(snap) => 0 <= snap < n
    case SlideLoaded(i) => 0 <= i < n
    case _ => true
  }

  function Step(s: GalleryState, e: Event, n: nat): GalleryState
    requires n >= 1 && EventOk(e, n)
  {
    match e
    case ThumbnailClick(t) => Open(s, t, n)
    case LightboxClick(target) => Click(s, target, n)
    case KeyPress(key) => KeyDown(s, key, n)
    case CarouselSelect(snap) => OnSelect(s, snap)
    case SlideLoaded(i) => ImageLoaded(s, i)
  }

  function Run(s: GalleryState, events: seq<Event>, n: nat): GalleryState
    requires n >= 1 && forall k :: 0 <= k < |events| ==> EventOk(events[k], n)
    decreases |events|
  {
    if events == [] then s else Run(Step(s, events[0], n), events[1..], n)
  }

  // ---------------------------------------------------------------------------
  // Properties of the transitions
  // ---------------------------------------------------------------------------

  lemma InitialValid(n: nat)
    requires n >= 1
    ensures Valid(Initial(), n)
    ensures Initial().selected.None? && Initial().current == 0
  {
  }

  /** Opening on a closed lightbox locks the page, attaches the key handler and fetches exactly the two neighbours. */
  lemma OpenFromClosed(s: GalleryState, index: int, n: nat)
    requires Valid(s, n) && s.selected.None? && 0 <= index < n
    ensures Open(s, index, n) == s.(selected := Some(index), current := index, scrollLocked := true,
                                    keyListener := true, loaded := {},
                                    requested := s.requested + [Prev(index, n), Next(index, n)])
  {
    PreloadIsNeighbours(index, n);
  }

  /** Closing twice is closing once. */
  lemma CloseIdempotent(s: GalleryState, n: nat)
    requires n >= 1
    ensures Close(Close(s, n), n) == Close(s, n)
  {
  }

  /** Closing an open lightbox releases the lock, detaches the key handler, keeps the counter and fetches nothing. */
  lemma CloseReleases(s: GalleryState, n: nat)
    requires Valid(s, n) && s.selected.Some?
    ensures Close(s, n) == s.(selected := None, scrollLocked := false, keyListener := false, loaded := {})
  {
  }

  /** Escape is a call of `closeModal` while the handler is attached and does nothing otherwise. */
  lemma EscapeFunnelsIntoClose(s: GalleryState, n: nat)
    requires Valid(s, n)
    ensures KeyDown(s, Escape, n) == if s.selected.Some? then Close(s, n) else s
    ensures forall k :: k != Escape ==> KeyDown(s, k, n) == s
  {
  }

  /** Every exit path of the open lightbox ends in the same closed state. */
  lemma AllExitsAgree(s: GalleryState, n: nat)
    requires Valid(s, n) && s.selected.Some?
    ensures KeyDown(s, Escape, n) == Close(s, n)
    ensures Click(s, Backdrop, n) == Close(s, n)
    ensures Click(s, CloseButton, n) == Close(s, n)
    ensures Click(s, Content, n) == s
    ensures Click(s, PrevButton, n) == s && Click(s, NextButton, n) == s
  {
  }

  /** No event other than Escape, a backdrop click or a close-button click closes an open lightbox. */
  lemma OnlyExitsClose(s: GalleryState, e: Event, n: nat)
    requires Valid(s, n) && EventOk(e, n) && s.selected.Some?
    ensures Step(s, e, n).selected.None? <==>
              (e == KeyPress(Escape) || e == LightboxClick(Backdrop) || e == LightboxClick(CloseButton))
  {
  }

  /** The carousel callback changes the counter and nothing else. */
  lemma OnSelectOnlyCounter(s: GalleryState, snap: int)
    ensures OnSelect(s, snap).current == snap
    ensures OnSelect(s, snap).(current := s.current) == s
  {
  }

  /** Opening on any valid image keeps the state consistent. */
  lemma OpenPreservesValid(s: GalleryState, index: int, n: nat)
    requires Valid(s, n) && 0 <= index < n
    ensures Valid(Open(s, index, n), n)
  {
    PreloadIsNeighbours(index, n);
    var r := Open(s, index, n);
    assert forall k :: 0 <= k < |r.requested| ==> 0 <= r.requested[k] < n by {
      if s.selected != Some(index) {
        assert r.requested == s.requested + PreloadIndices(index, n);
      }
    }
  }

  lemma {:induction false} StepPreservesValid(s: GalleryState, e: Event, n: nat)
    requires Valid(s, n) && EventOk(e, n)
    ensures Valid(Step(s, e, n), n)
  {
    match e
    case ThumbnailClick(t) =>
      OpenPreservesValid(s, t, n);
    case LightboxClick(target) =>
    case KeyPress(key) =>
    case CarouselSelect(snap) =>
    case SlideLoaded(i) =>
  }

  /** Every state reached from a valid one by page events is valid. */
  lemma {:induction false} RunPreservesValid(s: GalleryState, events: seq<Event>, n: nat)
    requires Valid(s, n) && forall k :: 0 <= k < |events| ==> EventOk(events[k], n)
    ensures Valid(Run(s, events, n), n)
    decreases |events|
  {
    if events != [] {
      StepPreservesValid(s, events[0], n);
      RunPreservesValid(Step(s, events[0], n), events[1..], n);
    }
  }

  /** The scroll lock and the key handler are held exactly while the lightbox is open, whatever the user did. */
  lemma LockAndListenerFollowSelection(events: seq<Event>, n: nat)
    requires n >= 1 && forall k :: 0 <= k < |events| ==> EventOk(events[k], n)
    ensures Run(Initial(), events, n).scrollLocked == Run(Initial(), events, n).selected.Some?
    ensures Run(Initial(), events, n).keyListener == Run(Initial(), events, n).selected.Some?
    ensures 0 <= Run(Initial(), events, n).current < n
  {
    InitialValid(n);
    RunPreservesValid(Initial(), events, n);
  }

  /** A loaded image stays loaded, and its slide never shows the spinner again, while the lightbox stays open. */
  lemma {:induction false} LoadedIsMonotone(s: GalleryState, e: Event, n: nat, i: int)
    requires Valid(s, n) && EventOk(e, n) && i in s.loaded
    requires Step(s, e, n).selected.Some?
    ensures i in Step(s, e, n).loaded
    ensures ViewSlide(Step(s, e, n), i) != Slide(true, false)
  {
    match e
    case ThumbnailClick(t) =>
      assert s.selected.Some?;
    case LightboxClick(target) =>
    case KeyPress(key) =>
    case CarouselSelect(snap) =>
    case SlideLoaded(j) =>
  }

  /** Opening the first of nine images: the counter reads 1 / 9 and the last and second images are fetched ahead. */
  lemma OpenFirstOfNine()
    ensures Open(Initial(), 0, 9).selected == Some(0)
    ensures CounterShown(Open(Initial(), 0, 9).current, 9) == 1
    ensures Open(Initial(), 0, 9).requested == [8, 1]
  {
    OpenFromClosed(Initial(), 0, 9);
  }

  /**
   * Images are fetched ahead only when a thumbnail click changes the selection, and
   * then exactly its two cyclic neighbours; closing, clicks, keys, carousel paging and
   * image loads fetch nothing.
   */
  lemma PreloadOnlyWhenSelectionChanges(s: GalleryState, e: Event, n: nat)
    requires n >= 1 && EventOk(e, n)
    ensures Step(s, e, n).requested ==
      if e.ThumbnailClick? && s.selected != Some(e.t)
      then s.requested + [Prev(e.t, n), Next(e.t, n)]
      else s.requested
  {
    if e.ThumbnailClick? {
      PreloadIsNeighbours(e.t, n);
    }
  }

  /** Only slide `i`'s own `onLoad` turns its flag on: no other event adds a slide to `loaded`. */
  lemma OnlyOnLoadSetsLoaded(s: GalleryState, e: Event, n: nat)
    requires n >= 1 && EventOk(e, n)
    ensures Step(s, e, n).loaded <= s.loaded + (if e.SlideLoaded? then {e.slide} else {})
  {
  }

  // ---------------------------------------------------------------------------
  // The component with its state in fields
  // ---------------------------------------------------------------------------

  /** The gallery component, with React's state and the page-level side effects as fields. */
  class Lightbox {
    const n: nat
    var selected: Option<int>
    var current: int
    var scrollLocked: bool
    var keyListener: bool
    var loaded: set<int>
    var requested: seq<int>

    function State(): GalleryState
      reads this
    {
      GalleryState(selected, current, scrollLocked, keyListener, loaded, requested)
    }

    constructor (n: nat)
      requires n >= 1
      ensures this.n == n && State() == Initial() && Valid(State(), n)
    {
      this.n := n;
      selected, current := None, 0;
      scrollLocked, keyListener := false, false;
      loaded, requested := {}, [];
    }

    /** The preload effect: one image fetch per index in `Preloads`, appended to the log. */
    method PreloadEffect()
      requires n >= 1
      modifies this`requested
      ensures requested == old(requested) + Preloads(selected, n)
    {
      if selected.Some? {
        var indices := PreloadIndices(selected.value, n);
        for k := 0 to |indices|
          invariant requested == old(requested) + indices[..k]
        {
          requested := requested + [indices[k]];
        }
      }
    }

    /** The effects of a render in which the selection changed from `before`. */
    method RunSelectionEffects(before: Option<int>)
      requires n >= 1
      modifies this
      ensures State() == SelectionChanged(old(State()), before, n)
    {
      PreloadEffect();
      keyListener := selected.Some?;
      if before.None? || selected.None? {
        loaded := {};
      }
    }

    method OpenModal(index: int)
      requires Valid(State(), n) && 0 <= index < n
      modifies this
      ensures State() == Open(old(State()), index, n)
      ensures Valid(State(), n)
    {
      OpenPreservesValid(State(), index, n);
      var before := selected;
      selected := Some(index);
      current := index;
      scrollLocked := true;
      if before != selected {
        RunSelectionEffects(before);
      }
    }

    method CloseModal()
      requires Valid(State(), n)
      modifies this
      ensures State() == Close(old(State()), n)
      ensures Valid(State(), n)
    {
      var before := selected;
      selected := None;
      scrollLocked := false;
      if before != selected {
        RunSelectionEffects(before);
      }
    }

    method OnCarouselSelect(snap: int)
      requires Valid(State(), n) && 0 <= snap < n
      modifies this
      ensures State() == OnSelect(old(State()), snap)
      ensures Valid(State(), n)
    {
      current := snap;
    }

    method HandleKeyDown(key: Key)
      requires Valid(State(), n)
      modifies this
      ensures State() == KeyDown(old(State()), key, n)
      ensures Valid(State(), n)
    {
      if keyListener && key == Escape {
        CloseModal();
      }
    }

    method HandleClick(target: Target)
      requires Valid(State(), n)
      modifies this
      ensures State() == Click(old(State()), target, n)
      ensures Valid(State(), n)
    {
      if selected.Some? && (target == Backdrop || target == CloseButton) {
        CloseModal();
      }
    }

    /** `ModalImage`'s `onLoad`: slide `i`'s flag turns on, never off. */
    method OnImageLoad(i: int)
      requires Valid(State(), n) && 0 <= i < n
      modifies this
      ensures State() == ImageLoaded(old(State()), i)
      ensures Valid(State(), n)
    {
      if selected.Some? && IsActive(current, i) {
        loaded := loaded + {i};
      }
    }
  }
}
