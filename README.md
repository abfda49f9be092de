# Wedding invitation: gallery lightbox and RSVP form

This project models the two stateful components of a single-page wedding invitation in Dafny and proves properties of them:

- **The photo gallery** (`Gallery`, in `gallery.dfy`). A grid of at most nine thumbnails opens a full-screen lightbox. The lightbox records the selected image and shows an image counter. While it is open it locks the page's scroll and attaches a window keydown handler. When the selection changes, it fetches the two neighbouring images ahead of time. Each slide renders its image only when it is within one position of the counter, and shows a spinner until that image has loaded.
- **The attendance form** (`Rsvp`, in `rsvp.dfy`). It is a five-field record (name, side, attendance, guest count, message) with a presence check on three of the fields. It moves through three phases: the form, "sending", and a thank-you message that stays.

Each component has three parts:
- **Pure transition functions.** The component's React state is a datatype (`GalleryState`, `RsvpState`). Every event handler, and every effect keyed on the state, is a function on that datatype.
- **A class with one method per handler.** It holds the same state in mutable fields (`Gallery.Lightbox`, `Rsvp.RsvpForm`). Each method is proved to leave the fields equal to its transition function applied to the old state.
- **Properties.** They are proved as lemmas about the transition functions: single steps, and also `Run`, which applies any sequence of page events.

The gallery's image count `n` is a parameter with `n >= 1`. The image list lives in a constants file that is not part of this model. JavaScript's `%` truncates toward zero; it is modelled by `Gallery.JsRem` rather than by Dafny's Euclidean `%`.

Some facts about the code that the model makes explicit:
- The preload effect depends only on the selected image, so images are fetched ahead only when a thumbnail click changes the selection. Paging through the carousel changes only the counter and fetches nothing (`Gallery.PreloadOnlyWhenSelectionChanges`).
- The slide image has no error handler, so a failed load never clears its spinner. No error path is modelled.
- The lightbox closes only through Escape, the backdrop and the close button (`Gallery.OnlyExitsClose`). The arrow buttons stop propagation, so their clicks never reach the backdrop (`Gallery.AllExitsAgree`).
- The active window `|current - index| <= 1` is not cyclic (`Gallery.ActiveWindowDoesNotWrap`).

Closing the lightbox unmounts every slide, so a reopened lightbox starts with all loaded flags cleared. The model keeps these flags as the set `loaded`.

## Model

| member | source | states |
|---|---|---|
| `Gallery.Thumbnails` | src/components/WeddingGallery.jsx:5 | the grid is a prefix of the image list of length at most nine, and is the whole list when there are nine images or fewer |
| `Gallery.ThumbnailCountIsGridSize` | src/components/WeddingGallery.jsx:5 | the grid has `min(9, n)` thumbnails |
| `Gallery.ThumbnailIndexValid` | src/components/WeddingGallery.jsx:74-75 | every thumbnail index passed to `openModal` is a valid image index, and thumbnail `t` shows image `t` |
| `Gallery.JsRem` | src/components/WeddingGallery.jsx:31-32 | JavaScript's remainder is smaller than the divisor in magnitude and takes the dividend's sign; for a positive divisor it is the Euclidean remainder of a non-negative dividend, and the negated remainder of the dividend's magnitude for a negative one |
| `Gallery.PreloadIndices` | src/components/WeddingGallery.jsx:30-33 | the two indices the preload effect computes; no ensures of its own, its properties are stated by `Gallery.PreloadIsNeighbours` |
| `Gallery.PreloadIsNeighbours` | src/components/WeddingGallery.jsx:30-33 | for a valid selected index `i`, the two preload indices are exactly the cyclic previous and next images, both in `[0, n)` |
| `Gallery.NeighboursInverse` | src/components/WeddingGallery.jsx:30-33 | the previous and next images are valid indices and undo each other |
| `Gallery.IsActive` | src/components/WeddingGallery.jsx:98 | the `isActive` test of a slide; no ensures of its own, its properties are stated by `Gallery.ActiveWindow` and `Gallery.ActiveWindowDoesNotWrap` |
| `Gallery.ActiveWindow` | src/components/WeddingGallery.jsx:98 | the active slides are among `current - 1`, `current` and `current + 1`: at most three, including the counter's own slide |
| `Gallery.ActiveWindowDoesNotWrap` | src/components/WeddingGallery.jsx:98 | on the first image, the last slide is active iff the gallery has at most two images |
| `Gallery.CounterShown` | src/components/WeddingGallery.jsx:92 | the counter shows a one-based number between 1 and `n`, which equals `n` exactly on the last image |
| `Gallery.Open` | src/components/WeddingGallery.jsx:17-21 | opening selects the image, moves the counter to it and locks the page scroll |
| `Gallery.Close` | src/components/WeddingGallery.jsx:23-26 | closing clears the selection and releases the scroll lock, and leaves the counter where it was |
| `Gallery.SelectionChanged` | src/components/WeddingGallery.jsx:28-69 | the effects that run after a change of selection; no ensures of its own, its results are stated by `Gallery.OpenFromClosed`, `Gallery.CloseReleases` and `Gallery.PreloadOnlyWhenSelectionChanges` |
| `Gallery.OnSelect` | src/components/WeddingGallery.jsx:44-46 | the carousel's `select` callback; no ensures of its own, stated by `Gallery.OnSelectOnlyCounter` |
| `Gallery.KeyDown` | src/components/WeddingGallery.jsx:59-63 | the window keydown handler; no ensures of its own, stated by `Gallery.EscapeFunnelsIntoClose` |
| `Gallery.Click` | src/components/WeddingGallery.jsx:82-122 | clicks on the open lightbox; no ensures of its own, stated by `Gallery.AllExitsAgree` |
| `Gallery.ImageLoaded` | src/components/WeddingGallery.jsx:150 | a slide image's `onLoad`; no ensures of its own, stated by `Gallery.LoadedIsMonotone` and `Gallery.OnlyOnLoadSetsLoaded` |
| `Gallery.InitialValid` | src/components/WeddingGallery.jsx:8-9 | the page starts closed, with the counter at 0, in a consistent state |
| `Gallery.OpenFromClosed` | src/components/WeddingGallery.jsx:17-39 | opening a closed lightbox gives exactly this new state: selection and counter at the index, scroll locked, key handler attached, loaded flags fresh, and the two neighbours appended to the fetch log |
| `Gallery.OpenFirstOfNine` | src/components/WeddingGallery.jsx:17-39 | in a gallery of nine, opening the first image shows counter 1 and fetches the last and the second images ahead |
| `Gallery.CloseIdempotent` | src/components/WeddingGallery.jsx:23-26 | closing twice gives the same state as closing once |
| `Gallery.CloseReleases` | src/components/WeddingGallery.jsx:23-26 | closing an open lightbox releases the scroll lock and detaches the key handler; it keeps the counter and fetches nothing |
| `Gallery.EscapeFunnelsIntoClose` | src/components/WeddingGallery.jsx:58-69 | Escape closes the lightbox while it is open and does nothing while it is closed; other keys change no state |
| `Gallery.AllExitsAgree` | src/components/WeddingGallery.jsx:82-122 | Escape, the backdrop and the close button all reach the same closed state; a click on the image area and clicks on the arrow buttons change nothing |
| `Gallery.OnlyExitsClose` | src/components/WeddingGallery.jsx:59-122 | an event closes an open lightbox if and only if it is Escape, a backdrop click or a close-button click |
| `Gallery.OnSelectOnlyCounter` | src/components/WeddingGallery.jsx:44-46 | the carousel callback sets the counter to the reported snap and changes nothing else |
| `Gallery.PreloadOnlyWhenSelectionChanges` | src/components/WeddingGallery.jsx:28-39 | for every page event, the fetch log grows by exactly the two cyclic neighbours when a thumbnail click changes the selection, and is unchanged otherwise |
| `Gallery.OnlyOnLoadSetsLoaded` | src/components/WeddingGallery.jsx:130-150 | no event but slide `i`'s own image load adds `i` to the loaded flags |
| `Gallery.OpenPreservesValid` | src/components/WeddingGallery.jsx:17-39 | opening on any valid image keeps the state consistent |
| `Gallery.StepPreservesValid` | src/components/WeddingGallery.jsx:17-69 | every page event keeps these true: valid indices, scroll lock held iff open, key handler attached iff open, and every preload request in range |
| `Gallery.RunPreservesValid` | src/components/WeddingGallery.jsx:17-69 | any sequence of page events keeps the state consistent |
| `Gallery.LockAndListenerFollowSelection` | src/components/WeddingGallery.jsx:17-69 | from page load, after any events, the scroll lock and the key handler are held exactly while the lightbox is open |
| `Gallery.ViewSlide` | src/components/WeddingGallery.jsx:133-152 | an inactive slide renders an empty placeholder; an active one shows either the spinner or the image, never both |
| `Gallery.SpinnerIffActiveAndPending` | src/components/WeddingGallery.jsx:139-143 | the spinner shows iff the slide is active and its image has not loaded |
| `Gallery.LoadedIsMonotone` | src/components/WeddingGallery.jsx:130-150 | while the lightbox stays open, no event clears a slide's loaded flag, and a loaded slide never shows the spinner again |
| `Gallery.Lightbox.constructor` | src/components/WeddingGallery.jsx:8-9 | the component starts in the initial state |
| `Gallery.Lightbox.PreloadEffect` | src/components/WeddingGallery.jsx:28-39 | the effect's loop appends one fetch per preload index, and none while closed |
| `Gallery.Lightbox.RunSelectionEffects` | src/components/WeddingGallery.jsx:28-69 | the effects keyed on the selection do three things: log the preload requests, attach or detach the key handler, and reset the loaded flags on mount or unmount |
| `Gallery.Lightbox.OpenModal` | src/components/WeddingGallery.jsx:17-21 | updates the fields as `Open` does, running the effects only when the selection changed; keeps the state consistent |
| `Gallery.Lightbox.CloseModal` | src/components/WeddingGallery.jsx:23-26 | updates the fields as `Close` does; keeps the state consistent |
| `Gallery.Lightbox.OnCarouselSelect` | src/components/WeddingGallery.jsx:44-46 | for a snap in `[0, n)`, updates the counter field as `OnSelect` does; keeps the state consistent |
| `Gallery.Lightbox.HandleKeyDown` | src/components/WeddingGallery.jsx:59-63 | updates the fields as `KeyDown` does; keeps the state consistent |
| `Gallery.Lightbox.HandleClick` | src/components/WeddingGallery.jsx:82-122 | updates the fields as `Click` does; keeps the state consistent |
| `Gallery.Lightbox.OnImageLoad` | src/components/WeddingGallery.jsx:150 | for an existing slide, updates the loaded flags as `ImageLoaded` does; keeps the state consistent |
| `Rsvp.Update` | src/components/RsvpSection.jsx:20-23 | a change writes exactly the named field; every other field keeps its value |
| `Rsvp.UpdateLastWriteWins` | src/components/RsvpSection.jsx:20-23 | the last write to a field wins, and writing back a field's own value changes nothing |
| `Rsvp.RequiredPresent` | src/components/RsvpSection.jsx:26 | the presence check of `handleSubmit`; no ensures of its own, stated by `Rsvp.RequiredPresentFields` |
| `Rsvp.RequiredPresentFields` | src/components/RsvpSection.jsx:26 | the presence check passes iff the name, the side and the attendance are all non-empty |
| `Rsvp.OptionalFieldsIgnored` | src/components/RsvpSection.jsx:26-32 | editing the guest count or the message never changes whether a submit passes |
| `Rsvp.RadioChoicesPass` | src/components/RsvpSection.jsx:96-154 | once any side and any attendance are chosen, a submit passes exactly when a name is typed |
| `Rsvp.GuestSelectorShown` | src/components/RsvpSection.jsx:159 | the guest selector's visibility rule; no ensures of its own, stated by `Rsvp.ViewOf` |
| `Rsvp.GuestOptions` | src/components/RsvpSection.jsx:172-176 | the guest selector offers exactly the values "1" to "5", in order |
| `Rsvp.InitialIsIdle` | src/components/RsvpSection.jsx:8-16 | the form starts idle with the name, side and attendance fields empty, so an immediate submit is rejected; the default guest count is the first option |
| `Rsvp.Change` | src/components/RsvpSection.jsx:20-23 | `handleChange` on the state; no ensures of its own, it applies `Rsvp.Update`, whose contract states it |
| `Rsvp.Submit` | src/components/RsvpSection.jsx:26-32 | a submit with a missing required field changes nothing; otherwise it starts sending and leaves the data untouched |
| `Rsvp.SubmitGuard` | src/components/RsvpSection.jsx:26-32 | from the form, a submit leaves the state as it was iff the name, the side or the attendance is empty, and otherwise starts sending |
| `Rsvp.Complete` | src/components/RsvpSection.jsx:35-37 | completion ends sending, reaches the submitted phase and keeps the data |
| `Rsvp.ViewOf` | src/components/RsvpSection.jsx:45-213 | the thank-you view shows iff submitted; the guest selector shows iff "attend" is chosen; the submit button is disabled iff sending |
| `Rsvp.NoSecondSubmit` | src/components/RsvpSection.jsx:208-213 | while sending, the view shows the button disabled, and so a second submit does nothing |
| `Rsvp.StepPreservesValid` | src/components/RsvpSection.jsx:32-37 | no event leaves both flags set at once |
| `Rsvp.StepPhaseForward` | src/components/RsvpSection.jsx:32-37 | phases only go forward: sending never returns to the form, and the form never jumps straight to submitted |
| `Rsvp.RunPreservesValid` | src/components/RsvpSection.jsx:15-37 | any sequence of events keeps the flags consistent |
| `Rsvp.SubmittedIsTerminal` | src/components/RsvpSection.jsx:45-60 | once submitted, no sequence of events changes the state, and the thank-you view stays |
| `Rsvp.NoSubmitStaysIdle` | src/components/RsvpSection.jsx:25-37 | without a submit press, the form never leaves the idle phase |
| `Rsvp.RsvpForm.constructor` | src/components/RsvpSection.jsx:8-16 | the component starts in the initial state |
| `Rsvp.RsvpForm.HandleChange` | src/components/RsvpSection.jsx:20-23 | while the form is shown, updates the record as `Change` does, leaving the flags and the phase alone |
| `Rsvp.RsvpForm.HandleSubmit` | src/components/RsvpSection.jsx:25-33 | through the enabled button, the submit is accepted iff the three required fields are non-empty, and then sending starts, otherwise the form stays idle; the fields are updated as `Submit` does |
| `Rsvp.RsvpForm.CompleteSubmission` | src/components/RsvpSection.jsx:35-37 | while sending, updates the flags as `Complete` does, reaching the submitted phase |
| `Rsvp.RsvpForm.SubmitDisabled` | src/components/RsvpSection.jsx:210 | read from the view: in a consistent state, the button is on the page and disabled exactly in the sending phase |

## Left out

- The carousel library (Embla) is not part of this model. This covers its `scrollTo` jump to the selected image, `scrollPrev`/`scrollNext` from the arrow keys and buttons, and its `loop` wrap-around. The snap it reports is an input to `OnSelect`, assumed to be in `[0, n)`. The arrow keys and arrow buttons therefore change no state in the model. No claim is made about wrap-around when paging. The model also accepts a `select` callback while the lightbox is closed, which cannot happen on the page because the carousel is rendered inside the lightbox; such a callback changes only the counter.
- Image fetching, image decoding, and the writes to `document.body` and `window` are not modelled as I/O. A fetch is an index appended to the `requested` log, and the scroll lock and key handler are booleans.
- The thumbnail grid stays in the page while the lightbox is open. The model lets a thumbnail click reach `Open` in any state, although the full-screen overlay covers the grid.
- The form post to the script endpoint through a hidden frame is left out. So are the 2000 ms and 100 ms timers, the scroll into view, and the alert on rejection. The model keeps only the completion transition and assumes exactly one completion timer is pending while sending.
- Rsvp.RsvpForm.HandleChange: the handler writes any key the event names. The model takes the key from the five control names, which are the only controls wired to it.
- The account section (clipboard copy with its fallback, timers, the accordion), the page shell, the footer, the animation and the styling are not part of this model.
