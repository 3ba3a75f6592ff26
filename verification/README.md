# Carousel slide-index state machine

A Dafny model of the banner carousel of the print-it page (`Carousel` in
`assets/script.js`). The carousel keeps one integer, the current slide
position, over a fixed table of slides. Four events move it:

- a click on dot `i` sets it to `i`;
- the left arrow decrements it;
- the right arrow increments it;
- a tick of the auto-advance timer increments it.

Each event is followed by the render step `displayCurrentSlide`. The render
step first wraps the index by one step: an index at or past the end becomes
0, and a negative one becomes the last position. It then clears the
"selected" mark on every other dot and drops the banner's opacity to `0.7`.
Last, it schedules a deferred swap. When the swap fires, it sets the image
source and the caption, marks the dot and restores opacity `1`.

The model is a pure transition system:

- `Slides`: the slide record, the four shipped slides, and the image path a
  swap builds.
- `Carousel`: the state record, the events, `Normalise`, the render step
  (`Render`) and the same step written as a loop (`DisplayCurrentSlide`),
  the swap (`Fire`), one event (`Step`) and a sequence of events (`Run`).
  The state holds the index, one flag per dot, the image source, the
  caption, the opacity and a queue of scheduled swaps. A timer delay is
  not modelled as time. A swap is a queue entry, and its firing is the
  event `FireSwap`. Every swap has the same 300 ms delay, so the swaps fire
  in the order they were scheduled.
- `CarouselInvariant`: the invariant every started carousel keeps. The
  index is a valid slide, and the newest scheduled swap is for the current
  slide. Once nothing is scheduled, the banner shows the current slide with
  its dot marked. The module also proves the wraparound facts. It proves
  that any run of arrow clicks, ticks and swap firings, in any
  interleaving, moves the index by its net count of steps modulo the slide
  count.
- `DotSelection`: "exactly one dot is marked" holds when each swap fires
  before the next event. It is not an invariant. Two renders whose swaps
  are both still pending can leave two dots marked. Each render clears the
  other dots before any swap fires, and each swap then adds its own mark.
  `OverlapSelectsTwoDots` proves this for any carousel of two or more
  slides. The module also covers the page's usual pace, where each swap
  (300 ms) fires before the next tick (7000 ms).
- `CarouselSetup`: the setup stages and the error they re-raise. The
  re-raised message is the prefix `[CAROUSEL] Une erreur est survenue : `
  followed by the original message. The module also covers the page's
  start-up over the shipped slides.

Two facts about the code that a reader might expect otherwise:

- Exactly one dot is marked after a render only when each swap fires
  before the next event (see `DotSelection`).
- A missing dots container raises an error only when there is at least
  one slide, because the loop that appends the dots never runs otherwise.
  `CarouselSetup.Setup` follows this.

## Model

| member | source | states |
|---|---|---|
| Slides.ImagePath | assets/script.js:120 | the image source a swap sets is the slideshow directory followed by exactly the slide's file name |
| Carousel.Normalise | assets/script.js:106-109 | for a non-empty table the result is a valid position, and an index already valid is left unchanged |
| Carousel.Render | assets/script.js:105-131 | the synchronous render: index normalised; every other dot unmarked; the current dot's mark, the image and the caption untouched; opacity 0.7; one swap for the current slide appended to the queue; with no slides nothing is faded or scheduled |
| Carousel.DisplayCurrentSlide | assets/script.js:105-131 | the render step as the page's loop over the slides computes exactly the state `Render` describes |
| Carousel.Fire | assets/script.js:119-124 | the oldest swap fires: the slide's image path and caption go up, its dot is marked, opacity is 1, the swap leaves the queue, and the index and every other dot are unchanged |
| Carousel.Step | assets/script.js:63-140 | after a dot click (line 64) the index is the clicked position normalised; after prev (line 83) it is one less, normalised; after next (line 96) or a tick (line 138) it is one more, normalised; a swap leaves the index alone |
| Carousel.Run | assets/script.js:63-140 | the event handlers (dot clicks at 63-66, arrows at 82-85 and 95-98, the timer at 137-140) never add or remove a dot or a slide: under any event sequence there is still one dot per slide and every scheduled swap names an existing slide |
| CarouselInvariant.StepPreservesInv | assets/script.js:105-131 | every event keeps the invariant: valid index, newest swap for the current slide, settled banner once the queue is empty |
| CarouselInvariant.RunPreservesInv | assets/script.js:63-141 | any finite sequence of dot clicks (63-66), arrow clicks (82-85, 95-98), ticks (137-140) and swaps (119-124) keeps the invariant |
| CarouselInvariant.IndexStaysInRange | assets/script.js:107-109 | after every prefix of any event sequence the index lies in [0, n) |
| CarouselInvariant.Drain | assets/script.js:119 | firing every scheduled swap empties the queue and leaves the index alone |
| CarouselInvariant.DrainSettles | assets/script.js:119-124 | when several swaps overlap, the last one scheduled wins: after all have fired the banner shows the current slide's image and caption, its dot is marked and opacity is 1 |
| CarouselInvariant.DotClickShowsSlide | assets/script.js:63-66 | clicking dot i makes i the current slide, and once the swaps fire the banner shows slide i |
| CarouselInvariant.NextFromLastWraps | assets/script.js:95-98 | the right arrow and the timer go from the last slide to slide 0 |
| CarouselInvariant.PrevFromFirstWraps | assets/script.js:82-85 | the left arrow goes from slide 0 to the last slide |
| CarouselInvariant.ShippedWraparound | assets/script.js:1-18 | with the four shipped slides, next from 3 gives 0 and prev from 0 gives 3 |
| CarouselInvariant.NormaliseAgreesWithModulo | assets/script.js:107-109 | for indices from -1 up to n the wraparound agrees with the remainder modulo n, so it is correct after a single step out of range |
| CarouselInvariant.NormaliseWrapsOneStep | assets/script.js:107-109 | index n normalises to 0 and index -1 to n - 1 |
| CarouselInvariant.NormaliseIsNotModulo | assets/script.js:107-109 | the wraparound is not a general modulo: n + 1 goes to 0, not to 1 |
| CarouselInvariant.RunIsWalk | assets/script.js:82-140 | under arrow clicks, ticks and swaps the index follows single steps, each wrapped by the render step, with swaps leaving it alone |
| CarouselInvariant.WalkIsModulo | assets/script.js:107-109 | single wrapped steps from a valid slide add up to their net count of steps modulo n, so the one-step wraparound never loses a place |
| CarouselInvariant.RelativeRunIsModulo | assets/script.js:82-140 | any interleaving of arrow clicks, ticks and swap firings moves the current slide by (forward steps minus back steps) modulo n |
| CarouselInvariant.AdvanceOne | assets/script.js:137-140 | one tick or right-arrow click from a valid slide moves one place forward modulo n |
| CarouselInvariant.ForwardSteps | assets/script.js:137-140 | m ticks, or m right-arrow clicks, back to back with no swap firing in between, move the current slide exactly m places forward modulo n |
| CarouselInvariant.BackwardSteps | assets/script.js:82-85 | m left-arrow clicks, back to back with no swap firing in between, move the current slide exactly m places back modulo n |
| CarouselInvariant.RetreatOne | assets/script.js:82-85 | one left-arrow click from a valid slide moves one place back modulo n |
| DotSelection.RenderThenFireSelectsOne | assets/script.js:115-128 | a render whose swap fires before any other event leaves exactly the current dot marked and the banner settled on the current slide, whatever the marks were before |
| DotSelection.PacedRunStaysQuiet | assets/script.js:115-128 | events each followed by the firing of their swap keep exactly one dot marked, the current one, with nothing left scheduled |
| DotSelection.PacedEventStaysQuiet | assets/script.js:115-128 | from a carousel at rest with one dot marked, any event followed by its swap again leaves it at rest with exactly the current dot marked |
| DotSelection.PacedForwardSteps | assets/script.js:137-140 | m ticks, or m right-arrow clicks, each followed by its swap as at the page's pace, move the current slide exactly m places forward modulo n, and a carousel at rest with one dot marked stays so |
| DotSelection.PacedBackwardSteps | assets/script.js:82-85 | m slow left-arrow clicks, each followed by its swap, move the current slide exactly m places back modulo n, and a carousel at rest with one dot marked stays so |
| DotSelection.OverlapSelectsTwoDots | assets/script.js:119-128 | two right-arrow clicks before either swap fires end, after both swaps, with the banner settled on the newer slide but two distinct dots marked |
| CarouselSetup.Wrap | assets/script.js:50 | the re-raised message is the fixed prefix followed by the original message, which can be read back unchanged |
| CarouselSetup.DisplayDots | assets/script.js:56-68 | the dot loop leaves one unmarked dot per slide; it throws, with the runtime's message, exactly when there is a slide to append and the dots container is missing |
| CarouselSetup.Mounted | assets/script.js:29-38 | a fresh carousel with its dots starts at index 0 with one unmarked dot per slide and nothing scheduled |
| CarouselSetup.Setup | assets/script.js:44-51 | setup fails exactly when a stage throws (the dots when there is a slide and no dots container, the arrows when there is no banner); the error is the prefixed message of the first stage that throws, the dots stage's before the arrows'; on success the first render has run: index 0, swap for slide 0 scheduled, opacity 0.7, invariant established |
| CarouselSetup.DotsStageThrowsFirst | assets/script.js:46-47 | the dots stage runs before the arrows: with slides and both containers missing, the re-raised error is the dots stage's and not the banner's |
| CarouselSetup.FirstSwapShowsFirstSlide | assets/script.js:48 | once the first render's swap fires, slide 0 is shown, only dot 0 is marked and the carousel is at rest, so every paced run from there keeps exactly one dot marked |
| CarouselSetup.ShippedStartupKeepsIndexInRange | assets/script.js:147 | the page's start-up over the four shipped slides succeeds when the mount points exist, and the index stays in [0, 4) after every event |

## Left out

- Document access (`querySelector`, `createElement`, `appendChild`, `classList`, `style.cursor`, `getElementsByClassName`) is abstracted. The state keeps one flag per dot plus the image, caption and opacity fields. The host page is reduced to whether each container was found.
- A missing `.banner-img` fails in the constructor at assets/script.js:34, outside the `try` of `setup`, so that error is not wrapped. This path is not modelled.
- A missing caption element (`#banner p`) would fail inside the deferred swap, outside `setup`. This path is not modelled either.
- The texts of the runtime's errors for the missing dots container and the missing banner are opaque parameters (`Host.dotsErrorMessage`, `Host.bannerErrorMessage`).
- Real timing is not modelled: the 5000 ms default period, the 7000 ms period the page passes, the 300 ms swap delay and the CSS transition string. Ticks and swap firings are abstract events in one sequential queue.
- The `DOMContentLoaded` listener and the `alert` that shows a construction error (assets/script.js:145-149) are host-page I/O and are left out.
- The arrow images' sources and the caption markup are opaque strings.
- A swap firing with nothing scheduled is modelled as a no-op. A page never fires a swap it did not schedule.
- The source removes a dot's mark only when the dot has one. `Render` clears it unconditionally. `DisplayCurrentSlide` keeps the test and is proved to give the same state.
- CarouselSetup.Setup: after a failure it returns no carousel state, which says only that no timer was started. When there is at least one slide and the dots container exists but the banner does not, the dots are already on the page with live click handlers (assets/script.js:63-67) before the arrows throw (line 86). A click on such a dot still runs the render step, which fades the image and schedules a swap. That swap sets the image source (line 120) and then throws at line 121, because `#banner p` is missing too. This degraded page is not modelled.
- The invariant and the index-range theorems require at least one slide. With no slides the render step leaves the index at 0 or -1, which is not a valid slide. `Normalise`, `Render` and `Setup` still model that case as written.
