/** The carousel's state machine: the slide index, the dots' "selected" marks,
    the banner's image, caption and opacity, and the queue of deferred swaps
    that the render step schedules. Every transition is a pure function from
    a state and an event to the next state. */
module Carousel {
  import opened Slides

  /** Opacity the render step sets at once, while the fade-out plays. */
  const Faded: string := "0.7"

  /** Opacity a deferred swap restores once the new slide is in place. */
  const Opaque: string := "1"

  /** The carousel after construction.
      `index` is the current slide position, a plain integer that the arrows
      and the timer may push one step out of range before the render step
      brings it back. `selected[j]` says whether dot `j` carries the
      "selected" mark. `pending` lists, in firing order, the positions whose
      deferred swap has been scheduled but has not fired yet. */
  datatype State = State(
    slides: seq<Slide>,
    index: int,
    selected: seq<bool>,
    image: string,
    caption: string,
    opacity: string,
    pending: seq<nat>)

  /** What can happen to a running carousel: a click on dot `position`, a
      click on the left or right arrow, a tick of the auto-advance timer, or
      the firing of the oldest deferred swap. */
  datatype Event = DotClick(position: int) | Prev | Next | Tick | FireSwap

  /** One dot per slide, and every scheduled swap names an existing slide. */
  predicate WellFormed(s: State) {
    && |s.selected| == |s.slides|
    && forall p :: 0 <= p < |s.pending| ==> s.pending[p] < |s.slides|
  }

  /** The render step's wraparound: an index at or past the end goes back to
      the first slide, and a negative one goes to the last slide. It undoes a
      single step out of range, and is not a general modulo. */
  function Normalise(index: int, n: nat): (r: int)
    ensures n > 0 ==> 0 <= r < n
    ensures 0 <= index < n ==> r == index
  {
    var wrapped := if index >= n then 0 else index;
    if wrapped < 0 then n - 1 else wrapped
  }

  /** The dots' marks once every dot other than `k` has been cleared. */
  function ClearOthers(selected: seq<bool>, k: int): (r: seq<bool>)
    ensures |r| == |selected|
  {
    seq(|selected|, j requires 0 <= j < |selected| => j == k && selected[j])
  }

  /** The synchronous part of the render step: normalise the index, clear the
      mark of every other dot, drop the opacity and schedule the swap for the
      current slide. The image, the caption and the current dot's own mark
      are left for the swap to change. */
  function Render(s: State): (r: State)
    requires WellFormed(s)
    ensures WellFormed(r)
    ensures r.slides == s.slides && r.image == s.image && r.caption == s.caption
    ensures r.index == Normalise(s.index, |s.slides|)
    ensures |r.selected| == |s.selected|
    ensures forall j :: 0 <= j < |r.selected| && j != r.index ==> !r.selected[j]
    ensures 0 <= r.index < |s.slides| ==>
              && r.selected[r.index] == s.selected[r.index]
              && r.opacity == Faded
              && r.pending == s.pending + [r.index]
    ensures |s.slides| == 0 ==> r.opacity == s.opacity && r.pending == s.pending
  {
    var n := |s.slides|;
    var k := Normalise(s.index, n);
    var fading := 0 <= k < n;
    s.(index := k,
       selected := ClearOthers(s.selected, k),
       opacity := if fading then Faded else s.opacity,
       pending := if fading then s.pending + [k] else s.pending)
  }

  /** The render step written as the page writes it: normalise, then walk the
      slides in order, fading and scheduling at the current position and
      clearing the dot's mark everywhere else. */
  method DisplayCurrentSlide(s: State) returns (r: State)
    requires WellFormed(s)
    ensures r == Render(s)
  {
    var n := |s.slides|;
    var current := s.index;
    if current >= n { current := 0; }
    if current < 0 { current := n - 1; }
    var selected := s.selected;
    var opacity := s.opacity;
    var pending := s.pending;
    for i := 0 to n
      invariant |selected| == n
      invariant forall j :: 0 <= j < i ==> selected[j] == (j == current && s.selected[j])
      invariant forall j :: i <= j < n ==> selected[j] == s.selected[j]
      invariant opacity == if 0 <= current < i then Faded else s.opacity
      invariant pending == if 0 <= current < i then s.pending + [current] else s.pending
    {
      if current == i {
        opacity := Faded;
        pending := pending + [i];
      } else if selected[i] {
        selected := selected[i := false];
      }
    }
    assert selected == ClearOthers(s.selected, current);
    r := s.(index := current, selected := selected, opacity := opacity, pending := pending);
  }

  /** The oldest deferred swap fires: the banner takes that slide's image and
      caption, its dot gains the mark and the opacity comes back to full.
      The index and every other dot are untouched. With nothing scheduled,
      nothing happens. */
  function Fire(s: State): (r: State)
    requires WellFormed(s)
    ensures WellFormed(r)
    ensures r.slides == s.slides && r.index == s.index
    ensures |s.pending| == 0 ==> r == s
    ensures |s.pending| > 0 ==>
              var k := s.pending[0];
              && r.pending == s.pending[1..]
              && r.image == ImagePath(s.slides[k])
              && r.caption == s.slides[k].tagLine
              && r.opacity == Opaque
              && |r.selected| == |s.selected|
              && r.selected[k]
              && forall j :: 0 <= j < |r.selected| && j != k ==> r.selected[j] == s.selected[j]
  {
    if |s.pending| == 0 then s
    else
      var k := s.pending[0];
      s.(image := ImagePath(s.slides[k]),
         caption := s.slides[k].tagLine,
         selected := s.selected[k := true],
         opacity := Opaque,
         pending := s.pending[1..])
  }

  /** One event: a dot click sets the index, the arrows and the timer move it
      by one, and each of these is followed by the render step. */
  function Step(s: State, e: Event): (r: State)
    requires WellFormed(s)
    ensures WellFormed(r)
    ensures r.slides == s.slides
    ensures e.DotClick? ==> r.index == Normalise(e.position, |s.slides|)
    ensures e.Prev? ==> r.index == Normalise(s.index - 1, |s.slides|)
    ensures e.Next? || e.Tick? ==> r.index == Normalise(s.index + 1, |s.slides|)
    ensures e.FireSwap? ==> r.index == s.index
  {
    match e
    case DotClick(i) => Render(s.(index := i))
    case Prev => Render(s.(index := s.index - 1))
    case Next => Render(s.(index := s.index + 1))
    case Tick => Render(s.(index := s.index + 1))
    case FireSwap => Fire(s)
  }

  /** The state after the events of `events`, in order. */
  function Run(s: State, events: seq<Event>): (r: State)
    requires WellFormed(s)
    ensures WellFormed(r)
    ensures r.slides == s.slides
    decreases |events|
  {
    if |events| == 0 then s
    else Step(Run(s, events[..|events| - 1]), events[|events| - 1])
  }

  /** `m` copies of the same event. */
  function Repeat(e: Event, m: nat): (r: seq<Event>)
    ensures |r| == m
    ensures forall k :: 0 <= k < m ==> r[k] == e
  {
    seq(m, _ => e)
  }
}
