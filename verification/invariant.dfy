/** The invariant every state reachable after construction keeps, and what
    follows from it for the slide index. */
module CarouselInvariant {
  import opened Slides
  import opened Carousel
  import opened Remainders

  /** The banner shows slide `k`: its image path and its caption. */
  predicate Shows(s: State, k: int)
    requires 0 <= k < |s.slides|
  {
    s.image == ImagePath(s.slides[k]) && s.caption == s.slides[k].tagLine
  }

  /** Nothing is left to fire and the banner is at rest on the current
      slide: its image and caption are up, its dot is marked, and the
      opacity is full. */
  predicate Settled(s: State)
    requires WellFormed(s) && 0 <= s.index < |s.slides|
  {
    Shows(s, s.index) && s.selected[s.index] && s.opacity == Opaque
  }

  /** The index is a valid slide, the newest scheduled swap is for the
      current slide, and once the queue is empty the banner has settled on
      it. */
  predicate Inv(s: State) {
    && WellFormed(s)
    && 0 <= s.index < |s.slides|
    && (|s.pending| > 0 ==> s.pending[|s.pending| - 1] == s.index)
    && (|s.pending| == 0 ==> Settled(s))
  }

  /** Every event keeps the invariant. */
  lemma StepPreservesInv(s: State, e: Event)
    requires Inv(s)
    ensures Inv(Step(s, e))
  {
  }

  /** Any finite sequence of events keeps the invariant. */
  lemma {:induction false} RunPreservesInv(s: State, events: seq<Event>)
    requires Inv(s)
    ensures Inv(Run(s, events))
    decreases |events|
  {
    if |events| > 0 {
      RunPreservesInv(s, events[..|events| - 1]);
      StepPreservesInv(Run(s, events[..|events| - 1]), events[|events| - 1]);
    }
  }

  /** After every prefix of any event sequence the index is a valid slide. */
  lemma IndexStaysInRange(s: State, events: seq<Event>)
    requires Inv(s)
    ensures forall k :: 0 <= k <= |events| ==> 0 <= Run(s, events[..k]).index < |s.slides|
  {
    forall k | 0 <= k <= |events|
      ensures 0 <= Run(s, events[..k]).index < |s.slides|
    {
      RunPreservesInv(s, events[..k]);
    }
  }

  /** The state once every scheduled swap has fired, oldest first. */
  function Drain(s: State): (r: State)
    requires WellFormed(s)
    ensures WellFormed(r)
    ensures r.slides == s.slides && r.index == s.index
    ensures |r.pending| == 0
    decreases |s.pending|
  {
    if |s.pending| == 0 then s else Drain(Fire(s))
  }

  /** When overlapping renders have queued several swaps, the last one
      scheduled wins: after all of them fire, the banner shows the current
      slide. */
  lemma {:induction false} DrainSettles(s: State)
    requires Inv(s)
    ensures Inv(Drain(s)) && Settled(Drain(s))
    decreases |s.pending|
  {
    if |s.pending| > 0 {
      StepPreservesInv(s, FireSwap);
      DrainSettles(Fire(s));
    }
  }

  /** Clicking dot `i` makes `i` the current slide, and once the scheduled
      swaps have fired the banner shows slide `i`. */
  lemma DotClickShowsSlide(s: State, i: int)
    requires Inv(s)
    requires 0 <= i < |s.slides|
    ensures Step(s, DotClick(i)).index == i
    ensures Shows(Drain(Step(s, DotClick(i))), i)
  {
    StepPreservesInv(s, DotClick(i));
    DrainSettles(Step(s, DotClick(i)));
  }

  /** The right arrow and the timer move from the last slide to the first. */
  lemma NextFromLastWraps(s: State)
    requires WellFormed(s) && |s.slides| > 0 && s.index == |s.slides| - 1
    ensures Step(s, Next).index == 0 && Step(s, Tick).index == 0
  {
  }

  /** The left arrow moves from the first slide to the last. */
  lemma PrevFromFirstWraps(s: State)
    requires WellFormed(s) && |s.slides| > 0 && s.index == 0
    ensures Step(s, Prev).index == |s.slides| - 1
  {
  }

  /** With the four shipped slides, the right arrow goes from 3 to 0 and the
      left arrow from 0 to 3. */
  lemma ShippedWraparound(s: State)
    requires WellFormed(s) && s.slides == ShippedSlides
    ensures s.index == 3 ==> Step(s, Next).index == 0
    ensures s.index == 0 ==> Step(s, Prev).index == 3
  {
  }

  /** On the indices one step out of range or inside it, the wraparound
      agrees with the remainder modulo `n`. */
  lemma NormaliseAgreesWithModulo(index: int, n: nat)
    requires n > 0 && -1 <= index <= n
    ensures Normalise(index, n) == index % n
  {
  }

  /** One past the last slide wraps to the first, and one before the first
      wraps to the last. */
  lemma NormaliseWrapsOneStep(n: nat)
    requires n > 0
    ensures Normalise(n, n) == 0 && Normalise(-1, n) == n - 1
  {
  }

  /** The wraparound only undoes one step: an index two past the end goes to
      the first slide, where a modulo would give the second. */
  lemma NormaliseIsNotModulo(n: nat)
    requires n >= 2
    ensures Normalise(n + 1, n) == 0 != (n + 1) % n
  {
  }

  /** How far an event moves the index before the render step wraps it: one
      place forward for the right arrow and the timer, one back for the left
      arrow, none for a swap. A dot click is not a relative move. */
  function Delta(e: Event): (d: int)
    ensures -1 <= d <= 1
    ensures e.FireSwap? ==> d == 0
  {
    match e
    case Next => 1
    case Tick => 1
    case Prev => -1
    case _ => 0
  }

  /** A sequence of events that only move the index relative to where it
      is: arrows, ticks and swaps, but no dot click. */
  predicate Relative(events: seq<Event>) {
    forall k :: 0 <= k < |events| ==> !events[k].DotClick?
  }

  /** The net number of places a sequence of relative events moves the index. */
  function Net(events: seq<Event>): (r: int)
    ensures -|events| <= r <= |events|
    decreases |events|
  {
    if |events| == 0 then 0
    else Net(events[..|events| - 1]) + Delta(events[|events| - 1])
  }

  /** The index reached from `i` by the relative events in order, each
      arrow or tick moving one place and wrapping as the render step does,
      each swap leaving it alone. */
  function Walk(i: int, events: seq<Event>, n: nat): (r: int)
    ensures 0 <= i < n ==> 0 <= r < n
    decreases |events|
  {
    if |events| == 0 then i
    else
      var w := Walk(i, events[..|events| - 1], n);
      var e := events[|events| - 1];
      if e.FireSwap? then w else Normalise(w + Delta(e), n)
  }

  /** A run of relative events moves the carousel's index along the walk. */
  lemma {:induction false} RunIsWalk(s: State, events: seq<Event>)
    requires WellFormed(s) && Relative(events)
    ensures Run(s, events).index == Walk(s.index, events, |s.slides|)
    decreases |events|
  {
    if |events| > 0 {
      var front := events[..|events| - 1];
      assert Relative(front) by {
        forall k | 0 <= k < |front| ensures !front[k].DotClick? {
          assert front[k] == events[k];
        }
      }
      RunIsWalk(s, front);
    }
  }

  /** The walk's single wrapped steps add up to the net count of steps
      modulo `n`: the one-step wraparound never loses a place. */
  lemma {:induction false} WalkIsModulo(i: int, events: seq<Event>, n: nat)
    requires 0 <= i < n
    ensures Walk(i, events, n) == (i + Net(events)) % n
    decreases |events|
  {
    if |events| == 0 {
      ModUnique(i + Net(events), n, 0, i);
    } else {
      var front, e := events[..|events| - 1], events[|events| - 1];
      var w := Walk(i, front, n);
      ModShiftLink(w, i + Net(front), Delta(e), n, (w + Delta(e)) % n, i + Net(events));
      WalkIsModulo(i, front, n);
      if !e.FireSwap? {
        NormaliseAgreesWithModulo(w + Delta(e), n);
      }
    }
  }

  /** `WalkIsModulo`, stated of a given index `k`. */
  lemma WalkAsModulo(k: int, i: int, events: seq<Event>, n: nat)
    requires 0 <= i < n
    ensures k == Walk(i, events, n) ==> k == (i + Net(events)) % n
  {
    WalkIsModulo(i, events, n);
  }

  /** Any run of arrow clicks, ticks and swaps, in any interleaving, moves
      the current slide by its net count of steps modulo the number of
      slides. */
  lemma RelativeRunIsModulo(s: State, events: seq<Event>)
    requires WellFormed(s) && 0 <= s.index < |s.slides| && Relative(events)
    ensures Run(s, events).index == (s.index + Net(events)) % |s.slides|
  {
    WalkAsModulo(Run(s, events).index, s.index, events, |s.slides|);
    RunIsWalk(s, events);
  }

  /** `m` copies of a forward event net `m` places, and `m` left-arrow
      clicks net `-m`. */
  lemma {:induction false} NetRepeat(e: Event, m: nat)
    ensures Relative(Repeat(e, m)) <==> (m == 0 || !e.DotClick?)
    ensures (e == Next || e == Tick) ==> Net(Repeat(e, m)) == m
    ensures e == Prev ==> Net(Repeat(e, m)) == -(m as int)
    ensures e.FireSwap? ==> Net(Repeat(e, m)) == 0
    decreases m
  {
    if m > 0 {
      NetRepeat(e, m - 1);
      assert Repeat(e, m)[..m - 1] == Repeat(e, m - 1);
      assert Repeat(e, m)[0] == e;
    }
  }

  /** `RelativeRunIsModulo` for a run that nets `c` places forward. */
  lemma RelativeRunAdvances(s: State, events: seq<Event>, c: int)
    requires WellFormed(s) && 0 <= s.index < |s.slides| && Relative(events)
    requires Net(events) == c
    ensures Run(s, events).index == (s.index + c) % |s.slides|
  {
    RelativeRunIsModulo(s, events);
  }

  /** `RelativeRunIsModulo` for a run that nets `c` places back. */
  lemma RelativeRunRetreats(s: State, events: seq<Event>, c: int)
    requires WellFormed(s) && 0 <= s.index < |s.slides| && Relative(events)
    requires Net(events) == -c
    ensures Run(s, events).index == (s.index - c) % |s.slides|
  {
    RelativeRunIsModulo(s, events);
    assert s.index + Net(events) == s.index - c;
  }

  /** `m` right-arrow clicks, or `m` timer ticks, in quick succession with no
      swap firing in between, advance the current slide by exactly `m`
      positions around the table. */
  lemma ForwardSteps(s: State, e: Event, m: nat)
    requires WellFormed(s) && 0 <= s.index < |s.slides|
    requires e == Next || e == Tick
    ensures Run(s, Repeat(e, m)).index == (s.index + m) % |s.slides|
  {
    NetRepeat(e, m);
    RelativeRunAdvances(s, Repeat(e, m), m);
  }

  /** `m` left-arrow clicks in quick succession move the current slide back
      by exactly `m` positions around the table. */
  lemma BackwardSteps(s: State, m: nat)
    requires WellFormed(s) && 0 <= s.index < |s.slides|
    ensures Run(s, Repeat(Prev, m)).index == (s.index - m) % |s.slides|
  {
    NetRepeat(Prev, m);
    RelativeRunRetreats(s, Repeat(Prev, m), m);
  }

  /** One right-arrow click or timer tick from a valid slide is one step
      forward modulo the number of slides. */
  lemma AdvanceOne(s: State, e: Event)
    requires WellFormed(s) && 0 <= s.index < |s.slides|
    requires e == Next || e == Tick
    ensures Step(s, e).index == (s.index + 1) % |s.slides|
  {
    NormaliseAgreesWithModulo(s.index + 1, |s.slides|);
  }

  /** One left-arrow click from a valid slide is one step back modulo the
      number of slides. */
  lemma RetreatOne(s: State)
    requires WellFormed(s) && 0 <= s.index < |s.slides|
    ensures Step(s, Prev).index == (s.index - 1) % |s.slides|
  {
    NormaliseAgreesWithModulo(s.index - 1, |s.slides|);
  }
}
