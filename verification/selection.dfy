/** The dots' "selected" marks. One dot is marked after a render whose swap
    fires before the next event; renders that overlap can leave two dots
    marked, because each render clears the other dots before its own swap
    has fired. */
module DotSelection {
  import opened Slides
  import opened Carousel
  import opened CarouselInvariant

  /** Dot `k` is marked and no other dot is. */
  predicate ExactlyOneSelected(selected: seq<bool>, k: int) {
    && 0 <= k < |selected|
    && selected[k]
    && forall j :: 0 <= j < |selected| && j != k ==> !selected[j]
  }

  /** At rest with nothing scheduled and only the current dot marked. */
  predicate Quiet(s: State) {
    Inv(s) && |s.pending| == 0 && ExactlyOneSelected(s.selected, s.index)
  }

  /** A render whose swap fires before anything else happens leaves the
      banner on the current slide with exactly its dot marked, whatever the
      marks were before. */
  lemma RenderThenFireSelectsOne(s: State)
    requires WellFormed(s) && |s.slides| > 0 && |s.pending| == 0
    ensures Quiet(Fire(Render(s)))
    ensures Fire(Render(s)).index == Normalise(s.index, |s.slides|)
  {
  }

  /** Each event followed at once by the firing of the swap it scheduled. */
  function Paced(events: seq<Event>): (r: seq<Event>)
    ensures |r| == 2 * |events|
    decreases |events|
  {
    if |events| == 0 then []
    else Paced(events[..|events| - 1]) + [events[|events| - 1]] + [FireSwap]
  }

  /** Events separated by the firing of their swaps keep exactly one dot
      marked, and it is the current slide's. */
  lemma {:induction false} PacedRunStaysQuiet(s: State, events: seq<Event>)
    requires Quiet(s)
    ensures Quiet(Run(s, Paced(events)))
    decreases |events|
  {
    if |events| > 0 {
      var front := events[..|events| - 1];
      PacedRunStaysQuiet(s, front);
      RunPacedLast(s, events);
      PacedEventStaysQuiet(Run(s, Paced(front)), events[|events| - 1]);
    }
  }

  /** The paced run of `events` is the paced run of all but the last event,
      then the last event, then its swap. */
  lemma RunPacedLast(s: State, events: seq<Event>)
    requires WellFormed(s) && |events| > 0
    ensures Run(s, Paced(events)) ==
              Step(Step(Run(s, Paced(events[..|events| - 1])), events[|events| - 1]), FireSwap)
  {
  }

  /** One event followed by the firing of its swap keeps a quiet carousel
      quiet. */
  lemma PacedEventStaysQuiet(s: State, e: Event)
    requires Quiet(s)
    ensures Quiet(Step(Step(s, e), FireSwap))
  {
  }

  /** Two right-arrow clicks before the first swap fires: once both swaps
      have fired the banner has settled on the newer slide, yet the older
      slide's dot is still marked as well. */
  lemma OverlapSelectsTwoDots(s: State)
    requires Quiet(s) && |s.slides| >= 2
    ensures var r := Step(Step(Step(Step(s, Next), Next), FireSwap), FireSwap);
            var older := Normalise(s.index + 1, |s.slides|);
            && Inv(r) && |r.pending| == 0
            && older != r.index
            && r.selected[older] && r.selected[r.index]
            && !ExactlyOneSelected(r.selected, r.index)
  {
  }

  /** Pacing adds only swaps, so it keeps the net count of steps. */
  lemma {:induction false} NetPaced(events: seq<Event>)
    ensures Net(Paced(events)) == Net(events)
    decreases |events|
  {
    if |events| > 0 {
      var front, e := events[..|events| - 1], events[|events| - 1];
      NetPaced(front);
      var p := Paced(front);
      assert Paced(events)[..|p| + 1] == p + [e];
      assert (p + [e])[..|p|] == p;
    }
  }

  /** Pacing adds only swaps, so a run without dot clicks stays one. */
  lemma {:induction false} RelativePaced(events: seq<Event>)
    requires Relative(events)
    ensures Relative(Paced(events))
    decreases |events|
  {
    if |events| > 0 {
      var front, e := events[..|events| - 1], events[|events| - 1];
      assert Relative(front) by {
        forall k | 0 <= k < |front| ensures !front[k].DotClick? {
          assert front[k] == events[k];
        }
      }
      RelativePaced(front);
      var p := Paced(front);
      forall k | 0 <= k < |Paced(events)| ensures !Paced(events)[k].DotClick? {
        if k < |p| {
          assert Paced(events)[k] == p[k];
        }
      }
    }
  }

  /** `m` timer ticks, or `m` right-arrow clicks, each followed by the
      firing of its swap, as on the page where the 300 ms swap fires well
      before the next 7000 ms tick: the current slide moves exactly `m`
      places forward modulo the number of slides, and a carousel at rest
      with one dot marked ends that way again. */
  lemma PacedForwardSteps(s: State, e: Event, m: nat)
    requires WellFormed(s) && 0 <= s.index < |s.slides|
    requires e == Next || e == Tick
    ensures Run(s, Paced(Repeat(e, m))).index == (s.index + m) % |s.slides|
    ensures Quiet(s) ==> Quiet(Run(s, Paced(Repeat(e, m))))
  {
    NetRepeat(e, m);
    NetPaced(Repeat(e, m));
    RelativePaced(Repeat(e, m));
    RelativeRunAdvances(s, Paced(Repeat(e, m)), m);
    if Quiet(s) {
      PacedRunStaysQuiet(s, Repeat(e, m));
    }
  }

  /** `m` left-arrow clicks, each followed by the firing of its swap: the
      current slide moves exactly `m` places back modulo the number of
      slides, and a carousel at rest with one dot marked ends that way
      again. */
  lemma PacedBackwardSteps(s: State, m: nat)
    requires WellFormed(s) && 0 <= s.index < |s.slides|
    ensures Run(s, Paced(Repeat(Prev, m))).index == (s.index - m) % |s.slides|
    ensures Quiet(s) ==> Quiet(Run(s, Paced(Repeat(Prev, m))))
  {
    NetRepeat(Prev, m);
    NetPaced(Repeat(Prev, m));
    RelativePaced(Repeat(Prev, m));
    RelativeRunRetreats(s, Paced(Repeat(Prev, m)), m);
    if Quiet(s) {
      PacedRunStaysQuiet(s, Repeat(Prev, m));
    }
  }
}
