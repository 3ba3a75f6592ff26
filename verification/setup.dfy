/** Construction and start-up of the carousel: the four setup stages, the
    wrapping of any error they raise, and the page's start-up over the
    shipped slides. */
module CarouselSetup {
  import opened Slides
  import opened Carousel
  import opened CarouselInvariant
  import opened DotSelection

  /** A started carousel, or the message of the error construction raised. */
  datatype Result<T> = Success(value: T) | Failure(error: string)

  /** The parts of the page the carousel needs. Each `has` field says whether
      the structural query for that element found it. `dotsErrorMessage` and
      `bannerErrorMessage` are the texts the script runtime gives the errors
      raised when the missing dots container, or the missing banner, is
      appended to; a runtime may name the missing expression, so the two can
      differ. `image`, `caption` and `opacity` are what the banner shows
      before the carousel touches it. */
  datatype Host = Host(
    hasDotsContainer: bool,
    hasBannerContainer: bool,
    dotsErrorMessage: string,
    bannerErrorMessage: string,
    image: string,
    caption: string,
    opacity: string)

  /** The prefix construction puts in front of any setup error. */
  const ErrorPrefix: string := "[CAROUSEL] Une erreur est survenue : "

  /** The error construction re-raises: the prefix, then the original message
      unchanged, so the original can always be read back. */
  function Wrap(message: string): (wrapped: string)
    ensures |wrapped| == |ErrorPrefix| + |message|
    ensures wrapped[..|ErrorPrefix|] == ErrorPrefix
    ensures wrapped[|ErrorPrefix|..] == message
  {
    ErrorPrefix + message
  }

  /** The dots the first `count` passes of the dot-creating loop leave in
      the dots container, one unmarked dot per pass. Each pass appends its
      dot to the container, so the first pass throws when the container is
      missing, and with no slides the loop never runs. */
  function DisplayDots(count: nat, host: Host): (r: Result<seq<bool>>)
    ensures r.Failure? <==> count > 0 && !host.hasDotsContainer
    ensures r.Failure? ==> r.error == host.dotsErrorMessage
    ensures r.Success? ==> |r.value| == count && forall j :: 0 <= j < count ==> !r.value[j]
    decreases count
  {
    if count == 0 then Success([])
    else
      match DisplayDots(count - 1, host)
      case Failure(m) => Failure(m)
      case Success(dots) =>
        if host.hasDotsContainer then Success(dots + [false])
        else Failure(host.dotsErrorMessage)
  }

  /** The carousel once its dots exist: index 0, the given unmarked dots,
      nothing scheduled, and the banner as the page left it. */
  function Mounted(slides: seq<Slide>, dots: seq<bool>, host: Host): (s: State)
    requires |dots| == |slides| && forall j :: 0 <= j < |dots| ==> !dots[j]
    ensures WellFormed(s) && s.slides == slides && s.index == 0
    ensures forall j :: 0 <= j < |s.selected| ==> !s.selected[j]
    ensures |s.pending| == 0
  {
    State(slides, 0, dots, host.image, host.caption, host.opacity, [])
  }

  /** Construction and setup: dots, arrows, the first render and the
      auto-advance timer, in that order. An error from any stage is caught
      and re-raised with the prefix, and the timer is never started. Dots
      created before a later stage failed stay on the page; that page is not
      a carousel state this function returns. */
  function Setup(slides: seq<Slide>, host: Host): (r: Result<State>)
    ensures r.Failure? <==> (|slides| > 0 && !host.hasDotsContainer) || !host.hasBannerContainer
    ensures |slides| > 0 && !host.hasDotsContainer ==>
              r.Failure? && r.error == Wrap(host.dotsErrorMessage)
    ensures !(|slides| > 0 && !host.hasDotsContainer) && !host.hasBannerContainer ==>
              r.Failure? && r.error == Wrap(host.bannerErrorMessage)
    ensures r.Success? ==> WellFormed(r.value) && r.value.slides == slides
    ensures r.Success? && |slides| > 0 ==>
              && Inv(r.value)
              && r.value.index == 0
              && r.value.pending == [0]
              && r.value.opacity == Faded
  {
    match DisplayDots(|slides|, host)
    case Failure(m) => Failure(Wrap(m))
    case Success(dots) =>
      // the arrows are appended to the banner container, so the first
      // append throws when it is missing
      if !host.hasBannerContainer then Failure(Wrap(host.bannerErrorMessage))
      else
        // the first render cannot throw once the dots exist, and starting
        // the timer cannot throw either
        Success(Render(Mounted(slides, dots, host)))
  }

  /** The dots are created before the arrows: with slides to show and both
      containers missing, the error re-raised is the dots stage's, never the
      banner's when the two texts differ. */
  lemma DotsStageThrowsFirst(slides: seq<Slide>, host: Host)
    requires |slides| > 0 && !host.hasDotsContainer && !host.hasBannerContainer
    ensures Setup(slides, host).Failure?
    ensures host.dotsErrorMessage != host.bannerErrorMessage ==>
              Setup(slides, host).error != Wrap(host.bannerErrorMessage)
  {
  }

  /** The first swap after start-up puts slide 0 on the banner with only its
      dot marked, leaving the carousel at rest, so any paced run from there
      keeps exactly one dot marked. */
  lemma FirstSwapShowsFirstSlide(slides: seq<Slide>, host: Host)
    requires |slides| > 0 && host.hasDotsContainer && host.hasBannerContainer
    ensures Setup(slides, host).Success?
    ensures var s := Fire(Setup(slides, host).value);
            && s.index == 0 && |s.pending| == 0 && Shows(s, 0)
            && s.selected[0]
            && forall j :: 0 < j < |s.selected| ==> !s.selected[j]
    ensures Quiet(Fire(Setup(slides, host).value))
  {
  }

  /** The page's own start-up over the four shipped slides: once the dots
      container and the banner are present it succeeds, and under any
      sequence of clicks, ticks and swaps the index stays a valid slide
      after every event. */
  lemma ShippedStartupKeepsIndexInRange(host: Host, events: seq<Event>)
    requires host.hasDotsContainer && host.hasBannerContainer
    ensures Setup(ShippedSlides, host).Success?
    ensures forall k :: 0 <= k <= |events| ==>
              0 <= Run(Setup(ShippedSlides, host).value, events[..k]).index < 4
  {
    IndexStaysInRange(Setup(ShippedSlides, host).value, events);
  }
}
