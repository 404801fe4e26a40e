/** The navigation bar's scroll effect: the `scroll` listener schedules at
    most one `updateNav` per animation frame through the `ticking` flag, and
    `updateNav` sets the bar's `scrolled` class once the page is scrolled
    more than 50 pixels. Animation frames are modelled as events: a queued
    `updateNav` runs when a `Frame` event arrives. */
module NavScroll {

  /** Pixels the page must be scrolled before the bar takes the `scrolled` class. */
  const Threshold: real := 50.0

  /** `scrolled`: the bar's class; `ticking`: the script's flag; `pending`:
      `updateNav` callbacks requested from the browser and not yet run. */
  datatype ScrollState = ScrollState(scrolled: bool, ticking: bool, pending: nat)

  /** The three scroll positions the page reports, read when `updateNav` runs. */
  datatype Offsets = Offsets(pageYOffset: real, scrollY: real, scrollTop: real)

  datatype ScrollEvent = Scroll | Frame(at: Offsets)

  const Initial := ScrollState(false, false, 0)

  /** `pageYOffset || scrollY || scrollTop`: the first non-zero reading, or
      zero when all three are zero. */
  function ScrollOffset(o: Offsets): (r: real)
    ensures r == 0.0 <==> o.pageYOffset == 0.0 && o.scrollY == 0.0 && o.scrollTop == 0.0
    ensures o.pageYOffset != 0.0 ==> r == o.pageYOffset
    ensures o.pageYOffset == 0.0 && o.scrollY != 0.0 ==> r == o.scrollY
    ensures r == o.pageYOffset || r == o.scrollY || r == o.scrollTop
  {
    if o.pageYOffset != 0.0 then o.pageYOffset
    else if o.scrollY != 0.0 then o.scrollY
    else o.scrollTop
  }

  /** The `scroll` listener: requests a frame unless one is already owed. */
  function AfterScroll(s: ScrollState): (r: ScrollState)
    ensures r.ticking && r.scrolled == s.scrolled
    ensures r.pending == if s.ticking then s.pending else s.pending + 1
  {
    if s.ticking then s else ScrollState(s.scrolled, true, s.pending + 1)
  }

  /** An animation frame: when a requested `updateNav` is owed it runs.
      Without a navigation bar it returns at once and leaves `ticking` set. */
  function AfterFrame(s: ScrollState, navPresent: bool, o: Offsets): (r: ScrollState)
    ensures s.pending == 0 ==> r == s
    ensures s.pending > 0 ==> r.pending == s.pending - 1
    ensures s.pending > 0 && navPresent ==> !r.ticking && (r.scrolled <==> ScrollOffset(o) > Threshold)
    ensures !navPresent ==> r.ticking == s.ticking && r.scrolled == s.scrolled
  {
    if s.pending == 0 then s
    else if !navPresent then ScrollState(s.scrolled, s.ticking, s.pending - 1)
    else ScrollState(ScrollOffset(o) > Threshold, false, s.pending - 1)
  }

  function Step(s: ScrollState, navPresent: bool, e: ScrollEvent): ScrollState {
    match e
    case Scroll => AfterScroll(s)
    case Frame(o) => AfterFrame(s, navPresent, o)
  }

  /** The script's bookkeeping: at most one `updateNav` is ever owed, and
      one is owed only while `ticking` is set; with the bar present, one is
      owed exactly while `ticking` is set. */
  predicate Valid(s: ScrollState, navPresent: bool) {
    s.pending <= 1 && (s.pending == 1 ==> s.ticking) &&
    (navPresent ==> (s.ticking <==> s.pending == 1))
  }

  lemma StepValid(s: ScrollState, navPresent: bool, e: ScrollEvent)
    requires Valid(s, navPresent)
    ensures Valid(Step(s, navPresent, e), navPresent)
  {
  }

  function Run(s: ScrollState, navPresent: bool, events: seq<ScrollEvent>): ScrollState
    decreases |events|
  {
    if events == [] then s else Run(Step(s, navPresent, events[0]), navPresent, events[1..])
  }

  /** Frames requested from the browser while the events are handled. */
  function Requests(s: ScrollState, navPresent: bool, events: seq<ScrollEvent>): nat
    decreases |events|
  {
    if events == [] then 0
    else
      (if events[0].Scroll? && !s.ticking then 1 else 0) +
      Requests(Step(s, navPresent, events[0]), navPresent, events[1..])
  }

  function FrameCount(events: seq<ScrollEvent>): nat
    decreases |events|
  {
    if events == [] then 0 else (if events[0].Frame? then 1 else 0) + FrameCount(events[1..])
  }

  lemma {:induction false} RunValid(s: ScrollState, navPresent: bool, events: seq<ScrollEvent>)
    requires Valid(s, navPresent)
    ensures Valid(Run(s, navPresent, events), navPresent)
    decreases |events|
  {
    if events != [] {
      StepValid(s, navPresent, events[0]);
      RunValid(Step(s, navPresent, events[0]), navPresent, events[1..]);
    }
  }

  /** Throttling: however many `scroll` events arrive, the script asks for at
      most one frame more than the browser gives it, and none while `ticking`
      is already set before the next frame. */
  lemma {:induction false} RequestsBounded(s: ScrollState, events: seq<ScrollEvent>)
    requires Valid(s, true)
    ensures Requests(s, true, events) <= (if s.ticking then 0 else 1) + FrameCount(events)
    decreases |events|
  {
    if events != [] {
      var next := Step(s, true, events[0]);
      StepValid(s, true, events[0]);
      RequestsBounded(next, events[1..]);
    }
  }

  /** Without a navigation bar `updateNav` never clears `ticking`, so over the
      whole life of the page at most one frame is ever requested. */
  lemma {:induction false} RequestsWithoutNav(s: ScrollState, events: seq<ScrollEvent>)
    requires Valid(s, false)
    ensures Requests(s, false, events) <= (if s.ticking then 0 else 1)
    ensures s.ticking ==> Run(s, false, events).ticking
    decreases |events|
  {
    if events != [] {
      var next := Step(s, false, events[0]);
      StepValid(s, false, events[0]);
      RequestsWithoutNav(next, events[1..]);
    }
  }

  /** After the last owed `updateNav` has run, the bar's class reflects the
      scroll position read in that frame. */
  lemma FrameSettles(s: ScrollState, o: Offsets)
    requires Valid(s, true) && s.ticking
    ensures var r := AfterFrame(s, true, o);
            Valid(r, true) && r.pending == 0 && (r.scrolled <==> ScrollOffset(o) > Threshold)
  {
  }

  /** The page's navigation bar and the script's `ticking` flag. */
  class NavScroller {
    const navPresent: bool
    var scrolled: bool
    var ticking: bool
    var pending: nat

    function State(): ScrollState
      reads this
    {
      ScrollState(scrolled, ticking, pending)
    }

    constructor (navPresent: bool)
      ensures this.navPresent == navPresent && State() == Initial && Valid(State(), navPresent)
    {
      this.navPresent := navPresent;
      scrolled, ticking, pending := false, false, 0;
    }

    /** The passive `scroll` listener. */
    method OnScroll()
      requires Valid(State(), navPresent)
      modifies this
      ensures State() == AfterScroll(old(State())) && Valid(State(), navPresent)
    {
      if !ticking {
        pending := pending + 1;
        ticking := true;
      }
    }

    /** An animation frame, running the owed `updateNav` if there is one. */
    method OnFrame(o: Offsets)
      requires Valid(State(), navPresent)
      modifies this
      ensures State() == AfterFrame(old(State()), navPresent, o) && Valid(State(), navPresent)
    {
      if pending == 0 {
        return;
      }
      pending := pending - 1;
      if !navPresent {
        return;
      }
      var currentScroll := ScrollOffset(o);
      scrolled := currentScroll > Threshold;
      ticking := false;
    }
  }
}
