/** In-page anchors (`a` elements whose `href` starts with `#`): a click
    never follows the link natively; a placeholder `href` does nothing, a
    fragment naming an element scrolls smoothly to 80 pixels above it, and a
    fragment that is not a valid selector falls back to plain navigation. */
module SmoothScroll {
  import opened Wrappers

  /** Height, in pixels, kept free above the target for the fixed header. */
  const HeaderOffset: int := 80

  /** What `document.querySelector(href)` gives: the first matching element's
      `offsetTop`, no match, or a thrown syntax error. The browser measures
      `offsetTop` from the element's offset parent; the model takes it as the
      element's distance from the top of the page, which it is when that
      parent is the body or starts at the top of the page. */
  datatype Lookup = Found(offsetTop: int) | NotFound | InvalidSelector

  /** `pushUrl` is the history entry pushed after scrolling (`None` when the
      browser has no `history.pushState`). */
  datatype AnchorAction =
    | DoNothing
    | SmoothScrollTo(top: int, pushUrl: Option<string>)
    | NavigateTo(url: string)

  /** The outcome of one click: whether the browser's default navigation is
      prevented, and what the handler does instead. */
  datatype ClickOutcome = ClickOutcome(defaultPrevented: bool, action: AnchorAction)

  predicate IsPlaceholder(href: string) {
    href == "#" || href == "#!"
  }

  /** The `click` listener of an in-page anchor with the given `href`;
      `lookup` is what the selector query gives for that `href`. */
  function AnchorClick(href: string, lookup: Lookup, hasPushState: bool): (r: ClickOutcome)
    ensures r.defaultPrevented
    ensures IsPlaceholder(href) ==> r.action == DoNothing
    ensures r.action.SmoothScrollTo? <==> !IsPlaceholder(href) && lookup.Found?
    ensures r.action.NavigateTo? <==> !IsPlaceholder(href) && lookup.InvalidSelector?
    ensures r.action.SmoothScrollTo? ==>
              r.action.top + HeaderOffset == lookup.offsetTop &&
              (r.action.pushUrl.Some? <==> hasPushState) &&
              (hasPushState ==> r.action.pushUrl.value == href)
    ensures r.action.NavigateTo? ==> r.action.url == href
  {
    if IsPlaceholder(href) then ClickOutcome(true, DoNothing)
    else
      match lookup
      case Found(offsetTop) =>
        ClickOutcome(true, SmoothScrollTo(offsetTop - HeaderOffset, if hasPushState then Some(href) else None))
      case NotFound => ClickOutcome(true, DoNothing)
      case InvalidSelector => ClickOutcome(true, NavigateTo(href))
  }

  /** The scroll position the browser settles on for a requested `top`: it
      cannot scroll above the start of the page. */
  function Settled(top: int): (y: nat)
    ensures y >= top && (top >= 0 ==> y == top)
  {
    if top < 0 then 0 else top
  }

  /** After an in-page jump the target lies just below the fixed header: at
      exactly `HeaderOffset` pixels from the top of the viewport, or at its
      own position when it is closer to the start of the page than that.
      `offsetTop` is the target's distance from the top of the page. */
  lemma TargetClearsHeader(href: string, offsetTop: nat, hasPushState: bool)
    requires !IsPlaceholder(href)
    ensures var a := AnchorClick(href, Found(offsetTop), hasPushState).action;
            a.SmoothScrollTo? &&
            offsetTop - Settled(a.top) == if offsetTop >= HeaderOffset then HeaderOffset else offsetTop
  {
  }
}
