/** The click handler that `initSmoothScrolling` puts on every same-page
    link. The document lookup (`document.querySelector(href)` followed by
    `offsetTop`) is a parameter, so the handler is a pure decision. */
module SmoothScroll {

  /** Height of the fixed navigation bar that a scrolled-to section must clear. */
  const HeaderOffset := 70

  /** What the document holds for a selector: no element, or an element at
      this many pixels from the top of the page. */
  datatype Lookup = NoMatch | Element(offsetTop: int)

  /** What the click ends in: the browser's own navigation, or the default
      prevented and a smooth scroll to `top`. */
  datatype ClickAction = FollowLink | ScrollTo(top: int)

  /** The handler for a click on a link whose `href` attribute is `href`
      (a missing attribute reads as ""). The empty and the bare "#" links
      never consult the document; any other link scrolls exactly when its
      target exists, and then to 70 pixels above the target, so that the
      target's top edge sits just below the fixed header. */
  function OnAnchorClick(href: string, find: string -> Lookup): (action: ClickAction)
    ensures href == "" || href == "#" ==> action == FollowLink
    ensures action.ScrollTo? <==> href != "" && href != "#" && find(href).Element?
    ensures action.ScrollTo? ==> action.top + HeaderOffset == find(href).offsetTop
  {
    if href == "" || href == "#" then FollowLink
    else match find(href)
      case NoMatch => FollowLink
      case Element(offsetTop) => ScrollTo(offsetTop - HeaderOffset)
  }
}
