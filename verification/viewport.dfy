/** Classification of the browser viewport width (`window.innerWidth`, in
    CSS pixels) used by the two resize listeners of the page. */
module Viewport {

  /** Width from which three project cards are shown side by side. */
  const DesktopMinWidth: int := 1024
  /** Width from which two cards are shown; below it the page is "mobile". */
  const TabletMinWidth: int := 768

  /** The carousel's visible card count for a given width. */
  function VisibleItemsFor(width: int): (n: int)
    ensures 1 <= n <= 3
    ensures n == 3 <==> width >= DesktopMinWidth
    ensures n == 2 <==> TabletMinWidth <= width < DesktopMinWidth
    ensures n == 1 <==> width < TabletMinWidth
  {
    if width >= DesktopMinWidth then 3
    else if width >= TabletMinWidth then 2
    else 1
  }

  /** The `isMobile` flag the navigation bar reads; it holds exactly for
      the widths at which the carousel shows a single card. */
  predicate IsMobile(width: int)
    ensures IsMobile(width) <==> VisibleItemsFor(width) == 1
  {
    width < TabletMinWidth
  }

  /** A wider viewport never shows fewer cards. */
  lemma VisibleItemsMonotonic(narrow: int, wide: int)
    requires narrow <= wide
    ensures VisibleItemsFor(narrow) <= VisibleItemsFor(wide)
  {
  }
}
