/** Classification of a finished touch gesture on the menu book.
    A gesture is the displacement (dx, dy) between the touchstart and the
    touchend positions; two handlers classify it with different thresholds. */
module Swipe {

  /** What a gesture asks the menu book to do. */
  datatype Action = Previous | Next | Ignore

  function Abs(x: int): (r: nat)
    ensures r == x || r == -x
  {
    if x < 0 then -x else x
  }

  /** Horizontal distance the menu-book handler needs before it turns a page. */
  const MenuBookMinDistance: nat := 50

  /** Thresholds of the separate touch-navigation handler. */
  const TouchMinSwipeDistance: nat := 80
  const TouchMaxVerticalDistance: nat := 30

  /** The swipe handler installed by the menu book itself: a gesture that is
      more horizontal than vertical and longer than 50 turns back when it moves
      right and forward when it moves left. */
  function MenuBookSwipe(dx: int, dy: int): (r: Action)
    ensures r != Ignore <==> Abs(dx) > Abs(dy) && Abs(dx) > MenuBookMinDistance
    ensures r == Previous ==> dx > 0
    ensures r == Next ==> dx < 0
  {
    if Abs(dx) > Abs(dy) && Abs(dx) > MenuBookMinDistance then
      if dx > 0 then Previous else Next
    else
      Ignore
  }

  /** The touch-navigation handler: additionally demands a longer horizontal
      distance and a small vertical drift, to tell a page turn from a scroll. */
  function TouchSwipe(dx: int, dy: int): (r: Action)
    ensures r != Ignore <==>
      Abs(dx) > Abs(dy) && Abs(dx) > TouchMinSwipeDistance && Abs(dy) < TouchMaxVerticalDistance
    ensures r == Previous ==> dx > 0
    ensures r == Next ==> dx < 0
  {
    if Abs(dx) > Abs(dy) && Abs(dx) > TouchMinSwipeDistance && Abs(dy) < TouchMaxVerticalDistance then
      if dx > 0 then Previous else Next
    else
      Ignore
  }

  /** The opposite page-turn direction. */
  function Mirror(a: Action): Action {
    match a
    case Previous => Next
    case Next => Previous
    case Ignore => Ignore
  }

  /** Every gesture the touch-navigation handler accepts, the menu-book
      handler accepts too, with the same direction. */
  lemma TouchSwipeImpliesMenuBookSwipe(dx: int, dy: int)
    ensures TouchSwipe(dx, dy) != Ignore ==> MenuBookSwipe(dx, dy) == TouchSwipe(dx, dy)
  {
  }

  /** Reflecting a gesture left-to-right reverses the page turn it asks for. */
  lemma MenuBookSwipeMirrors(dx: int, dy: int)
    ensures MenuBookSwipe(-dx, dy) == Mirror(MenuBookSwipe(dx, dy))
    ensures MenuBookSwipe(dx, -dy) == MenuBookSwipe(dx, dy)
  {
  }

  /** A gesture at least as vertical as it is horizontal is a scroll: neither
      handler turns a page. */
  lemma VerticalGestureIgnored(dx: int, dy: int)
    requires Abs(dy) >= Abs(dx)
    ensures MenuBookSwipe(dx, dy) == Ignore && TouchSwipe(dx, dy) == Ignore
  {
  }
}
