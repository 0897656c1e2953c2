/** Classification of a swipe into one of the four board directions.
    The swipe arrives as its projections on the right axis (r) and the
    up axis (u); the board's y index grows downwards, so Up is y - 1. */
module Swipe {

  datatype Direction = Right | Left | Up | Down

  datatype Gesture = NoMove | Move(dir: Direction)

  function Abs(n: int): nat {
    if n < 0 then -n else n
  }

  /** The quadrant-by-quadrant decision of OnSignalPlayerTouchProcessData.
      A zero component on either axis starts no move; otherwise the axis
      with the larger absolute projection wins, a tie going to Up/Down, and
      the sign of the winning projection picks the side. */
  function Classify(r: int, u: int): (g: Gesture)
    ensures g == NoMove <==> r == 0 || u == 0
    ensures g == Move(Right) <==> r > 0 && u != 0 && Abs(r) > Abs(u)
    ensures g == Move(Left) <==> r < 0 && u != 0 && Abs(r) > Abs(u)
    ensures g == Move(Up) <==> u > 0 && r != 0 && Abs(u) >= Abs(r)
    ensures g == Move(Down) <==> u < 0 && r != 0 && Abs(u) >= Abs(r)
  {
    if r > 0 && u > 0 then
      if r > u then Move(Right) else Move(Up)
    else if r < 0 && u < 0 then
      if r < u then Move(Left) else Move(Down)
    else if r < 0 && u > 0 then
      if Abs(r) > u then Move(Left) else Move(Up)
    else if r > 0 && u < 0 then
      if r > Abs(u) then Move(Right) else Move(Down)
    else
      NoMove
  }
}
