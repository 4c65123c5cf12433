/** Screen and grid geometry of the snake game: cells in pixel coordinates,
    the four directions, the one-cell step and the wrap at the screen edges. */
module Geometry {

  const ScreenWidth: int := 640
  const ScreenHeight: int := 480
  const GridSize: int := 20
  const GridWidth: int := ScreenWidth / GridSize
  const GridHeight: int := ScreenHeight / GridSize

  /** A cell, named by the pixel coordinates of its top-left corner. */
  datatype Pos = Pos(x: int, y: int)

  /** The centre of the screen, where the snake starts and restarts. */
  const Center: Pos := Pos(ScreenWidth / 2, ScreenHeight / 2)

  datatype Direction = Up | Down | Left | Right

  /** The four directions, in the order the reset draws from. */
  const AllDirections: seq<Direction> := [Up, Down, Left, Right]

  /** The unit vector of each direction; y grows downwards on the screen. */
  function Delta(d: Direction): (int, int)
  {
    match d
    case Up => (0, -1)
    case Down => (0, 1)
    case Left => (-1, 0)
    case Right => (1, 0)
  }

  /** The reverse of a direction: the one whose unit vector is negated. */
  function Opposite(d: Direction): (r: Direction)
    ensures Delta(r).0 == -Delta(d).0 && Delta(r).1 == -Delta(d).1
    ensures r != d
  {
    match d
    case Up => Down
    case Down => Up
    case Left => Right
    case Right => Left
  }

  predicate OnScreen(p: Pos)
  {
    0 <= p.x < ScreenWidth && 0 <= p.y < ScreenHeight
  }

  predicate Aligned(p: Pos)
  {
    p.x % GridSize == 0 && p.y % GridSize == 0
  }

  /** A cell the snake may occupy: on the screen and on the grid. */
  predicate OnGrid(p: Pos)
  {
    OnScreen(p) && Aligned(p)
  }

  /** The head's position one tick later, before wrapping: the if-chain over
      the four directions moves exactly one coordinate by one grid cell. */
  function Step(p: Pos, d: Direction): (r: Pos)
    ensures r.x == p.x + GridSize * Delta(d).0
    ensures r.y == p.y + GridSize * Delta(d).1
    ensures (r.x == p.x) != (r.y == p.y)
  {
    match d
    case Up => Pos(p.x, p.y - GridSize)
    case Right => Pos(p.x + GridSize, p.y)
    case Down => Pos(p.x, p.y + GridSize)
    case Left => Pos(p.x - GridSize, p.y)
  }

  /** Horizontal wrap: past the right edge take the remainder, past the left
      edge add one screen width. For any x at least one width left of the
      screen this is arithmetic modulo the screen width. */
  function WrapX(x: int): (r: int)
    ensures -ScreenWidth <= x ==> r == x % ScreenWidth && 0 <= r < ScreenWidth
    ensures 0 <= x < ScreenWidth ==> r == x
  {
    if x >= ScreenWidth then x % ScreenWidth
    else if x < 0 then x + ScreenWidth
    else x
  }

  /** Vertical wrap, with the two tests in the order the source makes them. */
  function WrapY(y: int): (r: int)
    ensures -ScreenHeight <= y ==> r == y % ScreenHeight && 0 <= r < ScreenHeight
    ensures 0 <= y < ScreenHeight ==> r == y
  {
    if y < 0 then y + ScreenHeight
    else if y >= ScreenHeight then y % ScreenHeight
    else y
  }

  /** The new head cell: one step, then the wrap in both coordinates. From a
      cell on the grid this is the step taken on the torus, and lands on the
      grid again. */
  function NextHead(p: Pos, d: Direction): (r: Pos)
    ensures OnGrid(p) ==> OnGrid(r)
    ensures OnGrid(p) ==>
              r == Pos((p.x + GridSize * Delta(d).0) % ScreenWidth,
                       (p.y + GridSize * Delta(d).1) % ScreenHeight)
  {
    var q := Step(p, d);
    Pos(WrapX(q.x), WrapY(q.y))
  }

  /** Leaving the screen on one side re-enters it on the other. */
  lemma WrapsAround(p: Pos)
    requires OnGrid(p)
    ensures p.x == ScreenWidth - GridSize ==> NextHead(p, Right).x == 0
    ensures p.x == 0 ==> NextHead(p, Left).x == ScreenWidth - GridSize
    ensures p.y == ScreenHeight - GridSize ==> NextHead(p, Down).y == 0
    ensures p.y == 0 ==> NextHead(p, Up).y == ScreenHeight - GridSize
  {
  }

}
