/** The board of the snake game: its constants, the values the game state is
    made of, and the pure functions that specify what one step of the game does
    to them.  Coordinates are in pixels, as in the game itself: a cell (cx, cy)
    of the 25 x 25 grid has its top-left corner at (cx * TileSize, cy * TileSize).
 */
module Board {

  const TileSize: int := 25
  const Width: int := 25
  const Height: int := 25
  /** Number of cells of the grid, and the capacity of each coordinate array. */
  const Capacity: int := Width * Height
  /** Points scored for one piece of food. */
  const Reward: int := 10
  /** Length of the snake at the start of a round. */
  const StartLength: int := 3

  /** The heading of the snake; the game stores it as one of 'U', 'D', 'L', 'R'. */
  datatype Direction = Up | Down | Left | Right

  /** A key event, reduced to what the game distinguishes: an arrow key, Enter,
      or any other key. */
  datatype Key = Arrow(heading: Direction) | Enter | Other

  /** A position in pixels. */
  datatype Cell = Cell(x: int, y: int)

  function Opposite(d: Direction): Direction
  {
    match d
    case Up => Down
    case Down => Up
    case Left => Right
    case Right => Left
  }

  predicate IsVertical(d: Direction)
  {
    d == Up || d == Down
  }

  function Abs(n: int): int
  {
    if n < 0 then -n else n
  }

  /** A position lies on the board when both coordinates are inside the window. */
  predicate OnBoard(c: Cell)
  {
    0 <= c.x < Width * TileSize && 0 <= c.y < Height * TileSize
  }

  /** A position is grid-aligned when both coordinates are whole multiples of a tile. */
  predicate Aligned(c: Cell)
  {
    c.x % TileSize == 0 && c.y % TileSize == 0
  }

  /** The pixel position of grid cell (cx, cy): where food is put. */
  function TileOrigin(cx: int, cy: int): (c: Cell)
    requires 0 <= cx < Width && 0 <= cy < Height
    ensures OnBoard(c) && Aligned(c)
    ensures c.x / TileSize == cx && c.y / TileSize == cy
  {
    Cell(cx * TileSize, cy * TileSize)
  }

  /** Where the head goes in one tick: one tile along the axis of `d`, with the
      other coordinate kept.  Up decreases y, as on the screen. */
  function Step(c: Cell, d: Direction): (r: Cell)
    ensures IsVertical(d) ==> r.x == c.x && Abs(r.y - c.y) == TileSize
    ensures !IsVertical(d) ==> r.y == c.y && Abs(r.x - c.x) == TileSize
    ensures d == Up ==> r.y < c.y
    ensures d == Down ==> r.y > c.y
    ensures d == Left ==> r.x < c.x
    ensures d == Right ==> r.x > c.x
    ensures Aligned(c) ==> Aligned(r)
  {
    match d
    case Up => Cell(c.x, c.y - TileSize)
    case Down => Cell(c.x, c.y + TileSize)
    case Left => Cell(c.x - TileSize, c.y)
    case Right => Cell(c.x + TileSize, c.y)
  }

  /** The heading after an arrow key asking for `want` is pressed while heading
      `d`: the request is ignored exactly when it would reverse the snake. */
  function Turn(d: Direction, want: Direction): (r: Direction)
    ensures r != Opposite(d)
    ensures want == Opposite(d) ==> r == d
    ensures want != Opposite(d) ==> r == want
  {
    match want
    case Left => if d != Right then Left else d
    case Right => if d != Left then Right else d
    case Up => if d != Down then Up else d
    case Down => if d != Up then Down else d
  }

  /** The guarantee against reversal holds per key press, not per tick: two
      presses between ticks can turn the snake around. */
  lemma TwoPressesCanReverse()
    ensures Turn(Turn(Right, Up), Left) == Opposite(Right)
  {
  }

  /** The first n segments described by two parallel coordinate arrays, head first. */
  function Segments(xs: seq<int>, ys: seq<int>, n: nat): (r: seq<Cell>)
    requires n <= |xs| && n <= |ys|
    ensures |r| == n
    ensures forall i {:trigger r[i]} :: 0 <= i < n ==> r[i] == Cell(xs[i], ys[i])
  {
    if n == 0 then [] else Segments(xs, ys, n - 1) + [Cell(xs[n - 1], ys[n - 1])]
  }

  /** When every live slot of a pair of arrays has moved back one place (slot j
      now holds what slot j - 1 held), the first n + 1 segments are the new head
      followed by the old n: the old tail survives in slot n, which is where the
      segment gained by eating comes from. */
  lemma SegmentsAfterShift(xs: seq<int>, ys: seq<int>, xs': seq<int>, ys': seq<int>, n: nat)
    requires n < |xs| == |xs'| && n < |ys| == |ys'|
    requires forall j :: 1 <= j <= n ==> xs'[j] == xs[j - 1] && ys'[j] == ys[j - 1]
    ensures Segments(xs', ys', n + 1) == [Cell(xs'[0], ys'[0])] + Segments(xs, ys, n)
  {
  }

  /** Fewer live segments read the same arrays: the first k segments are a
      prefix of the first n. */
  lemma SegmentsPrefix(xs: seq<int>, ys: seq<int>, k: nat, n: nat)
    requires k <= n <= |xs| && n <= |ys|
    ensures Segments(xs, ys, k) == Segments(xs, ys, n)[..k]
  {
  }

  /** The head bites the body when some segment other than the head shares its position. */
  predicate BitesItself(body: seq<Cell>)
  {
    |body| > 0 && exists i :: 1 <= i < |body| && body[i] == body[0]
  }

  /** No two segments share a position. */
  predicate Distinct(body: seq<Cell>)
  {
    forall i, j :: 0 <= i < j < |body| ==> body[i] != body[j]
  }

  /** A step keeps the segments apart: if the old body had no two segments on
      one position and the new head, followed by the first m - 1 old segments,
      does not bite itself, then no two of the new segments share a position. */
  lemma StepKeepsDistinct(h: Cell, body: seq<Cell>, m: nat)
    requires Distinct(body) && 1 <= m <= |body| + 1
    requires !BitesItself(([h] + body)[..m])
    ensures Distinct(([h] + body)[..m])
  {
  }

  /** Why a reversing key is ignored: if the head got where it is by a step in
      heading d, then a step in the opposite heading lands on the segment behind
      it, and a snake of three or more segments would bite itself at once. */
  lemma {:induction false} ReversalBitesNeck(body: seq<Cell>, d: Direction)
    requires |body| >= 3 && body[0] == Step(body[1], d)
    ensures BitesItself(([Step(body[0], Opposite(d))] + body)[..|body|])
  {
    var after := ([Step(body[0], Opposite(d))] + body)[..|body|];
    assert after[2] == body[1] == after[0];
  }
}
