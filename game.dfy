/** The game state of the snake game and the operations the timer and the
    keyboard drive, as a class whose methods update its fields in place.
    Drawing, the Swing timer and the random source are not part of this model:
    every operation that would draw a random cell takes that cell (cx, cy) as
    parameters instead.
 */
module Snake {
  import opened Board

  class SnakeGame {
    /** The x and y coordinates of the segments, head at index 0; only the first
        snakeLength entries are live. */
    const snakeX: array<int>
    const snakeY: array<int>
    var snakeLength: int

    var foodX: int
    var foodY: int
    var direction: Direction
    var running: bool
    var score: int

    /** The storage: two distinct arrays of grid capacity whose every entry is a
        multiple of a tile (they start zeroed and only aligned values are written). */
    ghost predicate Storage()
      reads this, snakeX, snakeY
    {
      snakeX.Length == Capacity && snakeY.Length == Capacity && snakeX != snakeY &&
      (forall i :: 0 <= i < Capacity ==> snakeX[i] % TileSize == 0) &&
      (forall i :: 0 <= i < Capacity ==> snakeY[i] % TileSize == 0)
    }

    /** The invariant of a started game: storage as above, a live length between
        the starting length and the capacity, a score of one reward per segment
        grown, and the food on a grid cell of the board. */
    ghost predicate Valid()
      reads this, snakeX, snakeY
    {
      Storage() &&
      StartLength <= snakeLength <= Capacity &&
      score == Reward * (snakeLength - StartLength) &&
      OnBoard(Cell(foodX, foodY)) && Aligned(Cell(foodX, foodY))
    }

    /** The snake as a sequence of positions, head first. */
    ghost function Body(): (b: seq<Cell>)
      reads this, snakeX, snakeY
      requires Valid()
      ensures |b| == snakeLength && b[0] == Head()
    {
      Segments(snakeX[..], snakeY[..], snakeLength)
    }

    ghost function Head(): Cell
      reads this, snakeX, snakeY
      requires Valid()
    {
      Cell(snakeX[0], snakeY[0])
    }

    /** While a round is running the whole snake is on the board and no two of
        its segments share a position. */
    ghost predicate InPlay()
      reads this, snakeX, snakeY
      requires Valid()
    {
      running ==> (forall i :: 0 <= i < snakeLength ==> OnBoard(Body()[i])) && Distinct(Body())
    }

    /** The state every round starts in, for food drawn at cell (cx, cy). */
    ghost predicate NewRound(cx: int, cy: int)
      reads this, snakeX, snakeY
      requires Valid()
      requires 0 <= cx < Width && 0 <= cy < Height
    {
      snakeLength == StartLength && direction == Right && score == 0 && running &&
      Body() == [Cell(100, 100), Cell(75, 100), Cell(50, 100)] &&
      Cell(foodX, foodY) == TileOrigin(cx, cy)
    }

    /** A new game: zeroed arrays, then a first round. */
    constructor (cx: int, cy: int)
      requires 0 <= cx < Width && 0 <= cy < Height
      ensures Valid() && InPlay() && NewRound(cx, cy)
      ensures fresh(snakeX) && fresh(snakeY)
      ensures forall i :: StartLength <= i < Capacity ==> snakeX[i] == 0 && snakeY[i] == 0
    {
      snakeX := new int[Capacity](_ => 0);
      snakeY := new int[Capacity](_ => 0);
      snakeLength := 0;
      foodX, foodY := 0, 0;
      direction := Right;
      running := false;
      score := 0;
      new;
      StartGame(cx, cy);
    }

    /** Starts a round: the snake is three segments long, lying left of (100, 100)
        and heading right; the score is zero; food is placed; the round runs.
        Slots past the third are left as they were. */
    method StartGame(cx: int, cy: int)
      requires Storage()
      requires 0 <= cx < Width && 0 <= cy < Height
      modifies this, snakeX, snakeY
      ensures Valid() && InPlay() && NewRound(cx, cy)
      ensures forall i :: 0 <= i < StartLength ==> snakeX[i] == 100 - i * TileSize && snakeY[i] == 100
      ensures forall i :: StartLength <= i < Capacity ==> snakeX[i] == old(snakeX[i]) && snakeY[i] == old(snakeY[i])
    {
      snakeLength := StartLength;
      direction := Right;
      score := 0;
      var i := 0;
      while i < snakeLength
        invariant 0 <= i <= snakeLength == StartLength
        invariant direction == Right && score == 0
        invariant Storage()
        invariant forall j :: 0 <= j < i ==> snakeX[j] == 100 - j * TileSize && snakeY[j] == 100
        invariant forall j :: i <= j < Capacity ==> snakeX[j] == old(snakeX[j]) && snakeY[j] == old(snakeY[j])
      {
        snakeX[i] := 100 - i * TileSize;
        snakeY[i] := 100;
        i := i + 1;
      }
      PlaceFood(cx, cy);
      running := true;
      assert Body() == [Cell(100, 100), Cell(75, 100), Cell(50, 100)];
    }

    /** Puts the food on grid cell (cx, cy), whether or not the snake lies there;
        nothing else changes. */
    method PlaceFood(cx: int, cy: int)
      requires 0 <= cx < Width && 0 <= cy < Height
      modifies this`foodX, this`foodY
      ensures Cell(foodX, foodY) == TileOrigin(cx, cy)
      ensures OnBoard(Cell(foodX, foodY)) && Aligned(Cell(foodX, foodY))
    {
      foodX := cx * TileSize;
      foodY := cy * TileSize;
    }

    /** Shifts every segment back by one place, from the tail forward, writing the
        old tail into slot snakeLength, then steps the head one tile along
        `direction`.  When the arrays are full the first write, to index
        snakeLength, is out of bounds: the game then raises an exception before
        anything is written, reported here as `outOfBounds`. */
    method Move() returns (outOfBounds: bool)
      requires Valid()
      modifies snakeX, snakeY
      ensures Valid()
      ensures outOfBounds <==> snakeLength == Capacity
      ensures outOfBounds ==> unchanged(snakeX, snakeY)
      ensures !outOfBounds ==> Cell(snakeX[0], snakeY[0]) == Step(old(Head()), direction)
      ensures !outOfBounds ==> forall j :: 1 <= j <= snakeLength ==> snakeX[j] == old(snakeX[j - 1]) && snakeY[j] == old(snakeY[j - 1])
      ensures !outOfBounds ==> forall j :: snakeLength < j < Capacity ==> snakeX[j] == old(snakeX[j]) && snakeY[j] == old(snakeY[j])
      ensures !outOfBounds ==> Segments(snakeX[..], snakeY[..], snakeLength + 1) == [Head()] + old(Body())
      ensures !outOfBounds ==> Body() == ([Head()] + old(Body()))[..snakeLength]
    {
      if snakeLength >= snakeX.Length {
        return true;
      }
      outOfBounds := false;
      var i := snakeLength;
      while i > 0
        invariant 0 <= i <= snakeLength
        invariant Valid()
        invariant forall j :: i < j <= snakeLength ==> snakeX[j] == old(snakeX[j - 1]) && snakeY[j] == old(snakeY[j - 1])
        invariant forall j :: 0 <= j <= i ==> snakeX[j] == old(snakeX[j]) && snakeY[j] == old(snakeY[j])
        invariant forall j :: snakeLength < j < Capacity ==> snakeX[j] == old(snakeX[j]) && snakeY[j] == old(snakeY[j])
      {
        snakeX[i] := snakeX[i - 1];
        snakeY[i] := snakeY[i - 1];
        i := i - 1;
      }
      // the switch on the heading: one tile up, down, left or right
      var head := Step(Cell(snakeX[0], snakeY[0]), direction);
      snakeX[0] := head.x;
      snakeY[0] := head.y;
      SegmentsAfterShift(old(snakeX[..]), old(snakeY[..]), snakeX[..], snakeY[..], snakeLength);
      SegmentsPrefix(snakeX[..], snakeY[..], snakeLength, snakeLength + 1);
    }

    /** When the head is on the food the snake grows by one segment (the slot that
        Move filled with the old tail becomes live), the score rises by the reward
        and food is placed on cell (cx, cy); otherwise nothing changes.  It is only
        reached after Move succeeded, so the arrays are not full. */
    method CheckFood(cx: int, cy: int)
      requires Valid() && snakeLength < Capacity
      requires 0 <= cx < Width && 0 <= cy < Height
      modifies this
      ensures Valid()
      ensures var ate := old(Head() == Cell(foodX, foodY));
        snakeLength == old(snakeLength) + (if ate then 1 else 0) &&
        score == old(score) + (if ate then Reward else 0) &&
        Cell(foodX, foodY) == (if ate then TileOrigin(cx, cy) else old(Cell(foodX, foodY)))
      ensures direction == old(direction) && running == old(running)
    {
      if snakeX[0] == foodX && snakeY[0] == foodY {
        snakeLength := snakeLength + 1;
        score := score + Reward;
        PlaceFood(cx, cy);
      }
    }

    /** Ends the round when the head lies on another live segment or off the
        board.  It never restarts a round and changes nothing else. */
    method CheckCollision()
      requires Valid()
      modifies this`running
      ensures Valid()
      ensures running == (old(running) && !BitesItself(Body()) && OnBoard(Head()))
    {
      var i := 1;
      while i < snakeLength
        invariant 1 <= i <= snakeLength
        invariant running == old(running)
        invariant forall j :: 1 <= j < i ==> Body()[j] != Head()
      {
        if snakeX[0] == snakeX[i] && snakeY[0] == snakeY[i] {
          running := false;
          assert Body()[i] == Body()[0];
          break;
        }
        i := i + 1;
      }
      if snakeX[0] < 0 || snakeX[0] >= Width * TileSize ||
         snakeY[0] < 0 || snakeY[0] >= Height * TileSize {
        running := false;
      }
    }

    /** One timer tick.  While the round runs: move, eat, check for collisions,
        with (cx, cy) the cell food moves to if it is eaten.  After the round has
        ended nothing changes.  `outOfBounds` reports the exception Move raises
        on full arrays, which leaves the state as it was. */
    method Tick(cx: int, cy: int) returns (outOfBounds: bool)
      requires Valid()
      requires 0 <= cx < Width && 0 <= cy < Height
      modifies this, snakeX, snakeY
      ensures Valid()
      ensures old(InPlay()) ==> InPlay()
      ensures outOfBounds <==> old(running) && old(snakeLength) == Capacity
      ensures !old(running) || outOfBounds ==> unchanged(this, snakeX, snakeY)
      ensures old(running) && !outOfBounds ==>
        var h := Step(old(Head()), old(direction));
        var ate := h == old(Cell(foodX, foodY));
        snakeLength == old(snakeLength) + (if ate then 1 else 0) &&
        Body() == ([h] + old(Body()))[..snakeLength] &&
        score == old(score) + (if ate then Reward else 0) &&
        Cell(foodX, foodY) == (if ate then TileOrigin(cx, cy) else old(Cell(foodX, foodY))) &&
        direction == old(direction) &&
        running == (!BitesItself(Body()) && OnBoard(h))
    {
      outOfBounds := false;
      if running {
        outOfBounds := Move();
        if !outOfBounds {
          ghost var grown := Segments(snakeX[..], snakeY[..], snakeLength + 1);
          CheckFood(cx, cy);
          assert Body() == grown[..snakeLength];
          CheckCollision();
          if running && old(InPlay()) {
            StepKeepsDistinct(Head(), old(Body()), snakeLength);
          }
        }
      }
    }

    /** A key press.  An arrow key turns the snake unless that would reverse it,
        whether or not a round is running; Enter starts a new round (with food at
        (cx, cy)) only after the round has ended; any other key does nothing. */
    method KeyPressed(k: Key, cx: int, cy: int)
      requires Valid()
      requires 0 <= cx < Width && 0 <= cy < Height
      modifies this, snakeX, snakeY
      ensures Valid()
      ensures old(InPlay()) ==> InPlay()
      ensures k.Arrow? ==>
        direction == Turn(old(direction), k.heading) &&
        unchanged(snakeX, snakeY) && snakeLength == old(snakeLength) && Body() == old(Body()) &&
        foodX == old(foodX) && foodY == old(foodY) &&
        running == old(running) && score == old(score)
      ensures k.Enter? && !old(running) ==> NewRound(cx, cy)
      ensures k.Enter? && !old(running) ==>
        forall i :: StartLength <= i < Capacity ==> snakeX[i] == old(snakeX[i]) && snakeY[i] == old(snakeY[i])
      ensures (k.Enter? && old(running)) || k.Other? ==> unchanged(this, snakeX, snakeY)
    {
      match k
      case Arrow(want) =>
        direction := Turn(direction, want);
        assert Body() == old(Body());
      case Enter =>
        if !running {
          StartGame(cx, cy);
        }
      case Other =>
    }
  }
}
