/** Rounds played through the game's own operations, from a new game on. */
module Scenarios {
  import opened Board
  import opened Snake

  /** Food placed one tile ahead of the starting head is eaten on the first
      tick: the snake grows to four segments and the score becomes 10. */
  method GrowthOnFirstTick()
  {
    var game := new SnakeGame(5, 4);
    assert Cell(game.foodX, game.foodY) == Cell(125, 100);
    var outOfBounds := game.Tick(0, 0);
    assert !outOfBounds;
    assert game.Body() == [Cell(125, 100), Cell(100, 100), Cell(75, 100), Cell(50, 100)];
    assert game.snakeLength == 4 && game.score == 10 && game.running;
  }

  /** Turning up from the start moves the head up one tile per tick; a key
      that would reverse the snake is ignored. */
  method TurnAndClimb()
  {
    var game := new SnakeGame(0, 0);
    game.KeyPressed(Arrow(Left), 0, 0);
    assert game.direction == Right;
    game.KeyPressed(Arrow(Up), 0, 0);
    assert game.direction == Up;
    var outOfBounds := game.Tick(0, 0);
    assert game.Body() == [Cell(100, 75), Cell(100, 100), Cell(75, 100)];
    outOfBounds := game.Tick(0, 0);
    assert game.Body() == [Cell(100, 50), Cell(100, 75), Cell(100, 100)];
    assert game.running && game.snakeLength == 3 && game.score == 0;
  }

  /** A head on the top row heading up leaves the board on the next tick,
      which ends the round without growth or score. */
  method WallEndsRound(game: SnakeGame)
    requires game.Valid() && game.running && game.direction == Up
    requires game.Body() == [Cell(100, 0), Cell(100, 25), Cell(100, 50)]
    modifies game, game.snakeX, game.snakeY
    ensures game.Valid() && !game.running
    ensures game.snakeLength == 3 && game.score == old(game.score)
  {
    var outOfBounds := game.Tick(0, 0);
    assert game.Body()[0] == Cell(100, -25);
  }

  /** A five-segment snake curled so that the slot its head moves into is
      still held by its last segment bites itself: the round ends, whether or
      not the food lay on that cell. */
  method SelfCollisionEndsRound(game: SnakeGame)
    requires game.Valid() && game.running && game.direction == Down
    requires game.Body() == [Cell(50, 50), Cell(75, 50), Cell(75, 75), Cell(50, 75), Cell(25, 75)]
    modifies game, game.snakeX, game.snakeY
    ensures game.Valid() && !game.running
  {
    var outOfBounds := game.Tick(0, 0);
    assert game.Body()[0] == Cell(50, 75) == game.Body()[4];
  }

  /** Once a round has ended a tick changes nothing, arrow keys still turn the
      snake (except into reverse), and Enter starts a new round. */
  method RestartAfterEnd(game: SnakeGame)
    requires game.Valid() && !game.running
    modifies game, game.snakeX, game.snakeY
  {
    var before := game.Body();
    var outOfBounds := game.Tick(3, 3);
    assert !outOfBounds && game.Body() == before && !game.running;
    var heading := game.direction;
    game.KeyPressed(Arrow(Opposite(heading)), 0, 0);
    assert game.direction == heading;
    game.KeyPressed(Enter, 7, 9);
    assert game.running && game.snakeLength == 3 && game.direction == Right && game.score == 0;
    assert Cell(game.foodX, game.foodY) == Cell(175, 225);
    game.KeyPressed(Enter, 1, 1);
    assert Cell(game.foodX, game.foodY) == Cell(175, 225);
  }
}
