# Snake game state, modelled in Dafny

This project models the game-state logic of a single-screen snake game
(`SnakeGame.java`), without its Swing user interface. A snake moves on a
25 x 25 grid of 25-pixel tiles, grows by eating food, scores 10 points per
piece, and its round ends when the head hits the body or a wall. Enter starts a
new round once the old one has ended.

The game keeps its state in instance fields, and the model does the same:

- `Snake.SnakeGame` is a class with the same fields.
  - The snake body is two `const` arrays `snakeX` and `snakeY`, each of
    capacity `Width * Height` = 625, with a live prefix of `snakeLength`
    entries. The head is at index 0.
  - The other fields are `foodX` and `foodY`, `direction`, `running` and
    `score`.
- Each operation of the game is a method that updates these fields in place,
  with the game's own loops and their invariants: `StartGame`, `PlaceFood`,
  `Move`, `CheckFood`, `CheckCollision`, the timer tick `Tick`
  (`actionPerformed`) and `KeyPressed`.
- Coordinates stay in pixels, as in the game. `Board.TileOrigin` states the
  x25 scaling of a grid cell.

The pure module `Board` holds the constants, the value types and the
functions that specify the methods:

- `Direction` replaces the game's character tags `'U'`, `'D'`, `'L'`, `'R'`.
- `Key` is an abstract key event: an arrow, Enter, or any other key.
- `Cell` is a pixel position.
- `Step` is the head movement, `Turn` is the filter against reversal, and
  `Segments` reads the two arrays as a sequence of cells.

The class invariant `Valid()` holds after the constructor and after every
method except `PlaceFood`. `PlaceFood` only writes the two food fields, and
states where it puts the food:

- both arrays have grid capacity, are distinct, and every entry is a multiple
  of a tile (the arrays start zeroed and only aligned values are ever written);
- `3 <= snakeLength <= 625`;
- `score == 10 * (snakeLength - 3)`;
- the food lies on a grid cell of the board.

`InPlay()` adds two facts that hold while a round runs: every live segment is
on the board, and no two live segments share a position. The constructor and
`StartGame` establish it, and `Tick` and `KeyPressed` preserve it. It can break
within a tick, but not after one:

- `Move` may put the head off the board or onto another segment.
- `CheckCollision` then ends the round, and `InPlay` asks nothing of a round
  that has ended.

Randomness is a parameter. Wherever the game draws a random cell for the food
(`random.nextInt(WIDTH)`, `random.nextInt(HEIGHT)`), the method takes that
draw `(cx, cy)` with `0 <= cx < 25` and `0 <= cy < 25`. `Tick` uses it only
if food is eaten.

When the arrays are full (`snakeLength == 625`), the first write in `move` is
to index 625, outside the arrays. The game then throws an
`ArrayIndexOutOfBoundsException` before it has written anything. `checkFood`
and `checkCollision` are skipped, and the round stays running with the state
unchanged. `Move` and `Tick` model this path with an `outOfBounds` result and
an unchanged state; they do not exclude it by a precondition.

The model follows the code as written, including where a reader might expect
otherwise:

- Food may be placed on the snake's body. The code never checks for this.
- An arrow key changes the heading even after the round has ended.
- The reversal check is made per key press, not per tick. Two presses between
  ticks can reverse the snake (`Board.TwoPressesCanReverse`).
- The capacity of 625 segments is real. A full snake makes the next tick fail,
  as described above.

`Scenarios` plays short rounds through the methods' contracts alone:

- food straight ahead is eaten on the first tick;
- the snake turns up and climbs;
- leaving the top edge ends the round;
- a curled snake bites itself;
- after the end, a tick changes nothing and Enter restarts the round.

## Model

| member | source | states |
|---|---|---|
| `Board.TileOrigin` | SnakeGame.java:46-49 | food cell (cx, cy) becomes pixel position (25·cx, 25·cy), which is on the board and tile-aligned, and from which cx and cy are recovered by division |
| `Board.Step` | SnakeGame.java:85-90 | the head moves exactly one tile along the axis of the heading: y for Up/Down, x for Left/Right. Up and Left decrease the coordinate; Down and Right increase it. The other coordinate is unchanged, and alignment is kept |
| `Board.ReversalBitesNeck` | SnakeGame.java:141-144 | why reversal is filtered: after a step in heading d, a step in the opposite heading lands on the neck, so a snake of three or more segments would bite itself at once |
| `Board.Turn` | SnakeGame.java:141-144 | an arrow key never yields the opposite of the current heading; the opposite key is a no-op and any other arrow sets that heading |
| `Board.TwoPressesCanReverse` | SnakeGame.java:141-144 | the no-reversal guarantee is per key press: Up then Left turns a right-heading snake around |
| `Board.Segments` | SnakeGame.java:12-14 | the first n entries of the parallel coordinate arrays, read as n cells, head first; cell i is (xs[i], ys[i]) |
| `Board.SegmentsAfterShift` | SnakeGame.java:80-83 | after every slot j in 1..n has taken slot j-1's value, the first n+1 cells are the new head followed by the old n cells, so slot n holds the old tail |
| `Board.StepKeepsDistinct` | SnakeGame.java:101-108 | if the old body has pairwise distinct segments, and the stepped head followed by the kept old segments does not bite itself, then the new body's segments are pairwise distinct as well |
| `Board.SegmentsPrefix` | SnakeGame.java:93-99 | the first k cells are a prefix of the first n: reading the arrays with the length unchanged drops the old tail, reading them with the length grown keeps it |
| `Snake.SnakeGame.constructor` | SnakeGame.java:12-30 | a new game has zeroed arrays of capacity 625 and is in the starting state of a round |
| `Snake.SnakeGame.StartGame` | SnakeGame.java:32-44 | length 3, heading Right, score 0, running, segment i at (100 - 25·i, 100) for i in 0..2, food at the drawn cell, array slots from index 3 unchanged |
| `Snake.SnakeGame.PlaceFood` | SnakeGame.java:46-49 | food is at the drawn cell, on the board and tile-aligned; nothing else changes, and the body is not avoided |
| `Snake.SnakeGame.Move` | SnakeGame.java:79-91 | with n live segments and n < 625: new slot i equals old slot i-1 for 1 <= i <= n, the head takes one step along the heading, slots past n are unchanged, and as cells the body is the new head followed by the old body with its tail dropped; with n == 625 the out-of-bounds write changes nothing |
| `Snake.SnakeGame.CheckFood` | SnakeGame.java:93-99 | if the head is on the food: length +1, score +10, food at the drawn cell; otherwise nothing changes; the heading and the running flag never change |
| `Snake.SnakeGame.CheckCollision` | SnakeGame.java:101-117 | afterwards running holds exactly when it held before, no live segment other than the head shares the head's position, and the head is on the board; nothing else changes |
| `Snake.SnakeGame.Tick` | SnakeGame.java:128-136 | when the round has ended, nothing changes. While running: the body becomes the stepped head followed by the old body; length and score grow by 1 and 10 exactly when the head reaches the food, and only then does the food move; the round ends exactly on a bite or a wall. Alignment and the score invariant are preserved. So is `InPlay`: while a round runs, the snake is on the board and its segments are pairwise distinct |
| `Snake.SnakeGame.KeyPressed` | SnakeGame.java:138-149 | an arrow sets the heading to `Turn` of the old heading and changes nothing else; Enter starts a new round only when the round has ended, and changes nothing while it runs; any other key changes nothing |
| `Scenarios.WallEndsRound` | SnakeGame.java:110-114 | a head on the top row heading up ends the round on the next tick, with length and score unchanged |
| `Scenarios.SelfCollisionEndsRound` | SnakeGame.java:102-108 | a five-segment snake whose head moves into the cell still held by its tail bites itself and ends the round. This holds whether or not the food lay on that cell: eating keeps the tail slot live |

## Left out

- Rendering is not modelled: `paintComponent`, `draw`, `gameOver`, colours,
  fonts and `repaint` (SnakeGame.java:51-77, 119-126, 135). They only read the
  state.
- The Swing `Timer` is not modelled: its creation, start and stop
  (SnakeGame.java:42-43, 116) and the `DELAY` constant. A stopped timer
  corresponds to `!running`; `Tick` changes nothing then.
- `java.util.Random` is replaced by the drawn cell `(cx, cy)`, passed as a
  parameter. Reproducibility from a seed is therefore not a property of the
  model.
- Key codes and the listener wiring are reduced to the `Key` datatype.
  `keyReleased`, `keyTyped`, the panel set-up in the constructor and `main`
  (SnakeGame.java:23-27, 151-164) are not modelled.
- How Swing handles the uncaught exception on a full board is not modelled.
  The model only records that the tick stops at the failed write, with nothing
  changed.
- Java's 32-bit `int` is modelled as an unbounded `int`. No overflow is
  possible. While a round runs, `InPlay` keeps every live coordinate on the
  board. A tick moves the head by one tile, and nothing moves once the round
  has ended. `Valid` bounds the score by 10 · 622.
- `Snake.SnakeGame.CheckFood` requires `snakeLength < 625`. The game calls it
  only after `move` has succeeded, and that success implies the bound.
- `Snake.SnakeGame.Move` computes the head step by calling `Board.Step`. The
  game uses a `switch` on the heading, and `Step` has the same four cases.
