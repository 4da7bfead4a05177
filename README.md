# Snake game engine in Dafny

A model of the game engine of a browser Snake game (`main.js`). It covers the single game state
(`STATE`), the key handler, pause, food placement, and the periodic tick (`gameLoop`).

The board is a square grid of `GRID_SIZE` = 30 cells per side, addressed by 1-indexed `(row, col)` pairs.
The snake is a sequence of cells, with the head at index 0. Each tick runs four steps in this order:

1. It eats. If the head is on the food, a segment is appended on the food's cell, new food is placed on a free cell, and the score goes up by one.
2. It moves. The body shifts from tail to head, each segment taking the cell of the one ahead of it. Then the head steps one cell in the pending direction, and that direction becomes the committed one.
3. It checks the walls. The game ends if the head's row or column is 0 or beyond `GRID_SIZE`.
4. It checks the body. The game ends if the head lies on any other segment.

Because the snake eats before it moves, it grows on the tick after the head reaches the food. The appended segment is carried onto the old tail's cell, so the new snake is the stepped head followed by the whole old snake.

Files and modules:

- `wrappers.dfy` (`Wrappers`): `Option`, for a direction that has not been chosen yet.
- `board.dfy` (`Board`):
  - cells, directions and their opposites;
  - the one-cell `Step` and the bounds test;
  - the `some`-style scan `Occurs` and `SelfCollision`;
  - the pigeonhole argument that a snake that does not fill the board leaves a free cell.
- `input.dfy` (`Input`): mapping a key to a direction, and the spacebar test.
- `engine.dfy` (`Engine`):
  - the class `Game`, whose fields are the fields of `STATE`;
  - its methods, one for each state-changing function of the source, with three exceptions:
    - `setNewDirection` (main.js:154-156) is inlined as an assignment in `HandleInput`;
    - `getPrevHighScore`, `initSnake` and `initBoard` are merged into the constructor;
    - `setCurDirection` (main.js:147-149) is never called and is not modelled;
  - the specification functions `Advance` and `NextSnake`, which say what one tick does to the snake, and the lemmas about them.

`Game.Valid()` is the invariant that every handler and every tick keeps. It says:

- the score equals the number of segments grown;
- the high score is at least the score;
- the food is on the board and off the body;
- the pending direction never reverses the committed one;
- while the game is not over, the segments are distinct cells of the board.

Behaviour of `main.js` that the model keeps as written:

- The tick eats before it moves (main.js:325-326).
- A first arrow key only sets the pending direction, which is committed at the next tick (main.js:240, 362).
- The spacebar toggles `isGameRunning` at any time, also before the start (main.js:319-321, 352-355).
- The food search never ends on a full board (main.js:177-179), so the tick requires that case away.
- The self-collision check compares only indices `> 0` (main.js:283).

## Model

| member | source | states |
|---|---|---|
| `Board.Opposite` | main.js:161-169 | no direction is its own opposite |
| `Board.OppositeIsInvolution` | main.js:161-169 | opposites pair up symmetrically, and each direction is the opposite of exactly one other |
| `Board.Step` | main.js:223-241 | the head moves exactly one cell (Manhattan distance 1); up lowers the row, down raises it, left lowers the column, right raises it |
| `Board.StepThenOpposite` | main.js:223-241 | stepping back the opposite way returns to the starting cell |
| `Board.OutOfBounds` | main.js:269-274 | a cell on the board is never out of bounds; for non-negative coordinates the test is true exactly off `[1, GRID_SIZE]²` |
| `Board.OutOfBoundsAfterStep` | main.js:268-277 | after one step from a cell on the board, the bounds test is true exactly when the head has left `[1, GRID_SIZE]²` |
| `Board.Occurs` | main.js:96-98 | the segment scan is true iff some segment is at the given cell |
| `Board.SelfCollision` | main.js:279-288 | true iff the head equals some segment at index ≥ 1; the head is never compared with itself |
| `Board.FreeCellAfterAppendingCovered` | main.js:296-310 | appending the eaten food's segment on a cell already covered leaves a free cell free |
| `Board.SnakeFitsBoard` | main.js:175-182 | a snake on distinct cells of the board has at most `GRID_SIZE²` segments; `GameLoop` uses it to show the live snake never outgrows the board |
| `Board.FreeCellExists` | main.js:175-182 | pigeonhole: distinct segments fewer than `GRID_SIZE²` leave a free cell, so the food search has a cell to find |
| `Input.DirectionFromInput` | main.js:117-126 | a key maps to a direction iff it is that direction's arrow key; every other key maps to none |
| `Input.DirectionFromArrowKey` | main.js:117-126 | each arrow key is read back as its own direction |
| `Input.IsDirectionInput` | main.js:136-138 | true iff the key is one of the four arrow keys |
| `Input.IsSpacebar` | main.js:140-142 | the spacebar maps to no direction, so the pause branch never hides a direction key |
| `Engine.Advance` | main.js:243-259 | one move keeps the length; the head is stepped; segment i ≥ 1 takes the old cell of segment i-1 |
| `Engine.NextSnake` | main.js:323-326 | one running tick (eat, then move) grows the snake by exactly one iff the head started on the food; the head steps; the new body is the old snake read from the head |
| `Engine.GrowthKeepsWholeSnake` | main.js:296-305 | after eating, the new snake is the stepped head followed by the whole old snake, so the new segment ends up on the old tail's cell |
| `Engine.NextSnakeKeepsDistinct` | main.js:279-288 | if the moved head does not hit the body, the segments stay on distinct cells |
| `Engine.NextSnakeBodyWasCovered` | main.js:243-250 | after a tick the body only covers cells the snake covered before it |
| `Engine.NextSnakeStaysOnBoard` | main.js:268-277 | if the moved head is on the board, the whole snake is |
| `Engine.FollowOneStepBehind` | main.js:243-259 | the snake [(2,2),(2,1),(1,1)] moving down becomes [(3,2),(2,2),(2,1)] |
| `Engine.LeftFromFirstColumnLeavesBoard` | main.js:231-233 | moving left from (1,1) reaches (1,0), which the bounds test catches; there is no wrap-around |
| `Engine.NextHighScore` | main.js:52-58 | the high score after a score change is the maximum of the old high score and the new score |
| `Engine.RandomGridCoord` | main.js:78-80 | a drawn coordinate lies in `[1, GRID_SIZE]` |
| `Engine.RandomBoardRowCol` | main.js:82-86 | a drawn cell lies on the board |
| `Engine.Game.constructor` | main.js:379-384 | a fresh board has the stored high score, score 0, one segment on the board, food on a different cell, and no direction |
| `Engine.Game.SetScore` | main.js:52-58 | the score becomes the given value, and the high score becomes the maximum of the old high score and that value |
| `Engine.Game.IsOccupied` | main.js:94-99 | for positive coordinates, true iff some segment is at the cell |
| `Engine.Game.IsOppositeCurDirection` | main.js:161-169 | with no committed direction nothing is rejected; otherwise exactly the opposite of the committed direction is rejected, never the committed direction itself |
| `Engine.Game.IsSnakeAtFood` | main.js:290-294 | if the head is on the food, a segment covers the food; under the invariant, the head is on the food iff any segment covers it |
| `Engine.Game.SetFoodPosition` | main.js:175-182 | the food lands on a cell of the board that no segment occupies |
| `Engine.Game.AddFoodToBoard` | main.js:184-189 | new food is placed on a free cell of the board |
| `Engine.Game.AddSnakeSegment` | main.js:206-208 | the segment is appended at the tail |
| `Engine.Game.AddFoodToSnake` | main.js:296-305 | a segment is appended on the food's cell |
| `Engine.Game.EatFood` | main.js:307-311 | the snake gains one segment on the old food cell; the new food is off every segment, including the new one; score +1; high score is the running maximum |
| `Engine.Game.TryEatFood` | main.js:313-317 | eats exactly when the head is on the food; otherwise nothing changes |
| `Engine.Game.UpdateSnakeBodyPosition` | main.js:243-250 | in-place shift: the length and the head are unchanged, and segment i ≥ 1 holds the old cell of segment i-1 |
| `Engine.Game.UpdateSnakeHeadPosition` | main.js:223-241 | the head steps in the pending direction and nothing else moves; the committed direction becomes the pending one; with no pending direction the head stays |
| `Engine.Game.UpdateSnakePosition` | main.js:252-259 | with no pending direction nothing changes; otherwise the snake is `Advance` of the old snake and the pending direction is committed |
| `Engine.Game.EndGame` | main.js:261-266 | the game is over |
| `Engine.Game.HandleOutOfBounds` | main.js:268-277 | the game is over iff it already was or the head's row or column is 0 or beyond `GRID_SIZE` |
| `Engine.Game.HandleSnakeSelfCollision` | main.js:279-288 | the game is over iff it already was or the head lies on a segment at index ≥ 1 |
| `Engine.Game.TogglePause` | main.js:319-321 | flips `isGameRunning` |
| `Engine.Game.StartGameplay` | main.js:332-337 | with a pending direction the game is started and running; without one nothing changes |
| `Engine.Game.GameLoop` | main.js:323-330 | a paused tick changes nothing; a running tick leaves the snake as `NextSnake`, commits the pending direction, is over iff the head is outside `[1, GRID_SIZE]²` or on a segment at index ≥ 1, adds exactly one point and new free food iff the head started on the food, never reverses the committed direction, keeps a live snake within `GRID_SIZE²` segments, and keeps `Valid` |
| `Engine.Game.HandleInput` | main.js:349-366 | the spacebar flips pause; non-arrow keys change nothing; the reverse of the committed direction changes nothing; any other arrow becomes the pending direction and starts the game the first time; `Valid` is kept |
| `Engine.PressSpacebarTwice` | main.js:352-355 | two presses of the spacebar leave the whole state as it was |

## Left out

- Rendering is left out: element creation, placing elements on the grid, `drawSnake`, the `--gridSize` CSS variable, and the score text updates in the setters. A segment is modelled by its cell only. The `.food` element that `addFoodToSnake` looks up is taken to be present.
- The interval timer, the `alert` and the `location.reload` of `endGame` are left out. `EndGame` sets `isGameOver` instead; in the source that assignment is commented out. `GameLoop` requires `isGameStarted && !isGameOver`, because the timer exists only between `startGameplay` and `endGame`.
- `localStorage` persistence is left out: `getPrevHighScore` and the write in the high-score setter. The stored high score is a `nat` given to the constructor. The `+value || 0` coercion of the stored text is not modelled.
- `Math.random` is left out. Each random draw is a nondeterministic choice of an integer in `[1, GRID_SIZE]`.
- Event listener registration is left out, and so is the choice between `e.key` and `dataset.key` in `handleInput`. `HandleInput` starts from the key string already obtained. The empty key is ignored, as `!input` does.
- `Engine.Game.SetFoodPosition`: the do-while rejection loop is modelled by its only possible result, some free cell of the board. It requires a free cell to exist. The repeated draws, and the endless loop on a full board, are not modelled.
- `Engine.Game.GameLoop`: it requires that the head is not on the food when the snake already fills the board. In that state the source's food search never ends.
- `Engine.Game.IsOccupied`: the `Error` value that `isOccupied` returns for a zero or missing coordinate is modelled as a precondition (positive coordinates). The precondition also excludes negative coordinates, which `!row || !col` would let through to the scan. The only call site (main.js:179) passes random draws, which are never zero or negative.
- The `console.log(input)` in `handleInput` (main.js:351) is left out. It is debug output with no effect on the game state.
- `Input.DirectionFromInput`: the direction table is taken to hold only its four keys. A lookup in a JavaScript object literal would also find inherited names such as `constructor`, but these are not key values the handler receives.
