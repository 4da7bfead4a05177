/**
 * One session of the Snake game: the mutable game state, the key handler
 * that buffers the next direction, food placement, and the periodic tick
 * that eats, moves, and checks the head against the walls and the body.
 */
module Engine {
  import opened Wrappers
  import opened Board
  import opened Input

  /**
   * The snake after one move in direction `d`: every segment behind the head
   * takes the cell of the segment ahead of it, and the head steps one cell.
   */
  function Advance(s: seq<Position>, d: Direction): (t: seq<Position>)
    requires |s| > 0
    ensures |t| == |s|
    ensures t[0] == Step(s[0], d)
    ensures forall i :: 1 <= i < |t| ==> t[i] == s[i - 1]
  {
    [Step(s[0], d)] + s[..|s| - 1]
  }

  /**
   * The snake after one running tick, which eats before it moves: if the head
   * sits on the food, a segment is appended on the food's cell, and the
   * following move carries it onto the old tail's cell. So the length grows by
   * exactly one when the head started on the food, and in every case the new
   * body is the old snake read from its head.
   */
  function NextSnake(s: seq<Position>, food: Position, d: Direction): (t: seq<Position>)
    requires |s| > 0
    ensures |t| == |s| + (if s[0] == food then 1 else 0)
    ensures t[0] == Step(s[0], d)
    ensures forall i :: 1 <= i < |t| ==> t[i] == s[i - 1]
  {
    Advance(if s[0] == food then s + [food] else s, d)
  }

  /** When the snake grows, the old tail stays where it was: the new segment ends up behind it. */
  lemma GrowthKeepsWholeSnake(s: seq<Position>, food: Position, d: Direction)
    requires |s| > 0 && s[0] == food
    ensures NextSnake(s, food, d) == [Step(s[0], d)] + s
  {
    var t := NextSnake(s, food, d);
    assert forall i :: 0 <= i < |t| ==> t[i] == ([Step(s[0], d)] + s)[i];
  }

  /** A move whose head does not land on the body keeps the segments on distinct cells. */
  lemma NextSnakeKeepsDistinct(s: seq<Position>, food: Position, d: Direction)
    requires |s| > 0 && Distinct(s)
    requires !SelfCollision(NextSnake(s, food, d))
    ensures Distinct(NextSnake(s, food, d))
  {
    var t := NextSnake(s, food, d);
    forall i, j | 0 <= i < j < |t|
      ensures t[i] != t[j]
    {
      if i > 0 {
        assert t[i] == s[i - 1] && t[j] == s[j - 1];
      }
    }
  }

  /** The body only covers cells the snake covered before the tick. */
  lemma NextSnakeBodyWasCovered(s: seq<Position>, food: Position, d: Direction, p: Position)
    requires |s| > 0 && !Occurs(s, p)
    ensures !Occurs(NextSnake(s, food, d)[1..], p)
  {
    var t := NextSnake(s, food, d);
    forall i | 0 <= i < |t[1..]|
      ensures t[1..][i] != p
    {
      assert t[1..][i] == t[i + 1] == s[i];
    }
  }

  /** A move whose head stays on the board keeps the whole snake on the board. */
  lemma NextSnakeStaysOnBoard(s: seq<Position>, food: Position, d: Direction)
    requires |s| > 0 && AllInBounds(s)
    requires InBounds(Step(s[0], d))
    ensures AllInBounds(NextSnake(s, food, d))
  {
  }

  /** A three-segment snake moving Down, food elsewhere: the body follows the head one step behind. */
  lemma FollowOneStepBehind()
    ensures NextSnake([Position(2, 2), Position(2, 1), Position(1, 1)], Position(5, 5), Down)
         == [Position(3, 2), Position(2, 2), Position(2, 1)]
  {
  }

  /** Moving Left from column 1 reaches column 0, which the bounds test catches: there is no wrap-around. */
  lemma LeftFromFirstColumnLeavesBoard()
    ensures Step(Position(1, 1), Left) == Position(1, 0) && OutOfBounds(Position(1, 0))
  {
  }

  /** The high score after the score becomes `newScore`: the running maximum. */
  function NextHighScore(highScore: int, newScore: int): (h: int)
    ensures h >= highScore && h >= newScore
    ensures h == highScore || h == newScore
  {
    if newScore > highScore then newScore else highScore
  }

  /** A uniformly drawn coordinate in [1, GRID_SIZE] (getRandomGridCoord); the draw is left open. */
  method RandomGridCoord() returns (c: int)
    ensures 1 <= c <= GRID_SIZE
  {
    c :| 1 <= c <= GRID_SIZE;
  }

  /** A random cell of the board (getRandomBoardRowCol): the column is drawn first, then the row. */
  method RandomBoardRowCol() returns (p: Position)
    ensures InBounds(p)
  {
    var col := RandomGridCoord();
    var row := RandomGridCoord();
    p := Position(row, col);
  }

  /** The game state (STATE). The snake's head is segment 0 and its tail the last segment. */
  class Game {
    var snake: seq<Position>
    var foodPosition: Position
    /** The direction the head last moved in; None until the first tick. */
    var curDirection: Option<Direction>
    /** The direction the next tick moves the head in; None until the first arrow key. */
    var newDirection: Option<Direction>
    var isGameStarted: bool
    var isGameRunning: bool
    var isGameOver: bool
    var score: int
    var highScore: int

    /**
     * What every handler and tick keeps: one point per segment grown, a high
     * score at least the score, food on the board and off the body, a pending
     * direction that never reverses the current one, and, until the game is
     * over, a snake on distinct cells of the board.
     */
    ghost predicate Valid()
      reads this
    {
      |snake| > 0 &&
      score == |snake| - 1 && score <= highScore &&
      InBounds(foodPosition) && !Occurs(snake[1..], foodPosition) &&
      (isGameStarted ==> newDirection.Some?) &&
      (curDirection.Some? ==> newDirection.Some? && newDirection.value != Opposite(curDirection.value)) &&
      (!isGameOver ==> Distinct(snake) && AllInBounds(snake))
    }

    /**
     * A fresh board (initBoard): the stored high score, a one-segment snake
     * on a random cell, and food on another random cell.
     */
    constructor (storedHighScore: nat)
      ensures Valid()
      ensures |snake| == 1 && InBounds(snake[0]) && foodPosition != snake[0]
      ensures curDirection == None && newDirection == None
      ensures !isGameStarted && !isGameRunning && !isGameOver
      ensures score == 0 && highScore == storedHighScore
    {
      isGameStarted, isGameRunning, isGameOver := false, false, false;
      curDirection, newDirection := None, None;
      score, highScore := 0, storedHighScore;
      var head := RandomBoardRowCol();
      snake := [head];
      // The food has no cell until it is placed below.
      foodPosition := head;
      new;
      FreeCellExists(snake);
      SetFoodPosition();
    }

    /** The score setter: it also raises the high score when the new score beats it. */
    method SetScore(newScore: int)
      modifies this`score, this`highScore
      ensures score == newScore
      ensures highScore == NextHighScore(old(highScore), newScore)
    {
      score := newScore;
      if newScore > highScore {
        highScore := newScore;
      }
    }

    /**
     * Whether a segment lies on `p`. The source returns an error for a zero or
     * missing coordinate; the precondition asks for positive coordinates.
     */
    function IsOccupied(p: Position): (r: bool)
      reads this
      requires p.row >= 1 && p.col >= 1
      ensures r <==> exists i :: 0 <= i < |snake| && snake[i] == p
    {
      Occurs(snake, p)
    }

    /** Whether `d` reverses the committed direction; with none committed, nothing is a reversal. */
    function IsOppositeCurDirection(d: Direction): (r: bool)
      reads this
      ensures curDirection.None? ==> !r
      ensures curDirection.Some? ==> (r <==> Opposite(d) == curDirection.value)
      ensures r ==> d != curDirection.value
    {
      OppositeIsInvolution(d);
      curDirection.Some? && d == Opposite(curDirection.value)
    }

    /** Whether the head is on the food; under the invariant, that is whether any segment covers the food. */
    predicate IsSnakeAtFood(): (r: bool)
      reads this
      requires |snake| > 0
      ensures r ==> Occurs(snake, foodPosition)
      ensures Valid() ==> (r <==> Occurs(snake, foodPosition))
    {
      assert forall i :: 1 <= i < |snake| ==> snake[i] == snake[1..][i - 1];
      snake[0] == foodPosition
    }

    /**
     * Food placement (setFoodPosition): the source redraws random cells until
     * one is free, so it can only finish on a free cell of the board; any such
     * cell may come out.
     */
    method SetFoodPosition()
      requires HasFreeCell(snake)
      modifies this`foodPosition
      ensures InBounds(foodPosition) && !Occurs(snake, foodPosition)
    {
      ghost var free :| InBounds(free) && !Occurs(snake, free);
      var row: int, col: int :| 1 <= row <= GRID_SIZE && 1 <= col <= GRID_SIZE && !IsOccupied(Position(row, col));
      assert IsOccupied(Position(row, col)) == Occurs(snake, Position(row, col));
      foodPosition := Position(row, col);
    }

    method AddFoodToBoard()
      requires HasFreeCell(snake)
      modifies this`foodPosition
      ensures InBounds(foodPosition) && !Occurs(snake, foodPosition)
    {
      SetFoodPosition();
    }

    method AddSnakeSegment(segment: Position)
      modifies this`snake
      ensures snake == old(snake) + [segment]
    {
      snake := snake + [segment];
    }

    /** The food marker becomes the new tail segment, on the food's cell. */
    method AddFoodToSnake()
      modifies this`snake
      ensures snake == old(snake) + [foodPosition]
    {
      AddSnakeSegment(foodPosition);
    }

    method EatFood()
      requires HasFreeCell(snake + [foodPosition])
      modifies this`snake, this`foodPosition, this`score, this`highScore
      ensures snake == old(snake) + [old(foodPosition)]
      ensures InBounds(foodPosition) && !Occurs(snake, foodPosition)
      ensures score == old(score) + 1
      ensures highScore == NextHighScore(old(highScore), old(score) + 1)
    {
      AddFoodToSnake();
      AddFoodToBoard();
      SetScore(score + 1);
    }

    method TryEatFood()
      requires |snake| > 0
      requires IsSnakeAtFood() ==> HasFreeCell(snake + [foodPosition])
      modifies this`snake, this`foodPosition, this`score, this`highScore
      ensures old(IsSnakeAtFood()) ==>
        snake == old(snake) + [old(foodPosition)] &&
        InBounds(foodPosition) && !Occurs(snake, foodPosition) &&
        score == old(score) + 1 &&
        highScore == NextHighScore(old(highScore), old(score) + 1)
      ensures !old(IsSnakeAtFood()) ==> unchanged(this)
    {
      if IsSnakeAtFood() {
        EatFood();
      }
    }

    /**
     * The body shift (updateSnakeBodyPosition): from the tail towards the
     * head, each segment takes the cell of the one ahead of it; the head stays.
     */
    method UpdateSnakeBodyPosition()
      modifies this`snake
      ensures |snake| == |old(snake)|
      ensures |snake| > 0 ==> snake[0] == old(snake[0])
      ensures forall i :: 1 <= i < |snake| ==> snake[i] == old(snake[i - 1])
    {
      var i := |snake| - 1;
      while i > 0
        invariant |snake| == |old(snake)|
        invariant -1 <= i < |snake|
        invariant i == -1 ==> |snake| == 0
        invariant forall k :: 0 <= k <= i ==> snake[k] == old(snake[k])
        invariant forall k :: i < k < |snake| ==> snake[k] == old(snake[k - 1])
      {
        snake := snake[i := snake[i - 1]];
        i := i - 1;
      }
    }

    /** The head steps one cell in the pending direction, which then becomes the committed one. */
    method UpdateSnakeHeadPosition()
      requires |snake| > 0
      modifies this`snake, this`curDirection
      ensures curDirection == newDirection
      ensures newDirection.None? ==> snake == old(snake)
      ensures newDirection.Some? ==> snake == old(snake)[0 := Step(old(snake[0]), newDirection.value)]
    {
      var head := snake[0];
      match newDirection {
        case Some(Up) => snake := snake[0 := Position(head.row - 1, head.col)];
        case Some(Down) => snake := snake[0 := Position(head.row + 1, head.col)];
        case Some(Left) => snake := snake[0 := Position(head.row, head.col - 1)];
        case Some(Right) => snake := snake[0 := Position(head.row, head.col + 1)];
        case None =>
      }
      curDirection := newDirection;
    }

    /** The move of one tick; without a pending direction nothing moves. */
    method UpdateSnakePosition()
      requires |snake| > 0
      modifies this`snake, this`curDirection
      ensures newDirection.None? ==> snake == old(snake) && curDirection == old(curDirection)
      ensures newDirection.Some? ==>
        snake == Advance(old(snake), newDirection.value) && curDirection == newDirection
    {
      if newDirection.None? {
        return;
      }
      if |snake| > 1 {
        UpdateSnakeBodyPosition();
      }
      UpdateSnakeHeadPosition();
      assert |snake| == |old(snake)|;
    }

    /** The end of the session (endGame); the timer, the alert and the reload are not modelled. */
    method EndGame()
      modifies this`isGameOver
      ensures isGameOver
    {
      isGameOver := true;
    }

    method HandleOutOfBounds()
      requires |snake| > 0
      modifies this`isGameOver
      ensures isGameOver == (old(isGameOver) || OutOfBounds(snake[0]))
    {
      if snake[0].row == 0 || snake[0].col == 0 || snake[0].row > GRID_SIZE || snake[0].col > GRID_SIZE {
        EndGame();
      }
    }

    method HandleSnakeSelfCollision()
      requires |snake| > 0
      modifies this`isGameOver
      ensures isGameOver == (old(isGameOver) || SelfCollision(snake))
    {
      if SelfCollision(snake) {
        EndGame();
      }
    }

    method TogglePause()
      modifies this`isGameRunning
      ensures isGameRunning == !old(isGameRunning)
    {
      isGameRunning := !isGameRunning;
    }

    /** Starts the session once a direction is pending; the interval timer is not modelled. */
    method StartGameplay()
      modifies this`isGameStarted, this`isGameRunning
      ensures newDirection.None? ==> unchanged(this)
      ensures newDirection.Some? ==> isGameStarted && isGameRunning
    {
      if newDirection.None? {
        return;
      }
      isGameStarted := true;
      isGameRunning := true;
    }

    /**
     * One tick of the game (gameLoop), in the source's order: eat, move, check
     * the walls, check the body. It only fires between the start of the session
     * and its end, and the head may only sit on the food with a free cell left
     * for the next food (on a full board the source's food search never ends).
     * By SnakeFitsBoard a live snake never has more than GRID_SIZE * GRID_SIZE
     * segments, so the second precondition only excludes the snake that already
     * covers every cell.
     */
    method GameLoop()
      requires Valid() && isGameStarted && !isGameOver
      requires IsSnakeAtFood() ==> |snake| < GRID_SIZE * GRID_SIZE
      modifies this
      ensures Valid()
      ensures !old(isGameRunning) ==> unchanged(this)
      ensures old(isGameRunning) ==>
        snake == NextSnake(old(snake), old(foodPosition), old(newDirection).value)
      ensures old(isGameRunning) ==>
        (isGameOver <==> OutOfBounds(snake[0]) || SelfCollision(snake)) &&
        (isGameOver <==> !InBounds(snake[0]) || SelfCollision(snake))
      ensures old(isGameRunning) ==>
        curDirection == old(newDirection) && newDirection == old(newDirection) &&
        isGameStarted && isGameRunning
      ensures old(isGameRunning) && old(IsSnakeAtFood()) ==>
        score == old(score) + 1 &&
        highScore == NextHighScore(old(highScore), score) &&
        InBounds(foodPosition) && !Occurs(old(snake), foodPosition)
      ensures old(isGameRunning) && !old(IsSnakeAtFood()) ==>
        score == old(score) && highScore == old(highScore) && foodPosition == old(foodPosition)
      ensures old(curDirection).Some? ==> curDirection.value != Opposite(old(curDirection).value)
      ensures !isGameOver ==> |snake| <= GRID_SIZE * GRID_SIZE
    {
      if !isGameRunning {
        SnakeFitsBoard(snake);
        return;
      }
      ghost var s0, f0, d := snake, foodPosition, newDirection.value;
      ghost var ate := IsSnakeAtFood();
      if ate {
        FreeCellExists(snake);
        FreeCellAfterAppendingCovered(snake, foodPosition);
      }
      TryEatFood();
      UpdateSnakePosition();
      HandleOutOfBounds();
      HandleSnakeSelfCollision();

      assert snake == NextSnake(s0, f0, d);
      if ate {
        NextSnakeBodyWasCovered(s0, f0, d, foodPosition);
      } else {
        NextSnakeBodyWasCovered(s0, f0, d, f0);
      }
      OppositeIsInvolution(d);
      OutOfBoundsAfterStep(s0[0], d);
      if !isGameOver {
        NextSnakeKeepsDistinct(s0, f0, d);
        NextSnakeStaysOnBoard(s0, f0, d);
        SnakeFitsBoard(snake);
      }
    }

    /**
     * The key handler (handleInput, from the key it obtained on): the
     * spacebar toggles pause; a key other than an arrow is ignored; an arrow
     * that reverses the committed direction is refused; any other arrow
     * becomes the pending direction and, the first time, starts the session.
     */
    method HandleInput(key: string)
      requires Valid()
      modifies this`newDirection, this`isGameStarted, this`isGameRunning
      ensures Valid()
      ensures IsSpacebar(key) ==>
        isGameRunning == !old(isGameRunning) &&
        newDirection == old(newDirection) && isGameStarted == old(isGameStarted)
      ensures !IsSpacebar(key) && !IsDirectionInput(key) ==> unchanged(this)
      ensures IsDirectionInput(key) && IsOppositeCurDirection(DirectionFromInput(key).value) ==>
        unchanged(this)
      ensures IsDirectionInput(key) && !IsOppositeCurDirection(DirectionFromInput(key).value) ==>
        newDirection == DirectionFromInput(key) && isGameStarted &&
        isGameRunning == (old(isGameStarted) ==> old(isGameRunning))
    {
      if key == "" {
        return;
      }
      if IsSpacebar(key) {
        TogglePause();
        return;
      }
      if !IsDirectionInput(key) {
        return;
      }
      var direction := DirectionFromInput(key).value;
      if IsOppositeCurDirection(direction) {
        return;
      }
      newDirection := Some(direction);
      if !isGameStarted {
        StartGameplay();
      }
    }
  }

  /** Pressing the spacebar twice leaves the whole game state as it was. */
  method PressSpacebarTwice(g: Game)
    requires g.Valid()
    modifies g
    ensures g.Valid() && unchanged(g)
  {
    g.HandleInput(" ");
    g.HandleInput(" ");
  }
}
