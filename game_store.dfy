/**
 * The game engine: one store object holding the snake, the food, the
 * committed and pending directions, score, high score, status and speed,
 * with the actions that update them.
 */
module GameStore {
  import opened GameUtils

  datatype GameStatus = Idle | Playing | Paused | GameOver

  /** Milliseconds between moves at the start of a game. */
  const INITIAL_SPEED: int := 150
  /** Milliseconds taken off the interval per food eaten. */
  const SPEED_INCREMENT: int := 5
  /** The shortest interval (fastest game). */
  const MIN_SPEED: int := 80

  /** `Math.max` on integers. */
  function Max(a: int, b: int): (r: int)
    ensures r >= a && r >= b && (r == a || r == b)
  {
    if a >= b then a else b
  }

  /** The interval a game has reached after `score` foods: the closed form of repeated speed-ups. */
  function SpeedForScore(score: nat): (r: int)
    ensures MIN_SPEED <= r <= INITIAL_SPEED
  {
    Max(MIN_SPEED, INITIAL_SPEED - SPEED_INCREMENT * score)
  }

  /** One speed-up, as `increaseScore` computes it, from a given interval. */
  function SpeedUp(speed: int): (r: int)
    ensures r >= MIN_SPEED
    ensures speed >= MIN_SPEED ==> r <= speed
    ensures speed > MIN_SPEED ==> r < speed
  {
    Max(MIN_SPEED, speed - SPEED_INCREMENT)
  }

  /** Applying `SpeedUp` n times from the initial interval. */
  function SpeedAfter(n: nat): int {
    if n == 0 then INITIAL_SPEED else SpeedUp(SpeedAfter(n - 1))
  }

  lemma {:induction false} SpeedAfterClosedForm(n: nat)
    ensures SpeedAfter(n) == SpeedForScore(n)
  {
    if n > 0 {
      SpeedAfterClosedForm(n - 1);
    }
  }

  /** Consecutive segments are one cell apart. */
  predicate Connected(s: seq<Position>) {
    forall i :: 0 <= i < |s| - 1 ==> Adjacent(s[i], s[i + 1])
  }

  /** No segment sits on the one two places behind it: the body never doubled back. */
  predicate NoUTurn(s: seq<Position>) {
    forall i :: 0 <= i < |s| - 2 ==> s[i] != s[i + 2]
  }

  /** The shape every snake of the game has: the head is one step from the neck in direction `d`. */
  predicate Shaped(s: seq<Position>, d: Direction) {
    |s| >= 3 && Connected(s) && NoUTurn(s) && s[0] == GetNextPosition(s[1], d)
  }

  lemma InitialSnakeShaped()
    ensures Shaped(INITIAL_SNAKE, INITIAL_DIRECTION)
  {
  }

  /** One move: a new head in direction `d`, keeping the tail when growing and dropping it otherwise. */
  function Slither(snake: seq<Position>, d: Direction, grow: bool): (r: seq<Position>)
    requires |snake| > 0
    ensures |r| == if grow then |snake| + 1 else |snake|
    ensures r[0] == GetNextPosition(snake[0], d)
    ensures r[1..] <= snake
  {
    var newHead := GetNextPosition(snake[0], d);
    if grow then [newHead] + snake else [newHead] + snake[..|snake| - 1]
  }

  /** A new head in a direction that is not the reversal of the last one never lands on the neck. */
  lemma NoReversalIntoNeck(s: seq<Position>, d: Direction, next: Direction)
    requires |s| >= 2 && s[0] == GetNextPosition(s[1], d)
    requires IsValidDirection(d, next)
    ensures GetNextPosition(s[0], next) != s[1]
  {
    if GetNextPosition(s[0], next) == s[1] {
      NextPositionUndo(s[1], d, next);
      assert false;
    }
  }

  /** Every move allowed by the anti-reversal rule keeps the snake's shape. */
  lemma {:induction false} SlitherKeepsShape(s: seq<Position>, d: Direction, next: Direction, grow: bool)
    requires Shaped(s, d) && IsValidDirection(d, next)
    ensures Shaped(Slither(s, next, grow), next)
  {
    var r := Slither(s, next, grow);
    NoReversalIntoNeck(s, d, next);
    assert r[1] == s[0];
    forall i | 0 <= i < |r| - 1
      ensures Adjacent(r[i], r[i + 1])
    {
      if i > 0 {
        assert r[i] == s[i - 1] && r[i + 1] == s[i];
      }
    }
    forall i | 0 <= i < |r| - 2
      ensures r[i] != r[i + 2]
    {
      if i > 0 {
        assert r[i] == s[i - 1] && r[i + 2] == s[i + 1];
      }
    }
  }

  function Parity(p: Position): int {
    (p.x + p.y) % 2
  }

  lemma AdjacentFlipsParity(a: Position, b: Position)
    requires Adjacent(a, b)
    ensures Parity(b) == (Parity(a) + 1) % 2
  {
  }

  lemma {:induction false} ParityAlongSnake(s: seq<Position>, i: nat)
    requires Connected(s) && i < |s|
    ensures Parity(s[i]) == (Parity(s[0]) + i) % 2
  {
    if i > 0 {
      ParityAlongSnake(s, i - 1);
      AdjacentFlipsParity(s[i - 1], s[i]);
    }
  }

  /**
   * The head can only meet a segment an even number of places behind it,
   * and not the one two places behind, so a real self-intersection needs
   * at least five segments.
   */
  lemma HeadMeetsOnlyFarSegments(s: seq<Position>, i: nat)
    requires Connected(s) && NoUTurn(s)
    requires 1 <= i < |s| && s[i] == s[0]
    ensures i >= 4
  {
    ParityAlongSnake(s, i);
    assert i % 2 == 0;
  }

  /**
   * The length-below-four shortcut of `CheckSelfCollision` never hides a
   * real collision: on every snake of the game it holds exactly when the
   * head lies on the body.
   */
  lemma SelfCollisionShortcutSound(s: seq<Position>)
    requires |s| > 0 && Connected(s) && NoUTurn(s)
    ensures CheckSelfCollision(s) <==> s[0] in s[1..]
  {
    if s[0] in s[1..] {
      var j :| 0 <= j < |s| - 1 && s[1..][j] == s[0];
      HeadMeetsOnlyFarSegments(s, j + 1);
      assert s[j + 1] == s[0];
    }
    if CheckSelfCollision(s) {
      var i :| 1 <= i < |s| && s[i] == s[0];
      assert s[1..][i - 1] == s[0];
    }
  }

  /** Moves that never eat, one per direction in `dirs`. */
  function Glide(s: seq<Position>, dirs: seq<Direction>): seq<Position>
    requires |s| > 0
    decreases |dirs|
  {
    if dirs == [] then s else Glide(Slither(s, dirs[0], false), dirs[1..])
  }

  /** Any number of moves without food leaves the length unchanged. */
  lemma {:induction false} GlideKeepsLength(s: seq<Position>, dirs: seq<Direction>)
    requires |s| > 0
    ensures |Glide(s, dirs)| == |s|
    decreases |dirs|
  {
    if dirs != [] {
      GlideKeepsLength(Slither(s, dirs[0], false), dirs[1..]);
    }
  }

  class Game {
    var snake: seq<Position>
    var food: Cell
    var direction: Direction
    var nextDirection: Direction
    var score: int
    var highScore: int
    var gameStatus: GameStatus
    var speed: int

    /** The body and the directions: the snake's shape and the anti-reversal invariant. */
    predicate BodyValid()
      reads this`snake, this`direction, this`nextDirection
    {
      Shaped(snake, direction) && IsValidDirection(direction, nextDirection)
    }

    /** Score bookkeeping: the high score covers the score, and the speed follows the score. */
    predicate ScoreValid()
      reads this`score, this`highScore, this`speed
    {
      0 <= score <= highScore && speed == SpeedForScore(score)
    }

    predicate Valid()
      reads this
    {
      BodyValid() && ScoreValid()
    }

    /** The store's initial state; `persistedHighScore` is what the persistence layer restored (0 when absent). */
    constructor (persistedHighScore: nat, draws: seq<Cell>)
      requires HasFreeDraw(draws, INITIAL_SNAKE)
      ensures Valid()
      ensures snake == INITIAL_SNAKE && food !in INITIAL_SNAKE
      ensures food == draws[FirstFreeDraw(draws, INITIAL_SNAKE)]
      ensures direction == INITIAL_DIRECTION && nextDirection == INITIAL_DIRECTION
      ensures score == 0 && highScore == persistedHighScore
      ensures gameStatus == Idle && speed == INITIAL_SPEED
    {
      var initialFood := GameUtils.GenerateFood(INITIAL_SNAKE, draws);
      snake := INITIAL_SNAKE;
      food := initialFood;
      direction := INITIAL_DIRECTION;
      nextDirection := INITIAL_DIRECTION;
      score := 0;
      highScore := persistedHighScore;
      gameStatus := Idle;
      speed := INITIAL_SPEED;
      InitialSnakeShaped();
    }

    /** Whether the next move lands on the food. */
    function WillEat(): (r: bool)
      reads this
      requires |snake| > 0
      ensures r <==> GetNextPosition(snake[0], nextDirection) == food
    {
      CheckFoodCollision([GetNextPosition(snake[0], nextDirection)], food)
    }

    /** Wall or self collision of the current head. */
    function CheckCollision(): (r: bool)
      reads this
      requires |snake| > 0
      ensures r <==> !InGrid(snake[0]) || (|snake| >= 4 && snake[0] in snake[1..])
    {
      var head := snake[0];
      assert |snake| >= 4 ==> ((exists i :: 1 <= i < |snake| && snake[i] == snake[0]) <==> snake[0] in snake[1..]) by {
        if |snake| >= 4 && snake[0] in snake[1..] {
          var j :| 0 <= j < |snake| - 1 && snake[1..][j] == snake[0];
          assert snake[j + 1] == snake[0];
        }
      }
      CheckWallCollision(head) || CheckSelfCollision(snake)
    }

    /** On every state of the game, the collision check is exactly "head off the board or on the body". */
    lemma CollisionExact()
      requires Valid()
      ensures CheckCollision() <==> !InGrid(snake[0]) || snake[0] in snake[1..]
    {
      SelfCollisionShortcutSound(snake);
    }

    /** Score one food: score + 1, high score raised to it if needed, interval shortened down to the floor. */
    method IncreaseScore()
      requires ScoreValid()
      modifies this`score, this`highScore, this`speed
      ensures ScoreValid()
      ensures score == old(score) + 1
      ensures highScore == Max(old(highScore), old(score) + 1)
      ensures speed == SpeedUp(old(speed))
      ensures highScore >= old(highScore) && MIN_SPEED <= speed <= old(speed)
    {
      var newScore := score + 1;
      var newHighScore := Max(highScore, newScore);
      var newSpeed := Max(MIN_SPEED, speed - SPEED_INCREMENT);
      score, highScore, speed := newScore, newHighScore, newSpeed;
    }

    /** Place food by rejection sampling against the current snake. */
    method GenerateFood(draws: seq<Cell>)
      requires HasFreeDraw(draws, snake)
      modifies this`food
      ensures food !in snake
      ensures food == draws[FirstFreeDraw(draws, snake)]
    {
      var newFood := GameUtils.GenerateFood(snake, draws);
      food := newFood;
    }

    /**
     * One tick: commit the pending direction, move one cell, grow and
     * re-place food when the new head is on the food (the food is placed
     * against the snake as it was before the move), then end the game on a
     * wall or self collision. The status is not consulted.
     */
    method MoveSnake(draws: seq<Cell>)
      requires Valid()
      requires WillEat() ==> HasFreeDraw(draws, snake)
      modifies this`snake, this`food, this`direction, this`score, this`highScore, this`speed, this`gameStatus
      ensures Valid()
      ensures direction == old(nextDirection) && nextDirection == old(nextDirection)
      ensures var ate := GetNextPosition(old(snake)[0], old(nextDirection)) == old(food);
        && snake == Slither(old(snake), old(nextDirection), ate)
        && (ate ==> score == old(score) + 1
                    && highScore == Max(old(highScore), old(score) + 1)
                    && speed == SpeedUp(old(speed))
                    && food == draws[FirstFreeDraw(draws, old(snake))]
                    && forall i :: 1 <= i < |snake| ==> snake[i] != food)
        && (!ate ==> score == old(score) && highScore == old(highScore)
                     && speed == old(speed) && food == old(food))
      ensures gameStatus == if !InGrid(snake[0]) || snake[0] in snake[1..] then GameOver else old(gameStatus)
    {
      ghost var oldSnake := snake;
      var currentDirection := nextDirection;
      direction := currentDirection;

      var head := snake[0];
      var newHead := GetNextPosition(head, currentDirection);

      var ateFood := CheckFoodCollision([newHead], food);

      var newSnake: seq<Position>;
      if ateFood {
        newSnake := [newHead] + snake;
        IncreaseScore();
        GenerateFood(draws);
      } else {
        newSnake := [newHead] + snake[..|snake| - 1];
      }

      snake := newSnake;
      SlitherKeepsShape(oldSnake, old(direction), currentDirection, ateFood);
      assert snake == Slither(oldSnake, currentDirection, ateFood);
      assert snake[1..] == if ateFood then oldSnake else oldSnake[..|oldSnake| - 1];

      CollisionExact();
      if CheckCollision() {
        gameStatus := GameOver;
      }
    }

    /** While playing, take a requested direction unless it reverses the committed one. */
    method ChangeDirection(dir: Direction)
      requires Valid()
      modifies this`nextDirection
      ensures Valid()
      ensures nextDirection == if gameStatus == Playing && IsValidDirection(direction, dir) then dir else old(nextDirection)
    {
      if gameStatus != Playing {
        return;
      }
      if IsValidDirection(direction, dir) {
        nextDirection := dir;
      }
    }

    /** Start a new game on the initial snake; the high score is kept. */
    method ResetGame(draws: seq<Cell>)
      requires Valid()
      requires HasFreeDraw(draws, INITIAL_SNAKE)
      modifies this`snake, this`food, this`direction, this`nextDirection, this`score, this`gameStatus, this`speed
      ensures Valid()
      ensures snake == INITIAL_SNAKE && food !in INITIAL_SNAKE
      ensures food == draws[FirstFreeDraw(draws, INITIAL_SNAKE)]
      ensures direction == INITIAL_DIRECTION && nextDirection == INITIAL_DIRECTION
      ensures score == 0 && gameStatus == Idle && speed == INITIAL_SPEED
    {
      var initialFood := GameUtils.GenerateFood(INITIAL_SNAKE, draws);
      snake, food := INITIAL_SNAKE, initialFood;
      direction, nextDirection := INITIAL_DIRECTION, INITIAL_DIRECTION;
      score, gameStatus, speed := 0, Idle, INITIAL_SPEED;
      InitialSnakeShaped();
    }

    method PauseGame()
      requires Valid()
      modifies this`gameStatus
      ensures Valid()
      ensures gameStatus == if old(gameStatus) == Playing then Paused else old(gameStatus)
    {
      if gameStatus == Playing {
        gameStatus := Paused;
      }
    }

    method ResumeGame()
      requires Valid()
      modifies this`gameStatus
      ensures Valid()
      ensures gameStatus == if old(gameStatus) == Paused then Playing else old(gameStatus)
    {
      if gameStatus == Paused {
        gameStatus := Playing;
      }
    }

    /** Enters play from any status, including a finished game. */
    method StartGame()
      requires Valid()
      modifies this`gameStatus
      ensures Valid()
      ensures gameStatus == Playing
    {
      gameStatus := Playing;
    }

    /**
     * The caller's gate: on an animation frame `elapsed` milliseconds after
     * the last move, move only while playing and only once `speed` has passed.
     */
    method GameLoopTick(elapsed: int, draws: seq<Cell>) returns (moved: bool)
      requires Valid()
      requires gameStatus == Playing && elapsed >= speed && WillEat() ==> HasFreeDraw(draws, snake)
      modifies this`snake, this`food, this`direction, this`score, this`highScore, this`speed, this`gameStatus
      ensures Valid()
      ensures moved <==> old(gameStatus) == Playing && elapsed >= old(speed)
      ensures !moved ==> unchanged(this)
      ensures moved ==> direction == old(nextDirection) && nextDirection == old(nextDirection)
      ensures moved ==>
        var ate := GetNextPosition(old(snake)[0], old(nextDirection)) == old(food);
        && snake == Slither(old(snake), old(nextDirection), ate)
        && (ate ==> score == old(score) + 1
                    && highScore == Max(old(highScore), old(score) + 1)
                    && speed == SpeedUp(old(speed))
                    && food == draws[FirstFreeDraw(draws, old(snake))]
                    && forall i :: 1 <= i < |snake| ==> snake[i] != food)
        && (!ate ==> score == old(score) && highScore == old(highScore)
                     && speed == old(speed) && food == old(food))
        && gameStatus == if !InGrid(snake[0]) || snake[0] in snake[1..] then GameOver else Playing
    {
      moved := false;
      if gameStatus == Playing {
        if elapsed >= speed {
          MoveSnake(draws);
          moved := true;
        }
      }
    }
  }
}
