/**
 * Board geometry, collision rules and food placement of the snake game.
 * A position is an integer pair; the board is a fixed GRID_SIZE x GRID_SIZE
 * square of cells, and positions outside it are ordinary values that the
 * wall check reports.
 */
module GameUtils {

  datatype Position = Position(x: int, y: int)

  datatype Direction = Up | Down | Left | Right

  const GRID_SIZE: int := 20

  /** A position on the board. */
  predicate InGrid(p: Position) {
    0 <= p.x < GRID_SIZE && 0 <= p.y < GRID_SIZE
  }

  /** A cell of the board: what one random draw of a food position yields. */
  type Cell = p: Position | InGrid(p) witness Position(0, 0)

  /** Head first: index 0 is the head. */
  const INITIAL_SNAKE: seq<Position> := [Position(10, 10), Position(9, 10), Position(8, 10)]

  const INITIAL_DIRECTION: Direction := Right

  function Abs(n: int): nat {
    if n < 0 then -n else n
  }

  /** Two positions one step apart (Manhattan distance 1). */
  predicate Adjacent(a: Position, b: Position) {
    Abs(a.x - b.x) + Abs(a.y - b.y) == 1
  }

  /** The opposite-direction table. */
  function Opposite(d: Direction): (r: Direction)
    ensures r != d
  {
    match d
    case Up => Down
    case Down => Up
    case Left => Right
    case Right => Left
  }

  lemma OppositeIsInvolution(d: Direction)
    ensures Opposite(Opposite(d)) == d
  {
  }

  /** One cell in the given direction; y grows downwards. Never wraps or clamps. */
  function GetNextPosition(p: Position, d: Direction): (r: Position)
    ensures Adjacent(p, r)
    ensures r.x == p.x <==> d == Up || d == Down
    ensures r.x < p.x <==> d == Left
    ensures r.y < p.y <==> d == Up
  {
    match d
    case Up => Position(p.x, p.y - 1)
    case Down => Position(p.x, p.y + 1)
    case Left => Position(p.x - 1, p.y)
    case Right => Position(p.x + 1, p.y)
  }

  /** Stepping back in the opposite direction returns to the start, and only it does. */
  lemma NextPositionUndo(p: Position, d: Direction, e: Direction)
    ensures GetNextPosition(GetNextPosition(p, d), e) == p <==> e == Opposite(d)
  {
  }

  /** The step itself determines its direction. */
  lemma NextPositionInjective(p: Position, d: Direction, e: Direction)
    ensures GetNextPosition(p, d) == GetNextPosition(p, e) <==> d == e
  {
  }

  function CheckWallCollision(p: Position): (r: bool)
    ensures r <==> !InGrid(p)
  {
    p.x < 0 || p.x >= GRID_SIZE || p.y < 0 || p.y >= GRID_SIZE
  }

  /** `segments.some(s => s.x === p.x && s.y === p.y)`, scanning from the front. */
  function AnySegmentAt(segments: seq<Position>, p: Position): (r: bool)
    ensures r <==> p in segments
  {
    if segments == [] then false
    else if segments[0].x == p.x && segments[0].y == p.y then true
    else AnySegmentAt(segments[1..], p)
  }

  /** Head on any later segment; skipped for snakes shorter than four. */
  function CheckSelfCollision(snake: seq<Position>): (r: bool)
    ensures |snake| < 4 ==> !r
    ensures |snake| >= 4 ==> (r <==> exists i :: 1 <= i < |snake| && snake[i] == snake[0])
  {
    if |snake| < 4 then false
    else
      var head := snake[0];
      assert forall i :: 1 <= i < |snake| ==> snake[i] == snake[1..][i - 1];
      AnySegmentAt(snake[1..], head)
  }

  /** Only the head is read; an empty snake has no head to read. */
  function CheckFoodCollision(snake: seq<Position>, food: Position): (r: bool)
    requires |snake| > 0
    ensures r <==> snake[0] == food
  {
    var head := snake[0];
    head.x == food.x && head.y == food.y
  }

  lemma FoodCollisionReadsOnlyHead(s: seq<Position>, t: seq<Position>, food: Position)
    requires |s| > 0 && |t| > 0 && s[0] == t[0]
    ensures CheckFoodCollision(s, food) == CheckFoodCollision([t[0]], food)
  {
  }

  /** A turn is refused only when it is the exact reversal of the current direction. */
  function IsValidDirection(current: Direction, requested: Direction): bool {
    requested != Opposite(current)
  }

  /** A request is refused exactly when its step would undo the committed one, from every position. */
  lemma RefusedExactlyWhenUndoing(current: Direction, requested: Direction)
    ensures !IsValidDirection(current, requested)
            <==> forall p :: GetNextPosition(GetNextPosition(p, current), requested) == p
  {
    if IsValidDirection(current, requested) {
      var o := Position(0, 0);
      NextPositionUndo(o, current, requested);
      assert GetNextPosition(GetNextPosition(o, current), requested) != o;
    } else {
      forall p {
        NextPositionUndo(p, current, requested);
      }
    }
  }

  /** Keeping the same direction is always valid, and validity is symmetric. */
  lemma ValidDirectionProperties(a: Direction, b: Direction)
    ensures IsValidDirection(a, a)
    ensures IsValidDirection(a, b) == IsValidDirection(b, a)
    ensures !IsValidDirection(a, b) <==> a == Opposite(b)
  {
  }

  lemma InitialSnakeProperties()
    ensures |INITIAL_SNAKE| == 3 && INITIAL_SNAKE[0] == Position(10, 10)
    ensures forall i :: 0 <= i < |INITIAL_SNAKE| ==> InGrid(INITIAL_SNAKE[i])
    ensures forall i :: 0 <= i < |INITIAL_SNAKE| - 1 ==>
              INITIAL_SNAKE[i + 1].y == INITIAL_SNAKE[i].y && INITIAL_SNAKE[i + 1].x == INITIAL_SNAKE[i].x - 1
    ensures INITIAL_SNAKE[0] == GetNextPosition(INITIAL_SNAKE[1], INITIAL_DIRECTION)
    ensures !CheckWallCollision(INITIAL_SNAKE[0]) && !CheckSelfCollision(INITIAL_SNAKE)
  {
  }

  /** Some random draw falls on a cell the snake does not occupy. */
  predicate HasFreeDraw(draws: seq<Cell>, snake: seq<Position>) {
    exists i :: 0 <= i < |draws| && draws[i] !in snake
  }

  /** Index of the draw that rejection sampling accepts: the first one off the snake. */
  function FirstFreeDraw(draws: seq<Cell>, snake: seq<Position>): (k: nat)
    requires HasFreeDraw(draws, snake)
    ensures k < |draws| && draws[k] !in snake
    ensures forall j :: 0 <= j < k ==> draws[j] in snake
  {
    if draws[0] !in snake then 0
    else
      assert HasFreeDraw(draws[1..], snake) by {
        var i :| 0 <= i < |draws| && draws[i] !in snake;
        assert i > 0 && draws[1..][i - 1] == draws[i];
      }
      var k := FirstFreeDraw(draws[1..], snake);
      assert forall j :: 1 <= j < k + 1 ==> draws[j] == draws[1..][j - 1];
      k + 1
  }

  /** A free draw needs a free cell, so a board the snake fills never yields food. */
  lemma FreeDrawNeedsFreeCell(draws: seq<Cell>, snake: seq<Position>)
    requires HasFreeDraw(draws, snake)
    ensures exists c: Cell :: c !in snake
  {
    var k := FirstFreeDraw(draws, snake);
    var c := draws[k];
    assert c !in snake;
  }

  /**
   * Rejection sampling: draw a cell, retry while it lies on the snake.
   * `draws` is the sequence of cells the random source produces; the loop
   * stops only at a draw off the snake, which the requires promises exists.
   */
  method GenerateFood(snake: seq<Position>, draws: seq<Cell>) returns (food: Cell)
    requires HasFreeDraw(draws, snake)
    ensures food !in snake
    ensures food == draws[FirstFreeDraw(draws, snake)]
  {
    ghost var k := FirstFreeDraw(draws, snake);
    var i := 0;
    food := draws[i];
    i := i + 1;
    while AnySegmentAt(snake, food)
      invariant 1 <= i <= k + 1
      invariant food == draws[i - 1]
      decreases k + 1 - i
    {
      food := draws[i];
      i := i + 1;
    }
  }
}
