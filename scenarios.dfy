/**
 * Client code driving the store, showing what its contracts let a caller
 * conclude about concrete games.
 */
module Scenarios {
  import opened GameUtils
  import opened GameStore

  /** A reversal request is ignored, and the next tick moves straight on. */
  method ReversalIgnored() {
    var draws: seq<Cell> := [Position(0, 0)];
    assert draws[0] !in INITIAL_SNAKE;
    var g := new Game(0, draws);
    assert g.food == Position(0, 0);
    g.StartGame();
    g.ChangeDirection(Left);
    assert g.nextDirection == Right;
    g.MoveSnake([]);
    assert g.snake == [Position(11, 10), Position(10, 10), Position(9, 10)];
    assert g.gameStatus == Playing && g.score == 0;
  }

  /**
   * Eating grows the snake and scores, and the new food is drawn against
   * the snake as it was before the move: here the random source offers
   * the cell just eaten, which the pre-move snake does not cover, so the
   * new food appears under the new head.
   */
  method FoodUnderNewHead() {
    var draws: seq<Cell> := [Position(11, 10)];
    assert draws[0] !in INITIAL_SNAKE;
    var g := new Game(3, draws);
    assert g.food == Position(11, 10);
    g.StartGame();
    g.MoveSnake(draws);
    assert g.snake == [Position(11, 10), Position(10, 10), Position(9, 10), Position(8, 10)];
    assert g.score == 1 && g.highScore == 3 && g.speed == 145;
    assert g.food == g.snake[0];
    assert g.gameStatus == Playing;
  }
}
