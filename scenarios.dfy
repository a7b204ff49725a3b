/** The scenarios of the unit tests of `src/snake.rs`, stated over the game object
    and over the rules. */
module Scenarios {
  import opened Grid
  import opened Rules
  import opened Properties
  import opened Game

  /** A running 20 × 20 game whose snake is the single cell `head`, with the
      food where a new game places it. */
  function Lone20(head: Position, applied: Direction, buffered: Direction): GameState {
    GameState(20, 20, [head], applied, buffered, Position(18, 10), false)
  }

  /** Each key press of the direction test in `src/snake.rs`, followed by a
      tick, can lead only to the state shown: a reverse (Left while going Right, Down
      while going Up) and a repeat are ignored, a turn is applied. */
  lemma ItChangesDirectionCorrectly()
    ensures Init(20, 20) == Lone20(Position(2, 10), Right, Right)
    ensures forall t :: Tick(Redirect(Lone20(Position(2, 10), Right, Right), Left), t) ==>
                          t == Lone20(Position(3, 10), Right, Right)
    ensures forall t :: Tick(Redirect(Lone20(Position(3, 10), Right, Right), Right), t) ==>
                          t == Lone20(Position(4, 10), Right, Right)
    ensures forall t :: Tick(Redirect(Lone20(Position(4, 10), Right, Right), Up), t) ==>
                          t == Lone20(Position(4, 9), Up, Up)
    ensures forall t :: Tick(Redirect(Lone20(Position(4, 9), Up, Up), Down), t) ==>
                          t == Lone20(Position(4, 8), Up, Up)
    ensures forall t :: Tick(Redirect(Lone20(Position(4, 8), Up, Up), Left), t) ==>
                          t == Lone20(Position(3, 8), Left, Left)
  {
  }

  /** With food two cells ahead of the head of a 10 × 10 game, the first tick
      keeps the length and the second one grows it by one. */
  method EatingFoodGrowsTheSnake() returns (lengths: seq<nat>)
    ensures lengths == [1, 1, 2]
  {
    var game := new SnakeGame(10, 10);
    assert game.snake == [Position(2, 5)];
    lengths := [|game.snake|];

    var head := game.snake[0];
    game.food := Position(head.x + 2, head.y);

    game.GameLoop();
    assert game.snake == [Position(3, 5)] && !game.finished;
    lengths := lengths + [|game.snake|];

    ghost var before := game.State();
    game.GameLoop();
    TickEat(before, game.State());
    lengths := lengths + [|game.snake|];
  }

  /** On a 2 × 2 board the first tick runs into the right-hand wall. */
  method RunningIntoWallEndsGame() returns (before: bool, after: bool)
    ensures !before && after
  {
    var game := new SnakeGame(2, 2);
    before := game.finished;

    game.GameLoop();

    after := game.finished;
  }
}
