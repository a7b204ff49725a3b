/** The game object: its fields are updated in place by key presses and by
    the game loop, and each method is proved against `Rules`. */
module Game {
  import opened Grid
  import opened Rules
  import opened Properties

  class SnakeGame {
    const width: nat
    const height: nat
    var snake: seq<Position>
    var direction: Direction
    var nextDirection: Direction
    var food: Position
    var finished: bool

    /** The value the fields currently hold. */
    function State(): GameState
      reads this
    {
      GameState(width, height, snake, direction, nextDirection, food, finished)
    }

    ghost predicate Valid()
      reads this
    {
      ValidState(State())
    }

    constructor (width: nat, height: nat)
      requires width >= 2
      ensures State() == Init(width, height)
    {
      this.width := width;
      this.height := height;
      snake := [Position(Min(2, width - 1), height / 2)];
      direction := Right;
      nextDirection := Right;
      food := Position(Max(width - 2, 0), height / 2);
      finished := false;
    }

    /** Buffers a key press for the next tick. */
    method ChangeDirection(d: Direction)
      modifies this
      ensures State() == Redirect(old(State()), d)
      ensures old(Valid()) ==> Valid()
    {
      if !Ignores(direction, d) {
        nextDirection := d;
      }
    }

    /** One tick of the game. */
    method GameLoop()
      requires |snake| >= 1
      modifies this
      ensures Tick(old(State()), State())
      ensures old(Valid()) ==> Valid()
      ensures |snake| >= 1
    {
      if finished {
        return;
      }

      direction := nextDirection;

      var head := snake[0];
      var newHead := Step(head, direction);

      if !InBounds(width, height, newHead) || newHead in snake {
        finished := true;
      } else {
        if newHead != food {
          snake := snake[..|snake| - 1];
        } else {
          var free := FreeCells(width, height, snake);
          // `newHead` is itself free, so the list is never empty and the
          // "board full" exit of the Rust code cannot be taken
          assert newHead in free;
          var i :| 0 <= i < |free|;
          food := free[i];
        }
        snake := [newHead] + snake;
      }
      if old(Valid()) {
        TickPreservesValid(old(State()), State());
      }
    }
  }
}
