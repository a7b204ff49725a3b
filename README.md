# snake-rs: the game state machine in Dafny

This project models the simulation core of a small grid-based snake game:
the `SnakeGame` object of `src/snake.rs`. A game is played on a
`width` × `height` board. The snake is a path of cells, and the head comes
first in that path. Each call of `game_loop` is one tick. A tick applies the
buffered direction and moves the head one cell. If the new head leaves the
board or lands on the body, the game finishes. Otherwise the tail is dropped,
unless the head lands on the food: then the snake grows by one cell and new
food is drawn at random from the free cells. `change_direction` buffers a key
press and ignores a repeat or a reversal of the direction last applied.

Layout:

- `grid.dfy` (module `Grid`): cells, directions, one step along a direction,
  the bounds test, and the row-by-row list of free cells used to place food.
- `rules.dfy` (module `Rules`): the state of a game as a value, its invariant
  `ValidState`, the initial state `Init`, a key press `Redirect`, and `Tick`.
  `Tick` relates the state before a tick to every state the tick may leave.
  It is a relation because the new food is drawn at random.
- `properties.dfy` (module `Properties`): lemmas about `Tick` and about
  sequences of key presses.
- `game.dfy` (module `Game`): the class `SnakeGame`. Its fields are updated in
  place. Each method is proved against `Rules` through `State()`, the value
  the fields hold.
- `scenarios.dfy` (module `Scenarios`): the scenarios of the unit tests in
  `src/snake.rs`.

Facts about `src/snake.rs` that the model makes explicit:

- The free cells are listed (src/snake.rs:101-104) before the new head is
  pushed (src/snake.rs:113), so the new food may land on the new head
  (`Properties.FoodMayLandOnNewHead`).
- The "board full" exit at src/snake.rs:106-109 can never be taken: the new
  head is itself a free cell (`Properties.CollidesIffNotInFreeCells`,
  `Properties.TickFinishes`).
- `width - 2` at src/snake.rs:42 is computed on an unsigned integer, so a new
  game needs `width >= 2`.
- At width 4 the initial food is on the initial head (`Rules.Init`).

## Model

| member | source | states |
|---|---|---|
| Grid.Opposite | src/snake.rs:50-58 | The reverse of a direction differs from it and lies on the same axis; with `Grid.StepBack` it undoes a step. |
| Grid.Step | src/snake.rs:76-93 | The new head shares a side with the old one; Up and Down keep the column, Up lowers the row, Right raises the column. |
| Grid.StepBack | src/snake.rs:76-93 | A step followed by a step in the opposite direction returns to the starting cell. |
| Grid.StepInjective | src/snake.rs:76-93 | Two directions lead from one cell to the same cell only if they are equal. |
| Grid.InBounds | src/snake.rs:63-65 | For every cell within one step of the board, the bounds test on the model's integer coordinates agrees with the unsigned comparison `is_valid` makes on coordinates wrapped to a 32-bit word (the WebAssembly build) and to a 64-bit word (a native host). |
| Grid.WrapKeepsRange | src/snake.rs:64 | A coordinate within one step of `[0, bound)` lies in that range exactly when its value wrapped to a machine word is below `bound`: the underflow to -1 becomes the largest word value, which the comparison rejects. |
| Grid.InBoundsAgreesWithWrap | src/snake.rs:63-65 | The same agreement holds for a machine word of any size. |
| Grid.Row | src/snake.rs:102 | One row of the enumeration holds the `n` cells `(0, y)` to `(n - 1, y)`, in that order. |
| Grid.Cells | src/snake.rs:101-102 | The enumeration of the board has `width * height` cells and holds exactly the cells that pass the bounds test. |
| Grid.Unoccupied | src/snake.rs:103-104 | The filter keeps exactly the listed cells that the snake does not occupy, and it never lengthens the list. |
| Grid.FreeCells | src/snake.rs:101-104 | The free-cell list holds exactly the on-board cells outside the body, and at most `width * height` of them. |
| Rules.Init | src/snake.rs:31-47 | A new game has a one-cell snake, moves Right and is running. It satisfies the invariant exactly when `height >= 1`, its food is on the board exactly when `height >= 1`, and its food is on the head exactly when `width == 4`. |
| Rules.Ignores | src/snake.rs:50-58 | The eight ignored (applied, requested) pairs are exactly those where the request repeats or reverses the applied direction. |
| Rules.Redirect | src/snake.rs:49-61 | A key press changes only the buffered direction: to the key unless it repeats or reverses the applied direction. It keeps the invariant. |
| Rules.NextHead | src/snake.rs:74-93 | The next head is a neighbour of the head, and it is not the cell the head came from while the buffered direction does not reverse the applied one. |
| Rules.Tick | src/snake.rs:67-115 | A tick never changes the board's size; the snake's length stays the same or grows by one; a tick that finishes the game leaves the body and the food as they were. |
| Properties.PushFrontKeepsBody | src/snake.rs:113 | Adding a free, on-board neighbouring cell at the front keeps the body a path of distinct on-board cells. |
| Properties.DropTailKeepsBody | src/snake.rs:99 | Dropping the tail keeps the body a path of distinct on-board cells. |
| Properties.TickPreservesValid | src/snake.rs:67-115 | Every tick keeps the invariant: a non-empty path of distinct on-board cells, a buffered direction that never reverses the applied one, and the neck behind the head. |
| Properties.FinishedIsFrozen | src/snake.rs:68-70 | A tick of a finished game changes nothing. |
| Properties.TickAppliesDirection | src/snake.rs:72-93 | A tick of a running game makes the buffered direction the applied one, and the new head is next to the old one. |
| Properties.TickFinishes | src/snake.rs:95-109 | A tick finishes the game exactly when it was finished already, or the new head is off the board or on the current body; a full board never finishes it. |
| Properties.CollidesIffNotInFreeCells | src/snake.rs:95-104 | The collision test of `Rules.Collides` holds exactly when the next head is missing from the free-cell list built when the snake eats; so that list always holds the new head. |
| Properties.TickCollision | src/snake.rs:95-96 | A collision finishes the game and leaves the body and the food unchanged. |
| Properties.TickMove | src/snake.rs:98-99 | A move without food keeps the game running and the food unchanged; the body becomes the new head followed by all but the tail, so its length is unchanged. |
| Properties.TickEat | src/snake.rs:100-113 | Eating keeps the game running and adds the new head in front of the whole body; the new food is on the board and off the old body. |
| Properties.FoodMayLandOnNewHead | src/snake.rs:101-113 | When the snake eats, some allowed tick puts the new food on the new head. |
| Properties.NeverTurnsIntoNeck | src/snake.rs:49-61 | In a valid running game of length at least two, the next head is never the cell behind the head. |
| Properties.RedirectAll | src/snake.rs:49-61 | A series of key presses changes only the buffered direction and keeps the invariant. The buffered direction ends as the last key that is neither a repeat nor a reverse of the applied direction, or stays as it was when every key is one of those. |
| Properties.NoImmediateReversal | src/snake.rs:49-72 | In any valid game, whatever keys are pressed between two ticks, the next tick never applies the reverse of the direction applied before them. |
| Game.SnakeGame.constructor | src/snake.rs:31-47 | The new object holds the state `Rules.Init`. |
| Game.SnakeGame.ChangeDirection | src/snake.rs:49-61 | The new state is `Rules.Redirect` of the old one, and the invariant is kept. |
| Game.SnakeGame.GameLoop | src/snake.rs:67-115 | The new state is one that `Rules.Tick` allows from the old one, the invariant is kept, and the snake stays non-empty. |
| Scenarios.ItChangesDirectionCorrectly | src/snake.rs:129-153 | From a new 20 × 20 game, the keys Left, Right, Up, Down and Left, each followed by a tick, apply Right, Right, Up, Up and Left: every state each tick may leave is the expected one. |
| Scenarios.EatingFoodGrowsTheSnake | src/snake.rs:155-171 | With food two cells ahead of the head on a 10 × 10 board, the length is 1, then 1, then 2. |
| Scenarios.RunningIntoWallEndsGame | src/snake.rs:172-180 | A new 2 × 2 game is running, and its first tick finishes it. |

## Left out

- `src/lib.rs` is not part of this model: the HTML grid of `div` cells it renders the board into, the timer and the key listener. They only call `new`, `change_direction` and `game_loop` and draw the state.
- `src/random.rs` is not part of this model. The random index is an arbitrary choice among the free cells: `Tick` allows every free cell, and `GameLoop` picks one with `:|`. Uniformity is not modelled.
- Game.SnakeGame.GameLoop: the "board full" exit is not written in the method, because it can never be taken (the new head is always free); `Rules.Tick` keeps it.
- Game.SnakeGame.constructor: requires `width >= 2`. For a smaller width, `width - 2` underflows in the Rust code, which panics in a debug build and wraps in a release build.
- Coordinates are unbounded integers rather than `usize`. A step Up from row 0 or Left from column 0 underflows in the Rust code (a panic in a debug build, a huge value in a release build). The model gives a negative coordinate instead, which the bounds test rejects just as it rejects the huge value. A debug-build panic is not modelled.
- The `it_works` test only prints a new game; printing is not modelled.
- The body is a sequence rather than a double-ended queue: the model does not capture the cost of `push_front` and `pop_back`.
