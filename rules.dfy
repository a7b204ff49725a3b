/** The rules of one game as values: the state of a game, its invariant, the
    state a new game starts in, the effect of a key press, and the states one
    tick of the game loop may lead to. The class `Game.SnakeGame` is proved
    against these definitions. */
module Rules {
  import opened Grid

  /** Everything a game holds. `snake[0]` is the head and the last cell the
      tail; `direction` is the direction applied on the last tick and
      `nextDirection` the one buffered for the next tick. */
  datatype GameState = GameState(
    width: nat,
    height: nat,
    snake: seq<Position>,
    direction: Direction,
    nextDirection: Direction,
    food: Position,
    finished: bool)

  function Min(a: int, b: int): int {
    if a <= b then a else b
  }

  function Max(a: int, b: int): int {
    if a <= b then b else a
  }

  predicate Distinct(cells: seq<Position>) {
    forall i, j :: 0 <= i < j < |cells| ==> cells[i] != cells[j]
  }

  predicate AllInBounds(width: nat, height: nat, cells: seq<Position>) {
    forall i :: 0 <= i < |cells| ==> InBounds(width, height, cells[i])
  }

  /** Each cell of the body shares a side with the next one. */
  predicate Contiguous(cells: seq<Position>) {
    forall i :: 1 <= i < |cells| ==> Adjacent(cells[i - 1], cells[i])
  }

  /** The invariant of a game: a non-empty snake of distinct cells on the
      board, forming a path; a buffered direction that is never the reverse of
      the applied one; and, while the game runs, the cell behind the head is
      the one the head came from. */
  ghost predicate ValidState(s: GameState) {
    && |s.snake| >= 1
    && AllInBounds(s.width, s.height, s.snake)
    && Distinct(s.snake)
    && Contiguous(s.snake)
    && s.nextDirection != Opposite(s.direction)
    && (!s.finished && |s.snake| >= 2 ==> s.snake[1] == Step(s.snake[0], Opposite(s.direction)))
  }

  /** The state of a new `width` × `height` game. */
  function Init(width: nat, height: nat): (s: GameState)
    requires width >= 2
    ensures s.width == width && s.height == height && |s.snake| == 1
    ensures ValidState(s) <==> height >= 1
    ensures InBounds(width, height, s.food) <==> height >= 1
    ensures s.food in s.snake <==> width == 4
    ensures s.direction == s.nextDirection == Right && !s.finished
  {
    // `width - 2` is at least 0 once `width >= 2`, so the `max(0)` in
    // `src/snake.rs` leaves it as it is
    var head := Position(Min(2, width - 1), height / 2);
    assert [head][0] == head;
    GameState(width, height, [head], Right, Right,
              Position(Max(width - 2, 0), height / 2),
              false)
  }

  /** The pairs (applied, requested) for which a key press is ignored: the
      requested direction is the applied one or its reverse. */
  function Ignores(applied: Direction, requested: Direction): (ignored: bool)
    ensures ignored <==> requested == applied || requested == Opposite(applied)
  {
    match (applied, requested)
    case (Up, Up) | (Up, Down) | (Right, Right) | (Right, Left)
       | (Down, Down) | (Down, Up) | (Left, Left) | (Left, Right) => true
    case _ => false
  }

  /** The effect of a key press for direction `d`: only the buffered direction
      may change, and it changes to `d` unless `d` repeats or reverses the
      applied direction. */
  function Redirect(s: GameState, d: Direction): (t: GameState)
    ensures t.nextDirection == if d == s.direction || d == Opposite(s.direction) then s.nextDirection else d
    ensures t == s.(nextDirection := t.nextDirection)
    ensures ValidState(s) ==> ValidState(t)
  {
    if Ignores(s.direction, d) then s else s.(nextDirection := d)
  }

  /** The cell the head moves to on the next tick: a neighbour of the head,
      and never the cell it came from while the buffered direction does not
      reverse the applied one. */
  function NextHead(s: GameState): (h: Position)
    requires |s.snake| >= 1
    ensures Adjacent(s.snake[0], h)
    ensures s.nextDirection != Opposite(s.direction) ==> h != Step(s.snake[0], Opposite(s.direction))
  {
    StepInjective(s.snake[0], s.nextDirection, Opposite(s.direction));
    Step(s.snake[0], s.nextDirection)
  }

  /** The next head leaves the board or lands on a cell of the body as it is
      before the move, the tail included. */
  predicate Collides(s: GameState)
    requires |s.snake| >= 1
  {
    !InBounds(s.width, s.height, NextHead(s)) || NextHead(s) in s.snake
  }

  /** A cell on the board that the body does not cover: the cells the new
      food is drawn from. */
  predicate Free(s: GameState, p: Position) {
    InBounds(s.width, s.height, p) && p !in s.snake
  }

  /** No cell of the board is free. */
  ghost predicate BoardFull(s: GameState) {
    forall p :: InBounds(s.width, s.height, p) ==> p in s.snake
  }

  /** `t` is a state that one run of the game loop may leave when it starts in
      `s`. The buffered direction becomes the applied one, then the head moves
      one cell along it. The only freedom is the random choice of the new food
      among the free cells. The free cells are those of the body as it is
      before the new head is added, so the new head is one of them. */
  ghost predicate Tick(s: GameState, t: GameState)
    requires |s.snake| >= 1
    ensures Tick(s, t) ==> t.width == s.width && t.height == s.height
    ensures Tick(s, t) ==> |s.snake| <= |t.snake| <= |s.snake| + 1
    ensures Tick(s, t) && t.finished ==> t.snake == s.snake && t.food == s.food
  {
    if s.finished then t == s
    else if Collides(s) then
      t == s.(direction := s.nextDirection, finished := true)
    else if NextHead(s) != s.food then
      t == s.(direction := s.nextDirection, snake := [NextHead(s)] + s.snake[..|s.snake| - 1])
    else if BoardFull(s) then
      t == s.(direction := s.nextDirection, finished := true)
    else
      && t == s.(direction := s.nextDirection, snake := [NextHead(s)] + s.snake, food := t.food)
      && Free(s, t.food)
  }
}
