/** What one tick of the game loop and a sequence of key presses do to a
    game, proved from the definitions in `Rules`. */
module Properties {
  import opened Grid
  import opened Rules

  /** A body stays a path of distinct cells on the board when a new head
      next to its first cell, on the board and not already in it, is added. */
  lemma {:induction false} PushFrontKeepsBody(width: nat, height: nat, head: Position, body: seq<Position>)
    requires |body| >= 1 && AllInBounds(width, height, body) && Distinct(body) && Contiguous(body)
    requires InBounds(width, height, head) && head !in body && Adjacent(head, body[0])
    ensures AllInBounds(width, height, [head] + body)
    ensures Distinct([head] + body)
    ensures Contiguous([head] + body)
  {
    var cells := [head] + body;
    forall i, j | 0 <= i < j < |cells| ensures cells[i] != cells[j] {
      if i > 0 {
        assert cells[i] == body[i - 1] && cells[j] == body[j - 1];
      } else {
        assert cells[j] == body[j - 1];
      }
    }
    forall i | 1 <= i < |cells| ensures Adjacent(cells[i - 1], cells[i]) {
      if i > 1 {
        assert cells[i - 1] == body[i - 2] && cells[i] == body[i - 1];
      }
    }
  }

  /** Dropping the tail keeps a body a path of distinct cells on the board. */
  lemma {:induction false} DropTailKeepsBody(width: nat, height: nat, body: seq<Position>)
    requires |body| >= 1 && AllInBounds(width, height, body) && Distinct(body) && Contiguous(body)
    ensures var rest := body[..|body| - 1];
      AllInBounds(width, height, rest) && Distinct(rest) && Contiguous(rest)
  {
    var rest := body[..|body| - 1];
    forall i, j | 0 <= i < j < |rest| ensures rest[i] != rest[j] {
      assert rest[i] == body[i] && rest[j] == body[j];
    }
    forall i | 1 <= i < |rest| ensures Adjacent(rest[i - 1], rest[i]) {
      assert rest[i - 1] == body[i - 1] && rest[i] == body[i];
    }
  }

  /** Every tick keeps the invariant of a game. */
  lemma {:induction false} TickPreservesValid(s: GameState, t: GameState)
    requires ValidState(s) && Tick(s, t)
    ensures ValidState(t)
  {
    if !s.finished {
      var head := NextHead(s);
      if InBounds(s.width, s.height, head) && head !in s.snake {
        StepBack(s.snake[0], s.nextDirection);
        if head != s.food {
          var rest := s.snake[..|s.snake| - 1];
          if |rest| == 0 {
            assert t.snake == [head];
          } else {
            DropTailKeepsBody(s.width, s.height, s.snake);
            assert rest[0] == s.snake[0];
            PushFrontKeepsBody(s.width, s.height, head, rest);
          }
        } else {
          PushFrontKeepsBody(s.width, s.height, head, s.snake);
        }
      }
    }
  }

  /** Once a game is finished, a tick changes nothing, so ticking again and
      again leaves it as it is. */
  lemma FinishedIsFrozen(s: GameState, t: GameState)
    requires |s.snake| >= 1 && s.finished && Tick(s, t)
    ensures t == s
  {
  }

  /** A tick of a running game applies the buffered direction. */
  lemma TickAppliesDirection(s: GameState, t: GameState)
    requires |s.snake| >= 1 && !s.finished && Tick(s, t)
    ensures t.direction == t.nextDirection == s.nextDirection
    ensures Adjacent(s.snake[0], NextHead(s))
  {
  }

  /** A tick ends the game exactly when the new head leaves the board or
      lands on any cell of the current body, the tail included: the board
      never turns out to be full. */
  lemma {:induction false} TickFinishes(s: GameState, t: GameState)
    requires |s.snake| >= 1 && Tick(s, t)
    ensures t.finished <==> s.finished || !InBounds(s.width, s.height, NextHead(s)) || NextHead(s) in s.snake
  {
    var head := NextHead(s);
    if !s.finished && !Collides(s) && head == s.food {
      assert Free(s, head);
    }
  }

  /** The collision test and the list of free cells built when the snake eats
      are two views of one fact: the next head collides exactly when it is
      missing from that list. So whenever the snake eats, the list holds at
      least the new head and the "board full" exit is never taken. Stated
      apart from `Collides` so that reasoning about a tick of a concrete game
      does not enumerate the whole board. */
  lemma {:induction false} CollidesIffNotInFreeCells(s: GameState)
    requires |s.snake| >= 1
    ensures Collides(s) <==> NextHead(s) !in FreeCells(s.width, s.height, s.snake)
  {
  }

  /** A collision ends the game and leaves the body and the food where they
      were. */
  lemma TickCollision(s: GameState, t: GameState)
    requires |s.snake| >= 1 && !s.finished && Tick(s, t)
    requires !InBounds(s.width, s.height, NextHead(s)) || NextHead(s) in s.snake
    ensures t.finished && t.snake == s.snake && t.food == s.food
  {
  }

  /** A step onto a free cell without food moves the whole body: the head
      advances and the tail is dropped. */
  lemma TickMove(s: GameState, t: GameState)
    requires |s.snake| >= 1 && !s.finished && Tick(s, t)
    requires InBounds(s.width, s.height, NextHead(s)) && NextHead(s) !in s.snake
    requires NextHead(s) != s.food
    ensures !t.finished && t.food == s.food
    ensures t.snake == [NextHead(s)] + s.snake[..|s.snake| - 1]
    ensures |t.snake| == |s.snake|
  {
  }

  /** A step onto the food grows the body by its new head, and the new food is
      a cell of the board that the body did not occupy before the step. */
  lemma {:induction false} TickEat(s: GameState, t: GameState)
    requires |s.snake| >= 1 && !s.finished && Tick(s, t)
    requires InBounds(s.width, s.height, NextHead(s)) && NextHead(s) !in s.snake
    requires NextHead(s) == s.food
    ensures !t.finished
    ensures t.snake == [NextHead(s)] + s.snake && |t.snake| == |s.snake| + 1
    ensures InBounds(s.width, s.height, t.food) && t.food !in s.snake
  {
    assert Free(s, NextHead(s));
  }

  /** When the snake eats, the new food may be drawn on the cell its new head
      has just taken: the free cells are listed before the head is added. */
  lemma {:induction false} FoodMayLandOnNewHead(s: GameState)
    requires |s.snake| >= 1 && !s.finished
    requires InBounds(s.width, s.height, NextHead(s)) && NextHead(s) !in s.snake
    requires NextHead(s) == s.food
    ensures exists t :: Tick(s, t) && !t.finished && t.food == t.snake[0]
  {
    var head := NextHead(s);
    assert Free(s, head);
    var t := s.(direction := s.nextDirection, snake := [head] + s.snake, food := head);
    assert Tick(s, t);
  }

  /** While the game runs, the head never turns back onto the cell behind
      it. */
  lemma {:induction false} NeverTurnsIntoNeck(s: GameState)
    requires ValidState(s) && !s.finished && |s.snake| >= 2
    ensures NextHead(s) != s.snake[1]
  {
    StepInjective(s.snake[0], s.nextDirection, Opposite(s.direction));
  }

  /** The state after the key presses `keys`, in order, with no tick between
      them. Each accepted key overwrites the buffered direction, so the last
      accepted key wins; when every key is ignored the buffer is unchanged. */
  function RedirectAll(s: GameState, keys: seq<Direction>): (t: GameState)
    ensures t == s.(nextDirection := t.nextDirection)
    ensures ValidState(s) ==> ValidState(t)
    ensures t.nextDirection == s.nextDirection || t.nextDirection in keys
    ensures (forall k :: k in keys ==> Ignores(s.direction, k)) ==> t.nextDirection == s.nextDirection
    ensures forall i :: 0 <= i < |keys| && !Ignores(s.direction, keys[i])
                          && (forall j :: i < j < |keys| ==> Ignores(s.direction, keys[j]))
                        ==> t.nextDirection == keys[i]
    decreases |keys|
  {
    if keys == [] then s
    else
      var r := RedirectAll(Redirect(s, keys[0]), keys[1..]);
      assert forall k :: k in keys[1..] ==> k in keys;
      assert forall i :: 1 <= i < |keys| ==> keys[1..][i - 1] == keys[i];
      r
  }

  /** However many keys are pressed between two ticks, the tick does not send
      the snake back the way it came. */
  lemma {:induction false} NoImmediateReversal(s: GameState, keys: seq<Direction>)
    requires ValidState(s)
    ensures forall t :: Tick(RedirectAll(s, keys), t) ==> t.direction != Opposite(s.direction)
  {
    var r := RedirectAll(s, keys);
    forall t | Tick(r, t) ensures t.direction != Opposite(s.direction) {
      if !s.finished {
        TickAppliesDirection(r, t);
      }
    }
  }
}
