/** Cells of the board, the four directions of travel, and the enumeration of
    the cells that the snake leaves free. Coordinates are unbounded integers:
    a step Up from row 0 or Left from column 0 gives a negative coordinate,
    which `InBounds` rejects, where the Rust code's unsigned arithmetic
    underflows to a huge value that its bounds test rejects just the same. */
module Grid {

  /** A cell of the board: column `x`, row `y`, both counted from 0. */
  datatype Position = Position(x: int, y: int)

  datatype Direction = Up | Right | Down | Left

  /** Two cells that share a side. */
  predicate Adjacent(a: Position, b: Position) {
    || (a.x == b.x && (a.y + 1 == b.y || b.y + 1 == a.y))
    || (a.y == b.y && (a.x + 1 == b.x || b.x + 1 == a.x))
  }

  /** The direction that undoes `d`. */
  function Opposite(d: Direction): (o: Direction)
    ensures o != d
    ensures (d == Up || d == Down) <==> (o == Up || o == Down)
  {
    match d
    case Up => Down
    case Right => Left
    case Down => Up
    case Left => Right
  }

  /** The cell one step from `p` along `d`; Up decreases `y`. */
  function Step(p: Position, d: Direction): (q: Position)
    ensures Adjacent(p, q)
    ensures q.x == p.x <==> d == Up || d == Down
    ensures q.y < p.y <==> d == Up
    ensures q.x > p.x <==> d == Right
  {
    match d
    case Up => Position(p.x, p.y - 1)
    case Right => Position(p.x + 1, p.y)
    case Down => Position(p.x, p.y + 1)
    case Left => Position(p.x - 1, p.y)
  }

  /** A step and a step back along the opposite direction cancel out. */
  lemma StepBack(p: Position, d: Direction)
    ensures Step(Step(p, d), Opposite(d)) == p
  {
  }

  /** Distinct directions lead from one cell to distinct cells. */
  lemma StepInjective(p: Position, d: Direction, e: Direction)
    ensures Step(p, d) == Step(p, e) <==> d == e
  {
  }

  /** The number of values of `usize` in the 32-bit WebAssembly build of the
      game. */
  const WASM_WORD: int := 0x1_0000_0000

  /** The number of values of `usize` on a 64-bit host. */
  const HOST_WORD: int := 0x1_0000_0000_0000_0000

  /** The validity test of a cell on a `width` × `height` board. For every
      cell a step can reach, it agrees with the unsigned comparison made on
      the coordinates wrapped to a 32-bit or a 64-bit machine word (a step
      from 0 to -1 wraps around to the largest value). */
  predicate InBounds(width: nat, height: nat, p: Position)
    ensures width < WASM_WORD && height < WASM_WORD && -1 <= p.x < WASM_WORD && -1 <= p.y < WASM_WORD ==>
              (InBounds(width, height, p) <==> p.x % WASM_WORD < width && p.y % WASM_WORD < height)
    ensures width < HOST_WORD && height < HOST_WORD && -1 <= p.x < HOST_WORD && -1 <= p.y < HOST_WORD ==>
              (InBounds(width, height, p) <==> p.x % HOST_WORD < width && p.y % HOST_WORD < height)
  {
    0 <= p.x < width && 0 <= p.y < height
  }

  /** One coordinate within one step of `[0, bound)` lies in that range exactly
      when its value wrapped to an `m`-value word is below `bound`. */
  lemma {:induction false} WrapKeepsRange(m: int, c: int, bound: nat)
    requires bound < m && -1 <= c < m
    ensures 0 <= c < bound <==> c % m < bound
  {
    if c == -1 {
      assert -1 == (-1) * m + (m - 1);
      assert (-1) % m == m - 1;
    } else {
      assert c == 0 * m + c;
      assert c % m == c;
    }
  }

  /** Whatever the width `m` of the machine word, the bounds test agrees with
      the unsigned comparison on wrapped coordinates for every cell within one
      step of the board. */
  lemma {:induction false} InBoundsAgreesWithWrap(m: int, width: nat, height: nat, p: Position)
    requires width < m && height < m && -1 <= p.x < m && -1 <= p.y < m
    ensures InBounds(width, height, p) <==> p.x % m < width && p.y % m < height
  {
    WrapKeepsRange(m, p.x, width);
    WrapKeepsRange(m, p.y, height);
  }

  /** The cells (0, y), (1, y), ..., (n - 1, y) of row `y`, left to right. */
  function Row(y: int, n: nat): (r: seq<Position>)
    ensures |r| == n
    ensures forall p :: p in r <==> p.y == y && 0 <= p.x < n
    ensures forall i :: 0 <= i < n ==> r[i] == Position(i, y)
  {
    if n == 0 then [] else Row(y, n - 1) + [Position(n - 1, y)]
  }

  /** Every cell of a `width` × `height` board, built row by row from `Row`.
      Only which cells it holds matters: the food is drawn from it at an
      arbitrary index. */
  function Cells(width: nat, height: nat): (r: seq<Position>)
    ensures |r| == width * height
    ensures forall p :: p in r <==> InBounds(width, height, p)
  {
    if height == 0 then []
    else
      assert (height - 1) * width + width == height * width;
      Cells(width, height - 1) + Row(height - 1, width)
  }

  /** The cells of `cells`, in their order, that no cell of `snake` occupies. */
  function Unoccupied(cells: seq<Position>, snake: seq<Position>): (r: seq<Position>)
    ensures |r| <= |cells|
    ensures forall p :: p in r <==> p in cells && p !in snake
  {
    if cells == [] then []
    else if cells[0] in snake then Unoccupied(cells[1..], snake)
    else [cells[0]] + Unoccupied(cells[1..], snake)
  }

  /** The list from which new food is drawn: every cell of the board that
      `snake` does not occupy, row by row. */
  function FreeCells(width: nat, height: nat, snake: seq<Position>): (free: seq<Position>)
    ensures |free| <= width * height
    ensures forall p :: p in free <==> InBounds(width, height, p) && p !in snake
  {
    Unoccupied(Cells(width, height), snake)
  }
}
