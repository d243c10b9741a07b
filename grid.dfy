/**
 * The board of the snake game: a square grid of cells, the four directions
 * of travel, one-cell moves, the shape a snake body must keep, and the set
 * of cells still free for food.
 */
module Grid {

  /** Side length of the square board (BOARD_SIZE). */
  const BoardSize: int := 20

  /** Number of cells on the board. */
  const Area: int := BoardSize * BoardSize

  datatype Option<T> = None | Some(value: T)

  /** A board position; a cell may lie off the board while a move is being checked. */
  datatype Cell = Cell(x: int, y: int)

  datatype Direction = Up | Down | Left | Right

  predicate InBounds(c: Cell) {
    0 <= c.x < BoardSize && 0 <= c.y < BoardSize
  }

  /** The reversal pairs UP/DOWN and LEFT/RIGHT. */
  function Opposite(d: Direction): (r: Direction)
    ensures r != d
  {
    match d
    case Up => Down
    case Down => Up
    case Left => Right
    case Right => Left
  }

  function Abs(n: int): nat {
    if n < 0 then -n else n
  }

  /** The cell one unit away from `c` in direction `d`; the y axis grows downwards. */
  function Move(c: Cell, d: Direction): (r: Cell)
    ensures Abs(r.x - c.x) + Abs(r.y - c.y) == 1
    ensures d == Up ==> r.y < c.y
    ensures d == Down ==> r.y > c.y
    ensures d == Left ==> r.x < c.x
    ensures d == Right ==> r.x > c.x
  {
    match d
    case Up => c.(y := c.y - 1)
    case Down => c.(y := c.y + 1)
    case Left => c.(x := c.x - 1)
    case Right => c.(x := c.x + 1)
  }

  /** Moving in the opposite direction undoes a move. */
  lemma StepBack(c: Cell, d: Direction)
    ensures Move(Move(c, d), Opposite(d)) == c
  {
  }

  /** A head cell that would end the game: off the board or on the (pre-move) body. */
  predicate Collides(h: Cell, body: seq<Cell>)
    ensures Collides(h, body) <==> h !in FreeCells(body)
  {
    !InBounds(h) || h in body
  }

  predicate OnBoard(body: seq<Cell>) {
    forall i :: 0 <= i < |body| ==> InBounds(body[i])
  }

  predicate NoDuplicates(body: seq<Cell>) {
    forall i, j :: 0 <= i < j < |body| ==> body[i] != body[j]
  }

  /** The shape every snake body keeps: non-empty, on the board, no cell twice. */
  predicate ValidBody(body: seq<Cell>) {
    |body| > 0 && OnBoard(body) && NoDuplicates(body)
  }

  /** Every cell of the board. */
  ghost function Board(): set<Cell> {
    set x, y | 0 <= x < BoardSize && 0 <= y < BoardSize :: Cell(x, y)
  }

  /** The cells a body occupies. */
  ghost function Cells(body: seq<Cell>): set<Cell> {
    set c | c in body
  }

  /** The board cells that `body` does not occupy: where food may be placed. */
  function FreeCells(body: seq<Cell>): (r: set<Cell>)
    ensures forall c :: c in r <==> InBounds(c) && c !in body
  {
    var r := set x, y | 0 <= x < BoardSize && 0 <= y < BoardSize && Cell(x, y) !in body :: Cell(x, y);
    assert forall c | InBounds(c) && c !in body :: c == Cell(c.x, c.y) && c in r;
    r
  }

  /** Growing: the new head is prepended and the tail kept. */
  lemma GrowKeepsValid(body: seq<Cell>, h: Cell)
    requires ValidBody(body) && !Collides(h, body)
    ensures ValidBody([h] + body)
    ensures |[h] + body| == |body| + 1
  {
  }

  /** Moving without growth: the new head is prepended and the tail cell dropped. */
  lemma SlitherKeepsValid(body: seq<Cell>, h: Cell)
    requires ValidBody(body) && !Collides(h, body)
    ensures ValidBody([h] + body[..|body| - 1])
    ensures |[h] + body[..|body| - 1]| == |body|
  {
  }

  // Counting the board: a row has BoardSize cells, the board BoardSize rows.

  ghost function Row(y: int, n: nat): set<Cell> {
    set x | 0 <= x < n :: Cell(x, y)
  }

  lemma {:induction false} RowSize(y: int, n: nat)
    ensures |Row(y, n)| == n
  {
    if n > 0 {
      RowSize(y, n - 1);
      assert Row(y, n) == Row(y, n - 1) + {Cell(n - 1, y)};
    }
  }

  ghost function Rows(m: nat): set<Cell> {
    set x, y | 0 <= x < BoardSize && 0 <= y < m :: Cell(x, y)
  }

  lemma {:induction false} RowsSize(m: nat)
    ensures |Rows(m)| == BoardSize * m
  {
    if m > 0 {
      RowsSize(m - 1);
      RowSize(m - 1, BoardSize);
      assert Rows(m) == Rows(m - 1) + Row(m - 1, BoardSize);
      assert Rows(m - 1) * Row(m - 1, BoardSize) == {};
    }
  }

  lemma BoardSizeIsArea()
    ensures |Board()| == Area
  {
    RowsSize(BoardSize);
    assert Board() == Rows(BoardSize);
  }

  /** A body without duplicates occupies as many cells as it is long. */
  lemma {:induction false} DistinctCells(body: seq<Cell>)
    requires NoDuplicates(body)
    ensures |Cells(body)| == |body|
  {
    if |body| > 0 {
      var rest := body[1..];
      assert NoDuplicates(rest) by {
        forall i, j | 0 <= i < j < |rest| ensures rest[i] != rest[j] {
          assert rest[i] == body[i + 1] && rest[j] == body[j + 1];
        }
      }
      DistinctCells(rest);
      assert Cells(body) == Cells(rest) + {body[0]};
      assert body[0] !in Cells(rest);
    }
  }

  /** The free cells number exactly the board's area less the body's length. */
  lemma FreeCellCount(body: seq<Cell>)
    requires OnBoard(body) && NoDuplicates(body)
    ensures |FreeCells(body)| == Area - |body|
  {
    BoardSizeIsArea();
    DistinctCells(body);
    var free, occupied := FreeCells(body), Cells(body);
    assert free * occupied == {};
    assert Board() == free + occupied;
  }

  /**
   * Food can be placed exactly when the body does not fill the board; in
   * particular a body without duplicates never has more cells than the board.
   */
  lemma FoodPlaceable(body: seq<Cell>)
    requires OnBoard(body) && NoDuplicates(body)
    ensures |body| <= Area
    ensures FreeCells(body) != {} <==> |body| < Area
  {
    FreeCellCount(body);
  }

  /** Once the body fills the board, every move ends the game. */
  lemma FullBoardCollides(body: seq<Cell>, d: Direction)
    requires ValidBody(body) && |body| == Area
    ensures Collides(Move(body[0], d), body)
  {
    FreeCellCount(body);
    var h := Move(body[0], d);
    assert h !in FreeCells(body);
  }
}
