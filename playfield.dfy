/** The playing field of the game: board cells, the stage grid, piece
    matrices and the player record that the rest of the engine works on. */
module Playfield {

  const STAGE_WIDTH: nat := 12
  const STAGE_HEIGHT: nat := 20

  /** Every shape in the piece catalog fits a 4 by 4 box. */
  const MAX_PIECE: nat := 4

  /** A 'clear' cell holds at most the falling piece's transient image and is
      rewritten on every redraw; a 'merged' cell holds part of a landed piece. */
  datatype Status = Clear | Merged

  /** A board cell: the symbol drawn there (0 is empty) and its status. */
  datatype Cell = Cell(symbol: int, status: Status)

  const EMPTY: Cell := Cell(0, Clear)

  type Row = seq<Cell>

  /** Rows from the top (row 0) down; each row lists its cells from the left. */
  type Stage = seq<Row>

  /** A piece matrix: 0 is an empty sub-cell, any other value the piece's symbol. */
  type Piece = seq<seq<int>>

  datatype Pos = Pos(x: int, y: int)

  /** The falling piece: where the origin of its matrix sits on the stage, the
      matrix itself, and whether its last step down was refused. */
  datatype Player = Player(pos: Pos, tetromino: Piece, collided: bool)

  predicate IsStage(s: Stage) {
    |s| == STAGE_HEIGHT && forall r :: 0 <= r < |s| ==> |s[r]| == STAGE_WIDTH
  }

  /** A row of w empty cells. */
  function EmptyRow(w: nat): (r: Row)
    ensures |r| == w && forall j :: 0 <= j < w ==> r[j] == EMPTY
  {
    seq(w, _ => EMPTY)
  }

  /** k empty rows of width w. */
  function EmptyRows(k: nat, w: nat): (r: Stage)
    ensures |r| == k && forall i :: 0 <= i < k ==> r[i] == EmptyRow(w)
  {
    seq(k, _ => EmptyRow(w))
  }

  /** A board with every cell empty. */
  function CreateStage(): (s: Stage)
    ensures IsStage(s)
    ensures forall r, c :: 0 <= r < |s| && 0 <= c < |s[r]| ==> s[r][c] == EMPTY
  {
    EmptyRows(STAGE_HEIGHT, STAGE_WIDTH)
  }

  predicate OnBoard(s: Stage, r: int, c: int) {
    0 <= r < |s| && 0 <= c < |s[r]|
  }

  /** Every nonzero sub-cell of the player's piece lies on the board. */
  predicate InBounds(p: Player, s: Stage) {
    forall y, x :: 0 <= y < |p.tetromino| && 0 <= x < |p.tetromino[y]| && p.tetromino[y][x] != 0 ==>
      OnBoard(s, y + p.pos.y, x + p.pos.x)
  }

  /** Whether a piece lies on the board does not depend on its landed flag. */
  lemma InBoundsIgnoresLanding(p: Player, s: Stage, collided: bool)
    ensures InBounds(p.(collided := collided), s) == InBounds(p, s)
  {
  }

  /** Every nonzero sub-cell that lands in a row of the board also lands in
      one of that row's columns. */
  predicate ColumnsFit(p: Player, s: Stage) {
    forall y, x ::
      0 <= y < |p.tetromino| && 0 <= x < |p.tetromino[y]| && p.tetromino[y][x] != 0 && 0 <= y + p.pos.y < |s|
      ==> 0 <= x + p.pos.x < |s[y + p.pos.y]|
  }

  predicate IsSquare(m: Piece) {
    forall i :: 0 <= i < |m| ==> |m[i]| == |m|
  }

  predicate HasNonZero(m: Piece) {
    exists y, x :: 0 <= y < |m| && 0 <= x < |m[y]| && m[y][x] != 0
  }

  /** What a catalog piece looks like: a square of side 1 to 4 with a block in it. */
  predicate IsShape(m: Piece) {
    IsSquare(m) && 1 <= |m| <= MAX_PIECE && HasNonZero(m)
  }

  /** A small square piece whose origin sits within the top-left 17 by 9
      corner of a stage of the standard size lies wholly on the board. */
  lemma SmallPieceInBounds(p: Player, s: Stage)
    requires IsStage(s) && IsSquare(p.tetromino) && |p.tetromino| <= MAX_PIECE
    requires 0 <= p.pos.x <= STAGE_WIDTH - MAX_PIECE && 0 <= p.pos.y <= STAGE_HEIGHT - MAX_PIECE
    ensures InBounds(p, s)
  {
  }
}
