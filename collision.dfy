/** Collision detection: may the player's piece, moved by an offset, occupy
    the cells it would cover? */
module Collision {
  import opened Playfield

  /** The board cell at (r, c) exists and is 'clear', so a piece may enter it. */
  predicate Free(s: Stage, r: int, c: int) {
    OnBoard(s, r, c) && s[r][c].status == Clear
  }

  /** Some nonzero sub-cell of the piece, moved by (dx, dy), lands outside the
      board's rows, outside its row's columns, or on a cell that is not clear. */
  predicate Collides(p: Player, s: Stage, dx: int, dy: int) {
    exists y, x :: 0 <= y < |p.tetromino| && 0 <= x < |p.tetromino[y]| && p.tetromino[y][x] != 0 &&
      !Free(s, y + p.pos.y + dy, x + p.pos.x + dx)
  }

  /** The player moved by (dx, dy), everything else kept. */
  function Moved(p: Player, dx: int, dy: int): (q: Player)
    ensures q.tetromino == p.tetromino && q.collided == p.collided
    ensures q.pos.x - p.pos.x == dx && q.pos.y - p.pos.y == dy
  {
    p.(pos := Pos(p.pos.x + dx, p.pos.y + dy))
  }

  /** Scans the piece row by row and reports a collision at the first
      nonzero sub-cell whose target is off the board or not clear. */
  method CheckCollision(p: Player, s: Stage, dx: int, dy: int) returns (r: bool)
    ensures r == Collides(p, s, dx, dy)
    ensures !r <==> forall y, x :: 0 <= y < |p.tetromino| && 0 <= x < |p.tetromino[y]| && p.tetromino[y][x] != 0 ==>
                      Free(s, y + p.pos.y + dy, x + p.pos.x + dx)
  {
    var t := p.tetromino;
    for y := 0 to |t|
      invariant forall i, j :: 0 <= i < y && 0 <= j < |t[i]| && t[i][j] != 0 ==> Free(s, i + p.pos.y + dy, j + p.pos.x + dx)
    {
      for x := 0 to |t[y]|
        invariant forall j :: 0 <= j < x && t[y][j] != 0 ==> Free(s, y + p.pos.y + dy, j + p.pos.x + dx)
      {
        if t[y][x] != 0 {
          var ty, tx := y + p.pos.y + dy, x + p.pos.x + dx;
          if !(0 <= ty < |s|) || !(0 <= tx < |s[ty]|) || s[ty][tx].status != Clear {
            assert !Free(s, y + p.pos.y + dy, x + p.pos.x + dx);
            return true;
          }
        }
      }
    }
    return false;
  }

  /** Delegates to CheckCollision with the same arguments. */
  method IsColliding(p: Player, s: Stage, dx: int, dy: int) returns (r: bool)
    ensures r == Collides(p, s, dx, dy)
  {
    r := CheckCollision(p, s, dx, dy);
  }

  /** A nonzero sub-cell whose target is off the board, in rows or in
      columns, is enough for a collision. */
  lemma OffBoardCollides(p: Player, s: Stage, dx: int, dy: int, y: int, x: int)
    requires 0 <= y < |p.tetromino| && 0 <= x < |p.tetromino[y]| && p.tetromino[y][x] != 0
    requires !OnBoard(s, y + p.pos.y + dy, x + p.pos.x + dx)
    ensures Collides(p, s, dx, dy)
  {
    assert !Free(s, y + p.pos.y + dy, x + p.pos.x + dx);
  }

  /** A nonzero sub-cell landing on a merged cell is enough for a collision. */
  lemma MergedCellCollides(p: Player, s: Stage, dx: int, dy: int, y: int, x: int)
    requires 0 <= y < |p.tetromino| && 0 <= x < |p.tetromino[y]| && p.tetromino[y][x] != 0
    requires OnBoard(s, y + p.pos.y + dy, x + p.pos.x + dx)
    requires s[y + p.pos.y + dy][x + p.pos.x + dx].status == Merged
    ensures Collides(p, s, dx, dy)
  {
    assert !Free(s, y + p.pos.y + dy, x + p.pos.x + dx);
  }

  /** Only the status of a cell matters: two stages of the same shape whose
      cells agree in status agree on every collision, whatever the symbols. */
  lemma OnlyStatusBlocks(p: Player, s1: Stage, s2: Stage, dx: int, dy: int)
    requires |s1| == |s2| && forall r :: 0 <= r < |s1| ==> |s1[r]| == |s2[r]|
    requires forall r, c :: 0 <= r < |s1| && 0 <= c < |s1[r]| ==> s1[r][c].status == s2[r][c].status
    ensures Collides(p, s1, dx, dy) == Collides(p, s2, dx, dy)
  {
    forall r, c ensures Free(s1, r, c) == Free(s2, r, c) {
    }
  }

  /** A move that does not collide leaves the moved piece wholly on the board. */
  lemma MovedStaysInBounds(p: Player, s: Stage, dx: int, dy: int)
    requires !Collides(p, s, dx, dy)
    ensures InBounds(Moved(p, dx, dy), s)
  {
    var q := Moved(p, dx, dy);
    forall y, x | 0 <= y < |q.tetromino| && 0 <= x < |q.tetromino[y]| && q.tetromino[y][x] != 0
      ensures OnBoard(s, y + q.pos.y, x + q.pos.x)
    {
      assert Free(s, y + p.pos.y + dy, x + p.pos.x + dx);
    }
  }

  /** On the empty board a piece collides exactly when it would leave the board. */
  lemma EmptyStageBlocksOnlyAtEdges(p: Player, dx: int, dy: int)
    ensures !Collides(p, CreateStage(), dx, dy) <==> InBounds(Moved(p, dx, dy), CreateStage())
  {
    var s := CreateStage();
    if !Collides(p, s, dx, dy) {
      MovedStaysInBounds(p, s, dx, dy);
    }
    if InBounds(Moved(p, dx, dy), s) {
      var q := Moved(p, dx, dy);
      forall y, x | 0 <= y < |p.tetromino| && 0 <= x < |p.tetromino[y]| && p.tetromino[y][x] != 0
        ensures Free(s, y + p.pos.y + dy, x + p.pos.x + dx)
      {
        assert q.tetromino[y][x] != 0;
        assert OnBoard(s, y + q.pos.y, x + q.pos.x);
      }
    }
  }

  /** While a piece with a block in it has not collided one row further
      down, that block is still above the floor. */
  lemma AboveFloor(p: Player, s: Stage, d: int)
    requires HasNonZero(p.tetromino)
    requires !Collides(p, s, 0, d + 1)
    ensures p.pos.y + d + 1 < |s|
  {
    var y, x :| 0 <= y < |p.tetromino| && 0 <= x < |p.tetromino[y]| && p.tetromino[y][x] != 0;
    assert Free(s, y + p.pos.y + d + 1, x + p.pos.x + 0);
  }
}
