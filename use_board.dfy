/** The board hook: it owns the stage and the number of rows the last
    landing cleared, and redraws the stage whenever the player changes. */
module UseBoard {
  import opened Playfield
  import opened Sweep

  /** Writes the piece's nonzero sub-cells into the stage one by one. This
      hook does not check the target row, so every target must be on the board. */
  method DrawOnBoard(s: Stage, p: Player) returns (r: Stage)
    requires InBounds(p, s)
    ensures r == Stamp(s, p)
  {
    r := s;
    var t := p.tetromino;
    for y := 0 to |t|
      invariant |r| == |s| && forall i :: 0 <= i < |s| ==> |r[i]| == |s[i]|
      invariant forall i, j :: OnBoard(s, i, j) ==> r[i][j] == DrawnBy(s, p, i, j, y, 0)
    {
      for x := 0 to |t[y]|
        invariant |r| == |s| && forall i :: 0 <= i < |s| ==> |r[i]| == |s[i]|
        invariant forall i, j :: OnBoard(s, i, j) ==> r[i][j] == DrawnBy(s, p, i, j, y, x)
      {
        if t[y][x] != 0 {
          r := r[y + p.pos.y := r[y + p.pos.y][x + p.pos.x := Cell(t[y][x], StampStatus(p))]];
        }
      }
    }
    StampFromDrawn(s, p, r);
  }

  class BoardHook {
    var stage: Stage
    var rowsCleared: nat

    constructor ()
      ensures stage == CreateStage() && rowsCleared == 0
    {
      stage := CreateStage();
      rowsCleared := 0;
    }

    /** Flushes the stage and draws the player. A landed player is merged,
        the complete rows are swept and counted, and the caller is told to
        spawn the next piece; otherwise rowsCleared keeps its value. */
    method UpdateStage(p: Player) returns (resetPlayer: bool)
      requires InBounds(p, stage)
      modifies this
      ensures resetPlayer == p.collided
      ensures p.collided ==> stage == Swept(Stamp(Flush(old(stage)), p))
      ensures p.collided ==> rowsCleared == CountComplete(Stamp(Flush(old(stage)), p))
      ensures !p.collided ==> stage == Stamp(Flush(old(stage)), p) && rowsCleared == old(rowsCleared)
    {
      var newStage := Flush(stage);
      newStage := DrawOnBoard(newStage, p);
      if p.collided {
        var swept, linesCleared := SweepRows(newStage);
        rowsCleared := linesCleared;
        resetPlayer := true;
        stage := swept;
      } else {
        resetPlayer := false;
        stage := newStage;
      }
    }
  }
}
