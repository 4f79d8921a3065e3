/** Merge and sweep: erase the previous image of the falling piece, draw the
    piece at its current position, and, once it has landed, remove the
    complete rows and put empty rows on top. */
module Sweep {
  import opened Playfield

  // ---------------------------------------------------------------------
  // Flush
  // ---------------------------------------------------------------------

  /** No cell holds a transient image: every clear cell is empty. */
  predicate NoTransient(s: Stage) {
    forall i, j :: 0 <= i < |s| && 0 <= j < |s[i]| && s[i][j].status == Clear ==> s[i][j] == EMPTY
  }

  /** A clear cell becomes empty; a merged cell stays as it is. */
  function FlushCell(c: Cell): Cell {
    if c.status == Clear then EMPTY else c
  }

  function FlushRow(row: Row): (r: Row)
    ensures |r| == |row| && forall j :: 0 <= j < |row| ==> r[j] == FlushCell(row[j])
  {
    seq(|row|, j requires 0 <= j < |row| => FlushCell(row[j]))
  }

  /** Every clear cell becomes empty; merged cells stay as they are. */
  function Flush(s: Stage): (r: Stage)
    ensures |r| == |s| && forall i :: 0 <= i < |s| ==> |r[i]| == |s[i]|
    ensures forall i, j :: 0 <= i < |s| && 0 <= j < |s[i]| ==> r[i][j] == FlushCell(s[i][j])
  {
    seq(|s|, i requires 0 <= i < |s| => FlushRow(s[i]))
  }

  /** A flushed stage holds no transient image. */
  lemma FlushLeavesNoTransient(s: Stage)
    ensures NoTransient(Flush(s))
  {
  }

  /** Flushing changes a stage exactly when it holds a transient image. */
  lemma FlushFixesExactlyTheSettled(s: Stage)
    ensures Flush(s) == s <==> NoTransient(s)
  {
    if NoTransient(s) {
      forall i | 0 <= i < |s| ensures Flush(s)[i] == s[i] {
        assert forall j :: 0 <= j < |s[i]| ==> Flush(s)[i][j] == s[i][j];
      }
    }
  }

  lemma FlushTwice(s: Stage)
    ensures Flush(Flush(s)) == Flush(s)
  {
    FlushFixesExactlyTheSettled(Flush(s));
  }

  // ---------------------------------------------------------------------
  // Stamp
  // ---------------------------------------------------------------------

  /** The value of the piece sub-cell that lands on board cell (r, c), or 0. */
  function Cover(p: Player, r: int, c: int): int {
    var y, x := r - p.pos.y, c - p.pos.x;
    if 0 <= y < |p.tetromino| && 0 <= x < |p.tetromino[y]| then p.tetromino[y][x] else 0
  }

  function StampStatus(p: Player): Status {
    if p.collided then Merged else Clear
  }

  /** Board cell (i, j), holding c, once the piece is drawn over it. */
  function StampCell(c: Cell, p: Player, i: int, j: int): Cell {
    if Cover(p, i, j) != 0 then Cell(Cover(p, i, j), StampStatus(p)) else c
  }

  /** Row i of the stage with the piece drawn over it. */
  function StampRow(row: Row, p: Player, i: int): (r: Row)
    ensures |r| == |row| && forall j :: 0 <= j < |row| ==> r[j] == StampCell(row[j], p, i, j)
  {
    seq(|row|, j requires 0 <= j < |row| => StampCell(row[j], p, i, j))
  }

  /** The stage with the player's piece drawn on it: merged if it has
      collided, clear otherwise. Sub-cells off the board are dropped. */
  function Stamp(s: Stage, p: Player): (r: Stage)
    ensures |r| == |s| && forall i :: 0 <= i < |s| ==> |r[i]| == |s[i]|
    ensures forall i, j :: 0 <= i < |s| && 0 <= j < |s[i]| ==> r[i][j] == StampCell(s[i][j], p, i, j)
  {
    seq(|s|, i requires 0 <= i < |s| => StampRow(s[i], p, i))
  }

  /** Each nonzero sub-cell of the piece that lands on the board is written
      there with the piece's status; every cell the piece does not cover is
      left as it was. */
  lemma StampDrawsThePiece(s: Stage, p: Player)
    ensures forall y, x ::
              0 <= y < |p.tetromino| && 0 <= x < |p.tetromino[y]| && p.tetromino[y][x] != 0 && OnBoard(s, y + p.pos.y, x + p.pos.x)
              ==> Stamp(s, p)[y + p.pos.y][x + p.pos.x] == Cell(p.tetromino[y][x], StampStatus(p))
    ensures forall i, j :: OnBoard(s, i, j) && Cover(p, i, j) == 0 ==> Stamp(s, p)[i][j] == s[i][j]
  {
  }

  /** Cell (i, j) once the sub-cells of rows before y, and of row y before
      column x, have been drawn. */
  function DrawnBy(s: Stage, p: Player, i: int, j: int, y: int, x: int): Cell
    requires OnBoard(s, i, j)
  {
    var cy, cx := i - p.pos.y, j - p.pos.x;
    if Cover(p, i, j) != 0 && (cy < y || (cy == y && cx < x)) then Cell(Cover(p, i, j), StampStatus(p))
    else s[i][j]
  }

  /** Writes the piece's nonzero sub-cells into the stage one by one,
      skipping those whose row is off the board. */
  method DrawPlayer(s: Stage, p: Player) returns (r: Stage)
    requires ColumnsFit(p, s)
    ensures r == Stamp(s, p)
  {
    r := s;
    var t := p.tetromino;
    for y := 0 to |t|
      invariant |r| == |s| && forall i :: 0 <= i < |s| ==> |r[i]| == |s[i]|
      invariant forall i, j :: OnBoard(s, i, j) ==> r[i][j] == DrawnBy(s, p, i, j, y, 0)
    {
      for x := 0 to |t[y]|
        invariant |r| == |s| && forall i :: 0 <= i < |s| ==> |r[i]| == |s[i]|
        invariant forall i, j :: OnBoard(s, i, j) ==> r[i][j] == DrawnBy(s, p, i, j, y, x)
      {
        if t[y][x] != 0 {
          var newY, newX := y + p.pos.y, x + p.pos.x;
          if 0 <= newY < |r| {
            r := r[newY := r[newY][newX := Cell(t[y][x], StampStatus(p))]];
          }
        }
      }
    }
    StampFromDrawn(s, p, r);
  }

  /** Once every row of the piece is drawn, the stage is the stamped one. */
  lemma StampFromDrawn(s: Stage, p: Player, r: Stage)
    requires |r| == |s| && forall i :: 0 <= i < |s| ==> |r[i]| == |s[i]|
    requires forall i, j :: OnBoard(s, i, j) ==> r[i][j] == DrawnBy(s, p, i, j, |p.tetromino|, 0)
    ensures r == Stamp(s, p)
  {
    var st := Stamp(s, p);
    forall i | 0 <= i < |s| ensures r[i] == st[i] {
      forall j | 0 <= j < |s[i]| ensures r[i][j] == st[i][j] {
        assert OnBoard(s, i, j);
      }
    }
  }

  /** The image of a piece that has not landed leaves no trace once flushed,
      provided it covers no merged cell. */
  lemma ImageFlushesAway(s: Stage, p: Player)
    requires !p.collided
    requires forall i, j :: OnBoard(s, i, j) && Cover(p, i, j) != 0 ==> s[i][j].status == Clear
    ensures Flush(Stamp(s, p)) == Flush(s)
  {
    var a, b := Flush(Stamp(s, p)), Flush(s);
    forall i | 0 <= i < |s| ensures a[i] == b[i] {
      forall j | 0 <= j < |s[i]| ensures a[i][j] == b[i][j] {
        assert OnBoard(s, i, j);
      }
    }
  }

  // ---------------------------------------------------------------------
  // Complete rows
  // ---------------------------------------------------------------------

  /** The index of the first empty cell of the row, or -1 when there is none. */
  function FindEmpty(row: Row): (k: int)
    ensures -1 <= k < |row|
    ensures k == -1 <==> IsComplete(row)
    ensures k >= 0 ==> row[k].symbol == 0 && forall j :: 0 <= j < k ==> row[j].symbol != 0
  {
    if |row| == 0 then -1
    else if row[0].symbol == 0 then 0
    else
      var k := FindEmpty(row[1..]);
      if k == -1 then -1 else k + 1
  }

  /** A row is complete when it has no empty cell. */
  predicate IsComplete(row: Row) {
    forall j :: 0 <= j < |row| ==> row[j].symbol != 0
  }

  /** No row of the stage is complete. */
  predicate Settled(s: Stage) {
    forall i :: 0 <= i < |s| ==> !IsComplete(s[i])
  }

  function CountComplete(s: Stage): nat {
    if |s| == 0 then 0
    else CountComplete(s[..|s| - 1]) + (if IsComplete(s[|s| - 1]) then 1 else 0)
  }

  /** The rows that are not complete, in their original order. */
  function Incomplete(s: Stage): (r: Stage)
    ensures CountComplete(s) + |r| == |s|
    ensures forall i :: 0 <= i < |r| ==> !IsComplete(r[i]) && r[i] in s
  {
    if |s| == 0 then []
    else
      var rest := Incomplete(s[..|s| - 1]);
      if IsComplete(s[|s| - 1]) then rest else rest + [s[|s| - 1]]
  }

  /** A single row is kept exactly when it is incomplete. */
  lemma IncompleteOfOne(row: Row)
    ensures Incomplete([row]) == if IsComplete(row) then [] else [row]
  {
    assert [row][..0] == [];
  }

  /** Filtering two stacked stages is filtering each part, in order. With
      IncompleteOfOne this says that Incomplete keeps every incomplete row,
      drops every complete one, and keeps the original order. */
  lemma {:induction false} IncompleteSplits(a: Stage, b: Stage)
    ensures Incomplete(a + b) == Incomplete(a) + Incomplete(b)
    decreases |b|
  {
    if |b| == 0 {
      assert a + b == a;
    } else {
      var init := b[..|b| - 1];
      assert (a + b)[..|a + b| - 1] == a + init;
      assert (a + b)[|a + b| - 1] == b[|b| - 1];
      IncompleteSplits(a, init);
    }
  }

  /** The width of the first row, which a new empty row copies. */
  function Width(s: Stage): nat {
    if |s| == 0 then 0 else |s[0]|
  }

  /** One empty row for every complete row, then the incomplete rows in
      their original order. */
  function Swept(s: Stage): (r: Stage)
    ensures |r| == |s|
    ensures (forall i :: 0 <= i < |s| ==> |s[i]| == Width(s)) ==> forall i :: 0 <= i < |r| ==> |r[i]| == Width(s)
  {
    EmptyRows(CountComplete(s), Width(s)) + Incomplete(s)
  }

  /** Walks the rows from the top: a complete row is counted and an empty
      row goes in front of the result; any other row goes at its end. */
  method SweepRows(s: Stage) returns (swept: Stage, linesCleared: nat)
    ensures linesCleared == CountComplete(s)
    ensures swept == Swept(s)
  {
    swept, linesCleared := [], 0;
    for i := 0 to |s|
      invariant linesCleared == CountComplete(s[..i])
      invariant swept == EmptyRows(linesCleared, Width(s)) + Incomplete(s[..i])
    {
      SweepInvariantStep(s, i, linesCleared, swept);
      if FindEmpty(s[i]) == -1 {
        linesCleared := linesCleared + 1;
        swept := [EmptyRow(Width(s))] + swept;
      } else {
        swept := swept + [s[i]];
      }
    }
    assert s[..|s|] == s;
  }

  /** Taking row i into the sweep: it is counted if complete and kept at
      the end otherwise. */
  lemma SweepStep(s: Stage, i: nat)
    requires i < |s|
    ensures CountComplete(s[..i + 1]) == CountComplete(s[..i]) + (if IsComplete(s[i]) then 1 else 0)
    ensures Incomplete(s[..i + 1]) == if IsComplete(s[i]) then Incomplete(s[..i]) else Incomplete(s[..i]) + [s[i]]
  {
    assert s[..i + 1][..i] == s[..i];
  }

  /** The sweep loop's invariant is kept by row i, whichever branch it takes. */
  lemma SweepInvariantStep(s: Stage, i: nat, k: nat, swept: Stage)
    requires i < |s| && k == CountComplete(s[..i]) && swept == EmptyRows(k, Width(s)) + Incomplete(s[..i])
    ensures IsComplete(s[i]) ==>
              k + 1 == CountComplete(s[..i + 1]) && [EmptyRow(Width(s))] + swept == EmptyRows(k + 1, Width(s)) + Incomplete(s[..i + 1])
    ensures !IsComplete(s[i]) ==>
              k == CountComplete(s[..i + 1]) && swept + [s[i]] == EmptyRows(k, Width(s)) + Incomplete(s[..i + 1])
  {
    SweepStep(s, i);
    OneMoreEmptyRow(k, Width(s));
  }

  lemma OneMoreEmptyRow(k: nat, w: nat)
    ensures EmptyRows(k + 1, w) == [EmptyRow(w)] + EmptyRows(k, w)
  {
  }

  // ---------------------------------------------------------------------
  // Properties of the sweep
  // ---------------------------------------------------------------------

  lemma {:induction false} SettledHasNoneComplete(s: Stage)
    requires Settled(s)
    ensures CountComplete(s) == 0 && Incomplete(s) == s
  {
    if |s| > 0 {
      SettledHasNoneComplete(s[..|s| - 1]);
      assert s == s[..|s| - 1] + [s[|s| - 1]];
    }
  }

  /** A stage with no complete row is left exactly as it is. */
  lemma SweepOfSettled(s: Stage)
    requires Settled(s)
    ensures Swept(s) == s
  {
    SettledHasNoneComplete(s);
    assert EmptyRows(0, Width(s)) == [];
  }

  /** After a sweep no complete row remains, as long as rows have cells. */
  lemma SweptIsSettled(s: Stage)
    requires Width(s) > 0
    ensures Settled(Swept(s))
  {
    var r := Swept(s);
    var k := CountComplete(s);
    forall i | 0 <= i < |r| ensures !IsComplete(r[i]) {
      if i < k {
        assert r[i] == EmptyRow(Width(s));
        assert r[i][0].symbol == 0;
      } else {
        assert r[i] == Incomplete(s)[i - k];
      }
    }
  }

  /** Sweeping twice is sweeping once. */
  lemma SweepTwice(s: Stage)
    requires Width(s) > 0
    ensures Swept(Swept(s)) == Swept(s)
  {
    SweptIsSettled(s);
    SweepOfSettled(Swept(s));
  }

  /** The empty stage is left as it is by a flush and has no complete row. */
  lemma EmptyStageIsSettled()
    ensures Flush(CreateStage()) == CreateStage()
    ensures Settled(CreateStage())
  {
    var s := CreateStage();
    FlushFixesExactlyTheSettled(s);
    forall i | 0 <= i < |s| ensures !IsComplete(s[i]) {
      assert s[i][0].symbol == 0;
    }
  }

  /** A row with an empty cell stays incomplete after flushing. */
  lemma FlushKeepsSettled(s: Stage)
    requires Settled(s)
    ensures Settled(Flush(s))
  {
    var f := Flush(s);
    forall i | 0 <= i < |s| ensures !IsComplete(f[i]) {
      var k := FindEmpty(s[i]);
      assert f[i][k].symbol == 0;
    }
  }

  /** Drawing a piece that has not landed, then flushing, brings back no
      complete row: every cell the piece covered is empty again. */
  lemma RedrawKeepsSettled(s: Stage, p: Player)
    requires Settled(Flush(s)) && !p.collided
    ensures Settled(Flush(Stamp(Flush(s), p)))
  {
    var f := Flush(s);
    var g := Flush(Stamp(f, p));
    forall i | 0 <= i < |g| ensures !IsComplete(g[i]) {
      var k := FindEmpty(f[i]);
      assert g[i][k].symbol == 0;
    }
  }

  /** A row the piece does not reach is the same after stamping. */
  lemma UntouchedRow(s: Stage, p: Player, i: int)
    requires 0 <= i < |s| && !(0 <= i - p.pos.y < |p.tetromino|)
    ensures Stamp(s, p)[i] == s[i]
  {
    var r := Stamp(s, p);
    forall j | 0 <= j < |s[i]| ensures r[i][j] == s[i][j] {
      assert OnBoard(s, i, j) && Cover(p, i, j) == 0;
    }
  }

  /** The number of rows from 0 to m - 1 that lie in [lo, lo + n). */
  function RowsInWindow(m: int, lo: int, n: nat): nat {
    var a := if lo < 0 then 0 else lo;
    var b := if lo + n < m then lo + n else m;
    if b < a then 0 else b - a
  }

  lemma {:induction false} CompleteRowsInWindow(s: Stage, lo: int, n: nat)
    requires forall i :: 0 <= i < |s| && IsComplete(s[i]) ==> lo <= i < lo + n
    ensures CountComplete(s) <= RowsInWindow(|s|, lo, n)
  {
    if |s| > 0 {
      var m := |s| - 1;
      assert forall i :: 0 <= i < m ==> s[..m][i] == s[i];
      CompleteRowsInWindow(s[..m], lo, n);
    }
  }

  /** Landing a piece on a stage with no complete row completes at most as
      many rows as the piece has. */
  lemma LandingCompletesAtMost(s: Stage, p: Player)
    requires Settled(s)
    ensures CountComplete(Stamp(s, p)) <= |p.tetromino|
  {
    var r := Stamp(s, p);
    forall i | 0 <= i < |r| && IsComplete(r[i]) ensures p.pos.y <= i < p.pos.y + |p.tetromino| {
      if !(0 <= i - p.pos.y < |p.tetromino|) {
        UntouchedRow(s, p, i);
      }
    }
    CompleteRowsInWindow(r, p.pos.y, |p.tetromino|);
  }
}
