# Tetris engine, modelled in Dafny

This project models the game-state engine of a browser Tetris clone. The
engine consists of the following parts:

- **Playfield** (`playfield.dfy`): the 20 by 12 stage of `[symbol, status]` cells.
  A cell is either `clear`, meaning empty or holding the falling piece's
  transient image, or `merged`, meaning part of a landed piece. The module also
  defines piece matrices, the player record (position, matrix, `collided`
  flag) and `createStage`.
- **Collision** (`collision.dfy`): `checkCollision` as a nested loop with an
  early exit, proved equal to a declarative predicate. `isColliding` delegates
  to it. The lemmas give the three ways a piece can be blocked: off the board's
  rows, off its columns, or on a cell that is not clear.
- **Rotation** (`rotation.dfy`): `rotate` in both directions and the session's
  own `rotateMatrix`. Proved: the index formula of each turn, that the two
  turns undo each other, that four turns are the identity, and that the
  multiset of entries is kept.
- **Merge and sweep** (`sweep.dfy`): the three steps of `updateStage`.
  - Flush erases the transient image.
  - Stamp draws the piece, as a function and as the source's in-place write
    loop.
  - Sweep is the `reduce` loop that removes complete rows and puts empty rows
    on top. It is characterised as "k empty rows, then the incomplete rows in
    their original order".
- **Scoring** (`scoring.dfy`): the `linePoints` table, the score, rows and
  level update after a landing, its accumulation over many landings, and the
  status hook as a class.
- **Board hook** (`use_board.dfy`): the hook's `updateStage`. Its stamp has no
  row guard, and it reports `rowsCleared`.
- **Session** (`game.dfy`): the state the screen shows (stage, player, score,
  rows, level, game-over flag, gravity interval) as one class. There is one
  method per handler:
  - gravity `drop`
  - the down arrow, `dropPlayer`
  - left and right moves
  - rotate-if-fits
  - hard drop, whose probe loop terminates because the floor is finite
  - key up
  - `startGame`
  - the landing that merges, sweeps, scores and spawns

  Each handler runs to completion, together with the redraw, sweep and level
  updates that its change of state triggers. The session invariant `Valid`
  says the following:
  - the stage has the standard size;
  - the piece is a square of side 1 to 4 lying wholly on the board;
  - the landed blocks complete no row;
  - the level equals rows / 10;
  - a finished game has no gravity.

  Every handler preserves this invariant. It is what makes the `linePoints`
  lookup always defined: a landing completes at most as many rows as the piece
  has.

The next piece is a parameter of every handler that may spawn one, because the
random choice from the piece catalog is outside the model. The landing effect
(`Game.Session.Land`) computes the merged, swept and scored state on values
and then writes all the fields at once; the other handlers update the player
and then redraw the stage, as the source's state updates and redraw effect do.

Some behaviours of the code worth knowing, all modelled as written:
- **Hard drop never ends the game.** Only the gravity step checks
  `pos.y < 1` (src/App.jsx:113); the space-bar branch (src/App.jsx:157-163)
  lands the piece without that check. `Game.Session.HardDrop` keeps
  `gameOver` and `dropTime` as they were.
- **Spawn column.** Every new piece starts at x = `STAGE_WIDTH / 2 - 2` = 4,
  whatever its width (src/App.jsx:33, `Game.Spawn`).
- **`linePoints` beyond four rows.** The table has four entries
  (src/App.jsx:28) and is indexed by the number of rows cleared. A landing
  never clears more than four rows, so the lookup is always defined:
  `Sweep.LandingCompletesAtMost` with `Game.LandingKeepsStage` prove it.
- **Stamp guards.** The session's stamp skips sub-cells whose row is off the
  board (`Sweep.DrawPlayer`). The board hook's stamp has no guard at all, so
  `UseBoard.DrawOnBoard` requires the piece to lie on the board.
- **`rowsCleared` on a plain redraw.** The board hook keeps its last
  `rowsCleared` when the player has not landed. It does not reset it to 0.

## Model

| member | source | states |
|---|---|---|
| Playfield.EmptyRow | src/gameHelpers.js:9 | a new row has the requested width and every cell is `[0, 'clear']` |
| Playfield.EmptyRows | src/gameHelpers.js:8-9 | k rows, each of them an empty row of the given width |
| Playfield.CreateStage | src/gameHelpers.js:7-10 | the new stage has exactly 20 rows of 12 cells, every cell `[0, 'clear']` |
| Playfield.SmallPieceInBounds | src/App.jsx:31-37 | a catalog-sized square piece at a position like the spawn point lies wholly on the board |
| Collision.Moved | src/App.jsx:40-46 | the moved player differs from the original exactly by the offset in position; matrix and flag are kept |
| Collision.CheckCollision | src/gameHelpers.js:13-33 | the scan reports a collision exactly when some nonzero sub-cell, moved by the offset, is off the board or on a cell that is not clear; false if and only if every nonzero sub-cell lands on a clear cell |
| Collision.IsColliding | src/gameHelpers.js:49-51 | returns the same answer as `checkCollision` for the same arguments |
| Collision.OffBoardCollides | src/gameHelpers.js:17-23 | one nonzero sub-cell whose target row or column is outside the board forces a collision |
| Collision.MergedCellCollides | src/gameHelpers.js:24-25 | one nonzero sub-cell landing on a merged cell forces a collision |
| Collision.OnlyStatusBlocks | src/gameHelpers.js:24-25 | two stages whose cells agree in status agree on every collision, whatever their symbols: clear cells never block |
| Collision.MovedStaysInBounds | src/gameHelpers.js:13-33 | a move that does not collide leaves the moved piece wholly on the board |
| Collision.EmptyStageBlocksOnlyAtEdges | src/gameHelpers.js:13-33 | on the empty stage a move collides if and only if it takes the piece off the board |
| Collision.AboveFloor | src/App.jsx:159-162 | while the probe finds no collision one row further down, the piece is still above the floor, which bounds the hard-drop loop |
| Rotation.Rotate | src/gameHelpers.js:36-46 | for a square matrix, the clockwise turn has `r[i][j] == m[n-1-j][i]` and the counter-clockwise turn has `r[i][j] == m[j][n-1-i]`; the result is square of the same side |
| Rotation.RotateMatrix | src/App.jsx:169-174 | the session's rotation equals the clockwise `rotate` |
| Rotation.TurnsUndoEachOther | src/gameHelpers.js:38-45 | a clockwise then a counter-clockwise turn, in either order, give back the matrix |
| Rotation.FourTurns | src/gameHelpers.js:36-46 | four clockwise turns give back the matrix |
| Rotation.TurnKeepsBlocks | src/gameHelpers.js:36-46 | a turned piece has a nonzero sub-cell if and only if the original had one |
| Rotation.TurnKeepsEntries | src/gameHelpers.js:36-46 | a turn in either direction keeps the multiset of entries, so in particular the number of nonzero sub-cells |
| Rotation.TransposeKeepsEntries | src/gameHelpers.js:38-40 | the transpose step keeps the multiset of entries |
| Sweep.FlushRow | src/App.jsx:52 | each cell of the row is flushed on its own: a clear cell becomes empty, a merged cell is kept |
| Sweep.Flush | src/App.jsx:51-53 | same shape as before; every clear cell becomes `[0, 'clear']` and every merged cell is unchanged |
| Sweep.FlushLeavesNoTransient | src/App.jsx:51-53 | after a flush no clear cell holds a symbol |
| Sweep.FlushFixesExactlyTheSettled | src/App.jsx:51-53 | a flush leaves a stage unchanged if and only if no clear cell of it holds a symbol |
| Sweep.FlushTwice | src/hooks/useBoard.js:12-14 | flushing is idempotent |
| Sweep.StampRow | src/App.jsx:57-68 | each cell of a row is overwritten exactly where the piece covers it with a nonzero sub-cell |
| Sweep.Stamp | src/App.jsx:56-69 | same shape as before; each cell is the piece's value with its status where a nonzero sub-cell covers it, and the old cell elsewhere |
| Sweep.StampDrawsThePiece | src/App.jsx:56-69 | every nonzero sub-cell on the board is written as `[value, collided ? 'merged' : 'clear']`, and every cell the piece does not cover is left as it was |
| Sweep.DrawPlayer | src/App.jsx:56-69 | the in-place nested write loop, skipping rows off the board, produces exactly the stamped stage |
| Sweep.ImageFlushesAway | src/App.jsx:51-69 | the image of a piece that has not landed, drawn only over clear cells, disappears on the next flush |
| Sweep.FindEmpty | src/App.jsx:76 | `findIndex` of an empty cell: the first index whose symbol is 0, or -1 if and only if the row is complete |
| Sweep.Incomplete | src/App.jsx:75-83 | every kept row is an incomplete row of the stage, and the number kept plus the complete count is the height |
| Sweep.IncompleteOfOne | src/App.jsx:76-82 | a single row is kept exactly when it has an empty cell |
| Sweep.IncompleteSplits | src/App.jsx:75-83 | filtering stacked stages is filtering each part in order, so with the one-row case every incomplete row is kept, every complete row dropped, and the order preserved |
| Sweep.Swept | src/App.jsx:75-83 | one empty row per complete row on top of the incomplete rows in order; the height, and a uniform width, are kept |
| Sweep.SweepRows | src/App.jsx:73-83 | the `reduce` with `unshift`/`push` and the counter returns the swept stage and the number of complete rows |
| Sweep.SettledHasNoneComplete | src/App.jsx:75-83 | a stage with no complete row has a complete count of 0 and keeps every row |
| Sweep.SweepOfSettled | src/App.jsx:75-83 | sweeping a stage with no complete row leaves it unchanged |
| Sweep.SweptIsSettled | src/App.jsx:75-83 | after a sweep no row is complete |
| Sweep.SweepTwice | src/App.jsx:75-83 | sweeping is idempotent |
| Sweep.EmptyStageIsSettled | src/gameHelpers.js:7-10 | the new stage is unchanged by a flush and has no complete row |
| Sweep.FlushKeepsSettled | src/App.jsx:51-53 | a flush cannot complete a row |
| Sweep.RedrawKeepsSettled | src/App.jsx:49-95 | redrawing a piece that has not landed never leaves a landed row complete |
| Sweep.UntouchedRow | src/App.jsx:56-69 | a row the piece does not reach is unchanged by the stamp |
| Sweep.LandingCompletesAtMost | src/App.jsx:56-83 | landing a piece on a stage without complete rows completes at most as many rows as the piece has |
| Scoring.LinePoints | src/hooks/useGameStatus.js:4 | the table entry for 1 to 4 rows lies between 40 and 1200 |
| Scoring.LevelFor | src/hooks/useGameStatus.js:20 | the level is the number of whole tens in the row total: `10 * level <= rows < 10 * (level + 1)`, which is `Math.floor(rows / 10)` |
| Scoring.ApplyClear | src/hooks/useGameStatus.js:11-21 | no change for 0 rows; otherwise the score gains `linePoints[n-1] * (level + 1)` at the level before the clear, rows gain n, and the level is `LevelFor` of the new row total whatever the counters held before; nothing decreases |
| Scoring.ClearsAccumulate | src/hooks/useGameStatus.js:15 | over any series of landings the row total is the sum of the rows each cleared, the score never drops, and the level stays `floor(rows / 10)` and never drops |
| Scoring.ScoreExamples | src/hooks/useGameStatus.js:4-14 | one row at level 0 scores 40; four rows at once score 1200, not the sum of the table; four single clears score 160 |
| Scoring.LevelSteps | src/hooks/useGameStatus.js:19-21 | 9 rows give level 0 and 10 rows give level 1; the level is monotone in the rows and steps up exactly at multiples of ten |
| Scoring.HookAsWritten | src/hooks/useGameStatus.js:11-21 | the score effect applied once, and a second time at the new level when the first run raised the level: no change for 0 rows, the rows grow by n or by 2n, the score never drops, and the level keeps following the rows |
| Scoring.HookCountsTwiceOnLevelUp | src/hooks/useGameStatus.js:11-21 | in the hook as written, the re-run caused by a level change never changes the level again; the rows of a clear are added twice exactly when that clear raises the level |
| Scoring.HookExample | src/hooks/useGameStatus.js:11-21 | from 9 rows at level 0, one cleared row leaves the hook as written at 11 rows and 120 points, where a single application gives 10 rows and 40 points |
| Scoring.GameStatus.constructor | src/hooks/useGameStatus.js:7-9 | score, rows and level start at 0 |
| Scoring.GameStatus.ApplyRowClear | src/hooks/useGameStatus.js:11-21 | the score effect and the level effect together update the counters as `ApplyClear`, keeping the level consistent |
| UseBoard.DrawOnBoard | src/hooks/useBoard.js:17-26 | the unguarded write loop, for a piece on the board, produces exactly the stamped stage |
| UseBoard.BoardHook.constructor | src/hooks/useBoard.js:5-6 | the hook starts with the new stage and `rowsCleared` 0 |
| UseBoard.BoardHook.UpdateStage | src/hooks/useBoard.js:10-51 | after a landing the stage is the swept flush-and-stamp, `rowsCleared` is the complete count and the player is reset; otherwise the stage is only flushed and stamped and `rowsCleared` is kept |
| Game.DropInterval | src/App.jsx:124 | the re-armed interval lies in (200, 1200] ms and is 1200 ms at level 0 |
| Game.FasterAtHigherLevels | src/App.jsx:124 | a higher level never gives a longer interval |
| Game.DropDepth | src/App.jsx:159-162 | the depth d is collision-free at every offset 1..d and collides at d + 1 |
| Game.DepthFrom | src/App.jsx:160-162 | continuing the probe from a collision-free depth reaches the first colliding depth |
| Game.DropDistance | src/App.jsx:159-162 | the `while` probe terminates with the depth above the first collision |
| Game.BlankNeverCollides | src/gameHelpers.js:17 | a piece with no nonzero sub-cell collides at no offset |
| Game.ProbeAsWritten | src/App.jsx:159-162 | the hard-drop probe as written, run for at most `fuel` more steps: a depth it stops at lies between the starting depth and the starting depth plus `fuel`; None if it has not stopped |
| Game.ProbeStopsAtFirstHit | src/App.jsx:159-162 | the probe stops at a depth from which one more row collides and no shallower row below the start does; it reports None exactly when none of the `fuel + 1` rows below the start collides |
| Game.BlankProbeNeverStops | src/App.jsx:159-162 | for a blank piece the probe as written has not stopped after any number of steps |
| Game.ProbeStopsAtDepth | src/App.jsx:159-162 | for a piece with a block, the probe as written stops exactly at DropDepth |
| Game.LandingKeepsStage | src/App.jsx:72-92 | a landing completes at most four rows and leaves a standard stage whose landed blocks complete no row |
| Game.MergeAndSweep | src/App.jsx:49-83 | the merged piece is swept, the complete rows are counted (at most four), and no complete row remains |
| Game.Redrawn | src/App.jsx:49-95 | the redraw of a piece that has not landed is flush then stamp, keeps the piece on the board and completes no row |
| Game.LandOn | src/App.jsx:72-92 | a landing merges and sweeps, scores the cleared rows at the old level, spawns the next piece, draws it, and keeps the session invariant |
| Game.Session.constructor | src/App.jsx:11-25 | no gravity, counters at 0, game not over, the placeholder piece at the origin drawn on the empty stage |
| Game.Spawn | src/App.jsx:32-36 | the fresh player holds the given piece at x = 4, y = 0, not landed; a square piece of side at most 4 lies wholly on any stage of the standard size |
| Game.Session.ResetPlayer | src/App.jsx:31-37 | the new player is the next piece at x = 4, y = 0, not landed |
| Game.Session.UpdatePlayerPos | src/App.jsx:40-46 | the position moves by (x, y), the flag is set to `collided`, and the matrix is kept |
| Game.Session.Redraw | src/App.jsx:93-95 | the stage becomes flush then stamp of the current player, which stays on the board; no landed row becomes complete |
| Game.Session.Land | src/App.jsx:72-92 | the landing keeps the invariant, and the new state is the merge, sweep, score, spawn and redraw of the old one; game over and gravity are kept |
| Game.Session.Drop | src/App.jsx:108-119 | without a collision one row below, the piece falls one row and is redrawn; otherwise it lands where it is, and if `pos.y < 1` the game ends and gravity stops |
| Game.Session.LandInPlace | src/App.jsx:112-117 | the game ends and gravity stops if `pos.y < 1`; the piece is marked as landed where it is and the landing runs |
| Game.Session.LandBelow | src/App.jsx:163 | the piece moved down by the given rows is marked as landed and the landing runs from there; game over and gravity are kept |
| Game.Session.DropPlayer | src/App.jsx:129-132 | gravity is stopped, then one drop happens as above |
| Game.Session.Shift | src/App.jsx:136-145 | the piece moves one column only if that move does not collide; otherwise nothing changes |
| Game.Session.RotatePlayer | src/App.jsx:149-156 | the clockwise-turned piece is taken, at the same position, only if it does not collide there; otherwise nothing changes |
| Game.Session.HardDrop | src/App.jsx:157-163 | the piece lands at the deepest collision-free offset and the landing runs from there; game over and gravity are kept |
| Game.Session.Move | src/App.jsx:134-166 | once the game is over no key changes anything; left and right shift the piece if it fits; up turns it if it fits; down stops gravity and then falls or lands, ending the game when `pos.y < 1`; space lands the piece at the drop depth with game over and gravity kept, and does nothing for a blank piece; only down and space touch the counters, game over or gravity |
| Game.Session.KeyUp | src/App.jsx:121-127 | releasing the down arrow in a running game re-arms gravity at the level's interval; otherwise nothing changes |
| Game.Session.StartGame | src/App.jsx:176-184 | the empty stage with the spawned piece drawn on it, gravity at 1000 ms, counters at 0, game not over |

## Left out

- The gravity timer (`setInterval`/`clearInterval`, src/App.jsx:186-196) is not modelled: `Game.Session.Drop` is a method that the caller invokes once per tick.
- Game.DropInterval: computed in exact real arithmetic. JavaScript's floating-point rounding of `1000 / (level + 1)` is not modelled.
- Keycodes are modelled as the named keys they select (`Game.Key`), not as numbers.
- The random piece (`randomTetromino`) and the piece catalog are not modelled. `src/tetrominos` is not part of this model. Each spawn takes the next piece as a parameter: a square of side 1 to 4 with a block in it.
- The `JSON.parse(JSON.stringify(...))` clone before a rotation is not modelled, because values are immutable in the model.
- Rows that share one cell array through `.fill([0, 'clear'])` are not modelled, for the same reason.
- Rotation of non-square matrices is left out: `rotate` indexes both dimensions by the row count, so every member requires a square piece.
- Rendering (the board, the displays, the start button) is not modelled.
- Game.Session.Drop, Game.Session.HardDrop, Game.Session.Land, Game.Session.StartGame: React effect scheduling is not modelled. Each handler, with the redraw, sweep, score and level updates that its change of state triggers, is one transition. Intermediate renders are not modelled, and neither are stale closures.
- Game.Session.StartGame: always draws the new piece on the new stage. In the source the redraw effect runs only when `player.pos.x`, `player.pos.y`, `player.tetromino` or `player.collided` changes (src/App.jsx:99-101). After a game over the player already sits un-landed at (4, 0), so if the next random piece is the same shape object, no dependency changes and the new stage stays blank until the piece first moves. The next redraw removes the difference (`Sweep.ImageFlushesAway`).
- Scoring.GameStatus.ApplyRowClear: applies each landing's clear exactly once. The hook's re-run on a level change is recorded under "## Findings". A landing that reports the same `rowsCleared` as the previous one triggers no effect at all in the hook; that is effect scheduling and is not modelled.
- Game.Session.HardDrop: requires a piece with a nonzero sub-cell. With a blank matrix the source's probe loop never stops (see "## Findings"); `Game.Session.Move` does not call it for a blank piece.
- Sweep.DrawPlayer: requires every nonzero sub-cell whose row is on the board to land in a column of that row. The source would then write outside the row: past its end for a column at or beyond the width, or under a negative key for a negative column (src/App.jsx:62). A piece that is on the board never does either.
- The setters that the status and board hooks return to their callers are not modelled.

## Findings

| source | as written | input that shows it | evidently intended | confidence | as-written member | corrected member |
|---|---|---|---|---|---|---|
| src/App.jsx:157-163 | the space bar runs the probe loop for whatever piece the player holds; only nonzero sub-cells can collide (src/gameHelpers.js:17), so for a blank piece the loop never ends. Before the first Start the player holds the placeholder `TETROMINOS[0].shape` (src/App.jsx:18-22) and `gameOver` is false (src/App.jsx:12), so the space bar reaches the loop | a placeholder whose sub-cells are all 0, and the space bar pressed before Start | the hard drop terminates: a piece with a block lands at the drop depth, and the space bar does nothing for a blank piece | not executed; whether the placeholder is blank depends on the piece catalog, which is not part of this model | Game.ProbeAsWritten, Game.BlankProbeNeverStops | Game.Session.Move |
| src/hooks/useGameStatus.js:11-17 | the score effect depends on `[rowsCleared, level]`, so a clear that raises the level is applied a second time at the new level | 9 rows at level 0, then one landing that clears one row: 11 rows and 120 points | each clear applied once: 10 rows and 40 points, as the session itself does (src/App.jsx:86-89, 104-106) | not executed; follows from the effect's dependency list | Scoring.HookAsWritten, Scoring.HookCountsTwiceOnLevelUp | Scoring.GameStatus.ApplyRowClear |
