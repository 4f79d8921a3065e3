/** The game session: the state the screen shows (stage, player, score,
    rows, level, game-over flag, gravity interval) and the handlers that
    change it. Each handler runs to completion, together with the redraw,
    sweep and level updates its change of state brings about. */
module Game {
  import opened Playfield
  import opened Collision
  import opened Rotation
  import opened Sweep
  import opened Scoring

  datatype Option<T> = None | Some(value: T)

  /** The keys the session reacts to: the arrows and the space bar. */
  datatype Key = Left | Right | Down | Up | Space

  /** The gravity interval, in milliseconds, armed when a game starts. */
  const BASE_DROP_TIME: real := 1000.0

  /** The gravity interval re-armed when the down arrow is released: the
      base interval divided by one more than the level, plus 200 ms. */
  function DropInterval(level: nat): (ms: real)
    ensures 200.0 < ms <= 1200.0
    ensures level == 0 ==> ms == 1200.0
  {
    BASE_DROP_TIME / (level as real + 1.0) + 200.0
  }

  /** Gravity gets faster, never slower, as the level goes up. */
  lemma FasterAtHigherLevels(a: nat, b: nat)
    requires a <= b
    ensures DropInterval(b) <= DropInterval(a)
  {
    var x, y := a as real + 1.0, b as real + 1.0;
    var p, q := BASE_DROP_TIME / x, BASE_DROP_TIME / y;
    assert q * y == p * x <= p * y;
  }

  /** A fresh player with the given piece at the top of the stage, near the
      middle: a piece of side at most 4 fits on a stage of the standard size. */
  function Spawn(next: Piece): (p: Player)
    ensures p.pos == Pos(4, 0) && p.tetromino == next && !p.collided
    ensures IsSquare(next) && |next| <= MAX_PIECE ==> forall s :: IsStage(s) ==> InBounds(p, s)
  {
    var p := Player(Pos(STAGE_WIDTH / 2 - 2, 0), next, false);
    assert IsSquare(next) && |next| <= MAX_PIECE ==> forall s :: IsStage(s) ==> InBounds(p, s) by {
      forall s | IsStage(s) && IsSquare(next) && |next| <= MAX_PIECE {
        SmallPieceInBounds(p, s);
      }
    }
    p
  }

  /** How far the piece falls: the number of rows it can drop before one
      more row would collide. */
  function DropDepth(p: Player, s: Stage): (d: nat)
    requires HasNonZero(p.tetromino)
    ensures Collides(p, s, 0, d + 1)
    ensures forall k :: 1 <= k <= d ==> !Collides(p, s, 0, k)
  {
    DepthFrom(p, s, 0)
  }

  function DepthFrom(p: Player, s: Stage, d: nat): (r: nat)
    requires HasNonZero(p.tetromino)
    requires forall k :: 1 <= k <= d ==> !Collides(p, s, 0, k)
    ensures d <= r && Collides(p, s, 0, r + 1)
    ensures forall k :: 1 <= k <= r ==> !Collides(p, s, 0, k)
    decreases |s| - p.pos.y - d
  {
    if Collides(p, s, 0, d + 1) then d
    else
      AboveFloor(p, s, d);
      DepthFrom(p, s, d + 1)
  }

  /** The hard-drop probe: one row further down at a time until the piece
      would collide. It ends because the floor is a finite distance away. */
  method DropDistance(p: Player, s: Stage) returns (dropY: nat)
    requires HasNonZero(p.tetromino)
    ensures dropY == DropDepth(p, s)
  {
    dropY := 0;
    var hit := CheckCollision(p, s, 0, dropY + 1);
    while !hit
      invariant forall k :: 1 <= k <= dropY ==> !Collides(p, s, 0, k)
      invariant hit == Collides(p, s, 0, dropY + 1)
      decreases |s| - p.pos.y - dropY
    {
      AboveFloor(p, s, dropY);
      dropY := dropY + 1;
      hit := CheckCollision(p, s, 0, dropY + 1);
    }
  }

  /** The hard-drop probe as the source writes it, allowed at most `fuel`
      more steps: the depth where it stops, or None if it has not stopped by
      then. The loop itself has no bound. */
  function ProbeAsWritten(p: Player, s: Stage, dropY: nat, fuel: nat): (r: Option<nat>)
    ensures r.Some? ==> dropY <= r.value <= dropY + fuel
    decreases fuel
  {
    if Collides(p, s, 0, dropY + 1) then Some(dropY)
    else if fuel == 0 then None
    else ProbeAsWritten(p, s, dropY + 1, fuel - 1)
  }

  /** A piece without a block collides nowhere: only nonzero sub-cells are checked. */
  lemma BlankNeverCollides(p: Player, s: Stage, dx: int, dy: int)
    requires !HasNonZero(p.tetromino)
    ensures !Collides(p, s, dx, dy)
  {
  }

  /** With a blank piece the probe never stops, however long it runs. */
  lemma {:induction false} BlankProbeNeverStops(p: Player, s: Stage, dropY: nat, fuel: nat)
    requires !HasNonZero(p.tetromino)
    ensures ProbeAsWritten(p, s, dropY, fuel) == None
    decreases fuel
  {
    BlankNeverCollides(p, s, 0, dropY + 1);
    if fuel > 0 {
      BlankProbeNeverStops(p, s, dropY + 1, fuel - 1);
    }
  }

  /** The probe stops at the first depth below `dropY` from which one more
      row would collide, and reports None exactly when no row within its
      `fuel` more steps collides. */
  lemma {:induction false} ProbeStopsAtFirstHit(p: Player, s: Stage, dropY: nat, fuel: nat)
    ensures var r := ProbeAsWritten(p, s, dropY, fuel);
            (r.Some? ==> Collides(p, s, 0, r.value + 1) &&
                         forall k :: dropY < k <= r.value ==> !Collides(p, s, 0, k)) &&
            (r.None? <==> forall k :: dropY < k <= dropY + fuel + 1 ==> !Collides(p, s, 0, k))
    decreases fuel
  {
    if !Collides(p, s, 0, dropY + 1) && fuel > 0 {
      ProbeStopsAtFirstHit(p, s, dropY + 1, fuel - 1);
    }
  }

  /** With a block in the piece, the probe started at any depth up to
      DropDepth stops exactly at DropDepth, after that many steps. */
  lemma {:induction false} ProbeStopsAtDepth(p: Player, s: Stage, dropY: nat)
    requires HasNonZero(p.tetromino)
    requires dropY <= DropDepth(p, s)
    ensures ProbeAsWritten(p, s, dropY, DropDepth(p, s) - dropY) == Some(DropDepth(p, s))
    decreases DropDepth(p, s) - dropY
  {
    if dropY < DropDepth(p, s) {
      ProbeStopsAtDepth(p, s, dropY + 1);
    }
  }

  /** What one landing leaves behind: the stage with the piece merged and
      the complete rows swept, before the next piece is drawn. */
  function MergedStage(s: Stage, p: Player): Stage {
    Stamp(Flush(s), p.(collided := true))
  }

  /** A landing on a standard stage whose landed blocks complete no row
      completes at most four rows, and leaves a standard stage whose landed
      blocks again complete no row. */
  lemma LandingKeepsStage(s: Stage, p: Player)
    requires IsStage(s) && InBounds(p, s) && Settled(Flush(s)) && |p.tetromino| <= MAX_PIECE
    ensures CountComplete(MergedStage(s, p)) <= MAX_PIECE
    ensures IsStage(Swept(MergedStage(s, p))) && Settled(Flush(Swept(MergedStage(s, p))))
  {
    var m := MergedStage(s, p);
    LandingCompletesAtMost(Flush(s), p.(collided := true));
    assert |m| == STAGE_HEIGHT;
    assert forall i :: 0 <= i < |m| ==> |m[i]| == STAGE_WIDTH;
    assert Width(m) == STAGE_WIDTH;
    var w := Swept(m);
    assert |w| == STAGE_HEIGHT;
    assert IsStage(w);
    SweptIsSettled(m);
    FlushKeepsSettled(w);
  }

  /** The merge-and-sweep a landing performs on the stage: the landed piece
      is drawn in as merged cells and the complete rows are removed, with
      empty rows added on top. */
  method MergeAndSweep(s: Stage, p: Player) returns (swept: Stage, linesCleared: nat)
    requires IsStage(s) && InBounds(p, s) && Settled(Flush(s)) && |p.tetromino| <= MAX_PIECE && p.collided
    ensures linesCleared == CountComplete(MergedStage(s, p)) && linesCleared <= MAX_PIECE
    ensures swept == Swept(MergedStage(s, p))
    ensures IsStage(swept) && Settled(Flush(swept))
  {
    LandingKeepsStage(s, p);
    var merged := Flush(s);
    merged := DrawPlayer(merged, p);
    assert p.(collided := true) == p;
    swept, linesCleared := SweepRows(merged);
  }

  /** The redraw of a piece that has not landed: the old image is erased and
      the piece drawn as clear cells; no landed row becomes complete. */
  method Redrawn(s: Stage, p: Player) returns (r: Stage)
    requires IsStage(s) && InBounds(p, s) && !p.collided
    ensures r == Stamp(Flush(s), p)
    ensures IsStage(r) && InBounds(p, r)
    ensures Settled(Flush(s)) ==> Settled(Flush(r))
  {
    r := Flush(s);
    r := DrawPlayer(r, p);
    if Settled(Flush(s)) {
      RedrawKeepsSettled(s, p);
    }
  }

  /** What holds between handlers, except that the player may have landed:
      a standard stage, a catalog-sized square piece wholly on it, no
      complete row among the landed blocks, the level derived from the
      rows, and no gravity once the game is over. */
  predicate SteadyState(stage: Stage, player: Player, c: Counters, gameOver: bool, dropTime: Option<real>) {
    && IsStage(stage)
    && IsSquare(player.tetromino) && 1 <= |player.tetromino| <= MAX_PIECE
    && InBounds(player, stage)
    && Settled(Flush(stage))
    && Consistent(c)
    && (gameOver ==> dropTime == None)
  }

  /** Stage t, player q and counters d are what landing `landed` on stage s,
      with counters c before, leaves: the complete rows swept and scored, the
      next piece spawned and drawn. */
  predicate Landing(t: Stage, q: Player, d: Counters, s: Stage, landed: Player, c: Counters, next: Piece) {
    var merged := MergedStage(s, landed);
    && CountComplete(merged) <= MAX_PIECE
    && d == ApplyClear(c, CountComplete(merged))
    && q == Spawn(next)
    && t == Stamp(Flush(Swept(merged)), q)
  }

  /** A landing on values: merge and sweep, score the cleared rows as the
      status hook does, spawn the next piece and redraw. */
  method LandOn(s: Stage, p: Player, c: Counters, next: Piece, gameOver: bool, dropTime: Option<real>)
    returns (t: Stage, q: Player, d: Counters)
    requires SteadyState(s, p, c, gameOver, dropTime) && p.collided && IsShape(next)
    ensures SteadyState(t, q, d, gameOver, dropTime) && !q.collided
    ensures Landing(t, q, d, s, p, c, next)
  {
    var swept, linesCleared := MergeAndSweep(s, p);
    // the score, rows and level update of the status hook
    d := ApplyClear(c, linesCleared);
    // the next piece, and the redraw its arrival triggers
    q := Spawn(next);
    SmallPieceInBounds(q, swept);
    t := Redrawn(swept, q);
  }

  class Session {
    var stage: Stage
    var player: Player
    var score: nat
    var rows: nat
    var level: nat
    var gameOver: bool
    var dropTime: Option<real>

    function Tally(): Counters
      reads this
    {
      Counters(score, rows, level)
    }

    predicate Steady()
      reads this
    {
      SteadyState(stage, player, Tally(), gameOver, dropTime)
    }

    predicate Valid()
      reads this
    {
      Steady() && !player.collided
    }

    /** The state after `landed` was merged into stage s, with counters c
        before, and the next piece was spawned. */
    predicate LandedFrom(s: Stage, landed: Player, c: Counters, next: Piece)
      reads this
    {
      Landing(stage, player, Tally(), s, landed, c, next)
    }

    /** The state after the player of stage s fell by one row, counters unchanged. */
    predicate FellFrom(s: Stage, p: Player, c: Counters)
      reads this
    {
      player == Moved(p, 0, 1) && stage == Stamp(Flush(s), player) && Tally() == c
    }

    /** The state after a left (dx = -1) or right (dx = 1) arrow on player p
        of stage s: moved and redrawn if the move fits, unchanged otherwise. */
    predicate ShiftedFrom(s: Stage, p: Player, dx: int)
      reads this
    {
      if Collides(p, s, dx, 0) then player == p && stage == s
      else player == Moved(p, dx, 0) && stage == Stamp(Flush(s), player)
    }

    /** The state after the up arrow on player p of stage s: the clockwise
        turn, in place and redrawn, if it fits; unchanged otherwise. */
    predicate TurnedFrom(s: Stage, p: Player)
      requires IsSquare(p.tetromino)
      reads this
    {
      var turned := p.(tetromino := RotateMatrix(p.tetromino));
      if Collides(turned, s, 0, 0) then player == p && stage == s
      else player == turned && stage == Stamp(Flush(s), turned)
    }

    /** The state before the first start: no gravity, nothing scored, the
        placeholder piece at the origin, drawn by the redraw on mounting. */
    constructor (initial: Piece)
      requires IsSquare(initial) && 1 <= |initial| <= MAX_PIECE
      ensures Valid()
      ensures player == Player(Pos(0, 0), initial, false)
      ensures stage == Stamp(CreateStage(), player)
      ensures score == 0 && rows == 0 && level == 0 && !gameOver && dropTime == None
    {
      dropTime := None;
      gameOver := false;
      score, rows, level := 0, 0, 0;
      player := Player(Pos(0, 0), initial, false);
      stage := CreateStage();
      new;
      EmptyStageIsSettled();
      SmallPieceInBounds(player, stage);
      Redraw();
    }

    method ResetPlayer(next: Piece)
      modifies this`player
      ensures player == Spawn(next)
    {
      player := Spawn(next);
    }

    method UpdatePlayerPos(x: int, y: int, collided: bool)
      modifies this`player
      ensures player == Moved(old(player), x, y).(collided := collided)
    {
      player := Player(Pos(player.pos.x + x, player.pos.y + y), player.tetromino, collided);
    }

    /** The stage update for a player that has not landed: erase the old
        image and draw the piece where it is now, as clear cells. */
    method Redraw()
      requires IsStage(stage) && InBounds(player, stage) && !player.collided
      modifies this`stage
      ensures stage == Stamp(Flush(old(stage)), player)
      ensures IsStage(stage) && InBounds(player, stage)
      ensures Settled(Flush(old(stage))) ==> Settled(Flush(stage))
    {
      stage := Redrawn(stage, player);
    }

    /** The stage update for a player that has landed: merge the piece,
        sweep and count the complete rows, score them at the level before the
        clear, spawn the next piece, recompute the level, and draw the new piece. */
    method Land(next: Piece)
      requires Steady() && player.collided && IsShape(next)
      modifies this
      ensures Valid()
      ensures LandedFrom(old(stage), old(player), old(Tally()), next)
      ensures gameOver == old(gameOver) && dropTime == old(dropTime)
    {
      var t, q, d := LandOn(stage, player, Tally(), next, gameOver, dropTime);
      Commit(t, q, d, gameOver, dropTime);
    }

    /** Writes back the state a handler computed. */
    method Commit(t: Stage, q: Player, d: Counters, over: bool, interval: Option<real>)
      modifies this
      ensures stage == t && player == q && Tally() == d
      ensures gameOver == over && dropTime == interval
    {
      stage, player := t, q;
      score, rows, level := d.score, d.rows, d.level;
      gameOver, dropTime := over, interval;
    }

    /** One step of gravity. If the piece can fall one row it does; otherwise
        it lands where it is, and if it has not left the top row the game is
        over and gravity stops. */
    method Drop(next: Piece)
      requires Valid() && IsShape(next)
      modifies this
      ensures Valid()
      ensures !Collides(old(player), old(stage), 0, 1) ==>
                FellFrom(old(stage), old(player), old(Tally())) && gameOver == old(gameOver) && dropTime == old(dropTime)
      ensures Collides(old(player), old(stage), 0, 1) ==>
                && LandedFrom(old(stage), old(player), old(Tally()), next)
                && gameOver == (old(gameOver) || old(player).pos.y < 1)
                && dropTime == (if old(player).pos.y < 1 then None else old(dropTime))
    {
      var hit := CheckCollision(player, stage, 0, 1);
      if !hit {
        MovedStaysInBounds(player, stage, 0, 1);
        UpdatePlayerPos(0, 1, false);
        Redraw();
      } else {
        LandInPlace(next);
      }
    }

    /** The gravity step's other branch: the game ends if the piece has not
        left the top row; the piece is marked as landed where it is, and the
        landing runs. */
    method LandInPlace(next: Piece)
      requires Valid() && IsShape(next)
      modifies this
      ensures Valid()
      ensures LandedFrom(old(stage), old(player), old(Tally()), next)
      ensures gameOver == (old(gameOver) || old(player).pos.y < 1)
      ensures dropTime == (if old(player).pos.y < 1 then None else old(dropTime))
    {
      if player.pos.y < 1 {
        gameOver, dropTime := true, None;
      }
      assert Moved(player, 0, 0) == player;
      LandBelow(0, next);
    }

    /** The piece is moved down by dy rows and marked as landed, and then the
        landing runs. */
    method LandBelow(dy: nat, next: Piece)
      requires Valid() && IsShape(next) && InBounds(Moved(player, 0, dy), stage)
      modifies this
      ensures Valid()
      ensures LandedFrom(old(stage), Moved(old(player), 0, dy), old(Tally()), next)
      ensures gameOver == old(gameOver) && dropTime == old(dropTime)
    {
      ghost var landed := Moved(player, 0, dy);
      InBoundsIgnoresLanding(landed, stage, true);
      UpdatePlayerPos(0, dy, true);
      assert player.(collided := true) == landed.(collided := true);
      Land(next);
    }

    /** The down arrow: stop gravity, then drop once. */
    method DropPlayer(next: Piece)
      requires Valid() && IsShape(next)
      modifies this
      ensures Valid()
      ensures dropTime == None
      ensures !Collides(old(player), old(stage), 0, 1) ==>
                FellFrom(old(stage), old(player), old(Tally())) && gameOver == old(gameOver)
      ensures Collides(old(player), old(stage), 0, 1) ==>
                LandedFrom(old(stage), old(player), old(Tally()), next) && gameOver == (old(gameOver) || old(player).pos.y < 1)
    {
      dropTime := None;
      Drop(next);
    }

    /** A left (dx = -1) or right (dx = 1) arrow: the piece moves only if it fits there. */
    method Shift(dx: int)
      requires Valid() && (dx == -1 || dx == 1)
      modifies this`player, this`stage
      ensures Valid()
      ensures ShiftedFrom(old(stage), old(player), dx)
    {
      var hit := CheckCollision(player, stage, dx, 0);
      if !hit {
        MovedStaysInBounds(player, stage, dx, 0);
        UpdatePlayerPos(dx, 0, false);
        Redraw();
      }
    }

    /** The up arrow: turn the piece clockwise in place if the turned piece
        fits where it is; there is no sideways kick. */
    method RotatePlayer()
      requires Valid()
      modifies this`player, this`stage
      ensures Valid()
      ensures TurnedFrom(old(stage), old(player))
      ensures HasNonZero(player.tetromino) == HasNonZero(old(player).tetromino)
    {
      var cloned := player.(tetromino := RotateMatrix(player.tetromino));
      var hit := CheckCollision(cloned, stage, 0, 0);
      if !hit {
        MovedStaysInBounds(cloned, stage, 0, 0);
        player := cloned;
        Redraw();
      }
      TurnKeepsBlocks(old(player).tetromino, 1);
    }

    /** The space bar: fall as far as the piece can and land there at once.
        Unlike a gravity step, this never ends the game. */
    method HardDrop(next: Piece)
      requires Valid() && IsShape(next) && HasNonZero(player.tetromino)
      modifies this
      ensures Valid()
      ensures LandedFrom(old(stage), Moved(old(player), 0, DropDepth(old(player), old(stage))), old(Tally()), next)
      ensures gameOver == old(gameOver) && dropTime == old(dropTime)
    {
      var dropY := DropDistance(player, stage);
      if dropY > 0 {
        MovedStaysInBounds(player, stage, 0, dropY);
      }
      LandBelow(dropY, next);
    }

    /** The key-down handler: once the game is over no key does anything;
        otherwise each key runs its handler. The space bar does nothing for
        a piece without a block, whose hard-drop probe would never stop. */
    method Move(key: Key, next: Piece)
      requires Valid() && IsShape(next)
      modifies this
      ensures Valid()
      ensures old(gameOver) ==> unchanged(this)
      ensures key != Down && key != Space ==> Tally() == old(Tally()) && gameOver == old(gameOver) && dropTime == old(dropTime)
      ensures !old(gameOver) && key == Left ==> ShiftedFrom(old(stage), old(player), -1)
      ensures !old(gameOver) && key == Right ==> ShiftedFrom(old(stage), old(player), 1)
      ensures !old(gameOver) && key == Up ==> TurnedFrom(old(stage), old(player))
      ensures !old(gameOver) && key == Down ==>
                && dropTime == None
                && if Collides(old(player), old(stage), 0, 1)
                   then LandedFrom(old(stage), old(player), old(Tally()), next) && gameOver == (old(player).pos.y < 1)
                   else FellFrom(old(stage), old(player), old(Tally())) && !gameOver
      ensures !old(gameOver) && key == Space && HasNonZero(old(player).tetromino) ==>
                && LandedFrom(old(stage), Moved(old(player), 0, DropDepth(old(player), old(stage))), old(Tally()), next)
                && !gameOver && dropTime == old(dropTime)
      ensures key == Space && !HasNonZero(old(player).tetromino) ==> unchanged(this)
    {
      if !gameOver {
        match key
        case Left => Shift(-1);
        case Right => Shift(1);
        case Down => DropPlayer(next);
        case Up => RotatePlayer();
        case Space =>
          if HasNonZero(player.tetromino) {
            HardDrop(next);
          }
      }
    }

    /** Releasing a key: the down arrow re-arms gravity at the level's
        interval, unless the game is over; any other key changes nothing. */
    method KeyUp(key: Key)
      requires Valid()
      modifies this`dropTime
      ensures Valid()
      ensures !gameOver && key == Down ==> dropTime == Some(DropInterval(level))
      ensures gameOver || key != Down ==> dropTime == old(dropTime)
    {
      if !gameOver {
        if key == Down {
          dropTime := Some(DropInterval(level));
        }
      }
    }

    /** A new game: an empty stage with the new piece drawn on it, gravity
        armed, the counters at zero and the game-over flag down. */
    method StartGame(next: Piece)
      requires Valid() && IsShape(next)
      modifies this
      ensures Valid()
      ensures player == Spawn(next) && stage == Stamp(CreateStage(), player)
      ensures Flush(stage) == CreateStage()
      ensures dropTime == Some(BASE_DROP_TIME) && !gameOver && score == 0 && rows == 0 && level == 0
    {
      stage := CreateStage();
      dropTime := Some(BASE_DROP_TIME);
      ResetPlayer(next);
      gameOver := false;
      score, rows, level := 0, 0, 0;
      EmptyStageIsSettled();
      SmallPieceInBounds(player, stage);
      Redraw();
      ImageFlushesAway(CreateStage(), player);
    }
  }
}
