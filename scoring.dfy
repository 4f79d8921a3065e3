/** Scoring and level: points for the rows one landing clears, the running
    total of cleared rows, and the level derived from it. */
module Scoring {

  /** Points for clearing 1, 2, 3 or 4 rows with one piece, at level 0. */
  function LinePoints(rowsCleared: int): (points: nat)
    requires 1 <= rowsCleared <= 4
    ensures 40 <= points <= 1200
  {
    [40, 100, 300, 1200][rowsCleared - 1]
  }

  /** The level reached after `rows` cleared rows: one level per ten rows. */
  function LevelFor(rows: nat): (level: nat)
    ensures level * 10 <= rows < (level + 1) * 10
  {
    rows / 10
  }

  datatype Counters = Counters(score: nat, rows: nat, level: nat)

  /** The level agrees with the rows cleared so far. */
  predicate Consistent(c: Counters) {
    c.level == LevelFor(c.rows)
  }

  /** The counters after one landing that cleared `rowsCleared` rows: nothing
      changes when no row was cleared; otherwise the points are scaled by the
      level before the clear, the rows are added up and the level follows. */
  function ApplyClear(c: Counters, rowsCleared: nat): (r: Counters)
    requires rowsCleared <= 4
    ensures rowsCleared == 0 ==> r == c
    ensures rowsCleared > 0 ==> r.score == c.score + LinePoints(rowsCleared) * (c.level + 1)
    ensures r.rows == c.rows + rowsCleared
    ensures c.score <= r.score && c.rows <= r.rows
    ensures rowsCleared > 0 ==> r.level == LevelFor(r.rows)
    ensures Consistent(c) ==> Consistent(r) && c.level <= r.level
  {
    if rowsCleared == 0 then c
    else
      var rows := c.rows + rowsCleared;
      Counters(c.score + LinePoints(rowsCleared) * (c.level + 1), rows, LevelFor(rows))
  }

  predicate AllScorable(clears: seq<nat>) {
    forall i :: 0 <= i < |clears| ==> clears[i] <= 4
  }

  /** The counters after a series of landings, oldest first. */
  function ApplyClears(c: Counters, clears: seq<nat>): Counters
    requires AllScorable(clears)
  {
    if |clears| == 0 then c
    else ApplyClear(ApplyClears(c, clears[..|clears| - 1]), clears[|clears| - 1])
  }

  function Sum(xs: seq<nat>): nat {
    if |xs| == 0 then 0 else Sum(xs[..|xs| - 1]) + xs[|xs| - 1]
  }

  /** Over any series of landings the row total is the sum of the rows each
      one cleared, score and rows never go down, and a level that agreed
      with the rows keeps agreeing and never goes down. */
  lemma {:induction false} ClearsAccumulate(c: Counters, clears: seq<nat>)
    requires AllScorable(clears)
    ensures ApplyClears(c, clears).rows == c.rows + Sum(clears)
    ensures c.score <= ApplyClears(c, clears).score
    ensures Consistent(c) ==> Consistent(ApplyClears(c, clears)) && c.level <= ApplyClears(c, clears).level
  {
    if |clears| > 0 {
      var init := clears[..|clears| - 1];
      assert AllScorable(init);
      ClearsAccumulate(c, init);
    }
  }

  /** Four rows at once at level 0 score 1200, not the 1640 of the four
      table entries added up; one row scores 40. */
  lemma ScoreExamples()
    ensures ApplyClear(Counters(0, 0, 0), 1).score == 40
    ensures ApplyClear(Counters(0, 0, 0), 4).score == 1200
    ensures ApplyClears(Counters(0, 0, 0), [1, 1, 1, 1]).score == 160
  {
    assert [1, 1, 1, 1][..3] == [1, 1, 1];
    assert [1, 1, 1][..2] == [1, 1];
    assert [1, 1][..1] == [1];
    assert [1][..0] == [];
  }

  /** The level steps up exactly at multiples of ten rows and never goes down. */
  lemma LevelSteps(a: nat, b: nat)
    ensures LevelFor(9) == 0 && LevelFor(10) == 1
    ensures a <= b ==> LevelFor(a) <= LevelFor(b)
    ensures LevelFor(a + 1) == LevelFor(a) + (if (a + 1) % 10 == 0 then 1 else 0)
  {
  }

  /** The status hook as written. Its score effect lists `level` among its
      dependencies, so when a clear raises the level the effect runs a second
      time with the same `rowsCleared`, now at the new level. */
  function HookAsWritten(c: Counters, rowsCleared: nat): (r: Counters)
    requires rowsCleared <= 4
    ensures rowsCleared == 0 ==> r == c
    ensures r.rows == c.rows + rowsCleared || r.rows == c.rows + 2 * rowsCleared
    ensures c.score <= r.score
    ensures Consistent(c) ==> Consistent(r)
  {
    var once := ApplyClear(c, rowsCleared);
    if once.level != c.level then ApplyClear(once, rowsCleared) else once
  }

  /** The second run never moves the level again, so the hook settles after
      it; and the hook adds the cleared rows twice exactly when the clear
      raises the level, so its row total is not the sum of the clears. */
  lemma HookCountsTwiceOnLevelUp(c: Counters, rowsCleared: nat)
    requires Consistent(c) && 1 <= rowsCleared <= 4
    ensures var once := ApplyClear(c, rowsCleared);
            once.level != c.level ==> ApplyClear(once, rowsCleared).level == once.level
    ensures HookAsWritten(c, rowsCleared).rows == c.rows + rowsCleared <==> LevelFor(c.rows + rowsCleared) == c.level
    ensures HookAsWritten(c, rowsCleared).rows != c.rows + rowsCleared ==> HookAsWritten(c, rowsCleared).rows == c.rows + 2 * rowsCleared
  {
    var once := ApplyClear(c, rowsCleared);
    if once.level != c.level {
      var l := once.level;
      assert c.rows / 10 < l;
      assert c.rows < 10 * l;
      assert 10 * l <= once.rows < 10 * l + 4;
      assert once.rows + rowsCleared < 10 * l + 10;
    }
  }

  /** Nine rows, then one row cleared: the hook as written ends with 11 rows
      and 120 points, where one clear gives 10 rows and 40 points. */
  lemma HookExample()
    ensures HookAsWritten(Counters(0, 9, 0), 1) == Counters(120, 11, 1)
    ensures ApplyClear(Counters(0, 9, 0), 1) == Counters(40, 10, 1)
  {
  }

  /** The score, row total and level kept by the game-status hook. */
  class GameStatus {
    var score: nat
    var rows: nat
    var level: nat

    predicate Valid()
      reads this
    {
      Consistent(Counters(score, rows, level))
    }

    constructor ()
      ensures Valid()
      ensures score == 0 && rows == 0 && level == 0
    {
      score, rows, level := 0, 0, 0;
    }

    /** The effect run when the number of rows cleared by a landing arrives,
        followed by the level effect that a change of rows triggers. */
    method ApplyRowClear(rowsCleared: nat)
      requires Valid() && rowsCleared <= 4
      modifies this
      ensures Valid()
      ensures Counters(score, rows, level) == ApplyClear(Counters(old(score), old(rows), old(level)), rowsCleared)
    {
      if rowsCleared > 0 {
        score := score + LinePoints(rowsCleared) * (level + 1);
        rows := rows + rowsCleared;
        level := LevelFor(rows);
      }
    }
  }
}
