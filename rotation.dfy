/** Rotation of square piece matrices by a quarter turn: transpose, then
    reverse every row (clockwise) or reverse the order of the rows
    (counter-clockwise). */
module Rotation {
  import opened Playfield

  function Reverse<T>(s: seq<T>): seq<T> {
    seq(|s|, i requires 0 <= i < |s| => s[|s| - 1 - i])
  }

  /** Row `index` of the result is column `index` of m. */
  function Transpose(m: Piece): Piece
    requires IsSquare(m)
  {
    seq(|m|, index requires 0 <= index < |m| => seq(|m|, k requires 0 <= k < |m| => m[k][index]))
  }

  /** A quarter turn: clockwise when dir > 0, counter-clockwise otherwise. */
  function Rotate(m: Piece, dir: int): (r: Piece)
    requires IsSquare(m)
    ensures IsSquare(r) && |r| == |m|
    ensures dir > 0 ==> forall i, j :: 0 <= i < |m| && 0 <= j < |m| ==> r[i][j] == m[|m| - 1 - j][i]
    ensures dir <= 0 ==> forall i, j :: 0 <= i < |m| && 0 <= j < |m| ==> r[i][j] == m[j][|m| - 1 - i]
  {
    var rotated := Transpose(m);
    if dir > 0 then seq(|rotated|, i requires 0 <= i < |rotated| => Reverse(rotated[i]))
    else Reverse(rotated)
  }

  /** The session's own clockwise rotation, written out separately from Rotate. */
  function RotateMatrix(m: Piece): (r: Piece)
    requires IsSquare(m)
    ensures r == Rotate(m, 1)
  {
    var rotated := seq(|m|, index requires 0 <= index < |m| => seq(|m|, k requires 0 <= k < |m| => m[k][index]));
    seq(|rotated|, i requires 0 <= i < |rotated| => Reverse(rotated[i]))
  }

  /** A clockwise and a counter-clockwise turn undo each other, in either order. */
  lemma TurnsUndoEachOther(m: Piece)
    requires IsSquare(m)
    ensures Rotate(Rotate(m, 1), -1) == m
    ensures Rotate(Rotate(m, -1), 1) == m
  {
    SameEntriesSameMatrix(Rotate(Rotate(m, 1), -1), m);
    SameEntriesSameMatrix(Rotate(Rotate(m, -1), 1), m);
  }

  /** Two square matrices of one size that agree entry by entry are equal. */
  lemma SameEntriesSameMatrix(a: Piece, m: Piece)
    requires IsSquare(a) && IsSquare(m) && |a| == |m|
    requires forall i, j :: 0 <= i < |m| && 0 <= j < |m| ==> a[i][j] == m[i][j]
    ensures a == m
  {
    forall i | 0 <= i < |m| ensures a[i] == m[i] {
      assert forall j :: 0 <= j < |m| ==> a[i][j] == m[i][j];
    }
  }

  /** Two clockwise turns turn the piece upside down. */
  lemma HalfTurn(m: Piece)
    requires IsSquare(m)
    ensures var h := Rotate(Rotate(m, 1), 1);
            IsSquare(h) && |h| == |m| &&
            forall i, j :: 0 <= i < |m| && 0 <= j < |m| ==> h[i][j] == m[|m| - 1 - i][|m| - 1 - j]
  {
  }

  /** Four clockwise turns give back the original piece. */
  lemma FourTurns(m: Piece)
    requires IsSquare(m)
    ensures Rotate(Rotate(Rotate(Rotate(m, 1), 1), 1), 1) == m
  {
    var h := Rotate(Rotate(m, 1), 1);
    HalfTurn(m);
    HalfTurn(h);
    SameEntriesSameMatrix(Rotate(Rotate(h, 1), 1), m);
  }

  /** A piece with a block in it keeps one after a turn, in either direction. */
  lemma TurnKeepsBlocks(m: Piece, dir: int)
    requires IsSquare(m)
    ensures HasNonZero(Rotate(m, dir)) <==> HasNonZero(m)
  {
    if HasNonZero(m) {
      BlockSurvivesTurn(m, dir);
    }
    if HasNonZero(Rotate(m, dir)) {
      BlockComesFromTurn(m, dir);
    }
  }

  lemma BlockSurvivesTurn(m: Piece, dir: int)
    requires IsSquare(m) && HasNonZero(m)
    ensures HasNonZero(Rotate(m, dir))
  {
    var n := |m|;
    var r := Rotate(m, dir);
    var y, x :| 0 <= y < n && 0 <= x < |m[y]| && m[y][x] != 0;
    if dir > 0 {
      assert r[x][n - 1 - y] == m[y][x];
    } else {
      assert r[n - 1 - x][y] == m[y][x];
    }
  }

  lemma BlockComesFromTurn(m: Piece, dir: int)
    requires IsSquare(m) && HasNonZero(Rotate(m, dir))
    ensures HasNonZero(m)
  {
    var n := |m|;
    var r := Rotate(m, dir);
    var i, j :| 0 <= i < n && 0 <= j < |r[i]| && r[i][j] != 0;
    if dir > 0 {
      assert m[n - 1 - j][i] == r[i][j];
    } else {
      assert m[j][n - 1 - i] == r[i][j];
    }
  }

  // ---------------------------------------------------------------------
  // The entries of a matrix, as a multiset, are kept by every turn.
  // ---------------------------------------------------------------------

  /** All entries of a matrix, row by row. */
  function Entries(m: Piece): multiset<int> {
    if |m| == 0 then multiset{} else Entries(m[..|m| - 1]) + multiset(m[|m| - 1])
  }

  /** A quarter turn in either direction keeps every entry and its
      multiplicity; in particular the number of nonzero entries,
      |Entries(m)| - Entries(m)[0], does not change. */
  lemma TurnKeepsEntries(m: Piece, dir: int)
    requires IsSquare(m)
    ensures Entries(Rotate(m, dir)) == Entries(m)
  {
    var t := Transpose(m);
    TransposeKeepsEntries(m);
    if dir > 0 {
      var r := seq(|t|, i requires 0 <= i < |t| => Reverse(t[i]));
      forall i | 0 <= i < |t| ensures multiset(r[i]) == multiset(t[i]) {
        ReverseKeepsElements(t[i]);
      }
      SameRowsSameEntries(r, t);
    } else {
      ReverseKeepsEntries(t);
    }
  }

  lemma {:induction false} ReverseKeepsElements(s: seq<int>)
    ensures multiset(Reverse(s)) == multiset(s)
  {
    if |s| > 0 {
      var n := |s|;
      ReverseKeepsElements(s[..n - 1]);
      assert Reverse(s) == [s[n - 1]] + Reverse(s[..n - 1]);
      assert s == s[..n - 1] + [s[n - 1]];
    }
  }

  lemma {:induction false} EntriesAppend(a: Piece, b: Piece)
    ensures Entries(a + b) == Entries(a) + Entries(b)
  {
    if |b| == 0 {
      assert a + b == a;
    } else {
      var n := |b|;
      EntriesAppend(a, b[..n - 1]);
      assert (a + b)[..|a + b| - 1] == a + b[..n - 1];
    }
  }

  lemma {:induction false} ReverseKeepsEntries(m: Piece)
    ensures Entries(Reverse(m)) == Entries(m)
  {
    if |m| > 0 {
      var n := |m|;
      ReverseKeepsEntries(m[..n - 1]);
      assert Reverse(m) == [m[n - 1]] + Reverse(m[..n - 1]);
      EntriesAppend([m[n - 1]], Reverse(m[..n - 1]));
      assert [m[n - 1]][..0] == [];
    }
  }

  lemma {:induction false} SameRowsSameEntries(a: Piece, b: Piece)
    requires |a| == |b| && forall i :: 0 <= i < |a| ==> multiset(a[i]) == multiset(b[i])
    ensures Entries(a) == Entries(b)
  {
    if |a| > 0 {
      SameRowsSameEntries(a[..|a| - 1], b[..|b| - 1]);
    }
  }

  /** Entry (i, j) of m, or 0 outside it. */
  function At(m: Piece, i: int, j: int): int
  {
    if 0 <= i < |m| && 0 <= j < |m[i]| then m[i][j] else 0
  }

  /** The first b entries of row i. */
  function RowPrefix(m: Piece, i: nat, b: nat): seq<int>
  {
    seq(b, j => At(m, i, j))
  }

  /** The first a entries of column j. */
  function Column(m: Piece, j: nat, a: nat): seq<int>
  {
    seq(a, i => At(m, i, j))
  }

  /** The entries at (i, j) with i < a and j < b, collected row by row. */
  function RowBlock(m: Piece, a: nat, b: nat): multiset<int>
  {
    if a == 0 then multiset{} else RowBlock(m, a - 1, b) + multiset(RowPrefix(m, a - 1, b))
  }

  /** The same entries, collected column by column. */
  function ColumnBlock(m: Piece, a: nat, b: nat): multiset<int>
  {
    if b == 0 then multiset{} else ColumnBlock(m, a, b - 1) + multiset(Column(m, b - 1, a))
  }

  lemma {:induction false} ColumnBlockOfNoRows(m: Piece, b: nat)
    ensures ColumnBlock(m, 0, b) == multiset{}
  {
    if b > 0 {
      ColumnBlockOfNoRows(m, b - 1);
      assert Column(m, b - 1, 0) == [];
    }
  }

  lemma ColumnBlockAddRow(m: Piece, a: nat, b: nat)
    ensures ColumnBlock(m, a + 1, b) == ColumnBlock(m, a, b) + multiset(RowPrefix(m, a, b))
  {
    assert RowPrefix(m, a, 0) == [];
    var k := 0;
    while k < b
      invariant k <= b
      invariant ColumnBlock(m, a + 1, k) == ColumnBlock(m, a, k) + multiset(RowPrefix(m, a, k))
    {
      ColumnBlockAddRowStep(m, a, k);
      k := k + 1;
    }
  }

  lemma ColumnBlockAddRowStep(m: Piece, a: nat, b: nat)
    requires ColumnBlock(m, a + 1, b) == ColumnBlock(m, a, b) + multiset(RowPrefix(m, a, b))
    ensures ColumnBlock(m, a + 1, b + 1) == ColumnBlock(m, a, b + 1) + multiset(RowPrefix(m, a, b + 1))
  {
    assert Column(m, b, a + 1) == Column(m, b, a) + [At(m, a, b)];
    assert RowPrefix(m, a, b + 1) == RowPrefix(m, a, b) + [At(m, a, b)];
  }

  lemma BlocksAgree(m: Piece, a: nat, b: nat)
    ensures RowBlock(m, a, b) == ColumnBlock(m, a, b)
  {
    ColumnBlockOfNoRows(m, b);
    var k := 0;
    while k < a
      invariant k <= a && RowBlock(m, k, b) == ColumnBlock(m, k, b)
    {
      BlocksAgreeStep(m, k, b);
      k := k + 1;
    }
  }

  lemma BlocksAgreeStep(m: Piece, a: nat, b: nat)
    requires RowBlock(m, a, b) == ColumnBlock(m, a, b)
    ensures RowBlock(m, a + 1, b) == ColumnBlock(m, a + 1, b)
  {
    ColumnBlockAddRow(m, a, b);
  }

  lemma {:induction false} EntriesByRows(m: Piece, a: nat)
    requires IsSquare(m) && a <= |m|
    ensures Entries(m[..a]) == RowBlock(m, a, |m|)
  {
    if a > 0 {
      EntriesByRows(m, a - 1);
      assert m[..a][..a - 1] == m[..a - 1];
      assert RowPrefix(m, a - 1, |m|) == m[a - 1];
    }
  }

  lemma {:induction false} EntriesOfTransposeByColumns(m: Piece, b: nat)
    requires IsSquare(m) && b <= |m|
    ensures Entries(Transpose(m)[..b]) == ColumnBlock(m, |m|, b)
  {
    if b > 0 {
      EntriesOfTransposeByColumns(m, b - 1);
      var t := Transpose(m);
      assert t[..b][..b - 1] == t[..b - 1];
      assert t[b - 1] == Column(m, b - 1, |m|);
    }
  }

  lemma TransposeKeepsEntries(m: Piece)
    requires IsSquare(m)
    ensures Entries(Transpose(m)) == Entries(m)
  {
    var n := |m|;
    EntriesByRows(m, n);
    EntriesOfTransposeByColumns(m, n);
    BlocksAgree(m, n, n);
    assert m[..n] == m;
    assert Transpose(m)[..n] == Transpose(m);
  }
}
