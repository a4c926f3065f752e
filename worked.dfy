/** Worked cases of the rules on concrete rows and boards. */
module Worked {
  import opened Grid
  import opened Rotation
  import opened Merge
  import opened Terminal
  import opened Games
  import Tile

  function T(v: int): Cell { Cell(v, false) }

  /** Three tier-0 tiles: the first pair merges into tier 1 at column 0; the
      third tile then slides into column 1 but cannot merge with the tile
      merged in this pass. Two points are earned, and once the marks are
      cleared the row reads 1, 0, empty. */
  lemma SweepThreeZeros()
    ensures SweepRow([T(0), T(0), T(0)]) == Pass([Cell(1, true), T(0), BLANK], 2, true)
  {
    var r := [T(0), T(0), T(0)];
    var p := SweepUpTo(r, 2);
    FirstPairMerges();
    assert p == Pass([Cell(1, true), BLANK, T(0)], 2, true);
    ThirdTileSlides();
    var c := Cascade(p.cells, 2);
    assert c == Pass([Cell(1, true), T(0), BLANK], 0, true);
    SweepUnfold(r, 3);
    assert SweepRow(r) == SweepUpTo(r, 3) == Pass(c.cells, p.score + c.score, p.shifted || c.shifted);
  }

  lemma SweepUnfold(r: seq<Cell>, n: nat)
    requires 1 < n <= |r|
    ensures var p := SweepUpTo(r, n - 1);
      var c := Cascade(p.cells, n - 1);
      SweepUpTo(r, n) == Pass(c.cells, p.score + c.score, p.shifted || c.shifted)
  {
  }

  /** Column 1 meets column 0: the two tier-0 tiles merge. */
  lemma FirstPairMerges()
    ensures SweepUpTo([T(0), T(0), T(0)], 2) == Pass([Cell(1, true), BLANK, T(0)], 2, true)
  {
    var r := [T(0), T(0), T(0)];
    assert Interact(T(0), T(0)) == Outcome(Cell(1, true), BLANK, 2, true);
    assert Step(r, 1) == [Cell(1, true), BLANK, T(0)];
    assert Cascade(r, 1) == Pass([Cell(1, true), BLANK, T(0)], 2, true);
  }

  /** Column 2 slides into the empty column 1 and stops at the merged tile. */
  lemma ThirdTileSlides()
    ensures Cascade([Cell(1, true), BLANK, T(0)], 2) == Pass([Cell(1, true), T(0), BLANK], 0, true)
  {
    var r := [Cell(1, true), BLANK, T(0)];
    var r' := [Cell(1, true), T(0), BLANK];
    assert Interact(BLANK, T(0)) == Outcome(T(0), BLANK, 0, true);
    assert Step(r, 2) == r';
    assert Interact(Cell(1, true), T(0)) == Outcome(Cell(1, true), T(0), 0, false);
    assert Step(r', 1) == r';
    assert Cascade(r', 1) == Pass(r', 0, false);
  }

  /** A lone tile at the far end cascades all the way to column 0 in one pass,
      earning nothing but reporting a shift. */
  lemma SweepLoneTile()
    ensures SweepRow([BLANK, BLANK, T(3)]) == Pass([T(3), BLANK, BLANK], 0, true)
  {
    var r := [BLANK, BLANK, T(3)];
    assert SweepUpTo(r, 2) == Pass(r, 0, false) by {
      assert Step(r, 1) == r;
    }
    assert Cascade(r, 2) == Pass([T(3), BLANK, BLANK], 0, true) by {
      assert Step(r, 2) == [BLANK, T(3), BLANK];
      assert Step([BLANK, T(3), BLANK], 1) == [T(3), BLANK, BLANK];
    }
  }

  /** A full width-2 board holding 0 1 in its top row and 1 0 in its bottom
      row has no move: the two 1s are diagonal, not adjacent. */
  lemma DiagonalPairsStuck()
    ensures Mul(2, 2) == 4
    ensures !CanMove([T(0), T(1), T(1), T(0)], 2)
  {
    var s := [T(0), T(1), T(1), T(0)];
    MulIsProduct(2, 2);
    forall x, y | 0 <= x < 2 && 0 <= y < 2 ensures !LocalMove(s, 2, x, y) {
    }
  }

  /** On a width-2 board with two tier-0 tiles in the top row, a move LEFT
      merges them into a tier-1 tile at the top-left slot and earns 2 points. */
  lemma LeftOnTwoZeros()
    ensures Mul(2, 2) == 4
    ensures Slide([T(0), T(0), BLANK, BLANK], 2, LEFT) == Pass([T(1), BLANK, BLANK, BLANK], 2, true)
  {
    var s := [T(0), T(0), BLANK, BLANK];
    var want := [T(1), BLANK, BLANK, BLANK];
    MulIsProduct(2, 2);
    MulIsProduct(1, 2);
    var r0, r1 := Row(s, 2, 0), Row(s, 2, 1);
    assert r0 == [T(0), T(0)] && r1 == [BLANK, BLANK];
    assert SweepRow(r0) == Pass([Cell(1, true), BLANK], 2, true) by {
      assert Step(r0, 1) == [Cell(1, true), BLANK];
    }
    assert SweepRow(r1) == Pass(r1, 0, false) by {
      assert Step(r1, 1) == r1;
    }
    var p := ShiftGrid(s, 2);
    ShiftGridRow(s, 2, 0);
    ShiftGridRow(s, 2, 1);
    assert Row(p.cells, 2, 0) == Row(want, 2, 0);
    assert Row(p.cells, 2, 1) == Row(want, 2, 1);
    EqualByRows(p.cells, want, 2);
    assert RowsScore(s, 2, 1) == 2 && RowsShifted(s, 2, 1);
    assert RowsScore(s, 2, 2) == 2 && RowsShifted(s, 2, 2);
  }

  /** After that move the spawn fills one of the three empty slots, so an
      empty slot remains and the game keeps running. */
  lemma LeftOnTwoZerosKeepsRunning(t: seq<Cell>)
    requires Mul(2, 2) == 4
    requires Tile.Spawned([T(1), BLANK, BLANK, BLANK], t)
    ensures CanMove(t, 2)
  {
    var s := [T(1), BLANK, BLANK, BLANK];
    assert IsEmpty(s[1]);
    var k :| 0 <= k < 4 && IsEmpty(s[k]) && Tile.SpawnAt(s, t, k);
    var j := if k == 1 then 2 else 1;
    assert IsEmpty(t[j]);
    WitnessMoves(t, 2);
  }
}
