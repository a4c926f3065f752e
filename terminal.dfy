/** When the game is over: the test Tile.HasMove makes, stated on the board,
    an independent characterisation of it, and the fact that justifies ending
    the game: on a board that fails the test no direction changes anything. */
module Terminal {
  import opened Grid
  import opened Rotation
  import opened Merge

  /** The test Tile.HasMove makes at column x of row y: the cell is empty, or
      its neighbour above, to the left, to the right or below holds the same tier. */
  predicate LocalMove(s: seq<Cell>, w: nat, x: nat, y: nat)
    requires Shaped(s, w) && x < w && y < w
  {
    var cur := s[Index(x, y, w)].value;
    || cur == EMPTY
    || (y > 0 && s[Index(x, y - 1, w)].value == cur)
    || (x > 0 && s[Index(x - 1, y, w)].value == cur)
    || (x + 1 < w && s[Index(x + 1, y, w)].value == cur)
    || (y + 1 < w && s[Index(x, y + 1, w)].value == cur)
  }

  /** Some slot passes the local test. */
  predicate CanMove(s: seq<Cell>, w: nat)
    requires Shaped(s, w)
  {
    exists x, y :: 0 <= x < w && 0 <= y < w && LocalMove(s, w, x, y)
  }

  /** Some slot is empty. */
  predicate HasEmpty(s: seq<Cell>)
  {
    exists k :: 0 <= k < |s| && IsEmpty(s[k])
  }

  /** Column x and column x+1 of row y hold the same tier. */
  predicate RowPair(s: seq<Cell>, w: nat, x: nat, y: nat)
    requires Shaped(s, w) && x + 1 < w && y < w
  {
    !IsEmpty(s[Index(x, y, w)]) && s[Index(x, y, w)].value == s[Index(x + 1, y, w)].value
  }

  /** Row y and row y+1 of column x hold the same tier. */
  predicate ColumnPair(s: seq<Cell>, w: nat, x: nat, y: nat)
    requires Shaped(s, w) && x < w && y + 1 < w
  {
    !IsEmpty(s[Index(x, y, w)]) && s[Index(x, y, w)].value == s[Index(x, y + 1, w)].value
  }

  /** Two horizontal neighbours hold the same tier. */
  predicate HasRowPair(s: seq<Cell>, w: nat)
    requires Shaped(s, w)
  {
    exists x: nat, y: nat :: x + 1 < w && y < w && RowPair(s, w, x, y)
  }

  /** Two vertical neighbours hold the same tier. */
  predicate HasColumnPair(s: seq<Cell>, w: nat)
    requires Shaped(s, w)
  {
    exists x: nat, y: nat :: x < w && y + 1 < w && ColumnPair(s, w, x, y)
  }

  /** The local test passes somewhere exactly when the board has an empty slot
      or two equal neighbours in a row or in a column. */
  lemma CanMoveIff(s: seq<Cell>, w: nat)
    requires Shaped(s, w)
    ensures CanMove(s, w) <==> HasEmpty(s) || HasRowPair(s, w) || HasColumnPair(s, w)
  {
    if CanMove(s, w) {
      var x, y :| 0 <= x < w && 0 <= y < w && LocalMove(s, w, x, y);
      LocalMoveWitness(s, w, x, y);
    }
    if HasEmpty(s) || HasRowPair(s, w) || HasColumnPair(s, w) {
      WitnessMoves(s, w);
    }
  }

  /** An empty slot or an equal pair makes the local test pass somewhere. */
  lemma WitnessMoves(s: seq<Cell>, w: nat)
    requires Shaped(s, w) && (HasEmpty(s) || HasRowPair(s, w) || HasColumnPair(s, w))
    ensures CanMove(s, w)
  {
    if HasEmpty(s) {
      var k :| 0 <= k < |s| && IsEmpty(s[k]);
      IndexOfCoords(k, w);
      EmptyMoves(s, w, k % w, k / w);
    } else if HasRowPair(s, w) {
      var x: nat, y: nat :| x + 1 < w && y < w && RowPair(s, w, x, y);
      PairMoves(s, w, x, y, x + 1, y);
    } else {
      var x: nat, y: nat :| x < w && y + 1 < w && ColumnPair(s, w, x, y);
      PairMoves(s, w, x, y, x, y + 1);
    }
  }

  /** A slot whose right or lower neighbour holds its tier passes the local test. */
  lemma PairMoves(s: seq<Cell>, w: nat, x: nat, y: nat, x': nat, y': nat)
    requires Shaped(s, w) && x' < w && y' < w
    requires (x' == x + 1 && y' == y) || (x' == x && y' == y + 1)
    requires !IsEmpty(s[Index(x, y, w)]) && s[Index(x, y, w)].value == s[Index(x', y', w)].value
    ensures CanMove(s, w)
  {
    assert LocalMove(s, w, x, y);
  }

  lemma EmptyMoves(s: seq<Cell>, w: nat, x: nat, y: nat)
    requires Shaped(s, w) && x < w && y < w && IsEmpty(s[Index(x, y, w)])
    ensures CanMove(s, w)
  {
    assert LocalMove(s, w, x, y);
  }

  /** A slot that passes the local test is empty or one of an equal pair. */
  lemma LocalMoveWitness(s: seq<Cell>, w: nat, x: nat, y: nat)
    requires Shaped(s, w) && x < w && y < w && LocalMove(s, w, x, y)
    ensures HasEmpty(s) || HasRowPair(s, w) || HasColumnPair(s, w)
  {
    var cur := s[Index(x, y, w)].value;
    if cur == EMPTY {
      assert IsEmpty(s[Index(x, y, w)]);
    } else if y > 0 && s[Index(x, y - 1, w)].value == cur {
      assert ColumnPair(s, w, x, y - 1);
    } else if x > 0 && s[Index(x - 1, y, w)].value == cur {
      assert RowPair(s, w, x - 1, y);
    } else if x + 1 < w && s[Index(x + 1, y, w)].value == cur {
      assert RowPair(s, w, x, y);
    } else {
      assert ColumnPair(s, w, x, y);
    }
  }

  /** A quarter turn keeps the board playable when the turned board is: its
      empty slots come from empty slots, its row pairs from column pairs and
      its column pairs from row pairs. */
  lemma CanMoveUnturned(s: seq<Cell>, w: nat)
    requires Shaped(s, w) && CanMove(RotatedOnce(s, w), w)
    ensures CanMove(s, w)
  {
    var t := RotatedOnce(s, w);
    CanMoveIff(t, w);
    if HasEmpty(t) {
      var k :| 0 <= k < |t| && IsEmpty(t[k]);
      EmptyUnturned(s, w, k);
    } else if HasRowPair(t, w) {
      var x: nat, y: nat :| x + 1 < w && y < w && RowPair(t, w, x, y);
      RowPairUnturned(s, w, x, y);
    } else {
      var x: nat, y: nat :| x < w && y + 1 < w && ColumnPair(t, w, x, y);
      ColumnPairUnturned(s, w, x, y);
    }
  }

  /** An empty slot of the turned board is an empty slot of the board. */
  lemma EmptyUnturned(s: seq<Cell>, w: nat, k: nat)
    requires Shaped(s, w) && k < |s| && IsEmpty(RotatedOnce(s, w)[k])
    ensures CanMove(s, w)
  {
    IndexOfCoords(k, w);
    RotatedFrom(s, w, k % w, k / w);
    EmptyMoves(s, w, w - 1 - k / w, k % w);
  }

  /** A row pair of the turned board is a column pair of the board. */
  lemma RowPairUnturned(s: seq<Cell>, w: nat, x: nat, y: nat)
    requires Shaped(s, w) && x + 1 < w && y < w && RowPair(RotatedOnce(s, w), w, x, y)
    ensures CanMove(s, w)
  {
    RotatedFrom(s, w, x, y);
    RotatedFrom(s, w, x + 1, y);
    PairMoves(s, w, w - 1 - y, x, w - 1 - y, x + 1);
  }

  /** A column pair of the turned board is a row pair of the board. */
  lemma ColumnPairUnturned(s: seq<Cell>, w: nat, x: nat, y: nat)
    requires Shaped(s, w) && x < w && y + 1 < w && ColumnPair(RotatedOnce(s, w), w, x, y)
    ensures CanMove(s, w)
  {
    RotatedFrom(s, w, x, y);
    RotatedFrom(s, w, x, y + 1);
    PairMoves(s, w, w - 2 - y, x, w - 1 - y, x);
  }

  /** Turning a board that fails the test any number of times gives one that fails it. */
  lemma {:induction false} StuckTurned(s: seq<Cell>, w: nat, n: int)
    requires Shaped(s, w) && !CanMove(s, w)
    ensures !CanMove(RotateN(s, w, n), w)
    decreases n
  {
    if n > 0 {
      StuckTurned(s, w, n - 1);
      if CanMove(RotateN(s, w, n), w) {
        CanMoveUnturned(RotateN(s, w, n - 1), w);
      }
    }
  }

  /** On a board that fails the test every row is settled: full, with no two
      equal neighbours. */
  lemma StuckRowsSettled(s: seq<Cell>, w: nat)
    requires Shaped(s, w) && !CanMove(s, w)
    ensures forall y :: 0 <= y < w ==> RowSettled(Row(s, w, y))
  {
    forall y | 0 <= y < w ensures RowSettled(Row(s, w, y)) {
      var r := Row(s, w, y);
      forall i | 0 <= i < w ensures !IsEmpty(r[i]) {
        if IsEmpty(r[i]) {
          EmptyMoves(s, w, i, y);
        }
      }
      forall i | 0 < i < w ensures r[i - 1].value != r[i].value {
        if r[i - 1].value == r[i].value {
          PairMoves(s, w, i - 1, y, i, y);
        }
      }
    }
  }

  /** On an unmarked board that fails the test, Tile.Shift changes nothing,
      earns nothing and reports no shift. */
  lemma StuckShiftIdle(s: seq<Cell>, w: nat)
    requires Shaped(s, w) && AllUnmerged(s) && !CanMove(s, w)
    ensures ShiftGrid(s, w) == Pass(s, 0, false)
  {
    StuckRowsSettled(s, w);
    ShiftGridSettled(s, w);
  }
}
