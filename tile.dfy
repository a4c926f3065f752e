/** Tile.cs: the operations on the board array. Each one walks the array the
    way the game does and is proved to produce the board the functions of
    Grid, Rotation, Merge and Terminal describe. */
module Tile {
  import opened Grid
  import opened Rotation
  import opened Merge
  import opened Terminal
  import opened MoveInfos
  import Chance

  /** The cell at column x of row y: cell x of row y's slice of the board. */
  function At(tiles: array<Cell>, x: nat, y: nat, width: nat): (c: Cell)
    requires Shaped(tiles[..], width) && x < width && y < width
    reads tiles
    ensures c == Row(tiles[..], width, y)[x]
  {
    tiles[Index(x, y, width)]
  }

  /** One counter-clockwise quarter turn: columns are read from the last to
      the first, each from the top row down, and the result is copied back. */
  method RotateTile(tiles: array<Cell>, width: nat)
    requires Shaped(tiles[..], width)
    modifies tiles
    ensures tiles[..] == RotatedOnce(old(tiles[..]), width)
  {
    ghost var s := tiles[..];
    var rotated: seq<Cell> := [];
    var x: int := width - 1;
    while x >= 0
      invariant -1 <= x < width && tiles[..] == s
      invariant |rotated| == Mul(width - 1 - x, width)
      invariant |rotated| <= |s|
      invariant forall k :: 0 <= k < |rotated| ==> rotated[k] == s[RotSrc(k, width)]
    {
      RowBounds(width, width - 1 - x);
      var y := 0;
      while y < width
        invariant 0 <= y <= width && tiles[..] == s
        invariant |rotated| == Mul(width - 1 - x, width) + y
        invariant forall k :: 0 <= k < |rotated| ==> rotated[k] == s[RotSrc(k, width)]
      {
        RotSrcOfColumn(width, x, y);
        rotated := rotated + [tiles[Index(x, y, width)]];
        y := y + 1;
      }
      x := x - 1;
    }
    forall k | 0 <= k < tiles.Length {
      tiles[k] := rotated[k];
    }
  }

  /** The (w-1-x)*w + y-th cell a quarter turn collects is column x of row y. */
  lemma RotSrcOfColumn(w: nat, x: nat, y: nat)
    requires x < w && y < w
    ensures Mul(w - 1 - x, w) + y < Mul(w, w)
    ensures RotSrc(Mul(w - 1 - x, w) + y, w) == Index(x, y, w)
  {
    RowBounds(w, w - 1 - x);
    DivModUnique(w - 1 - x, y, w);
  }

  /** amount quarter turns; a non-positive amount turns nothing. */
  method Rotate(tiles: array<Cell>, amount: int, width: nat)
    requires Shaped(tiles[..], width)
    modifies tiles
    ensures tiles[..] == RotateN(old(tiles[..]), width, amount)
  {
    var i := 0;
    while i < amount
      invariant 0 <= i && (i <= amount || i == 0)
      invariant tiles[..] == RotateN(old(tiles[..]), width, i)
    {
      RotateTile(tiles, width);
      i := i + 1;
    }
  }

  /** Drop every merge mark and, when all holds, every tile. */
  method Clear(tiles: array<Cell>, all: bool)
    modifies tiles
    ensures tiles[..] == Cleared(old(tiles[..]), all)
  {
    var i := 0;
    while i < tiles.Length
      invariant 0 <= i <= tiles.Length
      invariant forall k :: 0 <= k < i ==> tiles[k] == Cleared(old(tiles[..]), all)[k]
      invariant forall k :: i <= k < tiles.Length ==> tiles[k] == old(tiles[k])
    {
      var value := tiles[i].value;
      if all {
        value := EMPTY;
      }
      tiles[i] := Cell(value, false);
      i := i + 1;
    }
  }

  /** The game-over test: scan the rows, and in each row the columns, until a
      slot passes the local test; a hit ends the scan of its row only, and
      later rows cannot undo it. */
  method HasMove(tiles: array<Cell>, width: nat) returns (canMove: bool)
    requires Shaped(tiles[..], width)
    ensures canMove == CanMove(tiles[..], width)
  {
    canMove := false;
    var y := 0;
    while y < width
      invariant 0 <= y <= width
      invariant canMove ==> CanMove(tiles[..], width)
      invariant !canMove ==> forall x', y' :: 0 <= x' < width && 0 <= y' < y ==> !LocalMove(tiles[..], width, x', y')
    {
      var x := 0;
      while x < width
        invariant 0 <= x <= width
        invariant canMove ==> CanMove(tiles[..], width)
        invariant !canMove ==> forall x', y' :: 0 <= x' < width && 0 <= y' < y ==> !LocalMove(tiles[..], width, x', y')
        invariant !canMove ==> forall x' :: 0 <= x' < x ==> !LocalMove(tiles[..], width, x', y)
      {
        var hit := LocalTest(tiles, x, y, width);
        canMove := canMove || hit;
        if canMove {
          break;
        }
        x := x + 1;
      }
      y := y + 1;
    }
  }

  /** The tile-to-tile interaction from column x of row y down to column 1:
      a slide into an empty left neighbour or a merge with an equal unmarked
      one, then the same from column x-1. The report collects the points and
      whether anything happened (MoveAtRow: this is the Cascade of row y). */
  method Move(tiles: array<Cell>, x: nat, y: nat, info: MoveInfo, width: nat) returns (result: MoveInfo)
    requires Shaped(tiles[..], width) && x < width && y < width
    modifies tiles, info
    ensures result == info
    ensures tiles[..] == MoveAt(old(tiles[..]), width, x, y).cells
    ensures info.score == old(info.score) + MoveAt(old(tiles[..]), width, x, y).score
    ensures info.shifted == (old(info.shifted) || MoveAt(old(tiles[..]), width, x, y).shifted)
    decreases x
  {
    if x == 0 {
      return info;
    }
    ghost var s := tiles[..];
    var cur := At(tiles, x, y, width);
    var prev := At(tiles, x - 1, y, width);
    ghost var o := Interact(prev, cur);
    if prev.value == EMPTY && cur.value != EMPTY {
      tiles[Index(x - 1, y, width)] := Cell(cur.value, cur.merged);
      tiles[Index(x, y, width)] := BLANK;
      info.shifted := true;
    } else if prev.value == cur.value && (!prev.merged && !cur.merged) && prev.value != EMPTY {
      var value := if prev.value + 1 >= MAX_SCORE then EMPTY else prev.value + 1;
      tiles[Index(x - 1, y, width)] := Cell(value, value != EMPTY);
      info.score := info.score + (if value != EMPTY then value * 2 else MAX_SCORE * 2);
      tiles[Index(x, y, width)] := BLANK;
      info.shifted := true;
    }
    assert tiles[..] == StepAt(s, width, x, y);
    assert info.score == old(info.score) + o.gain && info.shifted == (old(info.shifted) || o.moved);
    result := Move(tiles, x - 1, y, info, width);
  }

  /** The test of one slot inside HasMove's scan: the slot is empty, or a
      neighbour that exists holds the same tier. */
  method LocalTest(tiles: array<Cell>, x: nat, y: nat, width: nat) returns (canMove: bool)
    requires Shaped(tiles[..], width) && x < width && y < width
    ensures canMove == LocalMove(tiles[..], width, x, y)
  {
    canMove := false;
    var cur := At(tiles, x, y, width).value;
    if cur == EMPTY {
      canMove := true;
    } else {
      if y > 0 {
        canMove := canMove || At(tiles, x, y - 1, width).value == cur;
      }
      if x > 0 {
        canMove := canMove || At(tiles, x - 1, y, width).value == cur;
      }
      if x + 1 < width {
        canMove := canMove || At(tiles, x + 1, y, width).value == cur;
      }
      if y + 1 < width {
        canMove := canMove || At(tiles, x, y + 1, width).value == cur;
      }
    }
  }

  /** The pass toward column 0: for every row, a Move from each column 1 ..
      width-1 in turn (ShiftRow); then every merge mark is cleared. */
  method Shift(tiles: array<Cell>, width: nat) returns (info: MoveInfo)
    requires Shaped(tiles[..], width)
    modifies tiles
    ensures fresh(info)
    ensures tiles[..] == Cleared(ShiftRowsAt(old(tiles[..]), width, width).cells, false)
    ensures info.score == ShiftRowsAt(old(tiles[..]), width, width).score
    ensures info.shifted == ShiftRowsAt(old(tiles[..]), width, width).shifted
  {
    ghost var s := tiles[..];
    info := new MoveInfo();
    var y := 0;
    while y < width
      invariant 0 <= y <= width
      invariant tiles[..] == ShiftRowsAt(s, width, y).cells
      invariant info.score == ShiftRowsAt(s, width, y).score
      invariant info.shifted == ShiftRowsAt(s, width, y).shifted
    {
      ShiftRowsAtSucc(s, width, y);
      ShiftRow(tiles, y, info, width);
      y := y + 1;
    }
    Clear(tiles, false);
  }

  /** The inner loop of Shift on row y: a Move from each column 1 .. width-1
      in ascending order, adding to the same report. */
  method ShiftRow(tiles: array<Cell>, y: nat, info: MoveInfo, width: nat)
    requires Shaped(tiles[..], width) && y < width
    modifies tiles, info
    ensures tiles[..] == ShiftRowAt(old(tiles[..]), width, width, y).cells
    ensures info.score == old(info.score) + ShiftRowAt(old(tiles[..]), width, width, y).score
    ensures info.shifted == (old(info.shifted) || ShiftRowAt(old(tiles[..]), width, width, y).shifted)
  {
    ghost var t := tiles[..];
    var x := 1;
    while x < width
      invariant 1 <= x <= width
      invariant tiles[..] == ShiftRowAt(t, width, x, y).cells
      invariant info.score == old(info.score) + ShiftRowAt(t, width, x, y).score
      invariant info.shifted == (old(info.shifted) || ShiftRowAt(t, width, x, y).shifted)
    {
      ShiftRowAtSucc(t, width, x, y);
      var _ := Move(tiles, x, y, info, width);
      x := x + 1;
    }
  }

  // ---------------------------------------------------------------------------
  // The traversals of Move and Shift, as functions on the flat board, and
  // their agreement with the row-level pass of Merge

  /** The board after the interaction between columns x-1 and x of row y. */
  function StepAt(s: seq<Cell>, w: nat, x: nat, y: nat): (t: seq<Cell>)
    requires |s| == Mul(w, w) && 0 < x < w && y < w
    ensures |t| == |s|
  {
    var o := Interact(s[Index(x - 1, y, w)], s[Index(x, y, w)]);
    s[Index(x - 1, y, w) := o.prev][Index(x, y, w) := o.cur]
  }

  /** Tile.Move from column x of row y: the board, the points and the flag. */
  function MoveAt(s: seq<Cell>, w: nat, x: nat, y: nat): (p: Pass)
    requires |s| == Mul(w, w) && x < w && y < w
    ensures |p.cells| == |s|
    decreases x
  {
    if x == 0 then Pass(s, 0, false)
    else
      var o := Interact(s[Index(x - 1, y, w)], s[Index(x, y, w)]);
      var rest := MoveAt(StepAt(s, w, x, y), w, x - 1, y);
      Pass(rest.cells, o.gain + rest.score, o.moved || rest.shifted)
  }

  /** Tile.Shift's inner loop on row y after columns 1 .. n-1. */
  function ShiftRowAt(s: seq<Cell>, w: nat, n: nat, y: nat): (p: Pass)
    requires |s| == Mul(w, w) && n <= w && y < w
    ensures |p.cells| == |s|
    decreases n
  {
    if n <= 1 then Pass(s, 0, false)
    else
      var p := ShiftRowAt(s, w, n - 1, y);
      var c := MoveAt(p.cells, w, n - 1, y);
      Pass(c.cells, p.score + c.score, p.shifted || c.shifted)
  }

  /** Tile.Shift's outer loop after rows 0 .. m-1 (merge marks not yet cleared). */
  function ShiftRowsAt(s: seq<Cell>, w: nat, m: nat): (p: Pass)
    requires |s| == Mul(w, w) && m <= w
    ensures |p.cells| == |s|
    decreases m
  {
    if m == 0 then Pass(s, 0, false)
    else
      var p := ShiftRowsAt(s, w, m - 1);
      var q := ShiftRowAt(p.cells, w, w, m - 1);
      Pass(q.cells, p.score + q.score, p.shifted || q.shifted)
  }

  /** Writing two neighbouring cells of row y is replacing row y by the row
      with those two cells written. */
  lemma UpdateSplice(s: seq<Cell>, w: nat, x: nat, y: nat, a: Cell, b: Cell)
    requires |s| == Mul(w, w) && 0 < x < w && y < w
    ensures s[Index(x - 1, y, w) := a][Index(x, y, w) := b] == Splice(s, w, y, Row(s, w, y)[x - 1 := a][x := b])
  {
    var t := s[Index(x - 1, y, w) := a][Index(x, y, w) := b];
    var r := Row(s, w, y)[x - 1 := a][x := b];
    var u := Splice(s, w, y, r);
    forall i | 0 <= i < |s| ensures t[i] == u[i] {
      if Mul(y, w) <= i < Mul(y, w) + w {
        var j := i - Mul(y, w);
        assert u[j + Mul(y, w)] == r[j];
      }
    }
  }

  /** StepAt is the row-level Step applied to row y. */
  lemma StepAtSplice(s: seq<Cell>, w: nat, x: nat, y: nat)
    requires |s| == Mul(w, w) && 0 < x < w && y < w
    ensures StepAt(s, w, x, y) == Splice(s, w, y, Step(Row(s, w, y), x))
  {
    var o := Interact(s[Index(x - 1, y, w)], s[Index(x, y, w)]);
    UpdateSplice(s, w, x, y, o.prev, o.cur);
  }

  lemma StepAtRow(s: seq<Cell>, w: nat, x: nat, y: nat)
    requires |s| == Mul(w, w) && 0 < x < w && y < w
    ensures Row(StepAt(s, w, x, y), w, y) == Step(Row(s, w, y), x)
  {
    StepAtSplice(s, w, x, y);
    RowSplice(s, w, y, Step(Row(s, w, y), x), y);
  }

  /** Replacing row y after a step is replacing it in the board before the step. */
  lemma SpliceOfStepAt(s: seq<Cell>, w: nat, x: nat, y: nat, b: seq<Cell>)
    requires |s| == Mul(w, w) && 0 < x < w && y < w && |b| == w
    ensures Splice(StepAt(s, w, x, y), w, y, b) == Splice(s, w, y, b)
  {
    StepAtSplice(s, w, x, y);
    SpliceTwice(s, w, y, Step(Row(s, w, y), x), b);
  }

  lemma CascadeOfStepAt(s: seq<Cell>, w: nat, x: nat, y: nat)
    requires |s| == Mul(w, w) && 0 < x < w && y < w
    ensures Cascade(Row(StepAt(s, w, x, y), w, y), x - 1) == Cascade(Step(Row(s, w, y), x), x - 1)
  {
    StepAtRow(s, w, x, y);
  }

  /** One unfolding of MoveAt, with the interaction read from the row. */
  lemma MoveAtUnfold(s: seq<Cell>, w: nat, x: nat, y: nat)
    requires |s| == Mul(w, w) && 0 < x < w && y < w
    ensures var r := Row(s, w, y);
      var o := Interact(r[x - 1], r[x]);
      var rest := MoveAt(StepAt(s, w, x, y), w, x - 1, y);
      MoveAt(s, w, x, y) == Pass(rest.cells, o.gain + rest.score, o.moved || rest.shifted)
  {
  }

  /** Tile.Move is the row-level Cascade applied to row y. */
  lemma {:induction false} MoveAtRow(s: seq<Cell>, w: nat, x: nat, y: nat)
    requires |s| == Mul(w, w) && x < w && y < w
    ensures var c := Cascade(Row(s, w, y), x);
      MoveAt(s, w, x, y) == Pass(Splice(s, w, y, c.cells), c.score, c.shifted)
    decreases x
  {
    if x == 0 {
      SpliceRow(s, w, y);
    } else {
      var c := Cascade(Step(Row(s, w, y), x), x - 1);
      CascadeOfStepAt(s, w, x, y);
      MoveAtRow(StepAt(s, w, x, y), w, x - 1, y);
      SpliceOfStepAt(s, w, x, y, c.cells);
      MoveAtUnfold(s, w, x, y);
    }
  }

  /** On tiers in range, Tile.Move never earns a negative score, so the
      report's score only grows along a Shift. */
  lemma MoveAtScore(s: seq<Cell>, w: nat, x: nat, y: nat)
    requires |s| == Mul(w, w) && x < w && y < w && InRange(s)
    ensures MoveAt(s, w, x, y).score >= 0
  {
    MoveAtRow(s, w, x, y);
    RowInRange(s, w, y);
    CascadeEffect(Row(s, w, y), x);
  }

  /** Tile.Shift's inner loop is the row-level SweepUpTo applied to row y. */
  lemma {:induction false} ShiftRowAtRow(s: seq<Cell>, w: nat, n: nat, y: nat)
    requires |s| == Mul(w, w) && n <= w && y < w
    ensures var p := SweepUpTo(Row(s, w, y), n);
      ShiftRowAt(s, w, n, y) == Pass(Splice(s, w, y, p.cells), p.score, p.shifted)
    decreases n
  {
    if n <= 1 {
      SpliceRow(s, w, y);
    } else {
      ShiftRowAtRow(s, w, n - 1, y);
      ShiftRowAtNext(s, w, n, y);
    }
  }

  lemma ShiftRowAtNext(s: seq<Cell>, w: nat, n: nat, y: nat)
    requires |s| == Mul(w, w) && 1 < n <= w && y < w
    requires var p := SweepUpTo(Row(s, w, y), n - 1);
      ShiftRowAt(s, w, n - 1, y) == Pass(Splice(s, w, y, p.cells), p.score, p.shifted)
    ensures var p := SweepUpTo(Row(s, w, y), n);
      ShiftRowAt(s, w, n, y) == Pass(Splice(s, w, y, p.cells), p.score, p.shifted)
  {
    MoveAtSpliced(s, w, n - 1, y, SweepUpTo(Row(s, w, y), n - 1).cells);
    ShiftRowAtUnfold(s, w, n, y);
  }

  /** One unfolding of ShiftRowAt. */
  lemma ShiftRowAtUnfold(s: seq<Cell>, w: nat, n: nat, y: nat)
    requires |s| == Mul(w, w) && 1 < n <= w && y < w
    ensures var p := ShiftRowAt(s, w, n - 1, y);
      var c := MoveAt(p.cells, w, n - 1, y);
      ShiftRowAt(s, w, n, y) == Pass(c.cells, p.score + c.score, p.shifted || c.shifted)
  {
  }

  /** Tile.Move on a board whose row y was replaced by a is the Cascade of a. */
  lemma MoveAtSpliced(s: seq<Cell>, w: nat, x: nat, y: nat, a: seq<Cell>)
    requires |s| == Mul(w, w) && x < w && y < w && |a| == w
    ensures var c := Cascade(a, x);
      MoveAt(Splice(s, w, y, a), w, x, y) == Pass(Splice(s, w, y, c.cells), c.score, c.shifted)
  {
    var u := Splice(s, w, y, a);
    MoveAtRow(u, w, x, y);
    CascadeOfSplice(s, w, x, y, a);
    SpliceTwice(s, w, y, a, Cascade(a, x).cells);
  }

  lemma CascadeOfSplice(s: seq<Cell>, w: nat, x: nat, y: nat, a: seq<Cell>)
    requires |s| == Mul(w, w) && x < w && y < w && |a| == w
    ensures Cascade(Row(Splice(s, w, y, a), w, y), x) == Cascade(a, x)
  {
    RowSplice(s, w, y, a, y);
  }

  /** ShiftRowAt and ShiftRowsAt one column or one row further on. */
  lemma ShiftRowAtSucc(s: seq<Cell>, w: nat, x: nat, y: nat)
    requires |s| == Mul(w, w) && 0 < x < w && y < w
    ensures var p := ShiftRowAt(s, w, x, y);
      var c := MoveAt(p.cells, w, x, y);
      ShiftRowAt(s, w, x + 1, y) == Pass(c.cells, p.score + c.score, p.shifted || c.shifted)
  {
  }

  lemma ShiftRowsAtSucc(s: seq<Cell>, w: nat, y: nat)
    requires |s| == Mul(w, w) && y < w
    ensures var p := ShiftRowsAt(s, w, y);
      var q := ShiftRowAt(p.cells, w, w, y);
      ShiftRowsAt(s, w, y + 1) == Pass(q.cells, p.score + q.score, p.shifted || q.shifted)
  {
  }

  /** Tile.Shift's outer loop is SweptRows, with the scores and flags of its rows. */
  lemma {:induction false} ShiftRowsAtRows(s: seq<Cell>, w: nat, m: nat)
    requires |s| == Mul(w, w) && m <= w
    ensures var p := ShiftRowsAt(s, w, m);
      p.cells == SweptRows(s, w, m) && p.score == RowsScore(s, w, m) && p.shifted == RowsShifted(s, w, m)
    decreases m
  {
    if m == 0 {
      SweptRowsNone(s, w);
    } else {
      ShiftRowsAtRows(s, w, m - 1);
      ShiftRowsAtNext(s, w, m, ShiftRowsAt(s, w, m - 1));
    }
  }

  lemma ShiftRowsAtNext(s: seq<Cell>, w: nat, m: nat, p: Pass)
    requires |s| == Mul(w, w) && 0 < m <= w && p == ShiftRowsAt(s, w, m - 1)
    requires p.cells == SweptRows(s, w, m - 1) && p.score == RowsScore(s, w, m - 1) && p.shifted == RowsShifted(s, w, m - 1)
    ensures var n := ShiftRowsAt(s, w, m);
      n.cells == SweptRows(s, w, m) && n.score == RowsScore(s, w, m) && n.shifted == RowsShifted(s, w, m)
  {
    ShiftRowsAtStep(s, w, m, p.cells);
  }

  lemma ShiftRowsAtStep(s: seq<Cell>, w: nat, m: nat, t: seq<Cell>)
    requires |s| == Mul(w, w) && 0 < m <= w && t == SweptRows(s, w, m - 1)
    ensures var q := ShiftRowAt(t, w, w, m - 1);
      && q.cells == SweptRows(s, w, m)
      && RowsScore(s, w, m - 1) + q.score == RowsScore(s, w, m)
      && (RowsShifted(s, w, m - 1) || q.shifted) == RowsShifted(s, w, m)
  {
    var y := m - 1;
    ShiftRowAtRow(t, w, w, y);
    SweptRowsRow(s, w, y, y);
    assert SweepUpTo(Row(s, w, y), w) == SweepRow(Row(s, w, y));
    SweptRowsStep(s, w, m);
  }

  /** Tile.Shift's traversal followed by clearing the marks is the pass ShiftGrid. */
  lemma ShiftRowsAtGrid(s: seq<Cell>, w: nat)
    requires |s| == Mul(w, w)
    ensures var p := ShiftRowsAt(s, w, w);
      Pass(Cleared(p.cells, false), p.score, p.shifted) == ShiftGrid(s, w)
  {
    ShiftRowsAtRows(s, w, w);
  }

  // ---------------------------------------------------------------------------
  // Spawning

  /** Slot k of t holds a fresh tile of tier 0 or 1, keeping the slot's merge
      mark, and every other slot of t is as in s. */
  ghost predicate SpawnAt(s: seq<Cell>, t: seq<Cell>, k: nat)
    requires |t| == |s| && k < |s|
  {
    && (t[k].value == 0 || t[k].value == 1)
    && t[k].merged == s[k].merged
    && forall j :: 0 <= j < |s| && j != k ==> t[j] == s[j]
  }

  /** What AddTile may do: on a full board nothing; otherwise spawn a tile in
      one slot that was empty. */
  ghost predicate Spawned(s: seq<Cell>, t: seq<Cell>)
  {
    && |t| == |s|
    && (!HasEmpty(s) ==> t == s)
    && (HasEmpty(s) ==> exists k :: 0 <= k < |s| && IsEmpty(s[k]) && SpawnAt(s, t, k))
  }

  /** Collect the empty slots; if there is one, give a randomly chosen one a
      random tier, 0 or 1. */
  method AddTile(tiles: array<Cell>)
    modifies tiles
    ensures Spawned(old(tiles[..]), tiles[..])
  {
    var empty: seq<nat> := [];
    var i := 0;
    while i < tiles.Length
      invariant 0 <= i <= tiles.Length
      invariant forall j :: 0 <= j < |empty| ==> empty[j] < i && IsEmpty(tiles[empty[j]])
      invariant forall k :: 0 <= k < i && IsEmpty(tiles[k]) ==> k in empty
    {
      if tiles[i].value == EMPTY {
        empty := empty + [i];
      }
      i := i + 1;
    }
    ghost var s := tiles[..];
    if |empty| > 0 {
      var idx := Chance.Next(|empty|);
      var value := Chance.Next(2);
      var k := empty[idx];
      tiles[k] := Cell(value, tiles[k].merged);
      assert IsEmpty(s[k]) && SpawnAt(s, tiles[..], k);
    } else {
      assert !HasEmpty(s);
    }
  }

  /** A spawn adds exactly one tile when there was room and none otherwise,
      and keeps tiers in range and merge marks as they were. */
  lemma SpawnedCount(s: seq<Cell>, t: seq<Cell>)
    requires Spawned(s, t)
    ensures Occupied(t) == Occupied(s) + (if HasEmpty(s) then 1 else 0)
    ensures InRange(s) ==> InRange(t)
    ensures AllUnmerged(s) ==> AllUnmerged(t)
  {
    if HasEmpty(s) {
      var k :| 0 <= k < |s| && IsEmpty(s[k]) && SpawnAt(s, t, k);
      assert t == s[k := t[k]];
      OccupiedUpdate(s, k, t[k]);
    }
  }
}
