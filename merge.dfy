/** The canonical "slide toward column 0" pass, as functions on rows and on the
    board, with the properties the game relies on: tiles are never created,
    the score is tied to the tiles a pass removes, the shifted flag says exactly
    whether a tier changed, rows end left-packed, and settled rows stay put. */
module Merge {
  import opened Grid

  /** What one tile-to-tile interaction does to a pair (left neighbour, current cell). */
  datatype Outcome = Outcome(prev: Cell, cur: Cell, gain: int, moved: bool)

  /** The cells after a run of interactions, the score it earned and whether
      anything slid or merged. */
  datatype Pass = Pass(cells: seq<Cell>, score: int, shifted: bool)

  /** Equal, non-empty and neither merged yet in this pass. */
  predicate Mergeable(prev: Cell, cur: Cell) {
    prev.value == cur.value && !prev.merged && !cur.merged && prev.value != EMPTY
  }

  /** One interaction: a tile slides into an empty left neighbour, or two
      mergeable tiles merge into the left one (a merge reaching MAX_SCORE
      clears it), or nothing happens. */
  function Interact(prev: Cell, cur: Cell): (o: Outcome)
  {
    if prev.value == EMPTY && cur.value != EMPTY then
      Outcome(cur, BLANK, 0, true)
    else if Mergeable(prev, cur) then
      var v := if prev.value + 1 >= MAX_SCORE then EMPTY else prev.value + 1;
      Outcome(Cell(v, v != EMPTY), BLANK, if v != EMPTY then v * 2 else MAX_SCORE * 2, true)
    else
      Outcome(prev, cur, 0, false)
  }

  /** The three cases of an interaction: something happens exactly when a tile
      meets an empty left neighbour or a mergeable one, and then the current
      cell is left empty; a slide carries the tile, mark and all, into the left
      cell and earns nothing; otherwise both cells stay as they were. */
  lemma InteractRule(prev: Cell, cur: Cell)
    ensures var o := Interact(prev, cur);
      && (o.moved <==> (IsEmpty(prev) && !IsEmpty(cur)) || Mergeable(prev, cur))
      && (o.moved ==> o.cur == BLANK)
      && (IsEmpty(prev) && !IsEmpty(cur) ==> o.prev == cur && o.gain == 0)
      && (!o.moved ==> o.prev == prev && o.cur == cur && o.gain == 0)
  {
  }

  /** The merge rule: the current cell is emptied, and the left one either grows
      by one tier and is marked, earning twice its new tier, or at the cap is
      cleared, earning twice the cap; so a merge earns between 2 and 24 and
      leaves a tier below the cap. */
  lemma MergeRule(prev: Cell, cur: Cell)
    requires Mergeable(prev, cur) && 0 <= prev.value
    ensures var o := Interact(prev, cur);
      && o.moved && o.cur == BLANK
      && (prev.value + 1 < MAX_SCORE ==> o.prev == Cell(prev.value + 1, true) && o.gain == 2 * (prev.value + 1))
      && (prev.value + 1 >= MAX_SCORE ==> o.prev == BLANK && o.gain == 2 * MAX_SCORE)
      && 2 <= o.gain <= 2 * MAX_SCORE
      && EMPTY <= o.prev.value < MAX_SCORE
  {
  }

  /** The row after the interaction between columns k-1 and k. */
  function Step(r: seq<Cell>, k: nat): (r': seq<Cell>)
    requires 0 < k < |r|
    ensures |r'| == |r|
  {
    var o := Interact(r[k - 1], r[k]);
    r[k - 1 := o.prev][k := o.cur]
  }

  /** Tile.Move from column x: interact at (x-1, x), then continue from x-1
      down to column 1, so a tile cascades left until it is blocked. */
  function Cascade(r: seq<Cell>, x: nat): (p: Pass)
    requires x < |r|
    ensures |p.cells| == |r|
    ensures forall i :: x < i < |r| ==> p.cells[i] == r[i]
    decreases x
  {
    if x == 0 then Pass(r, 0, false)
    else
      var o := Interact(r[x - 1], r[x]);
      var rest := Cascade(Step(r, x), x - 1);
      Pass(rest.cells, o.gain + rest.score, o.moved || rest.shifted)
  }

  /** Tile.Shift's inner loop on one row after columns 1 .. n-1: a Cascade from
      each of those columns in ascending order. Columns from n on are untouched. */
  function SweepUpTo(r: seq<Cell>, n: nat): (p: Pass)
    requires n <= |r|
    ensures |p.cells| == |r|
    ensures forall i :: n <= i < |r| ==> p.cells[i] == r[i]
    decreases n
  {
    if n <= 1 then Pass(r, 0, false)
    else
      var p := SweepUpTo(r, n - 1);
      var c := Cascade(p.cells, n - 1);
      Pass(c.cells, p.score + c.score, p.shifted || c.shifted)
  }

  /** One row's share of a pass: columns 1 .. width-1 in ascending order. */
  function SweepRow(r: seq<Cell>): (p: Pass)
    ensures |p.cells| == |r|
  {
    SweepUpTo(r, |r|)
  }

  /** The board once Tile.Shift's outer loop has swept rows 0 .. n-1 (merge
      marks not yet cleared); rows are swept independently of each other. */
  function SweptRows(s: seq<Cell>, w: nat, n: nat): (t: seq<Cell>)
    requires |s| == Mul(w, w) && n <= w
    ensures |t| == |s|
  {
    seq(|s|, k requires 0 <= k < |s| => SweptCell(s, w, n, k))
  }

  /** Slot k of the board whose rows 0 .. n-1 are swept. */
  function SweptCell(s: seq<Cell>, w: nat, n: nat, k: nat): Cell
    requires |s| == Mul(w, w) && n <= w && k < |s|
  {
    Coords(k, w);
    if k / w < n then SweepRow(Row(s, w, k / w)).cells[k % w] else s[k]
  }

  /** Points earned by sweeping rows 0 .. n-1. */
  function RowsScore(s: seq<Cell>, w: nat, n: nat): int
    requires |s| == Mul(w, w) && n <= w
  {
    if n == 0 then 0 else RowsScore(s, w, n - 1) + SweepRow(Row(s, w, n - 1)).score
  }

  /** Whether sweeping rows 0 .. n-1 slid or merged anything. */
  function RowsShifted(s: seq<Cell>, w: nat, n: nat): bool
    requires |s| == Mul(w, w) && n <= w
  {
    n > 0 && (RowsShifted(s, w, n - 1) || SweepRow(Row(s, w, n - 1)).shifted)
  }

  /** Tile.Shift: every row swept, then every merge mark cleared. */
  function ShiftGrid(s: seq<Cell>, w: nat): (p: Pass)
    requires |s| == Mul(w, w)
    ensures |p.cells| == |s| && AllUnmerged(p.cells)
  {
    Pass(Cleared(SweptRows(s, w, w), false), RowsScore(s, w, w), RowsShifted(s, w, w))
  }

  // ---------------------------------------------------------------------------
  // One interaction: counts, weight and score

  /** The number of tiles a single step removes (0, 1 or 2). */
  function Removed(r: seq<Cell>, r': seq<Cell>): int
  {
    Occupied(r) - Occupied(r')
  }

  /** A step never adds a tile; when it moves something it strictly lowers the
      weight, otherwise it changes nothing; on tiers in range it keeps them in
      range and earns between 2 and 24 points per tile it removes. */
  lemma StepEffect(r: seq<Cell>, k: nat)
    requires 0 < k < |r|
    ensures var o := Interact(r[k - 1], r[k]);
      Effect(r, Pass(Step(r, k), o.gain, o.moved))
  {
    var o := Interact(r[k - 1], r[k]);
    var r1 := r[k - 1 := o.prev];
    OccupiedUpdate(r, k - 1, o.prev);
    OccupiedUpdate(r1, k, o.cur);
    WeightUpdate(r, k - 1, o.prev);
    WeightUpdate(r1, k, o.cur);
    if !o.moved {
      assert Step(r, k) == r;
    }
  }

  // ---------------------------------------------------------------------------
  // Whole-row and whole-board effects

  /** What a run of steps does: no tile is created; shifted exactly when the
      weight dropped (otherwise nothing changed at all); on tiers in range the
      score is between 2 and 24 points per removed tile. */
  ghost predicate Effect(r: seq<Cell>, p: Pass)
  {
    && Occupied(p.cells) <= Occupied(r)
    && (p.shifted ==> Weight(p.cells) < Weight(r))
    && (!p.shifted ==> p.cells == r)
    && (InRange(r) ==>
          InRange(p.cells) && 2 * Removed(r, p.cells) <= p.score <= 24 * Removed(r, p.cells))
  }

  /** Two runs of steps one after the other have the effect of one run. */
  lemma EffectThen(r: seq<Cell>, first: Pass, second: Pass)
    requires Effect(r, first) && Effect(first.cells, second)
    ensures Effect(r, Pass(second.cells, first.score + second.score, first.shifted || second.shifted))
  {
  }

  lemma {:induction false} CascadeEffect(r: seq<Cell>, x: nat)
    requires x < |r|
    ensures Effect(r, Cascade(r, x))
    decreases x
  {
    if x > 0 {
      var o := Interact(r[x - 1], r[x]);
      var first := Pass(Step(r, x), o.gain, o.moved);
      var rest := Cascade(first.cells, x - 1);
      StepEffect(r, x);
      CascadeEffect(first.cells, x - 1);
      EffectThen(r, first, rest);
    }
  }

  lemma {:induction false} SweepEffect(r: seq<Cell>, n: nat)
    requires n <= |r|
    ensures Effect(r, SweepUpTo(r, n))
    decreases n
  {
    if n > 1 {
      var p := SweepUpTo(r, n - 1);
      SweepEffect(r, n - 1);
      CascadeEffect(p.cells, n - 1);
      EffectThen(r, p, Cascade(p.cells, n - 1));
    }
  }

  /** A row sweep reports shifted exactly when some tier of the row changed. */
  lemma SweepShiftedIff(r: seq<Cell>)
    ensures SweepRow(r).shifted <==> Values(SweepRow(r).cells) != Values(r)
  {
    SweepEffect(r, |r|);
    if Values(SweepRow(r).cells) == Values(r) {
      WeightOfValues(SweepRow(r).cells, r);
    }
  }

  // ---------------------------------------------------------------------------
  // The board, row by row

  /** Row y of the partly swept board is the sweep of row y when y < n, and
      row y of the input otherwise: the pass never pairs cells of different rows. */
  lemma SweptRowsRow(s: seq<Cell>, w: nat, n: nat, y: nat)
    requires |s| == Mul(w, w) && n <= w && y < w
    ensures Row(SweptRows(s, w, n), w, y) == if y < n then SweepRow(Row(s, w, y)).cells else Row(s, w, y)
  {
    var t := SweptRows(s, w, n);
    if y < n {
      forall x | 0 <= x < w ensures Row(t, w, y)[x] == SweepRow(Row(s, w, y)).cells[x] {
        SweptRowsAt(s, w, n, x, y);
      }
    } else {
      forall x | 0 <= x < w ensures Row(t, w, y)[x] == Row(s, w, y)[x] {
        SweptRowsAt(s, w, n, x, y);
      }
    }
  }

  /** The cell at column x of row y of the partly swept board. */
  lemma SweptRowsAt(s: seq<Cell>, w: nat, n: nat, x: nat, y: nat)
    requires |s| == Mul(w, w) && n <= w && x < w && y < w
    ensures Mul(y, w) + w <= |s|
    ensures SweptRows(s, w, n)[x + Mul(y, w)] ==
            if y < n then SweepRow(Row(s, w, y)).cells[x] else s[x + Mul(y, w)]
  {
    RowBounds(w, y);
    DivModUnique(y, x, w);
  }

  /** Boards of the same shape with the same rows are equal. */
  lemma EqualByRows(a: seq<Cell>, b: seq<Cell>, w: nat)
    requires |a| == Mul(w, w) && |b| == Mul(w, w)
    requires forall y :: 0 <= y < w ==> Row(a, w, y) == Row(b, w, y)
    ensures a == b
  {
    forall k | 0 <= k < |a| ensures a[k] == b[k] {
      Coords(k, w);
      assert Row(a, w, k / w)[k % w] == Row(b, w, k / w)[k % w];
    }
  }

  /** Before the outer loop nothing is swept. */
  lemma SweptRowsNone(s: seq<Cell>, w: nat)
    requires |s| == Mul(w, w)
    ensures SweptRows(s, w, 0) == s
  {
  }

  /** Sweeping row y of a board whose rows 0 .. y-1 are swept gives the board
      whose rows 0 .. y are swept. */
  lemma SweptRowsStep(s: seq<Cell>, w: nat, n: nat)
    requires |s| == Mul(w, w) && 0 < n <= w
    ensures Splice(SweptRows(s, w, n - 1), w, n - 1, SweepRow(Row(s, w, n - 1)).cells) == SweptRows(s, w, n)
  {
    var t := SweptRows(s, w, n - 1);
    var r := SweepRow(Row(s, w, n - 1)).cells;
    forall y' | 0 <= y' < w ensures Row(Splice(t, w, n - 1, r), w, y') == Row(SweptRows(s, w, n), w, y') {
      SweptRowsStepRow(s, w, n, y');
    }
    EqualByRows(Splice(t, w, n - 1, r), SweptRows(s, w, n), w);
  }

  lemma SweptRowsStepRow(s: seq<Cell>, w: nat, n: nat, y: nat)
    requires |s| == Mul(w, w) && 0 < n <= w && y < w
    ensures var t := Splice(SweptRows(s, w, n - 1), w, n - 1, SweepRow(Row(s, w, n - 1)).cells);
      Row(t, w, y) == Row(SweptRows(s, w, n), w, y)
  {
    RowSplice(SweptRows(s, w, n - 1), w, n - 1, SweepRow(Row(s, w, n - 1)).cells, y);
    SweptRowsRow(s, w, n - 1, y);
    SweptRowsRow(s, w, n, y);
  }

  /** Boards of the same shape whose row y differs in some tier differ in some tier. */
  lemma RowValuesDiffer(s: seq<Cell>, t: seq<Cell>, w: nat, y: nat)
    requires |s| == Mul(w, w) && |t| == Mul(w, w) && y < w
    requires Values(Row(s, w, y)) != Values(Row(t, w, y))
    ensures Values(s) != Values(t)
  {
    var x :| 0 <= x < w && Row(s, w, y)[x].value != Row(t, w, y)[x].value;
    assert Values(s)[x + Mul(y, w)] != Values(t)[x + Mul(y, w)];
  }

  lemma RowInRange(s: seq<Cell>, w: nat, y: nat)
    requires |s| == Mul(w, w) && y < w && InRange(s)
    ensures InRange(Row(s, w, y))
  {
  }

  /** Tiles in rows 0 .. n-1. */
  function RowsOccupied(s: seq<Cell>, w: nat, n: nat): nat
    requires |s| == Mul(w, w) && n <= w
  {
    if n == 0 then 0 else RowsOccupied(s, w, n - 1) + Occupied(Row(s, w, n - 1))
  }

  lemma {:induction false} OccupiedByRows(s: seq<Cell>, w: nat, n: nat)
    requires |s| == Mul(w, w) && n <= w
    ensures Mul(n, w) <= |s| && Occupied(s[.. Mul(n, w)]) == RowsOccupied(s, w, n)
    decreases n
  {
    MulMono(n, w, w);
    if n == 0 {
      assert s[.. Mul(n, w)] == [];
    } else {
      OccupiedByRows(s, w, n - 1);
      OccupiedByRowsStep(s, w, n);
    }
  }

  lemma OccupiedByRowsStep(s: seq<Cell>, w: nat, n: nat)
    requires |s| == Mul(w, w) && 0 < n <= w
    requires Mul(n - 1, w) <= |s| && Occupied(s[.. Mul(n - 1, w)]) == RowsOccupied(s, w, n - 1)
    ensures Mul(n, w) <= |s| && Occupied(s[.. Mul(n, w)]) == RowsOccupied(s, w, n)
  {
    var b := Mul(n - 1, w);
    assert Mul(n, w) == b + w;
    RowBounds(w, n - 1);
    OccupiedSplit(s, b, b + w);
    assert Row(s, w, n - 1) == s[b .. b + w];
  }

  /** Row by row, a board t whose rows are the sweeps of the rows of s has no
      more tiles, and on tiers in range the points earned lie between 2 and 24
      per tile removed. */
  lemma {:induction false} RowsEffect(s: seq<Cell>, t: seq<Cell>, w: nat, n: nat)
    requires |s| == Mul(w, w) && |t| == Mul(w, w) && n <= w
    requires forall y :: 0 <= y < n ==> Row(t, w, y) == SweepRow(Row(s, w, y)).cells
    ensures RowsOccupied(t, w, n) <= RowsOccupied(s, w, n)
    ensures InRange(s) ==>
      2 * (RowsOccupied(s, w, n) - RowsOccupied(t, w, n)) <= RowsScore(s, w, n) <=
      24 * (RowsOccupied(s, w, n) - RowsOccupied(t, w, n))
    decreases n
  {
    if n > 0 {
      RowsEffect(s, t, w, n - 1);
      RowsEffectStep(s, t, w, n);
    }
  }

  lemma RowsEffectStep(s: seq<Cell>, t: seq<Cell>, w: nat, n: nat)
    requires |s| == Mul(w, w) && |t| == Mul(w, w) && 0 < n <= w
    requires Row(t, w, n - 1) == SweepRow(Row(s, w, n - 1)).cells
    requires RowsOccupied(t, w, n - 1) <= RowsOccupied(s, w, n - 1)
    requires InRange(s) ==>
      2 * (RowsOccupied(s, w, n - 1) - RowsOccupied(t, w, n - 1)) <= RowsScore(s, w, n - 1) <=
      24 * (RowsOccupied(s, w, n - 1) - RowsOccupied(t, w, n - 1))
    ensures RowsOccupied(t, w, n) <= RowsOccupied(s, w, n)
    ensures InRange(s) ==>
      2 * (RowsOccupied(s, w, n) - RowsOccupied(t, w, n)) <= RowsScore(s, w, n) <=
      24 * (RowsOccupied(s, w, n) - RowsOccupied(t, w, n))
  {
    var r := Row(s, w, n - 1);
    SweepEffect(r, |r|);
    if InRange(s) {
      RowInRange(s, w, n - 1);
    }
  }

  /** The pass is shifted exactly when some row sweep is. */
  lemma {:induction false} RowsShiftedIff(s: seq<Cell>, w: nat, n: nat)
    requires |s| == Mul(w, w) && n <= w
    ensures RowsShifted(s, w, n) <==> exists y :: 0 <= y < n && SweepRow(Row(s, w, y)).shifted
    decreases n
  {
    if n > 0 {
      RowsShiftedIff(s, w, n - 1);
    }
  }

  /** Every tier of the swept board lies in range when the input's do. */
  lemma SweptInRange(s: seq<Cell>, w: nat)
    requires |s| == Mul(w, w) && InRange(s)
    ensures InRange(SweptRows(s, w, w))
  {
    var t := SweptRows(s, w, w);
    forall k | 0 <= k < |t| ensures EMPTY <= t[k].value < MAX_SCORE {
      Coords(k, w);
      var r := Row(s, w, k / w);
      RowInRange(s, w, k / w);
      SweepEffect(r, |r|);
    }
  }

  /** Clearing merge marks changes no tier. */
  lemma ClearedValues(s: seq<Cell>)
    ensures Values(Cleared(s, false)) == Values(s)
  {
  }

  /** The swept board has no more tiles than the input, and on tiers in range
      the points earned lie between 2 and 24 per tile removed. */
  lemma SweptCounts(s: seq<Cell>, w: nat)
    requires |s| == Mul(w, w)
    ensures Occupied(SweptRows(s, w, w)) <= Occupied(s)
    ensures InRange(s) ==>
      2 * (Occupied(s) - Occupied(SweptRows(s, w, w))) <= RowsScore(s, w, w) <=
      24 * (Occupied(s) - Occupied(SweptRows(s, w, w)))
  {
    var t := SweptRows(s, w, w);
    OccupiedByRows(s, w, w);
    OccupiedByRows(t, w, w);
    assert s[.. Mul(w, w)] == s && t[.. Mul(w, w)] == t;
    forall y | 0 <= y < w ensures Row(t, w, y) == SweepRow(Row(s, w, y)).cells {
      SweptRowsRow(s, w, w, y);
    }
    RowsEffect(s, t, w, w);
  }

  /** The pass is shifted exactly when the swept board differs from the input in some tier. */
  lemma SweptShiftedIff(s: seq<Cell>, w: nat)
    requires |s| == Mul(w, w)
    ensures RowsShifted(s, w, w) <==> Values(SweptRows(s, w, w)) != Values(s)
  {
    var t := SweptRows(s, w, w);
    RowsShiftedIff(s, w, w);
    if RowsShifted(s, w, w) {
      var y :| 0 <= y < w && SweepRow(Row(s, w, y)).shifted;
      SweepShiftedIff(Row(s, w, y));
      SweptRowsRow(s, w, w, y);
      RowValuesDiffer(t, s, w, y);
    } else {
      forall y | 0 <= y < w ensures Row(t, w, y) == Row(s, w, y) {
        var r := Row(s, w, y);
        SweepEffect(r, |r|);
        SweptRowsRow(s, w, w, y);
      }
      EqualByRows(t, s, w);
    }
  }

  /** Tile.Shift never adds a tile; it reports shifted exactly when some tier
      changed; on tiers in range it keeps them in range and earns between 2 and
      24 points for each tile it removes (so a pass that removes nothing earns
      nothing, and the score never goes down). */
  lemma ShiftGridEffect(s: seq<Cell>, w: nat)
    requires |s| == Mul(w, w)
    ensures var p := ShiftGrid(s, w);
      && Occupied(p.cells) <= Occupied(s)
      && (p.shifted <==> Values(p.cells) != Values(s))
      && (InRange(s) ==>
            InRange(p.cells) && 2 * Removed(s, p.cells) <= p.score <= 24 * Removed(s, p.cells))
  {
    var t := SweptRows(s, w, w);
    ClearedValues(t);
    OccupiedOfValues(Cleared(t, false), t);
    SweptCounts(s, w);
    SweptShiftedIff(s, w);
    if InRange(s) {
      SweptInRange(s, w);
    }
  }

  /** Row y of the shifted board is the sweep of row y of the input with its
      merge marks cleared. */
  lemma ShiftGridRow(s: seq<Cell>, w: nat, y: nat)
    requires |s| == Mul(w, w) && y < w
    ensures Row(ShiftGrid(s, w).cells, w, y) == Cleared(SweepRow(Row(s, w, y)).cells, false)
  {
    SweptRowsRow(s, w, w, y);
  }

  // ---------------------------------------------------------------------------
  // Rows end left-packed

  /** Among the first n cells, none is empty before a non-empty one. */
  ghost predicate Packed(r: seq<Cell>, n: nat)
    requires n <= |r|
  {
    forall i, j :: 0 <= i < j < n && IsEmpty(r[i]) ==> IsEmpty(r[j])
  }

  /** Among the first n cells, no neighbours are mergeable. */
  ghost predicate Settled(r: seq<Cell>, n: nat)
    requires n <= |r|
  {
    forall i :: 0 < i < n ==> !Mergeable(r[i - 1], r[i])
  }

  /** A Cascade over a prefix that is packed and settled changes nothing. */
  lemma {:induction false} CascadeSettled(r: seq<Cell>, k: nat)
    requires k < |r| && Packed(r, k + 1) && Settled(r, k + 1)
    ensures Cascade(r, k) == Pass(r, 0, false)
    decreases k
  {
    if k > 0 {
      assert !(IsEmpty(r[k - 1]) && !IsEmpty(r[k]));
      assert !Mergeable(r[k - 1], r[k]);
      assert Step(r, k) == r;
      CascadeSettled(r, k - 1);
    }
  }

  /** Cascading an unmerged tile from column k into a packed, settled prefix
      whose columns k+1 .. x are empty leaves columns 0 .. x packed and settled. */
  lemma {:induction false} CascadeMoving(r: seq<Cell>, k: nat, x: nat)
    requires k <= x < |r|
    requires Packed(r, k) && Settled(r, k) && !r[k].merged
    requires forall j :: k < j <= x ==> IsEmpty(r[j])
    ensures Packed(Cascade(r, k).cells, x + 1) && Settled(Cascade(r, k).cells, x + 1)
    decreases k
  {
    if k > 0 {
      if IsEmpty(r[k - 1]) && !IsEmpty(r[k]) {
        CascadeMoving(Step(r, k), k - 1, x);
      } else {
        CascadeBlocked(r, k, x);
      }
    }
  }

  /** The case of CascadeMoving where the tile cannot slide: it merges or
      stays, and the rest of the cascade changes nothing. */
  lemma CascadeBlocked(r: seq<Cell>, k: nat, x: nat)
    requires 0 < k <= x < |r|
    requires Packed(r, k) && Settled(r, k) && !r[k].merged
    requires forall j :: k < j <= x ==> IsEmpty(r[j])
    requires !(IsEmpty(r[k - 1]) && !IsEmpty(r[k]))
    ensures Packed(Cascade(r, k).cells, x + 1) && Settled(Cascade(r, k).cells, x + 1)
  {
    var r' := Step(r, k);
    if Mergeable(r[k - 1], r[k]) {
      assert forall i :: 0 <= i < k - 1 ==> !IsEmpty(r[i]);
    } else {
      assert r' == r;
      assert !IsEmpty(r[k]) ==> forall i :: 0 <= i < k ==> !IsEmpty(r[i]);
    }
    assert Packed(r', x + 1) && Settled(r', x + 1);
    assert Packed(r', k) && Settled(r', k);
    CascadeSettled(r', k - 1);
  }

  /** With no merge marks on entry, the row is packed and settled among the
      columns the sweep has visited. */
  lemma {:induction false} SweepPacked(r: seq<Cell>, n: nat)
    requires 1 <= n <= |r| && AllUnmerged(r)
    ensures Packed(SweepUpTo(r, n).cells, n) && Settled(SweepUpTo(r, n).cells, n)
    decreases n
  {
    if n > 1 {
      var p := SweepUpTo(r, n - 1);
      SweepPacked(r, n - 1);
      assert p.cells[n - 1] == r[n - 1];
      CascadeMoving(p.cells, n - 1, n - 1);
    }
  }

  /** No row has an empty cell before a non-empty one. */
  ghost predicate RowsPacked(s: seq<Cell>, w: nat)
    requires |s| == Mul(w, w)
  {
    forall y :: 0 <= y < w ==> Packed(Row(s, w, y), w)
  }

  /** Given no merge marks on entry, Tile.Shift leaves every row left-packed. */
  lemma ShiftGridPacked(s: seq<Cell>, w: nat)
    requires |s| == Mul(w, w) && AllUnmerged(s)
    ensures RowsPacked(ShiftGrid(s, w).cells, w)
  {
    var t := ShiftGrid(s, w).cells;
    forall y | 0 <= y < w ensures Packed(Row(t, w, y), w) {
      var r := Row(s, w, y);
      ShiftGridRow(s, w, y);
      SweepPacked(r, w);
    }
  }

  // ---------------------------------------------------------------------------
  // Settled rows stay put

  /** A row that is left-packed with no two equal non-empty neighbours. */
  ghost predicate RowSettled(r: seq<Cell>)
  {
    && Packed(r, |r|)
    && forall i :: 0 < i < |r| ==> IsEmpty(r[i]) || r[i - 1].value != r[i].value
  }

  lemma {:induction false} SweepSettled(r: seq<Cell>, n: nat)
    requires n <= |r| && Packed(r, |r|) && Settled(r, |r|)
    ensures SweepUpTo(r, n) == Pass(r, 0, false)
    decreases n
  {
    if n > 1 {
      SweepSettled(r, n - 1);
      CascadeSettled(r, n - 1);
    }
  }

  lemma {:induction false} IdleRows(s: seq<Cell>, w: nat, n: nat)
    requires |s| == Mul(w, w) && n <= w
    requires forall y :: 0 <= y < w ==> SweepRow(Row(s, w, y)) == Pass(Row(s, w, y), 0, false)
    ensures RowsScore(s, w, n) == 0 && !RowsShifted(s, w, n)
    decreases n
  {
    if n > 0 {
      IdleRows(s, w, n - 1);
    }
  }

  /** On a board whose rows are all settled and unmarked, Tile.Shift reports
      no shift, no score and leaves the board as it was. */
  lemma ShiftGridSettled(s: seq<Cell>, w: nat)
    requires |s| == Mul(w, w) && AllUnmerged(s)
    requires forall y :: 0 <= y < w ==> RowSettled(Row(s, w, y))
    ensures ShiftGrid(s, w) == Pass(s, 0, false)
  {
    var t := SweptRows(s, w, w);
    forall y | 0 <= y < w ensures SweepRow(Row(s, w, y)) == Pass(Row(s, w, y), 0, false) {
      var r := Row(s, w, y);
      assert RowSettled(r);
      assert forall i :: 0 <= i < w ==> !r[i].merged;
      SweepSettled(r, |r|);
    }
    forall y | 0 <= y < w ensures Row(t, w, y) == Row(s, w, y) {
      SweptRowsRow(s, w, w, y);
    }
    EqualByRows(t, s, w);
    IdleRows(s, w, w);
    assert Cleared(s, false) == s;
  }
}
