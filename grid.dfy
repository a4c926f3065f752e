/** The board of the game: a flat, row-major sequence of width*width cells,
    with the index arithmetic, row views and counts the other modules share. */
module Grid {

  /** Value of a cell that holds no tile. */
  const EMPTY: int := -1

  /** A merge that would reach this tier clears the tile instead. */
  const MAX_SCORE: int := 12

  /** One slot of the board: its tier (EMPTY when there is no tile) and
      whether it already took part in a merge during the current pass. */
  datatype Cell = Cell(value: int, merged: bool)

  /** The cell a freshly constructed tile starts as. */
  const BLANK: Cell := Cell(EMPTY, false)

  predicate IsEmpty(c: Cell) { c.value == EMPTY }

  /** The board has the shape the game allocates: width*width cells. */
  predicate Shaped(s: seq<Cell>, w: nat) { w > 0 && |s| == Mul(w, w) }

  /** Every tier lies in the range play can produce (EMPTY up to MAX_SCORE - 1). */
  predicate InRange(s: seq<Cell>) {
    forall i :: 0 <= i < |s| ==> EMPTY <= s[i].value < MAX_SCORE
  }

  /** No cell carries a merge mark. */
  predicate AllUnmerged(s: seq<Cell>) {
    forall i :: 0 <= i < |s| ==> !s[i].merged
  }

  // ---------------------------------------------------------------------------
  // Index arithmetic

  /** a*b, defined by recursion so that offsets such as y*w stay opaque to the
      solver's non-linear arithmetic; MulIsProduct ties it to `*`. */
  function Mul(a: nat, b: nat): nat
  {
    if a == 0 then 0 else Mul(a - 1, b) + b
  }

  lemma {:induction false} MulIsProduct(a: nat, b: nat)
    ensures Mul(a, b) == a * b
  {
    if a > 0 {
      MulIsProduct(a - 1, b);
    }
  }

  lemma {:induction false} MulMono(a: nat, a': nat, b: nat)
    requires a <= a'
    ensures Mul(a, b) <= Mul(a', b)
    decreases a' - a
  {
    if a < a' {
      MulMono(a, a' - 1, b);
    }
  }

  lemma ProductMono(a: int, b: int, c: int)
    requires 0 <= a <= b && 0 <= c
    ensures a * c <= b * c
  {
  }

  /** Euclidean division recovers the quotient and remainder it is given. */
  lemma DivModUnique(q: nat, r: nat, w: nat)
    requires w > 0 && r < w
    ensures (Mul(q, w) + r) / w == q && (Mul(q, w) + r) % w == r
  {
    MulIsProduct(q, w);
    DivModProduct(q, r, w);
  }

  lemma DivModProduct(q: int, r: int, w: int)
    requires w > 0 && 0 <= r < w && 0 <= q
    ensures (q * w + r) / w == q && (q * w + r) % w == r
  {
    var k := q * w + r;
    var q', r' := k / w, k % w;
    assert k == q' * w + r';
    if q' < q {
      ProductMono(q' + 1, q, w);
      assert false;
    } else if q' > q {
      ProductMono(q + 1, q', w);
      assert false;
    }
  }

  /** Row y of a width-w board starts at y*w and ends within the board. */
  lemma RowBounds(w: nat, y: nat)
    requires y < w
    ensures Mul(y, w) + w <= Mul(w, w)
  {
    MulMono(y + 1, w, w);
  }

  /** The slot of column x in row y. */
  function Index(x: nat, y: nat, w: nat): (k: nat)
    requires x < w && y < w
    ensures k < Mul(w, w) && Mul(y, w) + w <= Mul(w, w)
  {
    RowBounds(w, y);
    x + Mul(y, w)
  }

  /** The column and the row of a slot are its remainder and quotient by the width. */
  lemma IndexCoords(x: nat, y: nat, w: nat)
    requires x < w && y < w
    ensures Index(x, y, w) % w == x && Index(x, y, w) / w == y
  {
    DivModUnique(y, x, w);
  }

  /** Every slot of the board has a column and a row below the width. */
  lemma Coords(k: nat, w: nat)
    requires w > 0 && k < Mul(w, w)
    ensures k / w < w && k % w < w && k == k % w + Mul(k / w, w)
  {
    MulIsProduct(k / w, w);
    MulIsProduct(w, w);
    CoordsProduct(k, w);
  }

  lemma CoordsProduct(k: int, w: int)
    requires w > 0 && 0 <= k < w * w
    ensures k / w < w
  {
    if k / w >= w {
      ProductMono(w, k / w, w);
      assert false;
    }
  }

  // ---------------------------------------------------------------------------
  // Rows as slices of the flat board

  /** Row y of the board, as a sequence of w cells. */
  function Row(s: seq<Cell>, w: nat, y: nat): (r: seq<Cell>)
    requires |s| == Mul(w, w) && y < w
    ensures Mul(y, w) + w <= |s|
    ensures |r| == w
  {
    RowBounds(w, y);
    s[Mul(y, w) .. Mul(y, w) + w]
  }

  /** The board with row y replaced by r. */
  function Splice(s: seq<Cell>, w: nat, y: nat, r: seq<Cell>): (t: seq<Cell>)
    requires |s| == Mul(w, w) && y < w && |r| == w
    ensures Mul(y, w) + w <= |s|
    ensures |t| == |s|
  {
    RowBounds(w, y);
    s[.. Mul(y, w)] + r + s[Mul(y, w) + w ..]
  }

  /** Distinct rows occupy disjoint slices of the board. */
  lemma RowsApart(w: nat, y: nat, y': nat)
    requires y < w && y' < w && y != y'
    ensures Mul(y', w) + w <= Mul(y, w) || Mul(y, w) + w <= Mul(y', w)
  {
    if y' < y {
      MulMono(y' + 1, y, w);
    } else {
      MulMono(y + 1, y', w);
    }
  }

  /** Reading a row back from a board with row y replaced. */
  lemma RowSplice(s: seq<Cell>, w: nat, y: nat, r: seq<Cell>, y': nat)
    requires |s| == Mul(w, w) && y < w && |r| == w && y' < w
    ensures Row(Splice(s, w, y, r), w, y') == if y' == y then r else Row(s, w, y')
  {
    var t := Splice(s, w, y, r);
    if y' != y {
      RowsApart(w, y, y');
      forall x | 0 <= x < w ensures Row(t, w, y')[x] == Row(s, w, y')[x] {
        assert !(Mul(y, w) <= x + Mul(y', w) < Mul(y, w) + w);
      }
    }
  }

  /** Putting a row back where it came from changes nothing. */
  lemma SpliceRow(s: seq<Cell>, w: nat, y: nat)
    requires |s| == Mul(w, w) && y < w
    ensures Splice(s, w, y, Row(s, w, y)) == s
  {
    var t := Splice(s, w, y, Row(s, w, y));
    forall i | 0 <= i < |s| ensures t[i] == s[i] {
      if Mul(y, w) <= i < Mul(y, w) + w {
        assert t[(i - Mul(y, w)) + Mul(y, w)] == Row(s, w, y)[i - Mul(y, w)];
      }
    }
  }

  /** Replacing row y twice keeps only the second replacement. */
  lemma SpliceTwice(s: seq<Cell>, w: nat, y: nat, a: seq<Cell>, b: seq<Cell>)
    requires |s| == Mul(w, w) && y < w && |a| == w && |b| == w
    ensures Splice(Splice(s, w, y, a), w, y, b) == Splice(s, w, y, b)
  {
  }

  // ---------------------------------------------------------------------------
  // Values and counts

  /** The tiers of a sequence of cells, merge marks dropped. */
  function Values(s: seq<Cell>): (vs: seq<int>)
    ensures |vs| == |s| && forall i :: 0 <= i < |s| ==> vs[i] == s[i].value
  {
    seq(|s|, i requires 0 <= i < |s| => s[i].value)
  }

  /** Number of non-empty cells. */
  function Occupied(s: seq<Cell>): nat
  {
    if s == [] then 0 else Occupied(s[.. |s| - 1]) + (if s[|s| - 1].value != EMPTY then 1 else 0)
  }

  /** The sum, over non-empty cells, of their position plus one: a measure
      that every slide toward index 0 and every merge strictly lowers. */
  function Weight(s: seq<Cell>): nat
  {
    if s == [] then 0 else Weight(s[.. |s| - 1]) + (if s[|s| - 1].value != EMPTY then |s| else 0)
  }

  /** The weight depends on the tiers only. */
  lemma {:induction false} WeightOfValues(a: seq<Cell>, b: seq<Cell>)
    requires Values(a) == Values(b)
    ensures Weight(a) == Weight(b)
    decreases |a|
  {
    if a != [] {
      var n := |a| - 1;
      assert Values(a[.. n]) == Values(b[.. n]) by {
        forall i | 0 <= i < n ensures a[.. n][i].value == b[.. n][i].value {
          assert Values(a)[i] == Values(b)[i];
        }
      }
      assert Values(a)[n] == Values(b)[n];
      WeightOfValues(a[.. n], b[.. n]);
    }
  }

  /** The tile count depends on the tiers only. */
  lemma {:induction false} OccupiedOfValues(a: seq<Cell>, b: seq<Cell>)
    requires Values(a) == Values(b)
    ensures Occupied(a) == Occupied(b)
    decreases |a|
  {
    if a != [] {
      var n := |a| - 1;
      assert Values(a[.. n]) == Values(b[.. n]) by {
        forall i | 0 <= i < n ensures a[.. n][i].value == b[.. n][i].value {
          assert Values(a)[i] == Values(b)[i];
        }
      }
      assert Values(a)[n] == Values(b)[n];
      OccupiedOfValues(a[.. n], b[.. n]);
    }
  }

  lemma {:induction false} OccupiedAppend(a: seq<Cell>, b: seq<Cell>)
    ensures Occupied(a + b) == Occupied(a) + Occupied(b)
    decreases |b|
  {
    if b == [] {
      assert a + b == a;
    } else {
      assert (a + b)[.. |a + b| - 1] == a + b[.. |b| - 1];
      OccupiedAppend(a, b[.. |b| - 1]);
    }
  }

  /** Tiles of a prefix, counted in two parts. */
  lemma OccupiedSplit(s: seq<Cell>, b: nat, e: nat)
    requires b <= e <= |s|
    ensures Occupied(s[.. e]) == Occupied(s[.. b]) + Occupied(s[b .. e])
  {
    assert s[.. e] == s[.. b] + s[b .. e];
    OccupiedAppend(s[.. b], s[b .. e]);
  }

  lemma {:induction false} OccupiedUpdate(s: seq<Cell>, i: nat, c: Cell)
    requires i < |s|
    ensures Occupied(s[i := c]) ==
            Occupied(s) - (if s[i].value != EMPTY then 1 else 0) + (if c.value != EMPTY then 1 else 0)
    decreases |s|
  {
    var n := |s|;
    if i == n - 1 {
      assert s[i := c][.. n - 1] == s[.. n - 1];
    } else {
      assert s[i := c][.. n - 1] == s[.. n - 1][i := c];
      OccupiedUpdate(s[.. n - 1], i, c);
    }
  }

  lemma {:induction false} WeightUpdate(s: seq<Cell>, i: nat, c: Cell)
    requires i < |s|
    ensures Weight(s[i := c]) ==
            Weight(s) - (if s[i].value != EMPTY then i + 1 else 0) + (if c.value != EMPTY then i + 1 else 0)
    decreases |s|
  {
    var n := |s|;
    if i == n - 1 {
      assert s[i := c][.. n - 1] == s[.. n - 1];
    } else {
      assert s[i := c][.. n - 1] == s[.. n - 1][i := c];
      WeightUpdate(s[.. n - 1], i, c);
    }
  }

  /** The tile count is the number of cells minus the empty cells of either mark. */
  lemma {:induction false} OccupiedCount(s: seq<Cell>)
    ensures Occupied(s) == |s| - multiset(s)[Cell(EMPTY, false)] - multiset(s)[Cell(EMPTY, true)]
    decreases |s|
  {
    if s != [] {
      var n := |s| - 1;
      assert s == s[.. n] + [s[n]];
      OccupiedCount(s[.. n]);
    }
  }

  /** Boards holding the same cells, in any order, hold the same number of tiles. */
  lemma OccupiedOfMultiset(a: seq<Cell>, b: seq<Cell>)
    requires multiset(a) == multiset(b)
    ensures Occupied(a) == Occupied(b)
  {
    OccupiedCount(a);
    OccupiedCount(b);
    assert |a| == |multiset(a)| == |multiset(b)| == |b|;
  }

  /** A board with no tile counts none. */
  lemma {:induction false} OccupiedNone(s: seq<Cell>)
    requires forall i :: 0 <= i < |s| ==> IsEmpty(s[i])
    ensures Occupied(s) == 0
    decreases |s|
  {
    if s != [] {
      OccupiedNone(s[.. |s| - 1]);
    }
  }

  /** The board with every merge mark cleared and, when `all` holds, every tile removed. */
  function Cleared(s: seq<Cell>, all: bool): (t: seq<Cell>)
    ensures |t| == |s| && AllUnmerged(t)
    ensures forall i :: 0 <= i < |s| ==> t[i].value == (if all then EMPTY else s[i].value)
  {
    seq(|s|, i requires 0 <= i < |s| => Cell(if all then EMPTY else s[i].value, false))
  }
}
