/** Quarter turns of the board, as index permutations of the flat row-major
    sequence, and the facts the game relies on: four turns are the identity,
    turn counts add up, and no tile is created or lost. */
module Rotation {
  import opened Grid

  /** The slot whose tile one counter-clockwise quarter turn moves into slot k. */
  function RotSrc(k: nat, w: nat): (j: nat)
    requires w > 0 && k < Mul(w, w)
    ensures j < Mul(w, w)
  {
    Coords(k, w);
    Index(w - 1 - k / w, k % w, w)
  }

  /** The board after one counter-clockwise quarter turn (RotatedMoves says
      where each tile goes). */
  function RotatedOnce(s: seq<Cell>, w: nat): (t: seq<Cell>)
    requires Shaped(s, w)
    ensures |t| == |s|
  {
    seq(|s|, k requires 0 <= k < |s| => s[RotSrc(k, w)])
  }

  /** A quarter turn moves the tile at column x of row y to column y of row w-1-x. */
  lemma RotatedMoves(s: seq<Cell>, w: nat, x: nat, y: nat)
    requires Shaped(s, w) && x < w && y < w
    ensures RotatedOnce(s, w)[Index(y, w - 1 - x, w)] == s[Index(x, y, w)]
  {
    IndexCoords(y, w - 1 - x, w);
  }

  /** The amount-fold quarter turn; a non-positive amount turns nothing. */
  function RotateN(s: seq<Cell>, w: nat, amount: int): (t: seq<Cell>)
    requires Shaped(s, w)
    ensures |t| == |s|
    decreases amount
  {
    if amount <= 0 then s else RotatedOnce(RotateN(s, w, amount - 1), w)
  }

  /** Read backwards: the tile that lands in column x of row y came from
      column w-1-y of row x. */
  lemma RotatedFrom(s: seq<Cell>, w: nat, x: nat, y: nat)
    requires Shaped(s, w) && x < w && y < w
    ensures RotatedOnce(s, w)[Index(x, y, w)] == s[Index(w - 1 - y, x, w)]
  {
    RotatedMoves(s, w, w - 1 - y, x);
  }

  /** Every slot is Index of its own column and row. */
  lemma IndexOfCoords(k: nat, w: nat)
    requires w > 0 && k < Mul(w, w)
    ensures k % w < w && k / w < w && Index(k % w, k / w, w) == k
  {
    Coords(k, w);
  }

  /** Two sequences of board shape that agree at every (column, row) are equal. */
  lemma EqualByCoords(s: seq<Cell>, t: seq<Cell>, w: nat)
    requires Shaped(s, w) && Shaped(t, w)
    requires forall x, y :: 0 <= x < w && 0 <= y < w ==> s[Index(x, y, w)] == t[Index(x, y, w)]
    ensures s == t
  {
    forall k | 0 <= k < |s| ensures s[k] == t[k] {
      IndexOfCoords(k, w);
    }
  }

  /** Four turns unfold to four single quarter turns. */
  lemma FourTurnsUnfold(s: seq<Cell>, w: nat)
    requires Shaped(s, w)
    ensures RotateN(s, w, 4) == RotatedOnce(RotatedOnce(RotatedOnce(RotatedOnce(s, w), w), w), w)
  {
    assert RotateN(s, w, 1) == RotatedOnce(s, w) by { assert RotateN(s, w, 0) == s; }
  }

  /** Two single turns send the tile at column x of row y to column w-1-x of row w-1-y. */
  lemma TwoTurnsAt(s: seq<Cell>, w: nat, x: nat, y: nat)
    requires Shaped(s, w) && x < w && y < w
    ensures RotatedOnce(RotatedOnce(s, w), w)[Index(x, y, w)] == s[Index(w - 1 - x, w - 1 - y, w)]
  {
    RotatedFrom(RotatedOnce(s, w), w, x, y);
    RotatedFrom(s, w, w - 1 - y, x);
  }

  /** Read backwards: two single turns bring the tile at column w-1-x of row
      w-1-y to column x of row y. */
  lemma TwoTurnsFrom(s: seq<Cell>, w: nat, x: nat, y: nat)
    requires Shaped(s, w) && x < w && y < w
    ensures RotatedOnce(RotatedOnce(s, w), w)[Index(w - 1 - x, w - 1 - y, w)] == s[Index(x, y, w)]
  {
    TwoTurnsAt(s, w, w - 1 - x, w - 1 - y);
  }

  /** The tile at column x of row y comes back there after four single turns. */
  lemma FourTurnsAt(s: seq<Cell>, w: nat, x: nat, y: nat)
    requires Shaped(s, w) && x < w && y < w
    ensures RotatedOnce(RotatedOnce(RotatedOnce(RotatedOnce(s, w), w), w), w)[Index(x, y, w)] == s[Index(x, y, w)]
  {
    var t2 := RotatedOnce(RotatedOnce(s, w), w);
    TwoTurnsAt(t2, w, x, y);
    TwoTurnsFrom(s, w, x, y);
  }

  /** Four quarter turns restore every tile to its slot. */
  lemma FourTurnsIdentity(s: seq<Cell>, w: nat)
    requires Shaped(s, w)
    ensures RotateN(s, w, 4) == s
  {
    var t4 := RotatedOnce(RotatedOnce(RotatedOnce(RotatedOnce(s, w), w), w), w);
    forall x, y | 0 <= x < w && 0 <= y < w
      ensures t4[Index(x, y, w)] == s[Index(x, y, w)]
    {
      FourTurnsAt(s, w, x, y);
    }
    EqualByCoords(t4, s, w);
    FourTurnsUnfold(s, w);
  }

  /** Turning a times and then b times is turning a+b times. */
  lemma {:induction false} RotateAdd(s: seq<Cell>, w: nat, a: nat, b: nat)
    requires Shaped(s, w)
    ensures RotateN(RotateN(s, w, a), w, b) == RotateN(s, w, a + b)
    decreases b
  {
    if b > 0 {
      RotateAdd(s, w, a, b - 1);
    }
  }

  /** Pre- and post-turn counts that total 0 or 4 leave every tile where it was. */
  lemma RoundTrip(s: seq<Cell>, w: nat, pre: nat, post: nat)
    requires Shaped(s, w) && (pre + post == 0 || pre + post == 4)
    ensures RotateN(RotateN(s, w, pre), w, post) == s
  {
    RotateAdd(s, w, pre, post);
    if pre + post == 4 {
      FourTurnsIdentity(s, w);
    }
  }

  /** Only the amount modulo 4 matters: a non-negative amount turns the board
      as its remainder by 4 does. */
  lemma {:induction false} RotateMod4(s: seq<Cell>, w: nat, a: nat)
    requires Shaped(s, w)
    ensures RotateN(s, w, a) == RotateN(s, w, a % 4)
    decreases a
  {
    if a >= 4 {
      assert (a - 4) % 4 == a % 4;
      RotateAdd(s, w, 4, a - 4);
      FourTurnsIdentity(s, w);
      RotateMod4(s, w, a - 4);
    } else {
      assert a % 4 == a;
    }
  }

  // ---------------------------------------------------------------------------
  // No tile is created or dropped

  lemma {:induction false} CountIsIndexSet(s: seq<Cell>, v: Cell)
    ensures multiset(s)[v] == |set i | 0 <= i < |s| && s[i] == v|
    decreases |s|
  {
    if s != [] {
      var n := |s| - 1;
      CountIsIndexSet(s[.. n], v);
      assert s == s[.. n] + [s[n]];
      var a := set i | 0 <= i < n && s[.. n][i] == v;
      var b := set i | 0 <= i < |s| && s[i] == v;
      if s[n] == v {
        assert b == a + {n};
      } else {
        assert b == a;
      }
    }
  }

  lemma {:induction false} InjectiveImage(S: set<nat>, f: nat -> nat)
    requires forall i, j :: i in S && j in S && f(i) == f(j) ==> i == j
    ensures |set i | i in S :: f(i)| == |S|
    decreases S
  {
    if S != {} {
      var x :| x in S;
      InjectiveImage(S - {x}, f);
      assert (set i | i in S :: f(i)) == (set i | i in S - {x} :: f(i)) + {f(x)};
      assert f(x) !in (set i | i in S - {x} :: f(i));
    }
  }

  lemma SubsetSize(x: set<nat>, a: set<nat>)
    requires x <= a
    ensures |x| <= |a|
  {
    assert a == x + (a - x);
  }

  lemma SubMultisetSameSize(m: multiset<Cell>, n: multiset<Cell>)
    requires forall v :: m[v] <= n[v]
    requires |m| == |n|
    ensures m == n
  {
    assert m <= n;
    var d := n - m;
    assert n == m + d;
    assert |d| == 0;
  }

  /** A sequence that reads another through an injective index map holds the same tiles. */
  lemma PermutedByMap(a: seq<Cell>, b: seq<Cell>, f: nat -> nat)
    requires |a| == |b|
    requires forall i :: 0 <= i < |b| ==> f(i) < |a| && b[i] == a[f(i)]
    requires forall i, j :: 0 <= i < |b| && 0 <= j < |b| && f(i) == f(j) ==> i == j
    ensures multiset(b) == multiset(a)
  {
    forall v ensures multiset(b)[v] <= multiset(a)[v] {
      var B := set i | 0 <= i < |b| && b[i] == v;
      var A := set i | 0 <= i < |a| && a[i] == v;
      CountIsIndexSet(b, v);
      CountIsIndexSet(a, v);
      InjectiveImage(B, f);
      var image := set i | i in B :: f(i);
      assert image <= A;
      SubsetSize(image, A);
    }
    SubMultisetSameSize(multiset(b), multiset(a));
  }

  /** Distinct slots receive their tiles from distinct slots. */
  lemma RotSrcInjective(i: nat, j: nat, w: nat)
    requires w > 0 && i < Mul(w, w) && j < Mul(w, w) && RotSrc(i, w) == RotSrc(j, w)
    ensures i == j
  {
    Coords(i, w);
    Coords(j, w);
    IndexCoords(w - 1 - i / w, i % w, w);
    IndexCoords(w - 1 - j / w, j % w, w);
  }

  /** A quarter turn is a permutation of the tiles. */
  lemma RotatedOncePermutes(s: seq<Cell>, w: nat)
    requires Shaped(s, w)
    ensures multiset(RotatedOnce(s, w)) == multiset(s)
  {
    var f := (k: nat) => if k < Mul(w, w) then RotSrc(k, w) else 0;
    var t := RotatedOnce(s, w);
    forall i | 0 <= i < |t| ensures f(i) < |s| && t[i] == s[f(i)] {
    }
    forall i, j | 0 <= i < |t| && 0 <= j < |t| && f(i) == f(j) ensures i == j {
      RotSrcInjective(i, j, w);
    }
    PermutedByMap(s, t, f);
  }

  /** Any number of quarter turns is a permutation of the tiles. */
  lemma {:induction false} RotateNPermutes(s: seq<Cell>, w: nat, amount: int)
    requires Shaped(s, w)
    ensures multiset(RotateN(s, w, amount)) == multiset(s)
    decreases amount
  {
    if amount > 0 {
      var t := RotateN(s, w, amount - 1);
      RotateNPermutes(s, w, amount - 1);
      RotatedOncePermutes(t, w);
      assert RotateN(s, w, amount) == RotatedOnce(t, w);
    }
  }

  /** Turning keeps the number of tiles. */
  lemma RotateNOccupied(s: seq<Cell>, w: nat, amount: int)
    requires Shaped(s, w)
    ensures Occupied(RotateN(s, w, amount)) == Occupied(s)
  {
    RotateNPermutes(s, w, amount);
    OccupiedOfMultiset(RotateN(s, w, amount), s);
  }

  /** A quarter turn of two boards with the same tiers gives boards with the same tiers. */
  lemma RotatedOnceValues(a: seq<Cell>, b: seq<Cell>, w: nat)
    requires Shaped(a, w) && Shaped(b, w) && Values(a) == Values(b)
    ensures Values(RotatedOnce(a, w)) == Values(RotatedOnce(b, w))
  {
    var ta, tb := RotatedOnce(a, w), RotatedOnce(b, w);
    forall k | 0 <= k < |ta| ensures ta[k].value == tb[k].value {
      assert Values(a)[RotSrc(k, w)] == Values(b)[RotSrc(k, w)];
    }
  }

  /** Any number of turns of two boards with the same tiers gives boards with the same tiers. */
  lemma {:induction false} RotateNValues(a: seq<Cell>, b: seq<Cell>, w: nat, amount: int)
    requires Shaped(a, w) && Shaped(b, w) && Values(a) == Values(b)
    ensures Values(RotateN(a, w, amount)) == Values(RotateN(b, w, amount))
    decreases amount
  {
    if amount > 0 {
      RotateNValues(a, b, w, amount - 1);
      RotatedOnceValues(RotateN(a, w, amount - 1), RotateN(b, w, amount - 1), w);
    }
  }

  /** Turning keeps every per-tile invariant of the board. */
  lemma RotateNKeeps(s: seq<Cell>, w: nat, amount: int)
    requires Shaped(s, w)
    ensures InRange(s) ==> InRange(RotateN(s, w, amount))
    ensures AllUnmerged(s) ==> AllUnmerged(RotateN(s, w, amount))
  {
    var t := RotateN(s, w, amount);
    RotateNPermutes(s, w, amount);
    forall i | 0 <= i < |t| ensures t[i] in s {
      assert t[i] in multiset(t);
    }
  }
}
