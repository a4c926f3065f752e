/** Game.cs: a game in progress. A move turns the board so that the chosen
    direction points toward column 0, shifts, turns it back, adds the points,
    spawns a tile when something moved, and ends the game when the board
    fails the move test. */
module Games {
  import opened Grid
  import opened Rotation
  import opened Merge
  import opened Terminal
  import opened MoveInfos
  import Tile
  import Chance

  /** The four named directions of the enum, and any other value the enum
      type can hold (a cast integer), which the switch sends to its default. */
  datatype Direction = LEFT | UP | RIGHT | DOWN | Other

  /** Counter-clockwise quarter turns made before the shift. */
  function PreTurns(d: Direction): (n: nat)
    ensures n < 4
    ensures n == 0 <==> d == LEFT || d.Other?
  {
    match d
    case LEFT => 0
    case UP => 1
    case RIGHT => 2
    case DOWN => 3
    case Other => 0
  }

  /** Counter-clockwise quarter turns made after the shift: together with
      the turns before it, a whole number of full turns. */
  function PostTurns(d: Direction): (n: nat)
    ensures n < 4
    ensures (PreTurns(d) + n) % 4 == 0
  {
    match d
    case LEFT => 0
    case UP => 3
    case RIGHT => 2
    case DOWN => 1
    case Other => 0
  }

  /** The board, points and shifted flag a move in direction d produces before
      any spawn: the turned board shifted and turned back; a direction outside
      the enum changes nothing and reports nothing. */
  function Slide(s: seq<Cell>, w: nat, d: Direction): (p: Pass)
    requires Shaped(s, w)
    ensures |p.cells| == |s|
    ensures d == LEFT ==> p == ShiftGrid(s, w)
    ensures d.Other? ==> p == Pass(s, 0, false)
  {
    if d.Other? then Pass(s, 0, false)
    else
      var q := ShiftGrid(RotateN(s, w, PreTurns(d)), w);
      Pass(RotateN(q.cells, w, PostTurns(d)), q.score, q.shifted)
  }

  /** The turns before and after cancel, in either order. */
  lemma TurnsCancel(s: seq<Cell>, w: nat, d: Direction)
    requires Shaped(s, w)
    ensures RotateN(RotateN(s, w, PreTurns(d)), w, PostTurns(d)) == s
    ensures RotateN(RotateN(s, w, PostTurns(d)), w, PreTurns(d)) == s
  {
    RoundTrip(s, w, PreTurns(d), PostTurns(d));
    RoundTrip(s, w, PostTurns(d), PreTurns(d));
  }

  /** A slide in any direction adds no tile; it reports shifted exactly when
      some tier changed; it leaves no merge mark on an unmarked board; on tiers
      in range it keeps them in range and earns between 2 and 24 points per
      tile removed, so never a negative score. */
  lemma SlideEffect(s: seq<Cell>, w: nat, d: Direction)
    requires Shaped(s, w)
    ensures var p := Slide(s, w, d);
      && Occupied(p.cells) <= Occupied(s)
      && (p.shifted <==> Values(p.cells) != Values(s))
      && (AllUnmerged(s) ==> AllUnmerged(p.cells))
      && (InRange(s) ==>
            InRange(p.cells) && 2 * Removed(s, p.cells) <= p.score <= 24 * Removed(s, p.cells) && 0 <= p.score)
  {
    if !d.Other? {
      var t := RotateN(s, w, PreTurns(d));
      var q := ShiftGrid(t, w);
      var u := RotateN(q.cells, w, PostTurns(d));
      ShiftGridEffect(t, w);
      RotateNOccupied(s, w, PreTurns(d));
      RotateNOccupied(q.cells, w, PostTurns(d));
      RotateNKeeps(s, w, PreTurns(d));
      RotateNKeeps(q.cells, w, PostTurns(d));
      TurnsCancel(s, w, d);
      TurnsCancel(q.cells, w, d);
      if Values(q.cells) == Values(t) {
        RotateNValues(q.cells, t, w, PostTurns(d));
      }
      if Values(u) == Values(s) {
        RotateNValues(u, s, w, PreTurns(d));
      }
    }
  }

  /** What a move needs to keep the game valid: tiers stay in range, no merge
      mark survives and the points are not negative. */
  lemma SlideKeeps(s: seq<Cell>, w: nat, d: Direction)
    requires Shaped(s, w) && InRange(s) && AllUnmerged(s)
    ensures var p := Slide(s, w, d);
      InRange(p.cells) && AllUnmerged(p.cells) && 0 <= p.score
  {
    SlideEffect(s, w, d);
  }

  /** On an unmarked board that fails the move test, a slide in any direction
      changes nothing, earns nothing and reports no shift: ending the game
      there loses no playable move. */
  lemma StuckSlide(s: seq<Cell>, w: nat, d: Direction)
    requires Shaped(s, w) && AllUnmerged(s) && !CanMove(s, w)
    ensures Slide(s, w, d) == Pass(s, 0, false)
  {
    if !d.Other? {
      var t := RotateN(s, w, PreTurns(d));
      StuckTurned(s, w, PreTurns(d));
      RotateNKeeps(s, w, PreTurns(d));
      StuckShiftIdle(t, w);
      TurnsCancel(s, w, d);
    }
  }

  /** A board that fails the move test is full, and no direction changes it. */
  lemma GameOver(s: seq<Cell>, w: nat)
    requires Shaped(s, w) && AllUnmerged(s) && !CanMove(s, w)
    ensures !HasEmpty(s)
    ensures forall d :: Slide(s, w, d) == Pass(s, 0, false)
  {
    CanMoveIff(s, w);
    forall d ensures Slide(s, w, d) == Pass(s, 0, false) {
      StuckSlide(s, w, d);
    }
  }

  /** Every tier on the board is EMPTY, 0 or 1: what a freshly reset board holds. */
  ghost predicate Opening(s: seq<Cell>)
  {
    forall i :: 0 <= i < |s| ==> EMPTY <= s[i].value <= 1
  }

  /** A game: the board, a width*width array in row-major order, the score
      and whether the game is still running. */
  class Game {
    const width: nat
    const tiles: array<Cell>
    var score: int
    var running: bool

    /** The board has its allocated shape, tiers play can reach, and no merge
        mark outside a move. */
    ghost predicate Valid()
      reads this, tiles
    {
      && Shaped(tiles[..], width)
      && InRange(tiles[..])
      && AllUnmerged(tiles[..])
    }

    /** A new game on a width-by-width board: every slot blank, then reset. */
    constructor(width: nat)
      requires width > 0
      ensures this.width == width && fresh(tiles)
      ensures Valid() && running && score == 0
      ensures 1 <= Occupied(tiles[..]) <= 2 && Opening(tiles[..])
    {
      this.width := width;
      MulIsProduct(width, width);
      tiles := new Cell[width * width];
      new;
      Setup();
      Reset();
    }

    /** Fill every slot with a blank tile. */
    method Setup()
      modifies tiles
      ensures forall i :: 0 <= i < tiles.Length ==> tiles[i] == BLANK
    {
      var i := 0;
      while i < tiles.Length
        invariant 0 <= i <= tiles.Length
        invariant forall k :: 0 <= k < i ==> tiles[k] == BLANK
      {
        tiles[i] := BLANK;
        i := i + 1;
      }
    }

    /** Start over: running again, board emptied, score zero, one tile spawned
        and, on an even draw of chance, a second one (if there is room). */
    method Reset()
      requires Shaped(tiles[..], width)
      modifies this, tiles
      ensures Valid() && running && score == 0
      ensures 1 <= Occupied(tiles[..]) <= 2 && Opening(tiles[..])
    {
      running := true;
      Tile.Clear(tiles, true);
      ghost var s0 := tiles[..];
      OccupiedNone(s0);
      assert IsEmpty(s0[0]);
      score := 0;
      Tile.AddTile(tiles);
      ghost var s1 := tiles[..];
      Tile.SpawnedCount(s0, s1);
      var draw := Chance.Next(2);
      if draw == 1 {
        Tile.AddTile(tiles);
        Tile.SpawnedCount(s1, tiles[..]);
        if |s1| == 1 {
          assert !IsEmpty(s1[0]);
        }
      }
    }

    /** One move. A finished game ignores it. Otherwise the board slides in
        direction d, the points are added, a tile spawns when something
        moved, and the game keeps running exactly when the new board passes
        the move test. */
    method Move(d: Direction)
      requires Valid()
      modifies this, tiles
      ensures Valid() && score >= old(score)
      ensures !old(running) ==> !running && score == old(score) && tiles[..] == old(tiles[..])
      ensures old(running) ==>
        var p := Slide(old(tiles[..]), width, d);
        && score == old(score) + p.score
        && (p.shifted ==> Tile.Spawned(p.cells, tiles[..]))
        && (!p.shifted ==> tiles[..] == p.cells)
        && running == CanMove(tiles[..], width)
      ensures old(running) && HasEmpty(tiles[..]) ==> running
      ensures old(running) && !running ==>
        forall d' :: Slide(tiles[..], width, d') == Pass(tiles[..], 0, false)
    {
      if !running {
        return;
      }
      ghost var s := tiles[..];
      var info := Turn(d);
      SlideKeeps(s, width, d);
      score := score + info.score;
      if info.shifted {
        Tile.AddTile(tiles);
        Tile.SpawnedCount(Slide(s, width, d).cells, tiles[..]);
      }
      var canMove := Tile.HasMove(tiles, width);
      if !canMove {
        running := false;
        GameOver(tiles[..], width);
      }
    }

    /** The switch of Move: turn, shift and turn back for a named direction;
        a fresh, empty report for any other value. */
    method Turn(d: Direction) returns (info: MoveInfo)
      requires Shaped(tiles[..], width)
      modifies tiles
      ensures tiles[..] == Slide(old(tiles[..]), width, d).cells
      ensures info.score == Slide(old(tiles[..]), width, d).score
      ensures info.shifted == Slide(old(tiles[..]), width, d).shifted
    {
      ghost var s := tiles[..];
      match d
      case LEFT =>
        info := Tile.Shift(tiles, width);
        Tile.ShiftRowsAtGrid(s, width);
      case UP =>
        Tile.Rotate(tiles, 1, width);
        ghost var t := tiles[..];
        info := Tile.Shift(tiles, width);
        Tile.ShiftRowsAtGrid(t, width);
        Tile.Rotate(tiles, 3, width);
      case RIGHT =>
        Tile.Rotate(tiles, 2, width);
        ghost var t := tiles[..];
        info := Tile.Shift(tiles, width);
        Tile.ShiftRowsAtGrid(t, width);
        Tile.Rotate(tiles, 2, width);
      case DOWN =>
        Tile.Rotate(tiles, 3, width);
        ghost var t := tiles[..];
        info := Tile.Shift(tiles, width);
        Tile.ShiftRowsAtGrid(t, width);
        Tile.Rotate(tiles, 1, width);
      case Other =>
        info := new MoveInfo();
    }
  }
}
