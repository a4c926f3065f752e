# mergeblox rule engine in Dafny

This project models the rule engine of mergeblox, a 2048-style sliding-merge
puzzle, and proves properties of that model. The engine lives in three C#
files:

- Tile.cs: the operations on the board.
- Game.cs: the game state and a move.
- MoveInfo.cs: the report a shift produces.

The board is a `width × width` grid stored as one flat array in row-major
order. The cell at column `x` of row `y` lives at index `x + y*width`. Each
cell holds a tier, where -1 means empty, and a merge-once mark.

A move in a direction works in four steps:

1. Turn the board counter-clockwise so that the direction points at column 0.
2. Shift every row toward column 0, sliding tiles into gaps and merging equal
   neighbours.
3. Turn the board back.
4. Add the points, spawn a tier-0 or tier-1 tile if anything moved, and end
   the game if no slot passes the move test.

A merge that would reach tier 12 clears the tile and earns 24 points.

## Modules

| file | module | role |
|---|---|---|
| `grid.dfy` | `Grid` | cells, the constants -1 and 12, index arithmetic, row slices, tile counts, clearing |
| `rotation.dfy` | `Rotation` | the quarter turn as an index map; turn counts add up; four turns restore the board; a turn is a permutation |
| `merge.dfy` | `Merge` | the interaction rule (`Interact`, `Step`), `Tile.Move`'s cascade (`Cascade`), a row's sweep (`SweepUpTo`/`SweepRow`) and the whole pass (`ShiftGrid`), with the pass properties |
| `terminal.dfy` | `Terminal` | `HasMove`'s test as a predicate; its characterisation by empty slots and equal neighbours; why a failing board cannot move |
| `tile.dfy` | `Tile` | the Tile.cs methods on `array<Cell>`, each proved against the functions above |
| `moveinfo.dfy` | `MoveInfos` | the `MoveInfo` class |
| `chance.dfy` | `Chance` | the random draws |
| `game.dfy` | `Games` | `Direction`, `Slide` (a move before the spawn) and the `Game` class |
| `worked.dfy` | `Worked` | concrete rows and boards |

### How the code is modelled

- The C# `Tile` objects are modelled as values: the datatype `Cell(value, merged)`. Each object occupies exactly one slot and is never shared, so moving a reference is the same as moving its value.
- `RotateTile`, `Clear`, `HasMove`, `Shift`, `AddTile`, `Setup`, `Reset` and `Game.Move` keep their loops, or the single write in the case of `RotateTile`'s copy back. Each is proved to produce what a specification function of the old state describes.
- `Tile.Move` stays recursive, as in the source. It is proved against `MoveAt`, and `MoveAtRow` shows that `MoveAt` is the row-level `Cascade` spliced back into the board.
- The per-slot test inside `HasMove`'s scan is its own method, `Tile.LocalTest`. It reads the same neighbours through `At`, in the same order.
- `Shift`'s inner loop is its own method, `Tile.ShiftRow`. Its outer loop is tied to `ShiftGrid` by `ShiftRowsAtGrid`.
- The `switch` of `Game.Move` is its own method, `Games.Game.Turn`. It has the same five branches, including `default`.
- `Direction` adds a constructor `Other` for any value of the C# enum type outside the four names, such as an integer cast to `Direction`. The `default` branch gives it a fresh, empty `MoveInfo`. `HasMove` still runs after it, so a stuck board ends the game there too.

## Behaviour fixed by the code

- Row `[0, 0, 0]` shifted left becomes `[1, 0, -1]` with 2 points, not `[1, -1, -1]`. The sweep runs columns 1, 2, … in ascending order:
  - the first pair merges into a marked tier 1;
  - the third tile then slides into column 1;
  - it cannot merge with the marked tile (`Worked.SweepThreeZeros`).
- On a full width-2 board holding `0 1` over `1 0`, the two 1s are diagonal, not adjacent, so there is no move (`Worked.DiagonalPairsStuck`).
- `Rotate(amount)` turns `amount` times; a negative amount turns nothing. The effect depends on `amount` mod 4 only, because four turns are the identity (`RotateMod4`, from `FourTurnsIdentity` and `RotateAdd`). The loop does not reduce the amount.

## Model

| member | source | states |
|---|---|---|
| Grid.Index | Tile.cs:60-63 | the slot `x + y*width` of a column and row below the width lies inside the `width*width` board, and so does the whole of row `y` |
| Grid.IndexCoords | Tile.cs:62 | a slot's column is its remainder by the width and its row is its quotient, so distinct (column, row) pairs name distinct slots |
| Grid.Cleared | Tile.cs:46-57 | the cleared board has the same length and no merge mark; each tier is kept, or is -1 when `all` holds |
| Grid.OccupiedUpdate | Tile.cs:181-185 | writing one cell changes the tile count by exactly what that cell lost and gained |
| Tile.At | Tile.cs:60-63 | the cell read at column `x`, row `y` is cell `x` of row `y`'s slice of the board |
| Tile.RotateTile | Tile.cs:21-34 | the array after collecting columns from last to first, each top-down, and copying back, is `RotatedOnce` of the old array |
| Tile.RotSrcOfColumn | Tile.cs:25-31 | the `((w-1-x)*w + y)`-th cell collected is the cell at column `x`, row `y` |
| Rotation.RotatedMoves | Tile.cs:25-33 | a quarter turn moves the tile at `x + y*w` to `y + (w-1-x)*w` |
| Rotation.RotatedOncePermutes | Tile.cs:23-33 | a quarter turn keeps the length and the multiset of cells: no tile is created or dropped |
| Rotation.RotSrcInjective | Tile.cs:25-31 | distinct slots receive their tiles from distinct slots |
| Tile.Rotate | Tile.cs:37-43 | the array after the loop is `RotateN` of the old array: `amount` quarter turns, none when `amount <= 0` |
| Rotation.RotateAdd | Tile.cs:37-43 | `a` turns and then `b` turns equal `a+b` turns |
| Rotation.FourTurnsIdentity | Tile.cs:37-43 | four quarter turns restore every tile to its slot |
| Rotation.RotateMod4 | Tile.cs:37-43 | a non-negative amount of turns has the effect of its remainder by 4 |
| Rotation.RoundTrip | Game.cs:89-106 | turn counts totalling 0 or 4 (LEFT 0+0, UP 1+3, RIGHT 2+2, DOWN 3+1) restore the board |
| Rotation.RotateNPermutes | Tile.cs:37-43 | any number of turns is a permutation of the cells |
| Rotation.RotateNKeeps | Tile.cs:37-43 | turning keeps tiers in range and keeps a board without merge marks without them |
| Rotation.RotateNOccupied | Tile.cs:37-43 | turning keeps the number of tiles |
| Rotation.RotateNValues | Tile.cs:37-43 | turning two boards with equal tiers gives boards with equal tiers |
| Tile.Clear | Tile.cs:46-57 | the array after the loop is `Cleared(old, all)` |
| Merge.InteractRule | Tile.cs:145-161 | `Interact` acts exactly when a tile meets an empty left neighbour or a mergeable one, and then empties the current cell; a slide carries the tile and its mark into the left cell for no points; otherwise both cells stay as they were |
| Merge.MergeRule | Tile.cs:153-161 | merging equal, non-empty, unmarked neighbours of tier `v >= 0` empties the current cell; the left one becomes `v+1` marked, earning `2(v+1)`, or at `v+1 >= 12` becomes -1 unmarked, earning 24; every merge earns 2 to 24 and leaves a tier below 12 |
| Merge.StepEffect | Tile.cs:145-162 | one interaction never adds a tile; when it slides or merges it strictly lowers the weight, and otherwise it changes nothing; on tiers in range it keeps them in range and earns 2 to 24 points per tile removed |
| Merge.Cascade | Tile.cs:133-166 | the cascade from column `x` leaves every column right of `x` untouched |
| Merge.CascadeEffect | Tile.cs:133-166 | the whole cascade from column `x` has the effect of one step: no tile added, shifted exactly when the weight dropped, points tied to the tiles removed |
| Merge.SweepUpTo | Tile.cs:121-124 | sweeping columns `1 .. n-1` leaves columns from `n` on untouched |
| Merge.SweepEffect | Tile.cs:121-124 | a row's sweep keeps the same effect bounds |
| Merge.SweepShiftedIff | Tile.cs:145-162 | a row's sweep reports shifted exactly when some tier of the row changed |
| Merge.SweptRowsRow | Tile.cs:119-125 | row `y` of the partly swept board is the sweep of row `y` of the input for rows already visited, and row `y` of the input otherwise: rows are independent |
| Merge.ShiftGridRow | Tile.cs:119-127 | row `y` of the shifted board is the sweep of row `y` of the input with its marks cleared |
| Merge.ShiftGridEffect | Tile.cs:115-130 | Shift never adds a tile; it reports shifted exactly when some tier changed; on tiers in range it keeps them in range and earns 2 to 24 points per tile removed, so the score never goes down |
| Merge.ShiftGrid | Tile.cs:127 | Shift returns with every merge mark cleared |
| Merge.SweepPacked | Tile.cs:121-124 | on a row without marks, the sweep leaves the visited columns with no empty cell before a tile and no neighbours that could still merge in this pass |
| Merge.ShiftGridPacked | Tile.cs:115-130 | given no merge marks on entry, every row ends left-packed |
| Merge.SweepSettled | Tile.cs:145-162 | a left-packed row without mergeable neighbours is left as it is, with no points and no shift |
| Merge.ShiftGridSettled | Tile.cs:115-130 | on an unmarked board whose rows are left-packed without equal neighbours, Shift changes nothing, earns nothing and reports no shift |
| Tile.Move | Tile.cs:133-166 | the array becomes `MoveAt(old, x, y).cells`; the shared report gains `MoveAt`'s points and keeps a true `Shifted` true; the same report object is returned |
| Tile.MoveAtRow | Tile.cs:133-166 | `MoveAt` on the board is the row-level `Cascade` of row `y` spliced back, with the same points and flag |
| Tile.MoveAtScore | Tile.cs:133-166 | on tiers in range, `Tile.Move` never earns a negative score, so a report's score only grows along a shift |
| Tile.ShiftRow | Tile.cs:121-124 | the inner loop leaves the board `ShiftRowAt(old, width, width, y)` and adds its points and flag to the shared report |
| Tile.ShiftRowAtRow | Tile.cs:121-124 | the inner loop on the board is the row-level `SweepUpTo` of row `y` spliced back |
| Tile.ShiftRowsAtRows | Tile.cs:119-125 | after the outer loop's first `m` rows the board is `SweptRows(s, w, m)`, with those rows' total points and combined flag |
| Tile.Shift | Tile.cs:115-130 | the array becomes the traversal's board with marks cleared; a fresh report holds the traversal's points and flag |
| Tile.ShiftRowsAtGrid | Tile.cs:115-130 | Shift's traversal followed by clearing the marks is exactly the pass `ShiftGrid` |
| Tile.LocalTest | Tile.cs:74-99 | the test of one slot inside the scan returns exactly `LocalMove`: the slot is empty or an existing neighbour above, left, right or below holds the same tier |
| Tile.HasMove | Tile.cs:66-110 | the scan, whose `break` leaves only the inner loop, returns true exactly when some slot passes the local test, without changing the array |
| Terminal.LocalMoveWitness | Tile.cs:74-99 | a slot that passes `LocalMove` shows that the board has an empty slot or a horizontally or vertically adjacent pair with the same non-empty tier |
| Terminal.CanMoveIff | Tile.cs:66-110 | the local test passes somewhere exactly when some slot is empty or two horizontally or vertically adjacent slots share a non-empty tier |
| Terminal.CanMoveUnturned | Tile.cs:66-110 | if a quarter turn of a board passes the test, the board itself passes it |
| Terminal.StuckTurned | Tile.cs:66-110 | a board that fails the test still fails it after any number of turns |
| Terminal.StuckShiftIdle | Tile.cs:115-130 | on an unmarked board that fails the test, Shift changes nothing, earns nothing and reports no shift |
| Tile.AddTile | Tile.cs:169-186 | on a full board nothing changes; otherwise exactly one slot that was empty gets tier 0 or 1 and every other slot is unchanged |
| Tile.SpawnedCount | Tile.cs:169-186 | a spawn adds exactly one tile when there was room and none otherwise, and keeps tiers in range and marks as they were |
| Chance.Next | Tile.cs:183-184 | a draw of `Random.Next(bound)` is below its bound |
| MoveInfos.MoveInfo.constructor | MoveInfo.cs:18-22 | a fresh report has score 0 and shifted false |
| Games.PreTurns | Game.cs:87-110 | for the `Direction` enum's four names and any other value: below 4 quarter turns before the shift, none exactly for LEFT and for a value outside the enum |
| Games.PostTurns | Game.cs:87-110 | below 4 quarter turns after the shift, which with the turns before it make a whole number of full turns |
| Games.Slide | Game.cs:87-110 | a move keeps the board's length; LEFT is exactly the pass `ShiftGrid`; a value outside the enum changes nothing, earns nothing and reports no shift |
| Games.TurnsCancel | Game.cs:87-110 | each direction's turn before and turn after cancel, in either order |
| Games.SlideEffect | Game.cs:87-112 | a move in any direction, before the spawn, adds no tile; it is shifted exactly when some tier changed; it leaves no mark; on tiers in range it keeps them in range and earns 2 to 24 points per tile removed |
| Games.SlideKeeps | Game.cs:87-112 | a move keeps tiers in range and marks cleared, and earns a non-negative score |
| Games.StuckSlide | Game.cs:120-124 | on an unmarked board that fails the move test, every direction changes nothing, earns nothing and reports no shift |
| Games.GameOver | Game.cs:120-124 | a board that fails the move test is full, and no direction changes it: ending the game there loses no move |
| Games.Game.Setup | Game.cs:52-58 | every slot holds a blank tile |
| Games.Game.Reset | Game.cs:61-75 | the game is running with score 0 and no marks; one or two tiles, each of tier 0 or 1, are on the board |
| Games.Game.constructor | Game.cs:34-49 | a width-by-width board is allocated, and the game is in the state `Reset` leaves |
| Games.Game.Turn | Game.cs:87-110 | for each direction the board becomes `Slide`'s board, and the report holds `Slide`'s points and flag |
| Games.Game.Move | Game.cs:78-125 | a finished game ignores the move; otherwise the score grows by the slide's points, the board is a spawn on the slide's board when the slide shifted and exactly the slide's board otherwise, `running` equals the move test on the final board, an empty slot keeps it running, and a game that ends has a board no direction changes; `Valid` is kept and the score never drops |
| Worked.SweepThreeZeros | Tile.cs:145-164 | row `0 0 0` sweeps to `1 0 -1` with 2 points and shifted true |
| Worked.SweepLoneTile | Tile.cs:145-164 | row `-1 -1 3` sweeps to `3 -1 -1` in one pass, with 0 points and shifted true |
| Worked.DiagonalPairsStuck | Tile.cs:66-110 | the full width-2 board `0 1 / 1 0` has no move |
| Worked.LeftOnTwoZeros | Game.cs:89-91 | on the width-2 board `0 0 / -1 -1`, LEFT gives `1 -1 / -1 -1` with 2 points and shifted true |
| Worked.LeftOnTwoZerosKeepsRunning | Game.cs:115-124 | after that move and its spawn, an empty slot remains, so the game keeps running |

## Left out

- Program.cs is not part of this model. It holds console drawing, keyboard input, argument parsing and the sleep loop.
- `System.Random` and its seeding (Game.cs:21, 35-41) are not modelled. `Chance.Next` is any value below its bound, so the distribution and the reproducibility of a seed are not modelled.
- Games.Game.constructor: takes no seed, because seeding is not modelled.
- Games.Game.constructor: requires `width > 0`. The source does no validation. A width of 0 allocates an empty array. A negative width allocates `width*width` tiles, and `Setup`, `Clear` and `AddTile` still run over the whole array, so `Reset` spawns one or two tiles. Only the loops bounded by the width do nothing: those of `RotateTile`, `Shift` and `HasMove`. So with any width of 0 or below, the first move earns nothing, spawns nothing and ends the game.
- Games.Game.constructor: `width` is unbounded. In the source, the 32-bit products `width * width` (Game.cs:45) and `x + y * width` (Tile.cs:62) wrap around above width 46340, and this is not modelled.
- The default `width = 5` arguments of the Tile.cs methods are not modelled. `width` is always passed explicitly.
- Games.Game.Move: the score is an unbounded integer. The 32-bit wrap-around of `_score` and `MoveInfo.Score` after about two billion points is not modelled.
- The public setters of `Score` and `Running` and the exposed `Tiles` array (Game.cs:28-30) are not modelled. `Valid` assumes that nothing outside the game writes to them: no merge marks and tiers in -1 .. 11.
- MoveInfo's property setters (MoveInfo.cs:15-16) are modelled as plain field assignments. They change only their own field.
- Tile identity would only matter if a tile object were shared between slots, and none is.
- `Tile.Rotate` being called on its own from Program.cs's rotate key is not modelled beyond `Tile.Rotate` itself.
- Terminal.CanMove: this is the test the code makes, not an exact "some direction changes the board". One half is proved: when it fails, no direction does anything (`Games.GameOver`). The converse does not hold on a board with no tile at all, and it is not stated. Play never produces such a board. `Reset` leaves at least one tile. A move that shifts is followed by a spawn, and a move that does not shift leaves the board as it was.
