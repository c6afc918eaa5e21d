# Minesweeper board engine in Dafny

This project models the game logic of an Android Minesweeper app: the `Board`
class of `Board.kt`. A board is a `height x width` grid of cells. Each cell
records four things: whether it holds a mine, the number of mines around it
(`-1` on a mine), whether it is revealed, and whether it carries a flag. The
model covers these operations:

- mine placement while the grid is built (`mineGenHelp`), with the numbering
  pass (`calculateNumbers`);
- the three accessors (`check`, `vis`, `flag`);
- flag toggling (`togFlag`);
- the flood-fill reveal (`poolExpand`), including its one-time first-move mine
  relocation;
- the chord reveal (`dTapExpand`);
- the win/loss check (`gameOverCheck`).

Layout:

- `grid.dfy` (module `Grid`) holds the geometry and counting: the `Cell`
  record, the two offset tables, the in-bounds neighbours, and the
  neighbour-counting loop as the function `CountAround`. It also defines
  `Number`, the value a cell must carry for a given mine layout.
- `placement.dfy` (module `Placement`) holds the streamed random placement as
  a function `Place` of the oracle draws.
- `board.dfy` (module `Minesweeper`) holds the class `Board`. Its methods
  change the `array2<Cell>` grid and the counters in place, as the Kotlin
  methods do. Three ghost sets mirror the grid: `mineSet`, `flagSet` and
  `shown`. `Layout()` ties them to the cells. `Numbered()` says that
  every cell carries `Number(mineSet, …)`. `Valid()` is the invariant of a
  constructed board.
- `scenarios.dfy` (module `Scenarios`) plays short games through the public
  operations.

`Math.random()` is replaced by an oracle. The constructor takes `draws`, one
boolean per cell in the order the cells are created (row by row). Each boolean
is the outcome of the comparison `random < minesLeft / squaresLeft`. When the
ratio is at least 1 the comparison always succeeds, and when it is at most 0
it always fails. `Pick` encodes exactly this, so the draw only matters while
the ratio lies strictly between 0 and 1.

The flood fill keeps the source's recursion: `PoolExpand` calls its neighbour
loop `ExpandAround`, whose loop body `SpreadTo` reveals one neighbour and calls
`PoolExpand` on it. The termination measure is the lexicographic pair (set of
still-hidden cells, rank), with rank 2 for `SpreadTo`, 1 for `PoolExpand` and 0
for `ExpandAround`. The call from `PoolExpand` into `ExpandAround` keeps the set
and lowers the rank. The call from `ExpandAround` into `SpreadTo` raises the
rank, but `SpreadTo` measures the hidden cells minus the neighbour it is about
to reveal, a strictly smaller set. `SpreadTo` reveals that neighbour before it
calls `PoolExpand`, so that call keeps the set it measured and lowers the rank.

The chord's reveal loop (`RevealAround`, with its per-neighbour step `Uncover`)
calls `PoolExpand` on neighbours numbered 0, as `dTapExpand` does.

Four behaviours of the code are worth spelling out:

- Tiny first move. Take a 1 x 2 board whose one mine is at (0, 0). The first
  tap there moves the mine to (0, 1), so (0, 0) shows 1 and the game is won
  (`Scenarios.TinyBoardFirstMove`).
- First-move fairness. The relocation scans row 0 only. When row 0 is all
  mines it indexes past the end of the row (Board.kt:83-89). So `PoolExpand`
  requires a mine-free cell in row 0 when the first move lands on a mine.
- A chord before the first reveal. `dTapExpand` calls `poolExpand` only on
  neighbours numbered 0 (Board.kt:133-135), so a chord on a hidden cell can
  reveal numbered cells while `firstTurn` is still true. If it reveals the
  first mine-free cell of row 0, a later first tap on a mine moves the mine
  onto that revealed cell (Board.kt:84-91), and `gameOverCheck` reports a loss
  (`Scenarios.FirstRevealAfterChordLoses`). This is why
  `Scenarios.FirstRevealIsSafe` asks for a board with nothing revealed.
- Invalid construction is not rejected by the code, so the constructor
  states the range it needs as a precondition.

## Model

| member | source | states |
|---|---|---|
| Grid.CountAround | app/src/main/java/com/mdu/minesweeper/Board.kt:175-184 | the neighbour-counting loop after k offsets counts at most k cells |
| Grid.CountAroundIsNeighbourCount | app/src/main/java/com/mdu/minesweeper/Board.kt:175-185 | the counting loop over the two offset tables counts exactly the in-bounds Moore neighbours that are in the set |
| Grid.NumberMeaning | app/src/main/java/com/mdu/minesweeper/Board.kt:169-189 | a cell's number is -1 exactly on a mine; otherwise it lies in 0..8 and equals the number of neighbouring mines |
| Grid.OffsetIsAdjacent | app/src/main/java/com/mdu/minesweeper/Board.kt:23-24 | each of the eight offsets reaches a neighbour |
| Grid.AdjacentHasOffset | app/src/main/java/com/mdu/minesweeper/Board.kt:23-24 | every neighbour is reached by one of the eight offsets |
| Grid.OffsetsDistinct | app/src/main/java/com/mdu/minesweeper/Board.kt:23-24 | the eight offsets reach eight different cells, so no neighbour is counted twice |
| Grid.HitSetMembers | app/src/main/java/com/mdu/minesweeper/Board.kt:176-184 | the cells counted by the first k loop steps are exactly the hits among the first k offsets |
| Grid.HitSetCount | app/src/main/java/com/mdu/minesweeper/Board.kt:176-184 | the loop count after k steps is the size of the set of cells hit so far |
| Grid.FirstSafeColumn | app/src/main/java/com/mdu/minesweeper/Board.kt:83-90 | the relocation scan stops at the first column of row 0 without a mine; every column before it holds a mine; it returns the width when there is none |
| Grid.NoHitBelowZero | app/src/main/java/com/mdu/minesweeper/Board.kt:95-101 | around a cell numbered 0 no offset lands on a mine, so the flood fill only reveals safe cells |
| Grid.SettledGrows | app/src/main/java/com/mdu/minesweeper/Board.kt:94-106 | revealing more cells keeps a fully expanded zero cell fully expanded |
| Grid.RowCount | app/src/main/java/com/mdu/minesweeper/Board.kt:20 | a row of the grid has width cells |
| Grid.CellsSplit | app/src/main/java/com/mdu/minesweeper/Board.kt:20 | a grid of h rows is the grid of h - 1 rows plus its last row, the two disjoint |
| Grid.CellsCount | app/src/main/java/com/mdu/minesweeper/Board.kt:17-20 | the grid has height * width cells |
| Grid.AllSafeRevealed | app/src/main/java/com/mdu/minesweeper/Board.kt:158-161 | with no mine revealed, the revealed count equals height * width minus the mines exactly when every mine-free cell is revealed |
| Placement.NextIsSuccessor | app/src/main/java/com/mdu/minesweeper/Board.kt:20 | row-by-row creation visits the cell after (a, b) next |
| Placement.PlaceAdvance | app/src/main/java/com/mdu/minesweeper/Board.kt:206-212 | one placement decision moves the current cell, if it becomes a mine, from the mines still to come to the mines placed |
| Placement.PickKeepsCounters | app/src/main/java/com/mdu/minesweeper/Board.kt:206-212 | one decision keeps 0 <= minesLeft <= squaresLeft: when the ratio reaches 1 the cell must be a mine, at 0 it cannot be |
| Placement.PlaceAfter | app/src/main/java/com/mdu/minesweeper/Board.kt:20 | the stream places mines only at or after its current cell |
| Placement.PlaceCount | app/src/main/java/com/mdu/minesweeper/Board.kt:16-20 | whatever the random draws, streaming over n cells with m <= n mines left places exactly m mines |
| Minesweeper.Board.constructor | app/src/main/java/com/mdu/minesweeper/Board.kt:11-28 | a new board is valid: exactly `mines` mines, laid out as the draws dictate; every cell numbered; nothing revealed or flagged; flagsLeft == mines; minesLeft and squaresLeft end at 0 |
| Minesweeper.Board.PlaceMines | app/src/main/java/com/mdu/minesweeper/Board.kt:20 | building the grid row by row places exactly the mine set of the stream and leaves every cell hidden and unflagged |
| Minesweeper.Board.PlaceCell | app/src/main/java/com/mdu/minesweeper/Board.kt:20 | creating one cell consumes one draw, and the placement invariant moves on to the next cell |
| Minesweeper.Board.MineGenHelp | app/src/main/java/com/mdu/minesweeper/Board.kt:206-212 | the decision is Pick of the counters before the step; squaresLeft drops by one, minesLeft drops by one exactly when a mine is chosen |
| Minesweeper.Board.CalculateNumbers | app/src/main/java/com/mdu/minesweeper/Board.kt:169-189 | every cell's value becomes its Number in the current layout (-1 on mines, the neighbour count elsewhere); nothing else in any cell changes |
| Minesweeper.Board.Check | app/src/main/java/com/mdu/minesweeper/Board.kt:35-37 | the returned number is -1 exactly on a mine, otherwise the count of neighbouring mines, in 0..8 |
| Minesweeper.Board.Vis | app/src/main/java/com/mdu/minesweeper/Board.kt:45-47 | true exactly when the cell is revealed |
| Minesweeper.Board.Flag | app/src/main/java/com/mdu/minesweeper/Board.kt:55-57 | true exactly when the cell carries a flag |
| Minesweeper.Board.TogFlag | app/src/main/java/com/mdu/minesweeper/Board.kt:65-70 | no-op on a revealed cell; otherwise flips that one flag and moves flagsLeft by -1 when a flag is placed, +1 when removed, keeping flagsLeft == mines - flagged cells |
| Minesweeper.Toggle | app/src/main/java/com/mdu/minesweeper/Board.kt:66-67 | flipping one flag changes membership of that cell only and the flag count by exactly one |
| Minesweeper.ToggleTwice | app/src/main/java/com/mdu/minesweeper/Board.kt:66-67 | flipping the same flag twice restores the flag set |
| Minesweeper.Board.Show | app/src/main/java/com/mdu/minesweeper/Board.kt:94 | marking a cell visible adds exactly that cell to the revealed set and keeps the board valid |
| Minesweeper.Board.Relocate | app/src/main/java/com/mdu/minesweeper/Board.kt:81-90 | the first-move swap moves the mine from the tapped cell to the first mine-free cell of row 0, changing isMine and nothing else; the mine count is kept |
| Minesweeper.Board.PoolExpand | app/src/main/java/com/mdu/minesweeper/Board.kt:78-107 | terminates; afterwards firstTurn is false and the board valid. On the first move a mine under the target is relocated as Relocate says, so the target is safe; otherwise the mines never move. The target is revealed and revealed cells stay revealed. Every other newly revealed cell is unflagged and safe. Every newly revealed zero cell has all in-bounds neighbours revealed or flagged (the fill goes as far as it must). Every newly revealed cell other than the target is next to a zero cell among the newly revealed cells and the target (the fill goes no further than that); a target not numbered 0 is the only cell revealed. Flags never change |
| Minesweeper.Board.ExpandAround | app/src/main/java/com/mdu/minesweeper/Board.kt:94-106 | for a zero cell, every in-bounds neighbour ends revealed or flagged; each cell it reveals is unflagged, safe, fully expanded, and next to a zero cell among the revealed cells and (y, x) |
| Minesweeper.Board.SpreadTo | app/src/main/java/com/mdu/minesweeper/Board.kt:96-104 | one step of the neighbour loop: the hidden unflagged neighbour of a zero cell is revealed, and everything revealed is safe, unflagged, fully expanded and next to a zero cell of the fill |
| Grid.ViaZeroGrows | app/src/main/java/com/mdu/minesweeper/Board.kt:94-106 | a cell next to a zero cell of a set of revealed cells is still next to one in any larger set |
| Grid.FillStep | app/src/main/java/com/mdu/minesweeper/Board.kt:96-104 | revealing and expanding one neighbour of a zero cell keeps the fill sound: its cells are safe, unflagged, fully expanded and next to a zero cell of the fill |
| Grid.FillFromTarget | app/src/main/java/com/mdu/minesweeper/Board.kt:94-106 | the soundness of the fill from a target carries over when counted from before the target was revealed |
| Grid.FillSoundTrans | app/src/main/java/com/mdu/minesweeper/Board.kt:96-104 | two successive stretches of the same fill make one sound fill |
| Grid.CoveredStep | app/src/main/java/com/mdu/minesweeper/Board.kt:96-104 | after an offset's cell is revealed, flagged or outside the grid, one more offset of the loop is covered |
| Grid.CoveredAll | app/src/main/java/com/mdu/minesweeper/Board.kt:96-104 | once all eight offsets are covered, every in-bounds neighbour is revealed or flagged |
| Minesweeper.Board.DTapExpand | app/src/main/java/com/mdu/minesweeper/Board.kt:115-140 | no-op unless the flag count around the cell equals its number, and hence always a no-op on a mine; otherwise every in-bounds neighbour ends revealed or flagged. It never reveals a flagged cell, never moves a mine and never changes a flag. Any mine it reveals is a neighbour of the tapped cell, and every cell it reveals is a neighbour of the tapped cell or next to a zero cell it revealed. The first turn ends exactly when a cell it reveals is numbered 0, and otherwise stays as it was |
| Minesweeper.Board.RevealAround | app/src/main/java/com/mdu/minesweeper/Board.kt:127-138 | every hidden unflagged neighbour is revealed, zero cells are expanded, and only neighbours can be newly revealed mines; every revealed cell is a neighbour or next to a zero cell among the revealed cells; the first turn ends exactly when a revealed cell is numbered 0 |
| Minesweeper.Board.Uncover | app/src/main/java/com/mdu/minesweeper/Board.kt:131-135 | reveals the chosen hidden unflagged cell, expanding it when numbered 0; a cell not numbered 0 is the only one revealed and the first turn stays pending, while a cell numbered 0 ends the first turn; every other cell it reveals is safe, unflagged and next to a zero cell among the revealed cells |
| Minesweeper.Board.WonIffAllSafeShown | app/src/main/java/com/mdu/minesweeper/Board.kt:158-161 | with no mine revealed, the revealed count reaches emptySquares exactly when every mine-free cell is revealed |
| Minesweeper.Board.GameOverCheck | app/src/main/java/com/mdu/minesweeper/Board.kt:147-163 | -1 iff a revealed cell is a mine; otherwise 1 iff the revealed count equals emptySquares, which is iff every safe cell is revealed; otherwise 0; the board is not modified |
| Scenarios.ToggleTwiceRestores | app/src/main/java/com/mdu/minesweeper/Board.kt:65-70 | two togFlag calls on the same cell leave the flags, flagsLeft and every cell as they were |
| Scenarios.FirstRevealIsSafe | app/src/main/java/com/mdu/minesweeper/Board.kt:78-107 | the first reveal on a board with nothing revealed never loses the game |
| Scenarios.FirstRevealAfterChordLoses | app/src/main/java/com/mdu/minesweeper/Board.kt:79-92 | when a chord has already revealed the first mine-free cell of row 0, a first tap on a mine moves the mine onto it and the game is lost |
| Scenarios.MineAfterFirstTurnLoses | app/src/main/java/com/mdu/minesweeper/Board.kt:94 | after the first move, revealing a mine makes gameOverCheck report a loss |
| Scenarios.TinyBoardFirstMove | app/src/main/java/com/mdu/minesweeper/Board.kt:79-92 | 1 x 2 board with its mine at (0, 0): tapping (0, 0) first moves the mine to (0, 1); (0, 0) then shows 1 and the game is won |
| Scenarios.TinyNumber | app/src/main/java/com/mdu/minesweeper/Board.kt:175-185 | with the mine at (0, 1) of a 1 x 2 board, cell (0, 0) is numbered 1 |
| Scenarios.ThreeFlags | app/src/main/java/com/mdu/minesweeper/Board.kt:13 | on a fresh 8 x 8 board with 10 mines, three flags on distinct hidden cells leave flagsLeft == 7 |

## Left out

- `startTime` and `System.currentTimeMillis()` (Board.kt:14, 80) are left out. They only record a clock reading for the app's timer and affect no game state.
- `Math.random()` and its floating-point ratio (Board.kt:207) are replaced by the `draws` oracle described above.
- `debugBoard` and `Log.d` (Board.kt:218-227) are left out. They only produce diagnostic output.
- `GameFragment.kt` and `MenuFragment.kt` are not part of this model. They form the UI layer: touch handling, rendering and the timer display.
- Out-of-bounds coordinates are excluded by `InBounds` preconditions. The Kotlin code would throw an index exception for them.
- Minesweeper.Board.PoolExpand: on a first move onto a mine, it requires a mine-free cell in row 0. Without one, the Kotlin scan runs past the end of row 0 and throws.
- Minesweeper.Board.PoolExpand: it states that each newly revealed cell is next to a zero cell among the newly revealed cells and the target. It does not state that a chain of such zero cells leads back to the target, so the exact connected zero region is not characterised.
- Minesweeper.Board.ExpandAround: the same local bound, over the cells it reveals and (y, x); it does not state a chain of zero cells back to (y, x).
- Minesweeper.Board.SpreadTo: the same local bound, over the cells it reveals and the zero cell (y, x); it does not state that what it reveals is reached from (a, b) through a chain of zero cells.
- Minesweeper.Board.DTapExpand: each cell it reveals is bounded only locally, as a neighbour of (y, x) or next to a zero cell it revealed; it does not state a chain of zero cells back to a neighbour.
- Minesweeper.Board.RevealAround: the same local bound as DTapExpand, carried through its loop.
- Minesweeper.Board.Uncover: each cell other than (a, b) is bounded only as next to a zero cell it revealed, not by a chain of zero cells back to (a, b).
- Minesweeper.Board.constructor: it requires 0 <= mines <= height * width and non-negative dimensions. The Kotlin constructor does not check the mine count. With a count outside that range, `mines` would not equal the number placed.
- Revealing a flagged cell directly leaves its flag in place, as in the code. So a cell can be both flagged and revealed, and the model has no "flagged implies hidden" invariant.
- The board does not lock itself after a win or a loss. Nothing in the model prevents further calls, as in the code.
- The Kotlin grid is an array of arrays of `Cell` objects. Each object is reached only through its own slot, so it is modelled as a two-dimensional array of `Cell` values that the methods overwrite in place.
