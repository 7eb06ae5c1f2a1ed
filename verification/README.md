# Sliding tile puzzle engine in Dafny

This project models `SlidingTilePuzzle`, the engine of a sliding tile puzzle game.
A board has `rows` x `cols` cells, both at least 3. Each cell holds an integer tile, and 0 marks the one empty cell.
The engine also tracks where the empty cell is and counts the player's moves.

The engine's operations are:

- The constructor rejects boards smaller than 3 x 3. Otherwise it fills cell (i, j) with `1 + i*rows + j`, empties the bottom-right cell, shuffles, and resets the move counter.
- The shuffle makes `1000 * rows` random draws. Each draw of 0, 1, 2 or 3 tries to slide the tile north, south, west or east of the empty cell into it.
- A move slides the tile at (row, col) into the empty cell when the two are orthogonally adjacent. Any other in-range target changes nothing. An out-of-range row or column throws an exception; the row is checked first.
- The solved check passes when every cell outside the bottom-right one holds its ordered value.

The model is functional. The engine's state is an immutable `Puzzle` datatype, and each Java method becomes a function from one state to the next.
The three `IllegalArgumentException`s become the `Error` values `InvalidGridSize`, `InvalidRow` and `InvalidColumn`, carried in a `Result`.
The random generator becomes a parameter: `dirs`, the sequence of values `nextInt(4)` would return.

Files:

- `board.dfy` (module `Board`): grids as sequences of rows, the multiset of their values, single-cell updates and swaps.
- `puzzle.dfy` (module `Puzzle`): the engine's state, invariant, layout, moves, shuffle, constructors and solved check.
- `properties.dfy` (module `PuzzleProperties`): properties that relate several calls.
  - Move sequences: `Play` runs a list of moves, and a move can be undone.
  - Solvability: every constructed board can be played back to the solved layout.
  - The empty cell is unique.
  - Square boards hold each value 0 .. n*n-1 exactly once.

The ordered value uses a stride of `rows`, exactly as the code computes it in `1 + i * rows + j`.
That is row-major order only on square boards. The model keeps the code's formula rather than `1 + i*cols + j`.
`PuzzleProperties.WideLayoutRepeatsValue` shows the consequence: on a board wider than tall, two cells hold the same value.
The default 3 x 3 board and every square board are unaffected; `PuzzleProperties.SquareBoardValues` proves they hold each of 0 .. n*n-1 once.

## Model

| member | source | states |
|---|---|---|
| `Board.SwapCells` | SlidingTilePuzzle/src/model/SlidingTilePuzzle.java:139-140 | Exchanging the empty cell with a tile permutes the board: the multiset of its values is unchanged. |
| `Puzzle.Layout` | SlidingTilePuzzle/src/model/SlidingTilePuzzle.java:62-72 | The unshuffled grid has `rows` rows of `cols` cells. Cell (i, j) holds `1 + i*rows + j`, except the bottom-right cell, which holds 0. |
| `Puzzle.Initial` | SlidingTilePuzzle/src/model/SlidingTilePuzzle.java:58-72 | The state before the shuffle satisfies the engine invariant, has the requested size and zero moves, and tracks the bottom-right cell as empty. |
| `Puzzle.CheckRow` | SlidingTilePuzzle/src/model/SlidingTilePuzzle.java:155-159 | Passes exactly when 0 <= row < rows; otherwise fails with the invalid-row error. |
| `Puzzle.CheckCol` | SlidingTilePuzzle/src/model/SlidingTilePuzzle.java:167-171 | Passes exactly when 0 <= col < cols; otherwise fails with the invalid-column error. |
| `Puzzle.MoveTile` | SlidingTilePuzzle/src/model/SlidingTilePuzzle.java:125-147 | Covers every case of a move. A bad row gives the row error, even when the column is also bad. A good row with a bad column gives the column error. A non-adjacent target returns the state unchanged. An adjacent target moves its tile into the old empty cell and empties the target, which becomes the tracked empty cell. The counter grows by one and every other cell keeps its value. A move preserves the well-formedness invariant. |
| `Puzzle.MoveTilePreservesValid` | SlidingTilePuzzle/src/model/SlidingTilePuzzle.java:136-145 | A successful move leaves the multiset of board values unchanged. So every board reached by moves is a rearrangement of the ordered layout. |
| `Puzzle.StepTarget` | SlidingTilePuzzle/src/model/SlidingTilePuzzle.java:89-115 | Draws 0, 1, 2 and 3 name the cell north, south, west and east of the empty cell. A draw is taken exactly when that cell is on the board; otherwise it names nothing. A draw outside 0..3 names nothing, as the switch has no default case. A named cell is always in range and adjacent. |
| `Puzzle.ShuffleStep` | SlidingTilePuzzle/src/model/SlidingTilePuzzle.java:90-115 | A skipped draw leaves the state as it is. A taken draw is a full move, so the counter grows as well. Both keep the size and the invariants. |
| `Puzzle.Shuffle` | SlidingTilePuzzle/src/model/SlidingTilePuzzle.java:84-117 | Any sequence of draws keeps the size and the invariants and never decreases the move counter. |
| `Puzzle.ShuffleTiles` | SlidingTilePuzzle/src/model/SlidingTilePuzzle.java:84-117 | The shuffle loop over `1000 * rows` draws computes `Shuffle` of those draws, and its result is a valid board of the same size. |
| `Puzzle.Create` | SlidingTilePuzzle/src/model/SlidingTilePuzzle.java:52-79 | Construction fails exactly when rows < 3 or cols < 3, with the grid-size error. Otherwise it gives a valid board of the requested size with zero moves. |
| `Puzzle.CreateDefault` | SlidingTilePuzzle/src/model/SlidingTilePuzzle.java:41-43 | The no-argument constructor always succeeds and gives a valid 3 x 3 board with zero moves. |
| `Puzzle.CornerProduct` | SlidingTilePuzzle/src/model/SlidingTilePuzzle.java:197 | The test `i * j != (rows-1) * (cols-1)` excludes exactly the bottom-right cell. |
| `Puzzle.SolvedIffInOrder` | SlidingTilePuzzle/src/model/SlidingTilePuzzle.java:192-203 | The product-based solved check holds exactly when every cell except the bottom-right one holds its ordered value. |
| `Puzzle.CheckSolved` | SlidingTilePuzzle/src/model/SlidingTilePuzzle.java:192-203 | The nested loop with early return answers true exactly when every cell passes the solved check. Equivalently, true exactly when every non-corner cell is in order. |
| `PuzzleProperties.Play` | SlidingTilePuzzle/src/model/SlidingTilePuzzle.java:125-147 | Runs a sequence of moves. It succeeds when every target is in range. It keeps the size, and it keeps validity. |
| `PuzzleProperties.MoveTileIgnoresCounter` | SlidingTilePuzzle/src/model/SlidingTilePuzzle.java:136-145 | Two states that differ only in the move counter succeed or fail together on a move, and agree on the board afterwards. |
| `PuzzleProperties.PlayIgnoresCounter` | SlidingTilePuzzle/src/model/SlidingTilePuzzle.java:136-145 | The same holds for a whole sequence of moves. |
| `PuzzleProperties.PlayAppend` | SlidingTilePuzzle/src/model/SlidingTilePuzzle.java:125-147 | Playing two move lists in turn is playing their concatenation, and an error ends the sequence. |
| `PuzzleProperties.MoveTileUndo` | SlidingTilePuzzle/src/model/SlidingTilePuzzle.java:136-144 | Moving the tile back into the cell it came from restores the board and the empty position, with the counter two higher. |
| `PuzzleProperties.Retrace` | SlidingTilePuzzle/src/model/SlidingTilePuzzle.java:88-115 | The retracing moves of a shuffle all target cells on the board, so `PuzzleProperties.Play` cannot fail on a range error. There is at most one retracing move per draw. |
| `PuzzleProperties.RetraceStep` | SlidingTilePuzzle/src/model/SlidingTilePuzzle.java:136-144 | One undo move extends a retracing sequence by one step of the shuffle. |
| `PuzzleProperties.ShuffleRetrace` | SlidingTilePuzzle/src/model/SlidingTilePuzzle.java:84-117 | Every shuffle can be reversed with legal moves: the retracing moves all succeed and restore the original board and empty cell. |
| `PuzzleProperties.CreatedPuzzleIsSolvable` | SlidingTilePuzzle/src/model/SlidingTilePuzzle.java:52-79 | Every board the constructor produces is solvable. Some sequence of legal moves leads back to the ordered layout with the corner empty, where the solved check passes. |
| `PuzzleProperties.InOrderCornerIsEmpty` | SlidingTilePuzzle/src/model/SlidingTilePuzzle.java:195-197 | On a valid board whose non-corner cells all hold their ordered values, the unchecked corner holds 0. |
| `PuzzleProperties.SolvedIsLayout` | SlidingTilePuzzle/src/model/SlidingTilePuzzle.java:185-203 | A valid board passes the solved check only when it is exactly the ordered layout, with the empty cell tracked in the bottom-right corner. Together with `PuzzleProperties.InitialIsSolved`, the check is passed by exactly the solved board, on every board size. |
| `PuzzleProperties.SolvedSameBoard` | SlidingTilePuzzle/src/model/SlidingTilePuzzle.java:192-203 | The solved check reads the board only, never the move counter. |
| `PuzzleProperties.InitialIsSolved` | SlidingTilePuzzle/src/model/SlidingTilePuzzle.java:62-72 | The unshuffled board passes the solved check, with the bottom-right cell empty. |
| `PuzzleProperties.SolvedValueInjective` | SlidingTilePuzzle/src/model/SlidingTilePuzzle.java:66 | On a square board, distinct cells have distinct ordered values. |
| `PuzzleProperties.SwapUnsolves` | SlidingTilePuzzle/src/model/SlidingTilePuzzle.java:192-203 | On a square board, exchanging any two distinct non-corner tiles of the ordered layout makes the solved check fail. |
| `PuzzleProperties.WideLayoutRepeatsValue` | SlidingTilePuzzle/src/model/SlidingTilePuzzle.java:66 | With the `rows` stride, a board wider than tall holds the value rows + 1 twice, in cells (0, rows) and (1, 0). |
| `PuzzleProperties.FillHasNoEmpty` | SlidingTilePuzzle/src/model/SlidingTilePuzzle.java:64-68 | Before the corner is emptied, no cell holds 0. |
| `PuzzleProperties.LayoutFitsInt` | SlidingTilePuzzle/src/model/SlidingTilePuzzle.java:64-68 | When (rows-1)*rows + cols is at most 2^31 - 1, every filled value `1 + i*rows + j` lies between 1 and 2^31 - 1, so Java's `int` arithmetic does not wrap. |
| `PuzzleProperties.OfferedSizesFitInt` | SlidingTilePuzzle/src/model/SlidingTilePuzzle.java:64-88 | For every square size 3 .. 10 that the game offers, the filled values and the shuffle length `1000 * rows` fit in a 32-bit `int`. |
| `PuzzleProperties.LayoutHasOneEmpty` | SlidingTilePuzzle/src/model/SlidingTilePuzzle.java:64-72 | The ordered layout holds exactly one 0. |
| `PuzzleProperties.EmptyCellIsUnique` | SlidingTilePuzzle/src/model/SlidingTilePuzzle.java:139-142 | On every valid board, the tracked empty coordinates are the one and only cell holding 0. |
| `PuzzleProperties.BlockCount` | SlidingTilePuzzle/src/model/SlidingTilePuzzle.java:64-68 | On a square board, rows a .. a+m-1 of the filled grid hold each value from 1 + a*n through a*n + m*n exactly once. |
| `PuzzleProperties.SquareFillValues` | SlidingTilePuzzle/src/model/SlidingTilePuzzle.java:64-68 | A square filled grid holds each of 1 .. n*n exactly once. |
| `PuzzleProperties.SquareLayoutCells` | SlidingTilePuzzle/src/model/SlidingTilePuzzle.java:70-72 | Emptying the corner of a square grid replaces its value n*n with 0. |
| `PuzzleProperties.SquareLayoutValues` | SlidingTilePuzzle/src/model/SlidingTilePuzzle.java:62-72 | The square ordered layout holds each of 0 .. n*n-1 exactly once. |
| `PuzzleProperties.SquareBoardValues` | SlidingTilePuzzle/src/model/SlidingTilePuzzle.java:64-72 | Every valid square board, shuffled or played, holds each of 0 .. n*n-1 exactly once. |
| `PuzzleProperties.OneMoveFromSolved` | SlidingTilePuzzle/src/model/SlidingTilePuzzle.java:136-145 | On a concrete 3 x 3 board, sliding the 8 left into the empty corner solves the puzzle, and the move is counted once. |

## Left out

- The Swing interface (`GUI.java`), `printGrid`, and the console game loop in `main`, which reads from `Scanner` and prints. They are input and output around the engine.
- `java.util.Random`: the shuffle takes the draws as the parameter `dirs`. Nothing is claimed about their distribution.
- Aliasing through `getGrid`, which returns the engine's own array so a caller could change the board behind the engine's back. The model's state is immutable. `getRows`, `getCols`, `moveCount` and `getGrid` are the datatype's fields `rows`, `cols`, `moveCount` and `grid`.
- Puzzle.Create: Java's 32-bit `int` is not modelled; integers are unbounded. The cell value `1 + i * rows + j` fits in 32 bits exactly when (rows-1)*rows + cols < 2^31, which first fails at rows = 46342 on a board only three columns wide. At rows = 65537 the program stores 0 in cell (65535, 0), a second empty cell. `Puzzle.Layout`, `Puzzle.Initial`, `PuzzleProperties.FillHasNoEmpty`, `PuzzleProperties.LayoutHasOneEmpty`, `PuzzleProperties.EmptyCellIsUnique`, the solved check and every result built on `Valid` hold for the program only within that bound. `PuzzleProperties.LayoutFitsInt` proves that no filled value wraps within it. The solved check also computes `(rows - 1) * (cols - 1)`, which can wrap even within that bound, for example at rows = 3 and cols = 2^30 + 10.
- Puzzle.ShuffleTiles: the loop bound `1000 * rows` is negative for 2,147,484 <= rows <= 4,294,967, where nothing is shuffled, and wraps to other values beyond that. The model always takes `1000 * rows` draws. The game only offers square boards of 3 .. 10, and `PuzzleProperties.OfferedSizesFitInt` proves that both bounds hold for all of them.
- Puzzle.MoveTile: `moveCount++` wraps negative after 2^31 - 1 moves. The model's counter is unbounded, so the `+ 1` of `MoveTile` and the `moveCount >= 0` of `WellFormed` hold only below that count.
- Puzzle.ShuffleTiles: requires a valid starting board. The engine calls the shuffle only from its constructor, on the freshly filled layout.
- The solvability result covers the boards the constructor produces, by retracing the shuffle. The model does not decide solvability of an arbitrary board, for example by a parity argument, because the engine never needs it.
