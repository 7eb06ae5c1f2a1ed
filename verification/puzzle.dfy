/** The sliding tile puzzle engine: a rows x cols board of ints in which 0 is
    the empty cell, the tracked position of that empty cell and a move counter.
    Construction validates the size, lays the tiles out in order and shuffles
    them by random legal moves; `MoveTile` slides a tile adjacent to the empty
    cell into it; `Solved` compares the board with the ordered layout. */
module Puzzle {
  import opened Board

  /** The default board size used by the no-argument constructor. */
  const ROWS := 3
  const COLS := 3
  /** The value held by the empty cell. */
  const EMPTY_TILE := 0

  /** The three `IllegalArgumentException`s the engine throws. */
  datatype Error = InvalidGridSize | InvalidRow | InvalidColumn

  datatype Result<T> = Ok(value: T) | Err(error: Error)

  datatype Outcome = Pass | Fail(error: Error)

  datatype Option<T> = None | Some(value: T)

  /** The engine's fields; `rows`, `cols`, `grid` and `moveCount` are also its accessors. */
  datatype Puzzle = Puzzle(rows: int, cols: int, grid: Grid, emptyRow: int, emptyCol: int, moveCount: int)

  /** The board matches its dimensions and the empty coordinates address a cell. */
  predicate Shaped(p: Puzzle) {
    && IsGrid(p.grid, p.rows, p.cols)
    && 0 <= p.emptyRow < p.rows
    && 0 <= p.emptyCol < p.cols
  }

  /** The object invariant: a board of at least 3 x 3 whose tracked empty cell holds 0. */
  predicate WellFormed(p: Puzzle) {
    && p.rows >= 3 && p.cols >= 3
    && Shaped(p)
    && p.grid[p.emptyRow][p.emptyCol] == EMPTY_TILE
    && p.moveCount >= 0
  }

  /** A well-formed board whose values are a rearrangement of the ordered layout's,
      which holds of every board reachable from that layout by moves. */
  predicate Valid(p: Puzzle) {
    WellFormed(p) && Cells(p.grid) == Cells(Layout(p.rows, p.cols))
  }

  // ---------------------------------------------------------------- layout

  /** The value cell (i, j) holds when the puzzle is solved; the stride is `rows`,
      exactly as the engine computes it, which is row-major order only on square boards. */
  function SolvedValue(rows: int, i: int, j: int): int {
    1 + i * rows + j
  }

  /** Every cell filled with its solved value, before the corner is emptied. */
  function Fill(rows: nat, cols: nat): (g: Grid)
    ensures IsGrid(g, rows, cols)
    ensures forall i, j :: 0 <= i < rows && 0 <= j < cols ==> g[i][j] == SolvedValue(rows, i, j)
  {
    seq(rows, i => seq(cols, j => SolvedValue(rows, i, j)))
  }

  /** The unshuffled board: the filled grid with its bottom-right cell emptied. */
  function Layout(rows: int, cols: int): (g: Grid)
    requires rows >= 1 && cols >= 1
    ensures IsGrid(g, rows, cols)
    ensures g[rows - 1][cols - 1] == EMPTY_TILE
    ensures forall i, j :: 0 <= i < rows && 0 <= j < cols && (i, j) != (rows - 1, cols - 1) ==>
      g[i][j] == SolvedValue(rows, i, j)
  {
    Update(Fill(rows, cols), rows - 1, cols - 1, EMPTY_TILE)
  }

  /** The engine right after the layout is filled and before it is shuffled. */
  function Initial(rows: int, cols: int): (p: Puzzle)
    requires rows >= 3 && cols >= 3
    ensures Valid(p)
    ensures p.rows == rows && p.cols == cols && p.moveCount == 0
    ensures p.emptyRow == rows - 1 && p.emptyCol == cols - 1
  {
    Puzzle(rows, cols, Layout(rows, cols), rows - 1, cols - 1, 0)
  }

  // ---------------------------------------------------------------- moves

  function Abs(x: int): nat {
    if x < 0 then -x else x
  }

  /** The row-validity check: fails with `InvalidRow` outside [0, rows). */
  function CheckRow(p: Puzzle, row: int): (o: Outcome)
    ensures o.Pass? <==> 0 <= row < p.rows
    ensures o.Fail? ==> o.error == InvalidRow
  {
    if row < 0 || row >= p.rows then Fail(InvalidRow) else Pass
  }

  /** The column-validity check: fails with `InvalidColumn` outside [0, cols). */
  function CheckCol(p: Puzzle, col: int): (o: Outcome)
    ensures o.Pass? <==> 0 <= col < p.cols
    ensures o.Fail? ==> o.error == InvalidColumn
  {
    if col < 0 || col >= p.cols then Fail(InvalidColumn) else Pass
  }

  /** The engine's legality test: same row and columns one apart, or same column
      and rows one apart. */
  predicate Adjacent(p: Puzzle, row: int, col: int) {
    || (row == p.emptyRow && Abs(col - p.emptyCol) == 1)
    || (col == p.emptyCol && Abs(row - p.emptyRow) == 1)
  }

  /** `q` is `p` after the tile at (row, col) slid into the empty cell: the old
      empty cell holds that tile, (row, col) is empty and tracked as such, the
      counter grew by one, and every other cell and the dimensions are as before. */
  predicate Slid(p: Puzzle, row: int, col: int, q: Puzzle)
    requires Shaped(p) && 0 <= row < p.rows && 0 <= col < p.cols
  {
    && q.rows == p.rows && q.cols == p.cols
    && IsGrid(q.grid, p.rows, p.cols)
    && q.grid[p.emptyRow][p.emptyCol] == p.grid[row][col]
    && q.grid[row][col] == EMPTY_TILE
    && q.emptyRow == row && q.emptyCol == col
    && q.moveCount == p.moveCount + 1
    && forall i, j :: 0 <= i < p.rows && 0 <= j < p.cols && (i, j) != (row, col) && (i, j) != (p.emptyRow, p.emptyCol) ==>
         q.grid[i][j] == p.grid[i][j]
  }

  /** Slides the tile at (row, col) into the empty cell when the two are
      orthogonally adjacent; any other in-bounds target changes nothing, and an
      out-of-range row (checked first) or column is an error. */
  function MoveTile(p: Puzzle, row: int, col: int): (r: Result<Puzzle>)
    requires Shaped(p)
    ensures !(0 <= row < p.rows) ==> r == Err(InvalidRow)
    ensures 0 <= row < p.rows && !(0 <= col < p.cols) ==> r == Err(InvalidColumn)
    ensures 0 <= row < p.rows && 0 <= col < p.cols && !Adjacent(p, row, col) ==> r == Ok(p)
    ensures 0 <= row < p.rows && 0 <= col < p.cols && Adjacent(p, row, col) ==>
      r.Ok? && Slid(p, row, col, r.value)
    ensures r.Ok? ==> Shaped(r.value)
    ensures r.Ok? && WellFormed(p) ==> WellFormed(r.value)
  {
    match CheckRow(p, row)
    case Fail(e) => Err(e)
    case Pass =>
      match CheckCol(p, col)
      case Fail(e) => Err(e)
      case Pass =>
        if Adjacent(p, row, col) then
          var g1 := Update(p.grid, p.emptyRow, p.emptyCol, p.grid[row][col]);
          var g2 := Update(g1, row, col, EMPTY_TILE);
          Ok(p.(grid := g2, emptyRow := row, emptyCol := col, moveCount := p.moveCount + 1))
        else
          Ok(p)
  }

  /** A move swaps the empty cell with a tile, so the board's values are a
      rearrangement of the old ones, and the invariant carries over. */
  lemma MoveTilePreservesValid(p: Puzzle, row: int, col: int)
    requires Shaped(p)
    ensures WellFormed(p) && MoveTile(p, row, col).Ok? ==> Cells(MoveTile(p, row, col).value.grid) == Cells(p.grid)
    ensures Valid(p) && MoveTile(p, row, col).Ok? ==> Valid(MoveTile(p, row, col).value)
  {
    if WellFormed(p) && 0 <= row < p.rows && 0 <= col < p.cols && Adjacent(p, row, col) {
      var g := MoveTile(p, row, col).value.grid;
      GridExtensionality(g, Swap(p.grid, p.emptyRow, p.emptyCol, row, col), p.rows, p.cols);
      SwapCells(p.grid, p.emptyRow, p.emptyCol, row, col);
    }
  }

  // ---------------------------------------------------------------- shuffle

  /** The number of random steps the shuffle takes. */
  function ShuffleLength(rows: int): int {
    1000 * rows
  }

  /** The cell whose tile one shuffle draw slides: 0, 1, 2, 3 name the cell north,
      south, west or east of the empty cell; a direction that would leave the
      board, or any other draw, names none and the step is skipped. */
  function StepTarget(p: Puzzle, d: int): (t: Option<(int, int)>)
    requires Shaped(p)
    ensures t.Some? ==> 0 <= t.value.0 < p.rows && 0 <= t.value.1 < p.cols && Adjacent(p, t.value.0, t.value.1)
    ensures !(0 <= d < 4) ==> t.None?
    ensures d == 0 ==> (t.Some? <==> p.emptyRow > 0) && (t.Some? ==> t.value == (p.emptyRow - 1, p.emptyCol))
    ensures d == 1 ==> (t.Some? <==> p.emptyRow < p.rows - 1) && (t.Some? ==> t.value == (p.emptyRow + 1, p.emptyCol))
    ensures d == 2 ==> (t.Some? <==> p.emptyCol > 0) && (t.Some? ==> t.value == (p.emptyRow, p.emptyCol - 1))
    ensures d == 3 ==> (t.Some? <==> p.emptyCol < p.cols - 1) && (t.Some? ==> t.value == (p.emptyRow, p.emptyCol + 1))
  {
    var (er, ec) := (p.emptyRow, p.emptyCol);
    if d == 0 && er > 0 then Some((er - 1, ec))
    else if d == 1 && er < p.rows - 1 then Some((er + 1, ec))
    else if d == 2 && ec > 0 then Some((er, ec - 1))
    else if d == 3 && ec < p.cols - 1 then Some((er, ec + 1))
    else None
  }

  /** One shuffle step: the named tile, if any, is moved through `MoveTile`,
      which never throws here because the target is an in-bounds neighbour. */
  function ShuffleStep(p: Puzzle, d: int): (q: Puzzle)
    requires Shaped(p)
    ensures Shaped(q) && q.rows == p.rows && q.cols == p.cols
    ensures StepTarget(p, d).None? ==> q == p
    ensures StepTarget(p, d).Some? ==> Slid(p, StepTarget(p, d).value.0, StepTarget(p, d).value.1, q)
    ensures WellFormed(p) ==> WellFormed(q)
    ensures Valid(p) ==> Valid(q)
  {
    match StepTarget(p, d)
    case None => p
    case Some((row, col)) =>
      MoveTilePreservesValid(p, row, col);
      MoveTile(p, row, col).value
  }

  /** The board after taking the shuffle steps `dirs` in order. */
  function Shuffle(p: Puzzle, dirs: seq<int>): (q: Puzzle)
    requires Shaped(p)
    ensures Shaped(q) && q.rows == p.rows && q.cols == p.cols
    ensures q.moveCount >= p.moveCount
    ensures WellFormed(p) ==> WellFormed(q)
    ensures Valid(p) ==> Valid(q)
    decreases |dirs|
  {
    if |dirs| == 0 then p
    else Shuffle(ShuffleStep(p, dirs[0]), dirs[1..])
  }

  /** The engine's shuffle loop over a supplied sequence of random draws. */
  method ShuffleTiles(p: Puzzle, dirs: seq<int>) returns (q: Puzzle)
    requires Valid(p)
    requires |dirs| == ShuffleLength(p.rows)
    ensures q == Shuffle(p, dirs)
    ensures Valid(q) && q.rows == p.rows && q.cols == p.cols
  {
    q := p;
    var n := ShuffleLength(p.rows);
    var i := 0;
    while i < n
      invariant 0 <= i <= n
      invariant Shaped(q)
      invariant Shuffle(q, dirs[i..]) == Shuffle(p, dirs)
    {
      q := ShuffleStep(q, dirs[i]);
      i := i + 1;
    }
  }

  /** The two-argument constructor: rejects boards smaller than 3 x 3, otherwise
      lays the tiles out, shuffles them with the draws `dirs` and zeroes the counter. */
  function Create(rows: int, cols: int, dirs: seq<int>): (r: Result<Puzzle>)
    requires rows >= 3 && cols >= 3 ==> |dirs| == ShuffleLength(rows)
    ensures r.Err? <==> rows < 3 || cols < 3
    ensures r.Err? ==> r.error == InvalidGridSize
    ensures r.Ok? ==> r.value.rows == rows && r.value.cols == cols
    ensures r.Ok? ==> Valid(r.value) && r.value.moveCount == 0
  {
    if rows < 3 || cols < 3 then Err(InvalidGridSize)
    else Ok(Shuffle(Initial(rows, cols), dirs).(moveCount := 0))
  }

  /** The no-argument constructor: a 3 x 3 board. */
  function CreateDefault(dirs: seq<int>): (r: Result<Puzzle>)
    requires |dirs| == ShuffleLength(ROWS)
    ensures r.Ok? && r.value.rows == 3 && r.value.cols == 3
    ensures Valid(r.value) && r.value.moveCount == 0
  {
    Create(ROWS, COLS, dirs)
  }

  // ---------------------------------------------------------------- solved

  /** The engine's per-cell test: a cell passes when its coordinate product equals
      the bottom-right one's, or when it holds its solved value. */
  predicate CellSolved(p: Puzzle, i: int, j: int)
    requires IsGrid(p.grid, p.rows, p.cols) && 0 <= i < p.rows && 0 <= j < p.cols
  {
    i * j == (p.rows - 1) * (p.cols - 1) || p.grid[i][j] == SolvedValue(p.rows, i, j)
  }

  /** The engine's solved query, as a property of every cell. */
  predicate Solved(p: Puzzle)
    requires IsGrid(p.grid, p.rows, p.cols)
  {
    forall i, j :: 0 <= i < p.rows && 0 <= j < p.cols ==> CellSolved(p, i, j)
  }

  /** Every cell except the bottom-right one holds its solved value. */
  predicate InOrder(p: Puzzle)
    requires IsGrid(p.grid, p.rows, p.cols)
  {
    forall i, j :: 0 <= i < p.rows && 0 <= j < p.cols && (i, j) != (p.rows - 1, p.cols - 1) ==>
      p.grid[i][j] == SolvedValue(p.rows, i, j)
  }

  /** In a grid of at least 2 x 2, the only cell whose coordinate product equals the
      bottom-right cell's is the bottom-right cell itself. */
  lemma CornerProduct(rows: int, cols: int, i: int, j: int)
    requires rows >= 2 && cols >= 2 && 0 <= i < rows && 0 <= j < cols
    ensures i * j == (rows - 1) * (cols - 1) <==> i == rows - 1 && j == cols - 1
  {
    if j < cols - 1 {
      MulMonotone(i, rows - 1, j);
      MulStrict(rows - 1, j, cols - 1);
    } else if i < rows - 1 {
      MulStrict(j, i, rows - 1);
    }
  }

  lemma MulMonotone(a: int, b: int, c: nat)
    requires a <= b
    ensures a * c <= b * c
  {
  }

  lemma MulSucc(x: int, n: int)
    ensures (x + 1) * n == x * n + n
  {
  }

  lemma MulStrict(a: int, b: int, c: int)
    requires a > 0 && b < c
    ensures a * b < a * c
  {
  }

  /** The product-based exclusion skips exactly the bottom-right cell, so the
      engine's solved test holds exactly when every other cell is in order. */
  lemma SolvedIffInOrder(p: Puzzle)
    requires IsGrid(p.grid, p.rows, p.cols) && p.rows >= 2 && p.cols >= 2
    ensures Solved(p) <==> InOrder(p)
  {
    forall i, j | 0 <= i < p.rows && 0 <= j < p.cols
      ensures CellSolved(p, i, j) <==> ((i, j) == (p.rows - 1, p.cols - 1) || p.grid[i][j] == SolvedValue(p.rows, i, j))
    {
      CornerProduct(p.rows, p.cols, i, j);
    }
  }

  /** The engine's nested loop for `solved()`, returning at the first mismatch. */
  method CheckSolved(p: Puzzle) returns (b: bool)
    requires IsGrid(p.grid, p.rows, p.cols)
    ensures b <==> Solved(p)
    ensures p.rows >= 2 && p.cols >= 2 ==> (b <==> InOrder(p))
  {
    if p.rows >= 2 && p.cols >= 2 {
      SolvedIffInOrder(p);
    }
    var i := 0;
    while i < p.rows
      invariant 0 <= i <= p.rows
      invariant forall k, l :: 0 <= k < i && 0 <= l < p.cols ==> CellSolved(p, k, l)
    {
      var j := 0;
      assert |p.grid[i]| == p.cols;
      while j < p.cols
        invariant 0 <= j <= p.cols
        invariant forall k, l :: 0 <= k < i && 0 <= l < p.cols ==> CellSolved(p, k, l)
        invariant forall l :: 0 <= l < j ==> CellSolved(p, i, l)
      {
        if i * j != (p.rows - 1) * (p.cols - 1) && p.grid[i][j] != 1 + i * p.rows + j {
          return false;
        }
        j := j + 1;
      }
      i := i + 1;
    }
    return true;
  }
}
