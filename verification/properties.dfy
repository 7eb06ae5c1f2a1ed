/** Properties of the engine that relate several calls: moves undo each other,
    a shuffled board can be played back to the ordered layout, the tracked empty
    cell is the only 0, and square boards hold each of 0 .. n*n-1 exactly once. */
module PuzzleProperties {
  import opened Board
  import opened Puzzle

  // ---------------------------------------------------------------- move sequences

  /** The engine after the successive calls `MoveTile(moves[0])`, `MoveTile(moves[1])`,
      ...; the first call that throws ends the sequence with its error. */
  function Play(p: Puzzle, moves: seq<(int, int)>): (r: Result<Puzzle>)
    requires Shaped(p)
    ensures r.Ok? ==> Shaped(r.value) && r.value.rows == p.rows && r.value.cols == p.cols
    ensures r.Ok? && Valid(p) ==> Valid(r.value)
    ensures (forall k :: 0 <= k < |moves| ==> 0 <= moves[k].0 < p.rows && 0 <= moves[k].1 < p.cols) ==> r.Ok?
    decreases |moves|
  {
    if |moves| == 0 then Ok(p)
    else
      MoveTilePreservesValid(p, moves[0].0, moves[0].1);
      match MoveTile(p, moves[0].0, moves[0].1)
      case Err(e) => Err(e)
      case Ok(q) => Play(q, moves[1..])
  }

  /** Two engine states agree on everything but the move counter. */
  predicate SameBoard(a: Puzzle, b: Puzzle) {
    && a.rows == b.rows && a.cols == b.cols
    && a.grid == b.grid
    && a.emptyRow == b.emptyRow && a.emptyCol == b.emptyCol
  }

  /** The counter never influences a move: states that agree on the board
      succeed or fail together and agree again afterwards. */
  lemma MoveTileIgnoresCounter(a: Puzzle, b: Puzzle, row: int, col: int)
    requires Shaped(a) && SameBoard(a, b)
    ensures Shaped(b)
    ensures MoveTile(a, row, col).Ok? <==> MoveTile(b, row, col).Ok?
    ensures MoveTile(a, row, col).Ok? ==> SameBoard(MoveTile(a, row, col).value, MoveTile(b, row, col).value)
  {
  }

  /** Nor does it influence a sequence of moves. */
  lemma {:induction false} PlayIgnoresCounter(a: Puzzle, b: Puzzle, moves: seq<(int, int)>)
    requires Shaped(a) && SameBoard(a, b)
    ensures Shaped(b)
    ensures Play(a, moves).Ok? <==> Play(b, moves).Ok?
    ensures Play(a, moves).Ok? ==> SameBoard(Play(a, moves).value, Play(b, moves).value)
    decreases |moves|
  {
    if |moves| > 0 {
      MoveTileIgnoresCounter(a, b, moves[0].0, moves[0].1);
      if MoveTile(a, moves[0].0, moves[0].1).Ok? {
        PlayIgnoresCounter(MoveTile(a, moves[0].0, moves[0].1).value, MoveTile(b, moves[0].0, moves[0].1).value, moves[1..]);
      }
    }
  }

  /** Playing two move lists one after the other is playing their concatenation. */
  lemma {:induction false} PlayAppend(p: Puzzle, a: seq<(int, int)>, b: seq<(int, int)>)
    requires Shaped(p)
    ensures Play(p, a + b) == match Play(p, a) case Ok(q) => Play(q, b) case Err(e) => Err(e)
    decreases |a|
  {
    if |a| == 0 {
      assert a + b == b;
    } else {
      assert (a + b)[1..] == a[1..] + b;
      match MoveTile(p, a[0].0, a[0].1)
      case Err(e) =>
      case Ok(q) =>
        PlayAppend(q, a[1..], b);
    }
  }

  // ---------------------------------------------------------------- undo and solvability

  /** Moving the tile back into the cell it came from restores the board and the
      empty position; the counter has grown by two. */
  lemma MoveTileUndo(p: Puzzle, row: int, col: int)
    requires Shaped(p) && p.grid[p.emptyRow][p.emptyCol] == EMPTY_TILE
    requires 0 <= row < p.rows && 0 <= col < p.cols && Adjacent(p, row, col)
    ensures MoveTile(MoveTile(p, row, col).value, p.emptyRow, p.emptyCol) == Ok(p.(moveCount := p.moveCount + 2))
  {
    var q := MoveTile(p, row, col).value;
    assert Adjacent(q, p.emptyRow, p.emptyCol);
    var r := MoveTile(q, p.emptyRow, p.emptyCol).value;
    GridExtensionality(r.grid, p.grid, p.rows, p.cols);
  }

  /** The moves that retrace the shuffle `dirs` from `p` backwards: for every
      step that moved, latest first, the cell that was empty before it. */
  function Retrace(p: Puzzle, dirs: seq<int>): (moves: seq<(int, int)>)
    requires Shaped(p)
    ensures |moves| <= |dirs|
    ensures forall k :: 0 <= k < |moves| ==> 0 <= moves[k].0 < p.rows && 0 <= moves[k].1 < p.cols
    decreases |dirs|
  {
    if |dirs| == 0 then []
    else
      var rest := Retrace(ShuffleStep(p, dirs[0]), dirs[1..]);
      match StepTarget(p, dirs[0])
      case None => rest
      case Some(_) => rest + [(p.emptyRow, p.emptyCol)]
  }

  /** One retracing step: if `back` leads from `s` to the board `p` has after the
      move to (row, col), then one more move into `p`'s empty cell leads to `p`'s board. */
  lemma RetraceStep(p: Puzzle, row: int, col: int, s: Puzzle, back: seq<(int, int)>)
    requires WellFormed(p) && 0 <= row < p.rows && 0 <= col < p.cols && Adjacent(p, row, col)
    requires Shaped(s)
    requires Play(s, back).Ok? && SameBoard(Play(s, back).value, MoveTile(p, row, col).value)
    ensures Play(s, back + [(p.emptyRow, p.emptyCol)]).Ok?
    ensures SameBoard(Play(s, back + [(p.emptyRow, p.emptyCol)]).value, p)
  {
    var q := MoveTile(p, row, col).value;
    var q' := Play(s, back).value;
    var x := (p.emptyRow, p.emptyCol);
    PlayAppend(s, back, [x]);
    MoveTileUndo(p, row, col);
    MoveTileIgnoresCounter(q, q', x.0, x.1);
    assert [x][1..] == [];
  }

  /** Every shuffle is reversible by legal moves: playing `Retrace` on the
      shuffled board restores the original board and empty cell. */
  lemma {:induction false} ShuffleRetrace(p: Puzzle, dirs: seq<int>)
    requires WellFormed(p)
    ensures Play(Shuffle(p, dirs), Retrace(p, dirs)).Ok?
    ensures SameBoard(Play(Shuffle(p, dirs), Retrace(p, dirs)).value, p)
    decreases |dirs|
  {
    if |dirs| > 0 {
      var q := ShuffleStep(p, dirs[0]);
      var s := Shuffle(q, dirs[1..]);
      var back := Retrace(q, dirs[1..]);
      assert Shuffle(p, dirs) == s;
      ShuffleRetrace(q, dirs[1..]);
      match StepTarget(p, dirs[0])
      case None =>
        assert Retrace(p, dirs) == back;
      case Some((row, col)) =>
        assert Retrace(p, dirs) == back + [(p.emptyRow, p.emptyCol)];
        RetraceStep(p, row, col, s, back);
    }
  }

  /** Every board the constructor produces can be solved: the retracing moves
      are all legal and lead back to the ordered layout with the corner empty. */
  lemma CreatedPuzzleIsSolvable(rows: int, cols: int, dirs: seq<int>)
    requires rows >= 3 && cols >= 3 && |dirs| == ShuffleLength(rows)
    ensures Create(rows, cols, dirs).Ok?
    ensures var r := Play(Create(rows, cols, dirs).value, Retrace(Initial(rows, cols), dirs));
      && r.Ok?
      && r.value.grid == Layout(rows, cols)
      && r.value.emptyRow == rows - 1 && r.value.emptyCol == cols - 1
      && Solved(r.value)
  {
    var p := Initial(rows, cols);
    var s := Shuffle(p, dirs);
    var back := Retrace(p, dirs);
    var c := Create(rows, cols, dirs).value;
    ShuffleRetrace(p, dirs);
    PlayIgnoresCounter(s, c, back);
    InitialIsSolved(rows, cols);
    SolvedSameBoard(Play(c, back).value, p);
  }

  /** A valid board whose other cells are all in order holds 0 in its corner: the
      corner takes the one value of the layout's multiset not yet used elsewhere. */
  lemma InOrderCornerIsEmpty(p: Puzzle)
    requires Valid(p) && InOrder(p)
    ensures p.grid[p.rows - 1][p.cols - 1] == EMPTY_TILE
  {
    var g := p.grid;
    var (r, c) := (p.rows - 1, p.cols - 1);
    var x := g[r][c];
    var h := Update(g, r, c, EMPTY_TILE);
    GridExtensionality(h, Layout(p.rows, p.cols), p.rows, p.cols);
    CellsUpdate(g, r, c, EMPTY_TILE);
    CellMember(g, r, c);
    if x != EMPTY_TILE {
      ExchangeCount(Cells(g), x, EMPTY_TILE, EMPTY_TILE);
      assert false;
    }
  }

  /** A valid board that passes the solved check is the ordered layout, with the
      empty cell tracked in the bottom-right corner: the check is a win test. */
  lemma SolvedIsLayout(p: Puzzle)
    requires Valid(p) && Solved(p)
    ensures p.grid == Layout(p.rows, p.cols)
    ensures p.emptyRow == p.rows - 1 && p.emptyCol == p.cols - 1
  {
    SolvedIffInOrder(p);
    InOrderCornerIsEmpty(p);
    GridExtensionality(p.grid, Layout(p.rows, p.cols), p.rows, p.cols);
    EmptyCellIsUnique(p);
  }

  /** The solved test reads only the board, not the counter. */
  lemma SolvedSameBoard(a: Puzzle, b: Puzzle)
    requires IsGrid(b.grid, b.rows, b.cols) && SameBoard(a, b) && Solved(b)
    ensures IsGrid(a.grid, a.rows, a.cols) && Solved(a)
  {
    forall i, j | 0 <= i < a.rows && 0 <= j < a.cols
      ensures CellSolved(a, i, j)
    {
      assert CellSolved(b, i, j);
    }
  }

  // ---------------------------------------------------------------- layout and solved

  /** The unshuffled board passes the solved test, with the empty cell in the corner. */
  lemma InitialIsSolved(rows: int, cols: int)
    requires rows >= 3 && cols >= 3
    ensures Solved(Initial(rows, cols)) && InOrder(Initial(rows, cols))
    ensures Initial(rows, cols).grid[rows - 1][cols - 1] == EMPTY_TILE
  {
    SolvedIffInOrder(Initial(rows, cols));
  }

  /** Cells (i, j) and (k, l) of a square board have different solved values. */
  lemma SolvedValueInjective(n: int, i: int, j: int, k: int, l: int)
    requires 0 <= i < n && 0 <= j < n && 0 <= k < n && 0 <= l < n && (i, j) != (k, l)
    ensures SolvedValue(n, i, j) != SolvedValue(n, k, l)
  {
    if i < k {
      MulMonotone(i + 1, k, n);
      MulSucc(i, n);
    } else if k < i {
      MulMonotone(k + 1, i, n);
      MulSucc(k, n);
    }
  }

  /** On a solved square board, exchanging two distinct tiles makes the solved test fail. */
  lemma SwapUnsolves(n: int, i: int, j: int, k: int, l: int)
    requires n >= 3 && 0 <= i < n && 0 <= j < n && 0 <= k < n && 0 <= l < n && (i, j) != (k, l)
    requires (i, j) != (n - 1, n - 1) && (k, l) != (n - 1, n - 1)
    ensures !Solved(Initial(n, n).(grid := Swap(Layout(n, n), i, j, k, l)))
  {
    var p := Initial(n, n).(grid := Swap(Layout(n, n), i, j, k, l));
    SolvedValueInjective(n, i, j, k, l);
    assert p.grid[i][j] != SolvedValue(n, i, j);
    SolvedIffInOrder(p);
  }

  /** With the engine's `rows` stride, a board wider than tall repeats a value:
      cell (0, rows) and cell (1, 0) both hold rows + 1. */
  lemma WideLayoutRepeatsValue(rows: int, cols: int)
    requires 3 <= rows < cols
    ensures Layout(rows, cols)[0][rows] == Layout(rows, cols)[1][0] == rows + 1
  {
  }

  // ---------------------------------------------------------------- values on the board

  /** Before the corner is emptied, no cell of the layout holds 0. */
  lemma FillHasNoEmpty(rows: int, cols: int)
    requires rows >= 1 && cols >= 1
    ensures EMPTY_TILE !in Cells(Fill(rows, cols))
  {
    var f := Fill(rows, cols);
    forall i, j | InBounds(f, i, j)
      ensures f[i][j] != EMPTY_TILE
    {
      MulMonotone(0, i, rows);
    }
    CellsAbsent(f, EMPTY_TILE);
  }

  /** The largest value of Java's 32-bit `int`. */
  const INT_MAX := 0x7fff_ffff

  /** If the largest filled value, (rows-1)*rows + cols, fits in 32 bits, then no
      filled value wraps around. */
  lemma LayoutFitsInt(rows: int, cols: int)
    requires rows >= 1 && cols >= 1 && (rows - 1) * rows + cols <= INT_MAX
    ensures forall i, j :: 0 <= i < rows && 0 <= j < cols ==> 1 <= SolvedValue(rows, i, j) <= INT_MAX
  {
    forall i, j | 0 <= i < rows && 0 <= j < cols
      ensures 1 <= SolvedValue(rows, i, j) <= INT_MAX
    {
      MulMonotone(0, i, rows);
      MulMonotone(i, rows - 1, rows);
    }
  }

  /** Every size the game offers, 3 .. 10 on a square board, fits: the layout
      values and the shuffle length `1000 * rows` stay within 32 bits. */
  lemma OfferedSizesFitInt(n: int)
    requires 3 <= n <= 10
    ensures ShuffleLength(n) <= INT_MAX
    ensures forall i, j :: 0 <= i < n && 0 <= j < n ==> 1 <= SolvedValue(n, i, j) <= INT_MAX
  {
    MulMonotone(n - 1, 9, n);
    MulMonotone(n, 10, 9);
    LayoutFitsInt(n, n);
  }

  /** The ordered layout holds exactly one 0, in the corner. */
  lemma LayoutHasOneEmpty(rows: int, cols: int)
    requires rows >= 1 && cols >= 1
    ensures Cells(Layout(rows, cols))[EMPTY_TILE] == 1
  {
    var f := Fill(rows, cols);
    FillHasNoEmpty(rows, cols);
    CellMember(f, rows - 1, cols - 1);
    CellsUpdate(f, rows - 1, cols - 1, EMPTY_TILE);
    ExchangeCount(Cells(f), f[rows - 1][cols - 1], EMPTY_TILE, EMPTY_TILE);
  }

  /** On a valid board the tracked empty cell is the only cell holding 0. */
  lemma EmptyCellIsUnique(p: Puzzle)
    requires Valid(p)
    ensures Cells(p.grid)[EMPTY_TILE] == 1
    ensures forall i, j :: 0 <= i < p.rows && 0 <= j < p.cols ==>
      (p.grid[i][j] == EMPTY_TILE <==> i == p.emptyRow && j == p.emptyCol)
  {
    LayoutHasOneEmpty(p.rows, p.cols);
    forall i, j | 0 <= i < p.rows && 0 <= j < p.cols && (i, j) != (p.emptyRow, p.emptyCol)
      ensures p.grid[i][j] != EMPTY_TILE
    {
      SingleCopy(p.grid, p.emptyRow, p.emptyCol, i, j);
    }
  }

  /** The tiles of rows a .. a+m-1 of an n-wide square layout, before the corner is emptied. */
  function Block(a: nat, m: nat, n: nat): (g: Grid)
    ensures IsGrid(g, m, n)
    ensures forall i, j :: 0 <= i < m && 0 <= j < n ==> g[i][j] == 1 + (a + i) * n + j
  {
    seq(m, i => seq(n, j => 1 + (a + i) * n + j))
  }

  /** A run of n consecutive values holds each of them once. */
  lemma {:induction false} RunCount(b: int, n: nat, v: int)
    ensures multiset(seq(n, j => b + j))[v] == if b <= v < b + n then 1 else 0
  {
    if n > 0 {
      assert seq(n, j => b + j) == seq(n - 1, j => b + j) + [b + n - 1];
      RunCount(b, n - 1, v);
    }
  }

  /** A block is its first row followed by the block of the remaining rows. */
  lemma BlockSplit(a: nat, m: nat, n: nat)
    requires m > 0
    ensures Block(a, m, n)[0] == seq(n, j => (1 + a * n) + j)
    ensures Block(a, m, n)[1..] == Block(a + 1, m - 1, n)
  {
    var g := Block(a, m, n);
    GridExtensionality(g[1..], Block(a + 1, m - 1, n), m - 1, n);
  }

  /** Counting membership of two adjacent ranges adds up to the joined range. */
  lemma RangeSum(lo: int, mid: int, hi: int, v: int)
    requires lo <= mid <= hi
    ensures (if lo <= v < mid then 1 else 0) + (if mid <= v < hi then 1 else 0) == (if lo <= v < hi then 1 else 0)
  {
  }

  /** Rows a .. a+m-1 of a square layout hold each of 1 + a*n .. a*n + m*n once. */
  lemma {:induction false} BlockCount(a: nat, m: nat, n: nat, v: int)
    ensures Cells(Block(a, m, n))[v] == if 1 + a * n <= v < 1 + a * n + m * n then 1 else 0
    decreases m
  {
    var g := Block(a, m, n);
    if m > 0 {
      var lo, hi := 1 + a * n, 1 + a * n + m * n;
      var mid := lo + n;
      var row := seq(n, j => lo + j);
      BlockSplit(a, m, n);
      RunCount(lo, n, v);
      BlockCount(a + 1, m - 1, n, v);
      MulSucc(a, n);
      MulSucc(m - 1, n);
      assert mid == 1 + (a + 1) * n && hi == mid + (m - 1) * n;
      MulMonotone(0, m - 1, n);
      RangeSum(lo, mid, hi, v);
      assert Cells(g)[v] == multiset(row)[v] + Cells(Block(a + 1, m - 1, n))[v];
    }
  }

  /** A square filled board holds each of 1 .. n*n exactly once. */
  lemma SquareFillValues(n: nat, v: int)
    ensures Cells(Fill(n, n))[v] == if 1 <= v < 1 + n * n then 1 else 0
  {
    GridExtensionality(Fill(n, n), Block(0, n, n), n, n);
    BlockCount(0, n, n, v);
  }

  /** The corner of a square fill holds the largest tile, n*n. */
  lemma SquareFillCorner(n: int)
    requires n >= 1
    ensures Fill(n, n)[n - 1][n - 1] == n * n
  {
    MulSucc(n - 1, n);
  }

  /** Setting the corner of a square fill to 0 trades its value n*n for the empty tile. */
  lemma SquareLayoutCells(n: int)
    requires n >= 1
    ensures Cells(Layout(n, n)) == Cells(Fill(n, n)) - multiset{n * n} + multiset{EMPTY_TILE}
  {
    SquareFillCorner(n);
    CellsUpdate(Fill(n, n), n - 1, n - 1, EMPTY_TILE);
  }

  /** How one removal and one insertion change the count of each value. */
  lemma ExchangeCount(m: multiset<int>, a: int, b: int, v: int)
    requires m[a] >= 1 && a != b
    ensures (m - multiset{a} + multiset{b})[v] == if v == a then m[v] - 1 else if v == b then m[v] + 1 else m[v]
  {
  }

  /** A square unshuffled board holds each of 0 .. n*n-1 exactly once. */
  lemma SquareLayoutValues(n: int, v: int)
    requires n >= 1
    ensures Cells(Layout(n, n))[v] == if 0 <= v < n * n then 1 else 0
  {
    var last := n * n;
    SquareLayoutCells(n);
    SquareFillValues(n, last);
    SquareFillValues(n, v);
    ExchangeCount(Cells(Fill(n, n)), last, EMPTY_TILE, v);
  }

  /** Every valid square board, shuffled or played, holds each of 0 .. n*n-1 exactly once. */
  lemma SquareBoardValues(p: Puzzle, v: int)
    requires Valid(p) && p.rows == p.cols
    ensures Cells(p.grid)[v] == if 0 <= v < p.rows * p.rows then 1 else 0
  {
    SquareLayoutValues(p.rows, v);
  }

  // ---------------------------------------------------------------- a worked example

  /** A 3 x 3 board one move from solved: sliding 8 left solves it in one counted move. */
  lemma OneMoveFromSolved()
    ensures var p := Puzzle(3, 3, [[1, 2, 3], [4, 5, 6], [7, 0, 8]], 2, 1, 0);
      var q := Puzzle(3, 3, [[1, 2, 3], [4, 5, 6], [7, 8, 0]], 2, 2, 1);
      MoveTile(p, 2, 2) == Ok(q) && Solved(q) && !Solved(p)
  {
    var p := Puzzle(3, 3, [[1, 2, 3], [4, 5, 6], [7, 0, 8]], 2, 1, 0);
    var q := Puzzle(3, 3, [[1, 2, 3], [4, 5, 6], [7, 8, 0]], 2, 2, 1);
    assert Adjacent(p, 2, 2);
    var r := MoveTile(p, 2, 2).value;
    GridExtensionality(r.grid, q.grid, 3, 3);
    assert !CellSolved(p, 2, 1);
    SolvedIffInOrder(q);
  }
}
