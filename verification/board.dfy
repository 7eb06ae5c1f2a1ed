/** Rectangular integer grids stored as sequences of rows, the multiset of
    their values, and how single-cell updates and swaps change it. */
module Board {

  type Grid = seq<seq<int>>

  /** `g` has exactly `rows` rows of exactly `cols` cells each. */
  predicate IsGrid(g: Grid, rows: int, cols: int) {
    |g| == rows && forall i :: 0 <= i < |g| ==> |g[i]| == cols
  }

  /** (i, j) addresses a cell of `g`. */
  predicate InBounds(g: Grid, i: int, j: int) {
    0 <= i < |g| && 0 <= j < |g[i]|
  }

  /** The multiset of all values held by the grid, row by row. */
  function Cells(g: Grid): multiset<int> {
    if |g| == 0 then multiset{} else multiset(g[0]) + Cells(g[1..])
  }

  /** The grid with cell (i, j) overwritten by `v`: only that cell changes. */
  function Update(g: Grid, i: int, j: int, v: int): (h: Grid)
    requires InBounds(g, i, j)
    ensures |h| == |g| && forall k :: 0 <= k < |g| ==> |h[k]| == |g[k]|
    ensures h[i][j] == v
    ensures forall k, l :: InBounds(g, k, l) && (k, l) != (i, j) ==> h[k][l] == g[k][l]
  {
    g[i := g[i][j := v]]
  }

  /** Two grids of the same shape that agree on every cell are equal. */
  lemma GridExtensionality(g: Grid, h: Grid, rows: int, cols: int)
    requires IsGrid(g, rows, cols) && IsGrid(h, rows, cols)
    requires forall i, j :: 0 <= i < rows && 0 <= j < cols ==> g[i][j] == h[i][j]
    ensures g == h
  {
    forall i | 0 <= i < rows
      ensures g[i] == h[i]
    {
      assert forall j :: 0 <= j < cols ==> g[i][j] == h[i][j];
    }
  }

  /** Every cell's value occurs in the grid's multiset. */
  lemma {:induction false} CellMember(g: Grid, i: int, j: int)
    requires InBounds(g, i, j)
    ensures g[i][j] in Cells(g)
  {
    if i == 0 {
      assert g[0][j] in g[0];
    } else {
      CellMember(g[1..], i - 1, j);
    }
  }

  /** A value held by no cell does not occur in the grid's multiset. */
  lemma {:induction false} CellsAbsent(g: Grid, v: int)
    requires forall i, j :: InBounds(g, i, j) ==> g[i][j] != v
    ensures v !in Cells(g)
  {
    if |g| > 0 {
      assert forall i, j :: InBounds(g[1..], i, j) ==> g[1..][i][j] == g[i + 1][j];
      CellsAbsent(g[1..], v);
      assert v !in g[0] by {
        assert forall j :: 0 <= j < |g[0]| ==> g[0][j] != v;
      }
    }
  }

  /** Overwriting one element of a row removes one copy of the old value and adds the new one. */
  lemma RowUpdate(r: seq<int>, j: int, v: int)
    requires 0 <= j < |r|
    ensures multiset(r[j := v]) == multiset(r) - multiset{r[j]} + multiset{v}
  {
    assert r[j] in r;
  }

  /** Replacing a copy of `x` by `v` in one part of a sum replaces it in the sum. */
  lemma ReplaceInSum(a: multiset<int>, b: multiset<int>, x: int, v: int)
    requires x in a || x in b
    ensures x in a ==> (a - multiset{x} + multiset{v}) + b == (a + b) - multiset{x} + multiset{v}
    ensures x in b ==> a + (b - multiset{x} + multiset{v}) == (a + b) - multiset{x} + multiset{v}
  {
  }

  /** Overwriting a cell of the first row: the rest of the grid is untouched. */
  lemma CellsUpdateFirstRow(g: Grid, j: int, v: int)
    requires InBounds(g, 0, j)
    ensures Cells(Update(g, 0, j, v)) == Cells(g) - multiset{g[0][j]} + multiset{v}
  {
    var h := Update(g, 0, j, v);
    assert h[1..] == g[1..];
    RowUpdate(g[0], j, v);
    assert g[0][j] in multiset(g[0]);
    ReplaceInSum(multiset(g[0]), Cells(g[1..]), g[0][j], v);
  }

  /** Overwriting one cell removes one copy of the old value and adds the new one. */
  lemma {:induction false} CellsUpdate(g: Grid, i: int, j: int, v: int)
    requires InBounds(g, i, j)
    ensures Cells(Update(g, i, j, v)) == Cells(g) - multiset{g[i][j]} + multiset{v}
  {
    if i == 0 {
      CellsUpdateFirstRow(g, j, v);
    } else {
      var h := Update(g, i, j, v);
      assert h[0] == g[0];
      assert h[1..] == Update(g[1..], i - 1, j, v);
      CellsUpdate(g[1..], i - 1, j, v);
      CellMember(g[1..], i - 1, j);
      ReplaceInSum(multiset(g[0]), Cells(g[1..]), g[i][j], v);
    }
  }

  /** A value the multiset holds only once sits in one cell: every other cell differs from it. */
  lemma SingleCopy(g: Grid, i: int, j: int, k: int, l: int)
    requires InBounds(g, i, j) && InBounds(g, k, l) && (i, j) != (k, l)
    requires Cells(g)[g[i][j]] == 1
    ensures g[k][l] != g[i][j]
  {
    var v := g[i][j];
    var h := Update(g, i, j, v + 1);
    CellsUpdate(g, i, j, v + 1);
    CellMember(h, k, l);
    assert Cells(h)[v] == 0;
  }

  /** Exchanging the values of two cells. */
  function Swap(g: Grid, i: int, j: int, k: int, l: int): (h: Grid)
    requires InBounds(g, i, j) && InBounds(g, k, l)
    ensures |h| == |g| && forall m :: 0 <= m < |g| ==> |h[m]| == |g[m]|
    ensures h[i][j] == g[k][l] && h[k][l] == g[i][j]
    ensures forall m, n :: InBounds(g, m, n) && (m, n) != (i, j) && (m, n) != (k, l) ==> h[m][n] == g[m][n]
  {
    Update(Update(g, i, j, g[k][l]), k, l, g[i][j])
  }

  /** Trading a copy of `a` for `b` and then `b` back for `a` restores the multiset. */
  lemma ExchangeBack(m: multiset<int>, a: int, b: int)
    requires a in m
    ensures m - multiset{a} + multiset{b} - multiset{b} + multiset{a} == m
  {
    var m1 := m - multiset{a} + multiset{b};
    assert m1 - multiset{b} == m - multiset{a};
  }

  /** A swap permutes the grid: its multiset of values is unchanged. */
  lemma SwapCells(g: Grid, i: int, j: int, k: int, l: int)
    requires InBounds(g, i, j) && InBounds(g, k, l)
    ensures Cells(Swap(g, i, j, k, l)) == Cells(g)
  {
    var a, b := g[i][j], g[k][l];
    var g1 := Update(g, i, j, b);
    CellsUpdate(g, i, j, b);
    CellsUpdate(g1, k, l, a);
    CellMember(g, i, j);
    ExchangeBack(Cells(g), a, b);
  }
}
