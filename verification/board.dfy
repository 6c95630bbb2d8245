/**
 * The data model of the Minesweeper engine: a 16 x 30 grid addressed by a flat index
 * 0..479, the value a snapshot shows in each cell, and the grid geometry (rows,
 * columns, edges, adjacency).
 */
module Board {

  const Rows: nat := 16
  const Cols: nat := 30
  /** Rows * Cols. */
  const Cells: nat := 480
  const MineCount: nat := 99

  /**
   * What one cell of a snapshot shows. The source stores `null` (Hidden), the flag
   * emoji (Flagged), the bomb emoji (Mine), the empty string (Count(0)) and a number
   * 1..8 (Count(n)).
   */
  datatype Cell = Hidden | Flagged | Count(n: nat) | Mine

  /** The visibility of the whole board at one point in history. */
  type Snapshot = seq<Cell>

  predicate ValidIndex(i: int) {
    0 <= i < Cells
  }

  function Row(i: int): int {
    i / Cols
  }

  function Col(i: int): int {
    i % Cols
  }

  predicate LeftEdge(i: int) {
    Col(i) == 0
  }

  predicate RightEdge(i: int) {
    Col(i) == Cols - 1
  }

  /**
   * Reference adjacency: two distinct cells of the board whose rows and whose
   * columns each differ by at most one.
   */
  predicate Adjacent(i: int, j: int) {
    && ValidIndex(i)
    && ValidIndex(j)
    && i != j
    && -1 <= Row(i) - Row(j) <= 1
    && -1 <= Col(i) - Col(j) <= 1
  }

  /** Rows and columns of a cell are determined by the cell index. */
  lemma RowColOf(j: int, r: int, c: int)
    requires 0 <= c < Cols
    requires j == Cols * r + c
    ensures Row(j) == r && Col(j) == c
  {
  }

  /**
   * The eight neighbours the engine inspects, each under the guard it uses, are
   * exactly the cells adjacent to `i`: nothing wraps across the left or right
   * column and nothing leaves the board at the top or the bottom.
   */
  lemma AdjacentIffGuardedOffset(i: int, j: int)
    requires ValidIndex(i)
    ensures Adjacent(i, j) <==>
              || (i - Cols >= 0 && !LeftEdge(i) && j == i - Cols - 1)
              || (i - Cols >= 0 && j == i - Cols)
              || (i - Cols >= 0 && !RightEdge(i) && j == i - Cols + 1)
              || (!LeftEdge(i) && j == i - 1)
              || (!RightEdge(i) && j == i + 1)
              || (i + Cols <= Cells - 1 && !LeftEdge(i) && j == i + Cols - 1)
              || (i + Cols <= Cells - 1 && j == i + Cols)
              || (i + Cols <= Cells - 1 && !RightEdge(i) && j == i + Cols + 1)
  {
    var r, c := Row(i), Col(i);
    assert i == Cols * r + c;
    assert 0 <= r < Rows;
    if Adjacent(i, j) {
      var rj, cj := Row(j), Col(j);
      assert j == Cols * rj + cj;
      assert 0 <= rj < Rows;
    }
    if i - Cols >= 0 {
      if !LeftEdge(i) { RowColOf(i - Cols - 1, r - 1, c - 1); }
      RowColOf(i - Cols, r - 1, c);
      if !RightEdge(i) { RowColOf(i - Cols + 1, r - 1, c + 1); }
    }
    if !LeftEdge(i) { RowColOf(i - 1, r, c - 1); }
    if !RightEdge(i) { RowColOf(i + 1, r, c + 1); }
    if i + Cols <= Cells - 1 {
      if !LeftEdge(i) { RowColOf(i + Cols - 1, r + 1, c - 1); }
      RowColOf(i + Cols, r + 1, c);
      if !RightEdge(i) { RowColOf(i + Cols + 1, r + 1, c + 1); }
    }
  }
}
