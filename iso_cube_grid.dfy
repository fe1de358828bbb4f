/**
 * The isometric cube grid: `rows * cols` cubes placed on a square lattice in a
 * container just large enough for them, each animated after a delay that grows
 * with its distance from the top-left corner.
 */
module IsoCubeGrid {
  import Arith

  const DefaultRows: nat := 3
  const DefaultCols: nat := 5
  const DefaultCell: real := 100.0
  const DefaultCube: real := 80.0
  const DefaultBaseDelay: real := 0.2

  /** One cube: its id, position in pixels and animation delay in seconds. */
  datatype CubeItem = CubeItem(id: nat, left: real, top: real, delay: real)

  /** `(cols - 1) * cell + cube`. */
  function Width(cols: nat, cell: real, cube: real): real {
    ((cols as int) - 1) as real * cell + cube
  }

  /** `(rows - 1) * cell + cube`. */
  function Height(rows: nat, cell: real, cube: real): real {
    ((rows as int) - 1) as real * cell + cube
  }

  /** `cube / 2 - 0.2`: how far each face is pushed out from the cube's centre. */
  function Half(cube: real): real {
    cube / 2.0 - 0.2
  }

  // ---------------------------------------------------------------------------
  // Grid positions

  /** `[Math.floor(i / cols), i % cols]`. */
  function RowCol(i: nat, cols: nat): (rc: (nat, nat))
    requires cols > 0
    ensures rc.1 < cols
  {
    (i / cols, i % cols)
  }

  /** The id of the cube in row `r`, column `c`. */
  function IndexOf(r: nat, c: nat, cols: nat): nat {
    r * cols + c
  }

  /** Every id below `rows * cols` lands inside the grid, and `IndexOf` gives it back. */
  lemma RowColInGrid(i: nat, rows: nat, cols: nat)
    requires cols > 0 && i < rows * cols
    ensures RowCol(i, cols).0 < rows
    ensures IndexOf(RowCol(i, cols).0, RowCol(i, cols).1, cols) == i
  {
    Arith.DivModSplit(i, cols);
    if i / cols >= rows {
      Arith.MulMonotone(i / cols, rows, cols);
      assert false;
    }
  }

  /** Every lattice position is reached by exactly the id `IndexOf` gives it. */
  lemma IndexOfInGrid(r: nat, c: nat, rows: nat, cols: nat)
    requires r < rows && c < cols
    ensures IndexOf(r, c, cols) < rows * cols
    ensures RowCol(IndexOf(r, c, cols), cols) == (r, c)
  {
    Arith.MulMonotone(rows, r + 1, cols);
    Arith.DivMod(r, c, cols);
  }

  /** Two ids with the same row and column are the same id. */
  lemma RowColInjective(i: nat, j: nat, cols: nat)
    requires cols > 0 && RowCol(i, cols) == RowCol(j, cols)
    ensures i == j
  {
    Arith.DivModSplit(i, cols);
    Arith.DivModSplit(j, cols);
  }

  /** `baseDelay * (1 + row + col)`. */
  function Delay(baseDelay: real, r: nat, c: nat): real {
    baseDelay * (1 + r + c) as real
  }

  /** The cube `i` of the `Array.from` mapping. */
  function Cube(i: nat, cols: nat, cell: real, baseDelay: real): CubeItem
    requires cols > 0
  {
    var (r, c) := RowCol(i, cols);
    CubeItem(i, c as real * cell, r as real * cell, Delay(baseDelay, r, c))
  }

  /** `items`: one cube per id `0 .. rows * cols - 1`, in order. */
  function Items(rows: nat, cols: nat, cell: real, baseDelay: real): (r: seq<CubeItem>)
    ensures |r| == rows * cols
    ensures forall i :: 0 <= i < |r| ==> cols > 0 && r[i] == Cube(i, cols, cell, baseDelay)
  {
    if cols == 0 then []
    else seq(rows * cols, i requires 0 <= i < rows * cols => Cube(i, cols, cell, baseDelay))
  }

  /** The ids of the cubes are `0, 1, ..., rows * cols - 1`. */
  lemma ItemIds(rows: nat, cols: nat, cell: real, baseDelay: real, i: nat)
    requires i < rows * cols
    ensures Items(rows, cols, cell, baseDelay)[i].id == i
  {
  }

  // ---------------------------------------------------------------------------
  // Container and stagger

  /** `(n - 1 - k) * cell` is non-negative for `k < n` and a non-negative cell. */
  lemma SlackNonneg(n: nat, k: nat, cell: real)
    requires k < n && cell >= 0.0
    ensures ((n as int) - 1) as real * cell - k as real * cell >= 0.0
  {
    var d := (n - 1 - k) as real;
    assert ((n as int) - 1) as real * cell - k as real * cell == d * cell;
    assert d * cell >= 0.0;
  }

  /**
   * With a non-negative spacing every cube lies inside the container: its left
   * and top edges are non-negative and it ends no further than the width and height.
   */
  lemma CubeInside(rows: nat, cols: nat, cell: real, cube: real, baseDelay: real, i: nat)
    requires i < rows * cols && cell >= 0.0
    ensures var it := Items(rows, cols, cell, baseDelay)[i];
      0.0 <= it.left && it.left + cube <= Width(cols, cell, cube) &&
      0.0 <= it.top && it.top + cube <= Height(rows, cell, cube)
  {
    var (r, c) := RowCol(i, cols);
    RowColInGrid(i, rows, cols);
    SlackNonneg(cols, c, cell);
    SlackNonneg(rows, r, cell);
    assert c as real * cell >= 0.0 && r as real * cell >= 0.0;
  }

  /** Cubes on one anti-diagonal start together; a step right or down waits one `baseDelay` longer. */
  lemma DelayStagger(baseDelay: real, r: nat, c: nat, r2: nat, c2: nat)
    ensures r + c == r2 + c2 ==> Delay(baseDelay, r, c) == Delay(baseDelay, r2, c2)
    ensures Delay(baseDelay, r, c + 1) == Delay(baseDelay, r, c) + baseDelay
    ensures Delay(baseDelay, r + 1, c) == Delay(baseDelay, r, c) + baseDelay
  {
  }

  /** The default grid: 15 cubes in a 480 by 280 pixel container, the first waiting 0.2 s. */
  lemma DefaultGrid()
    ensures |Items(DefaultRows, DefaultCols, DefaultCell, DefaultBaseDelay)| == 15
    ensures Width(DefaultCols, DefaultCell, DefaultCube) == 480.0
    ensures Height(DefaultRows, DefaultCell, DefaultCube) == 280.0
    ensures Items(DefaultRows, DefaultCols, DefaultCell, DefaultBaseDelay)[0].delay == 0.2
  {
  }
}
