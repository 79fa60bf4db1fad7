/** Cell coordinates, the two neighbourhood conditions of the maze and the
    clamped 3x3 window scan that lists a cell's neighbours. */
module Geometry {

  /** A cell of the table, addressed by row and column. */
  datatype Pos = Pos(row: int, col: int)

  /** The two neighbourhood conditions a maze can be built with. */
  datatype Neighborhood = Orthogonal | OrthoDiagonal

  function Min(a: int, b: int): int { if a < b then a else b }
  function Max(a: int, b: int): int { if a < b then b else a }

  /** The neighbourhood condition, called as the source calls it: the cell's
      column and row first, then the candidate's column and row.
      Orthogonal is the von Neumann neighbourhood, OrthoDiagonal the Moore one;
      neither looks at the distance, the window scan bounds it. */
  predicate Condition(mode: Neighborhood, cellX: int, cellY: int, neighbourX: int, neighbourY: int)
  {
    match mode
    case Orthogonal =>
      (neighbourY == cellY && neighbourX != cellX) || (neighbourY != cellY && neighbourX == cellX)
    case OrthoDiagonal =>
      neighbourY != cellY || neighbourX != cellX
  }

  predicate InBounds(size: int, p: Pos)
  {
    0 <= p.row < size && 0 <= p.col < size
  }

  /** p lies in the 3x3 window centred on c (Chebyshev distance at most 1). */
  predicate InWindow(c: Pos, p: Pos)
  {
    -1 <= p.row - c.row <= 1 && -1 <= p.col - c.col <= 1
  }

  /** p is one of the neighbours the maze lists for c. */
  predicate Adjacent(mode: Neighborhood, size: int, c: Pos, p: Pos)
  {
    InBounds(size, c) && InBounds(size, p) && InWindow(c, p) && Condition(mode, c.col, c.row, p.col, p.row)
  }

  /** Neither condition relates a cell to itself, and both are symmetric. */
  lemma ConditionIrreflexiveSymmetric(mode: Neighborhood, x: int, y: int, nx: int, ny: int)
    ensures !Condition(mode, x, y, x, y)
    ensures Condition(mode, x, y, nx, ny) <==> Condition(mode, nx, ny, x, y)
  {
  }

  /** Inside the window, Orthogonal holds exactly for the cells that differ
      in one coordinate, OrthoDiagonal for every other cell, so the
      Orthogonal neighbours are among the OrthoDiagonal ones. */
  lemma ConditionInWindow(c: Pos, p: Pos)
    requires InWindow(c, p)
    ensures Condition(Orthogonal, c.col, c.row, p.col, p.row) <==> (c.row == p.row) != (c.col == p.col)
    ensures Condition(OrthoDiagonal, c.col, c.row, p.col, p.row) <==> p != c
    ensures Condition(Orthogonal, c.col, c.row, p.col, p.row) ==> Condition(OrthoDiagonal, c.col, c.row, p.col, p.row)
  {
  }

  lemma AdjacentSymmetric(mode: Neighborhood, size: int, c: Pos, p: Pos)
    ensures Adjacent(mode, size, c, p) <==> Adjacent(mode, size, p, c)
    ensures !Adjacent(mode, size, c, c)
  {
  }

  // ---------------------------------------------------------------------
  // The window scan of cellNeighbours, as a specification
  // ---------------------------------------------------------------------

  /** The last row and column of c's window, clamped to the table. */
  function LastRow(size: int, c: Pos): int { Min(c.row + 1, size - 1) }
  function LastCol(size: int, c: Pos): int { Min(c.col + 1, size - 1) }

  /** The cells of row i, from column j to the window's last column, that
      satisfy the condition against c, left to right. */
  function RowScan(mode: Neighborhood, size: int, c: Pos, i: int, j: int): seq<Pos>
    decreases LastCol(size, c) + 1 - j
  {
    if j > LastCol(size, c) then []
    else (if Condition(mode, c.col, c.row, j, i) then [Pos(i, j)] else []) + RowScan(mode, size, c, i, j + 1)
  }

  /** The rows of c's window from row i on, top to bottom. */
  function WindowScan(mode: Neighborhood, size: int, c: Pos, i: int): seq<Pos>
    decreases LastRow(size, c) + 1 - i
  {
    if i > LastRow(size, c) then []
    else RowScan(mode, size, c, i, Max(c.col - 1, 0)) + WindowScan(mode, size, c, i + 1)
  }

  /** The neighbours of c in the order the maze scans them. */
  function Neighbours(mode: Neighborhood, size: int, c: Pos): seq<Pos>
  {
    WindowScan(mode, size, c, Max(c.row - 1, 0))
  }

  /** One step of the row scan, as the maze's loop takes it: the cell at
      column j moves from the rest of the row onto the list when it passes. */
  lemma RowScanNext(mode: Neighborhood, size: int, c: Pos, i: int, j: int, ns: seq<Pos>, below: seq<Pos>)
    requires j <= LastCol(size, c)
    ensures ns + RowScan(mode, size, c, i, j) + below ==
      (if Condition(mode, c.col, c.row, j, i) then ns + [Pos(i, j)] else ns) + RowScan(mode, size, c, i, j + 1) + below
  {
    var rest := RowScan(mode, size, c, i, j + 1);
    if Condition(mode, c.col, c.row, j, i) {
      assert ns + ([Pos(i, j)] + rest) + below == (ns + [Pos(i, j)]) + rest + below;
    }
  }

  lemma WindowScanNext(mode: Neighborhood, size: int, c: Pos, i: int, ns: seq<Pos>)
    requires i <= LastRow(size, c)
    ensures ns + WindowScan(mode, size, c, i) == ns + RowScan(mode, size, c, i, Max(c.col - 1, 0)) + WindowScan(mode, size, c, i + 1)
  {
  }

  lemma RowScanEnd(mode: Neighborhood, size: int, c: Pos, i: int, j: int, ns: seq<Pos>, below: seq<Pos>)
    requires j > LastCol(size, c)
    ensures ns + RowScan(mode, size, c, i, j) + below == ns + below
  {
  }

  lemma {:induction false} RowScanMembers(mode: Neighborhood, size: int, c: Pos, i: int, j: int, p: Pos)
    ensures p in RowScan(mode, size, c, i, j) <==>
      p.row == i && j <= p.col <= LastCol(size, c) && Condition(mode, c.col, c.row, p.col, p.row)
    decreases LastCol(size, c) + 1 - j
  {
    if j <= LastCol(size, c) {
      RowScanMembers(mode, size, c, i, j + 1, p);
    }
  }

  lemma {:induction false} WindowScanMembers(mode: Neighborhood, size: int, c: Pos, i: int, p: Pos)
    ensures p in WindowScan(mode, size, c, i) <==>
      i <= p.row <= LastRow(size, c) && Max(c.col - 1, 0) <= p.col <= LastCol(size, c) &&
      Condition(mode, c.col, c.row, p.col, p.row)
    decreases LastRow(size, c) + 1 - i
  {
    if i <= LastRow(size, c) {
      RowScanMembers(mode, size, c, i, Max(c.col - 1, 0), p);
      WindowScanMembers(mode, size, c, i + 1, p);
    }
  }

  /** The scan lists exactly the adjacent cells: in bounds, within the 3x3
      window, satisfying the condition; so never the cell itself and never a
      wrapped-around cell. */
  lemma NeighboursMembers(mode: Neighborhood, size: int, c: Pos)
    requires InBounds(size, c)
    ensures forall p :: p in Neighbours(mode, size, c) <==> Adjacent(mode, size, c, p)
    ensures c !in Neighbours(mode, size, c)
  {
    forall p ensures p in Neighbours(mode, size, c) <==> Adjacent(mode, size, c, p) {
      WindowScanMembers(mode, size, c, Max(c.row - 1, 0), p);
    }
  }

  lemma {:induction false} RowScanLength(mode: Neighborhood, size: int, c: Pos, i: int, j: int)
    requires j <= LastCol(size, c) + 1
    ensures |RowScan(mode, size, c, i, j)| <= LastCol(size, c) + 1 - j
    ensures i == c.row && j <= c.col <= LastCol(size, c) ==> |RowScan(mode, size, c, i, j)| <= LastCol(size, c) - j
    ensures mode == Orthogonal && i != c.row ==> |RowScan(mode, size, c, i, j)| <= (if j <= c.col then 1 else 0)
    decreases LastCol(size, c) + 1 - j
  {
    if j <= LastCol(size, c) {
      RowScanLength(mode, size, c, i, j + 1);
    }
  }

  /** The number of neighbours still to come when the scan is at row i. */
  function RowsBound(mode: Neighborhood, c: Pos, i: int): int
  {
    if i <= c.row - 1 then (if mode == Orthogonal then 4 else 8)
    else if i == c.row then (if mode == Orthogonal then 3 else 5)
    else if i == c.row + 1 then (if mode == Orthogonal then 1 else 3)
    else 0
  }

  lemma {:induction false} WindowScanLength(mode: Neighborhood, size: int, c: Pos, i: int)
    requires InBounds(size, c) && c.row - 1 <= i
    ensures |WindowScan(mode, size, c, i)| <= RowsBound(mode, c, i)
    decreases LastRow(size, c) + 1 - i
  {
    if i <= LastRow(size, c) {
      var lo := Max(c.col - 1, 0);
      RowScanLength(mode, size, c, i, lo);
      WindowScanLength(mode, size, c, i + 1);
    }
  }

  /** At most 4 neighbours under Orthogonal and at most 8 under OrthoDiagonal. */
  lemma NeighboursCount(mode: Neighborhood, size: int, c: Pos)
    requires InBounds(size, c)
    ensures |Neighbours(mode, size, c)| <= (if mode == Orthogonal then 4 else 8)
  {
    WindowScanLength(mode, size, c, Max(c.row - 1, 0));
  }
}
