/** The maze: an N x N table of cells edited by clicks, then searched by Lee's
    wave expansion one layer per call and traced back one cell per call. */
module Engine {
  import opened Geometry
  import opened Grid
  import opened Search

  /** The click listener currently attached to the table. */
  datatype ClickHandler = ChangeCellHandler | MarkPointHandler | NoHandler

  /** The point being chosen: the `info` it receives and the cell selected
      so far, if any. */
  datatype Choosing = Choosing(info: Info, point: Option<Pos>)

  /** The events one call of NextStep dispatches to the maze's element:
      "backTraceStart" (always first) and "finish" with its message. */
  datatype Signals = Signals(backTraceStart: bool, finish: Option<string>)

  const NoPathMessage := "There is no path could be found!"
  const FoundMessage := "The path was found!"

  /** The board as a call of NextStep finds it once the first call's setup
      is done. */
  function Armed(B: Board, s: Pos, e: Pos, step: nat): Board
    requires Square(B) && InBounds(|B|, s) && InBounds(|B|, e)
  {
    if step == 0 then Prepared(B, s, e) else B
  }

  /** A pattern marks a wall with 'W'; a missing entry is no wall. */
  predicate PatternWall(pattern: seq<string>, p: Pos)
  {
    0 <= p.row < |pattern| && 0 <= p.col < |pattern[p.row]| && pattern[p.row][p.col] == 'W'
  }

  /** The wall-editing click at (row, col) turns B into B': a cell with any
      `info` is cleared, an empty one becomes a wall, and a click outside
      the table changes nothing. */
  ghost predicate CellChanged(B: Board, row: int, col: int, B': Board)
    requires Square(B)
  {
    var p := Pos(row, col);
    if InBounds(|B|, p) then
      B' == SetCell(B, p, CellAt(B, p).(info := if CellAt(B, p).info != Blank then Blank else Wall))
    else
      B' == B
  }

  /** The point-choosing click at (row, col) while `ch` is being chosen,
      with start s and end e, leads to B', ch', s' and e'. With a point
      selected, only a click on that point deselects it and clears its
      `info`; with none selected, a click on a cell with an empty `info`
      selects it. The start or the end, as `ch` says, becomes the point
      selected afterwards. A click outside the table changes nothing. */
  ghost predicate PointMarked(B: Board, ch: Choosing, s: Option<Pos>, e: Option<Pos>, row: int, col: int,
                              B': Board, ch': Choosing, s': Option<Pos>, e': Option<Pos>)
    requires Square(B)
  {
    var p := Pos(row, col);
    if !InBounds(|B|, p) then
      B' == B && ch' == ch && s' == s && e' == e
    else
      var was := CellAt(B, p);
      (if ch.point == Some(p) then
         ch' == ch.(point := None) && B' == SetCell(B, p, was.(info := Blank))
       else if ch.point.None? && was.info == Blank then
         ch' == ch.(point := Some(p)) && B' == SetCell(B, p, was.(info := ch.info))
       else
         ch' == ch && B' == B) &&
      (ch.info == Start ==> s' == ch'.point && e' == e) &&
      (ch.info == End ==> e' == ch'.point && s' == s)
  }

  class Maze {
    const size: nat
    const neighborhood: Neighborhood
    /** The table's cells. */
    const cells: array2<Cell>
    var startPoint: Option<Pos>
    var endPoint: Option<Pos>
    /** The layer the next expansion writes; 0 stands for "not started". */
    var step: nat
    var currentCell: Option<Pos>
    var choosing: Option<Choosing>
    var handler: ClickHandler
    /** The table as a value. */
    ghost var board: Board
    /** The cells the backtrace cursor has moved to, in order. */
    ghost var trace: seq<Pos>

    /** The array and the board agree, and both are size x size. */
    ghost predicate Shape()
      reads this`board, cells
    {
      cells.Length0 == size && cells.Length1 == size && |board| == size && Square(board) &&
      forall r, c :: 0 <= r < size && 0 <= c < size ==> cells[r, c] == board[r][c]
    }

    /** How the points, the point being chosen, the listener and `step`
        relate: the start is chosen first (the end only after it is set),
        the wall-editing listener only runs before any point is chosen, and
        the listener is removed exactly when the search starts. */
    ghost predicate Config()
      reads this`startPoint, this`endPoint, this`step, this`choosing, this`handler
    {
      (startPoint.Some? ==> InBounds(size, startPoint.value)) &&
      (endPoint.Some? ==> InBounds(size, endPoint.value)) &&
      (startPoint.Some? && endPoint.Some? ==> startPoint.value != endPoint.value) &&
      (handler == ChangeCellHandler ==> startPoint.None? && endPoint.None? && (choosing.None? || choosing.value.point.None?)) &&
      (handler == NoHandler <==> step > 0) &&
      (handler == MarkPointHandler ==> choosing.Some?) &&
      (step > 0 ==> startPoint.Some? && endPoint.Some?) &&
      (choosing.Some? ==>
         var ch := choosing.value;
         (ch.info == Start || ch.info == End) &&
         (ch.point.Some? ==> InBounds(size, ch.point.value)) &&
         (ch.info == Start ==> handler == MarkPointHandler && startPoint == ch.point && endPoint.None?))
    }

    /** The chosen points carry their `info` on the table. */
    ghost predicate PointInfo()
      reads this`board, this`startPoint, this`choosing, this`handler
    {
      (startPoint.Some? ==> CellAt(board, startPoint.value).info == Start) &&
      (choosing.Some? && handler == MarkPointHandler && choosing.value.point.Some? &&
       (choosing.value.info == Start || startPoint.Some?) ==>
         CellAt(board, choosing.value.point.value).info == choosing.value.info)
    }

    /** Before the search nothing is labelled, marked or traced; during it
        the cursor stays on the table. */
    ghost predicate Progress()
      reads this`board, this`step, this`currentCell, this`trace
    {
      (step == 0 ==> Untouched(board) && currentCell.None? && trace == []) &&
      (currentCell.Some? ==> InBounds(size, currentCell.value))
    }

    /** Once the search has started, the labels are the hop counts below
        `step` and the backtrace so far is a chain of moves from the end. */
    ghost predicate Searching()
      reads this`board, this`startPoint, this`endPoint, this`step, this`trace, this`currentCell
    {
      step > 0 && startPoint.Some? && endPoint.Some? ==>
        SearchState(board, neighborhood, startPoint.value, endPoint.value, step, trace, currentCell)
    }

    ghost predicate Valid()
      reads this, cells
    {
      Shape() && Config() && PointInfo() && Progress() && Searching()
    }

    /** The outcome "There is no path could be found!": the end is unlabelled
        and no walk of any length leads from the start to it. */
    ghost predicate NoPath()
      reads this`board, this`startPoint, this`endPoint, this`step
    {
      step > 0 && startPoint.Some? && endPoint.Some? &&
      Label(board, endPoint.value).None? &&
      forall k: nat :: !ReachWithin(board, neighborhood, startPoint.value, endPoint.value, k)
    }

    /** The outcome "The path was found!": the cursor is on the start, the
        cells it moved through, read backwards, form a walk from the start to
        the end with as many moves as the end's label, no walk between them
        is shorter, and exactly the cells of that walk other than the start
        carry the path mark. */
    ghost predicate PathFound()
      reads this`board, this`startPoint, this`endPoint, this`trace, this`currentCell
    {
      startPoint.Some? && endPoint.Some? && currentCell == startPoint &&
      var s, e := startPoint.value, endPoint.value;
      var w := PathOf(e, trace);
      Label(board, e) == Some(|trace|) &&
      IsWalk(board, neighborhood, w) && w[0] == s && w[|w| - 1] == e &&
      (forall w' :: IsWalk(board, neighborhood, w') && w'[0] == s && w'[|w'| - 1] == e ==> |w'| >= |w|) &&
      Marked(board, s, trace)
    }

    /** A new maze: every cell empty, walls editable by clicks. */
    constructor (size: nat, withDiagonalNeighbors: bool)
      ensures Valid() && fresh(cells)
      ensures this.size == size
      ensures neighborhood == if withDiagonalNeighbors then OrthoDiagonal else Orthogonal
      ensures forall p :: InBounds(size, p) ==> CellAt(board, p) == EmptyCell
      ensures startPoint.None? && endPoint.None? && step == 0 && currentCell.None? && choosing.None?
      ensures handler == ChangeCellHandler
    {
      this.size := size;
      neighborhood := if withDiagonalNeighbors then OrthoDiagonal else Orthogonal;
      cells := new Cell[size, size]((i, j) => EmptyCell);
      board := seq(size, i => seq(size, j => EmptyCell));
      startPoint, endPoint, step, currentCell, choosing := None, None, 0, None, None;
      handler := ChangeCellHandler;
      trace := [];
    }

    /** Writes one cell of the table. */
    method SetCellAt(p: Pos, x: Cell)
      requires Shape() && InBounds(size, p)
      modifies this`board, cells
      ensures Shape() && board == SetCell(old(board), p, x)
    {
      cells[p.row, p.col] := x;
      board := SetCell(board, p, x);
    }

    /** The neighbours of cell (y, x), scanning the clamped 3x3 window row
        by row and column by column. */
    method CellNeighbours(y: int, x: int) returns (neighbours: seq<Pos>)
      ensures neighbours == Neighbours(neighborhood, size, Pos(y, x))
    {
      ghost var c := Pos(y, x);
      neighbours := [];
      var i := Max(y - 1, 0);
      while i <= Min(y + 1, size - 1)
        invariant neighbours + WindowScan(neighborhood, size, c, i) == Neighbours(neighborhood, size, c)
        decreases Min(y + 1, size - 1) + 1 - i
      {
        WindowScanNext(neighborhood, size, c, i, neighbours);
        ghost var below := WindowScan(neighborhood, size, c, i + 1);
        var j := Max(x - 1, 0);
        while j <= Min(x + 1, size - 1)
          invariant neighbours + RowScan(neighborhood, size, c, i, j) + below == Neighbours(neighborhood, size, c)
          decreases Min(x + 1, size - 1) + 1 - j
        {
          RowScanNext(neighborhood, size, c, i, j, neighbours, below);
          if Condition(neighborhood, x, y, j, i) {
            neighbours := neighbours + [Pos(i, j)];
          }
          j := j + 1;
        }
        RowScanEnd(neighborhood, size, c, i, j, neighbours, below);
        i := i + 1;
      }
    }

    /** The reduce of the backtrace, reading the labels from the table: it
        starts from `current` and, left to right, keeps a neighbour whenever
        its label is strictly smaller than the kept cell's. */
    method NextCellWithMinStepsIn(current: Pos, neighbours: seq<Pos>) returns (r: Pos)
      requires Shape() && InBounds(size, current)
      requires forall n :: n in neighbours ==> InBounds(size, n)
      ensures r == NextCellWithMinSteps(board, current, neighbours)
    {
      r := current;
      var k := 0;
      while k < |neighbours|
        invariant 0 <= k <= |neighbours| && InBounds(size, r)
        invariant NextCellWithMinSteps(board, r, neighbours[k..]) == NextCellWithMinSteps(board, current, neighbours)
      {
        var n := neighbours[k];
        assert n in neighbours;
        ReduceStep(board, r, neighbours, k);
        if LabelLess(cells[n.row, n.col].dist, cells[r.row, r.col].dist) {
          r := n;
        }
        k := k + 1;
      }
    }

    /** Fills the table with a wall pattern, unless a start point exists. */
    method FillWithPattern(pattern: seq<string>)
      requires Valid()
      requires startPoint.None? ==> |pattern| >= size
      modifies this`board, cells
      ensures Valid()
      ensures old(startPoint).Some? ==> board == old(board)
      ensures old(startPoint).None? ==> forall p :: InBounds(size, p) ==>
        CellAt(board, p) == if PatternWall(pattern, p) then CellAt(old(board), p).(info := Wall) else CellAt(old(board), p)
    {
      if startPoint.Some? {
        return;
      }
      var i := 0;
      while i < size
        invariant 0 <= i <= size && Shape()
        invariant forall p :: InBounds(size, p) ==>
          CellAt(board, p) == if PatternWall(pattern, p) && p.row < i then CellAt(old(board), p).(info := Wall) else CellAt(old(board), p)
      {
        var j := 0;
        while j < size
          invariant 0 <= j <= size && Shape()
          invariant forall p :: InBounds(size, p) ==>
            CellAt(board, p) == if PatternWall(pattern, p) && Before(p, i, j) then CellAt(old(board), p).(info := Wall) else CellAt(old(board), p)
        {
          if j < |pattern[i]| && pattern[i][j] == 'W' {
            SetCellAt(Pos(i, j), cells[i, j].(info := Wall));
          }
          j := j + 1;
        }
        i := i + 1;
      }
    }

    /** Selects which point the next clicks choose; ignored once the search
        has started. */
    method ChoosePoint(point: string)
      requires Valid()
      requires point == "start" ==> handler != MarkPointHandler
      modifies this`choosing, this`handler
      ensures Valid()
      ensures old(step) != 0 || (point != "start" && point != "end") ==> choosing == old(choosing) && handler == old(handler)
      ensures old(step) == 0 && point == "start" ==> choosing == Some(Choosing(Start, None)) && handler == MarkPointHandler
      ensures old(step) == 0 && point == "end" ==> choosing == Some(Choosing(End, None)) && handler == old(handler)
    {
      if step != 0 {
        return;
      }
      if point == "start" {
        choosing := Some(Choosing(Start, None));
        handler := MarkPointHandler;
      }
      if point == "end" {
        choosing := Some(Choosing(End, None));
      }
    }

    /** The wall-editing click, as CellChanged describes it. */
    method ChangeCell(row: int, col: int)
      requires Valid() && handler == ChangeCellHandler
      modifies this`board, cells
      ensures Valid()
      ensures CellChanged(old(board), row, col, board)
    {
      if !InBounds(size, Pos(row, col)) {
        return;
      }
      var td := cells[row, col];
      SetCellAt(Pos(row, col), td.(info := if td.info != Blank then Blank else Wall));
    }

    /** The point-choosing click, as PointMarked describes it. */
    method MarkPoint(row: int, col: int)
      requires Valid() && handler == MarkPointHandler
      modifies this`board, cells, this`choosing, this`startPoint, this`endPoint
      ensures Valid()
      ensures !InBounds(size, Pos(row, col)) ==> unchanged(this)
      ensures choosing.Some? &&
        PointMarked(old(board), old(choosing).value, old(startPoint), old(endPoint), row, col,
                    board, choosing.value, startPoint, endPoint)
    {
      if !InBounds(size, Pos(row, col)) {
        return;
      }
      var p := Pos(row, col);
      var td := cells[row, col];
      var ch := choosing.value;
      if ch.point.Some? {
        if ch.point.value == p {
          choosing := Some(ch.(point := None));
          SetCellAt(p, td.(info := Blank));
        }
      } else if td.info == Blank {
        choosing := Some(ch.(point := Some(p)));
        SetCellAt(p, td.(info := ch.info));
      }
      if ch.info == Start {
        startPoint := choosing.value.point;
      } else if ch.info == End {
        endPoint := choosing.value.point;
      }
    }

    /** A click on the table, handled by whichever listener is attached. */
    method Click(row: int, col: int)
      requires Valid()
      modifies this`board, cells, this`choosing, this`startPoint, this`endPoint
      ensures Valid()
      ensures handler == NoHandler ==> unchanged(this)
      ensures handler == ChangeCellHandler ==> CellChanged(old(board), row, col, board)
      ensures handler == MarkPointHandler ==>
        choosing.Some? &&
        PointMarked(old(board), old(choosing).value, old(startPoint), old(endPoint), row, col,
                    board, choosing.value, startPoint, endPoint)
      ensures step == old(step) && handler == old(handler) && currentCell == old(currentCell)
      ensures handler == ChangeCellHandler ==> startPoint.None? && endPoint.None? && choosing == old(choosing)
      ensures old(choosing).Some? && old(choosing).value.info == End ==> startPoint == old(startPoint) && choosing.Some? && choosing.value.info == End
      ensures old(choosing).Some? && old(choosing).value.info == Start ==> endPoint == old(endPoint) && choosing.Some? && choosing.value.info == Start
    {
      match handler
      case ChangeCellHandler => ChangeCell(row, col);
      case MarkPointHandler => MarkPoint(row, col);
      case NoHandler =>
    }

    /** Labels `step` on the cells of ns that are unlabelled and have an
        empty `info`: the filter and forEach of one front cell. */
    method MarkFreshNeighbours(ns: seq<Pos>, s: nat) returns (marked: bool)
      requires Shape() && forall p :: p in ns ==> InBounds(size, p)
      modifies this`board, cells
      ensures Shape() && IsMarking(old(board), board, s, ns)
      ensures marked <==> exists p :: p in ns && InBounds(size, p) && Label(old(board), p).None? && Passable(old(board), p)
    {
      marked := false;
      ghost var B := board;
      var k := 0;
      while k < |ns|
        invariant 0 <= k <= |ns| && Shape() && IsMarking(B, board, s, ns[..k])
        invariant marked <==> exists p :: p in ns[..k] && InBounds(size, p) && Label(B, p).None? && Passable(B, p)
      {
        var p := ns[k];
        assert p in ns && ns[..k + 1] == ns[..k] + [p];
        var cell := cells[p.row, p.col];
        assert cell == CellAt(board, p);
        if p !in ns[..k] {
          assert cell == CellAt(B, p);
        }
        if cell.dist.None? && cell.info == Blank {
          SetCellAt(p, cell.(dist := Some(s)));
          marked := true;
        }
        k := k + 1;
      }
      assert ns[..k] == ns;
    }

    /** The scan's visit of cell (i, j) in the layer `s` started from B0:
        if the cell carries s - 1, its neighbours are listed and the fresh
        ones labelled. The result says whether any was. */
    method ExpandCell(ghost B0: Board, s: nat, i: int, j: int) returns (marked: bool)
      requires Shape() && Square(B0) && s >= 1 && 0 <= i < size && 0 <= j < size
      requires ScannedUpTo(B0, board, neighborhood, s, i, j)
      modifies this`board, cells
      ensures Shape() && ScannedUpTo(B0, board, neighborhood, s, i, j + 1)
      ensures AnyReachedBefore(B0, neighborhood, s, i, j + 1) <==> AnyReachedBefore(B0, neighborhood, s, i, j) || marked
    {
      ghost var B := board;
      var front := cells[i, j].dist == Some(s - 1);
      var ns: seq<Pos> := [];
      marked := false;
      if front {
        ns := CellNeighbours(i, j);
        NeighboursMembers(neighborhood, size, Pos(i, j));
        marked := MarkFreshNeighbours(ns, s);
      }
      ScanCell(B0, B, board, neighborhood, s, i, j, front, ns, marked);
    }

    /** The scan of row i in the layer `s` started from B0, column by
        column. The result says whether any cell was labelled. */
    method ExpandRow(ghost B0: Board, s: nat, i: int) returns (marked: bool)
      requires Shape() && Square(B0) && s >= 1 && 0 <= i < size
      requires ScannedUpTo(B0, board, neighborhood, s, i, 0)
      modifies this`board, cells
      ensures Shape() && ScannedUpTo(B0, board, neighborhood, s, i + 1, 0)
      ensures AnyReachedBefore(B0, neighborhood, s, i + 1, 0) <==> AnyReachedBefore(B0, neighborhood, s, i, 0) || marked
    {
      marked := false;
      var j := 0;
      while j < size
        invariant 0 <= j <= size && Shape()
        invariant ScannedUpTo(B0, board, neighborhood, s, i, j)
        invariant AnyReachedBefore(B0, neighborhood, s, i, j) <==> AnyReachedBefore(B0, neighborhood, s, i, 0) || marked
      {
        var m := ExpandCell(B0, s, i, j);
        marked := marked || m;
        j := j + 1;
      }
      RowDone(B0, board, neighborhood, s, i);
    }

    /** One layer of wave expansion: every cell labelled step - 1 labels its
        unlabelled open neighbours `step`; then `step` moves on. Cells
        labelled in this call carry `step`, so they are not expanded again
        in the same call. */
    method WaveExpansionStep() returns (wasMarked: bool)
      requires Valid() && step > 0 && Label(board, endPoint.value).None?
      modifies this`step, this`board, cells
      ensures Valid() && step == old(step) + 1
      ensures IsExpansion(old(board), board, neighborhood, old(step))
      ensures wasMarked <==> AnyReached(old(board), neighborhood, old(step))
      ensures !wasMarked ==> NoPath()
      ensures old(step) >= size * size ==> !wasMarked
    {
      var s := step;
      ghost var B0 := board;
      if s >= size * size {
        LayersEnd(board, neighborhood, startPoint.value, s);
      }
      wasMarked := false;
      var i := 0;
      while i < size
        invariant 0 <= i <= size && Shape() && step == s
        invariant ScannedUpTo(B0, board, neighborhood, s, i, 0)
        invariant wasMarked <==> AnyReachedBefore(B0, neighborhood, s, i, 0)
      {
        var marked := ExpandRow(B0, s, i);
        wasMarked := wasMarked || marked;
        i := i + 1;
      }
      ScanDone(B0, board, neighborhood, s);
      step := step + 1;
      ExpansionKeeps();
    }

    /** What one expansion layer keeps: the labels are still the hop counts,
        now below the new `step`; and a layer that labels nothing shows that
        the end cannot be reached. */
    twostate lemma ExpansionKeeps()
      requires old(Valid()) && old(step) > 0 && old(Label(board, endPoint.value)).None?
      requires Shape() && step == old(step) + 1
      requires startPoint == old(startPoint) && endPoint == old(endPoint) && choosing == old(choosing) &&
               handler == old(handler) && trace == old(trace) && currentCell == old(currentCell)
      requires IsExpansion(old(board), board, neighborhood, old(step))
      ensures Valid()
      ensures !AnyReached(old(board), neighborhood, old(step)) ==> NoPath()
    {
      var s, e := startPoint.value, endPoint.value;
      var B := old(board);
      ExpandState(B, board, neighborhood, s, e, old(step));
      assert CellAt(board, s).info == CellAt(B, s).info;
      if choosing.Some? && choosing.value.point.Some? {
        assert CellAt(board, choosing.value.point.value).info == CellAt(B, choosing.value.point.value).info;
      }
      if !AnyReached(B, neighborhood, old(step)) {
        ExpandExhausted(B, board, neighborhood, s, e, old(step));
      }
    }

    /** Marks the cell at p as part of the path found. */
    method MarkPath(p: Pos)
      requires Shape() && InBounds(size, p)
      modifies this`board, cells
      ensures Shape()
      ensures board == SetCell(old(board), p, CellAt(old(board), p).(onPath := true))
    {
      var td := cells[p.row, p.col];
      SetCellAt(p, td.(onPath := true));
    }

    /** Where the backtrace cursor goes next: the reduce over the
        neighbours of the cell it stands on, the end before the first move. */
    method NextCursorIn(e: Pos, cur: Option<Pos>) returns (next: Pos)
      requires Shape() && InBounds(size, e) && (cur.Some? ==> InBounds(size, cur.value))
      ensures next == NextCursor(board, neighborhood, e, cur) && InBounds(size, next)
    {
      var c := if cur.None? then e else cur.value;
      var ns := CellNeighbours(c.row, c.col);
      NeighboursMembers(neighborhood, size, c);
      next := NextCellWithMinStepsIn(c, ns);
    }

    /** Moves the backtrace cursor onto `next`, marking it as path unless
        it is the start, and records the move in the trace. */
    method MoveCursor(next: Pos, s: Pos)
      requires Shape() && InBounds(size, next)
      modifies this`currentCell, this`board, this`trace, cells
      ensures Shape() && currentCell == Some(next)
      ensures trace == if old(currentCell) == Some(next) then old(trace) else old(trace) + [next]
      ensures board == if next != s then SetCell(old(board), next, CellAt(old(board), next).(onPath := true)) else old(board)
    {
      if next != s {
        MarkPath(next);
      }
      if currentCell != Some(next) {
        trace := trace + [next];
      }
      currentCell := Some(next);
    }

    /** What one backtrace move keeps: a move as BackMoved describes it
        leaves the maze valid and the end's label as it was. */
    twostate lemma BackTraceKeeps()
      requires old(Valid()) && old(step) > 0 && old(Label(board, endPoint.value)).Some?
      requires Shape()
      requires startPoint == old(startPoint) && endPoint == old(endPoint) && step == old(step) &&
               choosing == old(choosing) && handler == old(handler)
      requires BackMoved(old(board), neighborhood, startPoint.value, endPoint.value, old(trace), old(currentCell), board, trace, currentCell)
      ensures Valid()
      ensures Label(board, endPoint.value) == old(Label(board, endPoint.value))
    {
      var s, e := startPoint.value, endPoint.value;
      var B := old(board);
      BackStep(B, neighborhood, s, e, step, old(trace), old(currentCell), board, trace, currentCell);
      assert CellAt(board, s).info == CellAt(B, s).info;
      if choosing.Some? && choosing.value.point.Some? {
        assert CellAt(board, choosing.value.point.value).info == CellAt(B, choosing.value.point.value).info;
      }
    }

    /** The cursor is only placed once the end is labelled. */
    lemma CursorOnlyWhenLabelled()
      requires Valid() && currentCell.Some?
      ensures step > 0 && Label(board, endPoint.value).Some?
    {
    }

    /** Once the backtrace cursor stands on the start, the path is found:
        the trace read backwards is a shortest walk from the start to the end. */
    lemma ArrivalIsPathFound()
      requires Valid() && step > 0 && Label(board, endPoint.value).Some? && currentCell == startPoint
      ensures PathFound()
    {
      BacktraceIsShortest(board, neighborhood, startPoint.value, endPoint.value, step, trace);
    }

    /** The backtrace never makes more moves than the end's label, a hop
        count, which is below the number of cells of the table. */
    lemma PathWithinTable()
      requires Valid() && step > 0 && Label(board, endPoint.value).Some?
      ensures |trace| <= Label(board, endPoint.value).value < size * size
    {
      var e := endPoint.value;
      if trace != [] {
        ChainAt(board, neighborhood, e, Label(board, e).value, trace, 0);
      }
      HopCountBound(board, neighborhood, startPoint.value, e, Label(board, e).value);
    }

    /** One backtrace move: from the current cell (the end on the first
        move) to the neighbour the reduce picks; unless that is the start,
        it is marked as path. The result says whether the start is still
        ahead. */
    method BackTraceStep() returns (more: bool)
      requires Valid() && step > 0 && Label(board, endPoint.value).Some?
      modifies this`currentCell, this`board, this`trace, cells
      ensures Valid()
      ensures BackMoved(old(board), neighborhood, startPoint.value, endPoint.value, old(trace), old(currentCell), board, trace, currentCell)
      ensures more <==> currentCell != startPoint
      ensures Label(board, endPoint.value) == old(Label(board, endPoint.value))
      ensures !more ==> PathFound()
    {
      var s := startPoint.value;
      var next := NextCursorIn(endPoint.value, currentCell);
      more := next != s;
      MoveCursor(next, s);
      BackMovedByMark(old(board), neighborhood, s, endPoint.value, old(trace), old(currentCell), board, trace, currentCell);
      BackTraceKeeps();
      if !more {
        ArrivalIsPathFound();
      }
    }

    /** The first "next" of a search: the point-choosing listener is
        removed, the start labelled 0 and the end's `info` cleared, and
        `step` set to 1. */
    method BeginSearch()
      requires Valid() && step == 0 && startPoint.Some? && endPoint.Some?
      modifies this`step, this`board, this`handler, cells
      ensures Valid() && step == 1 && handler == NoHandler
      ensures board == Prepared(old(board), startPoint.value, endPoint.value)
      ensures Label(board, endPoint.value).None?
    {
      var s := startPoint.value;
      var e := endPoint.value;
      handler := NoHandler;
      SetCellAt(s, cells[s.row, s.col].(dist := Some(0)));
      SetCellAt(e, cells[e.row, e.col].(info := Blank));
      step := 1;
      BeginKeeps();
    }

    /** The setup of the first call starts a valid search at step 1. */
    twostate lemma BeginKeeps()
      requires old(Valid()) && old(step) == 0 && startPoint.Some? && endPoint.Some?
      requires Shape() && step == 1 && handler == NoHandler
      requires startPoint == old(startPoint) && endPoint == old(endPoint) && choosing == old(choosing) &&
               trace == old(trace) && currentCell == old(currentCell)
      requires board == Prepared(old(board), startPoint.value, endPoint.value)
      ensures Valid() && Label(board, endPoint.value).None?
    {
      var s, e := startPoint.value, endPoint.value;
      SetupState(old(board), neighborhood, s, e);
    }

    /** The part of the "next" button after the first call's setup: one
        expansion layer while the end is unlabelled, otherwise one backtrace
        move; either may end the search with a "finish" event. */
    method Advance() returns (signals: Signals)
      requires Valid() && step > 0
      modifies this`step, this`board, this`currentCell, this`trace, cells
      ensures Valid()
      ensures old(Label(board, endPoint.value)).None? ==>
        !signals.backTraceStart && step == old(step) + 1 && IsExpansion(old(board), board, neighborhood, old(step)) &&
        trace == old(trace) && currentCell == old(currentCell) &&
        signals.finish == if AnyReached(old(board), neighborhood, old(step)) then None else Some(NoPathMessage)
      ensures old(Label(board, endPoint.value)).Some? ==>
        signals.backTraceStart && step == old(step) &&
        BackMoved(old(board), neighborhood, startPoint.value, endPoint.value, old(trace), old(currentCell), board, trace, currentCell) &&
        signals.finish == if currentCell == startPoint then Some(FoundMessage) else None
      ensures signals.finish == Some(NoPathMessage) ==> NoPath()
      ensures signals.finish == Some(FoundMessage) ==> PathFound()
    {
      signals := Signals(false, None);
      var e := endPoint.value;
      if cells[e.row, e.col].dist.None? {
        var wasMarked := WaveExpansionStep();
        if !wasMarked {
          signals := signals.(finish := Some(NoPathMessage));
        }
      } else {
        signals := signals.(backTraceStart := true);
        var more := BackTraceStep();
        if !more {
          signals := signals.(finish := Some(FoundMessage));
        }
      }
    }

    /** The "next" button: nothing until both points are chosen; on the
        first call the listener is removed, the start labelled 0, the end's
        `info` cleared and `step` set to 1; then Advance. The result says
        which events were dispatched. */
    method NextStep() returns (signals: Signals)
      requires Valid()
      modifies this`step, this`board, this`handler, this`currentCell, this`trace, cells
      ensures Valid()
      ensures startPoint.None? || endPoint.None? ==>
        signals == Signals(false, None) && board == old(board) && step == old(step) && handler == old(handler) &&
        trace == old(trace) && currentCell == old(currentCell)
      ensures startPoint.Some? && endPoint.Some? ==> handler == NoHandler && step > 0
      ensures startPoint.Some? && endPoint.Some? &&
              Label(Armed(old(board), startPoint.value, endPoint.value, old(step)), endPoint.value).None? ==>
        var B1 := Armed(old(board), startPoint.value, endPoint.value, old(step));
        var s1 := if old(step) == 0 then 1 else old(step);
        !signals.backTraceStart && step == s1 + 1 && IsExpansion(B1, board, neighborhood, s1) &&
        trace == old(trace) && currentCell == old(currentCell) &&
        signals.finish == if AnyReached(B1, neighborhood, s1) then None else Some(NoPathMessage)
      ensures startPoint.Some? && endPoint.Some? &&
              Label(Armed(old(board), startPoint.value, endPoint.value, old(step)), endPoint.value).Some? ==>
        old(step) > 0 && signals.backTraceStart && step == old(step) &&
        BackMoved(old(board), neighborhood, startPoint.value, endPoint.value, old(trace), old(currentCell), board, trace, currentCell) &&
        signals.finish == if currentCell == startPoint then Some(FoundMessage) else None
      ensures signals.finish == Some(NoPathMessage) ==> NoPath()
      ensures signals.finish == Some(FoundMessage) ==> PathFound()
    {
      if startPoint.None? || endPoint.None? {
        return Signals(false, None);
      }
      if step == 0 {
        BeginSearch();
      }
      signals := Advance();
    }
  }
}
