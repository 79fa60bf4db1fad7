/** The wizard around the maze: it creates a maze of the selected size
    filled with that size's wall pattern, and walks through its stages as
    the "next" button is pressed and the maze reports the backtrace's start
    and the search's finish. */
module Wizard {
  import opened Geometry
  import opened Grid
  import opened Search
  import opened Engine

  // The stages, in the order the wizard goes through them.
  const ChoosingSize := 0
  const ChangingMaze := 1
  const ChoosingStartPoint := 2
  const ChoosingEndPoint := 3
  const WaveExpansion := 4
  const Backtrace := 5
  const Finish := 6

  /** The sizes a wall pattern ships for. */
  predicate ShippedSize(size: nat)
  {
    size == 5 || size == 10 || size == 20
  }

  /** The shipped wall patterns, one row per string: 'W' a wall, '0' an
      open cell. Each is size x size. */
  function Patterns(size: nat): (pattern: seq<string>)
    ensures ShippedSize(size) ==> |pattern| == size && forall r :: 0 <= r < size ==> |pattern[r]| == size
  {
    if size == 5 then [
      "00000",
      "W0WW0",
      "00000",
      "0WWWW",
      "00000"]
    else if size == 10 then [
      "0000000000",
      "WW0WWWWWW0",
      "0000W00000",
      "0000W0WWWW",
      "0000W0W000",
      "0000W0W000",
      "0000W0W000",
      "0000W0W0WW",
      "WWWWW0W0W0",
      "0000000000"]
    else if size == 20 then [
      "000W0000000000000000",
      "00W00000000000000000",
      "00000000000000000000",
      "00W0W0000WW00W000000",
      "0000000000W000000000",
      "00000000000000000000",
      "000000000W00W0000000",
      "00000W0000000W000000",
      "00000000000000000000",
      "000000WW000W00000000",
      "0000000W000000000000",
      "0000W000000000000000",
      "WWW0WWWWWWWWWWWWWWWW",
      "00000000000000000000",
      "00000000000000000000",
      "000000000W0000000000",
      "000WWW0000W000000000",
      "00000000000000000000",
      "00000000000000000000",
      "00000000000000000000"]
    else []
  }

  /** A cell of a freshly created maze of a shipped size: a wall exactly
      where the pattern says so, otherwise empty, with no label or mark. */
  function PatternCell(size: nat, p: Pos): Cell
  {
    Cell(if PatternWall(Patterns(size), p) then Wall else Blank, None, false)
  }

  class Pathfinder {
    var stage: int
    var maze: Maze?
    /** The message shown on the last breadcrumb once a search finishes. */
    var finishMessage: Option<string>
    ghost var Repr: set<object>

    /** What each stage says about the maze: walls are edited in
        CHANGING_MAZE, the start and then the end are chosen in the next two
        stages, the search expands in WAVE_EXPANSION and traces back in
        BACKTRACE, and FINISH carries the outcome the maze reached. */
    ghost predicate Valid()
      reads this, Repr
    {
      this !in Repr && ChoosingSize <= stage <= Finish &&
      (maze == null <==> stage == ChoosingSize) &&
      (maze == null ==> Repr == {}) &&
      (maze != null ==>
         Repr == {maze, maze.cells} && maze.Valid() &&
         maze.neighborhood == Orthogonal && ShippedSize(maze.size) &&
         (stage == ChangingMaze ==> maze.handler == ChangeCellHandler && maze.choosing.None?) &&
         (stage == ChoosingStartPoint ==>
            maze.handler == MarkPointHandler && maze.choosing.Some? && maze.choosing.value.info == Start) &&
         (stage == ChoosingEndPoint ==>
            maze.handler == MarkPointHandler && maze.choosing.Some? && maze.choosing.value.info == End &&
            maze.startPoint.Some?) &&
         (stage == WaveExpansion ==> maze.step > 0 && maze.currentCell.None?) &&
         (stage == Backtrace ==> maze.step > 0 && maze.currentCell.Some? && maze.currentCell != maze.startPoint) &&
         (stage == Finish ==>
            maze.step > 0 &&
            ((finishMessage == Some(NoPathMessage) && maze.NoPath()) ||
             (finishMessage == Some(FoundMessage) && maze.PathFound()))))
    }

    /** The wizard starts by asking for a size; there is no maze yet. */
    constructor ()
      ensures Valid() && stage == ChoosingSize && maze == null && finishMessage.None?
    {
      stage := ChoosingSize;
      maze := null;
      finishMessage := None;
      Repr := {};
    }

    /** Drops the current maze, if any. */
    method Clear()
      modifies this`maze, this`Repr
      ensures maze == null && Repr == {}
    {
      maze := null;
      Repr := {};
    }

    /** A new orthogonal maze of a shipped size, filled with its pattern. */
    static method PatternMaze(size: nat) returns (m: Maze)
      requires ShippedSize(size)
      ensures fresh(m) && fresh(m.cells) && m.Valid()
      ensures m.size == size && m.neighborhood == Orthogonal
      ensures m.startPoint.None? && m.endPoint.None? && m.step == 0 && m.currentCell.None? && m.choosing.None?
      ensures m.handler == ChangeCellHandler
      ensures forall p :: InBounds(size, p) ==> CellAt(m.board, p) == PatternCell(size, p)
    {
      m := new Maze(size, false);
      m.FillWithPattern(Patterns(size));
    }

    /** A size was selected; 0 stands for the empty choice. The old maze is
        dropped; a size gives a new orthogonal maze filled with that size's
        pattern, ready for wall editing. */
    method CreateMaze(size: nat)
      requires Valid() && (size == 0 || ShippedSize(size))
      modifies this`maze, this`Repr, this`stage
      ensures Valid() && finishMessage == old(finishMessage)
      ensures size == 0 ==> stage == ChoosingSize && maze == null
      ensures size != 0 ==>
        stage == ChangingMaze && maze != null && fresh(maze) && fresh(maze.cells) && maze.size == size &&
        maze.startPoint.None? && maze.endPoint.None? && maze.step == 0 && maze.currentCell.None? &&
        maze.handler == ChangeCellHandler &&
        forall p :: InBounds(size, p) ==> CellAt(maze.board, p) == PatternCell(size, p)
    {
      Clear();
      if size != 0 {
        var m := PatternMaze(size);
        maze := m;
        Repr := {m, m.cells};
        stage := ChangingMaze;
      } else {
        stage := ChoosingSize;
      }
    }

    /** "Next" in CHANGING_MAZE: wall editing ends and the start is chosen
        next. */
    method OpenStartChoice()
      requires Valid() && stage == ChangingMaze
      modifies maze`choosing, maze`handler, this`stage
      ensures Valid() && stage == ChoosingStartPoint && finishMessage == old(finishMessage)
      ensures maze.choosing == Some(Choosing(Start, None)) && maze.handler == MarkPointHandler
    {
      stage := ChoosingStartPoint;
      maze.ChoosePoint("start");
    }

    /** "Next" in CHOOSING_START_POINT: with a start chosen, the end is
        chosen next; without one nothing happens. */
    method ConfirmStart()
      requires Valid() && stage == ChoosingStartPoint
      modifies maze`choosing, maze`handler, this`stage
      ensures Valid() && finishMessage == old(finishMessage) && maze.handler == old(maze.handler)
      ensures old(maze.startPoint).None? ==> stage == ChoosingStartPoint && maze.choosing == old(maze.choosing)
      ensures old(maze.startPoint).Some? ==> stage == ChoosingEndPoint && maze.choosing == Some(Choosing(End, None))
    {
      if maze.startPoint.Some? {
        stage := ChoosingEndPoint;
        maze.ChoosePoint("end");
      }
    }

    /** "Next" in CHOOSING_END_POINT: with an end chosen, the search starts
        with its first expansion layer, which may already find that no path
        exists; without an end nothing happens. */
    method ConfirmEnd()
      requires Valid() && stage == ChoosingEndPoint
      modifies Repr, this`stage, this`finishMessage
      ensures Valid() && maze.startPoint == old(maze.startPoint) && maze.endPoint == old(maze.endPoint)
      ensures old(maze.endPoint).None? ==> stage == ChoosingEndPoint && unchanged(maze) && finishMessage == old(finishMessage)
      ensures old(maze.endPoint).Some? ==>
        var B1 := Prepared(old(maze.board), old(maze.startPoint).value, old(maze.endPoint).value);
        maze.step == 2 && IsExpansion(B1, maze.board, Orthogonal, 1) &&
        stage == if AnyReached(B1, Orthogonal, 1) then WaveExpansion else Finish
    {
      if maze.endPoint.Some? {
        stage := WaveExpansion;
        var signals := maze.NextStep();
        Dispatch(signals);
      }
    }

    /** "Next" in WAVE_EXPANSION or BACKTRACE: one step of the maze. An
        expansion layer that labels nothing finishes the search; the first
        backtrace move starts BACKTRACE, and the move onto the start
        finishes the search. */
    method SearchStep()
      requires Valid() && (stage == WaveExpansion || stage == Backtrace)
      modifies Repr, this`stage, this`finishMessage
      ensures Valid() && old(stage) <= stage
      ensures maze.startPoint == old(maze.startPoint) && maze.endPoint == old(maze.endPoint)
      ensures old(Label(maze.board, maze.endPoint.value)).None? ==>
        maze.step == old(maze.step) + 1 && IsExpansion(old(maze.board), maze.board, Orthogonal, old(maze.step)) &&
        stage == if AnyReached(old(maze.board), Orthogonal, old(maze.step)) then old(stage) else Finish
      ensures old(Label(maze.board, maze.endPoint.value)).Some? ==>
        maze.step == old(maze.step) &&
        BackMoved(old(maze.board), Orthogonal, maze.startPoint.value, maze.endPoint.value,
                  old(maze.trace), old(maze.currentCell), maze.board, maze.trace, maze.currentCell) &&
        stage == if maze.currentCell == maze.startPoint then Finish else Backtrace
    {
      if stage == Backtrace {
        maze.CursorOnlyWhenLabelled();
      }
      var signals := maze.NextStep();
      Dispatch(signals);
      MazeStepKeeps(signals);
    }

    /** What a step of the maze keeps, taken from BACKTRACE or, with the
        cursor not yet placed, towards WAVE_EXPANSION: the stage the maze's
        events lead to matches the maze's new state. */
    twostate lemma MazeStepKeeps(signals: Signals)
      requires old(Valid()) && maze == old(maze) && Repr == old(Repr) && maze != null
      requires old(stage) == Backtrace || old(maze.currentCell).None?
      requires maze.Valid() && maze.step > 0 && maze.startPoint == old(maze.startPoint)
      requires !signals.backTraceStart ==>
        maze.currentCell == old(maze.currentCell) && (signals.finish.None? || signals.finish == Some(NoPathMessage))
      requires signals.backTraceStart ==>
        maze.currentCell.Some? && signals.finish == if maze.currentCell == maze.startPoint then Some(FoundMessage) else None
      requires signals.finish == Some(NoPathMessage) ==> maze.NoPath()
      requires signals.finish == Some(FoundMessage) ==> maze.PathFound()
      requires signals.finish.Some? ==> stage == Finish && finishMessage == signals.finish
      requires signals.finish.None? ==>
        stage == if signals.backTraceStart || old(stage) == Backtrace then Backtrace else WaveExpansion
      ensures Valid()
    {
    }

    /** The "next" button: the step of the current stage. It does nothing
        in CHOOSING_SIZE and FINISH, and the stage never goes back. */
    method Next()
      requires Valid()
      modifies Repr, this`stage, this`finishMessage
      ensures Valid() && maze == old(maze) && Repr == old(Repr)
      ensures old(stage) <= stage
      ensures maze != null ==> maze.startPoint == old(maze.startPoint) && maze.endPoint == old(maze.endPoint)
      ensures old(stage) == ChoosingSize || old(stage) == Finish ==>
        stage == old(stage) && finishMessage == old(finishMessage) && (maze != null ==> unchanged(maze))
      ensures old(stage) == ChangingMaze || old(stage) == ChoosingStartPoint ==>
        finishMessage == old(finishMessage) &&
        unchanged(maze`board, maze`startPoint, maze`endPoint, maze`step, maze`currentCell, maze`trace)
      ensures old(stage) == ChangingMaze ==>
        stage == ChoosingStartPoint && maze.choosing == Some(Choosing(Start, None)) && maze.handler == MarkPointHandler
      ensures old(stage) == ChoosingStartPoint ==>
        maze.handler == old(maze.handler) &&
        (old(maze.startPoint).None? ==> stage == ChoosingStartPoint && maze.choosing == old(maze.choosing)) &&
        (old(maze.startPoint).Some? ==> stage == ChoosingEndPoint && maze.choosing == Some(Choosing(End, None)))
      ensures old(stage) == ChoosingEndPoint && old(maze.endPoint).None? ==>
        stage == ChoosingEndPoint && unchanged(maze) && finishMessage == old(finishMessage)
      ensures old(stage) == ChoosingEndPoint && old(maze.endPoint).Some? ==>
        var B1 := Prepared(old(maze.board), old(maze.startPoint).value, old(maze.endPoint).value);
        maze.step == 2 && IsExpansion(B1, maze.board, Orthogonal, 1) &&
        stage == if AnyReached(B1, Orthogonal, 1) then WaveExpansion else Finish
      ensures (old(stage) == WaveExpansion || old(stage) == Backtrace) &&
              old(Label(maze.board, maze.endPoint.value)).None? ==>
        maze.step == old(maze.step) + 1 && IsExpansion(old(maze.board), maze.board, Orthogonal, old(maze.step)) &&
        stage == if AnyReached(old(maze.board), Orthogonal, old(maze.step)) then old(stage) else Finish
      ensures (old(stage) == WaveExpansion || old(stage) == Backtrace) &&
              old(Label(maze.board, maze.endPoint.value)).Some? ==>
        maze.step == old(maze.step) &&
        BackMoved(old(maze.board), Orthogonal, maze.startPoint.value, maze.endPoint.value,
                  old(maze.trace), old(maze.currentCell), maze.board, maze.trace, maze.currentCell) &&
        stage == if maze.currentCell == maze.startPoint then Finish else Backtrace
    {
      if stage == ChoosingSize || stage == Finish {
        return;
      }
      if stage == ChangingMaze {
        OpenStartChoice();
      } else if stage == ChoosingStartPoint {
        ConfirmStart();
      } else if stage == ChoosingEndPoint {
        ConfirmEnd();
      } else {
        SearchStep();
      }
    }

    /** A click on the maze's table, handled by the maze's own listener:
        it edits walls or chooses a point while the stage allows it, leaves
        a maze under search untouched, and never moves the stage. */
    method ClickMaze(row: int, col: int)
      requires Valid()
      modifies Repr
      ensures Valid() && stage == old(stage) && finishMessage == old(finishMessage)
      ensures stage >= WaveExpansion ==> unchanged(maze)
      ensures stage == ChangingMaze ==>
        CellChanged(old(maze.board), row, col, maze.board) &&
        maze.startPoint.None? && maze.endPoint.None? && maze.choosing == old(maze.choosing)
      ensures stage == ChoosingStartPoint || stage == ChoosingEndPoint ==>
        maze.choosing.Some? &&
        PointMarked(old(maze.board), old(maze.choosing).value, old(maze.startPoint), old(maze.endPoint), row, col,
                    maze.board, maze.choosing.value, maze.startPoint, maze.endPoint)
    {
      if maze != null {
        maze.Click(row, col);
      }
    }

    /** The maze's "backTraceStart" event. */
    method OnBackTraceStart()
      modifies this`stage
      ensures stage == Backtrace
    {
      stage := Backtrace;
    }

    /** The maze's "finish" event, carrying its message. */
    method OnFinish(message: string)
      modifies this`stage, this`finishMessage
      ensures stage == Finish && finishMessage == Some(message)
    {
      stage := Finish;
      finishMessage := Some(message);
    }

    /** Delivers the events one call of the maze's NextStep dispatched, in
        order. */
    method Dispatch(signals: Signals)
      modifies this`stage, this`finishMessage
      ensures signals.finish.Some? ==> stage == Finish && finishMessage == signals.finish
      ensures signals.finish.None? ==>
        finishMessage == old(finishMessage) && stage == if signals.backTraceStart then Backtrace else old(stage)
    {
      if signals.backTraceStart {
        OnBackTraceStart();
      }
      if signals.finish.Some? {
        OnFinish(signals.finish.value);
      }
    }
  }
}
