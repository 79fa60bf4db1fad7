/** The shipped 5 x 5 maze searched from its top-left to its bottom-right
    corner with orthogonal neighbours: the row of walls above the last row
    leaves a gap only at the left edge, so the end lies 10 hops from the
    start, not at the 8 hops of an empty 5 x 5 table. */
module Scenario {
  import opened Geometry
  import opened Grid
  import opened Search
  import opened Engine
  import opened Wizard

  /** The walls of the shipped 5 x 5 pattern, cell by cell. */
  lemma FiveByFiveWalls(p: Pos)
    requires InBounds(5, p)
    ensures PatternWall(Patterns(5), p) <==> (p.row == 1 && p.col != 1 && p.col != 4) || (p.row == 3 && p.col != 0)
  {
    var P := Patterns(5);
    assert P[0] == "00000" && P[1] == "W0WW0" && P[2] == "00000" && P[3] == "0WWWW" && P[4] == "00000";
  }

  /** A board laid out like the shipped 5 x 5 pattern: every cell but the
      start at the top-left corner is open exactly where the pattern has no
      wall. */
  ghost predicate FiveByFive(B: Board)
  {
    |B| == 5 && Square(B) &&
    forall p :: InBounds(5, p) && p != Pos(0, 0) ==> (Passable(B, p) <==> !PatternWall(Patterns(5), p))
  }

  /** Hops from the top-left corner on that board; 100 on walls and
      outside the table. */
  function FiveByFiveHops(p: Pos): int
  {
    if !InBounds(5, p) then 100
    else
      [[0, 1, 2, 3, 4],
       [100, 2, 100, 100, 5],
       [4, 3, 4, 5, 6],
       [5, 100, 100, 100, 100],
       [6, 7, 8, 9, 10]][p.row][p.col]
  }

  /** Each hop into an open cell raises FiveByFiveHops by at most one. */
  lemma FiveByFivePotential(B: Board)
    requires FiveByFive(B)
    ensures forall a, b :: Passable(B, b) && Adjacent(Orthogonal, |B|, a, b) ==> FiveByFiveHops(b) <= FiveByFiveHops(a) + 1
  {
    forall a, b | Passable(B, b) && Adjacent(Orthogonal, |B|, a, b)
      ensures FiveByFiveHops(b) <= FiveByFiveHops(a) + 1
    {
      if b != Pos(0, 0) {
        FiveByFiveWalls(b);
      }
    }
  }

  /** On the shipped 5 x 5 maze the end at the bottom-right corner lies
      exactly 10 hops from the start at the top-left corner. */
  lemma FiveByFiveHopCount(B: Board)
    requires FiveByFive(B)
    ensures IsHopCount(B, Orthogonal, Pos(0, 0), Pos(4, 4), 10)
  {
    var w := [Pos(0, 0), Pos(0, 1), Pos(1, 1), Pos(2, 1), Pos(2, 0), Pos(3, 0),
              Pos(4, 0), Pos(4, 1), Pos(4, 2), Pos(4, 3), Pos(4, 4)];
    forall i | 1 <= i < |w| ensures Passable(B, w[i]) {
      FiveByFiveWalls(w[i]);
    }
    FiveByFivePotential(B);
    HopCountByPotential(B, Orthogonal, Pos(0, 0), w, FiveByFiveHops);
  }

  /** The maze searching that board: the end stays unlabelled through the
      first ten expansion layers and then carries 10, and the path the
      backtrace finds has 10 moves. */
  lemma FiveByFiveSearch(m: Maze)
    requires m.Valid() && m.neighborhood == Orthogonal && m.step > 0
    requires m.startPoint == Some(Pos(0, 0)) && m.endPoint == Some(Pos(4, 4))
    requires FiveByFive(m.board)
    ensures Label(m.board, Pos(4, 4)) == if m.step > 10 then Some(10) else None
    ensures m.PathFound() ==> |m.trace| == 10
  {
    var B, s, e := m.board, Pos(0, 0), Pos(4, 4);
    FiveByFiveHopCount(B);
    assert Layered(B, Orthogonal, s, m.step);
    if Label(B, e).Some? {
      HopCountUnique(B, Orthogonal, s, e, Label(B, e).value, 10);
    }
  }
  /** The shipped 5 x 5 table with the start on the top-left corner and
      the end on the bottom-right one, as the first call's setup leaves it:
      the first layer labels a cell, and the table keeps its layout. */
  lemma FiveByFiveSetup(B0: Board, B: Board)
    requires |B0| == 5 && Square(B0) && forall p :: InBounds(5, p) ==> CellAt(B0, p) == PatternCell(5, p)
    requires var s, e := Pos(0, 0), Pos(4, 4);
      B == Prepared(SetCell(SetCell(B0, s, CellAt(B0, s).(info := Start)), e, CellAt(B0, e).(info := End)), s, e)
    ensures AnyReached(B, Orthogonal, 1)
    ensures forall B' :: SameInfo(B, B') && Square(B') ==> FiveByFive(B')
  {
    var s, e := Pos(0, 0), Pos(4, 4);
    FiveByFiveWalls(Pos(0, 1));
    assert Frontier(B, 1, s) && Adjacent(Orthogonal, 5, s, Pos(0, 1)) && Reached(B, Orthogonal, 1, Pos(0, 1));
    forall B' | SameInfo(B, B') && Square(B') ensures FiveByFive(B') {
      forall p | InBounds(5, p) && p != s
        ensures Passable(B', p) <==> !PatternWall(Patterns(5), p)
      {
        FiveByFiveWalls(p);
      }
    }
  }

  /** The wizard walked to its last stage before the search on the shipped
      5 x 5 maze: size 5 is selected, "next", a click on the top-left
      corner, "next", a click on the bottom-right corner. */
  method FiveByFiveChoose() returns (w: Pathfinder, ghost B0: Board)
    ensures fresh(w) && fresh(w.Repr) && w.Valid() && w.maze != null
    ensures w.stage == ChoosingEndPoint && w.maze.step == 0
    ensures w.maze.startPoint == Some(Pos(0, 0)) && w.maze.endPoint == Some(Pos(4, 4))
    ensures |B0| == 5 && Square(B0) && forall p :: InBounds(5, p) ==> CellAt(B0, p) == PatternCell(5, p)
    ensures w.maze.board == SetCell(SetCell(B0, Pos(0, 0), CellAt(B0, Pos(0, 0)).(info := Start)),
                                    Pos(4, 4), CellAt(B0, Pos(4, 4)).(info := End))
  {
    var s, e := Pos(0, 0), Pos(4, 4);
    w := new Pathfinder();
    w.CreateMaze(5);
    FiveByFiveWalls(s);
    FiveByFiveWalls(e);
    B0 := w.maze.board;
    w.Next();
    w.ClickMaze(0, 0);
    ghost var B1 := w.maze.board;
    w.Next();
    w.ClickMaze(4, 4);
    assert CellAt(B1, e) == CellAt(B0, e);
  }

  /** ... and "next" once more: the search is under way on that layout,
      with its first layer expanded. */
  method FiveByFiveStart() returns (w: Pathfinder)
    ensures fresh(w) && fresh(w.Repr) && w.Valid() && w.maze != null
    ensures w.stage == WaveExpansion && w.maze.step == 2
    ensures w.maze.startPoint == Some(Pos(0, 0)) && w.maze.endPoint == Some(Pos(4, 4))
    ensures FiveByFive(w.maze.board)
  {
    ghost var B0;
    w, B0 := FiveByFiveChoose();
    ghost var P := Prepared(w.maze.board, Pos(0, 0), Pos(4, 4));
    FiveByFiveSetup(B0, P);
    w.Next();
    assert SameInfo(P, w.maze.board);
  }

  /** Expansion layers and backtrace moves keep the layout. */
  lemma FiveByFiveKept(B: Board, B': Board)
    requires FiveByFive(B) && SameInfo(B, B') && Square(B')
    ensures FiveByFive(B')
  {
  }

  /** During that search the end's label and the backtrace together stay
      within 21: the end is labelled once `step` passes 10, and the
      backtrace makes at most 10 moves. */
  lemma FiveByFiveBound(m: Maze)
    requires m.Valid() && m.neighborhood == Orthogonal && m.step > 0
    requires m.startPoint == Some(Pos(0, 0)) && m.endPoint == Some(Pos(4, 4))
    requires FiveByFive(m.board)
    ensures m.step + |m.trace| <= 21
  {
    FiveByFiveSearch(m);
    if Label(m.board, Pos(4, 4)).Some? {
      m.PathWithinTable();
    }
  }

  /** A step of a search whose cursor is off the start, on values: an
      expansion layer while the end is unlabelled, a backtrace move once it
      is labelled. It keeps the maze and moves the search on. */
  lemma SearchStepProgress(B: Board, s: Pos, e: Pos, step: nat, trace: seq<Pos>, cur: Option<Pos>,
                           B': Board, step': nat, trace': seq<Pos>, cur': Option<Pos>)
    requires Square(B) && InBounds(|B|, s) && InBounds(|B|, e) && s != e && cur != Some(s)
    requires SearchState(B, Orthogonal, s, e, step, trace, cur)
    requires Label(B, e).None? ==> step' == step + 1 && IsExpansion(B, B', Orthogonal, step)
    requires Label(B, e).Some? ==> step' == step && BackMoved(B, Orthogonal, s, e, trace, cur, B', trace', cur')
    ensures SameInfo(B, B') && Square(B') && step + |trace| < step' + |trace'|
  {
    if Label(B, e).Some? {
      BackStep(B, Orthogonal, s, e, step, trace, cur, B', trace', cur');
    }
  }

  /** One press of "next" during that search keeps the layout and moves the
      search on: one more layer or one more backtrace move. */
  method FiveByFivePress(w: Pathfinder)
    requires w.Valid() && w.maze != null && (w.stage == WaveExpansion || w.stage == Backtrace)
    requires w.maze.startPoint == Some(Pos(0, 0)) && w.maze.endPoint == Some(Pos(4, 4))
    requires FiveByFive(w.maze.board)
    modifies w.Repr, w`stage, w`finishMessage
    ensures w.Valid() && w.maze == old(w.maze) && w.Repr == old(w.Repr) && WaveExpansion <= w.stage <= Finish
    ensures w.maze.startPoint == Some(Pos(0, 0)) && w.maze.endPoint == Some(Pos(4, 4))
    ensures FiveByFive(w.maze.board)
    ensures old(w.maze.step) + old(|w.maze.trace|) < w.maze.step + |w.maze.trace|
  {
    ghost var s, e := Pos(0, 0), Pos(4, 4);
    ghost var m := w.maze;
    ghost var B, step, trace, cur := m.board, m.step, m.trace, m.currentCell;
    assert SearchState(B, Orthogonal, s, e, step, trace, cur) && cur != Some(s);
    w.Next();
    SearchStepProgress(B, s, e, step, trace, cur, m.board, m.step, m.trace, m.currentCell);
    FiveByFiveKept(B, m.board);
  }

  /** ... and "next" until the wizard finishes: the search expands ten more
      layers and traces back ten moves, and the wizard finishes with "The
      path was found!" on a path of 10 moves. */
  method FiveByFiveRun(w: Pathfinder)
    requires w.Valid() && w.maze != null && w.stage == WaveExpansion
    requires w.maze.startPoint == Some(Pos(0, 0)) && w.maze.endPoint == Some(Pos(4, 4))
    requires FiveByFive(w.maze.board)
    modifies w, w.Repr
    ensures w.Valid() && w.maze != null && w.stage == Finish && w.finishMessage == Some(FoundMessage)
    ensures w.maze.PathFound() && |w.maze.trace| == 10
  {
    FiveByFiveBound(w.maze);
    while w.stage != Finish
      invariant w.Valid() && w.maze != null && w.Repr == old(w.Repr) && WaveExpansion <= w.stage <= Finish
      invariant w.maze.startPoint == Some(Pos(0, 0)) && w.maze.endPoint == Some(Pos(4, 4))
      invariant FiveByFive(w.maze.board) && w.maze.step + |w.maze.trace| <= 21
      decreases 21 - w.maze.step - |w.maze.trace|
    {
      FiveByFivePress(w);
      FiveByFiveBound(w.maze);
    }
    FiveByFiveHopCount(w.maze.board);
    FiveByFiveSearch(w.maze);
  }

  /** The whole walk through the shipped 5 x 5 maze, from selecting its
      size to the wizard's last stage. */
  method FiveByFiveWalkthrough() returns (w: Pathfinder)
    ensures w.Valid() && w.maze != null && w.stage == Finish && w.finishMessage == Some(FoundMessage)
    ensures w.maze.PathFound() && |w.maze.trace| == 10
  {
    w := FiveByFiveStart();
    FiveByFiveRun(w);
  }

  /** Without walls, opposite corners of a 5 x 5 table lie 8 hops apart
      with orthogonal neighbours. */
  lemma EmptyFiveByFiveOrthogonal(B: Board)
    requires |B| == 5 && Square(B)
    requires forall p :: InBounds(5, p) && p != Pos(0, 0) ==> Passable(B, p)
    ensures IsHopCount(B, Orthogonal, Pos(0, 0), Pos(4, 4), 8)
  {
    var f := (p: Pos) => p.row + p.col;
    forall a, b | Passable(B, b) && Adjacent(Orthogonal, |B|, a, b) ensures f(b) <= f(a) + 1 {
    }
    var w := [Pos(0, 0), Pos(0, 1), Pos(0, 2), Pos(0, 3), Pos(0, 4),
              Pos(1, 4), Pos(2, 4), Pos(3, 4), Pos(4, 4)];
    forall i | 1 <= i < |w| ensures Passable(B, w[i]) && Adjacent(Orthogonal, |B|, w[i - 1], w[i]) {
    }
    HopCountByPotential(B, Orthogonal, Pos(0, 0), w, f);
  }

  /** Without walls, opposite corners of a 5 x 5 table lie 4 hops apart
      when diagonal neighbours count too. */
  lemma EmptyFiveByFiveOrthoDiagonal(B: Board)
    requires |B| == 5 && Square(B)
    requires forall p :: InBounds(5, p) && p != Pos(0, 0) ==> Passable(B, p)
    ensures IsHopCount(B, OrthoDiagonal, Pos(0, 0), Pos(4, 4), 4)
  {
    var f := (p: Pos) => Max(p.row, p.col);
    forall a, b | Passable(B, b) && Adjacent(OrthoDiagonal, |B|, a, b) ensures f(b) <= f(a) + 1 {
    }
    var w := [Pos(0, 0), Pos(1, 1), Pos(2, 2), Pos(3, 3), Pos(4, 4)];
    forall i | 1 <= i < |w| ensures Passable(B, w[i]) && Adjacent(OrthoDiagonal, |B|, w[i - 1], w[i]) {
    }
    HopCountByPotential(B, OrthoDiagonal, Pos(0, 0), w, f);
  }
}
