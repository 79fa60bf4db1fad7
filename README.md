# Maze pathfinder: Lee's wave expansion and its wizard, in Dafny

This project models the core of a browser maze pathfinder. It has two parts.

**The maze engine (`Maze`).** An N x N table of cells. Before a search starts, clicks toggle walls. The user then picks a start cell and an end cell. Each press of "next" does one of two things:
- while the end cell has no label, it runs one layer of Lee's wave expansion (a breadth-first search, one distance layer per call);
- once the end cell is labelled, it moves one cell back along the labels, from the end towards the start.

When the search ends, the engine reports it with a "finish" event carrying one of two messages: "There is no path could be found!" or "The path was found!".

**The wizard (`Pathfinder`).** A stage machine over seven stages, 0 to 6:
- CHOOSING_SIZE
- CHANGING_MAZE
- CHOOSING_START_POINT
- CHOOSING_END_POINT
- WAVE_EXPANSION
- BACKTRACE
- FINISH

Selecting a size creates a maze filled with one of three shipped wall patterns. The "next" button moves the stages forward. The engine's "backTraceStart" and "finish" events move the wizard into BACKTRACE and FINISH.

The modules follow the program's structure:

- `Geometry` (geometry.dfy): cell positions, and the two neighbourhood conditions:
  - ORTHOGONAL, the von Neumann neighbourhood (4 neighbours);
  - ORTHO_DIAGONAL, the Moore neighbourhood (8 neighbours).

  It also holds the clamped 3 x 3 scan of `cellNeighbours`, written as a specification function.
- `Grid` (grid.dfy): cells and tables as values, and the reference the search is proved against:
  - reachability within k hops, and the hop count (the length of a shortest walk);
  - one expansion layer as a relation between two tables;
  - the backtrace's `reduce` as a function.
- `Search` (search.dfy): the search on table values:
  - the intermediate states of the expansion scan;
  - the state kept between two presses of "next";
  - how the first call's setup, one expansion layer and one backtrace move preserve that state.
- `Engine` (engine.dfy): the class `Maze`. Its cells are an `array2`, and a ghost `board` field mirrors the array as a value. Its methods follow the source's loops and field updates. `Valid()` holds:
  - the array and the board agree;
  - the points, the point being chosen, the click listener and `step` are consistent with one another;
  - once the search has started, every label equals the cell's hop count from the start;
  - the backtrace so far is a chain of moves, each to a neighbour labelled one less.
- `Wizard` (wizard.dfy): the shipped wall patterns and the class `Pathfinder`. Its `Valid()` ties each stage to the state of the maze it holds.
- `Scenario` (scenario.dfy): the shipped 5 x 5 maze searched from corner to corner.

With the shipped 5 x 5 walls and orthogonal neighbours, the end (4,4) lies 10 hops from the start (0,0), not the 8 of a 5 x 5 table without walls (4 with diagonal neighbours). The wall row above the last row forces the detour. The model proves all three counts, and it runs the wizard through a whole search of that maze.

The program has no operation that clears labels and path marks from a searched maze. A new search needs a new maze, so the model has no reset either.

## Model

| member | source | states |
|---|---|---|
| `Geometry.ConditionIrreflexiveSymmetric` | frontend/js/maze1.js:26-33 | Neither neighbourhood condition relates a cell to itself, and both are symmetric in the two cells. |
| `Geometry.ConditionInWindow` | frontend/js/maze1.js:26-33 | Inside the 3 x 3 window, ORTHOGONAL holds exactly when the two cells differ in one coordinate only, and ORTHO_DIAGONAL for every other cell. So every ORTHOGONAL neighbour is an ORTHO_DIAGONAL one. |
| `Geometry.AdjacentSymmetric` | frontend/js/maze1.js:136-148 | Adjacency as `cellNeighbours` sees it (in bounds, in the window, the condition called column first) is symmetric and never relates a cell to itself. |
| `Geometry.NeighboursMembers` | frontend/js/maze1.js:136-148 | The clamped window scan lists exactly the adjacent cells: only in-bounds cells within Chebyshev distance 1, never the cell itself, no wrap-around. |
| `Geometry.NeighboursCount` | frontend/js/maze1.js:136-148 | The scan lists at most 4 cells under ORTHOGONAL and at most 8 under ORTHO_DIAGONAL. |
| `Grid.NextCellWithMinSteps` | frontend/js/maze1.js:272-280 | The reduce returns the current cell or a neighbour whose label is strictly below the current cell's, so never an unlabelled neighbour (an empty label parses to NaN). No neighbour's label is strictly below the result's. |
| `Grid.NextCellIsFirstMinimum` | frontend/js/maze1.js:272-280 | When the reduce moves, it picks the first neighbour in scan order that carries the label it ends on. This is the tie-break. |
| `Grid.BacktraceMove` | frontend/js/maze1.js:246-262 | When labels are hop counts, the reduce moves from a cell labelled m >= 1 to an adjacent cell labelled m - 1. |
| `Grid.ExpansionLayers` | frontend/js/maze1.js:216-238 | One expansion layer keeps every label equal to its cell's hop count, now for hop counts below step + 1. It labels some cell exactly when some cell lies at hop count `step`. |
| `Grid.HopCountBound` | frontend/js/maze1.js:216-238 | Every hop count is below the number of cells, size x size: a shortest walk never visits a cell twice. |
| `Grid.LayersEnd` | frontend/js/maze1.js:117-122 | Once `step` reaches size x size, a layer labels nothing. So the expansion phase ends, with the end labelled or with the no-path message. |
| `Grid.Exhausted` | frontend/js/maze1.js:216-238 | Once no cell lies at the hop count of the last layer, a cell that is still unlabelled cannot be reached by any walk. |
| `Search.SetupState` | frontend/js/maze1.js:108-115 | After the first call's setup (start labelled 0, the end's `info` cleared), the labels are the hop counts below 1 and the end is unlabelled. |
| `Search.ExpandState` | frontend/js/maze1.js:216-238 | While the end is unlabelled, an expansion layer keeps the search state: labels are hop counts and there are no path marks. |
| `Search.ExpandExhausted` | frontend/js/maze1.js:117-122 | If a layer labels nothing while the end is unlabelled, the end stays unlabelled and no walk of any length reaches it. |
| `Search.NextMove` | frontend/js/maze1.js:246-262 | Each backtrace move goes from the cursor to an adjacent cell labelled one less. The cursor reaches the start exactly on move number end-label, and stays there afterwards. |
| `Search.BackStep` | frontend/js/maze1.js:246-262 | One backtrace call keeps the search state and the end's label. On the start nothing changes. Elsewhere the trace grows by one move and never past the end's label, so the backtrace terminates. |
| `Search.BacktraceIsShortest` | frontend/js/maze1.js:246-262 | Once the backtrace has reached the start, its moves read backwards form a walk from start to end with as many moves as the end's label. No walk from start to end is shorter. |
| `Engine.Maze.constructor` | frontend/js/maze1.js:10-23 | A new maze has every cell empty, no start or end, `step` unset, the wall-editing listener attached, and the neighbourhood chosen by the option. |
| `Engine.Maze.CellNeighbours` | frontend/js/maze1.js:136-148 | The nested loops return exactly the scan that the specification function `Neighbours` lists, in the same order. |
| `Engine.Maze.FillWithPattern` | frontend/js/maze1.js:59-74 | Does nothing once a start point exists. Otherwise it makes a wall of exactly the cells whose pattern entry is 'W' and leaves every other cell unchanged. |
| `Engine.Maze.ChoosePoint` | frontend/js/maze1.js:76-99 | Ignored once `step` is set. "start" enters start choosing and attaches the point-marking listener. "end" enters end choosing and keeps the listener. |
| `Engine.Maze.ChangeCell` | frontend/js/maze1.js:151-165 | A click inside the table clears any `info` on that cell or turns an empty cell into a wall. A click elsewhere does nothing. |
| `Engine.Maze.MarkPoint` | frontend/js/maze1.js:167-198 | A click on the selected point deselects it and clears its `info`. With nothing selected, a click on a cell with empty `info` selects it, so walls and the start cannot be selected. At most one point is selected per mode, and it becomes the start or the end. |
| `Engine.Maze.Click` | frontend/js/maze1.js:81-91 | A click goes to whichever listener is attached. With the wall-editing listener it has the effect of `changeCell` (`CellChanged`). With the point-marking listener it has the effect of `markPoint` (`PointMarked`): select or deselect one point, which becomes the start or the end. With none attached (search started) the maze is unchanged. A click never changes `step` or the mode's kind. |
| `Engine.Maze.NextCellWithMinStepsIn` | frontend/js/maze1.js:272-280 | The loop over the table's cells computes the reduce `NextCellWithMinSteps`. |
| `Engine.Maze.MarkFreshNeighbours` | frontend/js/maze1.js:226-231 | The filter and forEach label with `step` exactly the listed cells that are unlabelled and have empty `info`. The result is true exactly when such a cell existed. |
| `Engine.Maze.ExpandCell` | frontend/js/maze1.js:222-232 | Visiting one cell of the scan extends the scanned prefix by that cell. It reports whether the visit labelled anything. |
| `Engine.Maze.ExpandRow` | frontend/js/maze1.js:221-233 | Visiting one row extends the scanned prefix by that row. It reports whether anything was labelled. |
| `Engine.Maze.WaveExpansionStep` | frontend/js/maze1.js:216-238 | One call labels exactly the unlabelled open neighbours of cells labelled step - 1, giving each `step`, so labels keep equalling hop counts. It increments `step` by one and returns true exactly when it labelled a cell. Returning false means the end is unreachable. A call with `step` at size x size or beyond returns false. |
| `Engine.Maze.NextCursorIn` | frontend/js/maze1.js:247-253 | The cursor's next cell is the reduce over the neighbours of its current cell, or of the end before the first move. It lies in the table. |
| `Engine.Maze.MoveCursor` | frontend/js/maze1.js:253-261 | The cursor moves onto the chosen cell. The cell is marked as path unless it is the start, and the move is recorded. |
| `Engine.Maze.ArrivalIsPathFound` | frontend/js/maze1.js:255-256 | When the cursor stands on the start, the marked cells and the end form a shortest walk from the start to the end, and no other cell is marked. |
| `Engine.Maze.BackTraceStep` | frontend/js/maze1.js:246-262 | One backtrace move as `BackMoved` describes it, keeping the maze valid and the end's label. It returns false exactly when the cursor is on the start, and then the path found is a shortest one. |
| `Engine.Maze.PathWithinTable` | frontend/js/maze1.js:246-262 | Once the end is labelled, its label and the backtrace's length stay below size x size. |
| `Engine.Maze.BeginSearch` | frontend/js/maze1.js:108-115 | The first call removes the listener, labels the start 0, clears the end's `info` and sets `step` to 1. The end is then unlabelled. |
| `Engine.Maze.Advance` | frontend/js/maze1.js:117-133 | With the end unlabelled: one expansion layer, and "finish" with the no-path message if nothing was labelled. With the end labelled: "backTraceStart" and one backtrace move, and "finish" with the found message once the cursor is on the start. |
| `Engine.Maze.NextStep` | frontend/js/maze1.js:101-134 | Does nothing unless both points are set. The first call sets up the search. Every call then does exactly one expansion layer or exactly one backtrace move. "No path" is reported only when no walk reaches the end, and "found" only when the path is a shortest one. |
| `Wizard.Patterns` | frontend/js/pathfinder.js:4-15 | Each shipped pattern (sizes 5, 10 and 20) is size x size. |
| `Wizard.Pathfinder.constructor` | frontend/js/pathfinder.js:18-34 | The wizard starts in CHOOSING_SIZE with no maze. |
| `Wizard.Pathfinder.Clear` | frontend/js/pathfinder.js:143-152 | The previous maze, if any, is dropped. |
| `Wizard.Pathfinder.PatternMaze` | frontend/js/pathfinder.js:72-76 | A new orthogonal maze of the given size, with walls exactly where the size's pattern has them, and nothing else set. |
| `Wizard.Pathfinder.CreateMaze` | frontend/js/pathfinder.js:63-89 | The old maze is always dropped first. A size then gives a new maze filled with its pattern, in stage CHANGING_MAZE. The empty choice leaves no maze, in stage CHOOSING_SIZE. |
| `Wizard.Pathfinder.OpenStartChoice` | frontend/js/pathfinder.js:93-97 | From CHANGING_MAZE, "next" always moves to CHOOSING_START_POINT and puts the maze in start choosing. |
| `Wizard.Pathfinder.ConfirmStart` | frontend/js/pathfinder.js:100-109 | From CHOOSING_START_POINT, "next" moves to CHOOSING_END_POINT and end choosing only if a start exists. Otherwise nothing changes. |
| `Wizard.Pathfinder.ConfirmEnd` | frontend/js/pathfinder.js:111-120 | From CHOOSING_END_POINT, "next" starts the search only if an end exists: the first layer is expanded, and the stage becomes WAVE_EXPANSION, or FINISH if that layer labels nothing. Otherwise nothing changes. |
| `Wizard.Pathfinder.SearchStep` | frontend/js/pathfinder.js:122-126 | In WAVE_EXPANSION and BACKTRACE, "next" only delegates to the maze. The stage follows the maze's events: BACKTRACE on a backtrace move, FINISH when a layer labels nothing or the cursor reaches the start. |
| `Wizard.Pathfinder.Next` | frontend/js/pathfinder.js:91-130 | "Next" does nothing in CHOOSING_SIZE and FINISH, and the stage never goes back. Stage by stage: CHANGING_MAZE always moves to CHOOSING_START_POINT with start choosing on; CHOOSING_START_POINT moves to CHOOSING_END_POINT only when a start exists; CHOOSING_END_POINT, with an end, sets up the search and expands the first layer, ending in WAVE_EXPANSION, or FINISH with the no-path message when that layer labels nothing. In WAVE_EXPANSION and BACKTRACE it does one expansion layer or one backtrace move, and the stage follows the maze's events. The cells, the points and the search fields change only in the stages that touch them. |
| `Wizard.Pathfinder.ClickMaze` | frontend/js/maze1.js:151-198 | A click on the table keeps the wizard's invariant in every stage and never moves the stage. In CHANGING_MAZE it toggles the wall as `CellChanged` describes. In CHOOSING_START_POINT and CHOOSING_END_POINT it marks a point as `PointMarked` describes. Once the search has started it leaves the maze untouched. |
| `Wizard.Pathfinder.OnBackTraceStart` | frontend/js/pathfinder.js:132-135 | The "backTraceStart" event sets BACKTRACE. |
| `Wizard.Pathfinder.OnFinish` | frontend/js/pathfinder.js:137-141 | The "finish" event sets FINISH and shows its message. |
| `Wizard.Pathfinder.Dispatch` | frontend/js/pathfinder.js:28-29 | The events of one call are delivered in order: "backTraceStart" first, then "finish", which wins. |
| `Scenario.FiveByFiveWalls` | frontend/js/pathfinder.js:5 | The 5 x 5 pattern has walls exactly at (1,0), (1,2), (1,3) and (3,1) to (3,4). |
| `Scenario.FiveByFiveHopCount` | frontend/js/pathfinder.js:5 | On that maze with orthogonal neighbours, the end (4,4) lies exactly 10 hops from the start (0,0). |
| `Scenario.FiveByFiveSearch` | frontend/js/pathfinder.js:5 | A valid maze searching that layout leaves the end unlabelled until `step` passes 10, and then labels it 10. The path the backtrace finds has 10 moves. |
| `Scenario.SearchStepProgress` | frontend/js/maze1.js:117-133 | Each step of a search whose cursor is not yet on the start (one layer while the end is unlabelled, one backtrace move after) keeps the walls, the start and the end. It strictly increases `step` plus the number of backtrace moves. |
| `Scenario.FiveByFiveBound` | frontend/js/pathfinder.js:5 | During a search of the 5 x 5 maze, `step` plus the number of backtrace moves never exceeds 21. |
| `Scenario.FiveByFiveChoose` | frontend/js/pathfinder.js:63-109 | Selecting size 5, pressing "next", clicking (0,0), pressing "next" and clicking (4,4) leaves the wizard in CHOOSING_END_POINT. The maze is the shipped pattern with the start at (0,0) and the end at (4,4). |
| `Scenario.FiveByFiveStart` | frontend/js/pathfinder.js:111-120 | Pressing "next" after that starts the search. The first layer labels a cell, so the wizard enters WAVE_EXPANSION with `step` at 2. |
| `Scenario.FiveByFivePress` | frontend/js/pathfinder.js:122-126 | A press of "next" during that search keeps the walls and both points, and moves the search on. |
| `Scenario.FiveByFiveRun` | frontend/js/pathfinder.js:122-141 | Pressing "next" until FINISH terminates. The wizard ends with "The path was found!" and a shortest path of 10 moves. |
| `Scenario.FiveByFiveWalkthrough` | frontend/js/pathfinder.js:63-141 | The whole session from size selection to FINISH on the shipped 5 x 5 maze ends with the path found, and the path has 10 moves. |
| `Scenario.EmptyFiveByFiveOrthogonal` | frontend/js/maze1.js:26-28 | Without walls, opposite corners of a 5 x 5 table lie 8 hops apart with orthogonal neighbours. |
| `Scenario.EmptyFiveByFiveOrthoDiagonal` | frontend/js/maze1.js:31-33 | Without walls, opposite corners of a 5 x 5 table lie 4 hops apart with diagonal neighbours. |

## Left out

- Rendering is not modelled. This covers building the table (`_renderMaze`), `Maze.clear` (which only empties the element), the CSS toggles (`_toggleWall`, `_toggleStart`, `_toggleFinish`, `_markPath`) and the polyfills. A fresh `Maze` object stands for a fresh table. The path mark is the cell's `onPath` flag.
- Event listeners are not modelled as such. The `handler` field records which click listener is attached. A click target found by `closest('td')` becomes a (row, col) pair, and a click outside the cells becomes a pair outside the table.
- Custom events become a `Signals` value returned by `NextStep`. It records whether "backTraceStart" was dispatched and the "finish" message, if any. `Dispatch` delivers them to the wizard in the source's order.
- Labels are not stored as `innerHTML` text. A label is an optional natural number. `parseInt` of an empty label (NaN) is modelled by `LabelLess`, which is false whenever either side is unlabelled.
- Points are not DOM element references. The start, the end and the selected point are cell positions, so the source's element identity `td === this._choosing.point` becomes position equality.
- `step` is not `undefined` before the search. `Maze.step` is 0 until the search starts. The source only tests it for truthiness and never assigns 0.
- UI-only wizard code is not modelled: `_blinkCurrentStage` (a timer), `_changeActiveStage` (breadcrumb styling), `_showEl` and `_hideEl`. The one part of `_changeActiveStage` with content is the message shown on FINISH, which is kept as `finishMessage`.
- `parseInt` of the size selector is not modelled. `CreateMaze` takes the size as a number, with 0 standing for the empty choice (0 or NaN).
- Engine.Maze.ChoosePoint: requires that "start" is not chosen while start choosing is already on. In the source, a second call would bind and attach a second point-marking listener, so each click would be handled twice. The wizard never makes such a call.
- Wizard.Pathfinder.CreateMaze: requires a size with a shipped pattern (5, 10 or 20) or the empty choice. For any other size, `patterns[size]` is undefined and `fillWithPattern` would fail on it.
- Engine.Maze.FillWithPattern: requires at least `size` pattern rows before a start exists, because the source fails on a missing row. A short row reads as open cells, as `undefined !== 'W'` does in the source.
- The getters `size`, `startPoint`, `endPoint`, `step` and `stage` are not separate members. They are the fields themselves.
