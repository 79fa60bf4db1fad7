/** The table of cells as a value, and the reference notions the engine is
    proved against: reachability within k hops, the hop count (the length of
    a shortest walk), one wave-expansion layer, and the backtrace's choice of
    the neighbour with the fewest steps. */
module Grid {
  import opened Geometry

  datatype Option<T> = None | Some(value: T)

  /** What a cell's `info` holds: nothing, a wall, the start or the end. */
  datatype Info = Blank | Wall | Start | End

  /** A table cell: its `info`, its distance label (None while the cell's
      text is empty) and whether the backtrace has marked it as path. */
  datatype Cell = Cell(info: Info, dist: Option<nat>, onPath: bool)

  /** The table, row by row. */
  type Board = seq<seq<Cell>>

  const EmptyCell := Cell(Blank, None, false)

  /** Every row is as long as the table is tall. */
  predicate Square(B: Board)
  {
    forall r :: 0 <= r < |B| ==> |B[r]| == |B|
  }

  /** The cell at p; outside the table, a wall with no label. */
  function CellAt(B: Board, p: Pos): Cell
  {
    if 0 <= p.row < |B| && 0 <= p.col < |B[p.row]| then B[p.row][p.col] else Cell(Wall, None, false)
  }

  function Label(B: Board, p: Pos): Option<nat>
  {
    CellAt(B, p).dist
  }

  /** The board with the cell at p replaced by x. */
  function SetCell(B: Board, p: Pos, x: Cell): (B': Board)
    requires Square(B) && InBounds(|B|, p)
    ensures Square(B') && |B'| == |B|
    ensures forall q :: CellAt(B', q) == if q == p then x else CellAt(B, q)
  {
    B[p.row := B[p.row][p.col := x]]
  }

  /** Two square boards of one size with the same cells are equal. */
  lemma BoardExt(B: Board, B': Board)
    requires Square(B) && Square(B') && |B'| == |B|
    requires forall p :: InBounds(|B|, p) ==> CellAt(B', p) == CellAt(B, p)
    ensures B' == B
  {
    forall r | 0 <= r < |B| ensures B'[r] == B[r] {
      forall c | 0 <= c < |B| ensures B'[r][c] == B[r][c] {
        assert CellAt(B', Pos(r, c)) == CellAt(B, Pos(r, c));
      }
    }
  }

  /** A cell the wave may enter: inside the table with an empty `info`. */
  predicate Passable(B: Board, p: Pos)
  {
    InBounds(|B|, p) && CellAt(B, p).info == Blank
  }

  /** Two boards with the same cells' `info`: the same maze. */
  ghost predicate SameInfo(B: Board, B': Board)
  {
    |B| == |B'| && forall p :: InBounds(|B|, p) ==> CellAt(B, p).info == CellAt(B', p).info
  }

  // ---------------------------------------------------------------------
  // Reachability and hop count: the reference for the distance labels
  // ---------------------------------------------------------------------

  /** p can be reached from s by a walk of at most k hops between adjacent
      cells, every cell after s passable. */
  ghost predicate ReachWithin(B: Board, mode: Neighborhood, s: Pos, p: Pos, k: nat)
    decreases k
  {
    if k == 0 then p == s
    else (ReachWithin(B, mode, s, p, k - 1) ||
          (Passable(B, p) && exists q :: Adjacent(mode, |B|, q, p) && ReachWithin(B, mode, s, q, k - 1)))
  }

  /** k is the least number of hops from s to p: the shortest-path length. */
  ghost predicate IsHopCount(B: Board, mode: Neighborhood, s: Pos, p: Pos, k: nat)
  {
    ReachWithin(B, mode, s, p, k) && (k == 0 || !ReachWithin(B, mode, s, p, k - 1))
  }

  /** A walk through the maze: consecutive cells adjacent, every cell after
      the first passable. */
  ghost predicate IsWalk(B: Board, mode: Neighborhood, w: seq<Pos>)
  {
    |w| >= 1 &&
    forall i :: 1 <= i < |w| ==> Passable(B, w[i]) && Adjacent(mode, |B|, w[i - 1], w[i])
  }

  lemma {:induction false} ReachFrame(B: Board, B': Board, mode: Neighborhood, s: Pos, p: Pos, k: nat)
    requires SameInfo(B, B')
    ensures ReachWithin(B, mode, s, p, k) == ReachWithin(B', mode, s, p, k)
    decreases k
  {
    if k > 0 {
      ReachFrame(B, B', mode, s, p, k - 1);
      forall q | Adjacent(mode, |B|, q, p) ensures ReachWithin(B, mode, s, q, k - 1) == ReachWithin(B', mode, s, q, k - 1) {
        ReachFrame(B, B', mode, s, q, k - 1);
      }
    }
  }

  /** Hop counts depend only on the cells' `info`, not on labels or path marks. */
  lemma HopCountFrame(B: Board, B': Board, mode: Neighborhood, s: Pos)
    requires SameInfo(B, B')
    ensures forall p, k: nat :: IsHopCount(B, mode, s, p, k) == IsHopCount(B', mode, s, p, k)
  {
    forall p, k: nat ensures IsHopCount(B, mode, s, p, k) == IsHopCount(B', mode, s, p, k) {
      ReachFrame(B, B', mode, s, p, k);
      if k > 0 { ReachFrame(B, B', mode, s, p, k - 1); }
    }
  }

  lemma {:induction false} ReachMonotone(B: Board, mode: Neighborhood, s: Pos, p: Pos, j: nat, k: nat)
    requires j <= k && ReachWithin(B, mode, s, p, j)
    ensures ReachWithin(B, mode, s, p, k)
    decreases k - j
  {
    if j < k {
      ReachMonotone(B, mode, s, p, j, k - 1);
    }
  }

  /** Whatever can be reached at all has a hop count. */
  lemma {:induction false} ReachHasHopCount(B: Board, mode: Neighborhood, s: Pos, p: Pos, k: nat)
    requires ReachWithin(B, mode, s, p, k)
    ensures exists j: nat :: j <= k && IsHopCount(B, mode, s, p, j)
  {
    if k > 0 && ReachWithin(B, mode, s, p, k - 1) {
      ReachHasHopCount(B, mode, s, p, k - 1);
    } else {
      assert IsHopCount(B, mode, s, p, k);
    }
  }

  lemma HopCountUnique(B: Board, mode: Neighborhood, s: Pos, p: Pos, j: nat, k: nat)
    requires IsHopCount(B, mode, s, p, j) && IsHopCount(B, mode, s, p, k)
    ensures j == k
  {
    if j < k {
      ReachMonotone(B, mode, s, p, j, k - 1);
    } else if k < j {
      ReachMonotone(B, mode, s, p, k, j - 1);
    }
  }

  /** A cell at hop count k > 0 is passable and has an adjacent cell at hop
      count k - 1. */
  lemma HopCountPredecessor(B: Board, mode: Neighborhood, s: Pos, p: Pos, k: nat)
    requires k > 0 && IsHopCount(B, mode, s, p, k)
    ensures Passable(B, p)
    ensures exists q :: Adjacent(mode, |B|, q, p) && IsHopCount(B, mode, s, q, k - 1)
  {
    var q :| Adjacent(mode, |B|, q, p) && ReachWithin(B, mode, s, q, k - 1);
    assert IsHopCount(B, mode, s, q, k - 1);
  }

  /** A cell adjacent to a passable cell p is at most one hop closer to s. */
  lemma HopCountNeighbour(B: Board, mode: Neighborhood, s: Pos, p: Pos, m: nat, q: Pos, j: nat)
    requires Passable(B, p) && Adjacent(mode, |B|, q, p)
    requires IsHopCount(B, mode, s, p, m) && IsHopCount(B, mode, s, q, j)
    ensures m <= j + 1
  {
    assert ReachWithin(B, mode, s, p, j + 1);
    if j + 1 < m {
      ReachMonotone(B, mode, s, p, j + 1, m - 1);
    }
  }

  /** Hop counts have no gaps: below any hop count every smaller one occurs. */
  lemma {:induction false} HopCountDescend(B: Board, mode: Neighborhood, s: Pos, p: Pos, k: nat, m: nat)
    requires InBounds(|B|, s) && m <= k && IsHopCount(B, mode, s, p, k)
    ensures exists q :: InBounds(|B|, q) && IsHopCount(B, mode, s, q, m)
    decreases k - m
  {
    if m == k {
      if k == 0 {
        assert p == s;
      } else {
        HopCountPredecessor(B, mode, s, p, k);
      }
    } else {
      HopCountPredecessor(B, mode, s, p, k);
      var q :| Adjacent(mode, |B|, q, p) && IsHopCount(B, mode, s, q, k - 1);
      HopCountDescend(B, mode, s, q, k - 1, m);
    }
  }

  /** The cells of the first r rows of an n x n table. */
  ghost function TableRows(n: nat, r: nat): set<Pos>
  {
    set i, j | 0 <= i < r && 0 <= j < n :: Pos(i, j)
  }

  /** The cells of row i of an n x n table. */
  ghost function TableRow(n: nat, i: int): set<Pos>
  {
    set j | 0 <= j < n :: Pos(i, j)
  }

  lemma {:induction false} TableRowCount(n: nat, i: int)
    ensures |TableRow(n, i)| == n
  {
    if n > 0 {
      TableRowCount(n - 1, i);
      assert TableRow(n, i) == TableRow(n - 1, i) + {Pos(i, n - 1)};
    } else {
      assert TableRow(n, i) == {};
    }
  }

  /** The first r rows of an n x n table hold exactly the cells above row r. */
  lemma TableRowsMembers(n: nat, r: nat)
    ensures forall p: Pos :: p in TableRows(n, r) <==> 0 <= p.row < r && 0 <= p.col < n
  {
    forall p: Pos | 0 <= p.row < r && 0 <= p.col < n ensures p in TableRows(n, r) {
      assert p == Pos(p.row, p.col);
    }
  }

  /** The first r rows are the first r - 1 rows and row r - 1, apart. */
  lemma TableRowsSplit(n: nat, r: nat)
    requires r > 0
    ensures TableRows(n, r) == TableRows(n, r - 1) + TableRow(n, r - 1)
    ensures TableRows(n, r - 1) * TableRow(n, r - 1) == {}
  {
    TableRowsMembers(n, r);
    TableRowsMembers(n, r - 1);
  }

  /** The first r rows of an n x n table hold r * n cells. */
  lemma {:induction false} TableRowsCount(n: nat, r: nat)
    ensures |TableRows(n, r)| == r * n
  {
    if r > 0 {
      TableRowsCount(n, r - 1);
      TableRowCount(n, r - 1);
      TableRowsSplit(n, r);
      assert r * n == (r - 1) * n + n;
    } else {
      assert TableRows(n, r) == {};
    }
  }

  lemma SubsetCount(A: set<Pos>, C: set<Pos>)
    requires A <= C
    ensures |A| <= |C|
  {
    assert C == A + (C - A);
  }

  /** A cell at hop count k has k + 1 distinct cells behind it, one at each
      hop count 0..k. */
  lemma {:induction false} HopCountCells(B: Board, mode: Neighborhood, s: Pos, p: Pos, k: nat) returns (S: set<Pos>)
    requires InBounds(|B|, s) && IsHopCount(B, mode, s, p, k)
    ensures |S| == k + 1
    ensures forall q :: q in S ==> InBounds(|B|, q) && exists m: nat :: m <= k && IsHopCount(B, mode, s, q, m)
    decreases k
  {
    if k == 0 {
      assert p == s;
      S := {p};
    } else {
      HopCountPredecessor(B, mode, s, p, k);
      var q :| Adjacent(mode, |B|, q, p) && IsHopCount(B, mode, s, q, k - 1);
      var S' := HopCountCells(B, mode, s, q, k - 1);
      if p in S' {
        var m: nat :| m <= k - 1 && IsHopCount(B, mode, s, p, m);
        HopCountUnique(B, mode, s, p, m, k);
        assert false;
      }
      S := S' + {p};
      forall r | r in S ensures exists m: nat :: m <= k && IsHopCount(B, mode, s, r, m) {
        if r == p {
          assert IsHopCount(B, mode, s, r, k);
        } else {
          var m: nat :| m <= k - 1 && IsHopCount(B, mode, s, r, m);
        }
      }
    }
  }

  /** A hop count is below the number of cells of the table: a shortest walk
      never visits a cell twice. */
  lemma HopCountBound(B: Board, mode: Neighborhood, s: Pos, p: Pos, k: nat)
    requires InBounds(|B|, s) && IsHopCount(B, mode, s, p, k)
    ensures k < |B| * |B|
  {
    var S := HopCountCells(B, mode, s, p, k);
    TableRowsCount(|B|, |B|);
    TableRowsMembers(|B|, |B|);
    SubsetCount(S, TableRows(|B|, |B|));
  }

  /** A walk from s is at least as long as the hop count of where it ends. */
  lemma {:induction false} WalkReaches(B: Board, mode: Neighborhood, s: Pos, w: seq<Pos>)
    requires IsWalk(B, mode, w) && w[0] == s
    ensures ReachWithin(B, mode, s, w[|w| - 1], |w| - 1)
  {
    if |w| > 1 {
      var w' := w[..|w| - 1];
      assert IsWalk(B, mode, w');
      WalkReaches(B, mode, s, w');
      assert Adjacent(mode, |B|, w'[|w'| - 1], w[|w| - 1]);
    }
  }

  lemma ShortestWalk(B: Board, mode: Neighborhood, s: Pos, w: seq<Pos>, k: nat)
    requires IsWalk(B, mode, w) && w[0] == s && IsHopCount(B, mode, s, w[|w| - 1], k)
    ensures |w| - 1 >= k
  {
    WalkReaches(B, mode, s, w);
    if |w| - 1 < k {
      ReachMonotone(B, mode, s, w[|w| - 1], |w| - 1, k - 1);
    }
  }

  /** A potential that is at most 0 on s and rises by at most one per hop
      into a passable cell bounds from below the hops any walk from s
      needs. */
  lemma {:induction false} ReachPotential(B: Board, mode: Neighborhood, s: Pos, f: Pos -> int, p: Pos, k: nat)
    requires f(s) <= 0
    requires forall a, b :: Passable(B, b) && Adjacent(mode, |B|, a, b) ==> f(b) <= f(a) + 1
    requires ReachWithin(B, mode, s, p, k)
    ensures f(p) <= k
    decreases k
  {
    if k > 0 {
      if ReachWithin(B, mode, s, p, k - 1) {
        ReachPotential(B, mode, s, f, p, k - 1);
      } else {
        var q :| Adjacent(mode, |B|, q, p) && ReachWithin(B, mode, s, q, k - 1);
        ReachPotential(B, mode, s, f, q, k - 1);
      }
    }
  }

  /** A walk from s and such a potential that equals the walk's length at
      its last cell: the walk is a shortest one, so its length is that
      cell's hop count. */
  lemma HopCountByPotential(B: Board, mode: Neighborhood, s: Pos, w: seq<Pos>, f: Pos -> int)
    requires IsWalk(B, mode, w) && w[0] == s
    requires f(s) <= 0
    requires forall a, b :: Passable(B, b) && Adjacent(mode, |B|, a, b) ==> f(b) <= f(a) + 1
    requires f(w[|w| - 1]) >= |w| - 1
    ensures IsHopCount(B, mode, s, w[|w| - 1], |w| - 1)
  {
    WalkReaches(B, mode, s, w);
    if |w| > 1 && ReachWithin(B, mode, s, w[|w| - 1], |w| - 2) {
      ReachPotential(B, mode, s, f, w[|w| - 1], |w| - 2);
    }
  }

  // ---------------------------------------------------------------------
  // Distance labels as hop counts
  // ---------------------------------------------------------------------

  /** The labelled cells are exactly those at hop count below `step`, and
      each carries its hop count. */
  ghost predicate Layered(B: Board, mode: Neighborhood, s: Pos, step: nat)
  {
    (forall p :: InBounds(|B|, p) && Label(B, p).Some? ==>
       Label(B, p).value < step && IsHopCount(B, mode, s, p, Label(B, p).value)) &&
    (forall p, k: nat {:trigger IsHopCount(B, mode, s, p, k)} :: InBounds(|B|, p) && k < step && IsHopCount(B, mode, s, p, k) ==>
       Label(B, p) == Some(k))
  }

  /** Marking cells as path keeps the layering: it changes neither `info`
      nor labels. */
  lemma LayeredFrame(B: Board, B': Board, mode: Neighborhood, s: Pos, step: nat)
    requires SameInfo(B, B') && Layered(B, mode, s, step)
    requires forall p :: InBounds(|B|, p) ==> Label(B', p) == Label(B, p)
    ensures Layered(B', mode, s, step)
  {
    HopCountFrame(B, B', mode, s);
  }

  /** q is on the wave front of the call made with `step`: it carries
      step - 1. */
  predicate Frontier(B: Board, step: nat, q: Pos)
  {
    InBounds(|B|, q) && Label(B, q).Some? && Label(B, q).value + 1 == step
  }

  /** p receives the label `step` in an expansion: it is unlabelled, has an
      empty `info` and is a neighbour of a front cell. */
  ghost predicate Reached(B: Board, mode: Neighborhood, step: nat, p: Pos)
  {
    Label(B, p).None? && Passable(B, p) && exists q :: Frontier(B, step, q) && Adjacent(mode, |B|, q, p)
  }

  /** The expansion with `step` labels some cell. */
  ghost predicate AnyReached(B: Board, mode: Neighborhood, step: nat)
  {
    exists p :: InBounds(|B|, p) && Reached(B, mode, step, p)
  }

  /** B' is B after one expansion layer with `step`. */
  ghost predicate IsExpansion(B: Board, B': Board, mode: Neighborhood, step: nat)
  {
    Square(B') && |B'| == |B| &&
    forall p :: InBounds(|B|, p) ==>
      CellAt(B', p) == if Reached(B, mode, step, p) then CellAt(B, p).(dist := Some(step)) else CellAt(B, p)
  }

  /** A cell an expansion labels with `step` lies at hop count `step`. */
  lemma ReachedIsHopCount(B: Board, mode: Neighborhood, s: Pos, step: nat, p: Pos)
    requires step >= 1 && Layered(B, mode, s, step) && Reached(B, mode, step, p)
    ensures IsHopCount(B, mode, s, p, step)
  {
    var q :| Frontier(B, step, q) && Adjacent(mode, |B|, q, p);
    assert ReachWithin(B, mode, s, q, step - 1);
    assert ReachWithin(B, mode, s, p, step);
    if ReachWithin(B, mode, s, p, step - 1) {
      ReachHasHopCount(B, mode, s, p, step - 1);
    }
  }

  /** A cell at hop count `step` is labelled by the expansion with `step`. */
  lemma HopCountIsReached(B: Board, mode: Neighborhood, s: Pos, step: nat, p: Pos)
    requires step >= 1 && Layered(B, mode, s, step) && IsHopCount(B, mode, s, p, step)
    ensures Reached(B, mode, step, p)
  {
    HopCountPredecessor(B, mode, s, p, step);
    var q :| Adjacent(mode, |B|, q, p) && IsHopCount(B, mode, s, q, step - 1);
    assert Frontier(B, step, q);
    if Label(B, p).Some? {
      HopCountUnique(B, mode, s, p, Label(B, p).value, step);
    }
  }

  /** One expansion layer keeps the labels equal to hop counts, now below
      step + 1, and it labels a cell exactly when some cell lies at hop
      count `step`. */
  lemma ExpansionLayers(B: Board, B': Board, mode: Neighborhood, s: Pos, step: nat)
    requires Square(B) && step >= 1 && Layered(B, mode, s, step) && IsExpansion(B, B', mode, step)
    ensures Layered(B', mode, s, step + 1)
    ensures AnyReached(B, mode, step) <==> exists p :: InBounds(|B|, p) && IsHopCount(B, mode, s, p, step)
  {
    assert SameInfo(B, B');
    HopCountFrame(B, B', mode, s);
    forall p | InBounds(|B'|, p) && Label(B', p).Some?
      ensures Label(B', p).value < step + 1 && IsHopCount(B', mode, s, p, Label(B', p).value)
    {
      if Reached(B, mode, step, p) {
        ReachedIsHopCount(B, mode, s, step, p);
      }
    }
    forall p, k: nat | InBounds(|B'|, p) && k < step + 1 && IsHopCount(B', mode, s, p, k)
      ensures Label(B', p) == Some(k)
    {
      if k == step {
        HopCountIsReached(B, mode, s, step, p);
      }
    }
    if AnyReached(B, mode, step) {
      var p :| InBounds(|B|, p) && Reached(B, mode, step, p);
      ReachedIsHopCount(B, mode, s, step, p);
    }
    if exists p :: InBounds(|B|, p) && IsHopCount(B, mode, s, p, step) {
      var p :| InBounds(|B|, p) && IsHopCount(B, mode, s, p, step);
      HopCountIsReached(B, mode, s, step, p);
    }
  }

  /** Once no cell lies at hop count step - 1, a cell still unlabelled can
      never be reached. */
  lemma Exhausted(B: Board, mode: Neighborhood, s: Pos, step: nat, p: Pos)
    requires InBounds(|B|, s) && step >= 1 && Layered(B, mode, s, step)
    requires forall q :: InBounds(|B|, q) ==> !IsHopCount(B, mode, s, q, step - 1)
    requires InBounds(|B|, p) && Label(B, p).None?
    ensures forall k: nat :: !ReachWithin(B, mode, s, p, k)
  {
    forall k: nat ensures !ReachWithin(B, mode, s, p, k) {
      if ReachWithin(B, mode, s, p, k) {
        ReachHasHopCount(B, mode, s, p, k);
        var j: nat :| j <= k && IsHopCount(B, mode, s, p, j);
        if j >= step {
          HopCountDescend(B, mode, s, p, j, step - 1);
        }
      }
    }
  }

  /** So the expansion phase ends: once `step` reaches the number of cells,
      a layer labels nothing. */
  lemma LayersEnd(B: Board, mode: Neighborhood, s: Pos, step: nat)
    requires InBounds(|B|, s) && Layered(B, mode, s, step) && step >= |B| * |B|
    ensures !AnyReached(B, mode, step)
  {
    if AnyReached(B, mode, step) {
      var p :| InBounds(|B|, p) && Reached(B, mode, step, p);
      var q :| Frontier(B, step, q) && Adjacent(mode, |B|, q, p);
      ReachedIsHopCount(B, mode, s, step, p);
      HopCountBound(B, mode, s, p, step);
    }
  }

  // ---------------------------------------------------------------------
  // The backtrace's choice: the reduce in _nextCellWithMinSteps
  // ---------------------------------------------------------------------

  /** a < b as the source compares parsed labels: an empty label parses to
      NaN, and every comparison with NaN is false. */
  predicate LabelLess(a: Option<nat>, b: Option<nat>)
  {
    a.Some? && b.Some? && a.value < b.value
  }

  /** Left-to-right reduce over the neighbours, starting from `current`,
      keeping a cell whenever its label is strictly smaller. The result is
      `current` or a neighbour with a strictly smaller label, and no neighbour
      has a label strictly below the result's. */
  function NextCellWithMinSteps(B: Board, current: Pos, neighbours: seq<Pos>): (r: Pos)
    ensures r == current || (r in neighbours && LabelLess(Label(B, r), Label(B, current)))
    ensures forall n :: n in neighbours ==> !LabelLess(Label(B, n), Label(B, r))
    decreases |neighbours|
  {
    if neighbours == [] then current
    else
      var acc := if LabelLess(Label(B, neighbours[0]), Label(B, current)) then neighbours[0] else current;
      NextCellWithMinSteps(B, acc, neighbours[1..])
  }

  /** One step of the reduce, from the k-th neighbour on. */
  lemma ReduceStep(B: Board, acc: Pos, neighbours: seq<Pos>, k: int)
    requires 0 <= k < |neighbours|
    ensures NextCellWithMinSteps(B, acc, neighbours[k..]) ==
      NextCellWithMinSteps(B, if LabelLess(Label(B, neighbours[k]), Label(B, acc)) then neighbours[k] else acc, neighbours[k + 1..])
  {
    assert neighbours[k..][0] == neighbours[k] && neighbours[k..][1..] == neighbours[k + 1..];
  }

  /** The tie-break: when the reduce moves, it picks the first neighbour in
      scan order whose label equals the minimum. */
  lemma {:induction false} NextCellIsFirstMinimum(B: Board, current: Pos, neighbours: seq<Pos>)
    ensures var r := NextCellWithMinSteps(B, current, neighbours);
      r != current ==>
        exists k :: 0 <= k < |neighbours| && neighbours[k] == r &&
          forall i :: 0 <= i < k ==> Label(B, neighbours[i]) != Label(B, r)
    decreases |neighbours|
  {
    if neighbours != [] {
      var n0 := neighbours[0];
      var acc := if LabelLess(Label(B, n0), Label(B, current)) then n0 else current;
      var r := NextCellWithMinSteps(B, current, neighbours);
      assert r == NextCellWithMinSteps(B, acc, neighbours[1..]);
      NextCellIsFirstMinimum(B, acc, neighbours[1..]);
      if r != current {
        if r == acc {
          assert neighbours[0] == r;
        } else {
          var k :| 0 <= k < |neighbours[1..]| && neighbours[1..][k] == r &&
            forall i :: 0 <= i < k ==> Label(B, neighbours[1..][i]) != Label(B, r);
          assert LabelLess(Label(B, r), Label(B, acc));
          assert Label(B, n0) != Label(B, r);
          assert neighbours[k + 1] == r;
        }
      }
    }
  }

  /** From a labelled cell c at hop count m > 0, the reduce over c's
      neighbours moves to an adjacent cell labelled m - 1. */
  lemma BacktraceMove(B: Board, mode: Neighborhood, s: Pos, step: nat, c: Pos, m: nat, ns: seq<Pos>)
    requires Layered(B, mode, s, step)
    requires InBounds(|B|, c) && Label(B, c) == Some(m) && m >= 1
    requires forall p :: p in ns <==> Adjacent(mode, |B|, c, p)
    ensures var r := NextCellWithMinSteps(B, c, ns);
      Adjacent(mode, |B|, c, r) && Label(B, r) == Some(m - 1)
  {
    var r := NextCellWithMinSteps(B, c, ns);
    assert m < step && IsHopCount(B, mode, s, c, m);
    HopCountPredecessor(B, mode, s, c, m);
    var q :| Adjacent(mode, |B|, q, c) && IsHopCount(B, mode, s, q, m - 1);
    AdjacentSymmetric(mode, |B|, q, c);
    assert q in ns;
    assert Label(B, q) == Some(m - 1);
    assert !LabelLess(Label(B, q), Label(B, r));
    assert r != c;
    assert r in ns && LabelLess(Label(B, r), Label(B, c));
    AdjacentSymmetric(mode, |B|, c, r);
    var j := Label(B, r).value;
    assert IsHopCount(B, mode, s, r, j);
    HopCountNeighbour(B, mode, s, c, m, r, j);
  }
}
