/** The search on board values: the expansion scan's intermediate states,
    the state kept between calls of the "next" button, and how one expansion
    layer and one backtrace move preserve it. */
module Search {
  import opened Geometry
  import opened Grid

  /** No cell labelled and no cell marked as path. */
  ghost predicate Untouched(B: Board)
  {
    forall p :: InBounds(|B|, p) ==> Label(B, p).None? && !CellAt(B, p).onPath
  }

  ghost predicate NoPathMarks(B: Board)
  {
    forall p :: InBounds(|B|, p) ==> !CellAt(B, p).onPath
  }

  /** B' is B with the cells of ns that are unlabelled and have an empty
      `info` labelled `step`. */
  ghost predicate IsMarking(B: Board, B': Board, step: nat, ns: seq<Pos>)
  {
    Square(B') && |B'| == |B| &&
    forall p :: InBounds(|B|, p) ==>
      CellAt(B', p) == if p in ns && Label(B, p).None? && Passable(B, p) then CellAt(B, p).(dist := Some(step)) else CellAt(B, p)
  }

  /** q comes before (i, j) in the row-major scan. */
  predicate Before(q: Pos, i: int, j: int)
  {
    q.row < i || (q.row == i && q.col < j)
  }

  /** p is labelled by the part of the expansion scan before (i, j). */
  ghost predicate ReachedBefore(B0: Board, mode: Neighborhood, step: nat, p: Pos, i: int, j: int)
  {
    Label(B0, p).None? && Passable(B0, p) &&
    exists q :: Before(q, i, j) && Frontier(B0, step, q) && Adjacent(mode, |B0|, q, p)
  }

  /** Some cell is labelled by the part of the expansion scan before (i, j). */
  ghost predicate AnyReachedBefore(B0: Board, mode: Neighborhood, step: nat, i: int, j: int)
  {
    exists p :: InBounds(|B0|, p) && ReachedBefore(B0, mode, step, p, i, j)
  }

  /** B is B0 after the expansion scan has visited the cells before (i, j). */
  ghost predicate ScannedUpTo(B0: Board, B: Board, mode: Neighborhood, step: nat, i: int, j: int)
  {
    Square(B) && |B| == |B0| &&
    forall p :: InBounds(|B0|, p) ==>
      CellAt(B, p) == if ReachedBefore(B0, mode, step, p, i, j) then CellAt(B0, p).(dist := Some(step)) else CellAt(B0, p)
  }

  /** Visiting cell (i, j) of the scan: if it carries step - 1, its
      unlabelled open neighbours are labelled `step`. */
  lemma ScanCell(B0: Board, B: Board, B': Board, mode: Neighborhood, step: nat, i: int, j: int,
                 front: bool, ns: seq<Pos>, marked: bool)
    requires Square(B0) && step >= 1 && InBounds(|B0|, Pos(i, j))
    requires ScannedUpTo(B0, B, mode, step, i, j)
    requires front <==> Label(B, Pos(i, j)) == Some(step - 1)
    requires front ==> (forall p :: p in ns <==> Adjacent(mode, |B0|, Pos(i, j), p)) && IsMarking(B, B', step, ns) &&
                       (marked <==> exists p :: p in ns && InBounds(|B0|, p) && Label(B, p).None? && Passable(B, p))
    requires !front ==> B' == B && !marked
    ensures ScannedUpTo(B0, B', mode, step, i, j + 1)
    ensures AnyReachedBefore(B0, mode, step, i, j + 1) <==> AnyReachedBefore(B0, mode, step, i, j) || marked
  {
    var q0 := Pos(i, j);
    assert front <==> Frontier(B0, step, q0);
    forall p | InBounds(|B0|, p)
      ensures ReachedBefore(B0, mode, step, p, i, j + 1) <==>
        ReachedBefore(B0, mode, step, p, i, j) ||
        (front && p in ns && Label(B0, p).None? && Passable(B0, p))
    {
      if ReachedBefore(B0, mode, step, p, i, j + 1) && !ReachedBefore(B0, mode, step, p, i, j) {
        var q :| Before(q, i, j + 1) && Frontier(B0, step, q) && Adjacent(mode, |B0|, q, p);
        assert q == q0;
      }
    }
    forall p | InBounds(|B0|, p) && front && p in ns && Label(B0, p).None? && Passable(B0, p)
      ensures Label(B, p).None? <==> !ReachedBefore(B0, mode, step, p, i, j)
    {
    }
  }

  /** The end of a row of the scan is the start of the next. */
  lemma RowDone(B0: Board, B: Board, mode: Neighborhood, step: nat, i: int)
    requires ScannedUpTo(B0, B, mode, step, i, |B0|)
    ensures ScannedUpTo(B0, B, mode, step, i + 1, 0)
    ensures AnyReachedBefore(B0, mode, step, i, |B0|) <==> AnyReachedBefore(B0, mode, step, i + 1, 0)
  {
    forall p | InBounds(|B0|, p)
      ensures ReachedBefore(B0, mode, step, p, i, |B0|) <==> ReachedBefore(B0, mode, step, p, i + 1, 0)
    {
    }
  }

  /** The scan's last row done: the whole expansion. */
  lemma ScanDone(B0: Board, B: Board, mode: Neighborhood, step: nat)
    requires ScannedUpTo(B0, B, mode, step, |B0|, 0)
    ensures IsExpansion(B0, B, mode, step)
    ensures AnyReachedBefore(B0, mode, step, |B0|, 0) <==> AnyReached(B0, mode, step)
  {
    forall p | InBounds(|B0|, p)
      ensures ReachedBefore(B0, mode, step, p, |B0|, 0) <==> Reached(B0, mode, step, p)
    {
      if Reached(B0, mode, step, p) {
        var q :| Frontier(B0, step, q) && Adjacent(mode, |B0|, q, p);
        assert Before(q, |B0|, 0);
      }
    }
  }

  /** The labels after the first call's setup: the start labelled 0 and
      nothing else labelled. */
  lemma FirstLayer(B: Board, mode: Neighborhood, s: Pos)
    requires InBounds(|B|, s) && Label(B, s) == Some(0)
    requires forall p :: InBounds(|B|, p) && p != s ==> Label(B, p).None?
    ensures Layered(B, mode, s, 1)
  {
  }

  /** The board after the first call's setup: the start labelled 0 and the
      end's `info` cleared, so the wave can enter it. */
  function Prepared(B: Board, s: Pos, e: Pos): Board
    requires Square(B) && InBounds(|B|, s) && InBounds(|B|, e)
  {
    var B' := SetCell(B, s, CellAt(B, s).(dist := Some(0)));
    SetCell(B', e, CellAt(B', e).(info := Blank))
  }

  /** The cells the backtrace moved to, read from the start to the end. */
  function PathOf(e: Pos, trace: seq<Pos>): seq<Pos>
  {
    seq(|trace| + 1, i requires 0 <= i <= |trace| => if i == |trace| then e else trace[|trace| - 1 - i])
  }

  /** The cell the cursor stood on before its i-th move: the end before the
      first. */
  function Behind(e: Pos, trace: seq<Pos>, i: nat): Pos
    requires i <= |trace|
  {
    if i == 0 then e else trace[i - 1]
  }

  /** One move of the backtrace cursor: from a onto the adjacent cell b,
      labelled m. */
  ghost predicate Move(B: Board, mode: Neighborhood, a: Pos, b: Pos, m: int)
  {
    InBounds(|B|, b) && Label(B, b) == Some(m) && Adjacent(mode, |B|, a, b)
  }

  /** The cells the cursor moved to from the end labelled L, in order: the
      i-th is adjacent to the cell before it and labelled L - 1 - i. */
  ghost predicate Chain(B: Board, mode: Neighborhood, e: Pos, L: nat, trace: seq<Pos>)
    decreases |trace|
  {
    if trace == [] then true
    else
      var k := |trace| - 1;
      k < L && Chain(B, mode, e, L, trace[..k]) && Move(B, mode, Behind(e, trace, k), trace[k], L - 1 - k)
  }

  /** The path marks are exactly the cells moved to, except the start. */
  ghost predicate Marked(B: Board, s: Pos, trace: seq<Pos>)
  {
    forall p :: InBounds(|B|, p) ==> (CellAt(B, p).onPath <==> p in trace && p != s)
  }

  /** The backtrace so far: a chain from the end, the cursor on its last
      cell, and the path marks on its cells. */
  ghost predicate Traced(B: Board, mode: Neighborhood, s: Pos, e: Pos, trace: seq<Pos>, cur: Option<Pos>)
    requires Label(B, e).Some?
  {
    Chain(B, mode, e, Label(B, e).value, trace) &&
    cur == (if trace == [] then None else Some(trace[|trace| - 1])) &&
    Marked(B, s, trace)
  }

  /** The state between calls once the search has started: the labels are
      the hop counts below `step`; while the end is unlabelled nothing is
      traced, and once it is labelled the expansion has stopped (`step` is
      one past the end's label) and the backtrace is under way. */
  ghost predicate SearchState(B: Board, mode: Neighborhood, s: Pos, e: Pos, step: nat, trace: seq<Pos>, cur: Option<Pos>)
  {
    Layered(B, mode, s, step) &&
    (Label(B, e).None? ==> cur.None? && trace == [] && NoPathMarks(B)) &&
    (Label(B, e).Some? ==> step == Label(B, e).value + 1 && Traced(B, mode, s, e, trace, cur))
  }

  /** The first call's setup starts the search at step 1. */
  lemma SetupState(B: Board, mode: Neighborhood, s: Pos, e: Pos)
    requires Square(B) && InBounds(|B|, s) && InBounds(|B|, e) && s != e && Untouched(B)
    ensures SearchState(Prepared(B, s, e), mode, s, e, 1, [], None)
    ensures Label(Prepared(B, s, e), e).None?
  {
    var B1 := Prepared(B, s, e);
    FirstLayer(B1, mode, s);
  }

  /** An expansion layer keeps the search state. */
  lemma ExpandState(B: Board, B': Board, mode: Neighborhood, s: Pos, e: Pos, step: nat)
    requires Square(B) && InBounds(|B|, s) && InBounds(|B|, e) && step >= 1
    requires SearchState(B, mode, s, e, step, [], None) && Label(B, e).None?
    requires IsExpansion(B, B', mode, step)
    ensures SearchState(B', mode, s, e, step + 1, [], None)
  {
    ExpansionLayers(B, B', mode, s, step);
    assert NoPathMarks(B');
    if Label(B', e).Some? {
      assert Reached(B, mode, step, e);
    }
  }

  /** An expansion layer that labels nothing leaves the end unlabelled and
      unreachable: no walk of any length leads to it. */
  lemma ExpandExhausted(B: Board, B': Board, mode: Neighborhood, s: Pos, e: Pos, step: nat)
    requires Square(B) && InBounds(|B|, s) && InBounds(|B|, e) && step >= 1
    requires SearchState(B, mode, s, e, step, [], None) && Label(B, e).None?
    requires IsExpansion(B, B', mode, step) && !AnyReached(B, mode, step)
    ensures Label(B', e).None? && forall k: nat :: !ReachWithin(B', mode, s, e, k)
  {
    ExpansionLayers(B, B', mode, s, step);
    HopCountFrame(B, B', mode, s);
    Exhausted(B', mode, s, step + 1, e);
  }

  /** From a cell labelled m, the reduce moves to an adjacent cell labelled
      m - 1, which is the start exactly when m is 1; at the start (m = 0) it
      stays put. */
  lemma MoveLabels(B: Board, mode: Neighborhood, s: Pos, step: nat, c: Pos, m: nat, ns: seq<Pos>)
    requires Layered(B, mode, s, step) && InBounds(|B|, s) && InBounds(|B|, c) && Label(B, c) == Some(m)
    requires forall p :: p in ns <==> Adjacent(mode, |B|, c, p)
    ensures Label(B, s) == Some(0)
    ensures var next := NextCellWithMinSteps(B, c, ns);
      (m == 0 ==> c == s && next == c) &&
      (m >= 1 ==> Adjacent(mode, |B|, c, next) && Label(B, next) == Some(m - 1) && (next == s <==> m == 1))
  {
    var next := NextCellWithMinSteps(B, c, ns);
    assert IsHopCount(B, mode, s, s, 0);
    assert Label(B, s) == Some(0);
    if m >= 1 {
      BacktraceMove(B, mode, s, step, c, m, ns);
      assert IsHopCount(B, mode, s, next, m - 1);
    } else {
      assert IsHopCount(B, mode, s, c, 0);
    }
  }

  /** A further move extends the chain. */
  lemma ChainExtend(B: Board, mode: Neighborhood, e: Pos, L: nat, trace: seq<Pos>, next: Pos)
    requires Chain(B, mode, e, L, trace) && |trace| < L
    requires Move(B, mode, Behind(e, trace, |trace|), next, L - 1 - |trace|)
    ensures Chain(B, mode, e, L, trace + [next])
  {
    var t := trace + [next];
    assert t[..|trace|] == trace;
    assert Behind(e, t, |trace|) == Behind(e, trace, |trace|);
  }

  /** Every move of a chain, not only the last, is a move to an adjacent
      cell labelled one less. */
  lemma {:induction false} ChainAt(B: Board, mode: Neighborhood, e: Pos, L: nat, trace: seq<Pos>, i: int)
    requires Chain(B, mode, e, L, trace) && 0 <= i < |trace|
    ensures |trace| <= L && Move(B, mode, Behind(e, trace, i), trace[i], L - 1 - i)
    decreases |trace|
  {
    var k := |trace| - 1;
    if i < k {
      var pre := trace[..k];
      ChainAt(B, mode, e, L, pre, i);
      assert pre[i] == trace[i] && Behind(e, pre, i) == Behind(e, trace, i);
    }
  }

  /** A chain depends only on the labels. */
  lemma {:induction false} ChainFrame(B: Board, B': Board, mode: Neighborhood, e: Pos, L: nat, trace: seq<Pos>)
    requires |B'| == |B| && forall p :: InBounds(|B|, p) ==> Label(B', p) == Label(B, p)
    requires Chain(B, mode, e, L, trace)
    ensures Chain(B', mode, e, L, trace)
    decreases |trace|
  {
    if trace != [] {
      ChainFrame(B, B', mode, e, L, trace[..|trace| - 1]);
    }
  }

  /** Marking the next cell, unless it is the start, keeps the marks on the
      cells moved to. */
  lemma MarkedExtend(B: Board, s: Pos, trace: seq<Pos>, next: Pos)
    requires Square(B) && InBounds(|B|, next) && Marked(B, s, trace)
    ensures var B' := if next == s then B else SetCell(B, next, CellAt(B, next).(onPath := true));
      Marked(B', s, trace + [next]) && SameInfo(B, B') && forall p :: InBounds(|B|, p) ==> Label(B', p) == Label(B, p)
  {
    var B' := if next == s then B else SetCell(B, next, CellAt(B, next).(onPath := true));
    forall p | InBounds(|B|, p) ensures (CellAt(B', p).onPath <==> p in trace + [next] && p != s) {
      assert p in trace + [next] <==> p in trace || p == next;
    }
  }

  /** One move of the cursor onto a cell other than the start extends the
      chain and marks that cell; moving onto the start extends the chain and
      marks nothing. Labels and `info` stay as they were. */
  lemma TraceMove(B: Board, mode: Neighborhood, s: Pos, e: Pos, L: nat, trace: seq<Pos>, next: Pos)
    requires Square(B) && Chain(B, mode, e, L, trace) && Marked(B, s, trace) && |trace| < L
    requires Move(B, mode, Behind(e, trace, |trace|), next, L - 1 - |trace|)
    ensures var B' := if next == s then B else SetCell(B, next, CellAt(B, next).(onPath := true));
      Chain(B', mode, e, L, trace + [next]) && Marked(B', s, trace + [next]) &&
      SameInfo(B, B') && forall p :: InBounds(|B|, p) ==> Label(B', p) == Label(B, p)
  {
    var B' := if next == s then B else SetCell(B, next, CellAt(B, next).(onPath := true));
    ChainExtend(B, mode, e, L, trace, next);
    MarkedExtend(B, s, trace, next);
    ChainFrame(B, B', mode, e, L, trace + [next]);
  }

  /** The cell the reduce moves the backtrace cursor to from the cell it
      stands on, the end before the first move. */
  function NextCursor(B: Board, mode: Neighborhood, e: Pos, cur: Option<Pos>): Pos
  {
    var c := if cur.None? then e else cur.value;
    NextCellWithMinSteps(B, c, Neighbours(mode, |B|, c))
  }

  /** One backtrace call on values: the cursor moves to NextCursor, which is
      marked as path unless it is the start, and the trace records the move
      unless the cursor stayed where it was. */
  ghost predicate BackMoved(B: Board, mode: Neighborhood, s: Pos, e: Pos, trace: seq<Pos>, cur: Option<Pos>,
                            B': Board, trace': seq<Pos>, cur': Option<Pos>)
  {
    var next := NextCursor(B, mode, e, cur);
    cur' == Some(next) &&
    trace' == (if cur == Some(next) then trace else trace + [next]) &&
    Square(B') && |B'| == |B| &&
    forall p :: InBounds(|B|, p) ==>
      CellAt(B', p) == if p == next && p != s then CellAt(B, p).(onPath := true) else CellAt(B, p)
  }

  /** The move written out cell by cell: the cursor, the trace and the one
      mark the backtrace step makes. */
  lemma BackMovedByMark(B: Board, mode: Neighborhood, s: Pos, e: Pos, trace: seq<Pos>, cur: Option<Pos>,
                        B': Board, trace': seq<Pos>, cur': Option<Pos>)
    requires Square(B) && InBounds(|B|, e) && (cur.Some? ==> InBounds(|B|, cur.value))
    requires cur' == Some(NextCursor(B, mode, e, cur))
    requires trace' == if cur == cur' then trace else trace + [cur'.value]
    requires B' == if cur'.value != s then SetCell(B, cur'.value, CellAt(B, cur'.value).(onPath := true)) else B
    ensures BackMoved(B, mode, s, e, trace, cur, B', trace', cur')
  {
  }

  /** The cursor stands on the last cell of the chain, the end before the
      first move, and that cell is labelled the end's label minus the moves. */
  lemma CursorCell(B: Board, mode: Neighborhood, e: Pos, L: nat, trace: seq<Pos>, cur: Option<Pos>)
    requires InBounds(|B|, e) && Label(B, e) == Some(L) && Chain(B, mode, e, L, trace)
    requires cur == (if trace == [] then None else Some(trace[|trace| - 1]))
    ensures var c := Behind(e, trace, |trace|);
      |trace| <= L && InBounds(|B|, c) && Label(B, c) == Some(L - |trace|) && c == (if cur.None? then e else cur.value)
  {
    if trace != [] {
      ChainAt(B, mode, e, L, trace, |trace| - 1);
    }
  }

  /** Where the reduce moves the cursor: once the trace is as long as the
      end's label the cursor is on the start and stays put; before that it
      moves to an adjacent cell labelled one less, which is the start exactly
      on the last move. */
  lemma NextMove(B: Board, mode: Neighborhood, s: Pos, e: Pos, step: nat, trace: seq<Pos>, cur: Option<Pos>)
    requires InBounds(|B|, s) && InBounds(|B|, e) && s != e
    requires SearchState(B, mode, s, e, step, trace, cur) && Label(B, e).Some?
    ensures var L := Label(B, e).value;
      var c := Behind(e, trace, |trace|);
      var next := NextCursor(B, mode, e, cur);
      InBounds(|B|, c) && |trace| <= L &&
      (cur == Some(s) <==> |trace| == L) &&
      (|trace| == L ==> next == c && cur == Some(next)) &&
      (|trace| < L ==> cur != Some(next) && Move(B, mode, c, next, L - 1 - |trace|) && (next == s <==> |trace| + 1 == L))
  {
    var L := Label(B, e).value;
    var t := |trace|;
    var c := Behind(e, trace, t);
    CursorCell(B, mode, e, L, trace, cur);
    var m: nat := L - t;
    var ns := Neighbours(mode, |B|, c);
    NeighboursMembers(mode, |B|, c);
    MoveLabels(B, mode, s, step, c, m, ns);
    var next := NextCellWithMinSteps(B, c, ns);
    assert next == NextCursor(B, mode, e, cur);
    if t < L {
      AdjacentSymmetric(mode, |B|, c, next);
    }
  }

  /** A move onto a cell other than the start extends the trace and marks
      that cell; the search state is kept. */
  lemma MarkMove(B: Board, mode: Neighborhood, s: Pos, e: Pos, step: nat, trace: seq<Pos>, cur: Option<Pos>, next: Pos)
    requires Square(B) && Label(B, e).Some? && SearchState(B, mode, s, e, step, trace, cur)
    requires |trace| < Label(B, e).value && next != s
    requires Move(B, mode, Behind(e, trace, |trace|), next, Label(B, e).value - 1 - |trace|)
    ensures SearchState(SetCell(B, next, CellAt(B, next).(onPath := true)), mode, s, e, step, trace + [next], Some(next))
  {
    var B' := SetCell(B, next, CellAt(B, next).(onPath := true));
    TraceMove(B, mode, s, e, Label(B, e).value, trace, next);
    LayeredFrame(B, B', mode, s, step);
  }

  /** The move onto the start extends the trace and marks nothing. */
  lemma FinalMove(B: Board, mode: Neighborhood, s: Pos, e: Pos, step: nat, trace: seq<Pos>, cur: Option<Pos>)
    requires Square(B) && Label(B, e).Some? && SearchState(B, mode, s, e, step, trace, cur)
    requires |trace| < Label(B, e).value
    requires Move(B, mode, Behind(e, trace, |trace|), s, Label(B, e).value - 1 - |trace|)
    ensures SearchState(B, mode, s, e, step, trace + [s], Some(s))
  {
    TraceMove(B, mode, s, e, Label(B, e).value, trace, s);
  }

  /** One backtrace call keeps the search state and the end's label; at the
      start the cursor stays put and nothing changes, elsewhere the trace
      grows by one move, never beyond the end's label. */
  lemma BackStep(B: Board, mode: Neighborhood, s: Pos, e: Pos, step: nat, trace: seq<Pos>, cur: Option<Pos>,
                 B': Board, trace': seq<Pos>, cur': Option<Pos>)
    requires Square(B) && InBounds(|B|, s) && InBounds(|B|, e) && s != e
    requires SearchState(B, mode, s, e, step, trace, cur) && Label(B, e).Some?
    requires BackMoved(B, mode, s, e, trace, cur, B', trace', cur')
    ensures SearchState(B', mode, s, e, step, trace', cur') && Label(B', e) == Label(B, e)
    ensures cur == Some(s) ==> B' == B && trace' == trace && cur' == cur
    ensures cur != Some(s) ==> |trace'| == |trace| + 1 <= Label(B, e).value
  {
    var L := Label(B, e).value;
    var next := NextCursor(B, mode, e, cur);
    NextMove(B, mode, s, e, step, trace, cur);
    if |trace| == L {
      BoardExt(B, B');
    } else if next == s {
      FinalMove(B, mode, s, e, step, trace, cur);
      BoardExt(B, B');
    } else {
      MarkMove(B, mode, s, e, step, trace, cur, next);
      BoardExt(SetCell(B, next, CellAt(B, next).(onPath := true)), B');
    }
  }

  /** The i-th hop of the traced path, read from the start: it enters a
      passable cell adjacent to the one before. */
  lemma PathHop(B: Board, mode: Neighborhood, s: Pos, e: Pos, trace: seq<Pos>, i: int)
    requires InBounds(|B|, e) && Label(B, e) == Some(|trace|)
    requires Layered(B, mode, s, |trace| + 1) && Chain(B, mode, e, |trace|, trace)
    requires 1 <= i <= |trace|
    ensures var w := PathOf(e, trace); Passable(B, w[i]) && Adjacent(mode, |B|, w[i - 1], w[i])
  {
    var n := |trace|;
    var w := PathOf(e, trace);
    var j := n - i;
    ChainAt(B, mode, e, n, trace, j);
    assert w[i - 1] == trace[j] && Behind(e, trace, j) == w[i];
    if j > 0 {
      ChainAt(B, mode, e, n, trace, j - 1);
      assert trace[j - 1] == w[i];
    }
    assert InBounds(|B|, w[i]) && Label(B, w[i]) == Some(i);
    HopCountPredecessor(B, mode, s, w[i], i);
    AdjacentSymmetric(mode, |B|, w[i - 1], w[i]);
  }

  /** A backtrace that has reached the start traced, in reverse, a walk from
      the start to the end with as many moves as the end's label, and no walk
      from the start to the end is shorter. */
  lemma BacktraceIsShortest(B: Board, mode: Neighborhood, s: Pos, e: Pos, step: nat, trace: seq<Pos>)
    requires InBounds(|B|, e) && Label(B, e).Some? && SearchState(B, mode, s, e, step, trace, Some(s))
    ensures |trace| == Label(B, e).value
    ensures var w := PathOf(e, trace); IsWalk(B, mode, w) && w[0] == s && w[|w| - 1] == e
    ensures forall w :: IsWalk(B, mode, w) && w[0] == s && w[|w| - 1] == e ==> |w| >= |trace| + 1
  {
    var L := Label(B, e).value;
    var n := |trace|;
    ChainAt(B, mode, e, L, trace, n - 1);
    assert IsHopCount(B, mode, s, s, 0);
    assert Label(B, s) == Some(0);
    assert n == L;
    var w := PathOf(e, trace);
    forall i | 1 <= i < |w| ensures Passable(B, w[i]) && Adjacent(mode, |B|, w[i - 1], w[i])
    {
      PathHop(B, mode, s, e, trace, i);
    }
    forall w' | IsWalk(B, mode, w') && w'[0] == s && w'[|w'| - 1] == e
      ensures |w'| >= n + 1
    {
      ShortestWalk(B, mode, s, w', L);
    }
  }
}
