/**
 * `a_star` of the A* program: expansion in order of `g + h` with strict
 * relaxation of `g_score`, duplicate heap entries and no closed set.
 */
module AStar {
  import opened Grid
  import opened OpenSet
  import opened Paths
  import opened Marks

  /** Every passable neighbour of `v` is scored at most one step past `v`. */
  ghost predicate Relaxed(grid: Board, g: map<Pos, nat>, v: Pos)
    requires WellFormed(grid) && v in g
  {
    forall k :: 0 <= k < 4 && Passable(grid, Neighbor(v, k)) ==>
      Neighbor(v, k) in g && g[Neighbor(v, k)] <= g[v] + 1
  }

  /** The open set holds an entry for `v` whose key does not exceed `g[v] + h(v)`. */
  ghost predicate Pending(open: multiset<Entry>, g: map<Pos, nat>, v: Pos, end: Pos)
    requires v in g
  {
    exists k :: Entry(k, v) in open && k <= g[v] + Heuristic(v, end)
  }

  /** Each scored cell has been relaxed at its current score, or is still waiting in the open set. */
  ghost predicate Frontier(grid: Board, g: map<Pos, nat>, open: multiset<Entry>, end: Pos)
    requires WellFormed(grid)
  {
    forall v :: v in g ==> Relaxed(grid, g, v) || Pending(open, g, v, end)
  }

  /** `g_score` holds `start` at 0 and only in-bounds cells, each scored below the number of scored cells. */
  ghost predicate ScoreKeysOk(start: Pos, g: map<Pos, nat>) {
    && start in g && g[start] == 0
    && forall n :: n in g ==> InBounds(n) && g[n] < |g|
  }

  /**
   * Every scored cell but `start` has a predecessor; each link is an
   * orthogonal step onto a passable cell from a strictly lower-scored cell.
   */
  ghost predicate LinksOk(grid0: Board, start: Pos, cameFrom: map<Pos, Pos>, g: map<Pos, nat>)
    requires WellFormed(grid0)
  {
    && start !in cameFrom
    && (forall n :: n in g && n != start ==> n in cameFrom)
    && (forall n :: n in cameFrom ==>
          n in g && n != start && Adjacent(cameFrom[n], n) && Passable(grid0, n) &&
          cameFrom[n] in g && g[cameFrom[n]] < g[n])
  }

  /** `f_score[n] == g_score[n] + h(n)` for every scored cell. */
  ghost predicate FScoresOk(end: Pos, g: map<Pos, nat>, f: map<Pos, int>) {
    forall n :: n in g ==> n in f && f[n] == g[n] + Heuristic(n, end)
  }

  /** The score and predecessor maps as the loop keeps them. */
  ghost predicate ScoresOk(grid0: Board, start: Pos, end: Pos, cameFrom: map<Pos, Pos>, g: map<Pos, nat>, f: map<Pos, int>)
    requires WellFormed(grid0)
  {
    ScoreKeysOk(start, g) && LinksOk(grid0, start, cameFrom, g) && FScoresOk(end, g, f)
  }

  /** Every open entry is scored; its key is at least `g + h`, except for the start entry pushed with key 0. */
  ghost predicate EntriesOk(g: map<Pos, nat>, open: multiset<Entry>, start: Pos, end: Pos) {
    forall e :: e in open ==> e.pos in g && (e.pos == start || g[e.pos] + Heuristic(e.pos, end) <= e.key)
  }

  /** Along any route from `start`, the first cell not yet relaxed is waiting with a key within the route's length. */
  lemma {:induction false} FrontierOnPath(grid: Board, g: map<Pos, nat>, open: multiset<Entry>,
                                          start: Pos, end: Pos, p: seq<Pos>, i: int)
    requires WellFormed(grid) && Frontier(grid, g, open, end)
    requires IsPath(grid, start, end, p) && 0 <= i < |p|
    requires p[i] in g && g[p[i]] <= i
    ensures (end in g && g[end] <= |p| - 1) || exists e :: e in open && e.key <= |p| - 1
    decreases |p| - i
  {
    if i < |p| - 1 {
      if Relaxed(grid, g, p[i]) {
        assert IsStep(grid, p[i], p[i + 1]);
        assert Neighbor(p[i], MoveIndex(p[i], p[i + 1])) == p[i + 1];
        FrontierOnPath(grid, g, open, start, end, p, i + 1);
      } else {
        var k :| Entry(k, p[i]) in open && k <= g[p[i]] + Heuristic(p[i], end);
        PathSuffix(grid, start, end, p, i);
        HeuristicAdmissible(grid, p[i], end, p[i..]);
        assert Entry(k, p[i]).key <= |p| - 1;
      }
    }
  }

  /** Once every scored cell is relaxed, every cell reachable from `start` is scored. */
  lemma {:induction false} RelaxedReaches(grid: Board, g: map<Pos, nat>, start: Pos, x: Pos, p: seq<Pos>, i: int)
    requires WellFormed(grid) && forall v :: v in g ==> Relaxed(grid, g, v)
    requires IsPath(grid, start, x, p) && 0 <= i < |p| && p[i] in g
    ensures x in g
    decreases |p| - i
  {
    if i < |p| - 1 {
      assert IsStep(grid, p[i], p[i + 1]);
      assert Neighbor(p[i], MoveIndex(p[i], p[i + 1])) == p[i + 1];
      RelaxedReaches(grid, g, start, x, p, i + 1);
    }
  }

  lemma RelaxedReachesAll(grid: Board, g: map<Pos, nat>, start: Pos)
    requires WellFormed(grid) && start in g && forall v :: v in g ==> Relaxed(grid, g, v)
    ensures forall x, p :: IsPath(grid, start, x, p) ==> x in g
  {
    forall x, p | IsPath(grid, start, x, p)
      ensures x in g
    {
      RelaxedReaches(grid, g, start, x, p, 0);
    }
  }

  /** Termination measure: unscored cells weigh `b`, scored ones their score. */
  ghost function Weight(g: map<Pos, nat>, b: nat, v: Pos): nat {
    if v in g then g[v] else b
  }

  ghost function RowPotential(g: map<Pos, nat>, b: nat, r: int, c: nat): nat {
    if c == 0 then 0 else RowPotential(g, b, r, c - 1) + Weight(g, b, Pos(r, c - 1))
  }

  ghost function Potential(g: map<Pos, nat>, b: nat, n: nat): nat {
    if n == 0 then 0 else Potential(g, b, n - 1) + RowPotential(g, b, n - 1, COLS)
  }

  lemma {:induction false} RowPotentialDrop(g: map<Pos, nat>, g': map<Pos, nat>, b: nat, v: Pos, r: int, c: nat)
    requires forall q :: q != v ==> Weight(g', b, q) == Weight(g, b, q)
    requires Weight(g', b, v) < Weight(g, b, v)
    ensures RowPotential(g', b, r, c) <= RowPotential(g, b, r, c)
    ensures v.row == r && 0 <= v.col < c ==> RowPotential(g', b, r, c) < RowPotential(g, b, r, c)
  {
    if c > 0 {
      RowPotentialDrop(g, g', b, v, r, c - 1);
    }
  }

  lemma {:induction false} PotentialDrop(g: map<Pos, nat>, g': map<Pos, nat>, b: nat, v: Pos, n: nat)
    requires forall q :: q != v ==> Weight(g', b, q) == Weight(g, b, q)
    requires Weight(g', b, v) < Weight(g, b, v)
    ensures Potential(g', b, n) <= Potential(g, b, n)
    ensures 0 <= v.row < n && 0 <= v.col < COLS ==> Potential(g', b, n) < Potential(g, b, n)
  {
    if n > 0 {
      PotentialDrop(g, g', b, v, n - 1);
      RowPotentialDrop(g, g', b, v, n - 1, COLS);
    }
  }

  /** Lowering (or first recording) the score of one in-bounds cell lowers the measure. */
  lemma ScoreUpdateDrops(g: map<Pos, nat>, b: nat, v: Pos, t: nat)
    requires InBounds(v) && Weight(g[v := t], b, v) < Weight(g, b, v)
    ensures Potential(g[v := t], b, ROWS) < Potential(g, b, ROWS)
  {
    PotentialDrop(g, g[v := t], b, v, ROWS);
  }

  /** Scoring a fresh cell, or lowering a score, lowers the measure. */
  lemma MeasureDrops(g: map<Pos, nat>, n: Pos, t: nat)
    requires forall q :: q in g ==> InBounds(q)
    requires InBounds(n) && t <= |g| && (n in g ==> t < g[n])
    ensures Potential(g[n := t], ROWS * COLS, ROWS) < Potential(g, ROWS * COLS, ROWS)
  {
    if n !in g {
      AllCellsCard();
      SubsetCard(g.Keys + {n}, AllCells());
      assert |g.Keys + {n}| == |g| + 1;
    }
    ScoreUpdateDrops(g, ROWS * COLS, n, t);
  }

  /**
   * When `end` is popped, the predecessor chain from `end` is a route whose
   * length is `g[end]`, and no route is shorter.
   */
  lemma FoundFacts(grid0: Board, start: Pos, end: Pos, open0: multiset<Entry>, e: Entry,
                   cameFrom: map<Pos, Pos>, g: map<Pos, nat>, f: map<Pos, int>)
    requires WellFormed(grid0) && ScoresOk(grid0, start, end, cameFrom, g, f)
    requires EntriesOk(g, open0, start, end) && Frontier(grid0, g, open0, end)
    requires e in open0 && e.pos == end && forall x :: x in open0 ==> Le(e, x)
    ensures end in g && Ranked(cameFrom, start, g)
    ensures Trace(cameFrom, start, end, g).Some?
    ensures IsPath(grid0, start, end, Trace(cameFrom, start, end, g).value)
    ensures g[end] == |Trace(cameFrom, start, end, g).value| - 1
    ensures forall p :: IsPath(grid0, start, end, p) ==> g[end] <= |p| - 1
  {
    ChainFacts(grid0, start, end, cameFrom, g, f);
    PoppedOptimal(grid0, start, end, open0, e, g);
  }

  /** The predecessor chain from a scored cell is a route no longer than its score. */
  lemma ChainFacts(grid0: Board, start: Pos, end: Pos, cameFrom: map<Pos, Pos>, g: map<Pos, nat>, f: map<Pos, int>)
    requires WellFormed(grid0) && ScoresOk(grid0, start, end, cameFrom, g, f) && end in g
    ensures Ranked(cameFrom, start, g)
    ensures Trace(cameFrom, start, end, g).Some?
    ensures IsPath(grid0, start, end, Trace(cameFrom, start, end, g).value)
    ensures |Trace(cameFrom, start, end, g).value| - 1 <= g[end]
  {
    TraceComplete(cameFrom, start, end, g);
    TraceIsPath(grid0, cameFrom, start, end, g);
    TraceLength(cameFrom, start, end, g);
  }

  /** The score of a cell popped as least entry is no more than the length of any route to it. */
  lemma PoppedOptimal(grid0: Board, start: Pos, end: Pos, open0: multiset<Entry>, e: Entry, g: map<Pos, nat>)
    requires WellFormed(grid0) && start in g && g[start] == 0
    requires EntriesOk(g, open0, start, end) && Frontier(grid0, g, open0, end)
    requires e in open0 && e.pos == end && forall x :: x in open0 ==> Le(e, x)
    ensures end in g
    ensures forall p :: IsPath(grid0, start, end, p) ==> g[end] <= |p| - 1
  {
    forall p | IsPath(grid0, start, end, p)
      ensures g[end] <= |p| - 1
    {
      FrontierOnPath(grid0, g, open0, start, end, p, 0);
    }
  }

  /** When the open set runs dry before `end` is popped, no route leads from `start` to `end`. */
  lemma Exhausted(grid0: Board, start: Pos, end: Pos, open: multiset<Entry>,
                  cameFrom: map<Pos, Pos>, g: map<Pos, nat>, f: map<Pos, int>)
    requires WellFormed(grid0) && ScoresOk(grid0, start, end, cameFrom, g, f)
    requires Frontier(grid0, g, open, end) && open == multiset{}
    requires EndPending(g, open, end)
    ensures forall p :: !IsPath(grid0, start, end, p)
  {
    assert forall v :: v in g ==> Relaxed(grid0, g, v);
    RelaxedReachesAll(grid0, g, start);
  }

  /** Every scored cell other than `current` is relaxed or pending. */
  ghost predicate FrontierBut(grid: Board, g: map<Pos, nat>, open: multiset<Entry>, end: Pos, current: Pos)
    requires WellFormed(grid)
  {
    forall v :: v in g && v != current ==> Relaxed(grid, g, v) || Pending(open, g, v, end)
  }

  /** The first `k` neighbours of `current` are relaxed. */
  ghost predicate Progress(grid: Board, g: map<Pos, nat>, current: Pos, k: int)
    requires WellFormed(grid) && current in g && 0 <= k <= 4
  {
    forall j :: 0 <= j < k && Passable(grid, Neighbor(current, j)) ==>
      Neighbor(current, j) in g && g[Neighbor(current, j)] <= g[current] + 1
  }

  /** Once `end` is scored, an entry for it waits in the open set. */
  ghost predicate EndPending(g: map<Pos, nat>, open: multiset<Entry>, end: Pos) {
    end in g ==> exists key :: Entry(key, end) in open
  }

  /** The state while the neighbours of `current` are being tried, the first `k` of them done. */
  ghost predicate ExpandInv(grid0: Board, grid: Board, start: Pos, end: Pos, open: multiset<Entry>,
                            cameFrom: map<Pos, Pos>, g: map<Pos, nat>, f: map<Pos, int>, current: Pos, k: int)
    requires WellFormed(grid0) && InBounds(start)
  {
    && MarkedOk(grid0, grid, start)
    && ScoresOk(grid0, start, end, cameFrom, g, f)
    && EntriesOk(g, open, start, end)
    && current in g && current != end && 0 <= k <= 4
    && FrontierBut(grid0, g, open, end, current)
    && Progress(grid0, g, current, k)
    && EndPending(g, open, end)
  }

  /** Popping the least entry, for a cell other than `end`, starts its expansion. */
  lemma PopStep(grid0: Board, grid: Board, start: Pos, end: Pos, open0: multiset<Entry>, e: Entry,
                cameFrom: map<Pos, Pos>, g: map<Pos, nat>, f: map<Pos, int>)
    requires WellFormed(grid0) && InBounds(start)
    requires MarkedOk(grid0, grid, start) && ScoresOk(grid0, start, end, cameFrom, g, f)
    requires EntriesOk(g, open0, start, end) && Frontier(grid0, g, open0, end)
    requires EndPending(g, open0, end)
    requires e in open0 && e.pos != end
    ensures ExpandInv(grid0, grid, start, end, open0 - multiset{e}, cameFrom, g, f, e.pos, 0)
  {
    var open := open0 - multiset{e};
    forall v | v in g && v != e.pos && !Relaxed(grid0, g, v)
      ensures Pending(open, g, v, end)
    {
      var k :| Entry(k, v) in open0 && k <= g[v] + Heuristic(v, end);
      assert Entry(k, v) in open;
    }
    if end in g {
      var key :| Entry(key, end) in open0;
      assert Entry(key, end) in open;
    }
  }

  /** Lowering scores of other cells keeps a relaxed cell relaxed. */
  lemma RelaxedMonotone(grid: Board, g: map<Pos, nat>, g': map<Pos, nat>, v: Pos)
    requires WellFormed(grid) && v in g && v in g' && g'[v] == g[v]
    requires forall u :: u in g ==> u in g' && g'[u] <= g[u]
    requires Relaxed(grid, g, v)
    ensures Relaxed(grid, g', v)
  {
  }

  lemma ScoreKeysStep(start: Pos, g: map<Pos, nat>, current: Pos, n: Pos, t: nat)
    requires ScoreKeysOk(start, g) && current in g && InBounds(n)
    requires t == g[current] + 1 && (n !in g || t < g[n])
    ensures n != start && ScoreKeysOk(start, g[n := t])
  {
    var g' := g[n := t];
    if n !in g {
      assert |g'| == |g| + 1;
    }
    assert |g| <= |g'|;
  }

  lemma LinksStep(grid0: Board, start: Pos, cameFrom: map<Pos, Pos>, g: map<Pos, nat>, current: Pos, n: Pos, t: nat)
    requires WellFormed(grid0) && LinksOk(grid0, start, cameFrom, g)
    requires current in g && n != start && Adjacent(current, n) && Passable(grid0, n)
    requires t == g[current] + 1 && (n !in g || t < g[n])
    ensures LinksOk(grid0, start, cameFrom[n := current], g[n := t])
  {
  }

  /** Relaxing neighbour `n` keeps the score maps consistent. */
  lemma ScoresStep(grid0: Board, start: Pos, end: Pos, cameFrom: map<Pos, Pos>, g: map<Pos, nat>, f: map<Pos, int>,
                   current: Pos, n: Pos, t: nat)
    requires WellFormed(grid0) && ScoresOk(grid0, start, end, cameFrom, g, f)
    requires current in g && Adjacent(current, n) && Passable(grid0, n)
    requires t == g[current] + 1 && (n !in g || t < g[n])
    ensures n != start
    ensures ScoresOk(grid0, start, end, cameFrom[n := current], g[n := t], f[n := t + Heuristic(n, end)])
  {
    ScoreKeysStep(start, g, current, n, t);
    LinksStep(grid0, start, cameFrom, g, current, n, t);
    assert FScoresOk(end, g[n := t], f[n := t + Heuristic(n, end)]);
  }

  /** Relaxing neighbour `n` keeps every other cell relaxed or pending, and makes `n` pending. */
  lemma FrontierStep(grid0: Board, start: Pos, end: Pos, open: multiset<Entry>, g: map<Pos, nat>,
                     current: Pos, n: Pos, t: nat)
    requires WellFormed(grid0) && FrontierBut(grid0, g, open, end, current) && EndPending(g, open, end)
    requires current in g && n != current && (n in g ==> t < g[n])
    ensures FrontierBut(grid0, g[n := t], open + multiset{Entry(t + Heuristic(n, end), n)}, end, current)
    ensures EndPending(g[n := t], open + multiset{Entry(t + Heuristic(n, end), n)}, end)
  {
    var g', open' := g[n := t], open + multiset{Entry(t + Heuristic(n, end), n)};
    assert forall u :: u in g ==> u in g' && g'[u] <= g[u];
    forall v | v in g' && v != current && !Relaxed(grid0, g', v)
      ensures Pending(open', g', v, end)
    {
      if v == n {
        assert Entry(t + Heuristic(n, end), n) in open';
      } else {
        if Relaxed(grid0, g, v) {
          RelaxedMonotone(grid0, g, g', v);
        }
        var key :| Entry(key, v) in open && key <= g[v] + Heuristic(v, end);
        assert Entry(key, v) in open';
      }
    }
    if end in g' && end != n {
      var key :| Entry(key, end) in open;
      assert Entry(key, end) in open';
    }
  }

  /** Relaxing neighbour `k` of `current` completes its progress. */
  lemma ProgressStep(grid0: Board, g: map<Pos, nat>, current: Pos, k: int, t: nat)
    requires WellFormed(grid0) && current in g && 0 <= k < 4 && Progress(grid0, g, current, k)
    requires t == g[current] + 1 && (Neighbor(current, k) in g ==> t < g[Neighbor(current, k)])
    ensures current in g[Neighbor(current, k) := t] && g[Neighbor(current, k) := t][current] == g[current]
    ensures Progress(grid0, g[Neighbor(current, k) := t], current, k + 1)
  {
  }

  /** The new entry for `n` carries exactly `g + h`; older entries for `n` only grow more generous. */
  lemma EntriesStep(g: map<Pos, nat>, open: multiset<Entry>, start: Pos, end: Pos, n: Pos, t: nat)
    requires EntriesOk(g, open, start, end) && n != start && (n in g ==> t < g[n])
    ensures EntriesOk(g[n := t], open + multiset{Entry(t + Heuristic(n, end), n)}, start, end)
  {
  }

  /** `came_from[n] = current; g_score[n] = tentative; push; mark visited` keeps the expansion state and lowers the measure. */
  lemma RelaxStep(grid0: Board, grid: Board, start: Pos, end: Pos, open: multiset<Entry>,
                  cameFrom: map<Pos, Pos>, g: map<Pos, nat>, f: map<Pos, int>, current: Pos, k: int,
                  n: Pos, t: nat)
    requires WellFormed(grid0) && InBounds(start) && 0 <= k < 4
    requires ExpandInv(grid0, grid, start, end, open, cameFrom, g, f, current, k)
    requires n == Neighbor(current, k) && InBounds(n) && At(grid, n) != WALL
    requires t == g[current] + 1 && (n !in g || t < g[n])
    ensures ExpandInv(grid0, Put(grid, n, VISITED), start, end, open + multiset{Entry(t + Heuristic(n, end), n)},
                      cameFrom[n := current], g[n := t], f[n := t + Heuristic(n, end)], current, k + 1)
    ensures Potential(g[n := t], ROWS * COLS, ROWS) < Potential(g, ROWS * COLS, ROWS)
  {
    MarkedStep(grid0, grid, start, n);
    ScoresStep(grid0, start, end, cameFrom, g, f, current, n, t);
    FrontierStep(grid0, start, end, open, g, current, n, t);
    ProgressStep(grid0, g, current, k, t);
    EntriesStep(g, open, start, end, n, t);
    MeasureDrops(g, n, t);
  }

  /** A neighbour that is off the board, a wall, or not improved is skipped. */
  lemma SkipStep(grid0: Board, grid: Board, start: Pos, end: Pos, open: multiset<Entry>,
                 cameFrom: map<Pos, Pos>, g: map<Pos, nat>, f: map<Pos, int>, current: Pos, k: int)
    requires WellFormed(grid0) && InBounds(start) && 0 <= k < 4
    requires ExpandInv(grid0, grid, start, end, open, cameFrom, g, f, current, k)
    requires !(InBounds(Neighbor(current, k)) && At(grid, Neighbor(current, k)) != WALL) ||
             (Neighbor(current, k) in g && g[current] + 1 >= g[Neighbor(current, k)])
    ensures ExpandInv(grid0, grid, start, end, open, cameFrom, g, f, current, k + 1)
  {
  }

  /** After all four neighbours, `current` is relaxed and the loop invariant is back. */
  lemma ExpandDone(grid0: Board, grid: Board, start: Pos, end: Pos, open: multiset<Entry>,
                   cameFrom: map<Pos, Pos>, g: map<Pos, nat>, f: map<Pos, int>, current: Pos)
    requires WellFormed(grid0) && InBounds(start)
    requires ExpandInv(grid0, grid, start, end, open, cameFrom, g, f, current, 4)
    ensures MarkedOk(grid0, grid, start) && ScoresOk(grid0, start, end, cameFrom, g, f)
    ensures EntriesOk(g, open, start, end) && Frontier(grid0, g, open, end)
    ensures EndPending(g, open, end)
  {
    assert Relaxed(grid0, g, current);
  }

  /** The tentative score of a neighbour of `current`: one step more than `current`'s score. */
  function Tentative(g: map<Pos, nat>, current: Pos): nat
    requires current in g
  {
    g[current] + 1
  }

  /** The open-set key of neighbour `n` reached with score `t`: `t` plus its estimate to `end`. */
  function FScore(t: nat, n: Pos, end: Pos): int {
    t + Heuristic(n, end)
  }

  /**
   * `n` is among the first `k` neighbours of `current`, passable on `grid`,
   * and its tentative score `g[current] + 1` beats its recorded one.
   */
  ghost predicate Improved(grid: Board, g: map<Pos, nat>, current: Pos, n: Pos, k: int)
    requires WellFormed(grid) && current in g
  {
    Adjacent(current, n) && MoveIndex(current, n) < k && Passable(grid, n) && (n !in g || Tentative(g, current) < g[n])
  }

  /** Exactly the improved neighbours among the first `k` carry the visited mark. */
  ghost predicate MarksUpTo(grid: Board, g: map<Pos, nat>, current: Pos, k: int, grid': Board)
    requires WellFormed(grid) && current in g
  {
    && WellFormed(grid')
    && forall q :: InBounds(q) ==>
         At(grid', q) == if Improved(grid, g, current, q, k) then VISITED else At(grid, q)
  }

  /** Exactly the improved neighbours among the first `k` are scored `g[current] + 1`; other scores are kept. */
  ghost predicate GScoresUpTo(grid: Board, g: map<Pos, nat>, current: Pos, k: int, g': map<Pos, nat>)
    requires WellFormed(grid) && current in g
  {
    && (forall n :: n in g' <==> n in g || Improved(grid, g, current, n, k))
    && (forall n :: n in g' ==> g'[n] == if Improved(grid, g, current, n, k) then Tentative(g, current) else g[n])
  }

  /** Exactly the improved neighbours among the first `k` get `f_score` `g[current] + 1 + h`; others are kept. */
  ghost predicate FScoresUpTo(grid: Board, end: Pos, g: map<Pos, nat>, f: map<Pos, int>, current: Pos, k: int,
                              f': map<Pos, int>)
    requires WellFormed(grid) && current in g
  {
    && (forall n :: n in f' <==> n in f || Improved(grid, g, current, n, k))
    && (forall n :: n in f' ==>
          f'[n] == if Improved(grid, g, current, n, k) then FScore(Tentative(g, current), n, end) else f[n])
  }

  /** Exactly the improved neighbours among the first `k` get `current` as predecessor; other links are kept. */
  ghost predicate LinksUpTo(grid: Board, g: map<Pos, nat>, cameFrom: map<Pos, Pos>, current: Pos, k: int,
                            cameFrom': map<Pos, Pos>)
    requires WellFormed(grid) && current in g
  {
    && (forall n :: n in cameFrom' <==> n in cameFrom || Improved(grid, g, current, n, k))
    && (forall n :: n in cameFrom' ==>
          cameFrom'[n] == if Improved(grid, g, current, n, k) then current else cameFrom[n])
  }

  /**
   * The open set gains one copy of `(g[current] + 1 + h, n)` per improved
   * neighbour `n` among the first `k`; every other entry keeps its number of copies.
   */
  ghost predicate QueueUpTo(grid: Board, end: Pos, g: map<Pos, nat>, open: multiset<Entry>, current: Pos, k: int,
                            open': multiset<Entry>)
    requires WellFormed(grid) && current in g
  {
    && (forall e :: open'[e] ==
          open[e] + if Improved(grid, g, current, e.pos, k) && e.key == FScore(Tentative(g, current), e.pos, end) then 1 else 0)
    && |open'| <= |open| + k
  }

  /**
   * The state after the first `k` neighbours of `current` have been tried:
   * exactly the improved ones among them carry the visited mark, have
   * `current` as predecessor, the tentative score, its `f_score` and an
   * open entry keyed by that `f_score`; every other cell's mark, score,
   * `f_score`, link and entries are as they were.
   */
  ghost predicate RelaxedUpTo(grid: Board, end: Pos, open: multiset<Entry>, cameFrom: map<Pos, Pos>,
                              g: map<Pos, nat>, f: map<Pos, int>, current: Pos, k: int,
                              grid': Board, open': multiset<Entry>, cameFrom': map<Pos, Pos>,
                              g': map<Pos, nat>, f': map<Pos, int>)
    requires WellFormed(grid) && current in g
  {
    && MarksUpTo(grid, g, current, k, grid')
    && GScoresUpTo(grid, g, current, k, g')
    && FScoresUpTo(grid, end, g, f, current, k, f')
    && LinksUpTo(grid, g, cameFrom, current, k, cameFrom')
    && QueueUpTo(grid, end, g, open, current, k, open')
  }

  /** Neighbour `k` of `current`, and `current` itself, still hold the mark and score they had before the expansion. */
  lemma NotYetRelaxed(grid: Board, g: map<Pos, nat>, current: Pos, k: int, grid': Board, g': map<Pos, nat>)
    requires WellFormed(grid) && current in g && 0 <= k < 4
    requires MarksUpTo(grid, g, current, k, grid') && GScoresUpTo(grid, g, current, k, g')
    ensures InBounds(Neighbor(current, k)) ==> At(grid', Neighbor(current, k)) == At(grid, Neighbor(current, k))
    ensures Neighbor(current, k) in g' <==> Neighbor(current, k) in g
    ensures Neighbor(current, k) in g ==> g'[Neighbor(current, k)] == g[Neighbor(current, k)]
    ensures current in g' && g'[current] == g[current] && Tentative(g', current) == Tentative(g, current)
  {
    MoveIndexOfNeighbor(current, k);
  }

  /** Trying neighbour `k` extends the improved set by that neighbour exactly when it is passable and improved. */
  lemma ImprovedStep(grid: Board, g: map<Pos, nat>, current: Pos, k: int)
    requires WellFormed(grid) && current in g && 0 <= k < 4
    ensures forall q :: Improved(grid, g, current, q, k + 1) <==>
              Improved(grid, g, current, q, k) ||
              (q == Neighbor(current, k) && Passable(grid, q) && (q !in g || Tentative(g, current) < g[q]))
  {
    MoveIndexOfNeighbor(current, k);
  }

  lemma MarksUpToStep(grid: Board, g: map<Pos, nat>, current: Pos, k: int, grid': Board)
    requires WellFormed(grid) && current in g && 0 <= k < 4 && MarksUpTo(grid, g, current, k, grid')
    ensures Improved(grid, g, current, Neighbor(current, k), k + 1) ==>
              MarksUpTo(grid, g, current, k + 1, Put(grid', Neighbor(current, k), VISITED))
    ensures !Improved(grid, g, current, Neighbor(current, k), k + 1) ==> MarksUpTo(grid, g, current, k + 1, grid')
  {
    ImprovedStep(grid, g, current, k);
  }

  lemma GScoresStep(grid: Board, g: map<Pos, nat>, current: Pos, k: int, g': map<Pos, nat>)
    requires WellFormed(grid) && current in g && 0 <= k < 4 && GScoresUpTo(grid, g, current, k, g')
    ensures Improved(grid, g, current, Neighbor(current, k), k + 1) ==>
              GScoresUpTo(grid, g, current, k + 1, g'[Neighbor(current, k) := Tentative(g, current)])
    ensures !Improved(grid, g, current, Neighbor(current, k), k + 1) ==> GScoresUpTo(grid, g, current, k + 1, g')
  {
    ImprovedStep(grid, g, current, k);
  }

  lemma FScoresStep(grid: Board, end: Pos, g: map<Pos, nat>, f: map<Pos, int>, current: Pos, k: int, f': map<Pos, int>)
    requires WellFormed(grid) && current in g && 0 <= k < 4 && FScoresUpTo(grid, end, g, f, current, k, f')
    ensures Improved(grid, g, current, Neighbor(current, k), k + 1) ==>
              FScoresUpTo(grid, end, g, f, current, k + 1,
                          f'[Neighbor(current, k) := FScore(Tentative(g, current), Neighbor(current, k), end)])
    ensures !Improved(grid, g, current, Neighbor(current, k), k + 1) ==> FScoresUpTo(grid, end, g, f, current, k + 1, f')
  {
    ImprovedStep(grid, g, current, k);
  }

  lemma LinksUpToStep(grid: Board, g: map<Pos, nat>, cameFrom: map<Pos, Pos>, current: Pos, k: int,
                      cameFrom': map<Pos, Pos>)
    requires WellFormed(grid) && current in g && 0 <= k < 4 && LinksUpTo(grid, g, cameFrom, current, k, cameFrom')
    ensures Improved(grid, g, current, Neighbor(current, k), k + 1) ==>
              LinksUpTo(grid, g, cameFrom, current, k + 1, cameFrom'[Neighbor(current, k) := current])
    ensures !Improved(grid, g, current, Neighbor(current, k), k + 1) ==>
              LinksUpTo(grid, g, cameFrom, current, k + 1, cameFrom')
  {
    ImprovedStep(grid, g, current, k);
  }

  lemma QueueStep(grid: Board, end: Pos, g: map<Pos, nat>, open: multiset<Entry>, current: Pos, k: int,
                  open': multiset<Entry>)
    requires WellFormed(grid) && current in g && 0 <= k < 4 && QueueUpTo(grid, end, g, open, current, k, open')
    ensures Improved(grid, g, current, Neighbor(current, k), k + 1) ==>
              QueueUpTo(grid, end, g, open, current, k + 1,
                        open' + multiset{Entry(FScore(Tentative(g, current), Neighbor(current, k), end), Neighbor(current, k))})
    ensures !Improved(grid, g, current, Neighbor(current, k), k + 1) ==> QueueUpTo(grid, end, g, open, current, k + 1, open')
  {
    ImprovedStep(grid, g, current, k);
  }

  /** The state the neighbour loop of `a_star` works on: the board, the open set, `came_from`, `g_score` and `f_score`. */
  datatype Expansion = Expansion(grid: Board, open: multiset<Entry>, cameFrom: map<Pos, Pos>,
                                 g: map<Pos, nat>, f: map<Pos, int>)

  /**
   * The first `k` passes of `for dx, dy in ...` on state `e`: each pass tries
   * the neighbour in its movement against the state the earlier passes left.
   */
  function Relax(e: Expansion, end: Pos, current: Pos, k: int): (r: Expansion)
    requires WellFormed(e.grid) && current in e.g && 0 <= k <= 4
    ensures WellFormed(r.grid) && current in r.g
    decreases k
  {
    if k == 0 then e
    else
      var s := Relax(e, end, current, k - 1);
      var n := Neighbor(current, k - 1);
      if InBounds(n) && At(s.grid, n) != WALL && (n !in s.g || Tentative(s.g, current) < s.g[n]) then
        Expansion(Put(s.grid, n, VISITED),
                  s.open + multiset{Entry(FScore(Tentative(s.g, current), n, end), n)},
                  s.cameFrom[n := current],
                  s.g[n := Tentative(s.g, current)],
                  s.f[n := FScore(Tentative(s.g, current), n, end)])
      else s
  }

  /** Pass `k` on a passable neighbour `n` whose tentative score `t` improves: the next state records it. */
  lemma RelaxImproves(e: Expansion, end: Pos, current: Pos, k: int, n: Pos, t: nat)
    requires WellFormed(e.grid) && current in e.g && 0 <= k < 4 && n == Neighbor(current, k)
    requires t == Relax(e, end, current, k).g[current] + 1
    requires InBounds(n) && At(Relax(e, end, current, k).grid, n) != WALL
    requires n !in Relax(e, end, current, k).g || t < Relax(e, end, current, k).g[n]
    ensures Relax(e, end, current, k + 1).grid == Put(Relax(e, end, current, k).grid, n, VISITED)
    ensures Relax(e, end, current, k + 1).open == Relax(e, end, current, k).open + multiset{Entry(t + Heuristic(n, end), n)}
    ensures Relax(e, end, current, k + 1).cameFrom == Relax(e, end, current, k).cameFrom[n := current]
    ensures Relax(e, end, current, k + 1).g == Relax(e, end, current, k).g[n := t]
    ensures Relax(e, end, current, k + 1).f == Relax(e, end, current, k).f[n := t + Heuristic(n, end)]
  {
    assert t == Tentative(Relax(e, end, current, k).g, current);
    assert FScore(t, n, end) == t + Heuristic(n, end);
  }

  /** Pass `k` on a wall, an off-board cell or a neighbour whose score does not improve changes nothing. */
  lemma RelaxSkips(e: Expansion, end: Pos, current: Pos, k: int)
    requires WellFormed(e.grid) && current in e.g && 0 <= k < 4
    requires !(InBounds(Neighbor(current, k)) && At(Relax(e, end, current, k).grid, Neighbor(current, k)) != WALL &&
               (Neighbor(current, k) !in Relax(e, end, current, k).g ||
                Tentative(Relax(e, end, current, k).g, current) < Relax(e, end, current, k).g[Neighbor(current, k)]))
    ensures Relax(e, end, current, k + 1) == Relax(e, end, current, k)
  {
  }

  /** One more pass keeps the marks and `g_score` exact. */
  lemma MarksScoresNext(e: Expansion, end: Pos, current: Pos, j: int)
    requires WellFormed(e.grid) && current in e.g && 0 <= j < 4
    requires MarksUpTo(e.grid, e.g, current, j, Relax(e, end, current, j).grid)
    requires GScoresUpTo(e.grid, e.g, current, j, Relax(e, end, current, j).g)
    ensures MarksUpTo(e.grid, e.g, current, j + 1, Relax(e, end, current, j + 1).grid)
    ensures GScoresUpTo(e.grid, e.g, current, j + 1, Relax(e, end, current, j + 1).g)
  {
    ghost var s := Relax(e, end, current, j);
    NotYetRelaxed(e.grid, e.g, current, j, s.grid, s.g);
    MoveIndexOfNeighbor(current, j);
    MarksUpToStep(e.grid, e.g, current, j, s.grid);
    GScoresStep(e.grid, e.g, current, j, s.g);
  }

  /** The marks and `g_score` after the first `k` passes: exactly the improved neighbours are marked and rescored. */
  lemma RelaxMarksScores(e: Expansion, end: Pos, current: Pos, k: int)
    requires WellFormed(e.grid) && current in e.g && 0 <= k <= 4
    ensures MarksUpTo(e.grid, e.g, current, k, Relax(e, end, current, k).grid)
    ensures GScoresUpTo(e.grid, e.g, current, k, Relax(e, end, current, k).g)
  {
    for j := 0 to k
      invariant MarksUpTo(e.grid, e.g, current, j, Relax(e, end, current, j).grid)
      invariant GScoresUpTo(e.grid, e.g, current, j, Relax(e, end, current, j).g)
    {
      MarksScoresNext(e, end, current, j);
    }
  }

  /** One more pass keeps the `f_score` exact. */
  lemma FScoresNext(e: Expansion, end: Pos, current: Pos, j: int)
    requires WellFormed(e.grid) && current in e.g && 0 <= j < 4
    requires FScoresUpTo(e.grid, end, e.g, e.f, current, j, Relax(e, end, current, j).f)
    ensures FScoresUpTo(e.grid, end, e.g, e.f, current, j + 1, Relax(e, end, current, j + 1).f)
  {
    ghost var s := Relax(e, end, current, j);
    RelaxMarksScores(e, end, current, j);
    NotYetRelaxed(e.grid, e.g, current, j, s.grid, s.g);
    MoveIndexOfNeighbor(current, j);
    FScoresStep(e.grid, end, e.g, e.f, current, j, s.f);
  }

  /** The `f_score` after the first `k` passes: exactly the improved neighbours get `g[current] + 1 + h`. */
  lemma RelaxFScores(e: Expansion, end: Pos, current: Pos, k: int)
    requires WellFormed(e.grid) && current in e.g && 0 <= k <= 4
    ensures FScoresUpTo(e.grid, end, e.g, e.f, current, k, Relax(e, end, current, k).f)
  {
    for j := 0 to k
      invariant FScoresUpTo(e.grid, end, e.g, e.f, current, j, Relax(e, end, current, j).f)
    {
      FScoresNext(e, end, current, j);
    }
  }

  /** One more pass keeps `came_from` exact. */
  lemma LinksNext(e: Expansion, end: Pos, current: Pos, j: int)
    requires WellFormed(e.grid) && current in e.g && 0 <= j < 4
    requires LinksUpTo(e.grid, e.g, e.cameFrom, current, j, Relax(e, end, current, j).cameFrom)
    ensures LinksUpTo(e.grid, e.g, e.cameFrom, current, j + 1, Relax(e, end, current, j + 1).cameFrom)
  {
    ghost var s := Relax(e, end, current, j);
    RelaxMarksScores(e, end, current, j);
    NotYetRelaxed(e.grid, e.g, current, j, s.grid, s.g);
    MoveIndexOfNeighbor(current, j);
    LinksUpToStep(e.grid, e.g, e.cameFrom, current, j, s.cameFrom);
  }

  /** `came_from` after the first `k` passes: exactly the improved neighbours are linked to `current`. */
  lemma RelaxLinks(e: Expansion, end: Pos, current: Pos, k: int)
    requires WellFormed(e.grid) && current in e.g && 0 <= k <= 4
    ensures LinksUpTo(e.grid, e.g, e.cameFrom, current, k, Relax(e, end, current, k).cameFrom)
  {
    for j := 0 to k
      invariant LinksUpTo(e.grid, e.g, e.cameFrom, current, j, Relax(e, end, current, j).cameFrom)
    {
      LinksNext(e, end, current, j);
    }
  }

  /** One more pass keeps the open set exact. */
  lemma QueueNext(e: Expansion, end: Pos, current: Pos, j: int)
    requires WellFormed(e.grid) && current in e.g && 0 <= j < 4
    requires QueueUpTo(e.grid, end, e.g, e.open, current, j, Relax(e, end, current, j).open)
    ensures QueueUpTo(e.grid, end, e.g, e.open, current, j + 1, Relax(e, end, current, j + 1).open)
  {
    ghost var s := Relax(e, end, current, j);
    RelaxMarksScores(e, end, current, j);
    NotYetRelaxed(e.grid, e.g, current, j, s.grid, s.g);
    MoveIndexOfNeighbor(current, j);
    QueueStep(e.grid, end, e.g, e.open, current, j, s.open);
  }

  /** The open set after the first `k` passes: one new entry per improved neighbour, nothing else. */
  lemma RelaxQueue(e: Expansion, end: Pos, current: Pos, k: int)
    requires WellFormed(e.grid) && current in e.g && 0 <= k <= 4
    ensures QueueUpTo(e.grid, end, e.g, e.open, current, k, Relax(e, end, current, k).open)
  {
    for j := 0 to k
      invariant QueueUpTo(e.grid, end, e.g, e.open, current, j, Relax(e, end, current, j).open)
    {
      QueueNext(e, end, current, j);
    }
  }

  /**
   * What the first `k` passes do, cell by cell: exactly the improved
   * neighbours are marked, linked to `current`, rescored and queued, and
   * every other cell's mark, scores, link and entries are unchanged.
   */
  lemma RelaxExact(e: Expansion, end: Pos, current: Pos, k: int)
    requires WellFormed(e.grid) && current in e.g && 0 <= k <= 4
    ensures RelaxedUpTo(e.grid, end, e.open, e.cameFrom, e.g, e.f, current, k,
                        Relax(e, end, current, k).grid, Relax(e, end, current, k).open,
                        Relax(e, end, current, k).cameFrom, Relax(e, end, current, k).g, Relax(e, end, current, k).f)
  {
    RelaxMarksScores(e, end, current, k);
    RelaxFScores(e, end, current, k);
    RelaxLinks(e, end, current, k);
    RelaxQueue(e, end, current, k);
  }

  /**
   * The `for neighbor in neighbors` loop of `a_star`: the new state is the
   * four passes of `Relax`, that is (by `RelaxExact`), every passable
   * neighbour whose tentative score `g[current] + 1` beats its recorded one
   * gets `current` as predecessor, that score, its `f_score`, an open entry
   * keyed by it and the visited mark, and no other cell's mark, scores, link
   * or entries change. Afterwards `current` is relaxed and the search
   * invariants hold;
   * the measure has dropped unless nothing changed.
   */
  method ExpandNeighbors(grid0: Board, grid: Board, start: Pos, end: Pos, open: multiset<Entry>,
                         cameFrom: map<Pos, Pos>, g: map<Pos, nat>, f: map<Pos, int>, current: Pos)
    returns (grid': Board, open': multiset<Entry>, cameFrom': map<Pos, Pos>, g': map<Pos, nat>, f': map<Pos, int>)
    requires WellFormed(grid0) && InBounds(start)
    requires ExpandInv(grid0, grid, start, end, open, cameFrom, g, f, current, 0)
    ensures Expansion(grid', open', cameFrom', g', f') == Relax(Expansion(grid, open, cameFrom, g, f), end, current, 4)
    ensures ExpandInv(grid0, grid', start, end, open', cameFrom', g', f', current, 4)
    ensures Potential(g', ROWS * COLS, ROWS) < Potential(g, ROWS * COLS, ROWS) || (g' == g && open' == open)
  {
    grid', open', cameFrom', g', f' := grid, open, cameFrom, g, f;
    for k := 0 to 4
      invariant grid' == Relax(Expansion(grid, open, cameFrom, g, f), end, current, k).grid
      invariant open' == Relax(Expansion(grid, open, cameFrom, g, f), end, current, k).open
      invariant cameFrom' == Relax(Expansion(grid, open, cameFrom, g, f), end, current, k).cameFrom
      invariant g' == Relax(Expansion(grid, open, cameFrom, g, f), end, current, k).g
      invariant f' == Relax(Expansion(grid, open, cameFrom, g, f), end, current, k).f
      invariant ExpandInv(grid0, grid', start, end, open', cameFrom', g', f', current, k)
      invariant Potential(g', ROWS * COLS, ROWS) < Potential(g, ROWS * COLS, ROWS) || (g' == g && open' == open)
    {
      var neighbor := Neighbor(current, k);
      if InBounds(neighbor) && At(grid', neighbor) != WALL {
        var tempG := g'[current] + 1;
        if neighbor !in g' || tempG < g'[neighbor] {
          RelaxImproves(Expansion(grid, open, cameFrom, g, f), end, current, k, neighbor, tempG);
          RelaxStep(grid0, grid', start, end, open', cameFrom', g', f', current, k, neighbor, tempG);
          cameFrom' := cameFrom'[neighbor := current];
          g' := g'[neighbor := tempG];
          f' := f'[neighbor := tempG + Heuristic(neighbor, end)];
          open' := open' + multiset{Entry(tempG + Heuristic(neighbor, end), neighbor)};
          grid' := Put(grid', neighbor, VISITED);
        } else {
          RelaxSkips(Expansion(grid, open, cameFrom, g, f), end, current, k);
          SkipStep(grid0, grid', start, end, open', cameFrom', g', f', current, k);
        }
      } else {
        RelaxSkips(Expansion(grid, open, cameFrom, g, f), end, current, k);
        SkipStep(grid0, grid', start, end, open', cameFrom', g', f', current, k);
      }
    }
  }

  /**
   * `a_star(start, end)` on the board `grid0`. Returns the board as the
   * search and `reconstruct_path` leave it and the distance the program
   * reports (`g_score[end]`), or NotFound when the open set runs dry. The
   * ghost `route` is the predecessor chain that `reconstruct_path` paints.
   */
  method Search(grid0: Board, start: Pos, end: Pos) returns (grid: Board, result: Outcome, ghost route: seq<Pos>)
    requires WellFormed(grid0) && InBounds(start) && InBounds(end)
    ensures WellFormed(grid) && SameWalls(grid0, grid) && OnlyMarkers(grid0, grid)
    ensures At(grid, start) == At(grid0, start)
    ensures result.Found? ==> IsPath(grid0, start, end, route) && result.dist == |route| - 1
    ensures result.Found? ==> forall p :: IsPath(grid0, start, end, p) ==> result.dist <= |p| - 1
    ensures result.Found? ==> forall i :: 1 <= i < |route| ==> InBounds(route[i]) && At(grid, route[i]) == PATH
    ensures result.NotFound? ==> forall p :: !IsPath(grid0, start, end, p)
    ensures forall q :: InBounds(q) && At(grid, q) != At(grid0, q) ==>
              At(grid, q) == if result.Found? && q in route[1..] then PATH else VISITED
    ensures start == end ==> result == Found(0)
  {
    var open := multiset{Entry(0, start)};
    var cameFrom: map<Pos, Pos> := map[];
    var g: map<Pos, nat> := map[start := 0];
    var f: map<Pos, int> := map[start := Heuristic(start, end)];
    grid := grid0;

    while open != multiset{}
      invariant MarkedOk(grid0, grid, start)
      invariant ScoresOk(grid0, start, end, cameFrom, g, f)
      invariant EntriesOk(g, open, start, end)
      invariant Frontier(grid0, g, open, end)
      invariant EndPending(g, open, end)
      decreases Potential(g, ROWS * COLS, ROWS), |open|
    {
      ghost var open0 := open;
      var e, rest := PopMin(open);
      open := rest;
      var current := e.pos;

      if current == end {
        FoundFacts(grid0, start, end, open0, e, cameFrom, g, f);
        ghost var grid1 := grid;
        ghost var p := Trace(cameFrom, start, end, g).value;
        grid := ReconstructPath(grid, cameFrom, start, end, g);
        RouteMarked(grid0, grid1, grid, start, end, p);
        assert IsPath(grid0, start, start, [start]);
        result, route := Found(g[end]), p;
        return;
      }

      PopStep(grid0, grid, start, end, open0, e, cameFrom, g, f);
      grid, open, cameFrom, g, f := ExpandNeighbors(grid0, grid, start, end, open, cameFrom, g, f, current);
      ExpandDone(grid0, grid, start, end, open, cameFrom, g, f, current);
    }
    Exhausted(grid0, start, end, open, cameFrom, g, f);
    MarkedFinal(grid0, grid, start);
    assert IsPath(grid0, start, start, [start]);
    result, route := NotFound, [];
  }
}
