/**
 * `gbfs` of the greedy best-first program: the open set is ordered by the
 * heuristic alone, a `visited` set makes duplicate heap entries be skipped
 * when popped, and every expansion overwrites `came_from` for each passable
 * neighbour not yet visited.
 */
module Greedy {
  import opened Grid
  import opened OpenSet
  import opened Paths
  import opened Marks

  /** `n` is among the first `k` neighbours of `current`, is not a wall on `grid`, and is not yet visited. */
  ghost predicate Fresh(grid: Board, visited: set<Pos>, current: Pos, n: Pos, k: int)
    requires WellFormed(grid)
  {
    Adjacent(current, n) && MoveIndex(current, n) < k && Passable(grid, n) && n !in visited
  }

  /** Exactly the fresh neighbours among the first `k` carry the visited mark; other cells keep their code. */
  ghost predicate MarkedUpTo(grid: Board, visited: set<Pos>, current: Pos, k: int, grid': Board)
    requires WellFormed(grid)
  {
    && WellFormed(grid')
    && forall q :: InBounds(q) ==>
         At(grid', q) == if Fresh(grid, visited, current, q, k) then VISITED else At(grid, q)
  }

  /** Exactly the fresh neighbours among the first `k` have `current` as predecessor; other links are kept. */
  ghost predicate LinkedUpTo(grid: Board, cameFrom: map<Pos, Pos>, visited: set<Pos>, current: Pos, k: int,
                             cameFrom': map<Pos, Pos>)
    requires WellFormed(grid)
  {
    && (forall n :: n in cameFrom' <==> n in cameFrom || Fresh(grid, visited, current, n, k))
    && (forall n :: n in cameFrom' ==>
          cameFrom'[n] == if Fresh(grid, visited, current, n, k) then current else cameFrom[n])
  }

  /**
   * The open set gains one copy of `(h, n)` per fresh neighbour `n` among
   * the first `k`; every other entry keeps its number of copies.
   */
  ghost predicate QueuedUpTo(grid: Board, end: Pos, open: multiset<Entry>, visited: set<Pos>, current: Pos, k: int,
                             open': multiset<Entry>)
    requires WellFormed(grid)
  {
    && (forall e :: open'[e] ==
          open[e] + if Fresh(grid, visited, current, e.pos, k) && e.key == Heuristic(e.pos, end) then 1 else 0)
    && |open'| <= |open| + k
  }

  /**
   * The state after the first `k` neighbours of `current` have been tried:
   * exactly the fresh ones among them carry the visited mark, have `current`
   * as predecessor and one more copy of the open entry keyed by their
   * heuristic; every other entry keeps its number of copies, and everything
   * else, the predecessors of visited cells included, is as it was.
   */
  ghost predicate ExpandedUpTo(grid: Board, end: Pos, open: multiset<Entry>, cameFrom: map<Pos, Pos>,
                               visited: set<Pos>, current: Pos, k: int,
                               grid': Board, open': multiset<Entry>, cameFrom': map<Pos, Pos>)
    requires WellFormed(grid)
  {
    && MarkedUpTo(grid, visited, current, k, grid')
    && LinkedUpTo(grid, cameFrom, visited, current, k, cameFrom')
    && QueuedUpTo(grid, end, open, visited, current, k, open')
  }

  /** Neighbour `k` of `current` is unmarked before it is tried. */
  lemma NotYetMarked(grid: Board, end: Pos, open: multiset<Entry>, cameFrom: map<Pos, Pos>,
                     visited: set<Pos>, current: Pos, k: int,
                     grid': Board, open': multiset<Entry>, cameFrom': map<Pos, Pos>)
    requires WellFormed(grid) && 0 <= k < 4 && InBounds(Neighbor(current, k))
    requires ExpandedUpTo(grid, end, open, cameFrom, visited, current, k, grid', open', cameFrom')
    ensures At(grid', Neighbor(current, k)) == At(grid, Neighbor(current, k))
  {
    MoveIndexOfNeighbor(current, k);
  }

  /** Trying neighbour `k` extends the fresh set by that neighbour exactly when it is passable and unvisited. */
  lemma FreshStep(grid: Board, visited: set<Pos>, current: Pos, k: int)
    requires WellFormed(grid) && 0 <= k < 4
    ensures !Fresh(grid, visited, current, Neighbor(current, k), k)
    ensures forall q :: Fresh(grid, visited, current, q, k + 1) <==>
              Fresh(grid, visited, current, q, k) ||
              (q == Neighbor(current, k) && Passable(grid, q) && q !in visited)
  {
    MoveIndexOfNeighbor(current, k);
  }

  lemma MarkedUpToStep(grid: Board, visited: set<Pos>, current: Pos, k: int, grid': Board)
    requires WellFormed(grid) && 0 <= k < 4 && MarkedUpTo(grid, visited, current, k, grid')
    ensures Fresh(grid, visited, current, Neighbor(current, k), k + 1) ==>
              MarkedUpTo(grid, visited, current, k + 1, Put(grid', Neighbor(current, k), VISITED))
    ensures !Fresh(grid, visited, current, Neighbor(current, k), k + 1) ==> MarkedUpTo(grid, visited, current, k + 1, grid')
  {
    FreshStep(grid, visited, current, k);
  }

  lemma LinkedUpToStep(grid: Board, cameFrom: map<Pos, Pos>, visited: set<Pos>, current: Pos, k: int,
                   cameFrom': map<Pos, Pos>)
    requires WellFormed(grid) && 0 <= k < 4 && LinkedUpTo(grid, cameFrom, visited, current, k, cameFrom')
    ensures Fresh(grid, visited, current, Neighbor(current, k), k + 1) ==>
              LinkedUpTo(grid, cameFrom, visited, current, k + 1, cameFrom'[Neighbor(current, k) := current])
    ensures !Fresh(grid, visited, current, Neighbor(current, k), k + 1) ==>
              LinkedUpTo(grid, cameFrom, visited, current, k + 1, cameFrom')
  {
    FreshStep(grid, visited, current, k);
  }

  lemma QueuedUpToStep(grid: Board, end: Pos, open: multiset<Entry>, visited: set<Pos>, current: Pos, k: int,
                   open': multiset<Entry>)
    requires WellFormed(grid) && 0 <= k < 4 && QueuedUpTo(grid, end, open, visited, current, k, open')
    ensures Fresh(grid, visited, current, Neighbor(current, k), k + 1) ==>
              QueuedUpTo(grid, end, open, visited, current, k + 1,
                         open' + multiset{Entry(Heuristic(Neighbor(current, k), end), Neighbor(current, k))})
    ensures !Fresh(grid, visited, current, Neighbor(current, k), k + 1) ==>
              QueuedUpTo(grid, end, open, visited, current, k + 1, open')
  {
    FreshStep(grid, visited, current, k);
  }

  /** An entry is queued after the first `k` neighbours exactly when it was queued before or belongs to a fresh one. */
  lemma QueuedMembers(grid: Board, end: Pos, open: multiset<Entry>, visited: set<Pos>, current: Pos, k: int,
                      open': multiset<Entry>)
    requires WellFormed(grid) && QueuedUpTo(grid, end, open, visited, current, k, open')
    ensures forall e :: e in open' <==>
              e in open || (Fresh(grid, visited, current, e.pos, k) && e.key == Heuristic(e.pos, end))
  {
    forall e ensures e in open' <==> e in open || (Fresh(grid, visited, current, e.pos, k) && e.key == Heuristic(e.pos, end))
    {
      assert open'[e] == open[e] + if Fresh(grid, visited, current, e.pos, k) && e.key == Heuristic(e.pos, end) then 1 else 0;
    }
  }

  /** A fresh neighbour is linked to `current`, queued with its heuristic and marked visited. */
  lemma ExpandFresh(grid: Board, end: Pos, open: multiset<Entry>, cameFrom: map<Pos, Pos>,
                    visited: set<Pos>, current: Pos, k: int,
                    grid': Board, open': multiset<Entry>, cameFrom': map<Pos, Pos>)
    requires WellFormed(grid) && 0 <= k < 4
    requires ExpandedUpTo(grid, end, open, cameFrom, visited, current, k, grid', open', cameFrom')
    requires Passable(grid, Neighbor(current, k)) && Neighbor(current, k) !in visited
    ensures ExpandedUpTo(grid, end, open, cameFrom, visited, current, k + 1,
                         Put(grid', Neighbor(current, k), VISITED),
                         open' + multiset{Entry(Heuristic(Neighbor(current, k), end), Neighbor(current, k))},
                         cameFrom'[Neighbor(current, k) := current])
  {
    MoveIndexOfNeighbor(current, k);
    MarkedUpToStep(grid, visited, current, k, grid');
    LinkedUpToStep(grid, cameFrom, visited, current, k, cameFrom');
    QueuedUpToStep(grid, end, open, visited, current, k, open');
  }

  /** A neighbour off the board, on a wall or already visited changes nothing. */
  lemma ExpandSkip(grid: Board, end: Pos, open: multiset<Entry>, cameFrom: map<Pos, Pos>,
                   visited: set<Pos>, current: Pos, k: int,
                   grid': Board, open': multiset<Entry>, cameFrom': map<Pos, Pos>)
    requires WellFormed(grid) && 0 <= k < 4
    requires ExpandedUpTo(grid, end, open, cameFrom, visited, current, k, grid', open', cameFrom')
    requires !Passable(grid, Neighbor(current, k)) || Neighbor(current, k) in visited
    ensures ExpandedUpTo(grid, end, open, cameFrom, visited, current, k + 1, grid', open', cameFrom')
  {
    MarkedUpToStep(grid, visited, current, k, grid');
    LinkedUpToStep(grid, cameFrom, visited, current, k, cameFrom');
    QueuedUpToStep(grid, end, open, visited, current, k, open');
  }

  /**
   * The `for dx, dy in ...` loop of `gbfs`: every neighbour that is on the
   * board, not a wall and not yet visited gets `current` as predecessor, an
   * open entry keyed by its heuristic and the visited mark.
   */
  method ExpandNeighbors(grid: Board, end: Pos, open: multiset<Entry>, cameFrom: map<Pos, Pos>,
                         visited: set<Pos>, current: Pos)
    returns (grid': Board, open': multiset<Entry>, cameFrom': map<Pos, Pos>)
    requires WellFormed(grid)
    ensures ExpandedUpTo(grid, end, open, cameFrom, visited, current, 4, grid', open', cameFrom')
  {
    grid', open', cameFrom' := grid, open, cameFrom;
    for k := 0 to 4
      invariant ExpandedUpTo(grid, end, open, cameFrom, visited, current, k, grid', open', cameFrom')
    {
      var neighbor := Neighbor(current, k);
      if InBounds(neighbor) {
        NotYetMarked(grid, end, open, cameFrom, visited, current, k, grid', open', cameFrom');
      }
      if InBounds(neighbor) && At(grid', neighbor) != WALL && neighbor !in visited {
        ExpandFresh(grid, end, open, cameFrom, visited, current, k, grid', open', cameFrom');
        cameFrom' := cameFrom'[neighbor := current];
        open' := open' + multiset{Entry(Heuristic(neighbor, end), neighbor)};
        grid' := Put(grid', neighbor, VISITED);
      } else {
        ExpandSkip(grid, end, open, cameFrom, visited, current, k, grid', open', cameFrom');
      }
    }
  }

  /**
   * The visit record: `order` numbers the visited cells in the order they
   * were added to `visited`, and `expanded` lists them without repetition.
   */
  ghost predicate OrderOk(visited: set<Pos>, order: map<Pos, nat>, expanded: seq<Pos>) {
    && (forall v :: v in visited <==> v in order)
    && (forall v :: v in visited <==> v in expanded)
    && (forall v :: v in order ==> order[v] < |expanded|)
    && (forall i, j :: 0 <= i < j < |expanded| ==> expanded[i] != expanded[j])
    && (forall v :: v in visited ==> InBounds(v))
  }

  /** While the loop runs, `start` is the first cell visited and `end` is not visited. */
  ghost predicate VisitsOk(start: Pos, end: Pos, visited: set<Pos>, order: map<Pos, nat>, expanded: seq<Pos>) {
    && OrderOk(visited, order, expanded)
    && (visited != {} ==> start in visited)
    && end !in visited
  }

  /**
   * `start` has no predecessor and every other visited cell has one. Each
   * link is an orthogonal step onto a passable cell from a visited cell, and
   * for a visited cell that predecessor was visited strictly earlier.
   */
  ghost predicate LinksOk(grid0: Board, start: Pos, cameFrom: map<Pos, Pos>, visited: set<Pos>, order: map<Pos, nat>)
    requires WellFormed(grid0)
  {
    && start !in cameFrom
    && (forall v :: v in visited && v != start ==> v in cameFrom)
    && (forall n :: n in cameFrom ==> Adjacent(cameFrom[n], n) && Passable(grid0, n) && cameFrom[n] in order)
    && (forall n :: n in cameFrom && n in order ==> order[cameFrom[n]] < order[n])
  }

  /**
   * Every open entry is an in-bounds cell keyed by its heuristic, and is the
   * start entry or a cell with a predecessor; until `start` is visited its
   * entry waits in the open set.
   */
  ghost predicate EntriesOk(start: Pos, end: Pos, open: multiset<Entry>, cameFrom: map<Pos, Pos>, visited: set<Pos>) {
    && (forall e :: e in open ==> InBounds(e.pos) && e.key == Heuristic(e.pos, end) && (e.pos == start || e.pos in cameFrom))
    && (start in visited || Entry(Heuristic(start, end), start) in open)
  }

  /** Each of the first `k` passable neighbours of `v` is visited or waits in the open set. */
  ghost predicate Covered(grid0: Board, visited: set<Pos>, open: multiset<Entry>, end: Pos, v: Pos, k: int)
    requires WellFormed(grid0) && 0 <= k <= 4
  {
    forall j :: 0 <= j < k && Passable(grid0, Neighbor(v, j)) ==>
      Neighbor(v, j) in visited || Entry(Heuristic(Neighbor(v, j), end), Neighbor(v, j)) in open
  }

  /** Every visited cell has had all its passable neighbours visited or queued. */
  ghost predicate Closed(grid0: Board, visited: set<Pos>, open: multiset<Entry>, end: Pos)
    requires WellFormed(grid0)
  {
    forall v :: v in visited ==> Covered(grid0, visited, open, end, v, 4)
  }

  /** A set closed under passable moves that holds `start` holds every cell reachable from it. */
  lemma {:induction false} ClosedReaches(grid0: Board, visited: set<Pos>, end: Pos, start: Pos, x: Pos, p: seq<Pos>, i: int)
    requires WellFormed(grid0) && Closed(grid0, visited, multiset{}, end)
    requires IsPath(grid0, start, x, p) && 0 <= i < |p| && p[i] in visited
    ensures x in visited
    decreases |p| - i
  {
    if i < |p| - 1 {
      assert IsStep(grid0, p[i], p[i + 1]);
      assert Neighbor(p[i], MoveIndex(p[i], p[i + 1])) == p[i + 1];
      assert Covered(grid0, visited, multiset{}, end, p[i], 4);
      ClosedReaches(grid0, visited, end, start, x, p, i + 1);
    }
  }

  /** When the open set runs dry, `end` (never visited) cannot be reached from `start`. */
  lemma Exhausted(grid0: Board, start: Pos, end: Pos, cameFrom: map<Pos, Pos>, visited: set<Pos>)
    requires WellFormed(grid0) && Closed(grid0, visited, multiset{}, end)
    requires EntriesOk(start, end, multiset{}, cameFrom, visited) && end !in visited
    ensures forall p :: !IsPath(grid0, start, end, p)
  {
    forall p | IsPath(grid0, start, end, p)
      ensures false
    {
      ClosedReaches(grid0, visited, end, start, end, p, 0);
    }
  }

  /** Every listed cell is on the board. */
  lemma ExpandedInBounds(visited: set<Pos>, order: map<Pos, nat>, expanded: seq<Pos>)
    requires OrderOk(visited, order, expanded)
    ensures forall i :: 0 <= i < |expanded| ==> InBounds(expanded[i])
  {
    forall i | 0 <= i < |expanded|
      ensures InBounds(expanded[i])
    {
      assert expanded[i] in visited;
    }
  }

  /** A visiting pass pops one entry, pushes at most four and visits one new cell. */
  lemma CountStep(iterations: nat, open0: multiset<Entry>, rest: multiset<Entry>, open': multiset<Entry>,
                  visited: set<Pos>, c: Pos)
    requires iterations + |open0| <= 1 + 4 * |visited| && |rest| == |open0| - 1
    requires |open'| <= |rest| + 4 && c !in visited
    ensures iterations + 1 + |open'| <= 1 + 4 * |visited + {c}|
  {
    assert |visited + {c}| == |visited| + 1;
  }

  /** At most ROWS * COLS cells can be visited. */
  lemma VisitedBound(visited: set<Pos>)
    requires forall v :: v in visited ==> InBounds(v)
    ensures |visited| <= ROWS * COLS
  {
    AllCellsCard();
    SubsetCard(visited, AllCells());
  }

  /** A popped entry for a visited cell (`if current in visited: continue`) leaves the invariants intact. */
  lemma SkipPop(grid0: Board, start: Pos, end: Pos, open0: multiset<Entry>, e: Entry,
                cameFrom: map<Pos, Pos>, visited: set<Pos>)
    requires WellFormed(grid0)
    requires EntriesOk(start, end, open0, cameFrom, visited) && Closed(grid0, visited, open0, end)
    requires e in open0 && e.pos in visited
    ensures EntriesOk(start, end, open0 - multiset{e}, cameFrom, visited)
    ensures Closed(grid0, visited, open0 - multiset{e}, end)
  {
    var open := open0 - multiset{e};
    assert forall x :: x in open0 && x != e ==> x in open;
    forall v | v in visited
      ensures Covered(grid0, visited, open, end, v, 4)
    {
      assert Covered(grid0, visited, open0, end, v, 4);
    }
  }

  /** The first cell ever visited is `start`, since only the start entry lacks a predecessor. */
  lemma FirstVisitIsStart(grid0: Board, start: Pos, end: Pos, open0: multiset<Entry>, e: Entry,
                          cameFrom: map<Pos, Pos>, visited: set<Pos>, order: map<Pos, nat>, expanded: seq<Pos>)
    requires WellFormed(grid0) && VisitsOk(start, end, visited, order, expanded)
    requires LinksOk(grid0, start, cameFrom, visited, order) && EntriesOk(start, end, open0, cameFrom, visited)
    requires e in open0 && e.pos !in visited
    ensures start in visited + {e.pos}
    ensures e.pos != start ==> e.pos in cameFrom
    ensures InBounds(e.pos) && e == Entry(Heuristic(e.pos, end), e.pos)
  {
    if e.pos != start {
      assert cameFrom[e.pos] in visited;
    }
  }

  /** Adding `c` to `visited` as the next cell in visit order keeps the visit record. */
  lemma OrderStep(visited: set<Pos>, order: map<Pos, nat>, expanded: seq<Pos>, c: Pos)
    requires OrderOk(visited, order, expanded) && c !in visited && InBounds(c)
    ensures OrderOk(visited + {c}, order[c := |expanded|], expanded + [c])
    ensures forall i :: 0 <= i < |expanded + [c]| ==> InBounds((expanded + [c])[i])
  {
    var expanded' := expanded + [c];
    forall i, j | 0 <= i < j < |expanded'|
      ensures expanded'[i] != expanded'[j]
    {
      if j == |expanded| {
        assert expanded'[i] == expanded[i] && expanded[i] in visited;
      }
    }
    forall i | 0 <= i < |expanded'|
      ensures InBounds(expanded'[i])
    {
      assert expanded'[i] in visited + {c};
    }
  }

  /**
   * Each link after expanding `c` is an old one, or a new link from `c` to an
   * unvisited passable neighbour: links of visited cells are never rewritten.
   */
  lemma NewLinks(grid0: Board, grid: Board, start: Pos, end: Pos, cameFrom: map<Pos, Pos>, visited: set<Pos>,
                 c: Pos, open: multiset<Entry>, grid': Board, open': multiset<Entry>, cameFrom': map<Pos, Pos>)
    requires WellFormed(grid0) && InBounds(start) && MarkedOk(grid0, grid, start)
    requires ExpandedUpTo(grid, end, open, cameFrom, visited, c, 4, grid', open', cameFrom')
    ensures forall n :: n in cameFrom ==> n in cameFrom'
    ensures forall n :: n in cameFrom' ==>
              (n in cameFrom && cameFrom'[n] == cameFrom[n]) ||
              (n !in visited && cameFrom'[n] == c && Adjacent(c, n) && Passable(grid0, n))
  {
    forall n | n in cameFrom' && Fresh(grid, visited, c, n, 4)
      ensures Passable(grid0, n)
    {
      MarkedStep(grid0, grid, start, n);
    }
  }

  /** `came_from` after expanding `c`: links still lead to earlier-visited cells. */
  lemma LinksStep(grid0: Board, start: Pos, end: Pos, cameFrom: map<Pos, Pos>,
                  visited: set<Pos>, order: map<Pos, nat>, expanded: seq<Pos>, c: Pos, cameFrom': map<Pos, Pos>)
    requires WellFormed(grid0)
    requires LinksOk(grid0, start, cameFrom, visited, order) && VisitsOk(start, end, visited, order, expanded)
    requires c !in visited && start in visited + {c} && (c != start ==> c in cameFrom)
    requires forall n :: n in cameFrom ==> n in cameFrom'
    requires forall n :: n in cameFrom' ==>
               (n in cameFrom && cameFrom'[n] == cameFrom[n]) ||
               (n !in visited + {c} && cameFrom'[n] == c && Adjacent(c, n) && Passable(grid0, n))
    ensures LinksOk(grid0, start, cameFrom', visited + {c}, order[c := |expanded|])
  {
    var order', visited' := order[c := |expanded|], visited + {c};
    forall v | v in visited' && v != start
      ensures v in cameFrom'
    {
      assert v in cameFrom;
    }
    forall n | n in cameFrom'
      ensures Adjacent(cameFrom'[n], n) && Passable(grid0, n) && cameFrom'[n] in order'
    {
    }
    forall n | n in cameFrom' && n in order'
      ensures order'[cameFrom'[n]] < order'[n]
    {
      assert n in cameFrom && cameFrom'[n] == cameFrom[n] && cameFrom[n] in order;
    }
  }

  /** The open set after expanding `c`: old entries minus the popped one, plus the fresh neighbours. */
  lemma EntriesStep(grid: Board, start: Pos, end: Pos, open0: multiset<Entry>, e: Entry,
                    cameFrom: map<Pos, Pos>, visited: set<Pos>,
                    grid': Board, open': multiset<Entry>, cameFrom': map<Pos, Pos>)
    requires WellFormed(grid) && EntriesOk(start, end, open0, cameFrom, visited)
    requires start in visited + {e.pos}
    requires ExpandedUpTo(grid, end, open0 - multiset{e}, cameFrom, visited + {e.pos}, e.pos, 4, grid', open', cameFrom')
    ensures EntriesOk(start, end, open', cameFrom', visited + {e.pos})
  {
    QueuedMembers(grid, end, open0 - multiset{e}, visited + {e.pos}, e.pos, 4, open');
    assert forall x :: x in open0 - multiset{e} ==> x in open0;
  }

  /** Every visited cell stays covered, and `c` itself is now covered. */
  lemma ClosedStep(grid0: Board, grid: Board, start: Pos, end: Pos, open0: multiset<Entry>, e: Entry,
                   cameFrom: map<Pos, Pos>, visited: set<Pos>,
                   grid': Board, open': multiset<Entry>, cameFrom': map<Pos, Pos>)
    requires WellFormed(grid0) && InBounds(start) && MarkedOk(grid0, grid, start)
    requires Closed(grid0, visited, open0, end) && e in open0 && e == Entry(Heuristic(e.pos, end), e.pos)
    requires ExpandedUpTo(grid, end, open0 - multiset{e}, cameFrom, visited + {e.pos}, e.pos, 4, grid', open', cameFrom')
    ensures Closed(grid0, visited + {e.pos}, open', end)
  {
    var visited', open := visited + {e.pos}, open0 - multiset{e};
    assert forall x :: x in open0 && x != e ==> x in open;
    QueuedMembers(grid, end, open, visited', e.pos, 4, open');
    forall v | v in visited'
      ensures Covered(grid0, visited', open', end, v, 4)
    {
      if v == e.pos {
        forall j | 0 <= j < 4 && Passable(grid0, Neighbor(v, j))
          ensures Neighbor(v, j) in visited' || Entry(Heuristic(Neighbor(v, j), end), Neighbor(v, j)) in open'
        {
          MoveIndexOfNeighbor(v, j);
          assert At(grid, Neighbor(v, j)) != WALL;
        }
      } else {
        assert Covered(grid0, visited, open0, end, v, 4);
      }
    }
  }

  /** The visited marks of the expansion land on non-wall cells other than `start`. */
  lemma MarksStep(grid0: Board, grid: Board, start: Pos, end: Pos, open: multiset<Entry>, cameFrom: map<Pos, Pos>,
                  visited: set<Pos>, c: Pos, grid': Board, open': multiset<Entry>, cameFrom': map<Pos, Pos>)
    requires WellFormed(grid0) && InBounds(start) && MarkedOk(grid0, grid, start) && start in visited
    requires ExpandedUpTo(grid, end, open, cameFrom, visited, c, 4, grid', open', cameFrom')
    ensures MarkedOk(grid0, grid', start)
  {
    forall q | InBounds(q) && At(grid', q) != At(grid0, q)
      ensures At(grid', q) == VISITED && At(grid0, q) != WALL
    {
      if Fresh(grid, visited, c, q, 4) {
        MarkedStep(grid0, grid, start, q);
      }
    }
  }

  /**
   * When `end` is popped, the chain of predecessors from `end` reaches
   * `start` and is a route, because every link goes to a cell visited earlier.
   */
  lemma FoundFacts(grid0: Board, start: Pos, end: Pos, cameFrom: map<Pos, Pos>,
                   visited: set<Pos>, order: map<Pos, nat>, expanded: seq<Pos>)
    requires WellFormed(grid0) && VisitsOk(start, end, visited, order, expanded)
    requires LinksOk(grid0, start, cameFrom, visited, order)
    requires start in visited + {end} && (end != start ==> end in cameFrom)
    ensures Ranked(cameFrom, start, order[end := |expanded|])
    ensures Trace(cameFrom, start, end, order[end := |expanded|]).Some?
    ensures IsPath(grid0, start, end, Trace(cameFrom, start, end, order[end := |expanded|]).value)
    ensures forall n :: n in cameFrom ==> InBounds(n)
  {
    var order' := order[end := |expanded|];
    assert Ranked(cameFrom, start, order');
    TraceComplete(cameFrom, start, end, order');
    TraceIsPath(grid0, cameFrom, start, end, order');
  }

  /**
   * `gbfs(start, end)` on the board `grid0`. Returns the board as the search
   * and `reconstruct_path` leave it and the step count that
   * `calculate_path_distance` reports, or NotFound when the open set runs
   * dry. The ghost `route` is the predecessor chain that `reconstruct_path`
   * paints. `expanded` is appended with `current` once per expansion (each
   * pop of a cell not yet in `visited`), and `iterations` is incremented once
   * per pop, so the last two clauses say that no cell is expanded twice and
   * that the `while open_set` loop runs at most 1 + 4 * ROWS * COLS times.
   */
  method Search(grid0: Board, start: Pos, end: Pos)
    returns (grid: Board, result: Outcome, ghost route: seq<Pos>, ghost expanded: seq<Pos>, ghost iterations: nat)
    requires WellFormed(grid0) && InBounds(start) && InBounds(end)
    ensures WellFormed(grid) && SameWalls(grid0, grid) && OnlyMarkers(grid0, grid)
    ensures At(grid, start) == At(grid0, start)
    ensures result.Found? ==> IsPath(grid0, start, end, route) && result.dist == |route| - 1
    ensures result.Found? ==> forall i :: 1 <= i < |route| ==> InBounds(route[i]) && At(grid, route[i]) == PATH
    ensures result.NotFound? ==> forall p :: !IsPath(grid0, start, end, p)
    ensures forall q :: InBounds(q) && At(grid, q) != At(grid0, q) ==>
              At(grid, q) == if result.Found? && q in route[1..] then PATH else VISITED
    ensures start == end ==> result == Found(0)
    ensures forall i, j :: 0 <= i < j < |expanded| ==> expanded[i] != expanded[j]
    ensures forall i :: 0 <= i < |expanded| ==> InBounds(expanded[i])
    ensures iterations <= 1 + 4 * ROWS * COLS
  {
    var open := multiset{Entry(Heuristic(start, end), start)};
    var cameFrom: map<Pos, Pos> := map[];
    var visited: set<Pos> := {};
    grid := grid0;
    ghost var order: map<Pos, nat> := map[];
    expanded, iterations := [], 0;
    AllCellsCard();

    while open != multiset{}
      invariant MarkedOk(grid0, grid, start)
      invariant VisitsOk(start, end, visited, order, expanded)
      invariant LinksOk(grid0, start, cameFrom, visited, order)
      invariant EntriesOk(start, end, open, cameFrom, visited)
      invariant Closed(grid0, visited, open, end)
      invariant iterations + |open| <= 1 + 4 * |visited|
      decreases AllCells() - visited, |open|
    {
      ghost var open0 := open;
      var e, rest := PopMin(open);
      open := rest;
      var current := e.pos;
      iterations := iterations + 1;
      if current in visited {
        SkipPop(grid0, start, end, open0, e, cameFrom, visited);
        continue;
      }
      FirstVisitIsStart(grid0, start, end, open0, e, cameFrom, visited, order, expanded);
      VisitedBound(visited);
      ghost var visited0 := visited;
      visited := visited + {current};
      ghost var rank := order[current := |expanded|];

      if current == end {
        FoundFacts(grid0, start, end, cameFrom, visited0, order, expanded);
        ghost var grid1 := grid;
        ghost var p := Trace(cameFrom, start, end, rank).value;
        grid := ReconstructPath(grid, cameFrom, start, end, rank);
        var distance := CalculatePathDistance(cameFrom, start, end, rank);
        RouteMarked(grid0, grid1, grid, start, end, p);
        OrderStep(visited0, order, expanded, current);
        result, route := Found(distance), p;
        expanded := expanded + [current];
        return;
      }

      ghost var grid1, cameFrom1 := grid, cameFrom;
      grid, open, cameFrom := ExpandNeighbors(grid, end, open, cameFrom, visited, current);
      NewLinks(grid0, grid1, start, end, cameFrom1, visited, current, rest, grid, open, cameFrom);
      LinksStep(grid0, start, end, cameFrom1, visited0, order, expanded, current, cameFrom);
      EntriesStep(grid1, start, end, open0, e, cameFrom1, visited0, grid, open, cameFrom);
      ClosedStep(grid0, grid1, start, end, open0, e, cameFrom1, visited0, grid, open, cameFrom);
      MarksStep(grid0, grid1, start, end, rest, cameFrom1, visited, current, grid, open, cameFrom);
      OrderStep(visited0, order, expanded, current);
      CountStep(iterations - 1, open0, rest, open, visited0, current);
      order, expanded := rank, expanded + [current];
    }
    Exhausted(grid0, start, end, cameFrom, visited);
    ExpandedInBounds(visited, order, expanded);
    MarkedFinal(grid0, grid, start);
    VisitedBound(visited);
    assert IsPath(grid0, start, start, [start]);
    result, route := NotFound, [];
  }
}
