/**
 * The grid shared by both search programs: a ROWS x COLS board of integer
 * cell codes, orthogonal moves, the Manhattan heuristic, the pre-run reset
 * and the notion of a wall-free orthogonal path.
 */
module Grid {

  /** The window is 800 x 600 pixels of 20-pixel squares: 600 / 20 rows, 800 / 20 columns. */
  const ROWS: int := 30
  const COLS: int := 40

  /** Cell codes stored in the board. */
  const EMPTY: int := 0
  const WALL: int := 1
  const PATH: int := 2
  const VISITED: int := 3

  /** A cell coordinate (row, col). */
  datatype Pos = Pos(row: int, col: int)

  /** The board as a list of rows. */
  type Board = seq<seq<int>>

  /** The result of one search run: the step count the program reports, or no route. */
  datatype Outcome = Found(dist: nat) | NotFound

  predicate InBounds(p: Pos) {
    0 <= p.row < ROWS && 0 <= p.col < COLS
  }

  predicate WellFormed(g: Board) {
    |g| == ROWS && forall r :: 0 <= r < ROWS ==> |g[r]| == COLS
  }

  function At(g: Board, p: Pos): int
    requires WellFormed(g) && InBounds(p)
  {
    g[p.row][p.col]
  }

  /** `grid[row][col] = v` */
  function Put(g: Board, p: Pos, v: int): (g': Board)
    requires WellFormed(g) && InBounds(p)
    ensures WellFormed(g')
    ensures At(g', p) == v
    ensures forall q :: InBounds(q) && q != p ==> At(g', q) == At(g, q)
  {
    g[p.row := g[p.row][p.col := v]]
  }

  /** A cell a search may step onto: inside the board and not a wall. */
  predicate Passable(g: Board, p: Pos)
    requires WellFormed(g)
  {
    InBounds(p) && At(g, p) != WALL
  }

  /** Both boards hold a wall at exactly the same cells. */
  ghost predicate SameWalls(g: Board, g': Board)
    requires WellFormed(g) && WellFormed(g')
  {
    forall q :: InBounds(q) ==> (At(g, q) == WALL <==> At(g', q) == WALL)
  }

  /** Every cell where the boards differ holds a path or visited marker in `g'`. */
  ghost predicate OnlyMarkers(g: Board, g': Board)
    requires WellFormed(g) && WellFormed(g')
  {
    forall q :: InBounds(q) && At(g', q) != At(g, q) ==> At(g', q) == PATH || At(g', q) == VISITED
  }

  function Abs(x: int): nat {
    if x < 0 then -x else x
  }

  /** The four movements, in the order both searches try them. */
  const Moves: seq<(int, int)> := [(-1, 0), (1, 0), (0, -1), (0, 1)]

  function Neighbor(p: Pos, k: int): (n: Pos)
    requires 0 <= k < 4
    ensures Adjacent(p, n)
  {
    Pos(p.row + Moves[k].0, p.col + Moves[k].1)
  }

  /** `a` and `b` are one orthogonal step apart. */
  predicate Adjacent(a: Pos, b: Pos) {
    (a.row == b.row && Abs(a.col - b.col) == 1) || (a.col == b.col && Abs(a.row - b.row) == 1)
  }

  /** The index into `Moves` of the step from `a` to its neighbour `b`. */
  function MoveIndex(a: Pos, b: Pos): (k: int)
    requires Adjacent(a, b)
    ensures 0 <= k < 4 && Neighbor(a, k) == b
  {
    if b.row == a.row - 1 then 0
    else if b.row == a.row + 1 then 1
    else if b.col == a.col - 1 then 2
    else 3
  }

  /** Distinct movements lead to distinct neighbours. */
  lemma MoveIndexOfNeighbor(p: Pos, k: int)
    requires 0 <= k < 4
    ensures MoveIndex(p, Neighbor(p, k)) == k
  {
  }

  /** One move of a search: to an adjacent cell that is passable. */
  predicate IsStep(g: Board, a: Pos, b: Pos)
    requires WellFormed(g)
  {
    Adjacent(a, b) && Passable(g, b)
  }

  /** `p` lists the cells of an in-bounds, wall-free orthogonal route from `s` to `e`. */
  predicate IsPath(g: Board, s: Pos, e: Pos, p: seq<Pos>)
    requires WellFormed(g)
  {
    |p| >= 1 && p[0] == s && p[|p| - 1] == e &&
    forall i :: 0 <= i < |p| - 1 ==> IsStep(g, p[i], p[i + 1])
  }

  ghost predicate Reachable(g: Board, s: Pos, e: Pos)
    requires WellFormed(g)
  {
    exists p :: IsPath(g, s, e, p)
  }

  /** Boards with the same walls have the same routes. */
  lemma SameWallsSamePaths(g: Board, g': Board, s: Pos, e: Pos)
    requires WellFormed(g) && WellFormed(g') && SameWalls(g, g')
    ensures forall p :: IsPath(g, s, e, p) <==> IsPath(g', s, e, p)
  {
  }

  /** Manhattan distance; zero exactly on equal cells. */
  function Heuristic(a: Pos, b: Pos): (h: nat)
    ensures h == 0 <==> a == b
    ensures Adjacent(a, b) <==> h == 1
  {
    Abs(a.row - b.row) + Abs(a.col - b.col)
  }

  lemma HeuristicSymmetric(a: Pos, b: Pos)
    ensures Heuristic(a, b) == Heuristic(b, a)
  {
  }

  /** One orthogonal step changes the estimate to any target by at most one. */
  lemma HeuristicConsistent(a: Pos, b: Pos, t: Pos)
    requires Adjacent(a, b)
    ensures Heuristic(a, t) <= 1 + Heuristic(b, t)
    ensures Heuristic(b, t) <= 1 + Heuristic(a, t)
  {
  }

  /** Every suffix of a route is a route from its first cell. */
  lemma PathSuffix(g: Board, s: Pos, e: Pos, p: seq<Pos>, i: int)
    requires WellFormed(g) && IsPath(g, s, e, p) && 0 <= i < |p|
    ensures IsPath(g, p[i], e, p[i..])
  {
    forall j | 0 <= j < |p[i..]| - 1
      ensures IsStep(g, p[i..][j], p[i..][j + 1])
    {
      assert p[i..][j] == p[i + j] && p[i..][j + 1] == p[i + j + 1];
    }
  }

  /** Admissibility: the estimate never exceeds the step count of an actual route. */
  lemma {:induction false} HeuristicAdmissible(g: Board, s: Pos, e: Pos, p: seq<Pos>)
    requires WellFormed(g) && IsPath(g, s, e, p)
    ensures Heuristic(s, e) <= |p| - 1
    decreases |p|
  {
    if |p| > 1 {
      PathSuffix(g, s, e, p, 1);
      HeuristicAdmissible(g, p[1], e, p[1..]);
      assert IsStep(g, p[0], p[1]);
      HeuristicConsistent(s, p[1], e);
    }
  }

  /** The pre-run reset: walls stay, every other code becomes empty. */
  function Reset(g: Board): (r: Board)
    ensures |r| == |g|
    ensures forall i :: 0 <= i < |g| ==> |r[i]| == |g[i]|
    ensures forall i, j :: 0 <= i < |g| && 0 <= j < |g[i]| ==>
              (r[i][j] == WALL <==> g[i][j] == WALL) && (r[i][j] == WALL || r[i][j] == EMPTY)
  {
    seq(|g|, i requires 0 <= i < |g| =>
      seq(|g[i]|, j requires 0 <= j < |g[i]| => if g[i][j] != WALL then EMPTY else WALL))
  }

  lemma ResetWellFormed(g: Board)
    requires WellFormed(g)
    ensures WellFormed(Reset(g)) && SameWalls(g, Reset(g))
    ensures forall q :: InBounds(q) ==> At(Reset(g), q) == WALL || At(Reset(g), q) == EMPTY
  {
  }

  /** Resetting twice is resetting once. */
  lemma ResetIdempotent(g: Board)
    ensures Reset(Reset(g)) == Reset(g)
  {
    var r, rr := Reset(g), Reset(Reset(g));
    forall i | 0 <= i < |g|
      ensures rr[i] == r[i]
    {
      assert |rr[i]| == |r[i]|;
      forall j | 0 <= j < |r[i]|
        ensures rr[i][j] == r[i][j]
      {
      }
    }
  }

  /** Every in-bounds cell. */
  ghost function AllCells(): set<Pos> {
    set r: int, c: int | 0 <= r < ROWS && 0 <= c < COLS :: Pos(r, c)
  }

  ghost function RowCells(r: int, m: int): set<Pos> {
    set c: int | 0 <= c < m :: Pos(r, c)
  }

  ghost function RowsBelow(n: int): set<Pos> {
    set r: int, c: int | 0 <= r < n && 0 <= c < COLS :: Pos(r, c)
  }

  lemma {:induction false} RowCellsCard(r: int, m: nat)
    ensures |RowCells(r, m)| == m
  {
    if m > 0 {
      RowCellsCard(r, m - 1);
      assert RowCells(r, m) == RowCells(r, m - 1) + {Pos(r, m - 1)};
    }
  }

  lemma {:induction false} RowsBelowCard(n: nat)
    ensures |RowsBelow(n)| == n * COLS
  {
    if n > 0 {
      RowsBelowCard(n - 1);
      RowCellsCard(n - 1, COLS);
      assert RowsBelow(n) == RowsBelow(n - 1) + RowCells(n - 1, COLS);
      assert RowsBelow(n - 1) !! RowCells(n - 1, COLS);
    }
  }

  /** The board has ROWS * COLS cells. */
  lemma AllCellsCard()
    ensures |AllCells()| == ROWS * COLS
    ensures forall p :: p in AllCells() <==> InBounds(p)
  {
    RowsBelowCard(ROWS);
    assert AllCells() == RowsBelow(ROWS);
  }

  lemma SubsetCard(a: set<Pos>, b: set<Pos>)
    requires a <= b
    ensures |a| <= |b|
  {
    assert b == a + (b - a);
  }
}
