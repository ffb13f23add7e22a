/**
 * What the searches and `reconstruct_path` may write to the board: the
 * visited code on non-wall cells other than `start`, then the path code
 * along the reconstructed route.
 */
module Marks {
  import opened Grid

  /** The search writes only the visited code, only onto non-wall cells other than `start`. */
  ghost predicate MarkedOk(grid0: Board, grid: Board, start: Pos)
    requires WellFormed(grid0) && InBounds(start)
  {
    && WellFormed(grid)
    && At(grid, start) == At(grid0, start)
    && forall q :: InBounds(q) && At(grid, q) != At(grid0, q) ==> At(grid, q) == VISITED && At(grid0, q) != WALL
  }

  /** Marking a non-wall cell other than `start` as visited keeps the board's record. */
  lemma MarkedStep(grid0: Board, grid: Board, start: Pos, n: Pos)
    requires WellFormed(grid0) && InBounds(start) && MarkedOk(grid0, grid, start)
    requires InBounds(n) && At(grid, n) != WALL
    ensures n != start ==> MarkedOk(grid0, Put(grid, n, VISITED), start)
    ensures At(grid0, n) != WALL
  {
  }

  /** The visited marks leave walls and `start` alone, and every changed cell reads VISITED. */
  lemma MarkedFinal(grid0: Board, grid: Board, start: Pos)
    requires WellFormed(grid0) && InBounds(start) && MarkedOk(grid0, grid, start)
    ensures WellFormed(grid) && SameWalls(grid0, grid) && OnlyMarkers(grid0, grid)
    ensures At(grid, start) == At(grid0, start)
    ensures forall q :: InBounds(q) && At(grid, q) != At(grid0, q) ==> At(grid, q) == VISITED
  {
  }

  /**
   * Painting a route over the visited marks keeps walls and `start`, every
   * route cell past `start` reads PATH, and every other changed cell reads VISITED.
   */
  lemma RouteMarked(grid0: Board, grid1: Board, grid: Board, start: Pos, end: Pos, p: seq<Pos>)
    requires WellFormed(grid0) && InBounds(start) && MarkedOk(grid0, grid1, start)
    requires IsPath(grid0, start, end, p) && forall i :: 1 <= i < |p| ==> p[i] != start
    requires WellFormed(grid) && forall q :: InBounds(q) ==> At(grid, q) == if q in p[1..] then PATH else At(grid1, q)
    ensures SameWalls(grid0, grid) && OnlyMarkers(grid0, grid)
    ensures At(grid, start) == At(grid0, start)
    ensures forall i :: 1 <= i < |p| ==> InBounds(p[i]) && At(grid, p[i]) == PATH
    ensures forall q :: InBounds(q) && At(grid, q) != At(grid0, q) ==> At(grid, q) == if q in p[1..] then PATH else VISITED
  {
    forall q | q in p[1..]
      ensures Passable(grid0, q) && q != start
    {
      var j :| 0 <= j < |p[1..]| && p[1..][j] == q;
      assert p[j + 1] == q && IsStep(grid0, p[j], p[j + 1]);
    }
    forall i | 1 <= i < |p|
      ensures InBounds(p[i]) && At(grid, p[i]) == PATH
    {
      assert IsStep(grid0, p[i - 1], p[i]);
      assert p[i] == p[1..][i - 1];
    }
  }
}
