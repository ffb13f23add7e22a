/**
 * The event loop of both programs with the pygame shell abstracted away:
 * each event already carries the cell under the mouse, and the editor state
 * (the module-level `grid`, `start`, `end`, `placing_walls` and `running`)
 * lives in one object. Pressing Space resets the board and runs the
 * program's search.
 */
module Editor {
  import opened Grid
  import opened Paths
  import AStar
  import Greedy

  /** The events the loop reacts to; `cell` is the board cell under the mouse pointer. */
  datatype Event =
    | Quit
    | MouseDown(button: int, cell: Pos)
    | MouseUp(button: int)
    | Motion(cell: Pos)
    | KeyDown(space: bool)

  /** Which of the two programs: the A* one or the greedy best-first one. */
  datatype Algorithm = AStarSearch | GreedySearch

  /** The mouse is inside the window, so every cell an event carries is on the board. */
  predicate EventOnBoard(ev: Event) {
    match ev
    case MouseDown(_, cell) => InBounds(cell)
    case Motion(cell) => InBounds(cell)
    case _ => true
  }

  /** No cell holds a wall. */
  ghost predicate NoWalls(g: Board)
    requires WellFormed(g)
  {
    forall q :: InBounds(q) ==> At(g, q) != WALL
  }

  /** The 30 x 40 board of empty cells the programs start with. */
  function EmptyBoard(): (g: Board)
    ensures WellFormed(g) && forall q :: InBounds(q) ==> At(g, q) == EMPTY
  {
    seq(ROWS, _ => seq(COLS, _ => EMPTY))
  }

  class EditorState {
    var grid: Board
    var start: Option<Pos>
    var end: Option<Pos>
    var placingWalls: bool
    var running: bool
    const algorithm: Algorithm

    /**
     * `end` is only set after `start`; both are on the board and never hold
     * a wall; until `end` is set there is no wall at all and no painting.
     */
    ghost predicate Valid()
      reads this
    {
      && WellFormed(grid)
      && (end.Some? ==> start.Some?)
      && (start.Some? ==> InBounds(start.value) && At(grid, start.value) != WALL)
      && (end.Some? ==> InBounds(end.value) && At(grid, end.value) != WALL)
      && (end.None? ==> !placingWalls && NoWalls(grid))
    }

    constructor(algorithm: Algorithm)
      ensures Valid()
      ensures grid == EmptyBoard() && start.None? && end.None? && !placingWalls && running
      ensures this.algorithm == algorithm
    {
      grid := EmptyBoard();
      start, end := None, None;
      placingWalls, running := false, true;
      this.algorithm := algorithm;
    }

    /**
     * One pass of `for event in pygame.event.get()`. Returns the outcome of
     * the search a Space press runs, and None for every other event; when
     * that search finds the end, `route` is the route it painted, a route on
     * the board as it was before the press whose step count is the reported
     * distance, and for the A* program no route is shorter.
     */
    method Handle(ev: Event) returns (outcome: Option<Outcome>, ghost route: seq<Pos>)
      requires Valid() && EventOnBoard(ev)
      modifies this
      ensures Valid()
      ensures ev.Quit? ==>
                !running && grid == old(grid) && start == old(start) && end == old(end) &&
                placingWalls == old(placingWalls)
      ensures !ev.Quit? ==> running == old(running)
      ensures ev.MouseDown? && ev.button == 1 ==>
                grid == old(grid) &&
                if old(start).None? then start == Some(ev.cell) && end == old(end) && placingWalls == old(placingWalls)
                else if old(end).None? then start == old(start) && end == Some(ev.cell) && placingWalls == old(placingWalls)
                else start == old(start) && end == old(end) && placingWalls
      ensures ev.MouseDown? && ev.button == 3 ==>
                grid == Put(old(grid), ev.cell, EMPTY) && start == old(start) && end == old(end) &&
                placingWalls == old(placingWalls)
      ensures ev.MouseDown? && ev.button != 1 && ev.button != 3 ==>
                grid == old(grid) && start == old(start) && end == old(end) && placingWalls == old(placingWalls)
      ensures ev.MouseUp? ==>
                grid == old(grid) && start == old(start) && end == old(end) &&
                placingWalls == (old(placingWalls) && ev.button != 1)
      ensures ev.Motion? ==>
                start == old(start) && end == old(end) && placingWalls == old(placingWalls) &&
                grid == if old(placingWalls) && Some(ev.cell) != old(start) && Some(ev.cell) != old(end)
                        then Put(old(grid), ev.cell, WALL) else old(grid)
      ensures ev.KeyDown? ==> start == old(start) && end == old(end) && placingWalls == old(placingWalls)
      ensures ev.KeyDown? && !(ev.space && old(start).Some? && old(end).Some?) ==> grid == old(grid)
      ensures ev.KeyDown? && ev.space && old(start).Some? && old(end).Some? ==>
                WellFormed(old(grid)) && outcome.Some? &&
                SameWalls(old(grid), grid) && OnlyMarkers(Reset(old(grid)), grid) &&
                (outcome.value.Found? <==> Reachable(old(grid), old(start).value, old(end).value)) &&
                (old(start) == old(end) ==> outcome.value == Found(0)) &&
                (outcome.value.Found? ==>
                   IsPath(old(grid), old(start).value, old(end).value, route) && outcome.value.dist == |route| - 1 &&
                   forall i :: 1 <= i < |route| ==> InBounds(route[i]) && At(grid, route[i]) == PATH) &&
                (forall q :: InBounds(q) && At(grid, q) != At(Reset(old(grid)), q) ==>
                   At(grid, q) == if outcome.value.Found? && q in route[1..] then PATH else VISITED) &&
                (outcome.value.Found? && algorithm == AStarSearch ==>
                   forall q :: IsPath(old(grid), old(start).value, old(end).value, q) ==> outcome.value.dist <= |q| - 1)
      ensures !(ev.KeyDown? && ev.space && old(start).Some? && old(end).Some?) ==> outcome.None?
    {
      outcome, route := None, [];
      match ev
      case Quit =>
        running := false;
      case MouseDown(button, cell) =>
        if button == 1 {
          if start.None? {
            start := Some(cell);
          } else if end.None? {
            end := Some(cell);
          } else {
            placingWalls := true;
          }
        } else if button == 3 {
          grid := Put(grid, cell, EMPTY);
        }
      case MouseUp(button) =>
        if button == 1 {
          placingWalls := false;
        }
      case Motion(cell) =>
        if placingWalls {
          if Some(cell) != start && Some(cell) != end {
            grid := Put(grid, cell, WALL);
          }
        }
      case KeyDown(space) =>
        if space && start.Some? && end.Some? {
          ghost var before := grid;
          grid := Reset(grid);
          ResetWellFormed(before);
          var result: Outcome;
          if algorithm == AStarSearch {
            grid, result, route := AStar.Search(grid, start.value, end.value);
          } else {
            ghost var expanded, iterations;
            grid, result, route, expanded, iterations := Greedy.Search(grid, start.value, end.value);
          }
          SameWallsSamePaths(before, Reset(before), start.value, end.value);
          outcome := Some(result);
        }
    }
  }
}
