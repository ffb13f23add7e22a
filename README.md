# Grid pathfinding: A* and greedy best-first search

This project models two small programs from the pathfinding-visualization
repository: `a_star.py` and `greedy_bfs.py`. Each program shows a 30 x 40
board of cells. The user places a start cell, then an end cell, then paints
walls. Pressing Space clears the previous run and searches for an orthogonal
route from start to end. A* orders the open set by `g + h`. Greedy
best-first search orders it by the Manhattan heuristic `h` alone. Cells a
search touches are marked visited, and the reconstructed route is marked as
path.

The model is split into these modules:

- `Grid` (`grid.dfy`): the board, cell codes, moves, routes, the heuristic and the pre-run reset.
- `OpenSet` (`open_set.dfy`): the `heapq` priority queue as a multiset of `(key, (row, col))` entries. A pop takes the least entry in Python tuple order.
- `Paths` (`paths.dfy`): `reconstruct_path` and `calculate_path_distance` as loops over the `came_from` map.
- `Marks` (`marks.dfy`): what a search may write to the board.
- `AStar` (`astar.dfy`): `a_star` as a method with a `while` loop over the open set, and a nested `for` loop over the four moves.
- `Greedy` (`greedy.dfy`): `gbfs` in the same form, with its `visited` set.
- `Editor` (`editor.dfy`): the event loop's state as a class. Its `Handle` method handles one event.

The main results:

- A* reports `Found(d)` only with a real wall-free route of `d` steps, and no route is shorter. It reports `NotFound` only when no route exists.
- Greedy search reports `Found(d)` with a real route of `d` steps, and `NotFound` only when no route exists. It expands every cell at most once and loops at most `1 + 4 * 30 * 40` times.
- Both searches terminate, keep every wall, never touch the start cell, and only add visited and path markers. Every cell of the reported route after the start reads as path.
- One expansion of A* is described exactly. The neighbour loop's new board, open set, links and scores equal four passes of the function `AStar.Relax`. `AStar.RelaxExact` proves what those passes do cell by cell: exactly the improved neighbours change, in exactly the way the source changes them.
- Through `Editor.EditorState.Handle`, a Space press reports a route exactly when the end is reachable from the start on the board as it was before the press. A reported distance is the step count of a route on that board, painted as path, and with the A* program no route is shorter. Path is painted nowhere else, and every other cell the search changes is marked visited.

## Model

| member | source | states |
|---|---|---|
| Grid.Put | a_star.py:124 | writing one cell changes that cell to the new code and leaves every other cell and the board shape alone |
| Grid.Neighbor | a_star.py:81-82 | each of the four movements leads to an orthogonally adjacent cell |
| Grid.MoveIndex | a_star.py:81 | every adjacent cell is reached by exactly one of the four movements, given by the returned index |
| Grid.MoveIndexOfNeighbor | a_star.py:81 | distinct movements reach distinct neighbours, so each neighbour is tried once per expansion |
| Grid.Heuristic | a_star.py:32-34 | the Manhattan distance is zero exactly on equal cells and one exactly on adjacent cells |
| Grid.HeuristicSymmetric | a_star.py:32-34 | the heuristic does not depend on argument order |
| Grid.HeuristicConsistent | a_star.py:32-34 | one orthogonal step changes the estimate to any target by at most one |
| Grid.HeuristicAdmissible | a_star.py:32-34 | the estimate never exceeds the step count of any wall-free route |
| Grid.PathSuffix | a_star.py:81-83 | every suffix of a route is a route from its first cell |
| Grid.SameWallsSamePaths | a_star.py:136 | boards with walls in the same cells have exactly the same routes |
| Grid.Reset | a_star.py:136 | the reset keeps the board shape, keeps every wall and turns every other code into empty |
| Grid.ResetWellFormed | greedy_bfs.py:146 | the reset board is a 30 x 40 board with the same walls, holding only walls and empty cells |
| Grid.ResetIdempotent | greedy_bfs.py:146 | resetting twice is the same as resetting once |
| Grid.AllCellsCard | a_star.py:11 | the board has exactly ROWS * COLS cells, the in-bounds ones |
| OpenSet.LeTotalOrder | a_star.py:63 | tuple order on `(key, (row, col))` is a total order |
| OpenSet.LeastExists | a_star.py:71 | every non-empty open set has a least entry to pop |
| OpenSet.LeastUnique | a_star.py:71 | the least entry is unique, so each pop is determined by the open set's contents |
| OpenSet.PopMin | greedy_bfs.py:70 | `heappop` returns an entry no greater than any other and removes exactly one copy of it |
| Paths.Trace | a_star.py:95-100 | the predecessor chain of a cell runs from `start` to that cell, each cell linked to the one before, or is absent when a link is missing |
| Paths.TraceComplete | a_star.py:97-100 | when every ranked cell but `start` has a predecessor, the walk back always reaches `start` |
| Paths.TraceLength | a_star.py:97-100 | the chain has no more steps than the rank drop from the cell to `start` |
| Paths.TraceIsPath | a_star.py:97-100 | a chain whose links are steps onto passable cells is a wall-free route |
| Paths.CalculatePathDistance | greedy_bfs.py:101-110 | the result is the number of links in the chain from `end` to `start`, and 0 when the walk meets a cell with no predecessor |
| Paths.ReconstructPath | a_star.py:95-100 | exactly the chain's cells after `start` (so `end` but not `start`) get the path code; every other cell keeps its code |
| Marks.MarkedStep | a_star.py:90 | marking a non-wall cell other than `start` as visited keeps the record that only non-wall cells got the visited code |
| Marks.MarkedFinal | a_star.py:90 | visited marks leave every wall and the start cell alone, and every changed cell reads as visited |
| Marks.RouteMarked | a_star.py:97-99 | painting the route over the visited marks keeps walls and the start cell, every route cell after the first reads as path, and every other changed cell reads as visited |
| AStar.FrontierOnPath | a_star.py:70-90 | along any route, either `end` is already scored within the route's length, or some open entry has a key within it |
| AStar.RelaxedReaches | a_star.py:81-90 | once every scored cell has relaxed its neighbours, the end of any route from a scored cell is scored |
| AStar.RelaxedReachesAll | a_star.py:81-90 | once every scored cell is relaxed, every cell reachable from `start` is scored |
| AStar.RowPotentialDrop | a_star.py:85-87 | lowering one cell's weight lowers the sum of weights over a row |
| AStar.PotentialDrop | a_star.py:85-87 | lowering one cell's weight lowers the sum over the board |
| AStar.ScoreUpdateDrops | a_star.py:85-87 | lowering or first recording one cell's score lowers the termination measure |
| AStar.MeasureDrops | a_star.py:84-87 | a relaxation (a fresh cell, or a strictly lower `g_score`) lowers the termination measure |
| AStar.FoundFacts | a_star.py:73-78 | when `end` is popped, its chain is a route of exactly `g_score[end]` steps and no route is shorter |
| AStar.ChainFacts | a_star.py:86-87 | the predecessor chain of a scored cell reaches `start`, is a route, and is no longer than the cell's score |
| AStar.PoppedOptimal | a_star.py:71-73 | the score of a cell popped as least entry is at most the length of any route to it |
| AStar.Exhausted | a_star.py:92-93 | when the open set runs dry with `end` never pending, no route leads from `start` to `end` |
| AStar.PopStep | a_star.py:71 | popping the least entry for a cell other than `end` keeps every other scored cell relaxed or pending |
| AStar.RelaxedMonotone | a_star.py:85-87 | lowering the scores of other cells keeps a relaxed cell relaxed |
| AStar.ScoreKeysStep | a_star.py:84-87 | a relaxation never touches `start`, keeps `g_score[start] == 0`, and keeps every score below the number of scored cells |
| AStar.LinksStep | a_star.py:86-87 | a relaxation keeps every link an orthogonal step onto a passable cell from a strictly lower-scored cell |
| AStar.ScoresStep | a_star.py:84-88 | a relaxation keeps `g_score`, `came_from` and `f_score == g_score + h` consistent |
| AStar.FrontierStep | a_star.py:87-89 | the pushed entry makes the relaxed neighbour pending, and every other scored cell stays relaxed or pending |
| AStar.ProgressStep | a_star.py:84-87 | after trying movement `k`, the first `k + 1` neighbours are scored at most one step past `current` |
| AStar.EntriesStep | a_star.py:89 | every open entry's key stays at least `g + h` of its cell, except the start entry pushed with key 0 |
| AStar.RelaxStep | a_star.py:85-90 | one relaxation keeps the expansion state and strictly lowers the termination measure |
| AStar.SkipStep | a_star.py:83-85 | a neighbour off the board, on a wall or not improved leaves the expansion state valid |
| AStar.ExpandDone | a_star.py:81-90 | after all four movements, `current` is relaxed and the loop invariant holds again |
| AStar.NotYetRelaxed | a_star.py:83-85 | before movement `k` is tried, its neighbour's mark and score, and `current`'s score, are what they were when the expansion began |
| AStar.ImprovedStep | a_star.py:83-85 | trying movement `k` adds its neighbour to the improved set exactly when it is on the board, not a wall, and unscored or scored above `g[current] + 1` |
| AStar.MarksUpToStep | a_star.py:90 | after movement `k`, exactly the improved neighbours among the first `k + 1` carry the visited mark; all other cells keep their code |
| AStar.GScoresStep | a_star.py:84-87 | after movement `k`, exactly the improved neighbours among the first `k + 1` are scored `g[current] + 1`; all other scores are kept |
| AStar.FScoresStep | a_star.py:88 | after movement `k`, exactly the improved neighbours among the first `k + 1` get `f_score` `g[current] + 1 + h`; all others are kept |
| AStar.LinksUpToStep | a_star.py:86 | after movement `k`, exactly the improved neighbours among the first `k + 1` are linked to `current`; all other links are kept |
| AStar.QueueStep | a_star.py:89 | after movement `k`, each entry has as many copies as before, plus one exactly when it is `(g[current] + 1 + h, n)` for an improved neighbour `n` among the first `k + 1` |
| AStar.Relax | a_star.py:81-90 | the passes of the neighbour loop keep the board well formed and `current` scored |
| AStar.RelaxImproves | a_star.py:83-90 | a pass on a passable neighbour whose tentative score improves marks it, links it to `current`, scores it and pushes its entry |
| AStar.RelaxSkips | a_star.py:83-85 | a pass on an off-board cell, a wall or a neighbour whose score does not improve changes nothing |
| AStar.MarksScoresNext | a_star.py:84-90 | if exactly the improved neighbours among the first `j` moves are marked and rescored, the same holds after pass `j` for the first `j + 1` |
| AStar.RelaxMarksScores | a_star.py:81-90 | after the first `k` passes, exactly the improved neighbours are marked and scored `g[current] + 1`; other cells keep their code and score |
| AStar.FScoresNext | a_star.py:88 | if exactly the improved neighbours among the first `j` moves carry the new `f_score`, the same holds after pass `j` for the first `j + 1` |
| AStar.RelaxFScores | a_star.py:81-90 | after the first `k` passes, exactly the improved neighbours get `f_score` `g[current] + 1 + h`; others are kept |
| AStar.LinksNext | a_star.py:86 | if exactly the improved neighbours among the first `j` moves are linked to `current`, the same holds after pass `j` for the first `j + 1` |
| AStar.RelaxLinks | a_star.py:81-90 | after the first `k` passes, exactly the improved neighbours are linked to `current`; other links are kept |
| AStar.QueueNext | a_star.py:89 | if the open set gained exactly one copy of one entry per improved neighbour among the first `j` moves, and every other entry kept its count, the same holds after pass `j` for the first `j + 1` |
| AStar.RelaxQueue | a_star.py:81-90 | after the first `k` passes, the open set gains one copy of `(g[current] + 1 + h, n)` per improved neighbour `n`, and every other entry keeps its number of copies |
| AStar.RelaxExact | a_star.py:81-90 | after the first `k` passes, exactly the improved neighbours are marked, linked to `current`, scored `g[current] + 1`, given `f_score` `g[current] + 1 + h` and queued once more; every other cell's code, scores and link, and every other entry's number of copies, are unchanged |
| AStar.ExpandNeighbors | a_star.py:81-90 | the new board, open set, `came_from`, `g_score` and `f_score` are exactly the four passes of `Relax`, which `RelaxExact` reads cell by cell; afterwards `current` is relaxed, scores, links, entries and marks stay consistent, and the measure has dropped unless nothing changed |
| AStar.Search | a_star.py:59-93 | Found gives the length of a real route that is a shortest route, with its cells after `start` painted as path and no other cell painted as path; every other changed cell reads as visited, on NotFound too; NotFound means no route exists; walls and the start cell are kept and only markers are added; start == end gives Found(0) |
| Greedy.NotYetMarked | greedy_bfs.py:83-85 | the wall test on a neighbour reads the code the board had before this expansion |
| Greedy.FreshStep | greedy_bfs.py:83-86 | neighbour `k` is not among the first `k`, and trying it adds it to the fresh set exactly when it is on the board, not a wall and not visited |
| Greedy.MarkedUpToStep | greedy_bfs.py:89 | after movement `k`, exactly the fresh neighbours among the first `k + 1` carry the visited mark and every other cell keeps its code |
| Greedy.LinkedUpToStep | greedy_bfs.py:87 | after movement `k`, exactly the fresh neighbours among the first `k + 1` are linked to `current` and every other link is kept |
| Greedy.QueuedUpToStep | greedy_bfs.py:88 | after movement `k`, each entry has as many copies as before, plus one exactly when it is `(h, n)` for a fresh neighbour `n` among the first `k + 1` |
| Greedy.QueuedMembers | greedy_bfs.py:88 | an entry is in the open set after the loop exactly when it was before or is `(h, n)` for a fresh neighbour `n` |
| Greedy.ExpandFresh | greedy_bfs.py:85-89 | an unvisited passable neighbour gets `current` as predecessor, an entry keyed by its heuristic and the visited mark |
| Greedy.ExpandSkip | greedy_bfs.py:85-86 | a neighbour off the board, on a wall or already visited changes nothing |
| Greedy.ExpandNeighbors | greedy_bfs.py:83-89 | exactly the unvisited passable neighbours are marked, linked to `current` (overwriting earlier links) and get one more copy of their heuristic-keyed entry; every other entry keeps its number of copies, and all else, the links of visited cells included, is unchanged |
| Greedy.ClosedReaches | greedy_bfs.py:69-89 | a visited set closed under passable moves contains the end of every route that starts inside it |
| Greedy.Exhausted | greedy_bfs.py:91-92 | when the open set runs dry without visiting `end`, no route leads from `start` to `end` |
| Greedy.ExpandedInBounds | greedy_bfs.py:73 | every visited cell is on the board |
| Greedy.CountStep | greedy_bfs.py:69-89 | one visiting pass pops one entry and pushes at most four, which keeps the loop count bounded by four per visited cell |
| Greedy.VisitedBound | greedy_bfs.py:73 | at most ROWS * COLS cells are ever visited |
| Greedy.SkipPop | greedy_bfs.py:71-72 | dropping a popped entry for an already visited cell keeps the entry and coverage invariants |
| Greedy.FirstVisitIsStart | greedy_bfs.py:70-73 | the first cell visited is `start`; every other popped unvisited cell has a predecessor and its entry is keyed by its heuristic |
| Greedy.OrderStep | greedy_bfs.py:73 | adding a cell to `visited` as the next in visit order keeps the visit record and its cells distinct |
| Greedy.NewLinks | greedy_bfs.py:86-87 | after an expansion, each link is either unchanged or a new link from `current` to an unvisited passable neighbour; no link is dropped |
| Greedy.LinksStep | greedy_bfs.py:86-87 | links still lead from every visited cell to a cell visited strictly earlier |
| Greedy.EntriesStep | greedy_bfs.py:88 | every open entry is keyed by its cell's heuristic and is the start entry or has a predecessor |
| Greedy.ClosedStep | greedy_bfs.py:83-89 | after expanding `current`, every passable neighbour of every visited cell is visited or queued |
| Greedy.MarksStep | greedy_bfs.py:89 | the visited marks of an expansion fall only on non-wall cells other than `start` |
| Greedy.FoundFacts | greedy_bfs.py:75-77 | when `end` is popped, its chain of predecessors reaches `start` and is a wall-free route |
| Greedy.Search | greedy_bfs.py:59-92 | Found gives the length of a real route, with its cells after `start` painted as path and no other cell painted as path; every other changed cell reads as visited, on NotFound too; NotFound means no route exists; walls and the start cell are kept and only markers are added; no cell is expanded twice; the loop runs at most 1 + 4 * ROWS * COLS times |
| Editor.EmptyBoard | a_star.py:27 | the initial board is 30 x 40 and every cell is empty |
| Editor.EditorState.constructor | a_star.py:27-29 | the editor starts with an empty board, no start, no end, no painting, and running |
| Editor.EditorState.Handle | a_star.py:110-137 | per event: quit stops the loop and leaves the board, start, end and painting flag as they were; the first left click sets start, the second sets end, later ones start painting; right click empties a cell; releasing the left button stops painting; motion paints a wall except on start and end; Space with both set resets the board, keeps the walls, and reports a route exactly when end is reachable from start on the board before the press; a reported distance is the step count of a route on that board whose cells after start are painted as path; compared with the reset board, only those cells read as path and every other changed cell reads as visited; for the A* program no route is shorter |

## Left out

- Drawing (`draw_grid`, `draw_cells`, colours, `pygame.display`) and the window setup are not modelled. They only read the board.
- The pixel-to-cell mapping `y // GRID_SIZE, x // GRID_SIZE` is not modelled. Events carry the cell directly, and `EventOnBoard` requires it to be on the board, as it is for a pointer inside the 800 x 600 window. Python's negative-index wrap-around therefore never arises.
- The outer `while running` loop is not modelled as a loop. `Handle` is one turn of its `for event` body, and the `running` field records Quit.
- Timing (`time.perf_counter`), the `print` messages and the `path_found` flag are left out. The flag is written but never read. The reported distance is returned in `Outcome` instead of printed.
- The binary heap layout of `heapq` is left out. Only its observable order is modelled: a multiset of entries, with the least entry popped in tuple order.
- The ghost outputs `route`, `expanded` and `iterations` of the searches, and the `route` of `Handle`, exist only to state results. The programs do not compute them.
- Greedy.ExpandNeighbors: the two nested `if` tests of the source are merged into one condition. They are evaluated in the same order with the same effect.
- Paths.ReconstructPath and Paths.CalculatePathDistance require the links to be ranked, and `ReconstructPath` also requires the walk to reach `start`. These rule out the `KeyError` on a missing link (`a_star.py:100`) and the endless loop on a cycle of links (`a_star.py:98`, `greedy_bfs.py:105`). Neither can occur when the searches call them: `AStar.FoundFacts` and `Greedy.FoundFacts` prove the links ranked and the walk complete.
- Greedy.Search does not promise a shortest route, because greedy best-first search does not find one in general.
- Two behaviours of the code are easy to misread, and the model follows the code:
  - A* pushes the start entry with key 0 (`a_star.py:63`), not with `h(start)`. `AStar.EntriesOk` allows this one entry to have a key below `g + h`.
  - Greedy search overwrites `came_from[neighbor]` for every unvisited passable neighbour (`greedy_bfs.py:86-87`). It does not keep the first discovery. The model proves that links of visited cells are never rewritten, which is what keeps the chain well-founded.
