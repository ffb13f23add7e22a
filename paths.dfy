/**
 * Walking the predecessor map `came_from` from the end cell back to the start:
 * `reconstruct_path` (both programs) and `calculate_path_distance` (greedy
 * search only).
 */
module Paths {
  import opened Grid

  datatype Option<T> = None | Some(value: T)

  /**
   * `rank` strictly decreases along every predecessor link it covers, so the
   * walk from any ranked cell ends: it reaches `start` or a cell without a link.
   * The searches supply the rank: A* its `g_score`, greedy search the order
   * in which cells were visited.
   */
  ghost predicate Ranked(cameFrom: map<Pos, Pos>, start: Pos, rank: map<Pos, nat>) {
    forall n :: n in cameFrom && n in rank && n != start ==> cameFrom[n] in rank && rank[cameFrom[n]] < rank[n]
  }

  /**
   * The chain of predecessors ending in `cur`, listed from `start` to `cur`,
   * or None when the walk back from `cur` meets a cell with no link before it
   * meets `start`.
   */
  ghost function Trace(cameFrom: map<Pos, Pos>, start: Pos, cur: Pos, rank: map<Pos, nat>): (t: Option<seq<Pos>>)
    requires Ranked(cameFrom, start, rank) && cur in rank
    ensures t.Some? ==> |t.value| >= 1 && t.value[0] == start && t.value[|t.value| - 1] == cur
    ensures t.Some? ==> forall i :: 0 <= i < |t.value| ==> t.value[i] in rank
    ensures t.Some? ==> forall i :: 1 <= i < |t.value| ==>
              t.value[i] != start && t.value[i] in cameFrom && cameFrom[t.value[i]] == t.value[i - 1]
    ensures cur == start ==> t == Some([start])
    decreases rank[cur]
  {
    if cur == start then Some([start])
    else if cur !in cameFrom then None
    else
      match Trace(cameFrom, start, cameFrom[cur], rank)
      case Some(p) => Some(p + [cur])
      case None => None
  }

  /** When every ranked cell but `start` has a link, the walk back always reaches `start`. */
  lemma {:induction false} TraceComplete(cameFrom: map<Pos, Pos>, start: Pos, cur: Pos, rank: map<Pos, nat>)
    requires Ranked(cameFrom, start, rank) && cur in rank
    requires forall n :: n in rank && n != start ==> n in cameFrom
    ensures Trace(cameFrom, start, cur, rank).Some?
    decreases rank[cur]
  {
    if cur != start {
      TraceComplete(cameFrom, start, cameFrom[cur], rank);
    }
  }

  /** The chain is no longer than the drop in rank from `cur` to `start`. */
  lemma {:induction false} TraceLength(cameFrom: map<Pos, Pos>, start: Pos, cur: Pos, rank: map<Pos, nat>)
    requires Ranked(cameFrom, start, rank) && cur in rank
    requires Trace(cameFrom, start, cur, rank).Some?
    ensures start in rank
    ensures |Trace(cameFrom, start, cur, rank).value| - 1 + rank[start] <= rank[cur]
    decreases rank[cur]
  {
    if cur != start {
      TraceLength(cameFrom, start, cameFrom[cur], rank);
    }
  }

  /** A chain whose links are orthogonal steps onto passable cells is a route of the board. */
  lemma TraceIsPath(grid: Board, cameFrom: map<Pos, Pos>, start: Pos, cur: Pos, rank: map<Pos, nat>)
    requires WellFormed(grid) && Ranked(cameFrom, start, rank) && cur in rank
    requires forall n :: n in cameFrom ==> Adjacent(cameFrom[n], n) && Passable(grid, n)
    requires Trace(cameFrom, start, cur, rank).Some?
    ensures IsPath(grid, start, cur, Trace(cameFrom, start, cur, rank).value)
  {
    var p := Trace(cameFrom, start, cur, rank).value;
    forall i | 0 <= i < |p| - 1
      ensures IsStep(grid, p[i], p[i + 1])
    {
      assert cameFrom[p[i + 1]] == p[i];
    }
  }

  /**
   * `calculate_path_distance`: the number of links from `end` back to
   * `start`, or 0 when the walk meets a cell without a link.
   */
  method CalculatePathDistance(cameFrom: map<Pos, Pos>, start: Pos, end: Pos, ghost rank: map<Pos, nat>)
    returns (distance: nat)
    requires Ranked(cameFrom, start, rank) && end in rank
    ensures Trace(cameFrom, start, end, rank).Some? ==> distance == |Trace(cameFrom, start, end, rank).value| - 1
    ensures Trace(cameFrom, start, end, rank).None? ==> distance == 0
  {
    distance := 0;
    var current := end;
    while current != start
      invariant current in rank
      invariant Trace(cameFrom, start, end, rank).Some? == Trace(cameFrom, start, current, rank).Some?
      invariant Trace(cameFrom, start, end, rank).Some? ==>
        |Trace(cameFrom, start, end, rank).value| == |Trace(cameFrom, start, current, rank).value| + distance
      decreases rank[current]
    {
      if current !in cameFrom {
        return 0;
      }
      current := cameFrom[current];
      distance := distance + 1;
    }
  }

  /**
   * `reconstruct_path`: writes the path code to every cell of the chain
   * except `start`; `end` itself is marked.
   */
  method ReconstructPath(grid: Board, cameFrom: map<Pos, Pos>, start: Pos, end: Pos, ghost rank: map<Pos, nat>)
    returns (grid': Board)
    requires WellFormed(grid) && Ranked(cameFrom, start, rank) && end in rank
    requires Trace(cameFrom, start, end, rank).Some?
    requires forall n :: n in cameFrom ==> InBounds(n)
    ensures WellFormed(grid')
    ensures forall q :: InBounds(q) ==>
              At(grid', q) == if q in Trace(cameFrom, start, end, rank).value[1..] then PATH else At(grid, q)
  {
    ghost var p := Trace(cameFrom, start, end, rank).value;
    ghost var i := |p| - 1;
    grid' := grid;
    var current := end;
    while current != start
      invariant 0 <= i < |p| && current == p[i]
      invariant WellFormed(grid')
      invariant forall q :: InBounds(q) ==> At(grid', q) == if q in p[i + 1..] then PATH else At(grid, q)
      decreases i
    {
      assert i != 0;
      assert p[i..] == [p[i]] + p[i + 1..];
      grid' := Put(grid', current, PATH);
      current := cameFrom[current];
      i := i - 1;
    }
    assert i == 0;
  }
}
