/**
 * The priority queue both searches use: a binary heap of `(key, (row, col))`
 * tuples. Only its observable behaviour is modelled: a multiset of entries from
 * which a pop removes the least entry in tuple order, so equal keys are broken
 * by row and then by column.
 */
module OpenSet {
  import opened Grid

  datatype Entry = Entry(key: int, pos: Pos)

  /** Python's tuple ordering on `(key, (row, col))`. */
  predicate Le(a: Entry, b: Entry) {
    a.key < b.key ||
    (a.key == b.key && (a.pos.row < b.pos.row || (a.pos.row == b.pos.row && a.pos.col <= b.pos.col)))
  }

  lemma LeTotalOrder(a: Entry, b: Entry, c: Entry)
    ensures Le(a, a)
    ensures Le(a, b) || Le(b, a)
    ensures Le(a, b) && Le(b, a) ==> a == b
    ensures Le(a, b) && Le(b, c) ==> Le(a, c)
  {
  }

  predicate IsLeast(e: Entry, m: multiset<Entry>) {
    e in m && forall x :: x in m ==> Le(e, x)
  }

  /** Every non-empty open set has a least entry. */
  lemma {:induction false} LeastExists(m: multiset<Entry>)
    requires m != multiset{}
    ensures exists e :: IsLeast(e, m)
    decreases |m|
  {
    var x :| x in m;
    var rest := m - multiset{x};
    assert forall z :: z in m ==> z == x || z in rest;
    if rest == multiset{} {
      assert IsLeast(x, m);
    } else {
      LeastExists(rest);
      var y :| IsLeast(y, rest);
      if Le(x, y) {
        assert IsLeast(x, m);
      } else {
        assert IsLeast(y, m);
      }
    }
  }

  /** The least entry is unique, so every pop is determined by the open set. */
  lemma LeastUnique(e: Entry, e': Entry, m: multiset<Entry>)
    requires IsLeast(e, m) && IsLeast(e', m)
    ensures e == e'
  {
    LeTotalOrder(e, e', e);
  }

  /** `heapq.heappop`: remove and return the least entry. */
  method PopMin(open: multiset<Entry>) returns (e: Entry, rest: multiset<Entry>)
    requires open != multiset{}
    ensures e in open && rest == open - multiset{e}
    ensures forall x :: x in open ==> Le(e, x)
    ensures |rest| == |open| - 1
  {
    LeastExists(open);
    e :| IsLeast(e, open);
    rest := open - multiset{e};
  }
}
