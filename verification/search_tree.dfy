/**
 * The breadth-first search tree kept in the `predecessor` array: `-1` marks a
 * vertex not yet discovered, anything else the vertex it was discovered from.
 */
module SearchTree {
  import opened Matrices
  import opened ResidualGraph

  /** The source counts as discovered from the start, whatever its entry says. */
  ghost predicate Discovered(pred: seq<int>, s: int, v: int) {
    v == s || (0 <= v < |pred| && pred[v] != -1)
  }

  /**
   * Every discovered vertex other than the source points to a discovered vertex
   * that was discovered strictly earlier (`rank` is the discovery order); so
   * following predecessors always ends at the source.
   */
  ghost predicate IsForest(pred: seq<int>, rank: seq<nat>, s: int) {
    && |rank| == |pred|
    && 0 <= s < |pred|
    && forall v {:trigger Parent(pred, v)} | 0 <= v < |pred| && v != s && Parent(pred, v) != -1 ::
         0 <= Parent(pred, v) < |pred| && Discovered(pred, s, Parent(pred, v)) && rank[Parent(pred, v)] < rank[v]
  }

  /**
   * The predecessor entry of `v`. The tree quantifier above is stated through
   * it so that following one predecessor does not set off the next.
   */
  ghost function Parent(pred: seq<int>, v: int): int
    requires 0 <= v < |pred|
  {
    pred[v]
  }

  /** Every tree edge has positive residual capacity. */
  ghost predicate TreeEdgesPositive(res: Matrix, pred: seq<int>, s: int)
    requires IsSquare(res, |res|) && |pred| == |res|
  {
    forall v | 0 <= v < |pred| && v != s && pred[v] != -1 ::
      0 <= pred[v] < |res| && res[pred[v]][v] > 0
  }

  /**
   * `p` is the tree path from `s` to `t`: it starts at `s`, ends at `t`, never
   * returns to `s`, and each vertex after the first has the one before it as
   * its predecessor.
   */
  ghost predicate IsTreePath(pred: seq<int>, s: int, t: int, p: seq<int>) {
    && |p| >= 2 && p[0] == s && p[|p| - 1] == t
    && 0 <= s < |pred|
    && (forall k | 1 <= k < |p| :: 0 <= p[k] < |pred| && p[k] != s && pred[p[k]] == p[k - 1])
    && Distinct(p)
  }

  /** A tree path is determined by the predecessor array: there is only one. */
  lemma TreePathUnique(pred: seq<int>, s: int, t: int, p: seq<int>, q: seq<int>)
    requires IsTreePath(pred, s, t, p) && IsTreePath(pred, s, t, q)
    ensures p == q
  {
    if |p| <= |q| {
      TreePathSuffix(pred, s, t, p, q);
    } else {
      TreePathSuffix(pred, s, t, q, p);
    }
  }

  lemma {:induction false} TreePathSuffix(pred: seq<int>, s: int, t: int, p: seq<int>, q: seq<int>)
    requires IsTreePath(pred, s, t, p) && IsTreePath(pred, s, t, q) && |p| <= |q|
    ensures p == q
  {
    var d := |q| - |p|;
    // Walking back from `t`, the two paths agree step by step.
    var m := 0;
    while m < |p| - 1
      invariant 0 <= m <= |p| - 1
      invariant forall i | |p| - 1 - m <= i < |p| :: p[i] == q[i + d]
    {
      var i := |p| - 1 - m;
      assert p[i - 1] == pred[p[i]] == pred[q[i + d]] == q[i - 1 + d];
      m := m + 1;
    }
    assert q[d] == p[0] == s;
    assert d == 0;
    assert p == q;
  }

  /** Along a tree path every step is a tree edge, so a tree path is an augmenting path. */
  lemma TreePathIsAugmenting(res: Matrix, pred: seq<int>, s: int, t: int, p: seq<int>)
    requires IsSquare(res, |res|) && |pred| == |res|
    requires TreeEdgesPositive(res, pred, s) && IsTreePath(pred, s, t, p)
    ensures IsAugmentingPath(res, s, t, p)
  {
    forall k | 0 <= k < |p| - 1
      ensures res[p[k]][p[k + 1]] > 0
    {
      assert pred[p[k + 1]] == p[k];
    }
  }

  /** `list.reverse()` on a list of vertices. */
  function Reverse(s: seq<int>): (r: seq<int>)
    ensures |r| == |s|
    ensures forall i | 0 <= i < |s| :: r[i] == s[|s| - 1 - i]
  {
    if s == [] then [] else Reverse(s[1..]) + [s[0]]
  }

  /**
   * `c` is the list `_gen_path` builds before it reverses it: it starts at `t`,
   * each later entry is the predecessor of the one before, the source does not
   * occur, and discovery ranks strictly decrease along it.
   */
  ghost predicate IsChain(pred: seq<int>, rank: seq<nat>, s: int, t: int, c: seq<int>) {
    && |rank| == |pred|
    && |c| >= 1 && c[0] == t
    && (forall k | 0 <= k < |c| :: 0 <= c[k] < |pred| && c[k] != s)
    && (forall k | 1 <= k < |c| :: c[k] == pred[c[k - 1]])
    && (forall i, j | 0 <= i < j < |c| :: rank[c[j]] < rank[c[i]])
  }

  /** Once the chain reaches a vertex whose predecessor is the source, appending the source and reversing gives the tree path. */
  lemma ChainReversedIsTreePath(pred: seq<int>, rank: seq<nat>, s: int, t: int, c: seq<int>)
    requires IsChain(pred, rank, s, t, c) && 0 <= s < |pred|
    requires pred[c[|c| - 1]] == s
    ensures IsTreePath(pred, s, t, Reverse(c + [s]))
  {
    var full := c + [s];
    var p := Reverse(full);
    assert p[0] == s;
    assert p[|p| - 1] == full[0] == t;
    forall k | 1 <= k < |p|
      ensures 0 <= p[k] < |pred| && p[k] != s && pred[p[k]] == p[k - 1]
    {
      var m := |full| - 1 - k;
      assert p[k] == c[m];
      assert p[k - 1] == full[m + 1];
    }
    forall i, j | 0 <= i < j < |p|
      ensures p[i] != p[j]
    {
      if i > 0 {
        assert p[i] == c[|full| - 1 - i] && p[j] == c[|full| - 1 - j];
        assert rank[p[i]] < rank[p[j]];
      }
    }
  }

  /** The vertices the search has not yet given a predecessor. */
  ghost function Unvisited(pred: seq<int>): set<int> {
    set v | 0 <= v < |pred| && pred[v] == -1
  }

  /** Every vertex of `d` has been dequeued and all of its residual neighbours discovered. */
  ghost predicate Scanned(res: Matrix, pred: seq<int>, s: int, d: set<int>)
    requires IsSquare(res, |res|) && |pred| == |res|
  {
    forall u | u in d ::
      0 <= u < |res| && Discovered(pred, s, u)
      && forall v | 0 <= v < |res| && res[u][v] > 0 :: Discovered(pred, s, v)
  }

  /** Every vertex in the queue has been discovered. */
  ghost predicate QueueDiscovered(pred: seq<int>, s: int, queue: seq<int>) {
    forall k | 0 <= k < |queue| :: 0 <= queue[k] < |pred| && Discovered(pred, s, queue[k])
  }

  /** Every discovered vertex has been scanned (it is in `d`) or waits in the queue. */
  ghost predicate Frontier(pred: seq<int>, s: int, d: set<int>, queue: seq<int>) {
    forall v | 0 <= v < |pred| && Discovered(pred, s, v) :: v in d || v in queue
  }

  /** Discovery ranks handed out so far are below `count`. */
  ghost predicate RanksBelow(pred: seq<int>, rank: seq<nat>, s: int, count: nat)
    requires |rank| == |pred|
  {
    forall v | 0 <= v < |pred| && Discovered(pred, s, v) :: rank[v] < count
  }

  /** When the queue runs dry with every discovered vertex scanned and the sink undiscovered, the sink is unreachable. */
  lemma ExhaustedSearchBlocksSink(res: Matrix, pred: seq<int>, s: int, t: int, d: set<int>)
    requires IsSquare(res, |res|) && |pred| == |res| && 0 <= s < |res|
    requires Scanned(res, pred, s, d) && Frontier(pred, s, d, [])
    requires !Discovered(pred, s, t)
    ensures !Reachable(res, s, t)
  {
    var found := set v | 0 <= v < |res| && Discovered(pred, s, v);
    assert s in found;
    ClosedSetBlocksSink(res, found, s, t);
  }

  /** Once every residual neighbour of `u` is discovered, `u` joins the scanned vertices. */
  lemma ScannedAfterNeighbours(res: Matrix, pred: seq<int>, s: int, d: set<int>, u: int)
    requires IsSquare(res, |res|) && |pred| == |res| && Scanned(res, pred, s, d)
    requires 0 <= u < |res| && Discovered(pred, s, u)
    requires forall v | 0 <= v < |res| && res[u][v] > 0 :: Discovered(pred, s, v)
    ensures Scanned(res, pred, s, d + {u})
  {
  }

  /** What holds of the search state between any two steps of the search. */
  ghost predicate SearchInvariant(res: Matrix, pred: seq<int>, rank: seq<nat>, count: nat, s: int,
                                  queue: seq<int>, d: set<int>)
    requires IsSquare(res, |res|)
  {
    && |pred| == |res|
    && IsForest(pred, rank, s)
    && TreeEdgesPositive(res, pred, s)
    && RanksBelow(pred, rank, s, count)
    && QueueDiscovered(pred, s, queue)
    && Scanned(res, pred, s, d)
  }

  /**
   * Discovering `v` from `u` (`predecessor[v] = current`, then enqueueing `v`)
   * keeps the invariant, and `v` is the only newly discovered vertex.
   */
  lemma DiscoverKeepsInvariant(res: Matrix, pred: seq<int>, rank: seq<nat>, count: nat, s: int,
                               queue: seq<int>, d: set<int>, u: int, v: int)
    requires IsSquare(res, |res|) && SearchInvariant(res, pred, rank, count, s, queue, d)
    requires 0 <= u < |res| && Discovered(pred, s, u)
    requires 0 <= v < |res| && pred[v] == -1 && res[u][v] > 0
    ensures var rank', count' := if v != s then rank[v := count] else rank, if v != s then count + 1 else count;
      SearchInvariant(res, pred[v := u], rank', count', s, queue + [v], d)
    ensures forall w :: Discovered(pred[v := u], s, w) <==> Discovered(pred, s, w) || w == v
  {
    var pred' := pred[v := u];
    var rank', count' := if v != s then rank[v := count] else rank, if v != s then count + 1 else count;
    assert forall w :: Discovered(pred, s, w) ==> Discovered(pred', s, w);
    assert IsForest(pred', rank', s) by {
      forall w | 0 <= w < |pred'| && w != s && Parent(pred', w) != -1
        ensures 0 <= Parent(pred', w) < |pred'| && Discovered(pred', s, Parent(pred', w))
        ensures rank'[Parent(pred', w)] < rank'[w]
      {
        if w != v {
          assert Parent(pred', w) == Parent(pred, w);
        }
      }
    }
  }
}
