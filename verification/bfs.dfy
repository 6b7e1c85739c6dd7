/**
 * The breadth-first search of `_find_augmenting_path`, run on a residual
 * matrix that has already been computed. The `predecessor` array is filled in place, with `-1` for
 * "not yet discovered".
 */
module BreadthFirst {
  import opened Outcomes
  import opened Matrices
  import opened ResidualGraph
  import opened SearchTree

  /**
   * The queue after scanning `u` up to (not including) `k`: `queue` followed
   * by each vertex below `k` still without a predecessor (`-1`) and with
   * positive residual capacity from `u`, in the order the scan meets them.
   */
  ghost function Enqueued(queue: seq<int>, res: Matrix, pred: seq<int>, u: nat, k: nat): seq<int>
    requires IsSquare(res, |res|) && |pred| == |res| && u < |res| && k <= |res|
  {
    if k == 0 then queue
    else Enqueued(queue, res, pred, u, k - 1) + if pred[k - 1] == -1 && res[u][k - 1] > 0 then [k - 1] else []
  }

  /** A scan only appends to the queue. */
  lemma {:induction false} EnqueuedExtends(queue: seq<int>, res: Matrix, pred: seq<int>, u: nat, k: nat)
    requires IsSquare(res, |res|) && |pred| == |res| && u < |res| && k <= |res|
    ensures var q := Enqueued(queue, res, pred, u, k);
      |q| >= |queue| && q[..|queue|] == queue
  {
    if k > 0 {
      EnqueuedExtends(queue, res, pred, u, k - 1);
      var below := Enqueued(queue, res, pred, u, k - 1);
      assert Enqueued(queue, res, pred, u, k)[..|queue|] == below[..|queue|];
    }
  }

  /** What a scan appends is exactly the vertices that qualify. */
  lemma {:induction false} EnqueuedMembers(queue: seq<int>, res: Matrix, pred: seq<int>, u: nat, k: nat)
    requires IsSquare(res, |res|) && |pred| == |res| && u < |res| && k <= |res|
    ensures var q := Enqueued(queue, res, pred, u, k);
      |q| >= |queue| && forall v :: v in q[|queue|..] <==> 0 <= v < k && pred[v] == -1 && res[u][v] > 0
  {
    if k > 0 {
      EnqueuedMembers(queue, res, pred, u, k - 1);
      var below := Enqueued(queue, res, pred, u, k - 1);
      var tail := if pred[k - 1] == -1 && res[u][k - 1] > 0 then [k - 1] else [];
      assert Enqueued(queue, res, pred, u, k)[|queue|..] == below[|queue|..] + tail;
    }
  }

  /**
   * A scan only appends to the queue, and what it appends is each qualifying
   * vertex exactly once, in increasing index order.
   */
  lemma {:induction false} EnqueuedAscending(queue: seq<int>, res: Matrix, pred: seq<int>, u: nat, k: nat)
    requires IsSquare(res, |res|) && |pred| == |res| && u < |res| && k <= |res|
    ensures var q := Enqueued(queue, res, pred, u, k);
      && |q| >= |queue| && q[..|queue|] == queue
      && (forall v :: v in q[|queue|..] <==> 0 <= v < k && pred[v] == -1 && res[u][v] > 0)
      && (forall i, j | |queue| <= i < j < |q| :: q[i] < q[j])
  {
    EnqueuedExtends(queue, res, pred, u, k);
    EnqueuedMembers(queue, res, pred, u, k);
    if k > 0 {
      EnqueuedAscending(queue, res, pred, u, k - 1);
      var below := Enqueued(queue, res, pred, u, k - 1);
      assert forall i | |queue| <= i < |below| :: below[i] in below[|queue|..];
    }
  }

  /**
   * The predecessor array after scanning `u` up to (not including) `k`:
   * every vertex below `k` still at `-1` and with positive residual capacity
   * from `u` now has `u` as its predecessor; every other entry is unchanged.
   */
  ghost function Claimed(res: Matrix, pred: seq<int>, u: nat, k: nat): (p: seq<int>)
    requires IsSquare(res, |res|) && |pred| == |res| && u < |res| && k <= |res|
    ensures |p| == |pred|
  {
    if k == 0 then pred
    else if pred[k - 1] == -1 && res[u][k - 1] > 0 then Claimed(res, pred, u, k - 1)[k - 1 := u]
    else Claimed(res, pred, u, k - 1)
  }

  /** Entry `v` after the scan: `u` when `v` qualified, and otherwise what it was. */
  lemma {:induction false} ClaimedAt(res: Matrix, pred: seq<int>, u: nat, k: nat, v: nat)
    requires IsSquare(res, |res|) && |pred| == |res| && u < |res| && k <= |res| && v < |pred|
    ensures Claimed(res, pred, u, k)[v] == if v < k && pred[v] == -1 && res[u][v] > 0 then u else pred[v]
    decreases k
  {
    if k > 0 {
      ClaimedAt(res, pred, u, k - 1, v);
    }
  }

  /** Scanning one more vertex claims it exactly when it qualifies. */
  lemma ClaimedStep(res: Matrix, pred: seq<int>, u: nat, k: nat)
    requires IsSquare(res, |res|) && |pred| == |res| && u < |res| && k < |res|
    ensures Claimed(res, pred, u, k)[k] == pred[k]
    ensures Claimed(res, pred, u, k + 1) ==
      if pred[k] == -1 && res[u][k] > 0 then Claimed(res, pred, u, k)[k := u] else Claimed(res, pred, u, k)
  {
    ClaimedAt(res, pred, u, k, k);
  }

  /** A scan only fills in entries that were `-1`: a predecessor, once set, never changes. */
  lemma ClaimedKeepsSet(res: Matrix, pred: seq<int>, u: nat, k: nat, v: nat)
    requires IsSquare(res, |res|) && |pred| == |res| && u < |res| && k <= |res| && v < |pred|
    ensures pred[v] != -1 ==> Claimed(res, pred, u, k)[v] == pred[v]
    ensures Claimed(res, pred, u, k)[v] != pred[v] ==> pred[v] == -1 && v < k && res[u][v] > 0
  {
    ClaimedAt(res, pred, u, k, v);
  }

  /**
   * After a full scan of `u` turned `pred` into `p` and `queue` into `q`:
   * `u` counts as scanned, every newly discovered vertex is in the queue, no
   * vertex lost its predecessor, and if none gained one the queue is unchanged.
   */
  lemma ScanFinished(res: Matrix, pred: seq<int>, p: seq<int>, s: int, d: set<int>, queue: seq<int>, q: seq<int>, u: nat)
    requires IsSquare(res, |res|) && |pred| == |res| && u < |res|
    requires p == Claimed(res, pred, u, |res|) && q == Enqueued(queue, res, pred, u, |res|)
    requires Frontier(pred, s, d + {u}, queue) && Discovered(pred, s, u) && Scanned(res, p, s, d)
    ensures Frontier(p, s, d + {u}, q) && Scanned(res, p, s, d + {u})
    ensures Unvisited(p) <= Unvisited(pred)
    ensures Unvisited(p) == Unvisited(pred) ==> q == queue
  {
    EnqueuedAscending(queue, res, pred, u, |res|);
    forall v | 0 <= v < |pred|
      ensures p[v] == if pred[v] == -1 && res[u][v] > 0 then u else pred[v]
    {
      ClaimedAt(res, pred, u, |res|, v);
    }
    var added := q[|queue|..];
    forall v | 0 <= v < |p| && Discovered(p, s, v)
      ensures v in d + {u} || v in q
    {
      if !Discovered(pred, s, v) {
        assert v in added;
      }
    }
    if added != [] {
      var v := added[0];
      assert v in added;
      assert p[v] == u;
      assert v in Unvisited(pred);
      assert v !in Unvisited(p);
    }
    assert Discovered(p, s, u);
    ScannedAfterNeighbours(res, p, s, d, u);
  }

  /** `queue.popleft()` keeps the invariant, and the vertex taken out is discovered. */
  lemma Dequeue(res: Matrix, pred: seq<int>, rank: seq<nat>, count: nat, s: int, queue: seq<int>, d: set<int>)
    requires IsSquare(res, |res|) && SearchInvariant(res, pred, rank, count, s, queue, d)
    requires Frontier(pred, s, d, queue) && queue != []
    ensures SearchInvariant(res, pred, rank, count, s, queue[1..], d)
    ensures 0 <= queue[0] < |res| && Discovered(pred, s, queue[0])
    ensures Frontier(pred, s, d + {queue[0]}, queue[1..])
  {
    forall v | 0 <= v < |pred| && Discovered(pred, s, v)
      ensures v in d + {queue[0]} || v in queue[1..]
    {
      if v in queue && v != queue[0] {
        var k :| 0 <= k < |queue| && queue[k] == v;
        assert queue[1..][k - 1] == v;
      }
    }
  }

  /**
   * The discovery ranks and the next free rank after scanning `u` up to (not
   * including) `k`: each vertex other than `s` that the scan claims gets the
   * next rank, in scan order.
   */
  ghost function Ranks(rank: seq<nat>, count: nat, res: Matrix, pred: seq<int>, s: int, u: nat, k: nat)
    : (r: (seq<nat>, nat))
    requires IsSquare(res, |res|) && |pred| == |res| && |rank| == |pred| && u < |res| && k <= |res|
    ensures |r.0| == |rank|
  {
    if k == 0 then (rank, count)
    else
      var r := Ranks(rank, count, res, pred, s, u, k - 1);
      if pred[k - 1] == -1 && res[u][k - 1] > 0 && k - 1 != s then (r.0[k - 1 := r.1], r.1 + 1) else r
  }

  /**
   * One step of the scan of `u`: `v` is claimed when it is still at `-1` and
   * the residual edge from `u` is positive, and otherwise nothing changes.
   */
  lemma ScanStep(res: Matrix, p: seq<int>, r: seq<nat>, c: nat, q: seq<int>,
                 p': seq<int>, r': seq<nat>, c': nat, q': seq<int>, s: int, d: set<int>, u: nat, v: nat, claim: bool)
    requires IsSquare(res, |res|) && SearchInvariant(res, p, r, c, s, q, d)
    requires u < |res| && Discovered(p, s, u) && v < |res|
    requires claim == (p[v] == -1 && res[u][v] > 0)
    requires p' == if claim then p[v := u] else p
    requires q' == if claim then q + [v] else q
    requires r' == if claim && v != s then r[v := c] else r
    requires c' == if claim && v != s then c + 1 else c
    ensures SearchInvariant(res, p', r', c', s, q', d) && Discovered(p', s, u)
  {
    if claim {
      DiscoverKeepsInvariant(res, p, r, c, s, q, d, u, v);
    }
  }

  /**
   * Scanning `u` up to `k` keeps the search invariant, with the claimed
   * vertices appended to the queue and ranked in scan order.
   */
  lemma {:induction false} ScanKeepsInvariant(res: Matrix, pred: seq<int>, rank: seq<nat>, count: nat, s: int,
                                              queue: seq<int>, d: set<int>, u: nat, k: nat)
    requires IsSquare(res, |res|) && SearchInvariant(res, pred, rank, count, s, queue, d)
    requires u < |res| && Discovered(pred, s, u) && k <= |res|
    ensures SearchInvariant(res, Claimed(res, pred, u, k), Ranks(rank, count, res, pred, s, u, k).0,
                            Ranks(rank, count, res, pred, s, u, k).1, s, Enqueued(queue, res, pred, u, k), d)
    ensures Discovered(Claimed(res, pred, u, k), s, u)
    decreases k
  {
    if k > 0 {
      ScanKeepsInvariant(res, pred, rank, count, s, queue, d, u, k - 1);
      var r := Ranks(rank, count, res, pred, s, u, k - 1);
      ClaimedStep(res, pred, u, k - 1);
      ScanStep(res, Claimed(res, pred, u, k - 1), r.0, r.1, Enqueued(queue, res, pred, u, k - 1),
               Claimed(res, pred, u, k), Ranks(rank, count, res, pred, s, u, k).0,
               Ranks(rank, count, res, pred, s, u, k).1, Enqueued(queue, res, pred, u, k), s, d, u, k - 1,
               pred[k - 1] == -1 && res[u][k - 1] > 0);
    }
  }

  /**
   * A scan of `u` that stops at the sink `t` leaves a search tree of positive
   * residual edges with the ranks handed out so far.
   */
  lemma ScanReachedSink(res: Matrix, pred: seq<int>, rank: seq<nat>, count: nat, s: int,
                        queue: seq<int>, d: set<int>, u: nat, t: nat)
    requires IsSquare(res, |res|) && SearchInvariant(res, pred, rank, count, s, queue, d)
    requires u < |res| && Discovered(pred, s, u) && t < |res|
    ensures var p := Claimed(res, pred, u, t + 1);
      IsForest(p, Ranks(rank, count, res, pred, s, u, t + 1).0, s) && TreeEdgesPositive(res, p, s)
  {
    ScanKeepsInvariant(res, pred, rank, count, s, queue, d, u, t + 1);
  }

  /**
   * A scan of `u` that runs through every vertex keeps the search invariant
   * with `u` now scanned, and either discovers a new vertex or leaves the
   * queue as it was.
   */
  lemma ScanCompleted(res: Matrix, pred: seq<int>, rank: seq<nat>, count: nat, s: int,
                      queue: seq<int>, d: set<int>, u: nat)
    requires IsSquare(res, |res|) && SearchInvariant(res, pred, rank, count, s, queue, d)
    requires u < |res| && Discovered(pred, s, u) && Frontier(pred, s, d + {u}, queue)
    ensures var p, q, r := Claimed(res, pred, u, |res|), Enqueued(queue, res, pred, u, |res|),
                           Ranks(rank, count, res, pred, s, u, |res|);
      && SearchInvariant(res, p, r.0, r.1, s, q, d + {u})
      && Frontier(p, s, d + {u}, q)
      && Unvisited(p) <= Unvisited(pred)
      && (Unvisited(p) == Unvisited(pred) ==> q == queue)
  {
    ScanKeepsInvariant(res, pred, rank, count, s, queue, d, u, |res|);
    ScanFinished(res, pred, Claimed(res, pred, u, |res|), s, d, queue, Enqueued(queue, res, pred, u, |res|), u);
  }

  /**
   * Taking the next vertex `u` out of the queue and scanning it keeps the
   * search invariant whichever way the scan ends: stopped at the sink `t`, or
   * run through every vertex, with `u` then scanned and either a new vertex
   * discovered or the queue one shorter.
   */
  lemma VisitNext(res: Matrix, pred: seq<int>, rank: seq<nat>, count: nat, s: int,
                  queue: seq<int>, d: set<int>, t: nat)
    requires IsSquare(res, |res|) && SearchInvariant(res, pred, rank, count, s, queue, d)
    requires Frontier(pred, s, d, queue) && queue != [] && t < |res|
    ensures 0 <= queue[0] < |res|
    ensures var u := queue[0];
      var p := Claimed(res, pred, u, t + 1);
      IsForest(p, Ranks(rank, count, res, pred, s, u, t + 1).0, s) && TreeEdgesPositive(res, p, s)
    ensures var u := queue[0];
      var p, q, r := Claimed(res, pred, u, |res|), Enqueued(queue[1..], res, pred, u, |res|),
                     Ranks(rank, count, res, pred, s, u, |res|);
      && SearchInvariant(res, p, r.0, r.1, s, q, d + {u})
      && Frontier(p, s, d + {u}, q)
      && Unvisited(p) <= Unvisited(pred)
      && (Unvisited(p) == Unvisited(pred) ==> q == queue[1..])
  {
    Dequeue(res, pred, rank, count, s, queue, d);
    ScanReachedSink(res, pred, rank, count, s, queue[1..], d, queue[0], t);
    ScanCompleted(res, pred, rank, count, s, queue[1..], d, queue[0]);
  }

  /** Before the first step: only the source is queued and no vertex has a predecessor. */
  lemma StartKeepsInvariant(res: Matrix, s: nat)
    requires IsSquare(res, |res|) && s < |res|
    ensures var pred, rank := seq(|res|, _ => -1), seq(|res|, _ => 0);
      SearchInvariant(res, pred, rank, 1, s, [s], {}) && Frontier(pred, s, {}, [s])
  {
  }

  /**
   * The inner loop of the search, `for vert in range(vertices)` for one
   * dequeued vertex `current`: every `vert` still at `-1` with positive
   * residual capacity from `current` gets `current` as its predecessor and
   * joins the queue, in increasing index order (`Claimed`, `Enqueued`), and
   * the loop stops as soon as the sink is discovered (`reached`, the sink not
   * enqueued).
   */
  method ScanNeighbours(residual: Matrix, predecessor: array<int>, sink: nat, current: nat, queue: seq<int>)
    returns (queue': seq<int>, reached: bool)
    requires IsSquare(residual, |residual|) && predecessor.Length == |residual|
    requires sink < |residual| && current < |residual| && predecessor[sink] == -1
    modifies predecessor
    ensures reached ==> predecessor[..] == Claimed(residual, old(predecessor[..]), current, sink + 1)
    ensures reached <==> predecessor[sink] != -1
    ensures !reached ==>
      && predecessor[..] == Claimed(residual, old(predecessor[..]), current, |residual|)
      && queue' == Enqueued(queue, residual, old(predecessor[..]), current, |residual|)
  {
    ghost var pred0 := predecessor[..];
    queue' := queue;
    for vert := 0 to |residual|
      invariant predecessor[..] == Claimed(residual, pred0, current, vert)
      invariant queue' == Enqueued(queue, residual, pred0, current, vert)
      invariant predecessor[sink] == -1
    {
      ClaimedStep(residual, pred0, current, vert);
      if predecessor[vert] == -1 && residual[current][vert] > 0 {
        predecessor[vert] := current;
        if vert == sink {
          return queue', true;
        }
        queue' := queue' + [vert];
      }
    }
    reached := false;
  }

  /**
   * The breadth-first search of `_find_augmenting_path` on the residual
   * matrix: starts with only the source queued and every predecessor `-1`,
   * dequeues from the front, and stops as soon as the sink is discovered
   * (`reached`). Then the predecessors form a tree of positive residual edges
   * holding the sink; otherwise the queue ran dry and the sink is unreachable.
   */
  method Explore(residual: Matrix, source: nat, sink: nat)
    returns (predecessor: array<int>, reached: bool, ghost rank: seq<nat>)
    requires IsSquare(residual, |residual|) && source < |residual| && sink < |residual| && source != sink
    ensures fresh(predecessor) && predecessor.Length == |residual|
    ensures reached ==>
      && IsForest(predecessor[..], rank, source)
      && TreeEdgesPositive(residual, predecessor[..], source)
      && predecessor[sink] != -1
    ensures !reached ==> !Reachable(residual, source, sink)
  {
    var queue := [source as int];
    predecessor := new int[|residual|](_ => -1);
    rank := seq(|residual|, _ => 0);
    ghost var count: nat := 1;
    ghost var done: set<int> := {};
    StartKeepsInvariant(residual, source);
    assert predecessor[..] == seq(|residual|, _ => -1);
    while queue != []
      invariant predecessor.Length == |residual|
      invariant SearchInvariant(residual, predecessor[..], rank, count, source, queue, done)
      invariant Frontier(predecessor[..], source, done, queue) && predecessor[sink] == -1
      decreases Unvisited(predecessor[..]), |queue|
    {
      ghost var before := predecessor[..];
      VisitNext(residual, before, rank, count, source, queue, done, sink);
      var current := queue[0];
      queue, reached := ScanNeighbours(residual, predecessor, sink, current, queue[1..]);
      if reached {
        rank := Ranks(rank, count, residual, before, source, current, sink + 1).0;
        return;
      }
      rank, count := Ranks(rank, count, residual, before, source, current, |residual|).0,
                     Ranks(rank, count, residual, before, source, current, |residual|).1;
      done := done + {current};
    }
    ExhaustedSearchBlocksSink(residual, predecessor[..], source, sink, done);
    reached := false;
  }
}
