/**
 * Flows and augmentation: what a correct intermediate or final flow matrix is,
 * and why pushing the bottleneck along an augmenting path keeps it correct.
 */
module Flows {
  import opened Outcomes
  import opened Matrices
  import opened ResidualGraph

  ghost predicate SkewSymmetric(f: Matrix)
    requires IsSquare(f, |f|)
  {
    forall i, j | 0 <= i < |f| && 0 <= j < |f| :: f[i][j] == -f[j][i]
  }

  ghost predicate WithinCapacity(cap: Matrix, f: Matrix)
    requires IsSquare(cap, |cap|) && IsSquare(f, |cap|)
  {
    forall i, j | 0 <= i < |cap| && 0 <= j < |cap| :: f[i][j] <= cap[i][j]
  }

  /** The source sends out `value`, the sink takes in `value`, every other vertex nets zero. */
  ghost predicate NetOutflows(f: Matrix, s: nat, t: nat, value: int)
    requires IsSquare(f, |f|)
  {
    forall v | 0 <= v < |f| :: RowSum(f, v) == if v == s then value else if v == t then -value else 0
  }

  /** `f` is a flow of the given value from `s` to `t` within capacities `cap`. */
  ghost predicate IsFlow(cap: Matrix, f: Matrix, s: nat, t: nat, value: int) {
    && IsSquare(cap, |cap|) && IsSquare(f, |cap|)
    && s < |cap| && t < |cap| && s != t
    && SkewSymmetric(f)
    && WithinCapacity(cap, f)
    && NetOutflows(f, s, t, value)
  }

  /**
   * `flow[u, v] += d` followed by `flow[v, u] -= d`: the two cells move by
   * `d` in opposite directions (and cancel out when `u == v`); no other cell
   * changes.
   */
  function Push(f: Matrix, u: nat, v: nat, d: int): (g: Matrix)
    requires IsSquare(f, |f|) && u < |f| && v < |f|
    ensures IsSquare(g, |f|)
    ensures u != v ==> g[u][v] == f[u][v] + d && g[v][u] == f[v][u] - d
    ensures g[u][u] == f[u][u]
    ensures forall i, j {:trigger g[i][j]} | 0 <= i < |f| && 0 <= j < |f| && {i, j} != {u, v} :: g[i][j] == f[i][j]
  {
    var f1 := SetCell(f, u, v, f[u][v] + d);
    SetCell(f1, v, u, f1[v][u] - d)
  }

  /** The flow after pushing `d` along every step of `p`, first step first. */
  function Augment(f: Matrix, p: seq<int>, d: int): (g: Matrix)
    requires IsSquare(f, |f|) && InRange(p, |f|)
    ensures IsSquare(g, |f|)
    decreases |p|
  {
    if |p| < 2 then f
    else Push(Augment(f, p[..|p| - 1], d), p[|p| - 2], p[|p| - 1], d)
  }

  /** Every augmentation of `augs` pushes along a path inside the `n` vertices. */
  ghost predicate PathsInRange(augs: seq<Augmentation>, n: nat)
    decreases |augs|
  {
    augs != [] ==> PathsInRange(augs[..|augs| - 1], n) && InRange(augs[|augs| - 1].path, n)
  }

  /** The flow left by pushing each augmentation of `augs` in turn, starting from `f`. */
  function AugmentAll(f: Matrix, augs: seq<Augmentation>): (g: Matrix)
    requires IsSquare(f, |f|) && PathsInRange(augs, |f|)
    ensures IsSquare(g, |f|)
    decreases |augs|
  {
    if augs == [] then f
    else
      var last := augs[|augs| - 1];
      Augment(AugmentAll(f, augs[..|augs| - 1]), last.path, last.amount)
  }

  /** The total amount pushed by `augs`: the `max_flow` accumulator. */
  function Total(augs: seq<Augmentation>): int
  {
    if augs == [] then 0 else Total(augs[..|augs| - 1]) + augs[|augs| - 1].amount
  }

  /**
   * `augs` is what the solver's loop pushes, starting from the zero flow: each
   * augmentation answers the search on the residual graph the earlier ones
   * leave behind.
   */
  ghost predicate IsRun(cap: Matrix, s: nat, t: nat, augs: seq<Augmentation>)
    requires IsSquare(cap, |cap|)
    decreases |augs|
  {
    && PathsInRange(augs, |cap|)
    && (augs != [] ==>
      var before := augs[..|augs| - 1];
      && IsRun(cap, s, t, before)
      && AnswersSearch(Residual(cap, AugmentAll(Zero(|cap|), before)), s, t, Some(augs[|augs| - 1])))
  }

  /**
   * A run that pushes anything begins with an augmenting path of the zero
   * flow, so when the sink is unreachable from the start the solver pushes
   * nothing.
   */
  lemma {:induction false} RunStartsReachable(cap: Matrix, s: nat, t: nat, augs: seq<Augmentation>)
    requires IsSquare(cap, |cap|) && IsRun(cap, s, t, augs) && augs != []
    ensures Reachable(Residual(cap, Zero(|cap|)), s, t)
    decreases |augs|
  {
    var before := augs[..|augs| - 1];
    if before != [] {
      RunStartsReachable(cap, s, t, before);
    }
  }

  /** Extending a run by an answer of the search on the flow it has left is a run. */
  lemma RunExtends(cap: Matrix, s: nat, t: nat, augs: seq<Augmentation>, f: Matrix, found: Option<Augmentation>)
    requires IsSquare(cap, |cap|) && IsRun(cap, s, t, augs) && f == AugmentAll(Zero(|cap|), augs)
    requires AnswersSearch(Residual(cap, f), s, t, found) && found.Some?
    ensures IsRun(cap, s, t, augs + [found.value])
    ensures AugmentAll(Zero(|cap|), augs + [found.value]) == Augment(f, found.value.path, found.value.amount)
    ensures Total(augs + [found.value]) == Total(augs) + found.value.amount
  {
    assert (augs + [found.value])[..|augs|] == augs;
  }

  /** The zero matrix is a flow of value zero whenever capacities are non-negative. */
  lemma ZeroIsFlow(cap: Matrix, s: nat, t: nat)
    requires IsSquare(cap, |cap|) && s < |cap| && t < |cap| && s != t
    requires forall i, j | 0 <= i < |cap| && 0 <= j < |cap| :: cap[i][j] >= 0
    ensures IsFlow(cap, Zero(|cap|), s, t, 0)
  {
    var z := Zero(|cap|);
    forall v | 0 <= v < |z|
      ensures RowSum(z, v) == 0
    {
      SumZeros(z[v]);
    }
  }

  lemma PushSkewSymmetric(f: Matrix, u: nat, v: nat, d: int)
    requires IsSquare(f, |f|) && u < |f| && v < |f| && SkewSymmetric(f)
    ensures SkewSymmetric(Push(f, u, v, d))
  {
  }

  lemma {:induction false} AugmentSkewSymmetric(f: Matrix, p: seq<int>, d: int)
    requires IsSquare(f, |f|) && InRange(p, |f|) && SkewSymmetric(f)
    ensures SkewSymmetric(Augment(f, p, d))
    decreases |p|
  {
    if |p| >= 2 {
      var q := p[..|p| - 1];
      AugmentSkewSymmetric(f, q, d);
      PushSkewSymmetric(Augment(f, q, d), p[|p| - 2], p[|p| - 1], d);
    }
  }

  /** Augmenting along `p` only touches cells whose two ends both lie on `p`. */
  lemma {:induction false} AugmentUntouched(f: Matrix, p: seq<int>, d: int, a: nat, b: nat)
    requires IsSquare(f, |f|) && InRange(p, |f|) && a < |f| && b < |f|
    requires a !in p || b !in p
    ensures Augment(f, p, d)[a][b] == f[a][b]
    decreases |p|
  {
    if |p| >= 2 {
      var q := p[..|p| - 1];
      assert forall x | x in q :: x in p;
      AugmentUntouched(f, q, d, a, b);
    }
  }

  /** Pushing `d` along `p` adds `d` to the first vertex's outflow and takes `d` from the last's. */
  lemma {:induction false} AugmentRowSum(f: Matrix, p: seq<int>, d: int, v: nat)
    requires IsSquare(f, |f|) && InRange(p, |f|) && |p| >= 1 && v < |f|
    ensures RowSum(Augment(f, p, d), v)
      == RowSum(f, v) + (if v == p[0] then d else 0) - (if v == p[|p| - 1] then d else 0)
    decreases |p|
  {
    if |p| >= 2 {
      var q := p[..|p| - 1];
      var a := Augment(f, q, d);
      var u, w := p[|p| - 2], p[|p| - 1];
      AugmentRowSum(f, q, d, v);
      var a1 := SetCell(a, u, w, a[u][w] + d);
      RowSumAfterAdd(a, u, w, d, v);
      RowSumAfterAdd(a1, w, u, -d, v);
      assert Push(a, u, w, d) == SetCell(a1, w, u, a1[w][u] + -d);
    }
  }

  /**
   * If `d` is at most the residual capacity of every step of a simple path,
   * pushing `d` along it stays within capacity.
   */
  lemma {:induction false} AugmentWithinCapacity(cap: Matrix, f: Matrix, p: seq<int>, d: int)
    requires IsSquare(cap, |cap|) && IsSquare(f, |cap|) && InRange(p, |cap|)
    requires WithinCapacity(cap, f) && Distinct(p) && 0 <= d
    requires forall k | 0 <= k < |p| - 1 :: d <= cap[p[k]][p[k + 1]] - f[p[k]][p[k + 1]]
    ensures WithinCapacity(cap, Augment(f, p, d))
    decreases |p|
  {
    if |p| >= 2 {
      var q := p[..|p| - 1];
      var u, w := p[|p| - 2], p[|p| - 1];
      AugmentWithinCapacity(cap, f, q, d);
      assert w !in q by {
        forall k | 0 <= k < |q| ensures q[k] != w { assert p[k] == q[k]; }
      }
      AugmentUntouched(f, q, d, u, w);
      assert d <= cap[p[|p| - 2]][p[|p| - 1]] - f[p[|p| - 2]][p[|p| - 1]];
    }
  }

  /** Pushing an answer of the search on the residual graph of a flow leaves a flow, worth that much more. */
  lemma AnswerKeepsFlow(cap: Matrix, f: Matrix, s: nat, t: nat, value: int, aug: Augmentation)
    requires IsFlow(cap, f, s, t, value)
    requires AnswersSearch(Residual(cap, f), s, t, Some(aug))
    ensures IsFlow(cap, Augment(f, aug.path, aug.amount), s, t, value + aug.amount)
  {
    AnswerFits(Residual(cap, f), s, t, aug);
    AugmentKeepsFlow(cap, f, s, t, value, aug.path, aug.amount);
  }

  /**
   * One iteration of the solver: pushing `d`, at least zero and at most every
   * residual on an augmenting path, turns a flow of value `value` into a flow
   * of value `value + d`.
   */
  lemma AugmentKeepsFlow(cap: Matrix, f: Matrix, s: nat, t: nat, value: int, p: seq<int>, d: int)
    requires IsFlow(cap, f, s, t, value)
    requires IsAugmentingPath(Residual(cap, f), s, t, p)
    requires 0 <= d
    requires forall k | 0 <= k < |p| - 1 :: d <= Residual(cap, f)[p[k]][p[k + 1]]
    ensures IsFlow(cap, Augment(f, p, d), s, t, value + d)
  {
    var g := Augment(f, p, d);
    AugmentSkewSymmetric(f, p, d);
    AugmentWithinCapacity(cap, f, p, d);
    forall v | 0 <= v < |g|
      ensures RowSum(g, v) == if v == s then value + d else if v == t then -(value + d) else 0
    {
      AugmentRowSum(f, p, d, v);
    }
  }

  /** The sink's column sum is the flow's value. */
  lemma SinkInflow(cap: Matrix, f: Matrix, s: nat, t: nat, value: int)
    requires IsFlow(cap, f, s, t, value)
    ensures ColSum(f, t) == value
  {
    SumNegated(Column(f, t), f[t]);
    assert RowSum(f, t) == -value;
  }

  /** The value of a flow is bounded by the capacity out of the source. */
  lemma FlowValueBounded(cap: Matrix, f: Matrix, s: nat, t: nat, value: int)
    requires IsFlow(cap, f, s, t, value)
    ensures value <= RowSum(cap, s)
  {
    SumMonotone(f[s], cap[s]);
    assert RowSum(f, s) == value;
  }
}
