/**
 * The residual graph `capacity - flow`: walks along edges of positive residual
 * capacity, augmenting paths, reachability, and the bottleneck of a path.
 */
module ResidualGraph {
  import opened Outcomes
  import opened Matrices

  /** `capacity - flow`, the matrix the search runs on. */
  function Residual(cap: Matrix, flow: Matrix): (res: Matrix)
    requires IsSquare(cap, |cap|) && IsSquare(flow, |cap|)
    ensures IsSquare(res, |cap|)
    ensures forall i, j {:trigger res[i][j]} | 0 <= i < |cap| && 0 <= j < |cap| :: res[i][j] == cap[i][j] - flow[i][j]
  {
    seq(|cap|, i requires 0 <= i < |cap| =>
      seq(|cap|, j requires 0 <= j < |cap| => cap[i][j] - flow[i][j]))
  }

  ghost predicate InRange(p: seq<int>, n: nat) {
    forall k | 0 <= k < |p| :: 0 <= p[k] < n
  }

  /** Every step of `p` follows an edge of positive residual capacity. */
  ghost predicate PositiveSteps(res: Matrix, p: seq<int>)
    requires IsSquare(res, |res|) && InRange(p, |res|)
  {
    forall k | 0 <= k < |p| - 1 :: res[p[k]][p[k + 1]] > 0
  }

  /** `p` is a walk from `s` to `t` in the residual graph (vertices may repeat). */
  ghost predicate IsResidualWalk(res: Matrix, s: int, t: int, p: seq<int>)
    requires IsSquare(res, |res|)
  {
    && |p| >= 1 && p[0] == s && p[|p| - 1] == t
    && InRange(p, |res|)
    && PositiveSteps(res, p)
  }

  /** `t` can be reached from `s` through edges of positive residual capacity. */
  ghost predicate Reachable(res: Matrix, s: int, t: int)
    requires IsSquare(res, |res|)
  {
    exists p :: IsResidualWalk(res, s, t, p)
  }

  ghost predicate Distinct(p: seq<int>) {
    forall i, j | 0 <= i < j < |p| :: p[i] != p[j]
  }

  /** A simple residual path from the source to the sink. */
  ghost predicate IsAugmentingPath(res: Matrix, s: int, t: int, p: seq<int>)
    requires IsSquare(res, |res|)
  {
    |p| >= 2 && IsResidualWalk(res, s, t, p) && Distinct(p)
  }

  /** What the search hands back: the amount to push and the path to push it along. */
  datatype Augmentation = Augmentation(amount: int, path: seq<int>)

  /** `x` is the least residual capacity over the steps of `p`. */
  ghost predicate IsBottleneck(res: Matrix, p: seq<int>, x: int)
    requires IsSquare(res, |res|) && InRange(p, |res|)
  {
    && (forall k | 0 <= k < |p| - 1 :: x <= res[p[k]][p[k + 1]])
    && (exists k | 0 <= k < |p| - 1 :: x == res[p[k]][p[k + 1]])
  }

  /** `min(residual[src, dst] for src, dst in zip(path, path[1:]))`. */
  function Bottleneck(res: Matrix, p: seq<int>): (x: int)
    requires IsSquare(res, |res|) && InRange(p, |res|) && |p| >= 2
    ensures IsBottleneck(res, p, x)
    ensures PositiveSteps(res, p) ==> x > 0
    decreases |p|
  {
    if |p| == 2 then res[p[0]][p[1]]
    else
      var tail := p[1..];
      var rest := Bottleneck(res, tail);
      assert forall k | 0 <= k < |tail| :: tail[k] == p[k + 1];
      if res[p[0]][p[1]] <= rest then res[p[0]][p[1]] else rest
  }

  /**
   * What a path search must answer on the residual graph `res`: an augmenting
   * path with its bottleneck (positive) when it finds one, and nothing exactly
   * when the sink cannot be reached.
   */
  ghost predicate AnswersSearch(res: Matrix, s: int, t: int, r: Option<Augmentation>)
    requires IsSquare(res, |res|)
  {
    && (r.Some? ==>
      && IsAugmentingPath(res, s, t, r.value.path)
      && r.value.amount == Bottleneck(res, r.value.path) && r.value.amount > 0)
    && (r.None? <==> !Reachable(res, s, t))
  }

  /** An answer of the search names an augmenting path on every step of which its amount fits. */
  lemma AnswerFits(res: Matrix, s: int, t: int, aug: Augmentation)
    requires IsSquare(res, |res|) && AnswersSearch(res, s, t, Some(aug))
    ensures IsAugmentingPath(res, s, t, aug.path) && aug.amount > 0
    ensures forall k | 0 <= k < |aug.path| - 1 :: aug.amount <= res[aug.path[k]][aug.path[k + 1]]
  {
  }

  /** The least residual along a path is unique, so `IsBottleneck` pins down `Bottleneck`. */
  lemma BottleneckUnique(res: Matrix, p: seq<int>, x: int)
    requires IsSquare(res, |res|) && InRange(p, |res|) && |p| >= 2
    ensures IsBottleneck(res, p, x) <==> x == Bottleneck(res, p)
  {
    if IsBottleneck(res, p, x) {
      var y := Bottleneck(res, p);
      var i :| 0 <= i < |p| - 1 && x == res[p[i]][p[i + 1]];
      var j :| 0 <= j < |p| - 1 && y == res[p[j]][p[j + 1]];
      assert x <= y && y <= x;
    }
  }

  /** A vertex set that no residual edge leaves. */
  ghost predicate Closed(res: Matrix, d: set<int>)
    requires IsSquare(res, |res|)
  {
    forall u, v | u in d && 0 <= u < |res| && 0 <= v < |res| && res[u][v] > 0 :: v in d
  }

  /** Every walk that starts inside a closed set stays inside it. */
  lemma {:induction false} WalkStaysInClosedSet(res: Matrix, d: set<int>, s: int, t: int, p: seq<int>)
    requires IsSquare(res, |res|) && Closed(res, d) && s in d
    requires IsResidualWalk(res, s, t, p)
    ensures t in d
    decreases |p|
  {
    if |p| > 1 {
      var q := p[..|p| - 1];
      assert IsResidualWalk(res, s, q[|q| - 1], q);
      WalkStaysInClosedSet(res, d, s, q[|q| - 1], q);
      assert res[p[|p| - 2]][p[|p| - 1]] > 0;
    }
  }

  /** A closed set holding the source but not the sink cuts every residual walk. */
  lemma ClosedSetBlocksSink(res: Matrix, d: set<int>, s: int, t: int)
    requires IsSquare(res, |res|) && Closed(res, d) && s in d && t !in d
    ensures !Reachable(res, s, t)
  {
    forall p | IsResidualWalk(res, s, t, p)
      ensures false
    {
      WalkStaysInClosedSet(res, d, s, t, p);
    }
  }
}
