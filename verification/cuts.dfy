/**
 * Cuts and the max-flow min-cut argument: once the sink is unreachable in the
 * residual graph, the vertices the source still reaches form a cut whose
 * capacity equals the value of the flow, and no flow can exceed the capacity
 * of any cut. So the flow `maximum_flow` stops with has the largest value.
 */
module Cuts {
  import opened Matrices
  import opened ResidualGraph
  import opened Flows

  /** The sum of `r[v]` over `v < k` whose membership in `b` is `inside`. */
  function Part(r: seq<int>, b: set<int>, inside: bool, k: nat): int
    requires k <= |r|
  {
    if k == 0 then 0 else Part(r, b, inside, k - 1) + (if (k - 1 in b) == inside then r[k - 1] else 0)
  }

  /** The sum of `m[u][v]` over rows `u < k` in `a` and columns `v` whose membership in `b` is `inside`. */
  function Block(m: Matrix, a: set<int>, b: set<int>, inside: bool, k: nat): int
    requires IsSquare(m, |m|) && k <= |m|
  {
    if k == 0 then 0 else Block(m, a, b, inside, k - 1) + (if k - 1 in a then Part(m[k - 1], b, inside, |m|) else 0)
  }

  /** The sum of `m[u][v]` over rows `u < k` in `a`, for one column `v`. */
  function ColPart(m: Matrix, v: nat, a: set<int>, k: nat): int
    requires IsSquare(m, |m|) && v < |m| && k <= |m|
  {
    if k == 0 then 0 else ColPart(m, v, a, k - 1) + (if k - 1 in a then m[k - 1][v] else 0)
  }

  /** The same sum as `Block` over rows `u < kr`, taken column by column over `v < kc`. */
  function BlockByColumns(m: Matrix, a: set<int>, b: set<int>, inside: bool, kr: nat, kc: nat): int
    requires IsSquare(m, |m|) && kr <= |m| && kc <= |m|
  {
    if kc == 0 then 0
    else BlockByColumns(m, a, b, inside, kr, kc - 1) + (if (kc - 1 in b) == inside then ColPart(m, kc - 1, a, kr) else 0)
  }

  /** The capacity of the cut that separates `a` from the other vertices. */
  function CutCapacity(cap: Matrix, a: set<int>): int
    requires IsSquare(cap, |cap|)
  {
    Block(cap, a, a, false, |cap|)
  }

  /** The net flow out of the vertices of `a` below `k`: the sum of their row sums. */
  function Outflow(m: Matrix, a: set<int>, k: nat): int
    requires IsSquare(m, |m|) && k <= |m|
  {
    if k == 0 then 0 else Outflow(m, a, k - 1) + (if k - 1 in a then RowSum(m, k - 1) else 0)
  }

  lemma {:induction false} BlockByColumnsNoRows(m: Matrix, a: set<int>, b: set<int>, inside: bool, kc: nat)
    requires IsSquare(m, |m|) && kc <= |m|
    ensures BlockByColumns(m, a, b, inside, 0, kc) == 0
    decreases kc
  {
    if kc > 0 {
      BlockByColumnsNoRows(m, a, b, inside, kc - 1);
    }
  }

  /** Adding row `kr - 1` to every column sum adds that row's part. */
  lemma {:induction false} BlockByColumnsStep(m: Matrix, a: set<int>, b: set<int>, inside: bool, kr: nat, kc: nat)
    requires IsSquare(m, |m|) && 0 < kr <= |m| && kc <= |m|
    ensures BlockByColumns(m, a, b, inside, kr, kc)
      == BlockByColumns(m, a, b, inside, kr - 1, kc) + (if kr - 1 in a then Part(m[kr - 1], b, inside, kc) else 0)
    decreases kc
  {
    if kc > 0 {
      BlockByColumnsStep(m, a, b, inside, kr, kc - 1);
    }
  }

  /** Summing row by row or column by column gives the same total. */
  lemma {:induction false} SumOrderSwaps(m: Matrix, a: set<int>, b: set<int>, inside: bool, kr: nat)
    requires IsSquare(m, |m|) && kr <= |m|
    ensures Block(m, a, b, inside, kr) == BlockByColumns(m, a, b, inside, kr, |m|)
    decreases kr
  {
    if kr == 0 {
      BlockByColumnsNoRows(m, a, b, inside, |m|);
    } else {
      SumOrderSwaps(m, a, b, inside, kr - 1);
      BlockByColumnsStep(m, a, b, inside, kr, |m|);
    }
  }

  /** In a skew-symmetric matrix a column part is the negated row part. */
  lemma {:induction false} ColPartSkew(f: Matrix, v: nat, a: set<int>, k: nat)
    requires IsSquare(f, |f|) && SkewSymmetric(f) && v < |f| && k <= |f|
    ensures ColPart(f, v, a, k) == -Part(f[v], a, true, k)
    decreases k
  {
    if k > 0 {
      ColPartSkew(f, v, a, k - 1);
    }
  }

  lemma {:induction false} BlockByColumnsSkew(f: Matrix, a: set<int>, b: set<int>, kc: nat)
    requires IsSquare(f, |f|) && SkewSymmetric(f) && kc <= |f|
    ensures BlockByColumns(f, a, b, true, |f|, kc) == -Block(f, b, a, true, kc)
    decreases kc
  {
    if kc > 0 {
      BlockByColumnsSkew(f, a, b, kc - 1);
      ColPartSkew(f, kc - 1, a, |f|);
    }
  }

  /** What a skew-symmetric flow moves between vertices of `a` cancels out. */
  lemma InnerFlowCancels(f: Matrix, a: set<int>)
    requires IsSquare(f, |f|) && SkewSymmetric(f)
    ensures Block(f, a, a, true, |f|) == 0
  {
    SumOrderSwaps(f, a, a, true, |f|);
    BlockByColumnsSkew(f, a, a, |f|);
  }

  /** A row prefix splits into the part inside `b` and the part outside. */
  lemma {:induction false} PartSplit(r: seq<int>, b: set<int>, k: nat)
    requires k <= |r|
    ensures Part(r, b, true, k) + Part(r, b, false, k) == Sum(r[..k])
    decreases k
  {
    if k > 0 {
      PartSplit(r, b, k - 1);
      assert r[..k][..k - 1] == r[..k - 1];
    }
  }

  /** The net outflow of `a` is what stays inside `a` plus what crosses the cut. */
  lemma {:induction false} OutflowSplit(m: Matrix, a: set<int>, k: nat)
    requires IsSquare(m, |m|) && k <= |m|
    ensures Outflow(m, a, k) == Block(m, a, a, true, k) + Block(m, a, a, false, k)
    decreases k
  {
    if k > 0 {
      OutflowSplit(m, a, k - 1);
      PartSplit(m[k - 1], a, |m|);
      assert m[k - 1][..|m|] == m[k - 1];
    }
  }

  /** Only the source contributes to the net outflow of a set holding the source but not the sink. */
  lemma {:induction false} OutflowOfFlow(cap: Matrix, f: Matrix, s: nat, t: nat, w: int, a: set<int>, k: nat)
    requires IsFlow(cap, f, s, t, w) && s in a && t !in a && k <= |f|
    ensures Outflow(f, a, k) == if s < k then w else 0
    decreases k
  {
    if k > 0 {
      OutflowOfFlow(cap, f, s, t, w, a, k - 1);
    }
  }

  /** Every cut holding the source but not the sink carries exactly the value of the flow. */
  lemma FlowAcrossCut(cap: Matrix, f: Matrix, s: nat, t: nat, w: int, a: set<int>)
    requires IsFlow(cap, f, s, t, w) && s in a && t !in a
    ensures Block(f, a, a, false, |f|) == w
  {
    OutflowOfFlow(cap, f, s, t, w, a, |f|);
    OutflowSplit(f, a, |f|);
    InnerFlowCancels(f, a);
  }

  lemma {:induction false} PartMonotone(r1: seq<int>, r2: seq<int>, b: set<int>, inside: bool, k: nat)
    requires k <= |r1| && k <= |r2|
    requires forall v | 0 <= v < k && (v in b) == inside :: r1[v] <= r2[v]
    ensures Part(r1, b, inside, k) <= Part(r2, b, inside, k)
    decreases k
  {
    if k > 0 {
      PartMonotone(r1, r2, b, inside, k - 1);
    }
  }

  /** Entrywise smaller across the cut means a smaller sum across the cut. */
  lemma {:induction false} CutMonotone(m1: Matrix, m2: Matrix, a: set<int>, k: nat)
    requires IsSquare(m1, |m1|) && IsSquare(m2, |m1|) && k <= |m1|
    requires forall u, v | 0 <= u < |m1| && 0 <= v < |m1| && u in a && v !in a :: m1[u][v] <= m2[u][v]
    ensures Block(m1, a, a, false, k) <= Block(m2, a, a, false, k)
    decreases k
  {
    if k > 0 {
      CutMonotone(m1, m2, a, k - 1);
      if k - 1 in a {
        PartMonotone(m1[k - 1], m2[k - 1], a, false, |m1|);
      }
    }
  }

  /** The value of any flow is at most the capacity of any cut between source and sink. */
  lemma FlowBoundedByCut(cap: Matrix, f: Matrix, s: nat, t: nat, w: int, a: set<int>)
    requires IsFlow(cap, f, s, t, w) && s in a && t !in a
    ensures w <= CutCapacity(cap, a)
  {
    FlowAcrossCut(cap, f, s, t, w, a);
    CutMonotone(f, cap, a, |f|);
  }

  /** A walk to `u` followed by a residual edge out of `u` is a walk to its end. */
  lemma WalkExtends(res: Matrix, s: int, u: int, v: int)
    requires IsSquare(res, |res|) && Reachable(res, s, u) && 0 <= u < |res| && 0 <= v < |res| && res[u][v] > 0
    ensures Reachable(res, s, v)
  {
    var p :| IsResidualWalk(res, s, u, p);
    var q := p + [v];
    assert forall k | 0 <= k < |p| :: q[k] == p[k];
    assert IsResidualWalk(res, s, v, q);
  }

  /**
   * Max-flow min-cut: a flow whose residual graph no longer connects the
   * source to the sink saturates the cut around the vertices the source still
   * reaches, so its value is that cut's capacity and no flow has a larger value.
   */
  lemma MaxFlowMinCut(cap: Matrix, f: Matrix, s: nat, t: nat, w: int)
    requires IsFlow(cap, f, s, t, w) && !Reachable(Residual(cap, f), s, t)
    ensures exists a :: s in a && t !in a && CutCapacity(cap, a) == w
    ensures forall g, x | IsFlow(cap, g, s, t, x) :: x <= w
  {
    var res := Residual(cap, f);
    var a := set v | 0 <= v < |cap| && Reachable(res, s, v);
    assert IsResidualWalk(res, s, s, [s]);
    forall u, v | 0 <= u < |cap| && 0 <= v < |cap| && u in a && v !in a
      ensures cap[u][v] <= f[u][v]
    {
      if res[u][v] > 0 {
        WalkExtends(res, s, u, v);
      }
    }
    CutMonotone(cap, f, a, |cap|);
    FlowBoundedByCut(cap, f, s, t, w, a);
    FlowAcrossCut(cap, f, s, t, w, a);
    assert CutCapacity(cap, a) == w;
    forall g, x | IsFlow(cap, g, s, t, x)
      ensures x <= w
    {
      FlowBoundedByCut(cap, g, s, t, x, a);
    }
  }
}
