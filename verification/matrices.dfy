/** Small shared vocabulary: optional and fallible results. */
module Outcomes {
  datatype Option<+T> = None | Some(value: T)

  datatype Result<+R, +E> = Success(value: R) | Failure(error: E)

  datatype Outcome<+E> = Pass | Fail(error: E)
}

/**
 * Dense integer matrices, the value-level view of the numpy `vertices x vertices`
 * arrays that hold capacities and flows, together with row and column sums.
 */
module Matrices {

  type Matrix = seq<seq<int>>

  ghost predicate IsSquare(m: Matrix, n: nat) {
    |m| == n && forall i | 0 <= i < n :: |m[i]| == n
  }

  /** The all-zero `n x n` matrix (`np.zeros((n, n), dtype=int)`). */
  function Zero(n: nat): (m: Matrix)
    ensures IsSquare(m, n)
    ensures forall i, j | 0 <= i < n && 0 <= j < n :: m[i][j] == 0
  {
    seq(n, _ => seq(n, _ => 0))
  }

  /** The current contents of a two-dimensional array, as a value. */
  function Cells(a: array2<int>): (m: Matrix)
    reads a
    ensures |m| == a.Length0
    ensures forall i | 0 <= i < a.Length0 :: |m[i]| == a.Length1
  {
    Rows(a, a.Length0)
  }

  /** The first `k` rows of `a`. */
  function Rows(a: array2<int>, k: nat): (m: Matrix)
    reads a
    requires k <= a.Length0
    ensures |m| == k
    ensures forall i | 0 <= i < k :: |m[i]| == a.Length1
  {
    if k == 0 then [] else Rows(a, k - 1) + [Row(a, k - 1, a.Length1)]
  }

  /** The first `k` cells of row `i` of `a`. */
  function Row(a: array2<int>, i: nat, k: nat): (r: seq<int>)
    reads a
    requires i < a.Length0 && k <= a.Length1
    ensures |r| == k
  {
    if k == 0 then [] else Row(a, i, k - 1) + [a[i, k - 1]]
  }

  /** Cell `j` of the first `k` cells of row `i` is `a[i, j]`. */
  lemma {:induction false} RowAt(a: array2<int>, i: nat, k: nat, j: nat)
    requires i < a.Length0 && j < k <= a.Length1
    ensures Row(a, i, k)[j] == a[i, j]
    decreases k
  {
    if j < k - 1 {
      RowAt(a, i, k - 1, j);
    }
  }

  /** Row `i` of the first `k` rows is the whole of row `i`. */
  lemma {:induction false} RowsAt(a: array2<int>, k: nat, i: nat)
    requires i < k <= a.Length0
    ensures Rows(a, k)[i] == Row(a, i, a.Length1)
    decreases k
  {
    if i < k - 1 {
      RowsAt(a, k - 1, i);
    }
  }

  /** A snapshot holds, cell by cell, what the array holds. */
  lemma CellsHold(a: array2<int>)
    requires a.Length0 == a.Length1
    ensures Holds(a, Cells(a))
  {
    forall i, j | 0 <= i < a.Length0 && 0 <= j < a.Length0
      ensures a[i, j] == Cells(a)[i][j]
    {
      RowsAt(a, a.Length0, i);
      RowAt(a, i, a.Length1, j);
    }
  }

  /** `m` with the single cell `(i, j)` replaced by `x`. */
  function SetCell(m: Matrix, i: nat, j: nat, x: int): (r: Matrix)
    requires i < |m| && j < |m[i]|
    ensures |r| == |m| && forall k | 0 <= k < |m| :: |r[k]| == |m[k]|
  {
    m[i := m[i][j := x]]
  }

  /** The array `a` holds exactly the matrix `m`. */
  ghost predicate Holds(a: array2<int>, m: Matrix)
    reads a
  {
    && IsSquare(m, a.Length0)
    && a.Length1 == a.Length0
    && forall i, j {:trigger a[i, j]} | 0 <= i < a.Length0 && 0 <= j < a.Length0 :: a[i, j] == m[i][j]
  }

  /** An array holds exactly one matrix: its snapshot. */
  lemma HoldsCells(a: array2<int>, m: Matrix)
    requires Holds(a, m)
    ensures Cells(a) == m
  {
    CellsHold(a);
    var c := Cells(a);
    forall i, j | 0 <= i < |m| && 0 <= j < |m|
      ensures c[i][j] == m[i][j]
    {
      assert a[i, j] == m[i][j];
    }
    forall i | 0 <= i < |m|
      ensures c[i] == m[i]
    {
      assert |c[i]| == |m[i]|;
    }
  }

  function Sum(s: seq<int>): int
  {
    if s == [] then 0 else Sum(s[..|s| - 1]) + s[|s| - 1]
  }

  /** Sum of row `v`: the net flow out of vertex `v` (`np.sum(flow[v, :])`). */
  function RowSum(m: Matrix, v: nat): int
    requires v < |m|
  {
    Sum(m[v])
  }

  /** Column `v` of a square matrix. */
  function Column(m: Matrix, v: nat): (c: seq<int>)
    requires IsSquare(m, |m|) && v < |m|
    ensures |c| == |m| && forall i | 0 <= i < |m| :: c[i] == m[i][v]
  {
    seq(|m|, i requires 0 <= i < |m| => m[i][v])
  }

  /** Sum of column `v`: the flow into vertex `v` (`np.sum(flow[:, v])`). */
  function ColSum(m: Matrix, v: nat): int
    requires IsSquare(m, |m|) && v < |m|
  {
    Sum(Column(m, v))
  }

  /** Adding `e` to one entry adds `e` to the sum. */
  lemma {:induction false} SumAdd(s: seq<int>, k: nat, e: int)
    requires k < |s|
    ensures Sum(s[k := s[k] + e]) == Sum(s) + e
    decreases |s|
  {
    var t := s[k := s[k] + e];
    assert t[..|t| - 1] == if k == |s| - 1 then s[..|s| - 1] else s[..|s| - 1][k := s[k] + e];
    if k < |s| - 1 {
      SumAdd(s[..|s| - 1], k, e);
    }
  }

  /** Sums are monotone in each entry. */
  lemma {:induction false} SumMonotone(a: seq<int>, b: seq<int>)
    requires |a| == |b|
    requires forall i | 0 <= i < |a| :: a[i] <= b[i]
    ensures Sum(a) <= Sum(b)
    decreases |a|
  {
    if a != [] {
      SumMonotone(a[..|a| - 1], b[..|b| - 1]);
    }
  }

  /** Negating every entry negates the sum. */
  lemma {:induction false} SumNegated(a: seq<int>, b: seq<int>)
    requires |a| == |b|
    requires forall i | 0 <= i < |a| :: a[i] == -b[i]
    ensures Sum(a) == -Sum(b)
    decreases |a|
  {
    if a != [] {
      SumNegated(a[..|a| - 1], b[..|b| - 1]);
    }
  }

  /** A sequence of zeros sums to zero. */
  lemma {:induction false} SumZeros(a: seq<int>)
    requires forall i | 0 <= i < |a| :: a[i] == 0
    ensures Sum(a) == 0
    decreases |a|
  {
    if a != [] {
      SumZeros(a[..|a| - 1]);
    }
  }

  /** Adding `e` to cell `(r, c)` adds `e` to row `r`'s sum and leaves every other row's sum alone. */
  lemma RowSumAfterAdd(m: Matrix, r: nat, c: nat, e: int, v: nat)
    requires IsSquare(m, |m|) && r < |m| && c < |m| && v < |m|
    ensures RowSum(SetCell(m, r, c, m[r][c] + e), v) == RowSum(m, v) + (if v == r then e else 0)
  {
    if v == r {
      SumAdd(m[r], c, e);
    }
  }
}
