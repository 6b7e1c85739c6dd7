/**
 * Construction of a flow network: the topology check of the constructor and the
 * write-once edge insertion with its guards, stated on capacity matrices as values.
 */
module Network {
  import opened Outcomes
  import opened Matrices

  /** The constructor's assertions, in the order they are checked. */
  datatype TopologyError = SourceOutOfBounds | SinkOutOfBounds | SourceIsSink

  /** The ways `add_edge` can fail, in the order they are checked. */
  datatype EdgeError =
    | NonPositiveCapacity  // cap <= 0
    | SinkHasOutgoing      // src is the sink
    | SourceHasIncoming    // dst is the source
    | IndexOutOfBounds     // numpy refuses the index pair (IndexError)
    | AlreadyAssigned      // capacity[src][dst] is already non-zero
    | ReverseAssigned      // capacity[dst][src] is non-zero

  /** The constructor's checks: `None` when the arguments are accepted. */
  function CheckTopology(vertices: int, source: int, sink: int): (r: Option<TopologyError>)
    ensures r.None? <==> 0 <= source < vertices && 0 <= sink < vertices && source != sink
    ensures r == Some(SourceOutOfBounds) <==> !(0 <= source < vertices)
  {
    if !(0 <= source < vertices) then Some(SourceOutOfBounds)
    else if !(0 <= sink < vertices) then Some(SinkOutOfBounds)
    else if source == sink then Some(SourceIsSink)
    else None
  }

  /**
   * The structural facts that edge insertion keeps: capacities are non-negative,
   * the sink has no outgoing edge, the source no incoming edge, and no pair of
   * distinct vertices carries capacity in both directions.
   */
  ghost predicate WellFormed(cap: Matrix, n: nat, source: nat, sink: nat) {
    && IsSquare(cap, n)
    && source < n && sink < n && source != sink
    && (forall i, j | 0 <= i < n && 0 <= j < n :: cap[i][j] >= 0)
    && (forall j | 0 <= j < n :: cap[sink][j] == 0)
    && (forall i | 0 <= i < n :: cap[i][source] == 0)
    && (forall i, j | 0 <= i < n && 0 <= j < n && i != j && cap[i][j] > 0 :: cap[j][i] == 0)
  }

  lemma ZeroWellFormed(n: nat, source: nat, sink: nat)
    requires source < n && sink < n && source != sink
    ensures WellFormed(Zero(n), n, source, sink)
  {
  }

  /** How numpy reads an integer index into an axis of length `n`: negative indices count from the end. */
  function NumpyIndex(i: int, n: nat): (r: Option<nat>)
    ensures r.Some? <==> -(n as int) <= i < n
    ensures r.Some? ==> r.value < n && (r.value == i || r.value == i + n)
  {
    if 0 <= i < n then Some(i)
    else if -(n as int) <= i < 0 then Some(i + n)
    else None
  }

  /**
   * `add_edge` exactly as written: the guards compare the raw `src` and `dst`
   * with the sink and the source, while the matrix accesses go through numpy's
   * index normalisation.
   */
  function AddEdgeAsWritten(cap: Matrix, source: nat, sink: nat, src: int, dst: int, c: int)
    : (r: Result<Matrix, EdgeError>)
    requires IsSquare(cap, |cap|)
    ensures r.Success? <==>
      && c > 0 && src != sink && dst != source
      && NumpyIndex(src, |cap|).Some? && NumpyIndex(dst, |cap|).Some?
      && cap[NumpyIndex(src, |cap|).value][NumpyIndex(dst, |cap|).value] == 0
      && cap[NumpyIndex(dst, |cap|).value][NumpyIndex(src, |cap|).value] == 0
    ensures r.Success? ==> r.value == SetCell(cap, NumpyIndex(src, |cap|).value, NumpyIndex(dst, |cap|).value, c)
  {
    if c <= 0 then Failure(NonPositiveCapacity)
    else if src == sink then Failure(SinkHasOutgoing)
    else if dst == source then Failure(SourceHasIncoming)
    else
      match (NumpyIndex(src, |cap|), NumpyIndex(dst, |cap|))
      case (Some(i), Some(j)) =>
        if cap[i][j] != 0 then Failure(AlreadyAssigned)
        else if cap[j][i] != 0 then Failure(ReverseAssigned)
        else Success(SetCell(cap, i, j, c))
      case _ => Failure(IndexOutOfBounds)
  }

  /**
   * `add_edge` as intended: the same guards in the same order, with every
   * index outside `[0, n)` refused where numpy would index the matrix.
   */
  function AddEdgeChecked(cap: Matrix, source: nat, sink: nat, src: int, dst: int, c: int)
    : (r: Result<Matrix, EdgeError>)
    requires IsSquare(cap, |cap|)
    ensures r.Success? <==>
      && c > 0 && src != sink && dst != source
      && 0 <= src < |cap| && 0 <= dst < |cap|
      && cap[src][dst] == 0 && cap[dst][src] == 0
    ensures r.Success? ==> r.value == SetCell(cap, src, dst, c)
  {
    if c <= 0 then Failure(NonPositiveCapacity)
    else if src == sink then Failure(SinkHasOutgoing)
    else if dst == source then Failure(SourceHasIncoming)
    else if !(0 <= src < |cap| && 0 <= dst < |cap|) then Failure(IndexOutOfBounds)
    else if cap[src][dst] != 0 then Failure(AlreadyAssigned)
    else if cap[dst][src] != 0 then Failure(ReverseAssigned)
    else Success(SetCell(cap, src, dst, c))
  }

  /** An accepted edge keeps the network well formed, and is the only cell that changes. */
  lemma AddEdgeCheckedKeepsWellFormed(cap: Matrix, n: nat, source: nat, sink: nat, src: int, dst: int, c: int)
    requires WellFormed(cap, n, source, sink)
    requires AddEdgeChecked(cap, source, sink, src, dst, c).Success?
    ensures var m := AddEdgeChecked(cap, source, sink, src, dst, c).value;
      && WellFormed(m, n, source, sink)
      && m[src][dst] == c
      && forall i, j | 0 <= i < n && 0 <= j < n && (i, j) != (src, dst) :: m[i][j] == cap[i][j]
  {
  }

  /** The correction changes nothing for non-negative indices. */
  lemma AddEdgeCheckedAgreesOnNaturalIndices(cap: Matrix, source: nat, sink: nat, src: int, dst: int, c: int)
    requires IsSquare(cap, |cap|)
    requires src >= 0 && dst >= 0
    ensures AddEdgeChecked(cap, source, sink, src, dst, c) == AddEdgeAsWritten(cap, source, sink, src, dst, c)
  {
  }

  /**
   * On three vertices with source 0 and sink 2, `add_edge(-1, 1, 5)` passes every
   * guard as written and gives the sink an outgoing edge (row -1 is row 2);
   * the corrected insertion refuses it.
   */
  lemma NegativeIndexGivesSinkAnOutgoingEdge()
    ensures AddEdgeAsWritten(Zero(3), 0, 2, -1, 1, 5).Success?
    ensures AddEdgeAsWritten(Zero(3), 0, 2, -1, 1, 5).value[2][1] == 5
    ensures !WellFormed(AddEdgeAsWritten(Zero(3), 0, 2, -1, 1, 5).value, 3, 0, 2)
    ensures AddEdgeChecked(Zero(3), 0, 2, -1, 1, 5) == Failure(IndexOutOfBounds)
  {
    var m := AddEdgeAsWritten(Zero(3), 0, 2, -1, 1, 5).value;
    assert m[2][1] > 0;
  }
}
