/**
 * `FlowNetwork` of src/flow_network.py: a dense capacity matrix filled edge by
 * edge, and the Edmonds-Karp solver that augments along breadth-first paths
 * until the search reports that none is left (by returning `None`).
 */
module FlowNetwork {
  import opened Outcomes
  import opened Matrices
  import opened Network
  import opened ResidualGraph
  import opened SearchTree
  import opened Flows
  import opened BreadthFirst
  import opened FlowUpdate
  import opened Cuts

  class FlowNetwork {
    const vertices: nat
    const source: nat
    const sink: nat
    const capacity: array2<int>

    /** The capacity matrix is `vertices x vertices`, with distinct terminals among the vertices. */
    ghost predicate Shaped()
      reads this
    {
      && capacity.Length0 == vertices && capacity.Length1 == vertices
      && source < vertices && sink < vertices && source != sink
    }

    /** The square capacity matrix keeps the invariants edge insertion guards. */
    ghost predicate Valid()
      reads this, capacity
    {
      && Shaped()
      && WellFormed(Cells(capacity), vertices, source, sink)
    }

    /** `__init__` once its assertions have passed: an all-zero capacity matrix. */
    constructor (vertices: nat, source: nat, sink: nat)
      requires source < vertices && sink < vertices && source != sink
      ensures Valid() && fresh(capacity)
      ensures this.vertices == vertices && this.source == source && this.sink == sink
      ensures Cells(capacity) == Zero(vertices)
    {
      this.vertices := vertices;
      this.source := source;
      this.sink := sink;
      capacity := new int[vertices, vertices]((_, _) => 0);
      new;
      HoldsCells(capacity, Zero(vertices));
      ZeroWellFormed(vertices, source, sink);
    }

    /** `FlowNetwork(vertices, source, sink)`, with its assertions as the failure result. */
    static method Create(vertices: int, source: int, sink: int) returns (r: Result<FlowNetwork, TopologyError>)
      ensures r.Failure? <==> CheckTopology(vertices, source, sink).Some?
      ensures r.Failure? ==> r.error == CheckTopology(vertices, source, sink).value
      ensures r.Success? ==>
        && fresh(r.value) && fresh(r.value.capacity) && r.value.Valid()
        && r.value.vertices == vertices && r.value.source == source && r.value.sink == sink
        && Cells(r.value.capacity) == Zero(vertices)
    {
      var check := CheckTopology(vertices, source, sink);
      if check.Some? {
        return Failure(check.value);
      }
      var network := new FlowNetwork(vertices, source, sink);
      return Success(network);
    }

    /**
     * `add_edge(src, dst, cap)`: refuses the edge for the first guard that
     * fails, and otherwise writes `cap` into the one cell `(src, dst)`.
     */
    method AddEdge(src: int, dst: int, cap: int) returns (r: Outcome<EdgeError>)
      requires Valid()
      modifies capacity
      ensures Valid()
      ensures var expected := AddEdgeChecked(old(Cells(capacity)), source, sink, src, dst, cap);
        && (r.Pass? <==> expected.Success?)
        && (r.Fail? ==> expected == Failure(r.error))
        && Cells(capacity) == if r.Pass? then expected.value else old(Cells(capacity))
    {
      CellsHold(capacity);
      if cap <= 0 {
        return Fail(NonPositiveCapacity);
      }
      if src == sink {
        return Fail(SinkHasOutgoing);
      }
      if dst == source {
        return Fail(SourceHasIncoming);
      }
      if !(0 <= src < vertices && 0 <= dst < vertices) {
        return Fail(IndexOutOfBounds);
      }
      if capacity[src, dst] != 0 {
        return Fail(AlreadyAssigned);
      }
      if capacity[dst, src] != 0 {
        return Fail(ReverseAssigned);
      }
      ghost var before := Cells(capacity);
      capacity[src, dst] := cap;
      HoldsCells(capacity, SetCell(before, src, dst, cap));
      AddEdgeCheckedKeepsWellFormed(before, vertices, source, sink, src, dst, cap);
      r := Pass;
    }

    /**
     * `maximum_flow()`: pushes the bottleneck along each path the search finds,
     * and stops when it finds none. The result is a flow of value `maxFlow`
     * (skew symmetric, within capacity, conserved away from the terminals), the
     * sink receives `maxFlow`, and the sink is unreachable in the final
     * residual graph.
     */
    method MaximumFlow() returns (maxFlow: int, flow: array2<int>, ghost augs: seq<Augmentation>)
      requires Valid()
      ensures fresh(flow) && flow.Length0 == vertices && flow.Length1 == vertices
      ensures IsRun(Cells(capacity), source, sink, augs)
      ensures Cells(flow) == AugmentAll(Zero(vertices), augs) && maxFlow == Total(augs)
      ensures !Reachable(Residual(Cells(capacity), Zero(vertices)), source, sink) ==>
        augs == [] && maxFlow == 0 && Cells(flow) == Zero(vertices)
      ensures IsFlow(Cells(capacity), Cells(flow), source, sink, maxFlow)
      ensures ColSum(Cells(flow), sink) == maxFlow
      ensures !Reachable(Residual(Cells(capacity), Cells(flow)), source, sink)
      ensures forall g, x | IsFlow(Cells(capacity), g, source, sink, x) :: x <= maxFlow
      ensures exists a :: source in a && sink !in a && CutCapacity(Cells(capacity), a) == maxFlow
    {
      ghost var cap := Cells(capacity);
      maxFlow := 0;
      flow := new int[vertices, vertices]((_, _) => 0);
      augs := [];
      HoldsCells(flow, Zero(vertices));
      ghost var f := Cells(flow);
      ZeroIsFlow(cap, source, sink);
      FlowValueBounded(cap, f, source, sink, maxFlow);
      var found := FindAugmentingPath(flow);
      while found.Some?
        invariant fresh(flow) && flow.Length0 == vertices && flow.Length1 == vertices
        invariant cap == Cells(capacity) && f == Cells(flow)
        invariant IsFlow(cap, f, source, sink, maxFlow)
        invariant maxFlow <= RowSum(cap, source)
        invariant AnswersSearch(Residual(cap, f), source, sink, found)
        invariant IsRun(cap, source, sink, augs)
        invariant f == AugmentAll(Zero(|cap|), augs) && maxFlow == Total(augs)
        decreases RowSum(cap, source) - maxFlow
      {
        maxFlow := AugmentFlow(cap, source, sink, flow, f, maxFlow, found, augs);
        f := Augment(f, found.value.path, found.value.amount);
        augs := augs + [found.value];
        found := FindAugmentingPath(flow);
      }
      SinkInflow(cap, f, source, sink, maxFlow);
      MaxFlowMinCut(cap, f, source, sink, maxFlow);
      if augs != [] {
        RunStartsReachable(cap, source, sink, augs);
      }
    }

    /**
     * `_gen_path(predecessor)`: starts the list at the sink, appends
     * predecessors until the next one is the source, appends the source and
     * reverses. On a search tree that holds the sink this is the tree path
     * from the source to the sink.
     */
    method GenPath(predecessor: array<int>, ghost rank: seq<nat>) returns (path: seq<int>)
      requires IsForest(predecessor[..], rank, source)
      requires sink < predecessor.Length && sink != source && predecessor[sink] != -1
      ensures IsTreePath(predecessor[..], source, sink, path)
    {
      ghost var pred := predecessor[..];
      var chain := [sink as int];
      var next := predecessor[sink];
      while next != source
        invariant IsChain(pred, rank, source, sink, chain)
        invariant next == Parent(pred, chain[|chain| - 1])
        invariant 0 <= next < |pred| && Discovered(pred, source, next)
        invariant forall k | 0 <= k < |chain| :: rank[next] < rank[chain[k]]
        decreases rank[next]
      {
        chain := chain + [next];
        assert predecessor[next] == Parent(pred, next);
        next := predecessor[next];
      }
      path := Reverse(chain + [source]);
      ChainReversedIsTreePath(pred, rank, source, sink, chain);
    }

    /**
     * `_find_augmenting_path(flow)`: the breadth-first search on
     * `capacity - flow`; when it reaches the sink, the tree path with its
     * bottleneck, otherwise `None`. It answers an augmenting path with its
     * (positive) bottleneck, and `None` exactly when the sink is unreachable.
     */
    method FindAugmentingPath(flow: array2<int>) returns (r: Option<Augmentation>)
      requires Shaped() && flow.Length0 == vertices && flow.Length1 == vertices
      ensures AnswersSearch(Residual(Cells(capacity), Cells(flow)), source, sink, r)
    {
      var residual := Residual(Cells(capacity), Cells(flow));
      var predecessor, reached;
      ghost var rank;
      predecessor, reached, rank := Explore(residual, source, sink);
      if !reached {
        return None;
      }
      var path := GenPath(predecessor, rank);
      TreePathIsAugmenting(residual, predecessor[..], source, sink, path);
      var newFlow := Bottleneck(residual, path);
      return Some(Augmentation(newFlow, path));
    }
  }
}
