/**
 * The body of the augmentation loop shared by both versions of
 * `maximum_flow`: add the bottleneck to the running total, then push it along
 * the path in the flow array, in place.
 */
module FlowUpdate {
  import opened Outcomes
  import opened Matrices
  import opened ResidualGraph
  import opened Flows

  /** One step of the update loop: `flow[src, dst] += amount` then `flow[dst, src] -= amount`. */
  method PushStep(flow: array2<int>, src: nat, dst: nat, amount: int, ghost m: Matrix)
    requires Holds(flow, m) && src < flow.Length0 && dst < flow.Length0
    modifies flow
    ensures Holds(flow, Push(m, src, dst, amount))
  {
    flow[src, dst] := flow[src, dst] + amount;
    flow[dst, src] := flow[dst, src] - amount;
  }

  /**
   * `for src, dst in zip(path, path[1:])`: for each step of `path`,
   * `flow[src, dst] += amount` and `flow[dst, src] -= amount`, in place.
   */
  method PushAlong(flow: array2<int>, path: seq<int>, amount: int)
    requires flow.Length0 == flow.Length1 && InRange(path, flow.Length0)
    modifies flow
    ensures Cells(flow) == Augment(old(Cells(flow)), path, amount)
  {
    CellsHold(flow);
    ghost var before := Cells(flow);
    ghost var pushed := before;
    for k := 0 to if |path| < 1 then 0 else |path| - 1
      invariant Holds(flow, pushed)
      invariant pushed == Augment(before, path[..if path == [] then 0 else k + 1], amount)
    {
      PushStep(flow, path[k], path[k + 1], amount, pushed);
      pushed := Push(pushed, path[k], path[k + 1], amount);
      assert path[..k + 2][..k + 1] == path[..k + 1];
    }
    assert |path| >= 1 ==> path[..|path|] == path;
    HoldsCells(flow, pushed);
  }

  /**
   * `max_flow += new_flow` followed by the update loop, for an answer of the
   * search on the residual graph of the current flow `f` (a ghost copy of the
   * array's cells). A flow stays a flow, its value grows by the bottleneck,
   * and it never exceeds what the source can send through its outgoing
   * capacities. The augmentations pushed so far (ghost `augs`) gain the one
   * just pushed.
   */
  method AugmentFlow(ghost cap: Matrix, source: nat, sink: nat, flow: array2<int>, ghost f: Matrix, value: int,
                     found: Option<Augmentation>, ghost augs: seq<Augmentation>)
    returns (newValue: int)
    requires Cells(flow) == f && IsFlow(cap, f, source, sink, value)
    requires AnswersSearch(Residual(cap, f), source, sink, found) && found.Some?
    requires IsRun(cap, source, sink, augs) && f == AugmentAll(Zero(|cap|), augs) && value == Total(augs)
    modifies flow
    ensures newValue == value + found.value.amount
    ensures Cells(flow) == Augment(f, found.value.path, found.value.amount)
    ensures IsFlow(cap, Augment(f, found.value.path, found.value.amount), source, sink, newValue)
    ensures newValue <= RowSum(cap, source)
    ensures IsRun(cap, source, sink, augs + [found.value])
    ensures Augment(f, found.value.path, found.value.amount) == AugmentAll(Zero(|cap|), augs + [found.value])
    ensures newValue == Total(augs + [found.value])
  {
    var aug := found.value;
    RunExtends(cap, source, sink, augs, f, found);
    AnswerKeepsFlow(cap, f, source, sink, value, aug);
    newValue := value + aug.amount;
    PushAlong(flow, aug.path, aug.amount);
    FlowValueBounded(cap, Augment(f, aug.path, aug.amount), source, sink, newValue);
  }
}
