/**
 * The node walks of the view runtime (core/src/view/view.ts:511-609 and
 * core/src/view/provider.ts:431-452): which nodes a walk acts on, stated
 * without the subtree skipping the loops do, and the lemmas that make the
 * skipping safe.  A skipped node's childFlags miss the mask, so by
 * aggregation none of its descendants could have been a target.
 */
module ViewWalks {
  import opened ViewTypes
  import opened ViewDefSpec
  import opened ViewShape

  /** A node the walk acts on: its own flags meet both masks (a single-mask walk passes the mask twice). */
  predicate Hit(n: NodeDef, m1: Flags, m2: Flags)
  {
    Has(n.flags, m1) && Has(n.flags, m2)
  }

  /** The indices in [lo, hi) of the nodes the walk acts on, in depth-first order. */
  function Targets(ns: seq<NodeDef>, lo: nat, hi: nat, m1: Flags, m2: Flags): (r: seq<nat>)
    requires lo <= hi <= |ns|
    ensures forall k :: 0 <= k < |r| ==> lo <= r[k] < hi && Hit(ns[r[k]], m1, m2)
    decreases hi - lo
  {
    if lo == hi then []
    else (if Hit(ns[lo], m1, m2) then [lo] else []) + Targets(ns, lo + 1, hi, m1, m2)
  }

  /** No target is missed: every node of the range that meets the masks is listed. */
  lemma {:induction false} TargetsComplete(ns: seq<NodeDef>, lo: nat, hi: nat, m1: Flags, m2: Flags, j: nat)
    requires lo <= j < hi <= |ns| && Hit(ns[j], m1, m2)
    ensures j in Targets(ns, lo, hi, m1, m2)
    decreases hi - lo
  {
    if lo < j {
      TargetsComplete(ns, lo + 1, hi, m1, m2, j);
    }
  }

  /** Targets are listed in ascending node order, each once. */
  lemma {:induction false} TargetsAscending(ns: seq<NodeDef>, lo: nat, hi: nat, m1: Flags, m2: Flags)
    requires lo <= hi <= |ns|
    ensures forall k, k' :: 0 <= k < k' < |Targets(ns, lo, hi, m1, m2)| ==>
              Targets(ns, lo, hi, m1, m2)[k] < Targets(ns, lo, hi, m1, m2)[k']
    decreases hi - lo
  {
    if lo < hi {
      TargetsAscending(ns, lo + 1, hi, m1, m2);
    }
  }

  /** The targets of a range are the targets of its two halves. */
  lemma {:induction false} TargetsSplit(ns: seq<NodeDef>, lo: nat, mid: nat, hi: nat, m1: Flags, m2: Flags)
    requires lo <= mid <= hi <= |ns|
    ensures Targets(ns, lo, hi, m1, m2) == Targets(ns, lo, mid, m1, m2) + Targets(ns, mid, hi, m1, m2)
    decreases mid - lo
  {
    if lo < mid {
      TargetsSplit(ns, lo + 1, mid, hi, m1, m2);
    }
  }

  /** One more node at the end of a range adds it when it is a target. */
  lemma TargetsStep(ns: seq<NodeDef>, lo: nat, i: nat, m1: Flags, m2: Flags)
    requires lo <= i < |ns|
    ensures Targets(ns, lo, i + 1, m1, m2) ==
            Targets(ns, lo, i, m1, m2) + (if Hit(ns[i], m1, m2) then [i] else [])
  {
    TargetsSplit(ns, lo, i, i + 1, m1, m2);
  }

  /**
   * The skip of the walks: when node k's childFlags miss one of the masks,
   * no descendant of k is a target, so jumping over them loses nothing.
   */
  lemma SkipLosesNothing(d: ViewDefinition, k: nat, m1: Flags, m2: Flags)
    requires Aggregated(d) && k < |d.nodes|
    requires !Has(d.nodes[k].childFlags, m1) || !Has(d.nodes[k].childFlags, m2)
    ensures RangeEnd(d.nodes, k) <= |d.nodes|
    ensures Targets(d.nodes, k + 1, RangeEnd(d.nodes, k), m1, m2) == []
  {
    ChildFlagsHit(d, k, m1);
    ChildFlagsHit(d, k, m2);
    NoHitsNoTargets(d.nodes, k + 1, RangeEnd(d.nodes, k), m1, m2);
  }

  /** A range without a hit has no targets. */
  lemma {:induction false} NoHitsNoTargets(ns: seq<NodeDef>, lo: nat, hi: nat, m1: Flags, m2: Flags)
    requires lo <= hi <= |ns|
    requires forall j :: lo <= j < hi ==> !Hit(ns[j], m1, m2)
    ensures Targets(ns, lo, hi, m1, m2) == []
    decreases hi - lo
  {
    if lo < hi {
      NoHitsNoTargets(ns, lo + 1, hi, m1, m2);
    }
  }

  /** The early return of the walks: when nodeFlags miss a mask, the view has no target at all. */
  lemma NoTargetsAtAll(d: ViewDefinition, m1: Flags, m2: Flags)
    requires Aggregated(d)
    requires !Has(d.nodeFlags, m1) || !Has(d.nodeFlags, m2)
    ensures Targets(d.nodes, 0, |d.nodes|, m1, m2) == []
  {
    NodeFlagsHit(d, m1);
    NodeFlagsHit(d, m2);
    NoHitsNoTargets(d.nodes, 0, |d.nodes|, m1, m2);
  }

  /**
   * The step of execComponentViewsAction and execEmbeddedViewsAction
   * (view.ts:511-553): a node is acted on when it carries the mask; one
   * that does not and whose childFlags miss the mask is jumped over with
   * its descendants.  Either way the targets reached so far are those of
   * the prefix walked.
   */
  lemma LeafWalkStep(d: ViewDefinition, i: nat, mask: Flags)
    requires Aggregated(d) && i < |d.nodes|
    ensures RangeEnd(d.nodes, i) <= |d.nodes|
    ensures Targets(d.nodes, 0, i + 1, mask, mask) ==
            Targets(d.nodes, 0, i, mask, mask) + (if Has(d.nodes[i].flags, mask) then [i] else [])
    ensures !Has(d.nodes[i].flags, mask) && !Has(d.nodes[i].childFlags, mask) ==>
              Targets(d.nodes, 0, RangeEnd(d.nodes, i), mask, mask) == Targets(d.nodes, 0, i, mask, mask)
  {
    TargetsStep(d.nodes, 0, i, mask, mask);
    assert ChildrenAggregated(d, i);
    if !Has(d.nodes[i].flags, mask) && !Has(d.nodes[i].childFlags, mask) {
      SkipLosesNothing(d, i, mask, mask);
      TargetsSplit(d.nodes, 0, i + 1, RangeEnd(d.nodes, i), mask, mask);
    }
  }

  /**
   * The step of execQueriesAction (view.ts:584-609): the node is acted on
   * when its flags meet both masks, and its descendants are jumped over
   * whenever its childFlags miss either mask, whether it was acted on or not.
   */
  lemma QueryWalkStep(d: ViewDefinition, i: nat, m1: Flags, m2: Flags)
    requires Aggregated(d) && i < |d.nodes|
    ensures RangeEnd(d.nodes, i) <= |d.nodes|
    ensures Targets(d.nodes, 0, i + 1, m1, m2) ==
            Targets(d.nodes, 0, i, m1, m2) + (if Hit(d.nodes[i], m1, m2) then [i] else [])
    ensures !Has(d.nodes[i].childFlags, m1) || !Has(d.nodes[i].childFlags, m2) ==>
              Targets(d.nodes, 0, RangeEnd(d.nodes, i), m1, m2) == Targets(d.nodes, 0, i + 1, m1, m2)
  {
    TargetsStep(d.nodes, 0, i, m1, m2);
    assert ChildrenAggregated(d, i);
    if !Has(d.nodes[i].childFlags, m1) || !Has(d.nodes[i].childFlags, m2) {
      SkipLosesNothing(d, i, m1, m2);
      TargetsSplit(d.nodes, 0, i + 1, RangeEnd(d.nodes, i), m1, m2);
    }
  }

  /**
   * The node indices callLifecycleHooksChildrenFirst acts on, in the order
   * of reverseChildNodes positions [lo, hi): those whose flags meet the
   * requested lifecycles.
   */
  function HookTargets(d: ViewDefinition, lo: nat, hi: nat, lifecycles: Flags): (r: seq<nat>)
    requires ReverseBlocks(d) && lo <= hi <= |d.nodes|
    ensures forall k :: 0 <= k < |r| ==> r[k] < |d.nodes| && Has(d.nodes[r[k]].flags, lifecycles)
    decreases hi - lo
  {
    if lo == hi then []
    else
      var k := d.reverseChildNodes[lo];
      (if Has(d.nodes[k].flags, lifecycles) then [k] else []) + HookTargets(d, lo + 1, hi, lifecycles)
  }

  /** The hook targets of a range of positions are those of its two halves. */
  lemma {:induction false} HookTargetsSplit(d: ViewDefinition, lo: nat, mid: nat, hi: nat, lifecycles: Flags)
    requires ReverseBlocks(d) && lo <= mid <= hi <= |d.nodes|
    ensures HookTargets(d, lo, hi, lifecycles) == HookTargets(d, lo, mid, lifecycles) + HookTargets(d, mid, hi, lifecycles)
    decreases mid - lo
  {
    if lo < mid {
      HookTargetsSplit(d, lo + 1, mid, hi, lifecycles);
    }
  }

  /**
   * The skip of callLifecycleHooksChildrenFirst: the childCount positions
   * after a node hold its descendants, so when its childFlags miss the
   * lifecycles none of them is a target.
   */
  lemma HookSkipLosesNothing(d: ViewDefinition, q: nat, lifecycles: Flags)
    requires Walkable(d) && q < |d.nodes|
    requires !Has(d.nodes[d.reverseChildNodes[q]].childFlags, lifecycles)
    ensures q + 1 + d.nodes[d.reverseChildNodes[q]].childCount <= |d.nodes|
    ensures HookTargets(d, q + 1, q + 1 + d.nodes[d.reverseChildNodes[q]].childCount, lifecycles) == []
  {
    var k := d.reverseChildNodes[q];
    var hi := q + 1 + d.nodes[k].childCount;
    ChildFlagsHit(d, k, lifecycles);
    forall q' | q + 1 <= q' < hi
      ensures !Has(d.nodes[d.reverseChildNodes[q']].flags, lifecycles)
    {
      assert k < d.reverseChildNodes[q'] <= k + d.nodes[k].childCount;
    }
    NoHookHits(d, q + 1, hi, lifecycles);
  }

  /** A range of positions without a hit has no hook targets. */
  lemma {:induction false} NoHookHits(d: ViewDefinition, lo: nat, hi: nat, lifecycles: Flags)
    requires ReverseBlocks(d) && lo <= hi <= |d.nodes|
    requires forall q :: lo <= q < hi ==> !Has(d.nodes[d.reverseChildNodes[q]].flags, lifecycles)
    ensures HookTargets(d, lo, hi, lifecycles) == []
    decreases hi - lo
  {
    if lo < hi {
      NoHookHits(d, lo + 1, hi, lifecycles);
    }
  }

  /**
   * The step of callLifecycleHooksChildrenFirst (provider.ts:436-451): a
   * position whose node meets the lifecycles adds that node to the targets
   * of the positions walked.
   */
  lemma HookWalkStep(d: ViewDefinition, q: nat, lifecycles: Flags)
    requires Walkable(d) && q < |d.nodes|
    ensures d.reverseChildNodes[q] < |d.nodes|
    ensures HookTargets(d, 0, q + 1, lifecycles) ==
            HookTargets(d, 0, q, lifecycles) +
            (if Has(d.nodes[d.reverseChildNodes[q]].flags, lifecycles) then [d.reverseChildNodes[q]] else [])
  {
    HookTargetsSplit(d, 0, q, q + 1, lifecycles);
  }

  /**
   * The jump of callLifecycleHooksChildrenFirst: at a position whose node
   * and whose childFlags both miss the lifecycles, the following
   * childCount positions are passed over without losing a target.
   */
  lemma HookWalkSkip(d: ViewDefinition, q: nat, lifecycles: Flags)
    requires Walkable(d) && q < |d.nodes|
    requires !Has(d.nodes[d.reverseChildNodes[q]].flags, lifecycles)
    requires !Has(d.nodes[d.reverseChildNodes[q]].childFlags, lifecycles)
    ensures q + 1 + d.nodes[d.reverseChildNodes[q]].childCount <= |d.nodes|
    ensures HookTargets(d, 0, q + 1 + d.nodes[d.reverseChildNodes[q]].childCount, lifecycles) ==
            HookTargets(d, 0, q, lifecycles)
  {
    var k := d.reverseChildNodes[q];
    HookWalkStep(d, q, lifecycles);
    HookSkipLosesNothing(d, q, lifecycles);
    HookTargetsSplit(d, 0, q + 1, q + 1 + d.nodes[k].childCount, lifecycles);
    assert HookTargets(d, 0, q, lifecycles) + [] == HookTargets(d, 0, q, lifecycles);
  }

  /** When nodeFlags miss the lifecycles, no node is a hook target. */
  lemma NoHookTargets(d: ViewDefinition, lifecycles: Flags)
    requires Walkable(d)
    requires !Has(d.nodeFlags, lifecycles)
    ensures HookTargets(d, 0, |d.nodes|, lifecycles) == []
  {
    NodeFlagsHit(d, lifecycles);
    NoHookHits(d, 0, |d.nodes|, lifecycles);
  }
}
