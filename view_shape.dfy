/**
 * What the runtime (core/src/view/view.ts:511-609 and
 * core/src/view/provider.ts:431-451) relies on when it walks a view
 * definition and skips subtrees: node k sits at index k, its childCount
 * stays inside the list, its childFlags and the view's nodeFlags are the OR
 * of the right flags (types.ts:99-102), and in reverseChildNodes a node is
 * followed directly by its descendants (types.ts:28-39).  ViewDefFacts
 * proves that every definition viewDef returns has this shape.
 */
module ViewShape {
  import opened ViewTypes
  import opened ViewDefSpec

  /** Node k of the definition has index k. */
  predicate Indexed(d: ViewDefinition)
  {
    forall k :: 0 <= k < |d.nodes| ==> d.nodes[k].index == k
  }

  /** One past node k's last descendant. */
  function RangeEnd(ns: seq<NodeDef>, k: nat): nat
    requires k < |ns|
  {
    k + ns[k].childCount + 1
  }

  /** Node k's range stays inside the list and its childFlags are the OR of that range's flags. */
  predicate ChildrenAggregated(d: ViewDefinition, k: nat)
    requires k < |d.nodes|
  {
    RangeEnd(d.nodes, k) <= |d.nodes| &&
    d.nodes[k].childFlags == FlagsIn(d.nodes, k + 1, RangeEnd(d.nodes, k))
  }

  /** childFlags and nodeFlags aggregate the flags of the nodes they cover. */
  predicate Aggregated(d: ViewDefinition)
  {
    (forall k :: 0 <= k < |d.nodes| ==> ChildrenAggregated(d, k)) &&
    d.nodeFlags == FlagsIn(d.nodes, 0, |d.nodes|)
  }

  /**
   * reverseChildNodes lists node indices, and the childCount positions after
   * a node's own position hold its descendants.
   */
  predicate ReverseBlocks(d: ViewDefinition)
  {
    |d.reverseChildNodes| == |d.nodes| &&
    (forall q :: 0 <= q < |d.nodes| ==>
       d.reverseChildNodes[q] < |d.nodes| &&
       q + d.nodes[d.reverseChildNodes[q]].childCount < |d.nodes|) &&
    (forall q, q' :: 0 <= q < q' < |d.nodes| && q' <= q + d.nodes[d.reverseChildNodes[q]].childCount ==>
       d.reverseChildNodes[q] < d.reverseChildNodes[q'] <=
         d.reverseChildNodes[q] + d.nodes[d.reverseChildNodes[q]].childCount)
  }

  /** The shape the runtime walks. */
  predicate Walkable(d: ViewDefinition)
  {
    Indexed(d) && Aggregated(d) && ReverseBlocks(d)
  }

  /** A node's childFlags hit a mask exactly when one of its descendants' flags does. */
  lemma ChildFlagsHit(d: ViewDefinition, k: nat, mask: Flags)
    requires Aggregated(d) && k < |d.nodes|
    ensures RangeEnd(d.nodes, k) <= |d.nodes|
    ensures Has(d.nodes[k].childFlags, mask) <==>
            exists j :: k + 1 <= j < RangeEnd(d.nodes, k) && Has(d.nodes[j].flags, mask)
  {
    assert ChildrenAggregated(d, k);
    FlagsInHas(d.nodes, k + 1, RangeEnd(d.nodes, k), mask);
  }

  /** The view's nodeFlags hit a mask exactly when some node's flags do. */
  lemma NodeFlagsHit(d: ViewDefinition, mask: Flags)
    requires Aggregated(d)
    ensures Has(d.nodeFlags, mask) <==> exists j :: 0 <= j < |d.nodes| && Has(d.nodes[j].flags, mask)
  {
    FlagsInHas(d.nodes, 0, |d.nodes|, mask);
  }
}
