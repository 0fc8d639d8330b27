/**
 * What the definition viewDef returns guarantees to the rest of the runtime
 * (core/src/view/view.ts:24-144 and the ViewDefinition comments in
 * core/src/view/types.ts): reverseChildNodes lists every node once, parents
 * before children and later siblings first; childFlags and nodeFlags are the
 * OR of exactly the right nodes' flags; an element's provider tables only
 * hand out providers registered under the looked-up token.
 */
module ViewDefFacts {
  import opened Wrappers
  import opened ViewTypes
  import opened ViewDefSpec
  import opened ProviderTables
  import opened ViewDefBuilder
  import opened ViewShape

  /**
   * reverseChildNodes is a permutation of the node indices that agrees with
   * every node's reverseChildIndex.
   */
  lemma BuiltReversePermutation(orig: seq<NodeDef>, flags: Flags, d: ViewDefinition)
    requires Built(orig, flags, d)
    ensures |d.reverseChildNodes| == |d.nodes|
    ensures forall r :: 0 <= r < |orig| ==>
              d.reverseChildNodes[r] < |orig| && d.nodes[d.reverseChildNodes[r]].reverseChildIndex == r
    ensures forall r1, r2 :: 0 <= r1 < r2 < |orig| ==> d.reverseChildNodes[r1] != d.reverseChildNodes[r2]
    ensures forall k :: 0 <= k < |orig| ==>
              0 <= d.nodes[k].reverseChildIndex < |orig| && d.reverseChildNodes[d.nodes[k].reverseChildIndex] == k
  {
    AcceptedNested(orig, |orig|);
    ReverseIndexPermutation(orig);
    forall r | 0 <= r < |orig|
      ensures d.reverseChildNodes[r] < |orig| && d.nodes[d.reverseChildNodes[r]].reverseChildIndex == r
    {
      assert Occupied(orig, r);
      var k :| 0 <= k < |orig| && ReverseIndex(orig, k) == r;
      assert PlacedNode(orig, k, d.nodes[k]);
    }
    forall r1, r2 | 0 <= r1 < r2 < |orig|
      ensures d.reverseChildNodes[r1] != d.reverseChildNodes[r2]
    {
      var k := d.reverseChildNodes[r1];
      assert PlacedNode(orig, k, d.nodes[k]);
    }
    forall k | 0 <= k < |orig|
      ensures 0 <= d.nodes[k].reverseChildIndex < |orig| && d.reverseChildNodes[d.nodes[k].reverseChildIndex] == k
    {
      assert PlacedNode(orig, k, d.nodes[k]);
    }
  }

  /**
   * Reverse child order: a node comes before all of its descendants, and a
   * node that follows i's whole subtree comes, with its own subtree, before i.
   */
  lemma BuiltReverseOrder(orig: seq<NodeDef>, flags: Flags, d: ViewDefinition, i: nat, j: nat)
    requires Built(orig, flags, d) && i < j < |orig|
    ensures j <= i + d.nodes[i].childCount ==> d.nodes[i].reverseChildIndex < d.nodes[j].reverseChildIndex
    ensures j > i + d.nodes[i].childCount ==>
              d.nodes[j].reverseChildIndex + d.nodes[j].childCount < d.nodes[i].reverseChildIndex
  {
    AcceptedNested(orig, |orig|);
    assert PlacedNode(orig, i, d.nodes[i]) && PlacedNode(orig, j, d.nodes[j]);
    if j <= End(orig, i) {
      ReverseIndexDescendant(orig, i, j);
    } else {
      ReverseIndexAfter(orig, i, j);
    }
  }

  /** The placed nodes carry the input's flags. */
  lemma BuiltFlagsKept(orig: seq<NodeDef>, flags: Flags, d: ViewDefinition)
    requires Built(orig, flags, d)
    ensures |d.nodes| == |orig| && forall j {:trigger d.nodes[j]} :: 0 <= j < |orig| ==> d.nodes[j].flags == orig[j].flags
  {
    forall j | 0 <= j < |orig|
      ensures d.nodes[j].flags == orig[j].flags
    {
      assert PlacedNode(orig, j, d.nodes[j]);
    }
  }

  /** Two node lists with the same flags have the same ORs. */
  lemma {:induction false} FlagsInSame(orig: seq<NodeDef>, nodes: seq<NodeDef>, lo: nat, hi: nat)
    requires lo <= hi <= |orig| == |nodes|
    requires forall j {:trigger nodes[j]} :: 0 <= j < |orig| ==> nodes[j].flags == orig[j].flags
    ensures FlagsIn(nodes, lo, hi) == FlagsIn(orig, lo, hi)
    decreases hi
  {
    if lo < hi {
      FlagsInSame(orig, nodes, lo, hi - 1);
    }
  }

  /** What Built says about every node's childCount and childFlags. */
  lemma BuiltChildFacts(orig: seq<NodeDef>, flags: Flags, d: ViewDefinition)
    requires Built(orig, flags, d)
    ensures forall k {:trigger d.nodes[k].childFlags} :: 0 <= k < |orig| ==>
              End(orig, k) < |orig| && d.nodes[k].childCount == orig[k].childCount &&
              d.nodes[k].childFlags == FlagsIn(orig, k + 1, End(orig, k) + 1)
  {
    forall k | 0 <= k < |orig|
      ensures End(orig, k) < |orig| && d.nodes[k].childCount == orig[k].childCount
    {
      assert PlacedNode(orig, k, d.nodes[k]);
    }
  }

  /** A range OR computed on the input list reads the same on a list with the same flags. */
  lemma ChildFlagsMoved(orig: seq<NodeDef>, nodes: seq<NodeDef>, k: nat, hi: nat, c: Flags)
    requires k < |orig| == |nodes| && hi <= |orig|
    requires forall j {:trigger nodes[j]} :: 0 <= j < |orig| ==> nodes[j].flags == orig[j].flags
    requires nodes[k].childCount == orig[k].childCount && hi == End(orig, k) + 1
    requires c == FlagsIn(orig, k + 1, hi)
    ensures RangeEnd(nodes, k) <= |nodes| && c == FlagsIn(nodes, k + 1, RangeEnd(nodes, k))
  {
    FlagsInSame(orig, nodes, k + 1, hi);
    SameBound(nodes, k + 1, hi, RangeEnd(nodes, k));
  }

  /** The OR over a range depends on the bounds' values only. */
  lemma SameBound(ns: seq<NodeDef>, lo: nat, hi: nat, hi': nat)
    requires lo <= hi <= |ns| && hi == hi'
    ensures FlagsIn(ns, lo, hi) == FlagsIn(ns, lo, hi')
  {
  }

  /** Flags aggregated on the input list are aggregated on a list with the same flags and counts. */
  lemma AggregatedMoved(orig: seq<NodeDef>, d: ViewDefinition)
    requires |d.nodes| == |orig|
    requires forall j {:trigger d.nodes[j]} :: 0 <= j < |orig| ==> d.nodes[j].flags == orig[j].flags
    requires forall k {:trigger d.nodes[k].childFlags} :: 0 <= k < |orig| ==>
               End(orig, k) < |orig| && d.nodes[k].childCount == orig[k].childCount &&
               d.nodes[k].childFlags == FlagsIn(orig, k + 1, End(orig, k) + 1)
    requires d.nodeFlags == FlagsIn(orig, 0, |orig|)
    ensures Aggregated(d)
  {
    forall k | 0 <= k < |d.nodes|
      ensures ChildrenAggregated(d, k)
    {
      var c := d.nodes[k].childFlags;
      assert c == FlagsIn(orig, k + 1, End(orig, k) + 1);
      ChildFlagsMoved(orig, d.nodes, k, End(orig, k) + 1, c);
    }
    FlagsInSame(orig, d.nodes, 0, |d.nodes|);
  }

  /** The definition viewDef returns aggregates its flags as the runtime expects. */
  lemma BuiltAggregated(orig: seq<NodeDef>, flags: Flags, d: ViewDefinition)
    requires Built(orig, flags, d)
    ensures Aggregated(d)
  {
    BuiltFlagsKept(orig, flags, d);
    BuiltChildFacts(orig, flags, d);
    AggregatedMoved(orig, d);
  }

  /** In reverseChildNodes the childCount positions after a node's own hold its descendants. */
  lemma BuiltReverseBlocks(orig: seq<NodeDef>, flags: Flags, d: ViewDefinition)
    requires Built(orig, flags, d)
    ensures ReverseBlocks(d)
  {
    BuiltReversePermutation(orig, flags, d);
    BlocksInside(orig, flags, d);
    forall q, q' | 0 <= q < q' < |d.nodes| && q' <= q + d.nodes[d.reverseChildNodes[q]].childCount
      ensures d.reverseChildNodes[q] < d.reverseChildNodes[q'] <=
              d.reverseChildNodes[q] + d.nodes[d.reverseChildNodes[q]].childCount
    {
      BlockHoldsDescendant(orig, flags, d, q, q');
    }
  }

  /** A node's block in reverseChildNodes ends inside the list. */
  lemma BlocksInside(orig: seq<NodeDef>, flags: Flags, d: ViewDefinition)
    requires Built(orig, flags, d)
    ensures |d.reverseChildNodes| == |d.nodes|
    ensures forall q :: 0 <= q < |d.nodes| ==>
              d.reverseChildNodes[q] < |d.nodes| && q + d.nodes[d.reverseChildNodes[q]].childCount < |d.nodes|
  {
    BuiltReversePermutation(orig, flags, d);
    AcceptedNested(orig, |orig|);
    forall q | 0 <= q < |orig|
      ensures d.reverseChildNodes[q] < |orig| && q + d.nodes[d.reverseChildNodes[q]].childCount < |orig|
    {
      var k := d.reverseChildNodes[q];
      assert PlacedNode(orig, k, d.nodes[k]);
      ReverseIndexInRange(orig, k);
    }
  }

  /** One position of a node's block in reverseChildNodes holds one of its descendants. */
  lemma BlockHoldsDescendant(orig: seq<NodeDef>, flags: Flags, d: ViewDefinition, q: nat, q': nat)
    requires Built(orig, flags, d) && q < q' < |orig| && |d.reverseChildNodes| == |orig|
    requires d.reverseChildNodes[q] < |orig|
    requires q' <= q + d.nodes[d.reverseChildNodes[q]].childCount
    ensures d.reverseChildNodes[q] < d.reverseChildNodes[q'] <=
            d.reverseChildNodes[q] + d.nodes[d.reverseChildNodes[q]].childCount
  {
    BuiltReversePermutation(orig, flags, d);
    var k, j := d.reverseChildNodes[q], d.reverseChildNodes[q'];
    assert d.nodes[k].reverseChildIndex == q && d.nodes[j].reverseChildIndex == q';
    if j < k {
      BuiltReverseOrder(orig, flags, d, j, k);
    } else if j > k + d.nodes[k].childCount {
      BuiltReverseOrder(orig, flags, d, k, j);
    } else {
      assert j != k;
    }
  }

  /** Every definition viewDef returns has the shape the runtime walks. */
  lemma BuiltWalkable(orig: seq<NodeDef>, flags: Flags, d: ViewDefinition)
    requires Built(orig, flags, d)
    ensures Walkable(d)
  {
    forall k | 0 <= k < |d.nodes|
      ensures d.nodes[k].index == k
    {
      assert PlacedNode(orig, k, d.nodes[k]);
    }
    BuiltAggregated(orig, flags, d);
    BuiltReverseBlocks(orig, flags, d);
  }

  /**
   * Whatever an element's public or all-providers table yields for a token,
   * through its prototype chain, is a provider or directive node registered
   * under that token.
   */
  lemma BuiltProviderLookup(orig: seq<NodeDef>, flags: Flags, d: ViewDefinition, k: nat, token: Token, all: bool)
    requires Built(orig, flags, d) && k < |orig| && orig[k].element.Some?
    ensures d.nodes[k].element.Some?
    ensures var el := d.nodes[k].element.value;
            var t := if all then el.allProviders else el.publicProviders;
            t < |d.providerTables| &&
            (Lookup(d.providerTables, t, token).Some? ==>
               var j := Lookup(d.providerTables, t, token).value;
               j < |d.nodes| && d.nodes[j].nodeType in {Provider, Directive} &&
               d.nodes[j].provider.Some? && d.nodes[j].provider.value.token == token)
  {
    var el := d.nodes[k].element.value;
    var t := if all then el.allProviders else el.publicProviders;
    var tables := d.providerTables;
    if Lookup(tables, t, token).Some? {
      LookupFromEntry(tables, t, token);
      var u :| 0 <= u <= t && token in tables[u].entries && tables[u].entries[token] == Lookup(tables, t, token).value;
      var j := tables[u].entries[token];
      assert ProvidesAt(orig, j, token, |orig|);
      assert PlacedNode(orig, j, d.nodes[j]);
    }
  }
}
