/**
 * What viewDef (core/src/view/view.ts:24-144) computes for every node, stated
 * as functions of the depth-first node list: parent, offsets, the reverse
 * child index, aggregated child flags, and the checks of validateNode.
 */
module ViewDefSpec {
  import opened Wrappers
  import opened ViewTypes

  /** Last depth-first index covered by node i and its transitive children. */
  function End(ns: seq<NodeDef>, i: nat): int
    requires i < |ns|
  {
    i + ns[i].childCount
  }

  /** Node j has node i among its transitive children. */
  predicate Encloses(ns: seq<NodeDef>, j: nat, i: nat)
    requires j < |ns|
  {
    j < i <= End(ns, j)
  }

  /** The nearest node before i whose range covers i, scanning down from j. */
  function ParentScan(ns: seq<NodeDef>, i: nat, j: nat): (r: Option<nat>)
    requires i < |ns| && j <= i
    ensures r.Some? ==> r.value < j && Encloses(ns, r.value, i)
    ensures r.Some? ==> forall q :: r.value < q < j ==> !Encloses(ns, q, i)
    ensures r.None? ==> forall q :: 0 <= q < j ==> !Encloses(ns, q, i)
  {
    if j == 0 then None
    else if Encloses(ns, j - 1, i) then Some(j - 1)
    else ParentScan(ns, i, j - 1)
  }

  /**
   * The parent viewDef gives node i: the nearest earlier node whose
   * childCount range covers i, or none for a root node.
   */
  function ParentOf(ns: seq<NodeDef>, i: nat): (r: Option<nat>)
    requires i < |ns|
    ensures r.Some? ==> r.value < i && Encloses(ns, r.value, i)
    ensures r.Some? ==> forall q :: r.value < q < i ==> !Encloses(ns, q, i)
    ensures r.None? ==> forall q :: 0 <= q < i ==> !Encloses(ns, q, i)
  {
    ParentScan(ns, i, i)
  }

  /** The end validateNode compares a node's range against. */
  function ParentEnd(ns: seq<NodeDef>, i: nat): int
    requires i < |ns|
  {
    match ParentOf(ns, i)
    case None => |ns| - 1
    case Some(p) => End(ns, p)
  }

  /** The childCount ranges of the first m nodes nest inside their parents'. */
  predicate NestedUpTo(ns: seq<NodeDef>, m: nat)
    requires m <= |ns|
  {
    forall i :: 0 <= i < m ==> End(ns, i) <= ParentEnd(ns, i)
  }

  /** A node with a name-less element is an ng-container. */
  predicate IsNgContainer(n: NodeDef)
  {
    n.nodeType == Element && n.element.Some? &&
    (n.element.value.name.None? || n.element.value.name.value == "")
  }

  /**
   * The render parent of node i: its parent, or, when the parent is an
   * ng-container, the parent's own render parent.
   */
  function RenderParentOf(ns: seq<NodeDef>, i: nat): (r: Option<nat>)
    requires i < |ns|
    ensures r.Some? ==> r.value < i && !IsNgContainer(ns[r.value])
    decreases i
  {
    match ParentOf(ns, i)
    case None => None
    case Some(p) => if IsNgContainer(ns[p]) then RenderParentOf(ns, p) else Some(p)
  }

  /** Sum of bindings.length over the nodes before i. */
  function BindingsBefore(ns: seq<NodeDef>, i: nat): nat
    requires i <= |ns|
  {
    if i == 0 then 0 else BindingsBefore(ns, i - 1) + |ns[i - 1].bindings|
  }

  /** Sum of disposableCount over the nodes before i. */
  function DisposablesBefore(ns: seq<NodeDef>, i: nat): nat
    requires i <= |ns|
  {
    if i == 0 then 0 else DisposablesBefore(ns, i - 1) + ns[i - 1].disposableCount
  }

  /** OR of the flags of the nodes lo .. hi-1. */
  function FlagsIn(ns: seq<NodeDef>, lo: nat, hi: nat): Flags
    requires lo <= hi <= |ns|
    decreases hi
  {
    if lo == hi then 0 else Union(FlagsIn(ns, lo, hi - 1), ns[hi - 1].flags)
  }

  /** A range's OR is the OR of its two halves. */
  lemma {:induction false} FlagsInSplit(ns: seq<NodeDef>, lo: nat, mid: nat, hi: nat)
    requires lo <= mid <= hi <= |ns|
    ensures FlagsIn(ns, lo, hi) == Union(FlagsIn(ns, lo, mid), FlagsIn(ns, mid, hi))
    decreases hi
  {
    if mid < hi {
      FlagsInSplit(ns, lo, mid, hi - 1);
      UnionAssoc(FlagsIn(ns, lo, mid), FlagsIn(ns, mid, hi - 1), ns[hi - 1].flags);
    } else {
      UnionUnit(FlagsIn(ns, lo, mid));
    }
  }

  /**
   * No information is lost in the OR: a range's aggregated flags hit a mask
   * exactly when one of its nodes' flags does.
   */
  lemma {:induction false} FlagsInHas(ns: seq<NodeDef>, lo: nat, hi: nat, mask: Flags)
    requires lo <= hi <= |ns|
    ensures Has(FlagsIn(ns, lo, hi), mask) <==> exists k :: lo <= k < hi && Has(ns[k].flags, mask)
    decreases hi
  {
    if lo < hi {
      FlagsInHas(ns, lo, hi - 1, mask);
      HasOr(FlagsIn(ns, lo, hi - 1), ns[hi - 1].flags, mask);
    } else {
      assert FlagsIn(ns, lo, hi) & mask == 0;
    }
  }

  /**
   * calculateReverseChildIndex (view.ts:146-183): the parent's end in
   * reverse child order minus the node's last-child offset inside the parent.
   */
  function CalculateReverseChildIndex(currentParent: Option<NodeDef>, i: int, childCount: int, nodeCount: int): int
  {
    match currentParent
    case Some(p) => (p.reverseChildIndex + p.childCount) - (i + childCount - p.index - 1)
    case None => (nodeCount - 1) - (i + childCount)
  }

  /** The reverse child index viewDef assigns to node i. */
  function ReverseIndex(ns: seq<NodeDef>, i: nat): int
    requires i < |ns|
    decreases i
  {
    match ParentOf(ns, i)
    case None => CalculateReverseChildIndex(None, i, ns[i].childCount, |ns|)
    case Some(p) =>
      CalculateReverseChildIndex(Some(ns[p].(index := p, reverseChildIndex := ReverseIndex(ns, p))),
                                 i, ns[i].childCount, |ns|)
  }

  /** Reverse index in terms of the parent's: rci(p) + End(p) + 1 - End(i). */
  lemma ReverseIndexStep(ns: seq<NodeDef>, i: nat)
    requires i < |ns|
    ensures ParentOf(ns, i).None? ==> ReverseIndex(ns, i) == |ns| - 1 - End(ns, i)
    ensures ParentOf(ns, i).Some? ==>
              ReverseIndex(ns, i) == ReverseIndex(ns, ParentOf(ns, i).value) + End(ns, ParentOf(ns, i).value) + 1 - End(ns, i)
  {
  }

  /** A nested range lies inside every range that covers it. */
  lemma {:induction false} NestedInEncloser(ns: seq<NodeDef>, q: nat, i: nat)
    requires i < |ns| && q < |ns| && NestedUpTo(ns, i + 1) && Encloses(ns, q, i)
    ensures End(ns, i) <= End(ns, q)
    decreases i
  {
    var p := ParentOf(ns, i).value;
    assert End(ns, i) <= End(ns, p);
    if q != p {
      assert q < p;
      NestedInEncloser(ns, q, p);
    }
  }

  /** Every reverse index is at least |ns| - 1 - End(i). */
  lemma {:induction false} ReverseIndexLower(ns: seq<NodeDef>, i: nat)
    requires i < |ns| && NestedUpTo(ns, i + 1)
    ensures ReverseIndex(ns, i) >= |ns| - 1 - End(ns, i)
    decreases i
  {
    ReverseIndexStep(ns, i);
    if ParentOf(ns, i).Some? {
      ReverseIndexLower(ns, ParentOf(ns, i).value);
    }
  }

  /** Below a covering node q, the reverse index is at least rci(q) + End(q) + 1 - End(i). */
  lemma {:induction false} ReverseIndexBelow(ns: seq<NodeDef>, q: nat, i: nat)
    requires i < |ns| && q < |ns| && NestedUpTo(ns, i + 1) && Encloses(ns, q, i)
    ensures ReverseIndex(ns, i) >= ReverseIndex(ns, q) + End(ns, q) + 1 - End(ns, i)
    decreases i
  {
    ReverseIndexStep(ns, i);
    var p := ParentOf(ns, i).value;
    if p != q {
      assert q < p;
      ReverseIndexBelow(ns, q, p);
    }
  }

  /** Below a covering node q, the reverse range ends no later than q's. */
  lemma {:induction false} ReverseIndexWithin(ns: seq<NodeDef>, q: nat, i: nat)
    requires i < |ns| && q < |ns| && NestedUpTo(ns, i + 1) && Encloses(ns, q, i)
    ensures ReverseIndex(ns, i) + ns[i].childCount <= ReverseIndex(ns, q) + ns[q].childCount
    decreases i
  {
    ReverseIndexStep(ns, i);
    var p := ParentOf(ns, i).value;
    if p != q {
      assert q < p;
      ReverseIndexWithin(ns, q, p);
    }
  }

  /** Node i and its childCount descendants fit inside 0 .. |ns|-1 in reverse child order. */
  lemma {:induction false} ReverseIndexInRange(ns: seq<NodeDef>, i: nat)
    requires i < |ns| && NestedUpTo(ns, i + 1)
    ensures 0 <= ReverseIndex(ns, i)
    ensures ReverseIndex(ns, i) + ns[i].childCount <= |ns| - 1
  {
    ReverseIndexLower(ns, i);
    ReverseIndexStep(ns, i);
    match ParentOf(ns, i)
    case None =>
    case Some(p) =>
      ReverseIndexWithin(ns, p, i);
      ReverseIndexInRange(ns, p);
  }

  /**
   * In reverse child order a node comes directly before its descendants:
   * a descendant j of i lands strictly after i and inside i's range.
   */
  lemma ReverseIndexDescendant(ns: seq<NodeDef>, i: nat, j: nat)
    requires j < |ns| && i < |ns| && NestedUpTo(ns, j + 1) && Encloses(ns, i, j)
    ensures ReverseIndex(ns, i) < ReverseIndex(ns, j)
    ensures ReverseIndex(ns, j) + ns[j].childCount <= ReverseIndex(ns, i) + ns[i].childCount
  {
    ReverseIndexBelow(ns, i, j);
    NestedInEncloser(ns, i, j);
    ReverseIndexWithin(ns, i, j);
  }

  /**
   * Sibling subtrees are mirrored: a node j that follows the whole subtree of
   * i in depth-first order comes, with its own subtree, before i.
   */
  lemma {:induction false} ReverseIndexAfter(ns: seq<NodeDef>, i: nat, j: nat)
    requires j < |ns| && i < j && NestedUpTo(ns, j + 1) && End(ns, i) < j
    ensures ReverseIndex(ns, j) + ns[j].childCount < ReverseIndex(ns, i)
    decreases j
  {
    ReverseIndexStep(ns, j);
    match ParentOf(ns, j)
    case None =>
      ReverseIndexLower(ns, i);
    case Some(q) =>
      if q > End(ns, i) {
        ReverseIndexAfter(ns, i, q);
      } else if q > i {
        NestedInEncloser(ns, i, q);
        NestedInEncloser(ns, q, j);
        assert false;
      } else {
        assert q < i;
        ReverseIndexBelow(ns, q, i);
      }
  }

  /** Different nodes get different reverse indices. */
  lemma ReverseIndexInjective(ns: seq<NodeDef>, i: nat, j: nat)
    requires i < |ns| && j < |ns| && i != j
    requires NestedUpTo(ns, if i < j then j + 1 else i + 1)
    ensures ReverseIndex(ns, i) != ReverseIndex(ns, j)
  {
    var a, b := if i < j then i else j, if i < j then j else i;
    if b <= End(ns, a) {
      ReverseIndexDescendant(ns, a, b);
    } else {
      ReverseIndexAfter(ns, a, b);
    }
  }

  /** No value occurs twice in s. */
  predicate Distinct(s: seq<int>)
  {
    forall i, j :: 0 <= i < j < |s| ==> s[i] != s[j]
  }

  /**
   * Pigeonhole: |s| different values taken from 0 .. |s|-1 take every one of
   * those values.
   */
  lemma {:induction false} Pigeonhole(s: seq<int>, r: int)
    requires forall i :: 0 <= i < |s| ==> 0 <= s[i] < |s|
    requires Distinct(s)
    requires 0 <= r < |s|
    ensures exists i :: 0 <= i < |s| && s[i] == r
    decreases |s|
  {
    var n := |s|;
    var last := s[n - 1];
    if r == last {
      assert s[n - 1] == r;
    } else {
      // drop the last slot, moving the value n-1 onto the value it displaced
      var t := seq(n - 1, i requires 0 <= i < n - 1 => if s[i] == n - 1 then last else s[i]);
      assert forall i :: 0 <= i < n - 1 ==> 0 <= t[i] < n - 1;
      assert Distinct(t);
      var target := if r == n - 1 then last else r;
      Pigeonhole(t, target);
      var i :| 0 <= i < n - 1 && t[i] == target;
      if r == n - 1 {
        assert s[i] == n - 1;
      } else {
        assert s[i] == r;
      }
    }
  }

  /** Some node is placed at position r in reverse child order. */
  predicate Occupied(ns: seq<NodeDef>, r: int)
  {
    exists i :: 0 <= i < |ns| && ReverseIndex(ns, i) == r
  }

  /**
   * In a nested node list the reverse child index is a permutation of
   * 0 .. |ns|-1: every position in reverse child order holds exactly one node.
   */
  lemma ReverseIndexPermutation(ns: seq<NodeDef>)
    requires NestedUpTo(ns, |ns|)
    ensures forall i :: 0 <= i < |ns| ==> 0 <= ReverseIndex(ns, i) < |ns|
    ensures forall i, j :: 0 <= i < j < |ns| ==> ReverseIndex(ns, i) != ReverseIndex(ns, j)
    ensures forall r :: 0 <= r < |ns| ==> Occupied(ns, r)
  {
    forall i | 0 <= i < |ns|
      ensures 0 <= ReverseIndex(ns, i) < |ns|
    {
      ReverseIndexInRange(ns, i);
    }
    forall i, j | 0 <= i < j < |ns|
      ensures ReverseIndex(ns, i) != ReverseIndex(ns, j)
    {
      ReverseIndexInjective(ns, i, j);
    }
    var order := seq(|ns|, i requires 0 <= i < |ns| => ReverseIndex(ns, i));
    forall r | 0 <= r < |ns|
      ensures Occupied(ns, r)
    {
      Pigeonhole(order, r);
      var i :| 0 <= i < |ns| && order[i] == r;
      assert ReverseIndex(ns, i) == r;
    }
  }

  datatype ViewDefError =
    | EmptyView
    | LastRootHasEmbeddedViews(index: int)
    | ProviderOutsideElement(index: int)
    | ContentQueryOutsideDirective(index: int)
    | ViewQueryNotTopLevel(index: int)
    | ChildCountOutsideParent(index: int)
    /** reading `element` of a parent that has none (a TypeError in the code) */
    | ParentHasNoElement(index: int)

  /**
   * validateNode (view.ts:185-217), checks in the code's order; None when the
   * node is accepted.
   */
  function ValidateNode(parent: Option<NodeDef>, node: NodeDef, nodeCount: int): (r: Option<ViewDefError>)
    ensures r.Some? ==> !r.value.EmptyView? && r.value.index == node.index
    ensures node.element.Some? && node.element.value.template.Some? &&
            node.element.value.template.value.lastRootNodeFlags.Some? &&
            Has(node.element.value.template.value.lastRootNodeFlags.value, HasEmbeddedViews) ==>
              r == Some(LastRootHasEmbeddedViews(node.index))
    ensures node.nodeType in {Provider, Directive} && (parent.None? || parent.value.nodeType != Element) ==> r.Some?
    ensures node.query.Some? && Has(node.flags, HasContentQuery) && (parent.None? || parent.value.nodeType != Directive) ==>
              r.Some?
    ensures node.query.Some? && Has(node.flags, HasViewQuery) && parent.Some? ==> r.Some?
    ensures r.None? && node.childCount > 0 && parent.Some? && node.index <= parent.value.index + parent.value.childCount ==>
              node.index + node.childCount <= parent.value.index + parent.value.childCount
  {
    if node.element.Some? && node.element.value.template.Some? &&
       node.element.value.template.value.lastRootNodeFlags.Some? &&
       Has(node.element.value.template.value.lastRootNodeFlags.value, HasEmbeddedViews)
    then Some(LastRootHasEmbeddedViews(node.index))
    else if node.nodeType in {Provider, Directive} && (parent.None? || parent.value.nodeType != Element)
    then Some(ProviderOutsideElement(node.index))
    else if node.query.Some? && Has(node.flags, HasContentQuery) && (parent.None? || parent.value.nodeType != Directive)
    then Some(ContentQueryOutsideDirective(node.index))
    else if node.query.Some? && Has(node.flags, HasViewQuery) && parent.Some?
    then Some(ViewQueryNotTopLevel(node.index))
    else if node.childCount > 0 &&
            var parentEnd := if parent.Some? then parent.value.index + parent.value.childCount else nodeCount - 1;
            node.index <= parentEnd && node.index + node.childCount > parentEnd
    then Some(ChildCountOutsideParent(node.index))
    else None
  }

  /** The input fields of a node, which viewDef reads but never writes. */
  predicate SameInput(a: NodeDef, b: NodeDef)
  {
    a.nodeType == b.nodeType && a.flags == b.flags && a.childCount == b.childCount &&
    a.bindings == b.bindings && a.disposableCount == b.disposableCount &&
    a.provider == b.provider && a.query == b.query &&
    a.element.Some? == b.element.Some? &&
    (a.element.Some? ==> a.element.value.name == b.element.value.name &&
                         a.element.value.template == b.element.value.template)
  }

  /** validateNode only reads the type, index and childCount of the parent and a few node fields. */
  lemma ValidateNodeReads(p1: Option<NodeDef>, p2: Option<NodeDef>, n1: NodeDef, n2: NodeDef, count: int)
    requires p1.Some? == p2.Some?
    requires p1.Some? ==> p1.value.nodeType == p2.value.nodeType && p1.value.index == p2.value.index &&
                          p1.value.childCount == p2.value.childCount
    requires SameInput(n1, n2) && n1.index == n2.index
    ensures ValidateNode(p1, n1, count) == ValidateNode(p2, n2, count)
  {
  }

  /** The parent node as validateNode sees it: input fields and its index. */
  function ParentNode(ns: seq<NodeDef>, i: nat): Option<NodeDef>
    requires i < |ns|
  {
    match ParentOf(ns, i)
    case None => None
    case Some(p) => Some(ns[p].(index := p))
  }

  /** The error viewDef raises at node i, given that every earlier node passed. */
  function NodeError(ns: seq<NodeDef>, i: nat): Option<ViewDefError>
    requires i < |ns|
  {
    var p := ParentOf(ns, i);
    if ns[i].element.Some? && p.Some? && ns[p.value].element.None? then Some(ParentHasNoElement(i))
    else ValidateNode(ParentNode(ns, i), ns[i].(index := i), |ns|)
  }

  /** Every node of the list passes viewDef's checks. */
  predicate Accepted(ns: seq<NodeDef>)
  {
    forall i :: 0 <= i < |ns| ==> NodeError(ns, i).None?
  }

  /** Node i is the first node viewDef rejects. */
  predicate FirstError(ns: seq<NodeDef>, i: nat)
  {
    i < |ns| && NodeError(ns, i).Some? && forall k :: 0 <= k < i ==> NodeError(ns, k).None?
  }

  /** Nodes that pass the childCount check have nested ranges. */
  lemma AcceptedNested(ns: seq<NodeDef>, m: nat)
    requires m <= |ns| && forall k :: 0 <= k < m ==> NodeError(ns, k).None?
    ensures NestedUpTo(ns, m)
  {
    forall k | 0 <= k < m
      ensures End(ns, k) <= ParentEnd(ns, k)
    {
      assert NodeError(ns, k).None?;
    }
  }

  /**
   * What acceptance guarantees about an accepted list: nested childCount
   * ranges, providers and directives under elements, content queries under
   * directives, view queries at the top level.
   */
  lemma AcceptedShape(ns: seq<NodeDef>, i: nat)
    requires Accepted(ns) && i < |ns|
    ensures NestedUpTo(ns, |ns|)
    ensures ns[i].nodeType in {Provider, Directive} ==>
              ParentOf(ns, i).Some? && ns[ParentOf(ns, i).value].nodeType == Element
    ensures ns[i].query.Some? && Has(ns[i].flags, HasContentQuery) ==>
              ParentOf(ns, i).Some? && ns[ParentOf(ns, i).value].nodeType == Directive
    ensures ns[i].query.Some? && Has(ns[i].flags, HasViewQuery) ==> ParentOf(ns, i).None?
  {
    AcceptedNested(ns, |ns|);
    assert NodeError(ns, i).None?;
  }

  /** The last node before m without a render parent. */
  function LastRootBefore(ns: seq<NodeDef>, m: nat): (r: Option<nat>)
    requires m <= |ns|
    ensures r.Some? ==> r.value < m && RenderParentOf(ns, r.value).None?
    ensures r.Some? ==> forall k :: r.value < k < m ==> RenderParentOf(ns, k).Some?
  {
    if m == 0 then None
    else if RenderParentOf(ns, m - 1).None? then Some(m - 1)
    else LastRootBefore(ns, m - 1)
  }

  /** Node k is a component provider or directive whose parent is p. */
  predicate IsComponentChild(ns: seq<NodeDef>, p: nat, k: nat)
    requires k < |ns|
  {
    ParentOf(ns, k) == Some(p) && ns[k].nodeType in {Provider, Directive} && Has(ns[k].flags, HasComponent)
  }

  /** The last component child of p before m, or init when there is none. */
  function ComponentOf(ns: seq<NodeDef>, p: nat, m: nat, init: Option<nat>): (r: Option<nat>)
    requires m <= |ns|
    ensures r != init ==> r.Some? && r.value < m && IsComponentChild(ns, p, r.value)
  {
    if m == 0 then init
    else if IsComponentChild(ns, p, m - 1) then Some(m - 1)
    else ComponentOf(ns, p, m - 1, init)
  }

  /** Nothing before or at p is a child of p. */
  lemma {:induction false} ComponentOfNone(ns: seq<NodeDef>, p: nat, m: nat, init: Option<nat>)
    requires m <= |ns| && m <= p + 1
    ensures ComponentOf(ns, p, m, init) == init
  {
    if m > 0 {
      ComponentOfNone(ns, p, m - 1, init);
    }
  }
}
