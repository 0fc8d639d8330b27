/**
 * viewDef (core/src/view/view.ts:24-144): one pass over the depth-first node
 * array that fills in each node's computed fields in place, keeping a cursor
 * on the current parent and running counters, and rejects malformed arrays.
 */
module ViewDefBuilder {
  import opened Wrappers
  import opened ViewTypes
  import opened ViewDefSpec
  import opened ProviderTables

  /** The fields viewDef computes for node k, as functions of the input list. */
  ghost predicate PlacedNode(orig: seq<NodeDef>, k: nat, node: NodeDef)
    requires k < |orig|
  {
    SameInput(orig[k], node) &&
    node.index == k &&
    node.parent == ParentOf(orig, k) &&
    node.renderParent == RenderParentOf(orig, k) &&
    node.bindingIndex == BindingsBefore(orig, k) &&
    node.disposableIndex == DisposablesBefore(orig, k) &&
    node.reverseChildIndex == ReverseIndex(orig, k)
  }

  /**
   * The parent cursor's chain, bottom to top: the nodes before i with children
   * whose range reaches at least `low`, each linked to the one below by its
   * parent field, with ranges nesting inward; every such node whose range
   * reaches `full` is on it.
   */
  ghost predicate OpenStack(orig: seq<NodeDef>, cur: seq<NodeDef>, i: nat, stack: seq<nat>, low: int, full: int)
    requires |cur| == |orig| && i <= |orig|
  {
    StackShape(stack, i) && StackRanges(orig, stack, low) && StackLinks(orig, cur, stack) &&
    StackComplete(orig, i, stack, full)
  }

  /** Every open node has children and a range reaching at least `low`. */
  ghost predicate StackRanges(orig: seq<NodeDef>, stack: seq<nat>, low: int)
  {
    forall m :: 0 <= m < |stack| ==> stack[m] < |orig| && orig[stack[m]].childCount > 0 && End(orig, stack[m]) >= low
  }

  /** Each open node's parent is the one below it, whose range contains its own; the bottom is a root. */
  ghost predicate StackLinks(orig: seq<NodeDef>, cur: seq<NodeDef>, stack: seq<nat>)
    requires |cur| == |orig|
  {
    (forall m :: 0 <= m < |stack| ==> stack[m] < |orig|) &&
    (forall m :: 0 < m < |stack| ==>
       cur[stack[m]].parent == Some(stack[m - 1]) && End(orig, stack[m]) <= End(orig, stack[m - 1])) &&
    (|stack| > 0 ==> cur[stack[0]].parent == None)
  }

  /** Every node before i with children whose range reaches `full` is open. */
  ghost predicate StackComplete(orig: seq<NodeDef>, i: nat, stack: seq<nat>, full: int)
    requires i <= |orig|
  {
    forall k :: 0 <= k < i && orig[k].childCount > 0 && End(orig, k) >= full ==> k in stack
  }

  /** The stack indices are below i and strictly increasing. */
  ghost predicate StackShape(stack: seq<nat>, i: nat)
  {
    (forall m :: 0 <= m < |stack| ==> stack[m] < i) &&
    (forall m, m' :: 0 <= m < m' < |stack| ==> stack[m] < stack[m'])
  }

  /** A node before i that is off the stack is closed: it holds the OR over its whole range. */
  ghost predicate ClosedFlags(orig: seq<NodeDef>, cur: seq<NodeDef>, i: nat, stack: seq<nat>)
    requires |cur| == |orig| && i <= |orig|
  {
    forall k :: 0 <= k < i && k !in stack ==>
      End(orig, k) < |orig| && cur[k].childFlags == FlagsIn(orig, k + 1, End(orig, k) + 1)
  }

  /** An open node below the top holds the OR up to and including its open child. */
  ghost predicate InnerFlags(orig: seq<NodeDef>, cur: seq<NodeDef>, i: nat, stack: seq<nat>)
    requires |cur| == |orig| && i <= |orig| && StackShape(stack, i)
  {
    forall m :: 0 <= m < |stack| - 1 ==>
      cur[stack[m]].childFlags == FlagsIn(orig, stack[m] + 1, stack[m + 1] + 1)
  }

  /** The top holds the OR of the nodes after it up to i. */
  ghost predicate TopFlags(orig: seq<NodeDef>, cur: seq<NodeDef>, i: nat, stack: seq<nat>)
    requires |cur| == |orig| && i <= |orig| && StackShape(stack, i)
  {
    |stack| > 0 ==> cur[stack[|stack| - 1]].childFlags == FlagsIn(orig, stack[|stack| - 1] + 1, i)
  }

  /**
   * childFlags so far: a closed node holds the OR over its whole range; an
   * open node the OR up to its open child; the top the OR up to i.
   */
  ghost predicate ChildFlagsSoFar(orig: seq<NodeDef>, cur: seq<NodeDef>, i: nat, stack: seq<nat>)
    requires |cur| == |orig| && i <= |orig| && StackShape(stack, i)
  {
    ClosedFlags(orig, cur, i, stack) && InnerFlags(orig, cur, i, stack) && TopFlags(orig, cur, i, stack)
  }

  ghost predicate Building(orig: seq<NodeDef>, cur: seq<NodeDef>, i: nat, stack: seq<nat>, low: int, full: int)
    requires |cur| == |orig| && i <= |orig|
  {
    OpenStack(orig, cur, i, stack, low, full) &&
    ChildFlagsSoFar(orig, cur, i, stack) &&
    (forall k :: i <= k < |orig| ==> cur[k].childFlags == 0)
  }

  /** The cursor is the top of the chain. */
  predicate IsTop(cp: Option<nat>, stack: seq<nat>)
  {
    if |stack| == 0 then cp.None? else cp == Some(stack[|stack| - 1])
  }

  /** Changing only childFlags keeps the chain: it reads parent fields only. */
  lemma OpenStackFrame(orig: seq<NodeDef>, cur: seq<NodeDef>, cur': seq<NodeDef>, i: nat, stack: seq<nat>, low: int, full: int)
    requires |cur| == |orig| == |cur'| && i <= |orig|
    requires forall k :: 0 <= k < |cur| ==> cur'[k].parent == cur[k].parent
    requires OpenStack(orig, cur, i, stack, low, full)
    ensures OpenStack(orig, cur', i, stack, low, full)
  {
  }

  /** Two adjacent ranges' ORs combine into the OR of their union. */
  lemma FlagsInJoin(orig: seq<NodeDef>, lo: nat, mid: nat, hi: nat, a: Flags, b: Flags)
    requires lo <= mid <= hi <= |orig|
    requires a == FlagsIn(orig, lo, mid) && b == FlagsIn(orig, mid, hi)
    ensures Union(a, b) == FlagsIn(orig, lo, hi)
  {
    FlagsInSplit(orig, lo, mid, hi);
  }

  /** The update CloseTop makes: only the new top's childFlags change, by OR-ing in the old top's. */
  ghost predicate ClosedInto(cur: seq<NodeDef>, stack: seq<nat>, cur': seq<NodeDef>)
    requires |stack| > 0 && |cur| == |cur'|
    requires forall m :: 0 <= m < |stack| ==> stack[m] < |cur|
  {
    if |stack| == 1 then cur' == cur
    else
      var p, top := stack[|stack| - 2], stack[|stack| - 1];
      (forall k :: 0 <= k < |cur| && k != p ==> cur'[k] == cur[k]) &&
      cur'[p] == cur[p].(childFlags := Union(cur[p].childFlags, cur[top].childFlags))
  }

  lemma ClosedIntoUpdate(cur: seq<NodeDef>, stack: seq<nat>, cur': seq<NodeDef>)
    requires |stack| > 1 && |cur| == |cur'|
    requires forall m :: 0 <= m < |stack| ==> stack[m] < |cur|
    requires cur' == cur[stack[|stack| - 2] := cur[stack[|stack| - 2]].(childFlags := Union(cur[stack[|stack| - 2]].childFlags, cur[stack[|stack| - 1]].childFlags))]
    ensures ClosedInto(cur, stack, cur')
  {
  }

  /** Popping the top keeps the rest of the chain. */
  lemma CloseTopStack(orig: seq<NodeDef>, cur: seq<NodeDef>, i: nat, stack: seq<nat>, cur': seq<NodeDef>)
    requires |cur| == |orig| == |cur'| && i <= |orig|
    requires OpenStack(orig, cur, i, stack, i - 1, i)
    requires |stack| > 0 && End(orig, stack[|stack| - 1]) < i
    requires forall k :: 0 <= k < |cur| ==> cur'[k].parent == cur[k].parent
    ensures OpenStack(orig, cur', i, stack[..|stack| - 1], i - 1, i)
  {
    OpenStackFrame(orig, cur, cur', i, stack, i - 1, i);
  }

  lemma CloseTopClosed(orig: seq<NodeDef>, cur: seq<NodeDef>, i: nat, stack: seq<nat>, cur': seq<NodeDef>)
    requires |cur| == |orig| == |cur'| && i <= |orig| && StackShape(stack, i)
    requires ClosedFlags(orig, cur, i, stack) && TopFlags(orig, cur, i, stack)
    requires |stack| > 0 && End(orig, stack[|stack| - 1]) == i - 1
    requires ClosedInto(cur, stack, cur')
    ensures ClosedFlags(orig, cur', i, stack[..|stack| - 1])
  {
    var top := stack[|stack| - 1];
    forall k | 0 <= k < i && k !in stack[..|stack| - 1]
      ensures End(orig, k) < |orig| && cur'[k].childFlags == FlagsIn(orig, k + 1, End(orig, k) + 1)
    {
      if k != top {
        assert k !in stack;
        assert |stack| > 1 ==> k != stack[|stack| - 2];
      }
    }
  }

  lemma CloseTopInner(orig: seq<NodeDef>, cur: seq<NodeDef>, i: nat, stack: seq<nat>, cur': seq<NodeDef>)
    requires |cur| == |orig| == |cur'| && i <= |orig| && StackShape(stack, i)
    requires InnerFlags(orig, cur, i, stack)
    requires |stack| > 0
    requires ClosedInto(cur, stack, cur')
    ensures InnerFlags(orig, cur', i, stack[..|stack| - 1])
  {
    var stack' := stack[..|stack| - 1];
    forall m | 0 <= m < |stack'| - 1
      ensures cur'[stack'[m]].childFlags == FlagsIn(orig, stack'[m] + 1, stack'[m + 1] + 1)
    {
      assert stack'[m] == stack[m] && stack'[m + 1] == stack[m + 1];
      assert stack[m] < stack[|stack| - 2];
    }
  }

  lemma CloseTopTop(orig: seq<NodeDef>, cur: seq<NodeDef>, i: nat, stack: seq<nat>, cur': seq<NodeDef>)
    requires |cur| == |orig| == |cur'| && i <= |orig| && StackShape(stack, i)
    requires InnerFlags(orig, cur, i, stack) && TopFlags(orig, cur, i, stack)
    requires |stack| > 0 && End(orig, stack[|stack| - 1]) == i - 1
    requires ClosedInto(cur, stack, cur')
    ensures TopFlags(orig, cur', i, stack[..|stack| - 1])
  {
    if |stack| > 1 {
      var p, top := stack[|stack| - 2], stack[|stack| - 1];
      var a, b := cur[p].childFlags, cur[top].childFlags;
      assert a == FlagsIn(orig, p + 1, top + 1);
      assert b == FlagsIn(orig, top + 1, i);
      FlagsInJoin(orig, p + 1, top + 1, i, a, b);
      assert cur'[p].childFlags == Union(a, b);
      assert stack[..|stack| - 1][|stack| - 2] == p;
    }
  }

  /** What popping does to the node list: the parent, if any, ORs in the top's childFlags. */
  function Popped(cur: seq<NodeDef>, top: nat): seq<NodeDef>
    requires top < |cur| && (cur[top].parent.Some? ==> cur[top].parent.value < |cur|)
  {
    if cur[top].parent.None? then cur
    else
      var p := cur[top].parent.value;
      cur[p := cur[p].(childFlags := Union(cur[p].childFlags, cur[top].childFlags))]
  }

  /**
   * The climb's write (view.ts:43-48, 127-132): the parent, if any, ORs in the
   * popped node's childFlags, and the cursor moves to that parent.
   */
  method OrIntoParent(nodes: array<NodeDef>, top: nat) returns (newParent: Option<nat>)
    requires top < nodes.Length && (nodes[top].parent.Some? ==> nodes[top].parent.value < nodes.Length)
    modifies nodes
    ensures newParent == old(nodes[top].parent)
    ensures nodes[..] == Popped(old(nodes[..]), top)
  {
    ghost var cur := nodes[..];
    newParent := nodes[top].parent;
    if newParent.Some? {
      var p := newParent.value;
      var updated := nodes[p].(childFlags := Union(nodes[p].childFlags, nodes[top].childFlags));
      nodes[p] := updated;
      assert nodes[..] == cur[p := updated];
      assert updated == cur[p].(childFlags := Union(cur[p].childFlags, cur[top].childFlags));
    } else {
      assert nodes[..] == cur;
    }
  }

  /** Popping a top whose range ended at i - 1 keeps the builder's invariant, one level down. */
  lemma PopPreserves(orig: seq<NodeDef>, cur: seq<NodeDef>, i: nat, stack: seq<nat>)
    requires |cur| == |orig| && i <= |orig|
    requires Building(orig, cur, i, stack, i - 1, i)
    requires |stack| > 0 && End(orig, stack[|stack| - 1]) < i
    ensures var top := stack[|stack| - 1];
      top < |cur| && (cur[top].parent.Some? ==> cur[top].parent.value < |cur|) &&
      IsTop(cur[top].parent, stack[..|stack| - 1]) &&
      Building(orig, Popped(cur, top), i, stack[..|stack| - 1], i - 1, i)
  {
    var top := stack[|stack| - 1];
    assert End(orig, top) == i - 1;
    if |stack| > 1 {
      assert cur[top].parent == Some(stack[|stack| - 2]);
      ClosedIntoUpdate(cur, stack, Popped(cur, top));
    } else {
      assert cur[top].parent == None;
    }
    var cur' := Popped(cur, top);
    CloseTopStack(orig, cur, i, stack, cur');
    CloseTopClosed(orig, cur, i, stack, cur');
    CloseTopInner(orig, cur, i, stack, cur');
    CloseTopTop(orig, cur, i, stack, cur');
  }

  /** Ranges do not grow up the chain: every open node's range reaches at least as far as the top's. */
  lemma {:induction false} EndsAboveTop(orig: seq<NodeDef>, cur: seq<NodeDef>, i: nat, stack: seq<nat>, low: int, full: int, m: nat)
    requires |cur| == |orig| && i <= |orig|
    requires OpenStack(orig, cur, i, stack, low, full)
    requires m < |stack|
    ensures End(orig, stack[|stack| - 1]) <= End(orig, stack[m])
    decreases |stack| - m
  {
    if m < |stack| - 1 {
      EndsAboveTop(orig, cur, i, stack, low, full, m + 1);
    }
  }

  /**
   * Once the climb stops, the cursor is the parent of node i (view.ts:52),
   * and every open range reaches i.
   */
  lemma ParentFromStack(orig: seq<NodeDef>, cur: seq<NodeDef>, i: nat, stack: seq<nat>)
    requires |cur| == |orig| && i < |orig|
    requires OpenStack(orig, cur, i, stack, i - 1, i)
    requires |stack| > 0 ==> End(orig, stack[|stack| - 1]) >= i
    ensures ParentOf(orig, i) == (if |stack| == 0 then None else Some(stack[|stack| - 1]))
    ensures OpenStack(orig, cur, i, stack, i, i)
  {
    forall q | 0 <= q < i && Encloses(orig, q, i)
      ensures q in stack
    {
    }
    if |stack| > 0 {
      var top := stack[|stack| - 1];
      assert Encloses(orig, top, i);
      var r := ParentOf(orig, i);
      assert r.Some?;
      assert r.value in stack;
      forall m | 0 <= m < |stack|
        ensures End(orig, stack[m]) >= i
      {
        EndsAboveTop(orig, cur, i, stack, i - 1, i, m);
      }
    }
  }

  /**
   * How placing node i changes the links and flags viewDef maintains: node i
   * gets the cursor as parent and starts with no childFlags, the cursor ORs in
   * node i's flags (view.ts:80-81), and no other parent or childFlags changes.
   */
  ghost predicate StepFrame(orig: seq<NodeDef>, cur: seq<NodeDef>, i: nat, cp: Option<nat>, cur': seq<NodeDef>)
    requires |cur| == |orig| && i < |orig|
  {
    |cur'| == |cur| && (cp.Some? ==> cp.value < |cur|) &&
    (forall k :: 0 <= k < |cur| && k != i ==> cur'[k].parent == cur[k].parent) &&
    cur'[i].parent == cp && cur'[i].childFlags == 0 &&
    (forall k :: 0 <= k < |cur| && k != i && Some(k) != cp ==> cur'[k].childFlags == cur[k].childFlags) &&
    (cp.Some? ==> cur'[cp.value].childFlags == Union(cur[cp.value].childFlags, orig[i].flags))
  }

  /** The chain after node i: node i is pushed when it has children (view.ts:122-124). */
  function Pushed(orig: seq<NodeDef>, stack: seq<nat>, i: nat): seq<nat>
    requires i < |orig|
  {
    if orig[i].childCount > 0 then stack + [i] else stack
  }

  /** The links read only the parent fields of open nodes. */
  lemma StackLinksFrame(orig: seq<NodeDef>, cur: seq<NodeDef>, i: nat, stack: seq<nat>, cur': seq<NodeDef>)
    requires |cur| == |orig| == |cur'| && StackShape(stack, i) && StackLinks(orig, cur, stack)
    requires forall k :: 0 <= k < i && k < |cur| ==> cur'[k].parent == cur[k].parent
    ensures StackLinks(orig, cur', stack)
  {
  }

  /** A node whose parent is the top and whose range lies inside the top's extends the chain. */
  lemma StackLinksPush(orig: seq<NodeDef>, cur: seq<NodeDef>, stack: seq<nat>, i: nat)
    requires |cur| == |orig| && i < |orig| && StackLinks(orig, cur, stack)
    requires |stack| == 0 ==> cur[i].parent == None
    requires |stack| > 0 ==> cur[i].parent == Some(stack[|stack| - 1]) && End(orig, i) <= End(orig, stack[|stack| - 1])
    ensures StackLinks(orig, cur, stack + [i])
  {
    var stack' := stack + [i];
    forall m | 0 < m < |stack'|
      ensures cur[stack'[m]].parent == Some(stack'[m - 1]) && End(orig, stack'[m]) <= End(orig, stack'[m - 1])
    {
      if m < |stack| {
        assert stack'[m] == stack[m] && stack'[m - 1] == stack[m - 1];
      }
    }
  }

  lemma PushLinks(orig: seq<NodeDef>, cur: seq<NodeDef>, i: nat, stack: seq<nat>, cp: Option<nat>, cur': seq<NodeDef>)
    requires |cur| == |orig| && i < |orig| && NestedUpTo(orig, i + 1)
    requires StackShape(stack, i) && StackLinks(orig, cur, stack) && IsTop(cp, stack)
    requires ParentOf(orig, i) == cp
    requires StepFrame(orig, cur, i, cp, cur')
    ensures StackLinks(orig, cur', Pushed(orig, stack, i))
  {
    StackLinksFrame(orig, cur, i, stack, cur');
    if orig[i].childCount > 0 {
      assert End(orig, i) <= ParentEnd(orig, i);
      StackLinksPush(orig, cur', stack, i);
    }
  }

  lemma PushShape(orig: seq<NodeDef>, i: nat, stack: seq<nat>, full: int)
    requires i < |orig| && StackShape(stack, i) && StackRanges(orig, stack, i)
    requires StackComplete(orig, i, stack, i)
    ensures StackShape(Pushed(orig, stack, i), i + 1)
    ensures StackRanges(orig, Pushed(orig, stack, i), i)
    ensures StackComplete(orig, i + 1, Pushed(orig, stack, i), i + 1)
  {
    var stack' := Pushed(orig, stack, i);
    forall k | 0 <= k < i + 1 && orig[k].childCount > 0 && End(orig, k) >= i + 1
      ensures k in stack'
    {
      if k < i {
        assert k in stack;
      }
    }
  }

  lemma PushStack(orig: seq<NodeDef>, cur: seq<NodeDef>, i: nat, stack: seq<nat>, cp: Option<nat>, cur': seq<NodeDef>)
    requires |cur| == |orig| && i < |orig| && NestedUpTo(orig, i + 1)
    requires OpenStack(orig, cur, i, stack, i, i) && IsTop(cp, stack)
    requires ParentOf(orig, i) == cp
    requires StepFrame(orig, cur, i, cp, cur')
    ensures OpenStack(orig, cur', i + 1, Pushed(orig, stack, i), i, i + 1)
  {
    PushLinks(orig, cur, i, stack, cp, cur');
    PushShape(orig, i, stack, i);
  }

  lemma PushClosed(orig: seq<NodeDef>, cur: seq<NodeDef>, i: nat, stack: seq<nat>, cp: Option<nat>, cur': seq<NodeDef>)
    requires |cur| == |orig| && i < |orig| && StackShape(stack, i) && IsTop(cp, stack)
    requires ClosedFlags(orig, cur, i, stack)
    requires StepFrame(orig, cur, i, cp, cur')
    ensures StackShape(Pushed(orig, stack, i), i + 1)
    ensures ClosedFlags(orig, cur', i + 1, Pushed(orig, stack, i))
  {
    var stack' := Pushed(orig, stack, i);
    forall k | 0 <= k < i + 1 && k !in stack'
      ensures End(orig, k) < |orig| && cur'[k].childFlags == FlagsIn(orig, k + 1, End(orig, k) + 1)
    {
      if k < i {
        assert k !in stack;
      }
    }
  }

  lemma PushInner(orig: seq<NodeDef>, cur: seq<NodeDef>, i: nat, stack: seq<nat>, cp: Option<nat>, cur': seq<NodeDef>)
    requires |cur| == |orig| && i < |orig| && StackShape(stack, i) && IsTop(cp, stack)
    requires InnerFlags(orig, cur, i, stack) && TopFlags(orig, cur, i, stack)
    requires StepFrame(orig, cur, i, cp, cur')
    ensures StackShape(Pushed(orig, stack, i), i + 1)
    ensures InnerFlags(orig, cur', i + 1, Pushed(orig, stack, i))
  {
    if orig[i].childCount > 0 {
      InnerPush(orig, cur, i, stack, cp, cur');
    } else {
      InnerKeep(orig, cur, i, stack, cp, cur');
    }
  }

  /** A leaf leaves the open nodes below the top as they were. */
  lemma InnerKeep(orig: seq<NodeDef>, cur: seq<NodeDef>, i: nat, stack: seq<nat>, cp: Option<nat>, cur': seq<NodeDef>)
    requires |cur| == |orig| && i < |orig| && StackShape(stack, i) && IsTop(cp, stack)
    requires InnerFlags(orig, cur, i, stack)
    requires StepFrame(orig, cur, i, cp, cur')
    ensures StackShape(stack, i + 1) && InnerFlags(orig, cur', i + 1, stack)
  {
    forall m | 0 <= m < |stack| - 1
      ensures cur'[stack[m]].childFlags == FlagsIn(orig, stack[m] + 1, stack[m + 1] + 1)
    {
      assert stack[m] < stack[|stack| - 1];
    }
  }

  /** A node with children opens below the top, which then holds the OR up to and including it. */
  lemma InnerPush(orig: seq<NodeDef>, cur: seq<NodeDef>, i: nat, stack: seq<nat>, cp: Option<nat>, cur': seq<NodeDef>)
    requires |cur| == |orig| && i < |orig| && StackShape(stack, i) && IsTop(cp, stack)
    requires InnerFlags(orig, cur, i, stack) && TopFlags(orig, cur, i, stack)
    requires StepFrame(orig, cur, i, cp, cur')
    ensures StackShape(stack + [i], i + 1) && InnerFlags(orig, cur', i + 1, stack + [i])
  {
    var stack' := stack + [i];
    forall m | 0 <= m < |stack'| - 1
      ensures cur'[stack'[m]].childFlags == FlagsIn(orig, stack'[m] + 1, stack'[m + 1] + 1)
    {
      if m < |stack| - 1 {
        assert stack'[m] == stack[m] && stack'[m + 1] == stack[m + 1];
        assert stack[m] < stack[|stack| - 1];
      } else {
        var top := stack[|stack| - 1];
        assert stack'[m] == top && stack'[m + 1] == i;
        TopTakesNode(orig, cur[top].childFlags, cur'[top].childFlags, top, i);
      }
    }
  }

  /** The top's OR up to i, OR-ed with node i's flags, is its OR up to i + 1. */
  lemma TopTakesNode(orig: seq<NodeDef>, before: Flags, after: Flags, top: nat, i: nat)
    requires top < i < |orig| && before == FlagsIn(orig, top + 1, i) && after == Union(before, orig[i].flags)
    ensures after == FlagsIn(orig, top + 1, i + 1)
  {
  }

  lemma PushTop(orig: seq<NodeDef>, cur: seq<NodeDef>, i: nat, stack: seq<nat>, cp: Option<nat>, cur': seq<NodeDef>)
    requires |cur| == |orig| && i < |orig| && StackShape(stack, i) && IsTop(cp, stack)
    requires TopFlags(orig, cur, i, stack)
    requires forall k :: i <= k < |orig| ==> cur[k].childFlags == 0
    requires StepFrame(orig, cur, i, cp, cur')
    ensures StackShape(Pushed(orig, stack, i), i + 1)
    ensures TopFlags(orig, cur', i + 1, Pushed(orig, stack, i))
    ensures forall k :: i + 1 <= k < |orig| ==> cur'[k].childFlags == 0
  {
    if orig[i].childCount == 0 && |stack| > 0 {
      var top := stack[|stack| - 1];
      assert cur'[top].childFlags == Union(cur[top].childFlags, orig[i].flags);
    }
  }

  /** Placing node i and pushing it when it has children keeps the builder's invariant. */
  lemma PushPreserves(orig: seq<NodeDef>, cur: seq<NodeDef>, i: nat, stack: seq<nat>, cp: Option<nat>, cur': seq<NodeDef>)
    requires |cur| == |orig| && i < |orig| && NestedUpTo(orig, i + 1)
    requires Building(orig, cur, i, stack, i, i) && IsTop(cp, stack)
    requires ParentOf(orig, i) == cp
    requires StepFrame(orig, cur, i, cp, cur')
    ensures Building(orig, cur', i + 1, Pushed(orig, stack, i), i, i + 1)
  {
    PushStack(orig, cur, i, stack, cp, cur');
    PushClosed(orig, cur, i, stack, cp, cur');
    PushInner(orig, cur, i, stack, cp, cur');
    PushTop(orig, cur, i, stack, cp, cur');
  }

  /** The locals viewDef carries from node to node (view.ts:31-40). */
  datatype BuildState = BuildState(
    bindingCount: nat,
    disposableCount: nat,
    nodeFlags: Flags,
    currentParent: Option<nat>,
    /** whether the current element already has its own public / all-providers table */
    hasPublic: bool,
    hasPrivate: bool,
    lastRootNode: Option<nat>,
    /** every provider table made so far */
    tables: seq<ProviderTable>)

  /** What the node factories hand to viewDef: well-shaped nodes with no childFlags yet. */
  ghost predicate Input(orig: seq<NodeDef>)
  {
    forall k :: 0 <= k < |orig| ==> WellShaped(orig[k]) && orig[k].childFlags == 0
  }

  ghost predicate Placed(orig: seq<NodeDef>, cur: seq<NodeDef>, i: nat)
    requires |cur| == |orig| && i <= |orig|
  {
    forall k :: 0 <= k < i ==> PlacedNode(orig, k, cur[k])
  }

  ghost predicate Untouched(orig: seq<NodeDef>, cur: seq<NodeDef>, i: nat)
    requires |cur| == |orig|
  {
    forall k :: i <= k < |orig| ==> cur[k] == orig[k]
  }

  ghost predicate Checked(orig: seq<NodeDef>, i: nat)
    requires i <= |orig|
  {
    forall k :: 0 <= k < i ==> NodeError(orig, k).None?
  }

  /** reverseChildNodes holds node k at its reverse index, for every node placed so far. */
  ghost predicate RevFilled(orig: seq<NodeDef>, rev: seq<nat>, i: nat)
    requires i <= |orig|
  {
    |rev| == |orig| && forall k :: 0 <= k < i ==> 0 <= ReverseIndex(orig, k) < |orig| && rev[ReverseIndex(orig, k)] == k
  }

  /** Node k, placed before i, is a provider or directive registered under its own token. */
  predicate ProvidesAt(orig: seq<NodeDef>, k: nat, key: Token, i: nat)
  {
    k < i && k < |orig| && orig[k].nodeType in {Provider, Directive} &&
    orig[k].provider.Some? && orig[k].provider.value.token == key
  }

  ghost predicate EntriesSound(orig: seq<NodeDef>, tables: seq<ProviderTable>, i: nat)
  {
    forall t, key :: 0 <= t < |tables| && key in tables[t].entries ==> ProvidesAt(orig, tables[t].entries[key], key, i)
  }

  /** Every element placed so far has its tables in the heap and the last component child seen. */
  ghost predicate ElementsBuilt(orig: seq<NodeDef>, cur: seq<NodeDef>, tables: seq<ProviderTable>, i: nat)
    requires |cur| == |orig| && i <= |orig|
  {
    forall k :: 0 <= k < i && orig[k].element.Some? ==>
      cur[k].element.Some? && AllOverPublic(cur[k].element.value, tables) &&
      cur[k].element.value.component == ComponentOf(orig, k, i, orig[k].element.value.component)
  }

  ghost predicate Counted(orig: seq<NodeDef>, i: nat, st: BuildState)
    requires i <= |orig|
  {
    st.bindingCount == BindingsBefore(orig, i) && st.disposableCount == DisposablesBefore(orig, i) &&
    st.nodeFlags == FlagsIn(orig, 0, i) && st.lastRootNode == LastRootBefore(orig, i)
  }

  /**
   * The part of viewDef's invariant the climb changes: the node list, the
   * cursor and its chain. Nodes before i are placed, nodes from i on untouched.
   */
  ghost predicate Tree(orig: seq<NodeDef>, cur: seq<NodeDef>, i: nat, tables: seq<ProviderTable>, cp: Option<nat>,
                       stack: seq<nat>, low: int)
  {
    |cur| == |orig| && i <= |orig| &&
    Building(orig, cur, i, stack, low, i) && IsTop(cp, stack) &&
    Placed(orig, cur, i) && Untouched(orig, cur, i) && ElementsBuilt(orig, cur, tables, i)
  }

  /** The part the climb leaves alone: the checks, reverseChildNodes, the counters and the table heap. */
  ghost predicate Scanned(orig: seq<NodeDef>, rev: seq<nat>, i: nat, st: BuildState)
  {
    i <= |orig| && Input(orig) && Checked(orig, i) && RevFilled(orig, rev, i) &&
    Counted(orig, i, st) && TablesOrdered(st.tables) && EntriesSound(orig, st.tables, i)
  }

  /**
   * viewDef's loop invariant. Lemmas that hand the whole invariant on state it
   * as `var p := Progress(...); p`, which the verifier checks as one fact rather
   * than conjunct by conjunct.
   */
  ghost predicate Progress(orig: seq<NodeDef>, cur: seq<NodeDef>, rev: seq<nat>, i: nat, st: BuildState, stack: seq<nat>, low: int)
  {
    Tree(orig, cur, i, st.tables, st.currentParent, stack, low) && Scanned(orig, rev, i, st)
  }

  /** Scanned does not read the cursor. */
  lemma ScannedCursor(orig: seq<NodeDef>, rev: seq<nat>, i: nat, st: BuildState, cp: Option<nat>)
    requires var s := Scanned(orig, rev, i, st); s
    ensures var s := Scanned(orig, rev, i, st.(currentParent := cp)); s
  {
  }

  /** Popping writes the childFlags of a node before i, and nothing else. */
  lemma PoppedFrame(cur: seq<NodeDef>, top: nat, i: nat)
    requires top < |cur| && i <= |cur| && (cur[top].parent.Some? ==> cur[top].parent.value < i)
    ensures |Popped(cur, top)| == |cur|
    ensures forall k :: 0 <= k < |cur| ==> Popped(cur, top)[k] == cur[k].(childFlags := Popped(cur, top)[k].childFlags)
    ensures forall k :: i <= k < |cur| ==> Popped(cur, top)[k] == cur[k]
  {
  }

  /** Placement, untouched nodes and element tables do not read childFlags. */
  lemma ChildFlagsFrame(orig: seq<NodeDef>, cur: seq<NodeDef>, cur': seq<NodeDef>, i: nat, tables: seq<ProviderTable>)
    requires |cur| == |orig| == |cur'| && i <= |orig|
    requires forall k :: 0 <= k < |cur| ==> cur'[k] == cur[k].(childFlags := cur'[k].childFlags)
    requires forall k :: i <= k < |cur| ==> cur'[k] == cur[k]
    requires Placed(orig, cur, i) && Untouched(orig, cur, i) && ElementsBuilt(orig, cur, tables, i)
    ensures Placed(orig, cur', i) && Untouched(orig, cur', i) && ElementsBuilt(orig, cur', tables, i)
  {
  }

  /**
   * One step of the parent cursor's climb (view.ts:43-48 and 127-132): the
   * top's range has ended, so its childFlags are OR-ed into its parent and the
   * cursor moves to that parent.
   */
  method CloseTop(nodes: array<NodeDef>, ghost orig: seq<NodeDef>, i: nat, tables: seq<ProviderTable>, cp: Option<nat>,
                  ghost stack: seq<nat>)
    returns (cp': Option<nat>, ghost stack': seq<nat>)
    requires Tree(orig, nodes[..], i, tables, cp, stack, i - 1)
    requires cp.Some? && End(orig, cp.value) < i
    modifies nodes
    ensures stack' == stack[..|stack| - 1] && |stack'| < |stack|
    ensures Tree(orig, nodes[..], i, tables, cp', stack', i - 1)
  {
    var top := cp.value;
    TreePop(orig, nodes[..], i, tables, cp, stack);
    PoppedFrame(nodes[..], top, i);
    cp' := OrIntoParent(nodes, top);
    stack' := stack[..|stack| - 1];
  }

  /** Closing the cursor's range, once it has ended, keeps the tree part of the invariant. */
  lemma TreePop(orig: seq<NodeDef>, cur: seq<NodeDef>, i: nat, tables: seq<ProviderTable>, cp: Option<nat>,
                stack: seq<nat>)
    requires Tree(orig, cur, i, tables, cp, stack, i - 1)
    requires cp.Some? && End(orig, cp.value) < i
    ensures cp.value < |cur| && (cur[cp.value].parent.Some? ==> cur[cp.value].parent.value < i)
    ensures Tree(orig, Popped(cur, cp.value), i, tables, cur[cp.value].parent, stack[..|stack| - 1], i - 1)
  {
    var top := cp.value;
    PopPreserves(orig, cur, i, stack);
    assert PlacedNode(orig, top, cur[top]);
    PoppedFrame(cur, top, i);
    ChildFlagsFrame(orig, cur, Popped(cur, top), i, tables);
  }

  /** Every node placed so far has its parent before it. */
  lemma TreeParents(orig: seq<NodeDef>, cur: seq<NodeDef>, i: nat, tables: seq<ProviderTable>, cp: Option<nat>,
                    stack: seq<nat>, low: int)
    requires var t := Tree(orig, cur, i, tables, cp, stack, low); t
    ensures ParentsBelow(cur, i)
  {
    forall k | 0 <= k < i && cur[k].parent.Some?
      ensures cur[k].parent.value < k
    {
      assert PlacedNode(orig, k, cur[k]);
    }
  }

  /** The node viewDef writes back at position i (view.ts:50-75), its element given table t. */
  ghost function PlacedValue(orig: seq<NodeDef>, i: nat, t: nat): NodeDef
    requires i < |orig|
  {
    orig[i].(index := i, parent := ParentOf(orig, i), bindingIndex := BindingsBefore(orig, i),
             disposableIndex := DisposablesBefore(orig, i), reverseChildIndex := ReverseIndex(orig, i),
             renderParent := RenderParentOf(orig, i),
             element := if orig[i].element.Some? then Some(orig[i].element.value.(publicProviders := t, allProviders := t))
                        else None)
  }

  /**
   * The node list after visiting node i: node i placed, its flags OR-ed into
   * the cursor (view.ts:80-81), and the cursor's element replaced when node i
   * registered a provider on it (view.ts:97-122).
   */
  function Visited(cur: seq<NodeDef>, i: nat, placed: NodeDef, cp: Option<nat>, regEl: Option<ElementDef>): (r: seq<NodeDef>)
    requires i < |cur| && (cp.Some? ==> cp.value < |cur|)
    ensures |r| == |cur|
  {
    var c1 := cur[i := placed];
    if cp.None? then c1
    else
      var p := cp.value;
      var c2 := c1[p := c1[p].(childFlags := Union(c1[p].childFlags, placed.flags))];
      if regEl.None? then c2 else c2[p := c2[p].(element := regEl)]
  }

  /** Node i's parent, links and flags as StepFrame describes them. */
  lemma VisitFrame(orig: seq<NodeDef>, cur: seq<NodeDef>, i: nat, t: nat, cp: Option<nat>, regEl: Option<ElementDef>,
                   cur': seq<NodeDef>)
    requires |cur| == |orig| && i < |orig| && Input(orig) && ParentOf(orig, i) == cp
    requires cur' == Visited(cur, i, PlacedValue(orig, i, t), cp, regEl)
    ensures StepFrame(orig, cur, i, cp, cur')
  {
    assert WellShaped(orig[i]) && orig[i].childFlags == 0;
  }

  /** Node i is placed, its parent keeps its input fields, and the nodes after i are untouched. */
  lemma VisitPlaced(orig: seq<NodeDef>, cur: seq<NodeDef>, i: nat, t: nat, cp: Option<nat>, regEl: Option<ElementDef>,
                    cur': seq<NodeDef>)
    requires |cur| == |orig| && i < |orig| && Placed(orig, cur, i) && Untouched(orig, cur, i)
    requires cp.Some? ==> cp.value < i
    requires regEl.Some? ==>
               cp.Some? && cur[cp.value].element.Some? &&
               regEl.value.name == cur[cp.value].element.value.name &&
               regEl.value.template == cur[cp.value].element.value.template
    requires cur' == Visited(cur, i, PlacedValue(orig, i, t), cp, regEl)
    ensures Placed(orig, cur', i + 1) && Untouched(orig, cur', i + 1)
  {
    assert cur[i] == orig[i];
    assert PlacedNode(orig, i, cur'[i]);
    if cp.Some? {
      assert PlacedNode(orig, cp.value, cur[cp.value]);
      assert PlacedNode(orig, cp.value, cur'[cp.value]);
    }
  }

  /** Every element placed so far, node i included, has its tables and component. */
  lemma VisitElements(orig: seq<NodeDef>, cur: seq<NodeDef>, i: nat, t: nat, cp: Option<nat>, reg: Option<Registration>,
                      tables: seq<ProviderTable>, tables': seq<ProviderTable>, cur': seq<NodeDef>)
    requires |cur| == |orig| && i < |orig| && Input(orig) && ParentOf(orig, i) == cp
    requires ElementsBuilt(orig, cur, tables, i) && Grows(tables, tables')
    requires orig[i].element.Some? ==> t < |tables'|
    requires reg.Some? <==> orig[i].nodeType in {Provider, Directive}
    requires reg.Some? ==>
               cp.Some? && cur[cp.value].element.Some? && AllOverPublic(reg.value.element, tables') &&
               reg.value.element.component ==
                 (if Has(orig[i].flags, HasComponent) then Some(i) else cur[cp.value].element.value.component)
    requires cur' == Visited(cur, i, PlacedValue(orig, i, t), cp, if reg.Some? then Some(reg.value.element) else None)
    ensures ElementsBuilt(orig, cur', tables', i + 1)
  {
    forall k | 0 <= k < i + 1 && orig[k].element.Some?
      ensures cur'[k].element.Some? && AllOverPublic(cur'[k].element.value, tables') &&
              cur'[k].element.value.component == ComponentOf(orig, k, i + 1, orig[k].element.value.component)
    {
      var init := orig[k].element.value.component;
      if k == i {
        ComponentOfNone(orig, i, i + 1, init);
      } else {
        AllOverPublicGrows(cur[k].element.value, tables, tables');
        if Some(k) != cp || reg.None? {
          assert !IsComponentChild(orig, k, i);
        }
      }
    }
  }

  /** The heap stays ordered, only grows, and every entry names a provider placed so far. */
  lemma VisitTables(orig: seq<NodeDef>, i: nat, cp: Option<nat>, el: ElementDef, hasPublic: bool, hasPrivate: bool,
                    tables: seq<ProviderTable>, tables1: seq<ProviderTable>, reg: Option<Registration>,
                    tables': seq<ProviderTable>)
    requires i < |orig| && Input(orig) && TablesOrdered(tables) && EntriesSound(orig, tables, i)
    requires tables1 == (if orig[i].element.Some? && cp.None? then Create(tables, None) else tables)
    requires reg.Some? <==> orig[i].nodeType in {Provider, Directive}
    requires reg.Some? ==>
               AllOverPublic(el, tables) &&
               reg.value == Register(el, tables1, hasPublic, hasPrivate, orig[i].flags, orig[i].provider.value.token, i)
    requires tables' == if reg.Some? then reg.value.tables else tables1
    ensures TablesOrdered(tables') && EntriesSound(orig, tables', i + 1) && Grows(tables, tables')
    ensures reg.Some? ==>
              AllOverPublic(reg.value.element, tables') &&
              reg.value.element.name == el.name && reg.value.element.template == el.template &&
              reg.value.element.component == (if Has(orig[i].flags, HasComponent) then Some(i) else el.component)
  {
    assert WellShaped(orig[i]);
    CreateLookup(tables, None, 0, "");
    assert EntriesSound(orig, tables1, i + 1);
    if reg.Some? {
      assert tables1 == tables;
      RegisterShape(el, tables, hasPublic, hasPrivate, orig[i].flags, orig[i].provider.value.token, i);
      RegisterEntries(el, tables, hasPublic, hasPrivate, orig[i].flags, orig[i].provider.value.token, i);
    }
  }

  /** Node i's reverse index is free and in range, so writing it fills one more slot. */
  lemma VisitRev(orig: seq<NodeDef>, rev: seq<nat>, i: nat)
    requires i < |orig| && NestedUpTo(orig, i + 1) && RevFilled(orig, rev, i)
    ensures 0 <= ReverseIndex(orig, i) < |orig|
    ensures RevFilled(orig, rev[ReverseIndex(orig, i) := i], i + 1)
  {
    ReverseIndexInRange(orig, i);
    var r := ReverseIndex(orig, i);
    var rev' := rev[r := i];
    forall k | 0 <= k < i + 1
      ensures 0 <= ReverseIndex(orig, k) < |orig| && rev'[ReverseIndex(orig, k)] == k
    {
      if k < i {
        ReverseIndexInjective(orig, k, i);
        assert rev[ReverseIndex(orig, k)] == k;
      }
    }
  }

  /** The running counters take in node i. */
  lemma VisitCounted(orig: seq<NodeDef>, i: nat, st: BuildState, st': BuildState)
    requires i < |orig| && Counted(orig, i, st)
    requires st'.bindingCount == st.bindingCount + |orig[i].bindings|
    requires st'.disposableCount == st.disposableCount + orig[i].disposableCount
    requires st'.nodeFlags == Union(st.nodeFlags, orig[i].flags)
    requires st'.lastRootNode == if RenderParentOf(orig, i).None? then Some(i) else st.lastRootNode
    ensures Counted(orig, i + 1, st')
  {
  }

  /**
   * What viewDef reads off the cursor for node i (view.ts:52-65, 69-71)
   * agrees with the specification: the reverse index, the render parent and
   * the error, if any.
   */
  lemma CursorReads(orig: seq<NodeDef>, cur: seq<NodeDef>, i: nat, cp: Option<nat>, placed: NodeDef)
    requires |cur| == |orig| && i < |orig| && Placed(orig, cur, i) && ParentOf(orig, i) == cp
    requires SameInput(orig[i], placed) && placed.index == i
    ensures cp.Some? ==> cp.value < i && SameInput(orig[cp.value], cur[cp.value])
    ensures CalculateReverseChildIndex(if cp.Some? then Some(cur[cp.value]) else None, i, orig[i].childCount, |orig|)
            == ReverseIndex(orig, i)
    ensures (if cp.Some? && IsNgContainer(cur[cp.value]) then cur[cp.value].renderParent else cp) == RenderParentOf(orig, i)
    ensures NodeError(orig, i) ==
            if orig[i].element.Some? && cp.Some? && cur[cp.value].element.None? then Some(ParentHasNoElement(i))
            else ValidateNode(if cp.Some? then Some(cur[cp.value]) else None, placed, |orig|)
  {
    if cp.Some? {
      assert PlacedNode(orig, cp.value, cur[cp.value]);
      ValidateNodeReads(Some(cur[cp.value]), ParentNode(orig, i), placed, orig[i].(index := i), |orig|);
    } else {
      ValidateNodeReads(None, ParentNode(orig, i), placed, orig[i].(index := i), |orig|);
    }
  }

  /** An accepted provider or directive sits right under an element whose tables are built. */
  lemma ProviderParent(orig: seq<NodeDef>, cur: seq<NodeDef>, tables: seq<ProviderTable>, i: nat)
    requires |cur| == |orig| && i < |orig| && Input(orig) && Placed(orig, cur, i) && ElementsBuilt(orig, cur, tables, i)
    requires orig[i].nodeType in {Provider, Directive} && NodeError(orig, i).None?
    ensures ParentOf(orig, i).Some? && orig[i].element.None? && orig[i].provider.Some?
    ensures var p := ParentOf(orig, i).value;
      orig[p].element.Some? && cur[p].element.Some? && AllOverPublic(cur[p].element.value, tables)
  {
    assert WellShaped(orig[i]);
    var p := ParentOf(orig, i).value;
    assert WellShaped(orig[p]) && PlacedNode(orig, p, cur[p]);
  }

  /** Writing one node of the array. */
  method SetNode(nodes: array<NodeDef>, j: nat, v: NodeDef)
    requires j < nodes.Length
    modifies nodes
    ensures nodes[..] == old(nodes[..])[j := v]
  {
    nodes[j] := v;
  }

  /** A visit of an accepted node i keeps viewDef's invariant one node further on. */
  lemma VisitPreserves(orig: seq<NodeDef>, cur: seq<NodeDef>, rev: seq<nat>, i: nat, st: BuildState, stack: seq<nat>,
                       t: nat, el: ElementDef, hasPublic: bool, hasPrivate: bool, tables1: seq<ProviderTable>,
                       reg: Option<Registration>, cur': seq<NodeDef>, st': BuildState)
    requires Progress(orig, cur, rev, i, st, stack, i - 1) && i < |orig|
    requires ParentOf(orig, i) == st.currentParent && OpenStack(orig, cur, i, stack, i, i)
    requires NodeError(orig, i).None?
    requires tables1 == (if orig[i].element.Some? && st.currentParent.None? then Create(st.tables, None) else st.tables)
    requires orig[i].element.Some? ==> t < |tables1|
    requires reg.Some? <==> orig[i].nodeType in {Provider, Directive}
    requires reg.Some? ==>
               st.currentParent.Some? && st.currentParent.value < |cur| && orig[i].provider.Some? &&
               cur[st.currentParent.value].element == Some(el) &&
               reg.value == Register(el, tables1, hasPublic, hasPrivate, orig[i].flags, orig[i].provider.value.token, i)
    requires cur' == Visited(cur, i, PlacedValue(orig, i, t), st.currentParent,
                             if reg.Some? then Some(reg.value.element) else None)
    requires st' == NextState(st, i, PlacedValue(orig, i, t), if reg.Some? then reg.value.tables else tables1,
                              st'.hasPublic, st'.hasPrivate)
    ensures 0 <= ReverseIndex(orig, i) < |rev|
    ensures Progress(orig, cur', rev[ReverseIndex(orig, i) := i], i + 1, st', Pushed(orig, stack, i), i)
  {
    VisitCounters(orig, rev, i, st, t, st');
    VisitTree(orig, cur, i, st, stack, t, el, hasPublic, hasPrivate, tables1, reg, cur', st');
  }

  /** The tree part and the table heap after node i. */
  lemma VisitTree(orig: seq<NodeDef>, cur: seq<NodeDef>, i: nat, st: BuildState, stack: seq<nat>,
                  t: nat, el: ElementDef, hasPublic: bool, hasPrivate: bool, tables1: seq<ProviderTable>,
                  reg: Option<Registration>, cur': seq<NodeDef>, st': BuildState)
    requires Tree(orig, cur, i, st.tables, st.currentParent, stack, i - 1) && i < |orig|
    requires Input(orig) && NestedUpTo(orig, i + 1) && TablesOrdered(st.tables) && EntriesSound(orig, st.tables, i)
    requires ParentOf(orig, i) == st.currentParent && OpenStack(orig, cur, i, stack, i, i)
    requires tables1 == (if orig[i].element.Some? && st.currentParent.None? then Create(st.tables, None) else st.tables)
    requires orig[i].element.Some? ==> t < |tables1|
    requires reg.Some? <==> orig[i].nodeType in {Provider, Directive}
    requires reg.Some? ==>
               st.currentParent.Some? && st.currentParent.value < |cur| && orig[i].provider.Some? &&
               cur[st.currentParent.value].element == Some(el) &&
               reg.value == Register(el, tables1, hasPublic, hasPrivate, orig[i].flags, orig[i].provider.value.token, i)
    requires cur' == Visited(cur, i, PlacedValue(orig, i, t), st.currentParent,
                             if reg.Some? then Some(reg.value.element) else None)
    requires st' == NextState(st, i, PlacedValue(orig, i, t), if reg.Some? then reg.value.tables else tables1,
                              st'.hasPublic, st'.hasPrivate)
    ensures Tree(orig, cur', i + 1, st'.tables, st'.currentParent, Pushed(orig, stack, i), i)
    ensures TablesOrdered(st'.tables) && EntriesSound(orig, st'.tables, i + 1)
  {
    VisitProviders(orig, cur, i, t, st.currentParent, el, hasPublic, hasPrivate, st.tables, tables1, reg, st'.tables, cur');
    VisitNodes(orig, cur, i, st.currentParent, stack, t, if reg.Some? then Some(reg.value.element) else None, cur');
  }

  /** The checks, reverseChildNodes and counters after node i. */
  lemma VisitCounters(orig: seq<NodeDef>, rev: seq<nat>, i: nat, st: BuildState, t: nat, st': BuildState)
    requires i < |orig| && Checked(orig, i) && NodeError(orig, i).None? && RevFilled(orig, rev, i) && Counted(orig, i, st)
    requires st' == NextState(st, i, PlacedValue(orig, i, t), st'.tables, st'.hasPublic, st'.hasPrivate)
    ensures Checked(orig, i + 1) && NestedUpTo(orig, i + 1) && Counted(orig, i + 1, st')
    ensures 0 <= ReverseIndex(orig, i) < |rev| && RevFilled(orig, rev[ReverseIndex(orig, i) := i], i + 1)
  {
    AcceptedNested(orig, i + 1);
    VisitRev(orig, rev, i);
    VisitCounted(orig, i, st, st');
  }

  /** The provider tables and the elements' view of them after node i. */
  lemma VisitProviders(orig: seq<NodeDef>, cur: seq<NodeDef>, i: nat, t: nat, cp: Option<nat>, el: ElementDef,
                       hasPublic: bool, hasPrivate: bool, tables: seq<ProviderTable>, tables1: seq<ProviderTable>,
                       reg: Option<Registration>, tables': seq<ProviderTable>, cur': seq<NodeDef>)
    requires |cur| == |orig| && i < |orig| && Input(orig) && ParentOf(orig, i) == cp
    requires TablesOrdered(tables) && EntriesSound(orig, tables, i) && ElementsBuilt(orig, cur, tables, i)
    requires tables1 == (if orig[i].element.Some? && cp.None? then Create(tables, None) else tables)
    requires orig[i].element.Some? ==> t < |tables1|
    requires reg.Some? <==> orig[i].nodeType in {Provider, Directive}
    requires reg.Some? ==>
               cp.Some? && cp.value < |cur| && orig[i].provider.Some? && cur[cp.value].element == Some(el) &&
               AllOverPublic(el, tables1) && reg.value == Register(el, tables1, hasPublic, hasPrivate, orig[i].flags, orig[i].provider.value.token, i)
    requires tables' == if reg.Some? then reg.value.tables else tables1
    requires cur' == Visited(cur, i, PlacedValue(orig, i, t), cp, if reg.Some? then Some(reg.value.element) else None)
    ensures TablesOrdered(tables') && EntriesSound(orig, tables', i + 1) && ElementsBuilt(orig, cur', tables', i + 1)
    ensures reg.Some? ==> reg.value.element.name == el.name && reg.value.element.template == el.template
  {
    if reg.Some? {
      assert cp.value < i;
    }
    VisitTables(orig, i, cp, el, hasPublic, hasPrivate, tables, tables1, reg, tables');
    VisitElements(orig, cur, i, t, cp, reg, tables, tables', cur');
  }

  /** The node list part of the visit: links, childFlags and placement. */
  lemma VisitNodes(orig: seq<NodeDef>, cur: seq<NodeDef>, i: nat, cp: Option<nat>, stack: seq<nat>, t: nat,
                   regEl: Option<ElementDef>, cur': seq<NodeDef>)
    requires |cur| == |orig| && i < |orig| && Input(orig) && NestedUpTo(orig, i + 1)
    requires Building(orig, cur, i, stack, i - 1, i) && OpenStack(orig, cur, i, stack, i, i) && IsTop(cp, stack)
    requires ParentOf(orig, i) == cp && Placed(orig, cur, i) && Untouched(orig, cur, i)
    requires regEl.Some? ==>
               cp.Some? && cur[cp.value].element.Some? &&
               regEl.value.name == cur[cp.value].element.value.name &&
               regEl.value.template == cur[cp.value].element.value.template
    requires cur' == Visited(cur, i, PlacedValue(orig, i, t), cp, regEl)
    ensures Building(orig, cur', i + 1, Pushed(orig, stack, i), i, i + 1)
    ensures Placed(orig, cur', i + 1) && Untouched(orig, cur', i + 1)
  {
    VisitFrame(orig, cur, i, t, cp, regEl, cur');
    PushPreserves(orig, cur, i, stack, cp, cur');
    VisitPlaced(orig, cur, i, t, cp, regEl, cur');
  }

  /** An accepted node's reverse index is a slot of reverseChildNodes. */
  lemma RevSlot(orig: seq<NodeDef>, i: nat)
    requires i < |orig| && Checked(orig, i) && NodeError(orig, i).None?
    ensures 0 <= ReverseIndex(orig, i) < |orig|
  {
    AcceptedNested(orig, i + 1);
    ReverseIndexInRange(orig, i);
  }

  /** The cursor node as validateNode and calculateReverseChildIndex see it. */
  function CursorNode(cur: seq<NodeDef>, cp: Option<nat>): Option<NodeDef>
    requires cp.Some? ==> cp.value < |cur|
  {
    if cp.Some? then Some(cur[cp.value]) else None
  }

  /** The render parent under the cursor: an ng-container passes on its own (view.ts:58-65). */
  function RenderParentUnder(cur: seq<NodeDef>, cp: Option<nat>): Option<nat>
    requires cp.Some? ==> cp.value < |cur|
  {
    if cp.Some? && IsNgContainer(cur[cp.value]) then cur[cp.value].renderParent else cp
  }

  /** The provider table an element at i starts with: its parent element's public one, or a fresh root table (view.ts:67-71). */
  function StartTable(cur: seq<NodeDef>, i: nat, st: BuildState): nat
    requires i < |cur| && (st.currentParent.Some? ==> st.currentParent.value < |cur|)
  {
    var cp := st.currentParent;
    if cur[i].element.None? then 0
    else if cp.None? then |st.tables|
    else if cur[cp.value].element.None? then 0
    else cur[cp.value].element.value.publicProviders
  }

  /** The node viewDef writes back at i, computed from the cursor and counters (view.ts:50-75). */
  function PlaceAt(cur: seq<NodeDef>, i: nat, st: BuildState): NodeDef
    requires i < |cur| && (st.currentParent.Some? ==> st.currentParent.value < |cur|)
  {
    var cp := st.currentParent;
    var node := cur[i];
    var t := StartTable(cur, i, st);
    node.(index := i, parent := cp, bindingIndex := st.bindingCount, disposableIndex := st.disposableCount,
          reverseChildIndex := CalculateReverseChildIndex(CursorNode(cur, cp), i, node.childCount, |cur|),
          renderParent := RenderParentUnder(cur, cp),
          element := if node.element.Some? then Some(node.element.value.(publicProviders := t, allProviders := t)) else None)
  }

  /**
   * The checks of a visit, in the code's order: the parent element that an
   * element's tables are read from (view.ts:69-70), then validateNode.
   */
  function VisitCheck(cur: seq<NodeDef>, i: nat, st: BuildState): Option<ViewDefError>
    requires i < |cur| && (st.currentParent.Some? ==> st.currentParent.value < |cur|)
  {
    var cp := st.currentParent;
    if cur[i].element.Some? && cp.Some? && cur[cp.value].element.None? then Some(ParentHasNoElement(i))
    else ValidateNode(CursorNode(cur, cp), PlaceAt(cur, i, st), |cur|)
  }

  /**
   * What a visit of node i needs to be defined: an accepted node's reverse
   * index is a slot of reverseChildNodes, and an accepted provider sits under
   * an element whose tables are in the heap.
   */
  predicate Ready(cur: seq<NodeDef>, rev: seq<nat>, i: nat, st: BuildState)
  {
    var cp := st.currentParent;
    i < |cur| && |rev| == |cur| && (cp.Some? ==> cp.value < i) &&
    (VisitCheck(cur, i, st).None? ==>
       0 <= PlaceAt(cur, i, st).reverseChildIndex < |cur| &&
       (cur[i].nodeType in {Provider, Directive} ==>
          cp.Some? && cur[cp.value].element.Some? && AllOverPublic(cur[cp.value].element.value, st.tables) &&
          cur[i].element.None? && cur[i].provider.Some?))
  }

  /** The heap once an element at i has its starting table: a root element makes a fresh one (view.ts:69-70). */
  function TablesBefore(cur: seq<NodeDef>, i: nat, st: BuildState): seq<ProviderTable>
    requires i < |cur|
  {
    if cur[i].element.Some? && st.currentParent.None? then Create(st.tables, None) else st.tables
  }

  /** The registration of an accepted provider or directive on the cursor's element (view.ts:97-122). */
  function RegisterAt(cur: seq<NodeDef>, rev: seq<nat>, i: nat, st: BuildState): Option<Registration>
    requires Ready(cur, rev, i, st) && VisitCheck(cur, i, st).None?
  {
    if cur[i].nodeType in {Provider, Directive} then
      Some(Register(cur[st.currentParent.value].element.value, st.tables, st.hasPublic, st.hasPrivate,
                    cur[i].flags, cur[i].provider.value.token, i))
    else None
  }

  /**
   * viewDef's locals after an accepted node i placed as `placed` (view.ts:79-97,
   * 122-124), given the heap and the "has providers" flags after registration.
   */
  function NextState(st: BuildState, i: nat, placed: NodeDef, tables: seq<ProviderTable>, hasPublic: bool,
                     hasPrivate: bool): BuildState
  {
    BuildState(
      st.bindingCount + |placed.bindings|, st.disposableCount + placed.disposableCount,
      Union(st.nodeFlags, placed.flags),
      if placed.childCount > 0 then Some(i) else st.currentParent,
      hasPublic, hasPrivate,
      if placed.renderParent.None? then Some(i) else st.lastRootNode,
      tables)
  }

  /** The state after visiting node i. */
  datatype Visit = Visit(state: BuildState, nodes: seq<NodeDef>, rev: seq<nat>)

  /**
   * One pass of viewDef's loop after the climb (view.ts:50-124), on values:
   * the checks, then the placed node, reverseChildNodes, the parent's flags,
   * the registration and the locals.
   */
  function VisitSpec(cur: seq<NodeDef>, rev: seq<nat>, i: nat, st: BuildState): Result<Visit, ViewDefError>
    requires Ready(cur, rev, i, st)
  {
    match VisitCheck(cur, i, st)
    case Some(e) => Failure(e)
    case None =>
      var placed := PlaceAt(cur, i, st);
      var reg := RegisterAt(cur, rev, i, st);
      var isElement := cur[i].element.Some?;
      var tables := if reg.Some? then reg.value.tables else TablesBefore(cur, i, st);
      var hasPublic := if reg.Some? then reg.value.hasPublic else if isElement then false else st.hasPublic;
      var hasPrivate := if reg.Some? then reg.value.hasPrivate else if isElement then false else st.hasPrivate;
      Success(Visit(NextState(st, i, placed, tables, hasPublic, hasPrivate),
                    Visited(cur, i, placed, st.currentParent, if reg.Some? then Some(reg.value.element) else None),
                    rev[placed.reverseChildIndex := i]))
  }

  /**
   * The first half of a pass (view.ts:50-76): compute node i's fields from the
   * cursor and the counters, give an element its starting tables, write the
   * node back and run validateNode. When the node is accepted, it is placed
   * and the heap and the "has providers" flags are as the element rule says.
   */
  method PlaceNode(nodes: array<NodeDef>, i: nat, st: BuildState)
    returns (check: Option<ViewDefError>, tables: seq<ProviderTable>, hasPublic: bool, hasPrivate: bool)
    requires i < nodes.Length && (st.currentParent.Some? ==> st.currentParent.value < i)
    modifies nodes
    ensures check == VisitCheck(old(nodes[..]), i, st)
    ensures check.None? ==> nodes[..] == old(nodes[..])[i := PlaceAt(old(nodes[..]), i, st)]
    ensures check.None? ==> tables == TablesBefore(old(nodes[..]), i, st)
    ensures check.None? ==> hasPublic == (if old(nodes[i]).element.Some? then false else st.hasPublic)
    ensures check.None? ==> hasPrivate == (if old(nodes[i]).element.Some? then false else st.hasPrivate)
  {
    ghost var cur := nodes[..];
    var cp := st.currentParent;
    var node := nodes[i];
    var parent: Option<NodeDef> := if cp.Some? then Some(nodes[cp.value]) else None;
    var renderParent := if cp.Some? && IsNgContainer(nodes[cp.value]) then nodes[cp.value].renderParent else cp;
    var placed := node.(index := i, parent := cp, bindingIndex := st.bindingCount, disposableIndex := st.disposableCount,
                        reverseChildIndex := CalculateReverseChildIndex(parent, i, node.childCount, nodes.Length),
                        renderParent := renderParent);
    tables := st.tables;
    hasPublic, hasPrivate := st.hasPublic, st.hasPrivate;
    if node.element.Some? {
      var t: nat;
      if cp.Some? {
        var parentElement := nodes[cp.value].element;
        if parentElement.None? {
          return Some(ParentHasNoElement(i)), tables, hasPublic, hasPrivate;
        }
        t := parentElement.value.publicProviders;
      } else {
        t := |tables|;
        tables := Create(tables, None);
      }
      placed := placed.(element := Some(node.element.value.(publicProviders := t, allProviders := t)));
      hasPublic, hasPrivate := false, false;
    }
    assert placed == PlaceAt(cur, i, st);
    SetNode(nodes, i, placed);
    check := ValidateNode(parent, placed, nodes.Length);
  }

  /**
   * The registration block of a pass (view.ts:97-122): the provider or
   * directive at i goes into the tables of the element p it sits under.
   */
  method RegisterProvider(nodes: array<NodeDef>, p: nat, i: nat, tables: seq<ProviderTable>, hasPublic: bool, hasPrivate: bool)
    returns (r: Registration)
    requires p < nodes.Length && i < nodes.Length && nodes[p].element.Some? && nodes[i].provider.Some?
    requires nodes[p].element.value.publicProviders < |tables| && nodes[p].element.value.allProviders < |tables|
    modifies nodes
    ensures r == Register(old(nodes[p].element.value), tables, hasPublic, hasPrivate, old(nodes[i].flags),
                          old(nodes[i].provider.value.token), i)
    ensures nodes[..] == old(nodes[..])[p := old(nodes[p]).(element := Some(r.element))]
  {
    r := Register(nodes[p].element.value, tables, hasPublic, hasPrivate, nodes[i].flags, nodes[i].provider.value.token, i);
    SetNode(nodes, p, nodes[p].(element := Some(r.element)));
  }

  /**
   * One pass of viewDef's loop after the climb (view.ts:50-124): place node i
   * under the cursor, check it, file it in reverseChildNodes, take it into the
   * counters and its parent's childFlags, register a provider or directive on
   * its element, and move the cursor down when node i has children.
   */
  method VisitNode(nodes: array<NodeDef>, rev: array<nat>, i: nat, st: BuildState)
    returns (res: Result<BuildState, ViewDefError>)
    requires Ready(nodes[..], rev[..], i, st)
    modifies nodes, rev
    ensures res.Failure? ==> VisitSpec(old(nodes[..]), old(rev[..]), i, st) == Failure(res.error)
    ensures res.Success? ==> VisitSpec(old(nodes[..]), old(rev[..]), i, st) == Success(Visit(res.value, nodes[..], rev[..]))
  {
    ghost var cur, rev0 := nodes[..], rev[..];
    var cp := st.currentParent;
    var check, tables, hasPublic, hasPrivate := PlaceNode(nodes, i, st);
    if check.Some? {
      return Failure(check.value);
    }
    var placed := nodes[i];
    assert placed == PlaceAt(cur, i, st);
    assert placed.flags == cur[i].flags && placed.bindings == cur[i].bindings && placed.childCount == cur[i].childCount;
    assert placed.disposableCount == cur[i].disposableCount && placed.nodeType == cur[i].nodeType;
    rev[placed.reverseChildIndex] := i;
    if cp.Some? {
      var p := cp.value;
      SetNode(nodes, p, nodes[p].(childFlags := Union(nodes[p].childFlags, placed.flags)));
    }
    ghost var reg: Option<Registration> := None;
    if placed.nodeType == Provider || placed.nodeType == Directive {
      var r := RegisterProvider(nodes, cp.value, i, tables, hasPublic, hasPrivate);
      tables, hasPublic, hasPrivate := r.tables, r.hasPublic, r.hasPrivate;
      reg := Some(r);
    }
    res := Success(NextState(st, i, placed, tables, hasPublic, hasPrivate));
    assert reg == RegisterAt(cur, rev0, i, st);
    assert nodes[..] == Visited(cur, i, placed, cp, if reg.Some? then Some(reg.value.element) else None);
  }

    /** The parts of an accepted visit, by name. */
  lemma VisitSpecForm(cur: seq<NodeDef>, rev: seq<nat>, i: nat, st: BuildState)
    requires Ready(cur, rev, i, st) && VisitCheck(cur, i, st).None?
    ensures var placed := PlaceAt(cur, i, st);
            var reg := RegisterAt(cur, rev, i, st);
            var v := VisitSpec(cur, rev, i, st);
            v.Success? &&
            v.value.nodes == Visited(cur, i, placed, st.currentParent, if reg.Some? then Some(reg.value.element) else None) &&
            v.value.state == NextState(st, i, placed, if reg.Some? then reg.value.tables else TablesBefore(cur, i, st),
                                       v.value.state.hasPublic, v.value.state.hasPrivate) &&
            v.value.rev == rev[placed.reverseChildIndex := i]
  {
  }

  /**
   * What viewDef's invariant tells about the cursor-based spec of node i: the
   * node it places is the one the invariant describes, and a provider's
   * registration is Register on its parent element's tables.
   */
  lemma StepFacts(orig: seq<NodeDef>, cur: seq<NodeDef>, rev: seq<nat>, i: nat, st: BuildState, stack: seq<nat>)
    requires Progress(orig, cur, rev, i, st, stack, i - 1) && i < |orig|
    requires ParentOf(orig, i) == st.currentParent && OpenStack(orig, cur, i, stack, i, i)
    ensures Ready(cur, rev, i, st)
    ensures NodeError(orig, i) == VisitCheck(cur, i, st)
    ensures NodeError(orig, i).None? ==>
              var t := StartTable(cur, i, st);
              PlaceAt(cur, i, st) == PlacedValue(orig, i, t) &&
              (orig[i].element.Some? ==> t < |TablesBefore(cur, i, st)|) &&
              (orig[i].nodeType in {Provider, Directive} ==>
                 st.currentParent.Some? && orig[i].provider.Some? && cur[st.currentParent.value].element.Some? &&
                 TablesBefore(cur, i, st) == st.tables &&
                 RegisterAt(cur, rev, i, st) ==
                 Some(Register(cur[st.currentParent.value].element.value, st.tables, st.hasPublic, st.hasPrivate,
                               orig[i].flags, orig[i].provider.value.token, i))) &&
              (RegisterAt(cur, rev, i, st).Some? <==> orig[i].nodeType in {Provider, Directive})
  {
    var cp := st.currentParent;
    assert cur[i] == orig[i];
    var placed := PlaceAt(cur, i, st);
    CursorReads(orig, cur, i, cp, placed);
    if NodeError(orig, i).None? {
      RevSlot(orig, i);
      var t := StartTable(cur, i, st);
      if orig[i].element.Some? && cp.Some? {
        assert WellShaped(orig[cp.value]);
      }
      assert placed == PlacedValue(orig, i, t);
      if orig[i].nodeType in {Provider, Directive} {
        ProviderParent(orig, cur, st.tables, i);
      }
    }
  }

/**
   * A pass of the loop does what the specification says of node i: it fails
   * exactly with node i's error, and otherwise keeps viewDef's invariant one
   * node further on.
   */
  lemma VisitStep(orig: seq<NodeDef>, cur: seq<NodeDef>, rev: seq<nat>, i: nat, st: BuildState, stack: seq<nat>)
    requires i < |orig| && var p := Progress(orig, cur, rev, i, st, stack, i - 1); p
    requires ParentOf(orig, i) == st.currentParent && var o := OpenStack(orig, cur, i, stack, i, i); o
    ensures Ready(cur, rev, i, st)
    ensures VisitSpec(cur, rev, i, st).Failure? ==> NodeError(orig, i) == Some(VisitSpec(cur, rev, i, st).error)
    ensures VisitSpec(cur, rev, i, st).Success? ==>
              var v := VisitSpec(cur, rev, i, st).value;
              NodeError(orig, i).None? && Progress(orig, v.nodes, v.rev, i + 1, v.state, Pushed(orig, stack, i), i)
  {
    StepFacts(orig, cur, rev, i, st, stack);
    if NodeError(orig, i).None? {
      VisitSpecForm(cur, rev, i, st);
      var cp := st.currentParent;
      var el := if orig[i].nodeType in {Provider, Directive} then cur[cp.value].element.value
                else ElementDef(None, None, 0, 0, None);
      var v := VisitSpec(cur, rev, i, st).value;
      VisitPreserves(orig, cur, rev, i, st, stack, StartTable(cur, i, st), el, st.hasPublic, st.hasPrivate,
                     TablesBefore(cur, i, st), RegisterAt(cur, rev, i, st), v.nodes, v.state);
    }
  }

  /** The locals before the first node (view.ts:31-40). */
  function InitialState(): BuildState
  {
    BuildState(0, 0, 0, None, false, false, None, [])
  }

  /** Before the loop nothing is placed and the cursor is empty. */
  lemma InitProgress(orig: seq<NodeDef>, rev: seq<nat>)
    requires Input(orig) && |rev| == |orig|
    ensures Progress(orig, orig, rev, 0, InitialState(), [], -1)
  {
  }

  /** The cursor is a placed node, so its index and childCount are the input's. */
  lemma CursorPlaced(orig: seq<NodeDef>, cur: seq<NodeDef>, i: nat, tables: seq<ProviderTable>, cp: Option<nat>,
                     stack: seq<nat>, low: int)
    requires var t := Tree(orig, cur, i, tables, cp, stack, low); t
    ensures cp.Some? ==> cp.value < i && cur[cp.value].index == cp.value && cur[cp.value].childCount == orig[cp.value].childCount
  {
    if cp.Some? {
      assert cp.value == stack[|stack| - 1];
      assert PlacedNode(orig, cp.value, cur[cp.value]);
    }
  }

  /** In a nested list every range ends inside the list. */
  lemma {:induction false} NestedEndBound(ns: seq<NodeDef>, k: nat)
    requires NestedUpTo(ns, |ns|) && k < |ns|
    ensures End(ns, k) < |ns|
    decreases k
  {
    match ParentOf(ns, k)
    case None =>
    case Some(p) => NestedEndBound(ns, p);
  }

  /**
   * The definition viewDef returns for the node list orig, every node of
   * which it accepted: each node placed with its computed fields and the OR
   * of its descendants' flags, reverseChildNodes filled, the view-wide
   * counters and flags, and each element's provider tables.
   */
  ghost predicate Built(orig: seq<NodeDef>, flags: Flags, d: ViewDefinition)
  {
    |d.nodes| == |orig| && Accepted(orig) && d.flags == flags &&
    (forall k :: 0 <= k < |orig| ==>
       PlacedNode(orig, k, d.nodes[k]) && End(orig, k) < |orig| &&
       d.nodes[k].childFlags == FlagsIn(orig, k + 1, End(orig, k) + 1)) &&
    RevFilled(orig, d.reverseChildNodes, |orig|) &&
    d.nodeFlags == FlagsIn(orig, 0, |orig|) && d.lastRootNode == LastRootBefore(orig, |orig|) &&
    d.bindingCount == BindingsBefore(orig, |orig|) && d.disposableCount == DisposablesBefore(orig, |orig|) &&
    TablesOrdered(d.providerTables) && EntriesSound(orig, d.providerTables, |orig|) &&
    ElementsBuilt(orig, d.nodes, d.providerTables, |orig|)
  }

  /** Once every node is placed and every range closed, the invariant describes the returned definition. */
  lemma Finish(orig: seq<NodeDef>, cur: seq<NodeDef>, rev: seq<nat>, st: BuildState, flags: Flags)
    requires Progress(orig, cur, rev, |orig|, st, [], |orig| - 1)
    ensures Built(orig, flags, ViewDefinition(flags, cur, st.nodeFlags, rev, st.lastRootNode, st.bindingCount,
                                              st.disposableCount, st.tables))
  {
    AcceptedNested(orig, |orig|);
    forall k | 0 <= k < |orig|
      ensures End(orig, k) < |orig|
    {
      NestedEndBound(orig, k);
    }
  }

  /** Every placed node's parent comes before it. */
  predicate ParentsBelow(cur: seq<NodeDef>, i: nat)
  {
    i <= |cur| && forall k :: 0 <= k < i && cur[k].parent.Some? ==> cur[k].parent.value < k
  }

  /**
   * The climb at the top of a pass (view.ts:43-49), on values: while node i
   * lies past the cursor's range, the cursor's childFlags are OR-ed into its
   * parent and the cursor moves up. Gives the node list and the new cursor.
   */
  function ClimbFrom(cur: seq<NodeDef>, i: nat, cp: Option<nat>): (seq<NodeDef>, Option<nat>)
    requires ParentsBelow(cur, i) && (cp.Some? ==> cp.value < i)
    decreases if cp.Some? then cp.value + 1 else 0
  {
    if cp.Some? && i > cur[cp.value].index + cur[cp.value].childCount then
      PoppedFrame(cur, cp.value, i);
      ClimbFrom(Popped(cur, cp.value), i, cur[cp.value].parent)
    else (cur, cp)
  }

  /** The chain once the ranges that ended before i are closed. */
  ghost function Unwound(orig: seq<NodeDef>, stack: seq<nat>, i: nat): seq<nat>
    requires forall m :: 0 <= m < |stack| ==> stack[m] < |orig|
  {
    if |stack| > 0 && End(orig, stack[|stack| - 1]) < i then Unwound(orig, stack[..|stack| - 1], i) else stack
  }

  /** The climb keeps the tree part of the invariant and stops at node i's parent's chain. */
  lemma {:induction false} ClimbKeeps(orig: seq<NodeDef>, cur: seq<NodeDef>, i: nat, tables: seq<ProviderTable>,
                                      cp: Option<nat>, stack: seq<nat>)
    requires i < |orig| && var t := Tree(orig, cur, i, tables, cp, stack, i - 1); t
    ensures ParentsBelow(cur, i) && (cp.Some? ==> cp.value < i)
    ensures var t := Tree(orig, ClimbFrom(cur, i, cp).0, i, tables, ClimbFrom(cur, i, cp).1, Unwound(orig, stack, i), i - 1);
            t
    decreases |stack|
  {
    CursorPlaced(orig, cur, i, tables, cp, stack, i - 1);
    TreeParents(orig, cur, i, tables, cp, stack, i - 1);
    if cp.Some? && i > cur[cp.value].index + cur[cp.value].childCount {
      var top := cp.value;
      var cur1, stack1 := Popped(cur, top), stack[..|stack| - 1];
      TreePop(orig, cur, i, tables, cp, stack);
      ClimbKeeps(orig, cur1, i, tables, cur[top].parent, stack1);
      assert ClimbFrom(cur, i, cp) == ClimbFrom(cur1, i, cur[top].parent);
      assert Unwound(orig, stack, i) == Unwound(orig, stack1, i);
    } else {
      assert ClimbFrom(cur, i, cp) == (cur, cp);
      if |stack| > 0 {
        assert cp == Some(stack[|stack| - 1]);
        assert End(orig, cp.value) == cp.value + orig[cp.value].childCount;
      }
      assert Unwound(orig, stack, i) == stack;
    }
  }

  /** The climb stops at a cursor whose range still covers node i. */
  lemma {:induction false} ClimbStops(cur: seq<NodeDef>, i: nat, cp: Option<nat>)
    requires ParentsBelow(cur, i) && (cp.Some? ==> cp.value < i)
    ensures var cur', cp' := ClimbFrom(cur, i, cp).0, ClimbFrom(cur, i, cp).1;
            cp'.Some? ==> cp'.value < |cur'| && i <= cur'[cp'.value].index + cur'[cp'.value].childCount
    decreases if cp.Some? then cp.value + 1 else 0
  {
    if cp.Some? && i > cur[cp.value].index + cur[cp.value].childCount {
      PoppedFrame(cur, cp.value, i);
      ClimbStops(Popped(cur, cp.value), i, cur[cp.value].parent);
    }
  }

  /** The climb keeps the tree part and leaves on the stack only ranges that reach node i. */
  lemma ClimbLands(orig: seq<NodeDef>, cur: seq<NodeDef>, i: nat, tables: seq<ProviderTable>,
                   cp: Option<nat>, stack: seq<nat>, cur': seq<NodeDef>, cp': Option<nat>)
    requires i < |orig| && var t := Tree(orig, cur, i, tables, cp, stack, i - 1); t
    requires ParentsBelow(cur, i) && (cp.Some? ==> cp.value < i)
    requires cur' == ClimbFrom(cur, i, cp).0 && cp' == ClimbFrom(cur, i, cp).1
    ensures var t := Tree(orig, cur', i, tables, cp', Unwound(orig, stack, i), i - 1); t
    ensures var stack' := Unwound(orig, stack, i);
            |stack'| > 0 ==> End(orig, stack'[|stack'| - 1]) >= i
  {
    ClimbKeeps(orig, cur, i, tables, cp, stack);
    ClimbStops(cur, i, cp);
    CursorReaches(orig, cur', i, tables, cp', Unwound(orig, stack, i));
  }

  /** A cursor whose range covers node i is the top of a chain whose top range reaches i. */
  lemma CursorReaches(orig: seq<NodeDef>, cur: seq<NodeDef>, i: nat, tables: seq<ProviderTable>, cp: Option<nat>,
                      stack: seq<nat>)
    requires var t := Tree(orig, cur, i, tables, cp, stack, i - 1); t
    requires cp.Some? ==> cp.value < |cur| && i <= cur[cp.value].index + cur[cp.value].childCount
    ensures |stack| > 0 ==> stack[|stack| - 1] < |orig| && End(orig, stack[|stack| - 1]) >= i
  {
    CursorPlaced(orig, cur, i, tables, cp, stack, i - 1);
    assert IsTop(cp, stack);
  }

  /** The climb at the top of a pass (view.ts:43-49). */
  method Climb(nodes: array<NodeDef>, i: nat, cp: Option<nat>) returns (cp': Option<nat>)
    requires ParentsBelow(nodes[..], i) && (cp.Some? ==> cp.value < i)
    modifies nodes
    ensures (nodes[..], cp') == ClimbFrom(old(nodes[..]), i, cp)
  {
    cp' := cp;
    while cp'.Some? && i > nodes[cp'.value].index + nodes[cp'.value].childCount
      invariant ParentsBelow(nodes[..], i) && (cp'.Some? ==> cp'.value < i)
      invariant ClimbFrom(nodes[..], i, cp') == ClimbFrom(old(nodes[..]), i, cp)
      decreases if cp'.Some? then cp'.value + 1 else 0
    {
      PoppedFrame(nodes[..], cp'.value, i);
      cp' := OrIntoParent(nodes, cp'.value);
    }
  }

  /**
   * A whole pass on values: after the climb, node i's visit is defined, fails
   * exactly with node i's error, and otherwise keeps the invariant.
   */
  lemma PassStep(orig: seq<NodeDef>, cur: seq<NodeDef>, rev: seq<nat>, i: nat, st: BuildState, stack: seq<nat>,
                 cur': seq<NodeDef>, cp': Option<nat>)
    requires i < |orig| && Progress(orig, cur, rev, i, st, stack, i - 1)
    requires ParentsBelow(cur, i) && (st.currentParent.Some? ==> st.currentParent.value < i)
    requires cur' == ClimbFrom(cur, i, st.currentParent).0 && cp' == ClimbFrom(cur, i, st.currentParent).1
    ensures Ready(cur', rev, i, st.(currentParent := cp'))
    ensures var r := VisitSpec(cur', rev, i, st.(currentParent := cp'));
            (r.Failure? ==> NodeError(orig, i) == Some(r.error)) &&
            (r.Success? ==> Progress(orig, r.value.nodes, r.value.rev, i + 1, r.value.state,
                                     Pushed(orig, Unwound(orig, stack, i), i), i))
  {
    ClimbLands(orig, cur, i, st.tables, st.currentParent, stack, cur', cp');
    ClimbParent(orig, cur', i, st.tables, cp', Unwound(orig, stack, i));
    ScannedCursor(orig, rev, i, st, cp');
    assert st.(currentParent := cp').tables == st.tables && st.(currentParent := cp').currentParent == cp';
    VisitStep(orig, cur', rev, i, st.(currentParent := cp'), Unwound(orig, stack, i));
  }

  /** Once the chain holds only ranges that reach node i, its top is node i's parent. */
  lemma ClimbParent(orig: seq<NodeDef>, cur: seq<NodeDef>, i: nat, tables: seq<ProviderTable>, cp: Option<nat>,
                    stack: seq<nat>)
    requires i < |orig| && var t := Tree(orig, cur, i, tables, cp, stack, i - 1); t
    requires |stack| > 0 ==> End(orig, stack[|stack| - 1]) >= i
    ensures ParentOf(orig, i) == cp && OpenStack(orig, cur, i, stack, i, i)
  {
    ParentFromStack(orig, cur, i, stack);
  }

  /**
   * One pass of viewDef's loop (view.ts:41-125): climb out of the ranges that
   * ended before i, then visit node i.
   */
  method Step(nodes: array<NodeDef>, rev: array<nat>, ghost orig: seq<NodeDef>, i: nat, st: BuildState,
              ghost stack: seq<nat>)
    returns (res: Result<BuildState, ViewDefError>, ghost stack': seq<nat>)
    requires i < |orig| && Progress(orig, nodes[..], rev[..], i, st, stack, i - 1)
    modifies nodes, rev
    ensures res.Failure? ==> NodeError(orig, i) == Some(res.error)
    ensures res.Success? ==> Progress(orig, nodes[..], rev[..], i + 1, res.value, stack', i)
  {
    ghost var cur := nodes[..];
    CursorPlaced(orig, cur, i, st.tables, st.currentParent, stack, i - 1);
    TreeParents(orig, cur, i, st.tables, st.currentParent, stack, i - 1);
    var cp := Climb(nodes, i, st.currentParent);
    PassStep(orig, cur, rev[..], i, st, stack, nodes[..], cp);
    res := VisitNode(nodes, rev, i, st.(currentParent := cp));
    stack' := Pushed(orig, Unwound(orig, stack, i), i);
  }

  /** The closing climb (view.ts:126-133): every range still open has ended. */
  method CloseAll(nodes: array<NodeDef>, ghost orig: seq<NodeDef>, tables: seq<ProviderTable>, cp: Option<nat>,
                  ghost stack: seq<nat>)
    returns (ghost stack': seq<nat>)
    requires Tree(orig, nodes[..], |orig|, tables, cp, stack, |orig| - 1) && NestedUpTo(orig, |orig|)
    modifies nodes
    ensures Tree(orig, nodes[..], |orig|, tables, None, stack', |orig| - 1)
  {
    var c := cp;
    stack' := stack;
    while c.Some?
      invariant Tree(orig, nodes[..], |orig|, tables, c, stack', |orig| - 1)
      decreases |stack'|
    {
      NestedEndBound(orig, c.value);
      c, stack' := CloseTop(nodes, orig, nodes.Length, tables, c, stack');
    }
  }

  /** The loop of viewDef (view.ts:41-125), from the state before the first node. */
  method Scan(nodes: array<NodeDef>, rev: array<nat>, ghost orig: seq<NodeDef>)
    returns (res: Result<BuildState, ViewDefError>, ghost stack: seq<nat>)
    requires Progress(orig, nodes[..], rev[..], 0, InitialState(), [], -1)
    modifies nodes, rev
    ensures res.Failure? ==> exists k :: FirstError(orig, k) && NodeError(orig, k) == Some(res.error)
    ensures res.Success? ==> Progress(orig, nodes[..], rev[..], |orig|, res.value, stack, |orig| - 1)
  {
    var st := InitialState();
    stack := [];
    for i := 0 to nodes.Length
      invariant Progress(orig, nodes[..], rev[..], i, st, stack, i - 1)
    {
      var r;
      r, stack := Step(nodes, rev, orig, i, st, stack);
      if r.Failure? {
        assert FirstError(orig, i);
        res := Failure(r.error);
        return;
      }
      st := r.value;
    }
    res := Success(st);
  }

  /** The closing climb and the returned definition (view.ts:126-143). */
  method Finalize(flags: Flags, nodes: array<NodeDef>, rev: array<nat>, ghost orig: seq<NodeDef>, st: BuildState,
                  ghost stack: seq<nat>)
    returns (d: ViewDefinition)
    requires Progress(orig, nodes[..], rev[..], |orig|, st, stack, |orig| - 1)
    modifies nodes
    ensures Built(orig, flags, d) && d.nodes == nodes[..]
  {
    AcceptedNested(orig, |orig|);
    ghost var stack' := CloseAll(nodes, orig, st.tables, st.currentParent, stack);
    ScannedCursor(orig, rev[..], nodes.Length, st, None);
    Finish(orig, nodes[..], rev[..], st.(currentParent := None), flags);
    d := ViewDefinition(flags, nodes[..], st.nodeFlags, rev[..], st.lastRootNode, st.bindingCount,
                        st.disposableCount, st.tables);
  }

  /**
   * viewDef (view.ts:24-144): fills in the computed fields of every node in
   * place, in one depth-first pass, and returns the view definition; rejects
   * an empty list and the first node validateNode refuses.
   */
  method ViewDef(flags: Flags, nodes: array<NodeDef>) returns (r: Result<ViewDefinition, ViewDefError>)
    requires Input(nodes[..])
    modifies nodes
    ensures nodes.Length == 0 ==> r == Failure(EmptyView)
    ensures r.Success? <==> nodes.Length > 0 && Accepted(old(nodes[..]))
    ensures r.Failure? && nodes.Length > 0 ==>
              exists k :: FirstError(old(nodes[..]), k) && NodeError(old(nodes[..]), k) == Some(r.error)
    ensures r.Success? ==> Built(old(nodes[..]), flags, r.value) && r.value.nodes == nodes[..]
  {
    ghost var orig := nodes[..];
    if nodes.Length == 0 {
      return Failure(EmptyView);
    }
    var rev := new nat[nodes.Length](_ => 0);
    InitProgress(orig, rev[..]);
    var res, stack := Scan(nodes, rev, orig);
    if res.Failure? {
      return Failure(res.error);
    }
    var d := Finalize(flags, nodes, rev, orig, res.value, stack);
    r := Success(d);
  }
}
