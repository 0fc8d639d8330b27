/**
 * The change-detection half of core/src/view/provider.ts: writing bound
 * values into directive instances (checkAndUpdateProp and the inline and
 * dynamic directive checks, provider.ts:172-228 and 396-429) and calling
 * the after-content, after-view and destroy hooks children first
 * (provider.ts:431-469).
 *
 * A directive check is specified by a fold over the bindings in the order
 * the code visits them; the lemmas say what the fold computes: which
 * binding slots take the new value, which keys the SimpleChanges map gets
 * and with which change, and when an OnPush component view is re-enabled.
 */
module ProviderChecks {
  import opened Wrappers
  import opened JsValues
  import opened ViewTypes
  import opened ViewShape
  import opened ViewWalks
  import opened Views

  // ---------------------------------------------------------------- hooks

  /** The hooks callProviderLifecycles knows, in the order it calls them. */
  const HookOrder: seq<Flags> := [AfterContentInit, AfterContentChecked, AfterViewInit, AfterViewChecked, OnDestroy]

  /** The positions in hs, from lo on, of the hooks the lifecycles include. */
  function HookPicks(hs: seq<Flags>, lifecycles: Flags, lo: nat): (r: seq<nat>)
    requires lo <= |hs|
    ensures forall a :: 0 <= a < |r| ==> lo <= r[a] < |hs| && Has(lifecycles, hs[r[a]])
    decreases |hs| - lo
  {
    if lo == |hs| then []
    else (if Has(lifecycles, hs[lo]) then [lo] else []) + HookPicks(hs, lifecycles, lo + 1)
  }

  /** Every hook the lifecycles include is picked. */
  lemma {:induction false} HookPicksComplete(hs: seq<Flags>, lifecycles: Flags, lo: nat, j: nat)
    requires lo <= j < |hs| && Has(lifecycles, hs[j])
    ensures j in HookPicks(hs, lifecycles, lo)
    decreases |hs| - lo
  {
    if lo < j {
      HookPicksComplete(hs, lifecycles, lo + 1, j);
    }
  }

  /** The hooks are picked in the list's order, each once. */
  lemma {:induction false} HookPicksAscending(hs: seq<Flags>, lifecycles: Flags, lo: nat)
    requires lo <= |hs|
    ensures forall a, b :: 0 <= a < b < |HookPicks(hs, lifecycles, lo)| ==>
              HookPicks(hs, lifecycles, lo)[a] < HookPicks(hs, lifecycles, lo)[b]
    decreases |hs| - lo
  {
    if lo < |hs| {
      HookPicksAscending(hs, lifecycles, lo + 1);
      var t := HookPicks(hs, lifecycles, lo + 1);
      var h: seq<nat> := if Has(lifecycles, hs[lo]) then [lo] else [];
      var r := h + t;
      assert HookPicks(hs, lifecycles, lo) == r;
      forall a, b | 0 <= a < b < |r|
        ensures r[a] < r[b]
      {
        assert r[b] == t[b - |h|];
        assert lo + 1 <= t[b - |h|];
        if a >= |h| {
          assert r[a] == t[a - |h|];
          assert 0 <= a - |h| < b - |h| < |t|;
          assert t[a - |h|] < t[b - |h|];
        } else {
          assert r[a] == lo;
        }
      }
    }
  }

  /**
   * callProviderLifecycles (provider.ts:453-469) on the instance of node k of
   * view v: the hooks the lifecycles include, in HookOrder.
   */
  function ProviderLifecycleEvents(v: nat, k: nat, lifecycles: Flags): (evs: seq<Event>)
    ensures forall a :: 0 <= a < |evs| ==>
              evs[a].LifecycleHook? && evs[a].view == v && evs[a].node == k &&
              evs[a].hook in HookOrder && Has(lifecycles, evs[a].hook)
  {
    var picks := HookPicks(HookOrder, lifecycles, 0);
    seq(|picks|, a requires 0 <= a < |picks| => LifecycleHook(v, k, HookOrder[picks[a]]))
  }

  /** The hooks of the list come in HookOrder's order. */
  predicate HooksInOrder(evs: seq<Event>)
  {
    (forall a :: 0 <= a < |evs| ==> evs[a].LifecycleHook?) &&
    forall a, b :: 0 <= a < b < |evs| ==> HookBefore(evs[a].hook, evs[b].hook)
  }

  /** Hook h1 comes before hook h2 in HookOrder. */
  predicate HookBefore(h1: Flags, h2: Flags)
  {
    exists p, q :: 0 <= p < q < |HookOrder| && h1 == HookOrder[p] && h2 == HookOrder[q]
  }

  /**
   * Each hook the lifecycles include is called, once, and the hooks come in
   * the fixed order.
   */
  lemma ProviderLifecycleEventsOrder(v: nat, k: nat, lifecycles: Flags)
    ensures forall j :: 0 <= j < |HookOrder| && Has(lifecycles, HookOrder[j]) ==>
              LifecycleHook(v, k, HookOrder[j]) in ProviderLifecycleEvents(v, k, lifecycles)
    ensures HooksInOrder(ProviderLifecycleEvents(v, k, lifecycles))
  {
    var picks := HookPicks(HookOrder, lifecycles, 0);
    HookPicksAscending(HookOrder, lifecycles, 0);
    assert |ProviderLifecycleEvents(v, k, lifecycles)| == |picks|;
    forall j | 0 <= j < |HookOrder| && Has(lifecycles, HookOrder[j])
      ensures LifecycleHook(v, k, HookOrder[j]) in ProviderLifecycleEvents(v, k, lifecycles)
    {
      HookPicksComplete(HookOrder, lifecycles, 0, j);
      var a :| 0 <= a < |picks| && picks[a] == j;
      assert ProviderLifecycleEvents(v, k, lifecycles)[a] == LifecycleHook(v, k, HookOrder[j]);
    }
    var evs := ProviderLifecycleEvents(v, k, lifecycles);
    forall a, b | 0 <= a < b < |evs|
      ensures HookBefore(evs[a].hook, evs[b].hook)
    {
      var p, q := picks[a], picks[b];
      assert evs[a].hook == HookOrder[p];
      assert evs[b].hook == HookOrder[q];
      assert 0 <= p < q < |HookOrder|;
    }
    assert HooksInOrder(evs);
  }

  /** The hooks called on the listed nodes of view v, node by node. */
  function HookEvents(v: nat, d: ViewDefinition, ks: seq<nat>, lifecycles: Flags): seq<Event>
    requires forall j :: 0 <= j < |ks| ==> ks[j] < |d.nodes|
  {
    if ks == [] then []
    else
      var last := ks[|ks| - 1];
      HookEvents(v, d, ks[..|ks| - 1], lifecycles) + ProviderLifecycleEvents(v, last, d.nodes[last].flags & lifecycles)
  }

  /**
   * Every hook called is one the node's flags declare and the caller asked
   * for, and it is called in view v.
   */
  lemma {:induction false} HookEventsSound(v: nat, d: ViewDefinition, ks: seq<nat>, lifecycles: Flags)
    requires forall j :: 0 <= j < |ks| ==> ks[j] < |d.nodes|
    ensures forall e :: e in HookEvents(v, d, ks, lifecycles) ==>
              e.LifecycleHook? && e.view == v && e.node in ks && e.hook in HookOrder &&
              Has(d.nodes[e.node].flags & lifecycles, e.hook)
    decreases |ks|
  {
    if ks != [] {
      HookEventsSound(v, d, ks[..|ks| - 1], lifecycles);
    }
  }

  /** Each node of the list gets every hook it declares among the lifecycles. */
  lemma {:induction false} HookEventsComplete(v: nat, d: ViewDefinition, ks: seq<nat>, lifecycles: Flags, j: nat, p: nat)
    requires forall j :: 0 <= j < |ks| ==> ks[j] < |d.nodes|
    requires j < |ks| && p < |HookOrder| && Has(d.nodes[ks[j]].flags & lifecycles, HookOrder[p])
    ensures LifecycleHook(v, ks[j], HookOrder[p]) in HookEvents(v, d, ks, lifecycles)
    decreases |ks|
  {
    if j < |ks| - 1 {
      HookEventsComplete(v, d, ks[..|ks| - 1], lifecycles, j, p);
    } else {
      ProviderLifecycleEventsOrder(v, ks[j], d.nodes[ks[j]].flags & lifecycles);
    }
  }

  lemma HookEventsAppend(v: nat, d: ViewDefinition, ks: seq<nat>, k: nat, lifecycles: Flags)
    requires forall j :: 0 <= j < |ks| ==> ks[j] < |d.nodes|
    requires k < |d.nodes|
    ensures HookEvents(v, d, ks + [k], lifecycles) ==
            HookEvents(v, d, ks, lifecycles) + ProviderLifecycleEvents(v, k, d.nodes[k].flags & lifecycles)
  {
    assert (ks + [k])[..|ks|] == ks;
  }

  /**
   * A node whose hooks can be called: its data is provider data holding a
   * created instance.  A lazy provider nobody asked for still holds
   * NOT_CREATED (provider.ts:29 and 133), a plain object without hook
   * methods, and so does any other node data: calling a hook on it throws.
   */
  predicate HookReady(nodes: seq<NodeData>, k: nat)
  {
    k < |nodes| && nodes[k].ProviderData? && nodes[k].instance.Created?
  }

  predicate AllReady(nodes: seq<NodeData>, ks: seq<nat>)
  {
    forall j :: 0 <= j < |ks| ==> HookReady(nodes, ks[j])
  }

  /** How many of the listed nodes, from the first on, can have their hooks called before one that cannot. */
  function ReadyPrefix(nodes: seq<NodeData>, ks: seq<nat>): (p: nat)
    ensures p <= |ks|
    ensures forall j :: 0 <= j < p ==> HookReady(nodes, ks[j])
    ensures p < |ks| ==> !HookReady(nodes, ks[p])
    decreases |ks|
  {
    if ks == [] || !HookReady(nodes, ks[0]) then 0
    else
      assert forall j :: 1 <= j < |ks| ==> ks[1..][j - 1] == ks[j];
      1 + ReadyPrefix(nodes, ks[1..])
  }

  /** After a run of ready nodes, the ready prefix goes on into what follows. */
  lemma {:induction false} ReadyPrefixAppend(nodes: seq<NodeData>, a: seq<nat>, b: seq<nat>)
    requires AllReady(nodes, a)
    ensures ReadyPrefix(nodes, a + b) == |a| + ReadyPrefix(nodes, b)
    decreases |a|
  {
    if a == [] {
      assert a + b == b;
    } else {
      assert (a + b)[1..] == a[1..] + b;
      ReadyPrefixAppend(nodes, a[1..], b);
    }
  }

  lemma ReadyAppend(nodes: seq<NodeData>, ks: seq<nat>, k: nat)
    requires AllReady(nodes, ks) && HookReady(nodes, k)
    ensures AllReady(nodes, ks + [k])
  {
  }

  /** The hooks of every listed node can be called exactly when none of them holds something else. */
  lemma ReadyPrefixAll(nodes: seq<NodeData>, ks: seq<nat>)
    ensures ReadyPrefix(nodes, ks) == |ks| <==> AllReady(nodes, ks)
  {
  }

  /**
   * What the hook walk amounts to: the hooks of the hook targets up to the
   * first that is not ready, and whether every target was ready.
   */
  function HookRun(v: nat, d: ViewDefinition, nodes: seq<NodeData>, lifecycles: Flags): (bool, seq<Event>)
    requires Walkable(d)
  {
    var ks := HookTargets(d, 0, |d.nodes|, lifecycles);
    var p := ReadyPrefix(nodes, ks);
    (p == |ks|, HookEvents(v, d, ks[..p], lifecycles))
  }

  /**
   * The walk runs through exactly when every hook target holds a created
   * instance, and then it calls the hooks of all of them; whatever it calls
   * happens in view v, on a target, and is a hook the target declares.
   */
  lemma HookRunFacts(v: nat, d: ViewDefinition, nodes: seq<NodeData>, lifecycles: Flags)
    requires Walkable(d)
    ensures var ks := HookTargets(d, 0, |d.nodes|, lifecycles);
            (HookRun(v, d, nodes, lifecycles).0 <==> AllReady(nodes, ks)) &&
            (HookRun(v, d, nodes, lifecycles).0 ==> HookRun(v, d, nodes, lifecycles).1 == HookEvents(v, d, ks, lifecycles))
    ensures EventsIn(v, HookRun(v, d, nodes, lifecycles).1)
    ensures forall e :: e in HookRun(v, d, nodes, lifecycles).1 ==>
              e.LifecycleHook? && e.node in HookTargets(d, 0, |d.nodes|, lifecycles) && Has(d.nodes[e.node].flags & lifecycles, e.hook)
  {
    var ks := HookTargets(d, 0, |d.nodes|, lifecycles);
    var p := ReadyPrefix(nodes, ks);
    ReadyPrefixAll(nodes, ks);
    assert ks[..|ks|] == ks;
    HookEventsSound(v, d, ks[..p], lifecycles);
    var evs := HookRun(v, d, nodes, lifecycles).1;
    forall k | 0 <= k < |evs|
      ensures evs[k].view == v
    {
      assert evs[k] in evs;
    }
  }

  /** What the hook walk has done after the first i positions: the hooks of their targets, all of them ready. */
  predicate HooksSoFar(v: nat, d: ViewDefinition, nodes: seq<NodeData>, lifecycles: Flags, i: nat, evs: seq<Event>)
    requires Walkable(d)
  {
    i <= |d.nodes| &&
    evs == HookEvents(v, d, HookTargets(d, 0, i, lifecycles), lifecycles) &&
    AllReady(nodes, HookTargets(d, 0, i, lifecycles))
  }

  /** The walk meets a ready hook target: its hooks are called. */
  lemma HooksHit(v: nat, d: ViewDefinition, nodes: seq<NodeData>, lifecycles: Flags, i: nat, evs: seq<Event>)
    requires Walkable(d) && i < |d.nodes| && HooksSoFar(v, d, nodes, lifecycles, i, evs)
    requires d.reverseChildNodes[i] < |d.nodes|
    requires Has(d.nodes[d.reverseChildNodes[i]].flags, lifecycles) && HookReady(nodes, d.reverseChildNodes[i])
    ensures var k := d.reverseChildNodes[i];
            HooksSoFar(v, d, nodes, lifecycles, i + 1, evs + ProviderLifecycleEvents(v, k, d.nodes[k].flags & lifecycles))
  {
    var k := d.reverseChildNodes[i];
    var before := HookTargets(d, 0, i, lifecycles);
    HookWalkStep(d, i, lifecycles);
    HookEventsAppend(v, d, before, k, lifecycles);
    ReadyAppend(nodes, before, k);
  }

  /** The walk passes a node that is no hook target but may have some below it. */
  lemma HooksPass(v: nat, d: ViewDefinition, nodes: seq<NodeData>, lifecycles: Flags, i: nat, evs: seq<Event>)
    requires Walkable(d) && i < |d.nodes| && HooksSoFar(v, d, nodes, lifecycles, i, evs)
    requires d.reverseChildNodes[i] < |d.nodes|
    requires !Has(d.nodes[d.reverseChildNodes[i]].flags, lifecycles)
    ensures HooksSoFar(v, d, nodes, lifecycles, i + 1, evs)
  {
    var before := HookTargets(d, 0, i, lifecycles);
    HookWalkStep(d, i, lifecycles);
    assert before + [] == before;
  }

  /** The walk jumps over a node and its descendants, none of them a hook target. */
  lemma HooksSkip(v: nat, d: ViewDefinition, nodes: seq<NodeData>, lifecycles: Flags, i: nat, evs: seq<Event>)
    requires Walkable(d) && i < |d.nodes| && HooksSoFar(v, d, nodes, lifecycles, i, evs)
    requires d.reverseChildNodes[i] < |d.nodes|
    requires !Has(d.nodes[d.reverseChildNodes[i]].flags, lifecycles)
    requires !Has(d.nodes[d.reverseChildNodes[i]].childFlags, lifecycles)
    ensures HooksSoFar(v, d, nodes, lifecycles, i + 1 + d.nodes[d.reverseChildNodes[i]].childCount, evs)
  {
    HookWalkSkip(d, i, lifecycles);
  }

  /** The walk stops at a hook target that is not ready: the hooks called are those of the targets before it. */
  lemma HooksStopAt(v: nat, d: ViewDefinition, nodes: seq<NodeData>, lifecycles: Flags, q: nat, evs: seq<Event>)
    requires Walkable(d) && q < |d.nodes| && HooksSoFar(v, d, nodes, lifecycles, q, evs)
    requires d.reverseChildNodes[q] < |d.nodes|
    requires Has(d.nodes[d.reverseChildNodes[q]].flags, lifecycles) && !HookReady(nodes, d.reverseChildNodes[q])
    ensures HookRun(v, d, nodes, lifecycles) == (false, evs)
  {
    var k := d.reverseChildNodes[q];
    var ks := HookTargets(d, 0, |d.nodes|, lifecycles);
    var before := HookTargets(d, 0, q, lifecycles);
    var after := HookTargets(d, q + 1, |d.nodes|, lifecycles);
    HookWalkStep(d, q, lifecycles);
    HookTargetsSplit(d, 0, q + 1, |d.nodes|, lifecycles);
    assert ks == before + ([k] + after);
    ReadyPrefixAppend(nodes, before, [k] + after);
    assert ks[..|before|] == before;
  }

  /** The walk reaches the end: every hook target was ready and had its hooks called. */
  lemma HooksDone(v: nat, d: ViewDefinition, nodes: seq<NodeData>, lifecycles: Flags, evs: seq<Event>)
    requires Walkable(d) && HooksSoFar(v, d, nodes, lifecycles, |d.nodes|, evs)
    ensures HookRun(v, d, nodes, lifecycles) == (true, evs)
  {
    var ks := HookTargets(d, 0, |d.nodes|, lifecycles);
    ReadyPrefixAll(nodes, ks);
    assert ks[..|ks|] == ks;
  }

  /** The early return: with no hook target at all, nothing is called. */
  lemma HooksNone(v: nat, d: ViewDefinition, nodes: seq<NodeData>, lifecycles: Flags)
    requires Walkable(d) && !Has(d.nodeFlags, lifecycles)
    ensures HookRun(v, d, nodes, lifecycles) == (true, [])
  {
    NoHookTargets(d, lifecycles);
  }

  /** The walk starts with nothing done. */
  lemma HooksStart(v: nat, d: ViewDefinition, nodes: seq<NodeData>, lifecycles: Flags)
    requires Walkable(d)
    ensures HooksSoFar(v, d, nodes, lifecycles, 0, [])
  {
  }

  /**
   * callLifecycleHooksChildrenFirst (provider.ts:431-451): walks the
   * definition in reverse child order, calling the hooks of every node whose
   * flags meet the lifecycles and jumping over the descendants of a node
   * whose childFlags miss them; nothing at all when the view's nodeFlags
   * miss them.  The hooks called are those of the hook targets up to the
   * first whose data holds no created instance; that one throws (ok is
   * false) and ends the walk.
   */
  method CallLifecycleHooksChildrenFirst(v: nat, d: ViewDefinition, nodes: seq<NodeData>, lifecycles: Flags)
    returns (ok: bool, evs: seq<Event>)
    requires Walkable(d)
    ensures (ok, evs) == HookRun(v, d, nodes, lifecycles)
  {
    ok, evs := true, [];
    if !Has(d.nodeFlags, lifecycles) {
      HooksNone(v, d, nodes, lifecycles);
      return;
    }
    HooksStart(v, d, nodes, lifecycles);
    var len := |d.nodes|;
    var i := 0;
    while i < len
      invariant i <= len && HooksSoFar(v, d, nodes, lifecycles, i, evs)
      decreases len - i
    {
      var k := d.reverseChildNodes[i];
      if Has(d.nodes[k].flags, lifecycles) {
        if !(k < |nodes| && nodes[k].ProviderData? && nodes[k].instance.Created?) {
          HooksStopAt(v, d, nodes, lifecycles, i, evs);
          return false, evs;
        }
        HooksHit(v, d, nodes, lifecycles, i, evs);
        evs := evs + ProviderLifecycleEvents(v, k, d.nodes[k].flags & lifecycles);
        i := i + 1;
      } else if !Has(d.nodes[k].childFlags, lifecycles) {
        HooksSkip(v, d, nodes, lifecycles, i, evs);
        i := i + d.nodes[k].childCount + 1;
      } else {
        HooksPass(v, d, nodes, lifecycles, i, evs);
        i := i + 1;
      }
    }
    HooksDone(v, d, nodes, lifecycles, evs);
  }

  // ------------------------------------------------------- directive checks

  /**
   * What checkAndUpdateProp has built up so far: the view's oldValues, the
   * properties written into the instance, the SimpleChanges map (undefined
   * until the first recorded change) and whether any binding changed.
   */
  datatype PropsState = PropsState(
    oldValues: seq<JsValue>,
    props: map<string, JsValue>,
    changes: Option<map<string, SimpleChange>>,
    anyChanged: bool)

  /**
   * checkAndUpdateBinding's answer (util.ts, not part of this model) for the
   * old value, the new value and whether the view is in its first check.
   * When it answers true it has stored the new value in oldValues.
   */
  type ChangeTest = (JsValue, JsValue, bool) -> bool

  /** checkAndUpdateProp (provider.ts:396-429) for binding b of directive n, on values alone. */
  function PropStep(n: NodeDef, st: PropsState, firstCheck: bool, b: nat, value: JsValue, changed: ChangeTest): (r: PropsState)
    requires b < |n.bindings| && n.bindingIndex + b < |st.oldValues|
    ensures |r.oldValues| == |st.oldValues|
  {
    var oldValue := st.oldValues[n.bindingIndex + b];
    if !changed(oldValue, value, firstCheck) then st
    else
      var binding := n.bindings[b];
      PropsState(
        st.oldValues[n.bindingIndex + b := value],
        st.props[binding.name := value],
        if Has(n.flags, OnChanges)
        then Some(st.changes.GetOr(map[])[binding.nonMinifiedName := SimpleChange(oldValue, value, firstCheck)])
        else st.changes,
        true)
  }

  /** The bindings listed all belong to n, each once. */
  predicate BindingOrder(n: NodeDef, bs: seq<nat>)
  {
    (forall j :: 0 <= j < |bs| ==> bs[j] < |n.bindings|) &&
    (forall j, j' :: 0 <= j < j' < |bs| ==> bs[j] != bs[j'])
  }

  /** checkAndUpdateProp applied to the bindings bs with the values vals, in order. */
  function PropsFold(n: NodeDef, st: PropsState, firstCheck: bool, bs: seq<nat>, vals: seq<JsValue>, changed: ChangeTest): (r: PropsState)
    requires |bs| == |vals| && BindingOrder(n, bs)
    requires n.bindingIndex + |n.bindings| <= |st.oldValues|
    ensures |r.oldValues| == |st.oldValues|
    decreases |bs|
  {
    if bs == [] then st
    else
      var m := |bs| - 1;
      PropStep(n, PropsFold(n, st, firstCheck, bs[..m], vals[..m], changed), firstCheck, bs[m], vals[m], changed)
  }

  /** Whether the binding at position j of the order reports a change against the starting oldValues. */
  predicate ChangedAt(n: NodeDef, olds: seq<JsValue>, firstCheck: bool, bs: seq<nat>, vals: seq<JsValue>, changed: ChangeTest, j: nat)
    requires |bs| == |vals| && j < |bs| && n.bindingIndex + bs[j] < |olds|
  {
    changed(olds[n.bindingIndex + bs[j]], vals[j], firstCheck)
  }

  /**
   * A binding slot keeps its old value until its own turn comes: each
   * binding is visited once, so a binding's check compares against the
   * value the view held before the directive check.
   */
  lemma {:induction false} FoldLeavesOthers(n: NodeDef, st: PropsState, firstCheck: bool, bs: seq<nat>, vals: seq<JsValue>, changed: ChangeTest, b: nat)
    requires |bs| == |vals| && BindingOrder(n, bs)
    requires n.bindingIndex + |n.bindings| <= |st.oldValues|
    requires b < |n.bindings| && b !in bs
    ensures PropsFold(n, st, firstCheck, bs, vals, changed).oldValues[n.bindingIndex + b] == st.oldValues[n.bindingIndex + b]
    decreases |bs|
  {
    if bs != [] {
      var m := |bs| - 1;
      assert b !in bs[..m];
      FoldLeavesOthers(n, st, firstCheck, bs[..m], vals[..m], changed, b);
    }
  }

  lemma PrefixOrder(n: NodeDef, bs: seq<nat>, vals: seq<JsValue>, m: nat)
    requires |bs| == |vals| && BindingOrder(n, bs) && m <= |bs|
    ensures BindingOrder(n, bs[..m]) && |bs[..m]| == |vals[..m]|
  {
  }

  /**
   * The binding slots after the check: a binding that reported a change
   * holds its new value, every other slot is as before.
   */
  lemma {:induction false} FoldOldValues(n: NodeDef, st: PropsState, firstCheck: bool, bs: seq<nat>, vals: seq<JsValue>, changed: ChangeTest, j: nat)
    requires |bs| == |vals| && BindingOrder(n, bs)
    requires n.bindingIndex + |n.bindings| <= |st.oldValues|
    requires j < |bs|
    ensures PropsFold(n, st, firstCheck, bs, vals, changed).oldValues[n.bindingIndex + bs[j]] ==
            if ChangedAt(n, st.oldValues, firstCheck, bs, vals, changed, j) then vals[j] else st.oldValues[n.bindingIndex + bs[j]]
    decreases |bs|
  {
    var m := |bs| - 1;
    PrefixOrder(n, bs, vals, m);
    if j < m {
      FoldOldValues(n, st, firstCheck, bs[..m], vals[..m], changed, j);
    } else {
      assert bs[m] !in bs[..m];
      FoldLeavesOthers(n, st, firstCheck, bs[..m], vals[..m], changed, bs[m]);
    }
  }

  /** Some binding reported a change exactly when the fold says so. */
  lemma {:induction false} FoldAnyChanged(n: NodeDef, st: PropsState, firstCheck: bool, bs: seq<nat>, vals: seq<JsValue>, changed: ChangeTest)
    requires |bs| == |vals| && BindingOrder(n, bs)
    requires n.bindingIndex + |n.bindings| <= |st.oldValues|
    ensures PropsFold(n, st, firstCheck, bs, vals, changed).anyChanged <==>
            st.anyChanged || exists j :: 0 <= j < |bs| && ChangedAt(n, st.oldValues, firstCheck, bs, vals, changed, j)
    decreases |bs|
  {
    if bs != [] {
      var m := |bs| - 1;
      PrefixOrder(n, bs, vals, m);
      FoldAnyChanged(n, st, firstCheck, bs[..m], vals[..m], changed);
      assert bs[m] !in bs[..m];
      FoldLeavesOthers(n, st, firstCheck, bs[..m], vals[..m], changed, bs[m]);
      forall j | 0 <= j < m
        ensures ChangedAt(n, st.oldValues, firstCheck, bs[..m], vals[..m], changed, j) ==
                ChangedAt(n, st.oldValues, firstCheck, bs, vals, changed, j)
      {
      }
      var prev := PropsFold(n, st, firstCheck, bs[..m], vals[..m], changed);
      var chm := changed(prev.oldValues[n.bindingIndex + bs[m]], vals[m], firstCheck);
      assert PropsFold(n, st, firstCheck, bs, vals, changed).anyChanged == (prev.anyChanged || chm);
      assert chm == ChangedAt(n, st.oldValues, firstCheck, bs, vals, changed, m);
      if prev.anyChanged && !st.anyChanged {
        var j :| 0 <= j < m && ChangedAt(n, st.oldValues, firstCheck, bs[..m], vals[..m], changed, j);
        assert ChangedAt(n, st.oldValues, firstCheck, bs, vals, changed, j);
      }
      if exists j :: 0 <= j < |bs| && ChangedAt(n, st.oldValues, firstCheck, bs, vals, changed, j) {
        var j :| 0 <= j < |bs| && ChangedAt(n, st.oldValues, firstCheck, bs, vals, changed, j);
        if j < m {
          assert ChangedAt(n, st.oldValues, firstCheck, bs[..m], vals[..m], changed, j);
        }
      }
    }
  }

  /**
   * Without OnChanges no SimpleChanges are recorded; with it, a key is
   * recorded exactly for the non-minified name of a binding that changed.
   */
  lemma {:induction false} FoldChangeKeys(n: NodeDef, st: PropsState, firstCheck: bool, bs: seq<nat>, vals: seq<JsValue>, changed: ChangeTest, key: string)
    requires |bs| == |vals| && BindingOrder(n, bs)
    requires n.bindingIndex + |n.bindings| <= |st.oldValues|
    requires st.changes.None?
    ensures var r := PropsFold(n, st, firstCheck, bs, vals, changed);
            (!Has(n.flags, OnChanges) ==> r.changes.None?) &&
            (r.changes.Some? && key in r.changes.value <==>
               Has(n.flags, OnChanges) &&
               exists j :: 0 <= j < |bs| && ChangedAt(n, st.oldValues, firstCheck, bs, vals, changed, j) &&
                           n.bindings[bs[j]].nonMinifiedName == key)
    decreases |bs|
  {
    if bs != [] {
      var m := |bs| - 1;
      PrefixOrder(n, bs, vals, m);
      FoldChangeKeys(n, st, firstCheck, bs[..m], vals[..m], changed, key);
      assert bs[m] !in bs[..m];
      FoldLeavesOthers(n, st, firstCheck, bs[..m], vals[..m], changed, bs[m]);
      forall j | 0 <= j < m
        ensures ChangedAt(n, st.oldValues, firstCheck, bs[..m], vals[..m], changed, j) ==
                ChangedAt(n, st.oldValues, firstCheck, bs, vals, changed, j)
      {
      }
    }
  }

  /**
   * A recorded SimpleChange holds the value the binding had before the
   * check, the value it was given, and whether this is the first check.
   */
  lemma {:induction false} FoldChangeValues(n: NodeDef, st: PropsState, firstCheck: bool, bs: seq<nat>, vals: seq<JsValue>, changed: ChangeTest, key: string)
    requires |bs| == |vals| && BindingOrder(n, bs)
    requires n.bindingIndex + |n.bindings| <= |st.oldValues|
    requires st.changes.None?
    requires PropsFold(n, st, firstCheck, bs, vals, changed).changes.Some?
    requires key in PropsFold(n, st, firstCheck, bs, vals, changed).changes.value
    ensures exists j :: 0 <= j < |bs| && n.bindings[bs[j]].nonMinifiedName == key &&
              PropsFold(n, st, firstCheck, bs, vals, changed).changes.value[key] ==
              SimpleChange(st.oldValues[n.bindingIndex + bs[j]], vals[j], firstCheck)
    decreases |bs|
  {
    var m := |bs| - 1;
    PrefixOrder(n, bs, vals, m);
    assert bs[m] !in bs[..m];
    FoldLeavesOthers(n, st, firstCheck, bs[..m], vals[..m], changed, bs[m]);
    var prev := PropsFold(n, st, firstCheck, bs[..m], vals[..m], changed);
    var b := n.bindings[bs[m]];
    if changed(prev.oldValues[n.bindingIndex + bs[m]], vals[m], firstCheck) && Has(n.flags, OnChanges) &&
       b.nonMinifiedName == key {
    } else {
      FoldChangeValues(n, st, firstCheck, bs[..m], vals[..m], changed, key);
      var j :| 0 <= j < m && n.bindings[bs[..m][j]].nonMinifiedName == key &&
               prev.changes.value[key] == SimpleChange(st.oldValues[n.bindingIndex + bs[..m][j]], vals[..m][j], firstCheck);
      assert bs[..m][j] == bs[j] && vals[..m][j] == vals[j];
    }
  }

  /** The fold over a longer order is one more checkAndUpdateProp. */
  lemma PropsFoldStep(n: NodeDef, st: PropsState, firstCheck: bool, bs: seq<nat>, vals: seq<JsValue>, changed: ChangeTest, i: nat)
    requires |bs| == |vals| && BindingOrder(n, bs) && i < |bs|
    requires n.bindingIndex + |n.bindings| <= |st.oldValues|
    ensures BindingOrder(n, bs[..i]) && BindingOrder(n, bs[..i + 1])
    ensures PropsFold(n, st, firstCheck, bs[..i + 1], vals[..i + 1], changed) ==
            PropStep(n, PropsFold(n, st, firstCheck, bs[..i], vals[..i], changed), firstCheck, bs[i], vals[i], changed)
  {
    assert bs[..i + 1][..i] == bs[..i];
    assert vals[..i + 1][..i] == vals[..i];
  }

  /** The props state a directive check starts from. */
  function StartProps(r: ViewRecord, i: nat): PropsState
    requires i < |r.nodes| && r.nodes[i].ProviderData?
  {
    PropsState(r.oldValues, r.nodes[i].props, None, false)
  }

  /**
   * The views after a directive check with final props state st: view v
   * holds the new binding values and instance properties, and the
   * component view of a component directive is re-enabled when it is
   * OnPush and some binding changed.
   */
  function AfterDirectiveCheck(views: seq<ViewRecord>, v: nat, i: nat, st: PropsState): seq<ViewRecord>
    requires v < |views| && i < |views[v].nodes| && i < |views[v].def.nodes| && views[v].nodes[i].ProviderData?
  {
    var r := views[v];
    var nd := r.nodes[i];
    var views1 := views[v := r.(oldValues := st.oldValues, nodes := r.nodes[i := nd.(props := st.props)])];
    if st.anyChanged && Has(r.def.nodes[i].flags, HasComponent) && nd.componentView.Some? &&
       nd.componentView.value < |views| && Has(views[nd.componentView.value].def.flags, OnPush)
    then
      var c := nd.componentView.value;
      views1[c := views1[c].(state := Union(views1[c].state, ChecksEnabled))]
    else views1
  }

  /** The directive being checked: a created directive node of a well-formed view. */
  ghost predicate DirectiveAt(views: seq<ViewRecord>, v: nat, i: nat)
  {
    Wf(views) && v < |views| && i < |views[v].def.nodes| && i < |views[v].nodes| &&
    views[v].def.nodes[i].nodeType == Directive && views[v].nodes[i].ProviderData?
  }

  /**
   * A directive check changes only view v and its component view, a child
   * of v, and keeps every view's shape; the component view, when
   * re-enabled, gets ChecksEnabled and keeps its other state bits.
   */
  lemma DirectiveCheckChanges(views: seq<ViewRecord>, v: nat, i: nat, st: PropsState)
    requires DirectiveAt(views, v, i)
    requires |st.oldValues| == |views[v].oldValues|
    ensures Changes(views, AfterDirectiveCheck(views, v, i, st), v)
    ensures Wf(AfterDirectiveCheck(views, v, i, st))
    ensures DirectiveAt(AfterDirectiveCheck(views, v, i, st), v, i)
    ensures AfterDirectiveCheck(views, v, i, st)[v].state == views[v].state
    ensures AfterDirectiveCheck(views, v, i, st)[v].def == views[v].def
  {
    var after := AfterDirectiveCheck(views, v, i, st);
    DirectiveFacts(views, v, i);
    SameKindSameShape(views[v], i, views[v].nodes[i].(props := st.props));
    var nd := views[v].nodes[i];
    if nd.componentView.Some? {
      var c := nd.componentView.value;
      assert ViewWf(views, v);
      assert KidsOk(views, v, i);
      assert Kids(nd)[0] == c;
      ChildInSubtree(views, v, c);
    }
    assert SameShape(views, after);
    WfShape(views, after);
  }

  lemma UnionTwice(s: Flags, b: Flags)
    ensures Union(Union(s, b), b) == Union(s, b)
  {
  }

  /** Two directive checks of the same node in a row amount to one with the later values. */
  lemma AfterDirectiveCheckTwice(views: seq<ViewRecord>, v: nat, i: nat, st1: PropsState, st2: PropsState)
    requires DirectiveAt(views, v, i)
    ensures AfterDirectiveCheck(AfterDirectiveCheck(views, v, i, st1), v, i, st2) ==
            AfterDirectiveCheck(views, v, i, st2.(anyChanged := st1.anyChanged || st2.anyChanged))
  {
    DirectiveFacts(views, v, i);
    var r := views[v];
    var nd := r.nodes[i];
    var a1 := AfterDirectiveCheck(views, v, i, st1);
    var lhs := AfterDirectiveCheck(a1, v, i, st2);
    var rhs := AfterDirectiveCheck(views, v, i, st2.(anyChanged := st1.anyChanged || st2.anyChanged));
    assert a1[v] == r.(oldValues := st1.oldValues, nodes := r.nodes[i := nd.(props := st1.props)]);
    assert r.nodes[i := nd.(props := st1.props)][i := nd.(props := st2.props)] == r.nodes[i := nd.(props := st2.props)];
    assert |lhs| == |rhs|;
    forall u | 0 <= u < |lhs|
      ensures lhs[u] == rhs[u]
    {
      if u != v && nd.componentView == Some(u) {
        UnionTwice(views[u].state, ChecksEnabled);
      }
    }
  }

  /** A check with nothing changed and the current values leaves the views as they are. */
  lemma AfterDirectiveCheckStart(views: seq<ViewRecord>, v: nat, i: nat)
    requires DirectiveAt(views, v, i)
    ensures AfterDirectiveCheck(views, v, i, StartProps(views[v], i)) == views
  {
    var r := views[v];
    assert r.nodes[i := r.nodes[i].(props := r.nodes[i].props)] == r.nodes;
    assert r.(oldValues := r.oldValues, nodes := r.nodes) == r;
    assert views[v := r] == views;
  }

  /** The facts a directive check reads from a well-formed view. */
  ghost predicate DirectiveFactsHold(views: seq<ViewRecord>, v: nat, i: nat)
    requires DirectiveAt(views, v, i)
  {
    var n := views[v].def.nodes[i];
    n.bindingIndex + |n.bindings| <= |views[v].oldValues| &&
    (Has(n.flags, HasComponent) <==> views[v].nodes[i].componentView.Some?) &&
    (views[v].nodes[i].componentView.Some? ==>
       v < views[v].nodes[i].componentView.value < |views|)
  }

  lemma DirectiveFacts(views: seq<ViewRecord>, v: nat, i: nat)
    requires DirectiveAt(views, v, i)
    ensures DirectiveFactsHold(views, v, i)
  {
    assert ViewWf(views, v);
    assert RecordFits(views[v]);
    assert NodeReady(views[v].def, i);
    assert DataFits(views[v].def.nodes[i], KindOf(views[v].nodes[i]));
    assert KidsOk(views, v, i);
    if views[v].nodes[i].componentView.Some? {
      var c := views[v].nodes[i].componentView.value;
      assert Kids(views[v].nodes[i]) == [c];
      assert Kids(views[v].nodes[i])[0] == c;
      assert v < c < |views|;
    }
  }

  /**
   * checkAndUpdateProp (provider.ts:396-429) in place: asks whether binding
   * b changed, and if so stores the value in oldValues and in the
   * instance, re-enables an OnPush component view, and records a
   * SimpleChange when the directive has OnChanges.
   */
  method CheckAndUpdateProp(rt: Arena, v: nat, i: nat, b: nat, value: JsValue,
                            changes: Option<map<string, SimpleChange>>, changed: ChangeTest)
    returns (changesOut: Option<map<string, SimpleChange>>, wasChanged: bool)
    requires DirectiveAt(rt.views, v, i) && DirectiveFactsHold(rt.views, v, i)
    requires b < |rt.views[v].def.nodes[i].bindings|
    modifies rt
    ensures var r0 := old(rt.views)[v];
            var st := PropStep(r0.def.nodes[i], PropsState(r0.oldValues, r0.nodes[i].props, changes, false),
                               Has(r0.state, FirstCheck), b, value, changed);
            rt.views == AfterDirectiveCheck(old(rt.views), v, i, st) &&
            changesOut == st.changes && wasChanged == st.anyChanged
    ensures rt.nextId == old(rt.nextId)
  {
    var r := rt.views[v];
    var n := r.def.nodes[i];
    var nd := r.nodes[i];
    assert r.nodes[i := nd.(props := nd.props)] == r.nodes;
    assert r.(oldValues := r.oldValues, nodes := r.nodes) == r;
    assert rt.views[v := r] == rt.views;
    var firstCheck := Has(r.state, FirstCheck);
    var oldValue := r.oldValues[n.bindingIndex + b];
    wasChanged := changed(oldValue, value, firstCheck);
    changesOut := changes;
    if wasChanged {
      var binding := n.bindings[b];
      rt.views := rt.views[v := r.(oldValues := r.oldValues[n.bindingIndex + b := value],
                                   nodes := r.nodes[i := nd.(props := nd.props[binding.name := value])])];
      if Has(n.flags, HasComponent) {
        var c := nd.componentView.value;
        if Has(rt.views[c].def.flags, OnPush) {
          rt.views := rt.views[c := rt.views[c].(state := Union(rt.views[c].state, ChecksEnabled))];
        }
      }
      if Has(n.flags, OnChanges) {
        changesOut := Some(changes.GetOr(map[])[binding.nonMinifiedName := SimpleChange(oldValue, value, firstCheck)]);
      }
    }
  }

  /** checkAndUpdateProp starts afresh on whether anything changed; the fold keeps the earlier answer. */
  lemma PropStepAny(n: NodeDef, st: PropsState, firstCheck: bool, b: nat, value: JsValue, changed: ChangeTest)
    requires b < |n.bindings| && n.bindingIndex + b < |st.oldValues|
    ensures var again := PropStep(n, st.(anyChanged := false), firstCheck, b, value, changed);
            again.(anyChanged := st.anyChanged || again.anyChanged) == PropStep(n, st, firstCheck, b, value, changed)
  {
  }

  /**
   * One turn of the binding loop: the views so far are the fold over the
   * first j bindings, and one more checkAndUpdateProp on them gives the fold
   * over j + 1.
   */
  lemma CheckPropsStep(views: seq<ViewRecord>, v: nat, i: nat, bs: seq<nat>, vals: seq<JsValue>, changed: ChangeTest, j: nat)
    requires DirectiveAt(views, v, i)
    requires |bs| == |vals| && BindingOrder(views[v].def.nodes[i], bs) && j < |bs|
    ensures DirectiveFactsHold(views, v, i)
    ensures BindingOrder(views[v].def.nodes[i], bs[..j]) && BindingOrder(views[v].def.nodes[i], bs[..j + 1])
    ensures var n := views[v].def.nodes[i];
            var fc := Has(views[v].state, FirstCheck);
            var st := PropsFold(n, StartProps(views[v], i), fc, bs[..j], vals[..j], changed);
            var next := PropsFold(n, StartProps(views[v], i), fc, bs[..j + 1], vals[..j + 1], changed);
            var mid := AfterDirectiveCheck(views, v, i, st);
            var r := mid[v];
            DirectiveAt(mid, v, i) && r.def == views[v].def && r.state == views[v].state &&
            bs[j] < |r.def.nodes[i].bindings| &&
            var again := PropStep(n, PropsState(r.oldValues, r.nodes[i].props, st.changes, false), fc, bs[j], vals[j], changed);
            AfterDirectiveCheck(mid, v, i, again) == AfterDirectiveCheck(views, v, i, next) &&
            again.changes == next.changes
  {
    DirectiveFacts(views, v, i);
    var n := views[v].def.nodes[i];
    var fc := Has(views[v].state, FirstCheck);
    var st0 := StartProps(views[v], i);
    PropsFoldStep(n, st0, fc, bs, vals, changed, j);
    var st := PropsFold(n, st0, fc, bs[..j], vals[..j], changed);
    DirectiveCheckChanges(views, v, i, st);
    var mid := AfterDirectiveCheck(views, v, i, st);
    assert PropsState(mid[v].oldValues, mid[v].nodes[i].props, st.changes, false) == st.(anyChanged := false);
    PropStepAny(n, st, fc, bs[j], vals[j], changed);
    AfterDirectiveCheckTwice(views, v, i, st, PropStep(n, st.(anyChanged := false), fc, bs[j], vals[j], changed));
  }

  /**
   * The bindings checked in the given order with the given values, one
   * checkAndUpdateProp each; returns the SimpleChanges collected.
   */
  method CheckProps(rt: Arena, v: nat, i: nat, bs: seq<nat>, vals: seq<JsValue>, changed: ChangeTest)
    returns (changes: Option<map<string, SimpleChange>>)
    requires DirectiveAt(rt.views, v, i)
    requires |bs| == |vals| && BindingOrder(rt.views[v].def.nodes[i], bs)
    modifies rt
    ensures DirectiveFactsHold(old(rt.views), v, i)
    ensures var r0 := old(rt.views)[v];
            var st := PropsFold(r0.def.nodes[i], StartProps(r0, i), Has(r0.state, FirstCheck), bs, vals, changed);
            rt.views == AfterDirectiveCheck(old(rt.views), v, i, st) && changes == st.changes
    ensures rt.nextId == old(rt.nextId)
  {
    DirectiveFacts(rt.views, v, i);
    ghost var views0 := rt.views;
    ghost var n := views0[v].def.nodes[i];
    ghost var fc := Has(views0[v].state, FirstCheck);
    ghost var st0 := StartProps(views0[v], i);
    AfterDirectiveCheckStart(views0, v, i);
    changes := None;
    for j := 0 to |bs|
      invariant BindingOrder(n, bs[..j])
      invariant var st := PropsFold(n, st0, fc, bs[..j], vals[..j], changed);
                rt.views == AfterDirectiveCheck(views0, v, i, st) && changes == st.changes
      invariant rt.nextId == old(rt.nextId)
    {
      CheckPropsStep(views0, v, i, bs, vals, changed, j);
      DirectiveFacts(rt.views, v, i);
      var anyChanged;
      changes, anyChanged := CheckAndUpdateProp(rt, v, i, bs[j], vals[j], changes, changed);
    }
    assert bs[..|bs|] == bs && vals[..|vals|] == vals;
  }

  /**
   * What a directive check calls after the bindings: ngOnChanges when some
   * SimpleChange was recorded, ngOnInit in the view's first check when the
   * directive has OnInit, and ngDoCheck when it has DoCheck, in that order.
   */
  function DirectiveHookEvents(v: nat, i: nat, flags: Flags, changes: Option<map<string, SimpleChange>>, firstCheck: bool): (evs: seq<Event>)
    ensures changes.Some? ==> |evs| > 0 && evs[0] == NgOnChanges(v, i, changes.value)
    ensures changes.None? ==> forall e :: e in evs ==> !e.NgOnChanges?
    ensures NgOnInit(v, i) in evs <==> firstCheck && Has(flags, OnInit)
    ensures NgDoCheck(v, i) in evs <==> Has(flags, DoCheck)
    ensures Has(flags, DoCheck) ==> evs[|evs| - 1] == NgDoCheck(v, i)
    ensures forall e :: e in evs ==> (e.NgOnChanges? || e.NgOnInit? || e.NgDoCheck?) && e.view == v && e.node == i
  {
    (if changes.Some? then [NgOnChanges(v, i, changes.value)] else []) +
    (if firstCheck && Has(flags, OnInit) then [NgOnInit(v, i)] else []) +
    (if Has(flags, DoCheck) then [NgDoCheck(v, i)] else [])
  }

  /**
   * The bindings checkAndUpdateDirectiveInline visits: the switch on the
   * number of bindings falls through from the last binding down to the
   * first, and does nothing for more than ten.
   */
  function InlineOrder(len: nat): (bs: seq<nat>)
    ensures 1 <= len <= 10 ==> |bs| == len && forall j :: 0 <= j < len ==> bs[j] == len - 1 - j
    ensures len == 0 || len > 10 ==> bs == []
  {
    if 1 <= len <= 10 then seq(len, j requires 0 <= j < len => len - 1 - j) else []
  }

  /** The inline order visits every binding of a directive with one to ten bindings, once each. */
  lemma InlineOrderCovers(n: NodeDef)
    requires 1 <= |n.bindings| <= 10
    ensures BindingOrder(n, InlineOrder(|n.bindings|))
    ensures forall b :: 0 <= b < |n.bindings| ==> b in InlineOrder(|n.bindings|)
  {
    var bs := InlineOrder(|n.bindings|);
    forall b | 0 <= b < |n.bindings|
      ensures b in bs
    {
      assert bs[|n.bindings| - 1 - b] == b;
    }
  }

  /** The positions 0 to m - 1, in order: the bindings a dynamic call visits. */
  function Positions(m: nat): (bs: seq<nat>)
    ensures |bs| == m && forall j :: 0 <= j < m ==> bs[j] == j
  {
    seq(m, j requires 0 <= j < m => j)
  }

  /** The inline arguments of the listed bindings, in the listed order. */
  function InlineArgs(values: seq<JsValue>, bs: seq<nat>): (vals: seq<JsValue>)
    ensures |vals| == |bs| && forall j :: 0 <= j < |bs| ==> vals[j] == InlineArg(values, bs[j])
  {
    seq(|bs|, j requires 0 <= j < |bs| => InlineArg(values, bs[j]))
  }

  /** Argument k of an inline call: v0 to v9, undefined where the caller passes nothing. */
  function InlineArg(values: seq<JsValue>, k: nat): JsValue
  {
    if k < |values| then values[k] else Undefined
  }

  /**
   * checkAndUpdateDirectiveInline (provider.ts:172-210): the bindings from
   * the last down to the first, each with its own argument, then the
   * directive's hooks.
   */
  method CheckAndUpdateDirectiveInline(rt: Arena, v: nat, i: nat, values: seq<JsValue>, changed: ChangeTest)
    returns (evs: seq<Event>)
    requires DirectiveAt(rt.views, v, i)
    modifies rt
    ensures DirectiveFactsHold(old(rt.views), v, i)
    ensures var r0 := old(rt.views)[v];
            var n := r0.def.nodes[i];
            var bs := InlineOrder(|n.bindings|);
            var vals := InlineArgs(values, bs);
            BindingOrder(n, bs) &&
            var st := PropsFold(n, StartProps(r0, i), Has(r0.state, FirstCheck), bs, vals, changed);
            rt.views == AfterDirectiveCheck(old(rt.views), v, i, st) &&
            evs == DirectiveHookEvents(v, i, n.flags, st.changes, Has(r0.state, FirstCheck))
    ensures Wf(rt.views) && Changes(old(rt.views), rt.views, v)
    ensures rt.views[v].state == old(rt.views)[v].state && rt.views[v].def == old(rt.views)[v].def
    ensures rt.nextId == old(rt.nextId)
  {
    var r := rt.views[v];
    var n := r.def.nodes[i];
    var len := |n.bindings|;
    var bs := InlineOrder(len);
    if 1 <= len <= 10 {
      InlineOrderCovers(n);
    }
    var vals := InlineArgs(values, bs);
    ghost var views0 := rt.views;
    var changes := CheckProps(rt, v, i, bs, vals, changed);
    DirectiveCheckChanges(views0, v, i, PropsFold(n, StartProps(r, i), Has(r.state, FirstCheck), bs, vals, changed));
    evs := DirectiveHookEvents(v, i, n.flags, changes, Has(r.state, FirstCheck));
  }

  /**
   * checkAndUpdateDirectiveDynamic (provider.ts:212-228): the bindings from
   * the first on, one per value, then the directive's hooks.  The caller
   * passes at most one value per binding.
   */
  method CheckAndUpdateDirectiveDynamic(rt: Arena, v: nat, i: nat, values: seq<JsValue>, changed: ChangeTest)
    returns (evs: seq<Event>)
    requires DirectiveAt(rt.views, v, i)
    requires |values| <= |rt.views[v].def.nodes[i].bindings|
    modifies rt
    ensures DirectiveFactsHold(old(rt.views), v, i)
    ensures var r0 := old(rt.views)[v];
            var n := r0.def.nodes[i];
            var bs := Positions(|values|);
            BindingOrder(n, bs) &&
            var st := PropsFold(n, StartProps(r0, i), Has(r0.state, FirstCheck), bs, values, changed);
            rt.views == AfterDirectiveCheck(old(rt.views), v, i, st) &&
            evs == DirectiveHookEvents(v, i, n.flags, st.changes, Has(r0.state, FirstCheck))
    ensures Wf(rt.views) && Changes(old(rt.views), rt.views, v)
    ensures rt.views[v].state == old(rt.views)[v].state && rt.views[v].def == old(rt.views)[v].def
    ensures rt.nextId == old(rt.nextId)
  {
    var r := rt.views[v];
    var n := r.def.nodes[i];
    var bs := Positions(|values|);
    ghost var views0 := rt.views;
    var changes := CheckProps(rt, v, i, bs, values, changed);
    DirectiveCheckChanges(views0, v, i, PropsFold(n, StartProps(r, i), Has(r.state, FirstCheck), bs, values, changed));
    evs := DirectiveHookEvents(v, i, n.flags, changes, Has(r.state, FirstCheck));
  }
}
