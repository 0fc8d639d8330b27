/**
 * The per-view state machine of core/src/view/view.ts (view.ts:218-609):
 * creating a view and its nodes, checking it for changes, checking that
 * nothing changed, destroying it, and the walks that carry an action into
 * the embedded and component views below a view.
 *
 * Views live in the Arena of module Views.  An action on view v changes
 * only views of v's subtree and keeps the shape of every view (Changes);
 * the check of "no changes" changes nothing at all.  What the generated
 * view definitions run (the updateDirectives and updateRenderer closures),
 * the binding comparisons of util.ts and the component definition
 * factories come in as an environment.  A thrown error is a Status the
 * methods return; nothing after the throwing call runs.
 */
module ViewRuntime {
  import opened Wrappers
  import opened JsValues
  import opened ViewTypes
  import opened ViewShape
  import opened ViewWalks
  import opened Views
  import opened ProviderChecks
  import opened Providers

  /** What the view code throws. */
  datatype Thrown =
      /** a TypeError from reading data that is not there, or the stack running out */
    | JsError(fault: Fault)
      /** expressionChangedAfterItHasBeenCheckedError for a binding of a node */
    | ExpressionChanged(view: nat, node: nat, binding: nat)
      /** the same error for a query list that is still dirty */
    | QueryChanged(view: nat, node: nat)

  datatype Status = Ok | Threw(error: Thrown)

  const TypeErr: Status := Threw(JsError(TypeError))

  /** How the generated closures pass a node's values: as v0 to v9, or as one array. */
  datatype ArgStyle = Inline | Dynamic

  /** One call the updateDirectives or updateRenderer closure makes for a node. */
  datatype NodeCheck = NodeCheck(node: nat, style: ArgStyle, values: seq<JsValue>)

  /**
   * What the runtime calls but does not define: the closures of a view
   * definition (they read the view's component and context), util.ts's
   * checkAndUpdateBinding (`changed`) and checkBindingNoChanges (which
   * throws when `stale` holds), and for each component factory its view
   * definition and whether its renderer has destroyNode.
   */
  datatype Env = Env(
    updateDirectives: ViewRecord -> seq<NodeCheck>,
    updateRenderer: ViewRecord -> seq<NodeCheck>,
    changed: ChangeTest,
    stale: ChangeTest,
    componentDef: nat -> ViewDefinition,
    componentDestroysNodes: nat -> bool,
    templateDef: TemplateDef -> ViewDefinition)

  /** A dynamic call passes at most one value per binding of its node. */
  predicate CheckFits(d: ViewDefinition, c: NodeCheck)
  {
    c.style == Dynamic && c.node < |d.nodes| ==> |c.values| <= |d.nodes[c.node].bindings|
  }

  predicate ChecksFit(d: ViewDefinition, cs: seq<NodeCheck>)
  {
    forall k :: 0 <= k < |cs| ==> CheckFits(d, cs[k])
  }

  /** The generated code keeps to its bindings, and every component factory yields a definition viewDef accepted. */
  ghost predicate EnvReady(env: Env)
  {
    (forall r: ViewRecord :: ChecksFit(r.def, env.updateDirectives(r))) &&
    (forall r: ViewRecord :: ChecksFit(r.def, env.updateRenderer(r))) &&
    (forall id: nat :: DefReady(env.componentDef(id))) &&
    (forall t: TemplateDef :: DefReady(env.templateDef(t)))
  }

  // ------------------------------------------------- checkNoChangesNode

  /** The bindings a node check visits: inline from the last down to the first, dynamic from the first on. */
  function CheckOrder(n: NodeDef, c: NodeCheck): (bs: seq<nat>)
    ensures c.style == Dynamic ==> |bs| == |c.values| && forall j :: 0 <= j < |bs| ==> bs[j] == j
    ensures c.style == Inline ==> bs == InlineOrder(|n.bindings|)
  {
    if c.style == Inline then InlineOrder(|n.bindings|)
    else Positions(|c.values|)
  }

  /** The value each visited binding is compared with: v0 to v9 by binding position, or the array in order. */
  function CheckValues(n: NodeDef, c: NodeCheck): (vals: seq<JsValue>)
    ensures |vals| == |CheckOrder(n, c)|
    ensures c.style == Dynamic ==> vals == c.values
    ensures c.style == Inline ==> forall j :: 0 <= j < |vals| ==> vals[j] == InlineArg(c.values, CheckOrder(n, c)[j])
  {
    var bs := CheckOrder(n, c);
    if c.style == Inline then InlineArgs(c.values, bs)
    else c.values
  }

  /** Every node's binding slots lie inside the view's oldValues. */
  predicate SlotsFit(r: ViewRecord)
  {
    forall k :: 0 <= k < |r.def.nodes| ==> r.def.nodes[k].bindingIndex + |r.def.nodes[k].bindings| <= |r.oldValues|
  }

  lemma RecordSlotsFit(r: ViewRecord)
    requires RecordFits(r)
    ensures SlotsFit(r)
  {
    forall k | 0 <= k < |r.def.nodes|
      ensures r.def.nodes[k].bindingIndex + |r.def.nodes[k].bindings| <= |r.oldValues|
    {
      assert NodeReady(r.def, k);
    }
  }

  /** Every binding a fitting check visits has its slot in the view's oldValues. */
  lemma CheckOrderFits(r: ViewRecord, c: NodeCheck)
    requires SlotsFit(r) && CheckFits(r.def, c) && c.node < |r.def.nodes|
    ensures var n := r.def.nodes[c.node];
            forall j :: 0 <= j < |CheckOrder(n, c)| ==> n.bindingIndex + CheckOrder(n, c)[j] < |r.oldValues|
  {
  }

  /** The first position, from `from` on, whose binding the no-changes test flags. */
  function FirstStale(olds: seq<JsValue>, base: nat, bs: seq<nat>, vals: seq<JsValue>, fc: bool, stale: ChangeTest, from: nat): (r: Option<nat>)
    requires |bs| == |vals| && from <= |bs|
    requires forall j :: 0 <= j < |bs| ==> base + bs[j] < |olds|
    ensures r.Some? ==> from <= r.value < |bs| && stale(olds[base + bs[r.value]], vals[r.value], fc)
    ensures r.Some? ==> forall j :: from <= j < r.value ==> !stale(olds[base + bs[j]], vals[j], fc)
    ensures r.None? ==> forall j :: from <= j < |bs| ==> !stale(olds[base + bs[j]], vals[j], fc)
    decreases |bs| - from
  {
    if from == |bs| then None
    else if stale(olds[base + bs[from]], vals[from], fc) then Some(from)
    else FirstStale(olds, base, bs, vals, fc, stale, from + 1)
  }

  /**
   * checkNoChangesNode on values: a node index past the definition is a
   * TypeError; otherwise the first binding, in visiting order, whose old
   * value the test flags throws.
   */
  function NoChangesVerdict(r: ViewRecord, v: nat, c: NodeCheck, stale: ChangeTest): Status
    requires SlotsFit(r) && CheckFits(r.def, c)
  {
    if c.node >= |r.def.nodes| then TypeErr
    else
      var n := r.def.nodes[c.node];
      var bs := CheckOrder(n, c);
      CheckOrderFits(r, c);
      match FirstStale(r.oldValues, n.bindingIndex, bs, CheckValues(n, c), Has(r.state, FirstCheck), stale, 0)
      case None => Ok
      case Some(j) => Threw(ExpressionChanged(v, c.node, bs[j]))
  }

  /** A node check passes exactly when the node exists and no visited binding is flagged. */
  lemma NoChangesVerdictOk(r: ViewRecord, v: nat, c: NodeCheck, stale: ChangeTest)
    requires SlotsFit(r) && CheckFits(r.def, c)
    ensures NoChangesVerdict(r, v, c, stale) == Ok <==>
      c.node < |r.def.nodes| &&
      var n := r.def.nodes[c.node];
      var bs := CheckOrder(n, c);
      var vals := CheckValues(n, c);
      forall j :: 0 <= j < |bs| ==>
        (n.bindingIndex + bs[j] < |r.oldValues| &&
         !stale(r.oldValues[n.bindingIndex + bs[j]], vals[j], Has(r.state, FirstCheck)))
  {
    if c.node < |r.def.nodes| {
      CheckOrderFits(r, c);
    }
  }

  /**
   * checkNoChangesNodeInline and checkNoChangesNodeDynamic
   * (view.ts:415-463): checkBindingNoChanges on each visited binding, in
   * order, until one throws.  Nothing is written.
   */
  method CheckNoChangesNode(r: ViewRecord, v: nat, c: NodeCheck, stale: ChangeTest) returns (st: Status)
    requires SlotsFit(r) && CheckFits(r.def, c)
    ensures st == NoChangesVerdict(r, v, c, stale)
  {
    if c.node >= |r.def.nodes| {
      return TypeErr;
    }
    var n := r.def.nodes[c.node];
    var bs := CheckOrder(n, c);
    var vals := CheckValues(n, c);
    CheckOrderFits(r, c);
    var m := ScanStale(r.oldValues, n.bindingIndex, bs, vals, Has(r.state, FirstCheck), stale);
    match m {
      case None => return Ok;
      case Some(j) => return Threw(ExpressionChanged(v, c.node, bs[j]));
    }
  }

  /** checkBindingNoChanges on each visited binding in order, stopping at the first that throws. */
  method ScanStale(olds: seq<JsValue>, base: nat, bs: seq<nat>, vals: seq<JsValue>, fc: bool, stale: ChangeTest) returns (m: Option<nat>)
    requires |bs| == |vals|
    requires forall j :: 0 <= j < |bs| ==> base + bs[j] < |olds|
    ensures m == FirstStale(olds, base, bs, vals, fc, stale, 0)
  {
    for j := 0 to |bs|
      invariant FirstStale(olds, base, bs, vals, fc, stale, 0) == FirstStale(olds, base, bs, vals, fc, stale, j)
    {
      if stale(olds[base + bs[j]], vals[j], fc) {
        return Some(j);
      }
    }
    return None;
  }

  // ---------------------------------------------------- execQueriesAction

  /** What execQueriesAction does at a query node: checkAndUpdateQuery or checkNoChangesQuery. */
  datatype QueryAction = QueryCheckAndUpdate | QueryCheckNoChanges

  function QueryEvents(v: nat, ts: seq<nat>): (evs: seq<Event>)
    ensures |evs| == |ts| && forall j :: 0 <= j < |ts| ==> evs[j] == QueryUpdated(v, ts[j])
  {
    seq(|ts|, j requires 0 <= j < |ts| => QueryUpdated(v, ts[j]))
  }

  lemma QueryEventsAppend(v: nat, ts: seq<nat>, i: nat)
    ensures QueryEvents(v, ts + [i]) == QueryEvents(v, ts) + [QueryUpdated(v, i)]
  {
    assert QueryEvents(v, ts + [i])[..|ts|] == QueryEvents(v, ts);
  }

  /**
   * checkNoChangesQuery (view.ts:465-472) over the target nodes in order:
   * the first query list still dirty throws, and so does a query node whose
   * list was never created.
   */
  function QueryVerdict(nodes: seq<NodeData>, v: nat, ts: seq<nat>): (st: Status)
    requires forall j :: 0 <= j < |ts| ==> ts[j] < |nodes|
    decreases |ts|
  {
    if ts == [] then Ok
    else if nodes[ts[0]] == QueryData(true) then Threw(QueryChanged(v, ts[0]))
    else if nodes[ts[0]] == NoData then TypeErr
    else QueryVerdict(nodes, v, ts[1..])
  }

  /** The query check passes exactly when every target holds a created, clean query list. */
  lemma {:induction false} QueryVerdictOk(nodes: seq<NodeData>, v: nat, ts: seq<nat>)
    requires forall j :: 0 <= j < |ts| ==> ts[j] < |nodes|
    ensures QueryVerdict(nodes, v, ts) == Ok <==>
            forall j :: 0 <= j < |ts| ==> nodes[ts[j]] != NoData && nodes[ts[j]] != QueryData(true)
    decreases |ts|
  {
    if ts != [] {
      QueryVerdictOk(nodes, v, ts[1..]);
      assert forall j :: 1 <= j < |ts| ==> ts[1..][j - 1] == ts[j];
    }
  }

  /** Checking two runs of targets one after the other stops at the first failure. */
  lemma {:induction false} QueryVerdictAppend(nodes: seq<NodeData>, v: nat, a: seq<nat>, b: seq<nat>)
    requires forall j :: 0 <= j < |a| ==> a[j] < |nodes|
    requires forall j :: 0 <= j < |b| ==> b[j] < |nodes|
    ensures forall j :: 0 <= j < |a + b| ==> (a + b)[j] < |nodes|
    ensures QueryVerdict(nodes, v, a + b) ==
            if QueryVerdict(nodes, v, a) == Ok then QueryVerdict(nodes, v, b) else QueryVerdict(nodes, v, a)
    decreases |a|
  {
    if a != [] {
      assert (a + b)[1..] == a[1..] + b;
      QueryVerdictAppend(nodes, v, a[1..], b);
    } else {
      assert a + b == b;
    }
  }

  /** A query target that fails after clean ones decides the verdict of the whole walk. */
  lemma QueryFailsAt(nodes: seq<NodeData>, v: nat, d: ViewDefinition, i: nat, m1: Flags, m2: Flags)
    requires i < |d.nodes| == |nodes| && Hit(d.nodes[i], m1, m2)
    requires QueryVerdict(nodes, v, Targets(d.nodes, 0, i, m1, m2)) == Ok
    requires nodes[i] == NoData || nodes[i] == QueryData(true)
    ensures QueryVerdict(nodes, v, Targets(d.nodes, 0, |d.nodes|, m1, m2)) ==
            if nodes[i] == NoData then TypeErr else Threw(QueryChanged(v, i))
  {
    var before := Targets(d.nodes, 0, i, m1, m2);
    TargetsStep(d.nodes, 0, i, m1, m2);
    QueryVerdictAppend(nodes, v, before, [i]);
    TargetsSplit(d.nodes, 0, i + 1, |d.nodes|, m1, m2);
    QueryVerdictAppend(nodes, v, Targets(d.nodes, 0, i + 1, m1, m2), Targets(d.nodes, i + 1, |d.nodes|, m1, m2));
  }

  /** A clean query target keeps the walk's verdict so far clean. */
  lemma QueryCleanAt(nodes: seq<NodeData>, v: nat, d: ViewDefinition, i: nat, m1: Flags, m2: Flags)
    requires i < |d.nodes| == |nodes| && Hit(d.nodes[i], m1, m2)
    requires QueryVerdict(nodes, v, Targets(d.nodes, 0, i, m1, m2)) == Ok
    requires nodes[i] != NoData && nodes[i] != QueryData(true)
    ensures QueryVerdict(nodes, v, Targets(d.nodes, 0, i + 1, m1, m2)) == Ok
  {
    TargetsStep(d.nodes, 0, i, m1, m2);
    QueryVerdictAppend(nodes, v, Targets(d.nodes, 0, i, m1, m2), [i]);
    assert [i][1..] == [];
    assert QueryVerdict(nodes, v, [i]) == QueryVerdict(nodes, v, []);
  }

  /**
   * execQueriesAction (view.ts:584-609): nothing when the view's nodeFlags
   * miss either mask; otherwise the nodes whose flags meet both masks are
   * acted on in depth-first order, the descendants of a node whose
   * childFlags miss either mask being jumped over.  Updating a query is an
   * event (query.ts is not part of this model); the no-changes check reads
   * each query list's dirty bit.
   */
  method ExecQueriesAction(r: ViewRecord, v: nat, m1: Flags, m2: Flags, action: QueryAction) returns (st: Status, evs: seq<Event>)
    requires Aggregated(r.def) && |r.nodes| == |r.def.nodes|
    ensures action == QueryCheckAndUpdate ==>
              st == Ok && evs == QueryEvents(v, Targets(r.def.nodes, 0, |r.def.nodes|, m1, m2))
    ensures action == QueryCheckNoChanges ==>
              st == QueryVerdict(r.nodes, v, Targets(r.def.nodes, 0, |r.def.nodes|, m1, m2)) && evs == []
  {
    var d := r.def;
    st, evs := Ok, [];
    if !Has(d.nodeFlags, m1) || !Has(d.nodeFlags, m2) {
      NoTargetsAtAll(d, m1, m2);
      return;
    }
    var i := 0;
    while i < |d.nodes|
      invariant i <= |d.nodes|
      invariant action == QueryCheckAndUpdate ==> evs == QueryEvents(v, Targets(d.nodes, 0, i, m1, m2))
      invariant action == QueryCheckNoChanges ==> evs == [] && QueryVerdict(r.nodes, v, Targets(d.nodes, 0, i, m1, m2)) == Ok
      decreases |d.nodes| - i
    {
      QueryWalkStep(d, i, m1, m2);
      ghost var before := Targets(d.nodes, 0, i, m1, m2);
      if !Hit(d.nodes[i], m1, m2) {
        assert Targets(d.nodes, 0, i + 1, m1, m2) == before + [] == before;
      } else {
        if action == QueryCheckAndUpdate {
          QueryEventsAppend(v, before, i);
          evs := evs + [QueryUpdated(v, i)];
        } else if r.nodes[i] == NoData || r.nodes[i] == QueryData(true) {
          QueryFailsAt(r.nodes, v, d, i, m1, m2);
          st := if r.nodes[i] == NoData then TypeErr else Threw(QueryChanged(v, i));
          return;
        } else {
          QueryCleanAt(r.nodes, v, d, i, m1, m2);
        }
      }
      i := if !Has(d.nodes[i].childFlags, m1) || !Has(d.nodes[i].childFlags, m2) then RangeEnd(d.nodes, i) else i + 1;
    }
  }

  // ------------------------------------------------------------ destroying

  /** The first slot, from `from` on, that holds no function. */
  function FirstEmpty(ds: seq<Option<nat>>, from: nat): (m: Option<nat>)
    requires from <= |ds|
    ensures m.Some? ==> from <= m.value < |ds| && ds[m.value].None? &&
                        forall i :: from <= i < m.value ==> ds[i].Some?
    ensures m.None? ==> forall i :: from <= i < |ds| ==> ds[i].Some?
    decreases |ds| - from
  {
    if from == |ds| then None
    else if ds[from].None? then Some(from)
    else FirstEmpty(ds, from + 1)
  }

  /** Calling the disposables of slots 0 to m - 1 of view v. */
  function Disposals(v: nat, m: nat): (evs: seq<Event>)
    ensures |evs| == m && forall i :: 0 <= i < m ==> evs[i] == Dispose(v, i)
  {
    seq(m, i requires 0 <= i < m => Dispose(v, i))
  }

  /**
   * The disposables loop of destroyView (view.ts:478-482): each slot is
   * called in index order; a slot no output filled is not a function, and
   * calling it throws.
   */
  method CallDisposables(v: nat, ds: seq<Option<nat>>) returns (st: Status, evs: seq<Event>)
    ensures match FirstEmpty(ds, 0)
      case None => st == Ok && evs == Disposals(v, |ds|)
      case Some(m) => st == TypeErr && evs == Disposals(v, m)
  {
    evs := [];
    for i := 0 to |ds|
      invariant FirstEmpty(ds, 0) == FirstEmpty(ds, i)
      invariant evs == Disposals(v, i)
    {
      if ds[i].None? {
        return TypeErr, evs;
      }
      evs := evs + [Dispose(v, i)];
    }
    st := Ok;
  }

  /** Element and text nodes, the ones destroyViewNodes hands to the renderer. */
  predicate RenderNode(n: NodeDef)
  {
    n.nodeType == Element || n.nodeType == Text
  }

  /** The first render node, from `from` on, whose data was never created. */
  function FirstBareRenderNode(r: ViewRecord, from: nat): (m: Option<nat>)
    requires |r.nodes| == |r.def.nodes| && from <= |r.nodes|
    ensures m.Some? ==> from <= m.value < |r.nodes| && RenderNode(r.def.nodes[m.value]) && r.nodes[m.value] == NoData &&
                        forall i :: from <= i < m.value && RenderNode(r.def.nodes[i]) ==> r.nodes[i] != NoData
    ensures m.None? ==> forall i :: from <= i < |r.nodes| && RenderNode(r.def.nodes[i]) ==> r.nodes[i] != NoData
    decreases |r.nodes| - from
  {
    if from == |r.nodes| then None
    else if RenderNode(r.def.nodes[from]) && r.nodes[from] == NoData then Some(from)
    else FirstBareRenderNode(r, from + 1)
  }

  /** renderer.destroyNode for the render nodes below index m, in order. */
  function DestroyNodeEvents(d: ViewDefinition, v: nat, m: nat): (evs: seq<Event>)
    requires m <= |d.nodes|
    ensures forall k :: 0 <= k < |evs| ==>
              (evs[k].DestroyNode? && evs[k].view == v && evs[k].node < m && RenderNode(d.nodes[evs[k].node]))
    ensures forall i :: 0 <= i < m && RenderNode(d.nodes[i]) ==> DestroyNode(v, i) in evs
  {
    if m == 0 then []
    else DestroyNodeEvents(d, v, m - 1) + (if RenderNode(d.nodes[m - 1]) then [DestroyNode(v, m - 1)] else [])
  }

  /**
   * destroyViewNodes (view.ts:492-502): every element and text node's
   * render node goes to renderer.destroyNode in index order; reading the
   * data of one that was never created throws.
   */
  method DestroyViewNodes(r: ViewRecord, v: nat) returns (st: Status, evs: seq<Event>)
    requires |r.nodes| == |r.def.nodes|
    ensures match FirstBareRenderNode(r, 0)
      case None => st == Ok && evs == DestroyNodeEvents(r.def, v, |r.nodes|)
      case Some(m) => st == TypeErr && evs == DestroyNodeEvents(r.def, v, m)
  {
    evs := [];
    for i := 0 to |r.nodes|
      invariant FirstBareRenderNode(r, 0) == FirstBareRenderNode(r, i)
      invariant evs == DestroyNodeEvents(r.def, v, i)
    {
      if RenderNode(r.def.nodes[i]) {
        if r.nodes[i] == NoData {
          return TypeErr, evs;
        }
        evs := evs + [DestroyNode(v, i)];
      }
    }
    st := Ok;
  }

  // ------------------------------------------------------ node check passes

  /** checkNoChangesNode over the calls a closure makes, in order, up to the first that throws. */
  function PassVerdict(r: ViewRecord, v: nat, cs: seq<NodeCheck>, stale: ChangeTest): Status
    requires SlotsFit(r) && ChecksFit(r.def, cs)
    decreases |cs|
  {
    if cs == [] then Ok
    else if NoChangesVerdict(r, v, cs[0], stale) != Ok then NoChangesVerdict(r, v, cs[0], stale)
    else PassVerdict(r, v, cs[1..], stale)
  }

  /** A pass is clean exactly when every node check in it is. */
  lemma {:induction false} PassVerdictOk(r: ViewRecord, v: nat, cs: seq<NodeCheck>, stale: ChangeTest)
    requires SlotsFit(r) && ChecksFit(r.def, cs)
    ensures PassVerdict(r, v, cs, stale) == Ok <==> forall k :: 0 <= k < |cs| ==> NoChangesVerdict(r, v, cs[k], stale) == Ok
    decreases |cs|
  {
    if PassVerdict(r, v, cs, stale) == Ok {
      forall k | 0 <= k < |cs|
        ensures NoChangesVerdict(r, v, cs[k], stale) == Ok
      {
        PassVerdictOkAt(r, v, cs, stale, k);
      }
    } else {
      PassVerdictFails(r, v, cs, stale);
    }
  }

  lemma {:induction false} PassVerdictOkAt(r: ViewRecord, v: nat, cs: seq<NodeCheck>, stale: ChangeTest, k: nat)
    requires SlotsFit(r) && ChecksFit(r.def, cs) && k < |cs|
    requires PassVerdict(r, v, cs, stale) == Ok
    ensures NoChangesVerdict(r, v, cs[k], stale) == Ok
    decreases k
  {
    if k > 0 {
      assert cs[1..][k - 1] == cs[k];
      PassVerdictOkAt(r, v, cs[1..], stale, k - 1);
    }
  }

  lemma {:induction false} PassVerdictFails(r: ViewRecord, v: nat, cs: seq<NodeCheck>, stale: ChangeTest)
    requires SlotsFit(r) && ChecksFit(r.def, cs)
    requires PassVerdict(r, v, cs, stale) != Ok
    ensures exists k :: 0 <= k < |cs| && NoChangesVerdict(r, v, cs[k], stale) != Ok
    decreases |cs|
  {
    if NoChangesVerdict(r, v, cs[0], stale) == Ok {
      PassVerdictFails(r, v, cs[1..], stale);
      var k :| 0 <= k < |cs[1..]| && NoChangesVerdict(r, v, cs[1..][k], stale) != Ok;
      assert cs[1..][k] == cs[k + 1];
    }
  }

  /**
   * Services.updateDirectives or Services.updateRenderer with
   * checkNoChangesNode as the check function: the closure's calls run in
   * order and the first that throws ends the pass.
   */
  method NoChangesPass(r: ViewRecord, v: nat, cs: seq<NodeCheck>, stale: ChangeTest) returns (st: Status)
    requires SlotsFit(r) && ChecksFit(r.def, cs)
    ensures st == PassVerdict(r, v, cs, stale)
  {
    for k := 0 to |cs|
      invariant ChecksFit(r.def, cs[k..])
      invariant PassVerdict(r, v, cs, stale) == PassVerdict(r, v, cs[k..], stale)
    {
      assert cs[k..][1..] == cs[k + 1..];
      st := CheckNoChangesNode(r, v, cs[k], stale);
      if st != Ok {
        return;
      }
    }
    assert cs[|cs|..] == [];
    st := Ok;
  }

  /** The node a check names exists, and a directive node holds its instance. */
  predicate NodeCheckable(r: ViewRecord, c: NodeCheck)
  {
    c.node < |r.def.nodes| &&
    (r.def.nodes[c.node].nodeType == Directive ==> c.node < |r.nodes| && r.nodes[c.node].ProviderData?)
  }

  /** Whether a node check can be carried out depends on the record's shape only. */
  lemma CheckableShape(a: ViewRecord, b: ViewRecord, c: NodeCheck)
    requires SameRecordShape(a, b)
    ensures NodeCheckable(a, c) == NodeCheckable(b, c)
  {
    if c.node < |a.nodes| {
      assert KindOf(a.nodes[c.node]) == KindOf(b.nodes[c.node]);
    }
  }

  /** A fitting check visits bindings of its node, each once. */
  lemma CheckOrderBinding(n: NodeDef, c: NodeCheck)
    requires c.style == Dynamic ==> |c.values| <= |n.bindings|
    ensures BindingOrder(n, CheckOrder(n, c))
  {
    if c.style == Inline && 1 <= |n.bindings| <= 10 {
      InlineOrderCovers(n);
    }
  }

  /** The props state a directive check of c ends in: checkAndUpdateProp over the visited bindings. */
  function DirectiveCheckProps(r: ViewRecord, c: NodeCheck, changed: ChangeTest): PropsState
    requires SlotsFit(r) && CheckFits(r.def, c) && NodeCheckable(r, c) && r.def.nodes[c.node].nodeType == Directive
  {
    var n := r.def.nodes[c.node];
    CheckOrderBinding(n, c);
    PropsFold(n, StartProps(r, c.node), Has(r.state, FirstCheck), CheckOrder(n, c), CheckValues(n, c), changed)
  }

  /**
   * What a node check that can be carried out does: a directive gets the
   * bound values written into it (and its OnPush component view
   * re-enabled when one changed) and its ngOnChanges, ngOnInit and
   * ngDoCheck called; an element, text or pure expression is checked; the
   * other node types are left alone.  Only view v and its component views
   * change, and view v keeps its state and definition.
   */
  function NodeCheckStep(views: seq<ViewRecord>, v: nat, c: NodeCheck, changed: ChangeTest): (r: (seq<ViewRecord>, seq<Event>))
    requires Wf(views) && v < |views| && CheckFits(views[v].def, c) && NodeCheckable(views[v], c)
    ensures Wf(r.0) && Changes(views, r.0, v)
    ensures r.0[v].state == views[v].state && r.0[v].def == views[v].def
    ensures EventsIn(v, r.1)
  {
    ViewReady(views, v);
    var r0 := views[v];
    var n := r0.def.nodes[c.node];
    if n.nodeType == Directive then
      var props := DirectiveCheckProps(r0, c, changed);
      DirectiveCheckChanges(views, v, c.node, props);
      (AfterDirectiveCheck(views, v, c.node, props),
       DirectiveHookEvents(v, c.node, n.flags, props.changes, Has(r0.state, FirstCheck)))
    else
      ChangesNone(views, v);
      (views, if n.nodeType in {Element, Text, PureExpression} then [NodeChecked(v, c.node, c.values)] else [])
  }

  /**
   * checkAndUpdateNode (view.ts:374-413): dispatch on the node's type.  A
   * directive goes to checkAndUpdateDirectiveInline or ...Dynamic; the
   * checks of elements, texts and pure expressions (element.ts, text.ts and
   * pure_expression.ts are not part of this model) are events; the other
   * node types do nothing.  Reading the definition of a node past the end,
   * or the instance of a directive that has none, is a TypeError.
   */
  method CheckAndUpdateNode(rt: Arena, changed: ChangeTest, v: nat, c: NodeCheck) returns (st: Status, evs: seq<Event>)
    requires Wf(rt.views) && v < |rt.views| && CheckFits(rt.views[v].def, c)
    modifies rt
    ensures SlotsFit(old(rt.views)[v])
    ensures Wf(rt.views) && Changes(old(rt.views), rt.views, v) && rt.nextId == old(rt.nextId)
    ensures rt.views[v].state == old(rt.views)[v].state && rt.views[v].def == old(rt.views)[v].def
    ensures EventsIn(v, evs)
    ensures st == Ok <==> NodeCheckable(old(rt.views)[v], c)
    ensures st != Ok ==> st == TypeErr && rt.views == old(rt.views) && evs == []
    ensures NodeCheckable(old(rt.views)[v], c) ==> (rt.views, evs) == NodeCheckStep(old(rt.views), v, c, changed)
  {
    var r := rt.views[v];
    ViewReady(rt.views, v);
    ChangesNone(rt.views, v);
    if c.node >= |r.def.nodes| {
      return TypeErr, [];
    }
    var n := r.def.nodes[c.node];
    if n.nodeType == Directive {
      if !r.nodes[c.node].ProviderData? {
        return TypeErr, [];
      }
      if c.style == Inline {
        evs := CheckAndUpdateDirectiveInline(rt, v, c.node, c.values, changed);
      } else {
        evs := CheckAndUpdateDirectiveDynamic(rt, v, c.node, c.values, changed);
      }
      st := Ok;
    } else if n.nodeType in {Element, Text, PureExpression} {
      st, evs := Ok, [NodeChecked(v, c.node, c.values)];
    } else {
      st, evs := Ok, [];
    }
  }

  /** Where a pass of node checks ends: the views, the events, and whether every check could be carried out. */
  datatype Pass = Pass(views: seq<ViewRecord>, evs: seq<Event>, ok: bool)

  /**
   * The node checks cs carried out one after the other, each on the views
   * the previous ones left, up to the first that cannot be carried out.
   */
  function ChecksRun(views: seq<ViewRecord>, v: nat, cs: seq<NodeCheck>, changed: ChangeTest): (p: Pass)
    requires Wf(views) && v < |views| && ChecksFit(views[v].def, cs)
    ensures Wf(p.views) && Changes(views, p.views, v)
    ensures p.views[v].state == views[v].state && p.views[v].def == views[v].def
    ensures EventsIn(v, p.evs)
    decreases |cs|
  {
    if cs == [] then
      ChangesNone(views, v);
      Pass(views, [], true)
    else
      var m := |cs| - 1;
      assert ChecksFit(views[v].def, cs[..m]);
      var p := ChecksRun(views, v, cs[..m], changed);
      if !p.ok || !NodeCheckable(p.views[v], cs[m]) then p.(ok := false)
      else
        var step := NodeCheckStep(p.views, v, cs[m], changed);
        ChangesTrans(views, p.views, step.0, v, v, v);
        EventsInJoin(v, p.evs, step.1);
        Pass(step.0, p.evs + step.1, true)
  }

  /**
   * A pass runs through exactly when every check names an existing node
   * and every directive it names holds provider data.  The checks keep the
   * view's shape, so whether a later check can be carried out is decided
   * on the views before the pass.
   */
  lemma {:induction false} ChecksRunOk(views: seq<ViewRecord>, v: nat, cs: seq<NodeCheck>, changed: ChangeTest)
    requires Wf(views) && v < |views| && ChecksFit(views[v].def, cs)
    ensures ChecksRun(views, v, cs, changed).ok <==> forall k :: 0 <= k < |cs| ==> NodeCheckable(views[v], cs[k])
    decreases |cs|
  {
    if cs != [] {
      var m := |cs| - 1;
      assert ChecksFit(views[v].def, cs[..m]);
      ChecksRunOk(views, v, cs[..m], changed);
      var p := ChecksRun(views, v, cs[..m], changed);
      assert SameRecordShape(views[v], p.views[v]);
      CheckableShape(views[v], p.views[v], cs[m]);
      assert forall k :: 0 <= k < m ==> cs[..m][k] == cs[k];
    }
  }

  /** Once a check could not be carried out, the checks after it change nothing. */
  lemma {:induction false} ChecksRunStopped(views: seq<ViewRecord>, v: nat, cs: seq<NodeCheck>, n: nat, changed: ChangeTest)
    requires Wf(views) && v < |views| && ChecksFit(views[v].def, cs) && n <= |cs|
    requires ChecksFit(views[v].def, cs[..n]) && !ChecksRun(views, v, cs[..n], changed).ok
    ensures ChecksRun(views, v, cs, changed) == ChecksRun(views, v, cs[..n], changed)
    decreases |cs|
  {
    if n == |cs| {
      assert cs[..n] == cs;
    } else {
      var m := |cs| - 1;
      assert cs[..m][..n] == cs[..n];
      assert ChecksFit(views[v].def, cs[..m]);
      ChecksRunStopped(views, v, cs[..m], n, changed);
      var p := ChecksRun(views, v, cs[..m], changed);
      assert !p.ok;
      assert ChecksRun(views, v, cs, changed) == p.(ok := false);
    }
  }

  /**
   * Services.updateDirectives or Services.updateRenderer with
   * checkAndUpdateNode as the check function: the closure's calls run in
   * order, each on the views the previous one left, and the first that
   * throws ends the pass.
   */
  method RunNodeChecks(rt: Arena, changed: ChangeTest, v: nat, cs: seq<NodeCheck>) returns (st: Status, evs: seq<Event>)
    requires Wf(rt.views) && v < |rt.views| && ChecksFit(rt.views[v].def, cs)
    modifies rt
    ensures Wf(rt.views) && Changes(old(rt.views), rt.views, v) && rt.nextId == old(rt.nextId)
    ensures rt.views[v].state == old(rt.views)[v].state && rt.views[v].def == old(rt.views)[v].def
    ensures EventsIn(v, evs)
    ensures rt.views == ChecksRun(old(rt.views), v, cs, changed).views
    ensures evs == ChecksRun(old(rt.views), v, cs, changed).evs
    ensures st == Ok <==> ChecksRun(old(rt.views), v, cs, changed).ok
    ensures st == Ok <==> forall k :: 0 <= k < |cs| ==> NodeCheckable(old(rt.views)[v], cs[k])
    ensures st != Ok ==> st == TypeErr
  {
    ghost var views0 := rt.views;
    ChecksRunOk(views0, v, cs, changed);
    st, evs := Ok, [];
    for k := 0 to |cs|
      invariant rt.nextId == old(rt.nextId)
      invariant ChecksFit(views0[v].def, cs[..k])
      invariant ChecksRun(views0, v, cs[..k], changed) == Pass(rt.views, evs, true)
    {
      ChecksRunNext(views0, v, cs, k, changed);
      var s, e := CheckAndUpdateNode(rt, changed, v, cs[k]);
      if s != Ok {
        ChecksRunStopped(views0, v, cs, k + 1, changed);
        return s, evs;
      }
      evs := evs + e;
    }
    assert cs[..|cs|] == cs;
  }

  /** A pass one check longer is the pass before it followed by that check, if it can be carried out. */
  lemma ChecksRunNext(views: seq<ViewRecord>, v: nat, cs: seq<NodeCheck>, k: nat, changed: ChangeTest)
    requires Wf(views) && v < |views| && ChecksFit(views[v].def, cs) && k < |cs|
    ensures ChecksFit(views[v].def, cs[..k]) && ChecksFit(views[v].def, cs[..k + 1])
    ensures var p := ChecksRun(views, v, cs[..k], changed);
            ChecksRun(views, v, cs[..k + 1], changed) ==
              if !p.ok || !NodeCheckable(p.views[v], cs[k]) then p.(ok := false)
              else Pass(NodeCheckStep(p.views, v, cs[k], changed).0, p.evs + NodeCheckStep(p.views, v, cs[k], changed).1, true)
  {
    assert cs[..k + 1][..k] == cs[..k];
    assert ChecksFit(views[v].def, cs[..k + 1]);
  }

  /**
   * A node check reads view v's record only, and of the views it writes
   * (v and a component view of v) v's record depends on v's record alone.
   */
  lemma NodeCheckStepLocal(a: seq<ViewRecord>, b: seq<ViewRecord>, v: nat, c: NodeCheck, changed: ChangeTest)
    requires Wf(a) && Wf(b) && v < |a| == |b| && a[v] == b[v]
    requires CheckFits(a[v].def, c) && NodeCheckable(a[v], c)
    ensures NodeCheckStep(a, v, c, changed).0[v] == NodeCheckStep(b, v, c, changed).0[v]
    ensures NodeCheckStep(a, v, c, changed).1 == NodeCheckStep(b, v, c, changed).1
  {
    if a[v].def.nodes[c.node].nodeType == Directive {
      assert ViewWf(a, v) && KidsOk(a, v, c.node);
    }
  }

  /**
   * What a pass of node checks does to view v, and which events it
   * raises, depends on v's record only, not on the rest of the arena.
   */
  lemma {:induction false} ChecksRunLocal(a: seq<ViewRecord>, b: seq<ViewRecord>, v: nat, cs: seq<NodeCheck>, changed: ChangeTest)
    requires Wf(a) && Wf(b) && v < |a| == |b| && a[v] == b[v] && ChecksFit(a[v].def, cs)
    ensures ChecksRun(a, v, cs, changed).views[v] == ChecksRun(b, v, cs, changed).views[v]
    ensures ChecksRun(a, v, cs, changed).evs == ChecksRun(b, v, cs, changed).evs
    ensures ChecksRun(a, v, cs, changed).ok == ChecksRun(b, v, cs, changed).ok
    ensures |ChecksRun(a, v, cs, changed).views| == |ChecksRun(b, v, cs, changed).views|
    decreases |cs|
  {
    if cs != [] {
      var m := |cs| - 1;
      assert ChecksFit(a[v].def, cs[..m]);
      ChecksRunLocal(a, b, v, cs[..m], changed);
      var pa := ChecksRun(a, v, cs[..m], changed);
      var pb := ChecksRun(b, v, cs[..m], changed);
      if pa.ok && NodeCheckable(pa.views[v], cs[m]) {
        NodeCheckStepLocal(pa.views, pb.views, v, cs[m], changed);
      }
    }
  }

  /** The first pass of checkAndUpdateView over view v: updateDirectives' checks. */
  ghost function FirstPass(env: Env, views: seq<ViewRecord>, v: nat): (p: Pass)
    requires EnvReady(env) && Wf(views) && v < |views|
    ensures Wf(p.views) && Changes(views, p.views, v) && p.views[v].def == views[v].def
  {
    ChecksRun(views, v, HalfChecks(env, views[v], ContentHalf), env.changed)
  }

  /** The second pass: updateRenderer's checks, on what the first pass left. */
  ghost function SecondPass(env: Env, views: seq<ViewRecord>, v: nat): Pass
    requires EnvReady(env) && Wf(views) && v < |views|
  {
    var p := FirstPass(env, views, v);
    ChecksRun(p.views, v, HalfChecks(env, p.views[v], ViewHalf), env.changed)
  }

  /**
   * View v's record after a checkAndUpdateView that ran through: the
   * second pass over the first pass's result, with the state a check leaves.
   */
  ghost function CheckedRecord(env: Env, views: seq<ViewRecord>, v: nat): ViewRecord
    requires EnvReady(env) && Wf(views) && v < |views|
  {
    SecondPass(env, views, v).views[v].(state := AfterCheck(views[v].state, views[v].def.flags))
  }

  /** The view half's checks, run on an arena that agrees with the first pass at v, are the second pass. */
  lemma SecondHalfPass(env: Env, views: seq<ViewRecord>, mid: seq<ViewRecord>, v: nat)
    requires EnvReady(env) && Wf(views) && Wf(mid) && v < |views| == |mid|
    requires mid[v] == FirstPass(env, views, v).views[v]
    ensures var p := ChecksRun(mid, v, HalfChecks(env, mid[v], ViewHalf), env.changed);
            p.views[v] == SecondPass(env, views, v).views[v] && p.evs == SecondPass(env, views, v).evs
  {
    var p1 := FirstPass(env, views, v);
    ChecksRunLocal(mid, p1.views, v, HalfChecks(env, mid[v], ViewHalf), env.changed);
  }

  /** A checked record depends on the view's own record only, and keeps its shape. */
  lemma CheckedRecordLocal(env: Env, a: seq<ViewRecord>, b: seq<ViewRecord>, v: nat)
    requires EnvReady(env) && Wf(a) && Wf(b) && v < |a| == |b| && a[v] == b[v]
    ensures CheckedRecord(env, a, v) == CheckedRecord(env, b, v)
    ensures SameRecordShape(a[v], CheckedRecord(env, a, v))
  {
    ChecksRunLocal(a, b, v, HalfChecks(env, a[v], ContentHalf), env.changed);
    var pa := FirstPass(env, a, v);
    var pb := FirstPass(env, b, v);
    ChecksRunLocal(pa.views, pb.views, v, HalfChecks(env, pa.views[v], ViewHalf), env.changed);
    var qa := SecondPass(env, a, v);
    assert SameRecordShape(a[v], pa.views[v]) && SameRecordShape(pa.views[v], qa.views[v]);
  }

  /**
   * What callViewAction leaves in child view c when it ran through, given
   * the arena it found: a no-changes check changes nothing, a check of a
   * view that may be checked leaves the checked record, and destroying sets
   * the Destroyed bit.
   */
  ghost predicate ActedOn(env: Env, views: seq<ViewRecord>, c: nat, after: ViewRecord, action: ViewAction)
  {
    EnvReady(env) && Wf(views) && c < |views| &&
    match action
    case CheckNoChanges => after == views[c]
    case CheckAndUpdate => after == if CanCheck(views[c].state) then CheckedRecord(env, views, c) else views[c]
    case Destroy => after == views[c].(state := Union(views[c].state, Destroyed))
  }

  /** Each view of ks in `b` is what the action made of it in `a`. */
  ghost predicate KidsActed(env: Env, a: seq<ViewRecord>, b: seq<ViewRecord>, ks: seq<nat>, action: ViewAction)
  {
    |a| == |b| && forall k :: 0 <= k < |ks| ==> ks[k] < |b| && ActedOn(env, a, ks[k], b[ks[k]], action)
  }

  lemma ActedOnLocal(env: Env, a: seq<ViewRecord>, b: seq<ViewRecord>, c: nat, after: ViewRecord, action: ViewAction)
    requires EnvReady(env) && Wf(a) && Wf(b) && c < |a| == |b| && a[c] == b[c]
    ensures ActedOn(env, a, c, after, action) <==> ActedOn(env, b, c, after, action)
  {
    CheckedRecordLocal(env, a, b, c);
  }

  /**
   * Acting on sibling views one group after another: each group changes
   * only its own subtrees, so what the first group made stays, and the
   * second group found its views as they were at the start.
   */
  lemma ActedJoin(env: Env, a: seq<ViewRecord>, b: seq<ViewRecord>, c: seq<ViewRecord>, v: nat,
                  ks1: seq<nat>, ks2: seq<nat>, action: ViewAction)
    requires EnvReady(env) && Wf(a) && Wf(b) && Wf(c) && Siblings(a, v, ks1 + ks2)
    requires ChangesUnder(a, b, ks1) && KidsActed(env, a, b, ks1, action)
    requires ChangesUnder(b, c, ks2) && KidsActed(env, b, c, ks2, action)
    ensures ChangesUnder(a, c, ks1 + ks2) && KidsActed(env, a, c, ks1 + ks2, action)
  {
    var ks := ks1 + ks2;
    SameShapeTrans(a, b, c);
    forall u | 0 <= u < |a| && !UnderAny(a, ks, u)
      ensures c[u] == a[u]
    {
      OutsideEach(a, ks, u);
      assert forall k :: 0 <= k < |ks1| ==> !InSubtree(a, ks1[k], u) by {
        forall k | 0 <= k < |ks1| ensures !InSubtree(a, ks1[k], u) { assert ks[k] == ks1[k]; }
      }
      forall k | 0 <= k < |ks2|
        ensures !InSubtree(b, ks2[k], u)
      {
        assert ks[|ks1| + k] == ks2[k];
        SubtreeShape(a, b, ks2[k], u);
      }
      OutsideAll(a, ks1, u);
      OutsideAll(b, ks2, u);
    }
    forall k | 0 <= k < |ks|
      ensures ks[k] < |c| && ActedOn(env, a, ks[k], c[ks[k]], action)
    {
      if k < |ks1| {
        forall j | 0 <= j < |ks2|
          ensures !InSubtree(b, ks2[j], ks[k])
        {
          SiblingsApart(a, v, ks, k, |ks1| + j);
          SubtreeShape(a, b, ks2[j], ks[k]);
        }
        OutsideAll(b, ks2, ks[k]);
      } else {
        var y := ks2[k - |ks1|];
        forall j | 0 <= j < |ks1|
          ensures !InSubtree(a, ks1[j], y)
        {
          SiblingsApart(a, v, ks, k, j);
        }
        OutsideAll(a, ks1, y);
        ActedOnLocal(env, a, b, y, c[y], action);
      }
    }
  }

  /** The child views of the nodes ts of a view record, node after node. */
  function WalkKids(r: ViewRecord, ts: seq<nat>): seq<nat>
    requires forall k :: 0 <= k < |ts| ==> ts[k] < |r.nodes|
  {
    if ts == [] then [] else WalkKids(r, ts[..|ts| - 1]) + Kids(r.nodes[ts[|ts| - 1]])
  }

  /** The child views execEmbeddedViewsAction (mask HasEmbeddedViews) or execComponentViewsAction (HasComponent) reaches. */
  ghost function ChildKids(views: seq<ViewRecord>, v: nat, mask: Flags): seq<nat>
    requires Wf(views) && v < |views|
  {
    ViewReady(views, v);
    WalkKids(views[v], Targets(views[v].def.nodes, 0, |views[v].def.nodes|, mask, mask))
  }

  /**
   * The child views of the nodes ts, ascending, of view v are distinct
   * children of v, each hanging off a node of ts.
   */
  lemma {:induction false} WalkKidsSiblings(views: seq<ViewRecord>, v: nat, ts: seq<nat>)
    requires Wf(views) && v < |views| && forall k :: 0 <= k < |ts| ==> ts[k] < |views[v].nodes|
    requires forall j, k :: 0 <= j < k < |ts| ==> ts[j] < ts[k]
    ensures Siblings(views, v, WalkKids(views[v], ts))
    ensures forall k :: 0 <= k < |WalkKids(views[v], ts)| ==>
              views[WalkKids(views[v], ts)[k]].parentNodeDef.Some? &&
              views[WalkKids(views[v], ts)[k]].parentNodeDef.value in ts
    decreases |ts|
  {
    if ts != [] {
      var m := |ts| - 1;
      var pre := WalkKids(views[v], ts[..m]);
      WalkKidsSiblings(views, v, ts[..m]);
      assert ViewWf(views, v) && KidsOk(views, v, ts[m]);
      var ks := Kids(views[v].nodes[ts[m]]);
      var all := pre + ks;
      forall j, k | 0 <= j < k < |all|
        ensures all[j] != all[k]
      {
        if j < |pre| && k >= |pre| {
          var p := views[pre[j]].parentNodeDef.value;
          assert p in ts[..m];
          assert all[k] == ks[k - |pre|];
        }
      }
    }
  }

  /** One more child view acted on: its changes and its block of events join those of the children before it. */
  lemma ActedStep(env: Env, views0: seq<ViewRecord>, pre: seq<ViewRecord>, post: seq<ViewRecord>, v: nat,
                  ks: seq<nat>, k: nat, blocks: seq<seq<Event>>, e: seq<Event>, ok: bool, action: ViewAction)
    requires EnvReady(env) && Wf(views0) && Wf(pre) && Wf(post) && v < |views0|
    requires Siblings(views0, v, ks) && k < |ks|
    requires ChangesUnder(views0, pre, ks[..k]) && KidsActed(env, views0, pre, ks[..k], action)
    requires |blocks| == k && BlocksUnder(views0, ks, blocks)
    requires Changes(pre, post, ks[k]) && EventsUnder(pre, ks[k], e)
    requires ok ==> ks[k] < |post| && ActedOn(env, pre, ks[k], post[ks[k]], action)
    ensures ChangesUnder(views0, post, ks[..k + 1])
    ensures BlocksUnder(views0, ks, blocks + [e])
    ensures ok ==> KidsActed(env, views0, post, ks[..k + 1], action)
  {
    var c := ks[k];
    EventsUnderShape(views0, pre, c, e);
    ChangesUnderOne(pre, post, c);
    assert ks[..k] + [c] == ks[..k + 1];
    ChangesUnderJoin(views0, pre, post, ks[..k], [c]);
    if ok {
      assert Siblings(views0, v, ks[..k + 1]);
      assert KidsActed(env, pre, post, [c], action);
      ActedJoin(env, views0, pre, post, v, ks[..k], [c], action);
    }
  }

  /**
   * A walk over the target nodes acted: the child views of those nodes
   * ended as the action makes them, the arena changed only in their
   * subtrees, and each left one block of events.
   */
  ghost predicate Walked(env: Env, views0: seq<ViewRecord>, cur: seq<ViewRecord>, v: nat, acted: seq<nat>,
                         blocks: seq<seq<Event>>, action: ViewAction)
    requires v < |views0| && forall k :: 0 <= k < |acted| ==> acted[k] < |views0[v].nodes|
  {
    var wk := WalkKids(views0[v], acted);
    ChangesUnder(views0, cur, wk) && KidsActed(env, views0, cur, wk, action) &&
    |blocks| == |wk| && BlocksUnder(views0, wk, blocks)
  }

  /** A node without data adds no child views to a walk. */
  lemma WalkKidsNoData(r: ViewRecord, ts: seq<nat>, i: nat, blocks: seq<seq<Event>>)
    requires i < |r.nodes| && r.nodes[i] == NoData
    requires forall k :: 0 <= k < |ts| ==> ts[k] < |r.nodes|
    ensures WalkKids(r, ts + [i]) == WalkKids(r, ts) && blocks + [] == blocks
  {
    assert (ts + [i])[..|ts|] == ts;
    assert Kids(r.nodes[i]) == [];
    assert WalkKids(r, ts) + [] == WalkKids(r, ts);
  }

  /** One more target node walked, by ActOnViews. */
  lemma WalkedStep(env: Env, views0: seq<ViewRecord>, pre: seq<ViewRecord>, post: seq<ViewRecord>, v: nat,
                   i: nat, mask: Flags, blocks: seq<seq<Event>>, b: seq<seq<Event>>, ok: bool, action: ViewAction)
    requires EnvReady(env) && Wf(views0) && Wf(pre) && Wf(post) && v < |views0|
    requires |views0[v].nodes| == |views0[v].def.nodes| && i < |views0[v].def.nodes|
    requires Walked(env, views0, pre, v, Targets(views0[v].def.nodes, 0, i, mask, mask), blocks, action)
    requires pre[v] == views0[v]
    requires var ks := Kids(views0[v].nodes[i]);
             ChangesUnder(pre, post, ks) && BlocksUnder(pre, ks, b) &&
             (ok ==> |b| == |ks| && KidsActed(env, pre, post, ks, action))
    ensures var ts := Targets(views0[v].def.nodes, 0, i, mask, mask) + [i];
            (forall k :: 0 <= k < |ts| ==> ts[k] < |views0[v].nodes|) &&
            ChangesUnder(views0, post, WalkKids(views0[v], ts)) &&
            BlocksUnder(views0, WalkKids(views0[v], ts), blocks + b) &&
            (ok ==> Walked(env, views0, post, v, ts, blocks + b, action))
  {
    ChildWalkStep(views0, pre, post, v, i, mask, blocks, b);
    if ok {
      ChildWalkActed(env, views0, pre, post, v, i, mask, action);
    }
  }

  /** One more target node walked: its child views' changes and blocks join those of the targets before it. */
  lemma ChildWalkStep(views0: seq<ViewRecord>, pre: seq<ViewRecord>, post: seq<ViewRecord>, v: nat,
                      i: nat, mask: Flags, blocks: seq<seq<Event>>, b: seq<seq<Event>>)
    requires Wf(views0) && v < |views0|
    requires |views0[v].nodes| == |views0[v].def.nodes| && i < |views0[v].def.nodes|
    requires var wk := WalkKids(views0[v], Targets(views0[v].def.nodes, 0, i, mask, mask));
             ChangesUnder(views0, pre, wk) && |blocks| == |wk| && BlocksUnder(views0, wk, blocks)
    requires pre[v] == views0[v]
    requires var ks := Kids(views0[v].nodes[i]);
             ChangesUnder(pre, post, ks) && BlocksUnder(pre, ks, b)
    ensures var ts := Targets(views0[v].def.nodes, 0, i, mask, mask) + [i];
            (forall k :: 0 <= k < |ts| ==> ts[k] < |views0[v].nodes|) &&
            WalkKids(views0[v], ts) == WalkKids(views0[v], ts[..|ts| - 1]) + Kids(views0[v].nodes[i]) &&
            ChangesUnder(views0, post, WalkKids(views0[v], ts)) &&
            BlocksUnder(views0, WalkKids(views0[v], ts), blocks + b)
  {
    var r := views0[v];
    var acted := Targets(r.def.nodes, 0, i, mask, mask);
    var ts := acted + [i];
    assert ts[..|ts| - 1] == acted;
    var wk := WalkKids(r, acted);
    var ks := Kids(r.nodes[i]);
    assert WalkKids(r, ts) == wk + ks;
    ChangesUnderJoin(views0, pre, post, wk, ks);
    assert SameShape(views0, pre);
    BlocksJoin(views0, pre, wk, ks, blocks, b);
  }

  /** One more target node walked: each of its child views ends as the action makes it, like those before. */
  lemma ChildWalkActed(env: Env, views0: seq<ViewRecord>, pre: seq<ViewRecord>, post: seq<ViewRecord>, v: nat,
                       i: nat, mask: Flags, action: ViewAction)
    requires EnvReady(env) && Wf(views0) && Wf(pre) && Wf(post) && v < |views0|
    requires |views0[v].nodes| == |views0[v].def.nodes| && i < |views0[v].def.nodes|
    requires var wk := WalkKids(views0[v], Targets(views0[v].def.nodes, 0, i, mask, mask));
             ChangesUnder(views0, pre, wk) && KidsActed(env, views0, pre, wk, action)
    requires var ks := Kids(views0[v].nodes[i]);
             ChangesUnder(pre, post, ks) && KidsActed(env, pre, post, ks, action)
    ensures var ts := Targets(views0[v].def.nodes, 0, i, mask, mask) + [i];
            (forall k :: 0 <= k < |ts| ==> ts[k] < |views0[v].nodes|) &&
            KidsActed(env, views0, post, WalkKids(views0[v], ts), action)
  {
    WalkKidsNext(views0, v, i, mask);
    var wk := WalkKids(views0[v], Targets(views0[v].def.nodes, 0, i, mask, mask));
    ActedJoin(env, views0, pre, post, v, wk, Kids(views0[v].nodes[i]), action);
  }

  /** The child views of the first targets and then of node i are distinct children of v. */
  lemma WalkKidsNext(views: seq<ViewRecord>, v: nat, i: nat, mask: Flags)
    requires Wf(views) && v < |views|
    requires |views[v].nodes| == |views[v].def.nodes| && i < |views[v].def.nodes|
    ensures var ts := Targets(views[v].def.nodes, 0, i, mask, mask) + [i];
            (forall k :: 0 <= k < |ts| ==> ts[k] < |views[v].nodes|) &&
            WalkKids(views[v], ts) ==
              WalkKids(views[v], Targets(views[v].def.nodes, 0, i, mask, mask)) + Kids(views[v].nodes[i]) &&
            Siblings(views, v, WalkKids(views[v], ts))
  {
    var acted := Targets(views[v].def.nodes, 0, i, mask, mask);
    var ts := acted + [i];
    assert ts[..|acted|] == acted;
    TargetsAscending(views[v].def.nodes, 0, i, mask, mask);
    WalkKidsSiblings(views, v, ts);
  }

  /** A walk over the first targets of view v changes only below v, and its events happen below v. */
  lemma ChildWalkDone(views0: seq<ViewRecord>, post: seq<ViewRecord>, v: nat, i: nat, mask: Flags, blocks: seq<seq<Event>>)
    requires Wf(views0) && v < |views0|
    requires |views0[v].nodes| == |views0[v].def.nodes| && i <= |views0[v].def.nodes|
    requires var wk := WalkKids(views0[v], Targets(views0[v].def.nodes, 0, i, mask, mask));
             ChangesUnder(views0, post, wk) && BlocksUnder(views0, wk, blocks)
    ensures Changes(views0, post, v) && post[v] == views0[v] && EventsBelow(views0, v, Concat(blocks))
  {
    var ts := Targets(views0[v].def.nodes, 0, i, mask, mask);
    TargetsAscending(views0[v].def.nodes, 0, i, mask, mask);
    WalkKidsSiblings(views0, v, ts);
    var wk := WalkKids(views0[v], ts);
    assert wk[..|wk|] == wk;
    ActedDone(views0, post, v, wk, |wk|, blocks);
  }

  /**
   * The embedded views and the component views of view v are distinct
   * children of v: a node anchoring embedded views is an element, one
   * holding a component view a directive.
   */
  lemma ChildKidsApart(views: seq<ViewRecord>, v: nat)
    requires Wf(views) && v < |views|
    ensures Siblings(views, v, ChildKids(views, v, HasEmbeddedViews) + ChildKids(views, v, HasComponent))
  {
    ViewReady(views, v);
    var d := views[v].def;
    var te := Targets(d.nodes, 0, |d.nodes|, HasEmbeddedViews, HasEmbeddedViews);
    var tc := Targets(d.nodes, 0, |d.nodes|, HasComponent, HasComponent);
    TargetsAscending(d.nodes, 0, |d.nodes|, HasEmbeddedViews, HasEmbeddedViews);
    TargetsAscending(d.nodes, 0, |d.nodes|, HasComponent, HasComponent);
    WalkKidsSiblings(views, v, te);
    WalkKidsSiblings(views, v, tc);
    var ek := ChildKids(views, v, HasEmbeddedViews);
    var ck := ChildKids(views, v, HasComponent);
    forall j, k | 0 <= j < |ek| && 0 <= k < |ck|
      ensures ek[j] != ck[k]
    {
      var pe := views[ek[j]].parentNodeDef.value;
      var pc := views[ck[k]].parentNodeDef.value;
      assert pe in te && pc in tc;
      assert ViewWf(views, v) && NodeReady(d, pe) && NodeReady(d, pc);
      assert d.nodes[pe].nodeType == Element && d.nodes[pc].nodeType == Directive;
    }
    SiblingsJoin(views, v, ek, ck);
  }

  /** The verdict of a walk one target node longer, from that of the walk before it. */
  lemma WalkVerdictStep(env: Env, views: seq<ViewRecord>, v: nat, ts: seq<nat>, i: nat)
    requires EnvReady(env) && Wf(views) && v < |views| && i < |views[v].nodes|
    requires forall k :: 0 <= k < |ts| ==> ts[k] < |views[v].nodes|
    requires WalkVerdict(env, views, v, ts) == Ok
    ensures WalkVerdict(env, views, v, ts + [i]) ==
            if views[v].nodes[i] == NoData then TypeErr else KidsVerdictAt(env, views, v, i)
  {
    assert (ts + [i])[..|ts|] == ts;
  }

  /** Once the walk over a prefix of the targets failed, the rest is not looked at. */
  lemma {:induction false} WalkVerdictStopped(env: Env, views: seq<ViewRecord>, v: nat, ts: seq<nat>, n: nat)
    requires EnvReady(env) && Wf(views) && v < |views| && n <= |ts|
    requires forall k :: 0 <= k < |ts| ==> ts[k] < |views[v].nodes|
    requires WalkVerdict(env, views, v, ts[..n]) != Ok
    ensures WalkVerdict(env, views, v, ts) == WalkVerdict(env, views, v, ts[..n])
    decreases |ts|
  {
    if n == |ts| {
      assert ts[..n] == ts;
    } else {
      var m := |ts| - 1;
      assert ts[..m][..n] == ts[..n];
      WalkVerdictStopped(env, views, v, ts[..m], n);
    }
  }

  /** A child-view walk that failed at target node i failed for the whole view. */
  lemma WalkFailedAt(env: Env, views: seq<ViewRecord>, v: nat, i: nat, mask: Flags)
    requires EnvReady(env) && Wf(views) && v < |views| && i < |views[v].def.nodes|
    requires Walkable(views[v].def) && |views[v].nodes| == |views[v].def.nodes|
    requires WalkVerdict(env, views, v, Targets(views[v].def.nodes, 0, i + 1, mask, mask)) != Ok
    ensures WalkVerdict(env, views, v, Targets(views[v].def.nodes, 0, |views[v].def.nodes|, mask, mask)) ==
            WalkVerdict(env, views, v, Targets(views[v].def.nodes, 0, i + 1, mask, mask))
  {
    var ns := views[v].def.nodes;
    TargetsSplit(ns, 0, i + 1, |ns|, mask, mask);
    var ts := Targets(ns, 0, |ns|, mask, mask);
    var n := |Targets(ns, 0, i + 1, mask, mask)|;
    assert ts[..n] == Targets(ns, 0, i + 1, mask, mask);
    WalkVerdictStopped(env, views, v, ts, n);
  }

  /** The verdict of checkNoChangesView on view v, on an arena it leaves as it is. */
  ghost function NoChangesOutcome(env: Env, views: seq<ViewRecord>, v: nat): Status
    requires EnvReady(env) && Wf(views) && v < |views|
    decreases |views| - v, 2, 0
  {
    ViewReady(views, v);
    var r := views[v];
    var d := r.def;
    var s1 := PassVerdict(r, v, env.updateDirectives(r), env.stale);
    if s1 != Ok then s1 else
    var s2 := WalkVerdict(env, views, v, Targets(d.nodes, 0, |d.nodes|, HasEmbeddedViews, HasEmbeddedViews));
    if s2 != Ok then s2 else
    var s3 := QueryVerdict(r.nodes, v, Targets(d.nodes, 0, |r.nodes|, HasContentQuery, HasDynamicQuery));
    if s3 != Ok then s3 else
    var s4 := PassVerdict(r, v, env.updateRenderer(r), env.stale);
    if s4 != Ok then s4 else
    var s5 := WalkVerdict(env, views, v, Targets(d.nodes, 0, |d.nodes|, HasComponent, HasComponent));
    if s5 != Ok then s5 else
    QueryVerdict(r.nodes, v, Targets(d.nodes, 0, |r.nodes|, HasViewQuery, HasDynamicQuery))
  }

  /**
   * The verdict of a child-view walk over the target nodes ts of view v:
   * the first node holding no data throws, and otherwise its child views
   * give their verdicts in turn.
   */
  ghost function WalkVerdict(env: Env, views: seq<ViewRecord>, v: nat, ts: seq<nat>): Status
    requires EnvReady(env) && Wf(views) && v < |views|
    requires forall k :: 0 <= k < |ts| ==> ts[k] < |views[v].nodes|
    decreases |views| - v, 1, |ts| + 1
  {
    if ts == [] then Ok
    else
      var s := WalkVerdict(env, views, v, ts[..|ts| - 1]);
      var i := ts[|ts| - 1];
      if s != Ok then s
      else if views[v].nodes[i] == NoData then TypeErr
      else KidsVerdictAt(env, views, v, i)
  }

  /** The verdicts of the child views ks of view v in turn: a view that may not be checked passes. */
  ghost function KidsVerdict(env: Env, views: seq<ViewRecord>, v: nat, ks: seq<nat>): Status
    requires EnvReady(env) && Wf(views) && v < |views|
    requires forall k :: 0 <= k < |ks| ==> v < ks[k] < |views|
    decreases |views| - v, 0, |ks|
  {
    if ks == [] then Ok
    else
      var s := KidsVerdict(env, views, v, ks[..|ks| - 1]);
      var c := ks[|ks| - 1];
      if s != Ok then s
      else if CanCheck(views[c].state) then NoChangesOutcome(env, views, c)
      else Ok
  }

  /** The verdicts of the child views of node i of view v. */
  ghost function KidsVerdictAt(env: Env, views: seq<ViewRecord>, v: nat, i: nat): Status
    requires EnvReady(env) && Wf(views) && v < |views| && i < |views[v].nodes|
    decreases |views| - v, 1, 0
  {
    assert ViewWf(views, v) && KidsOk(views, v, i);
    KidsVerdict(env, views, v, Kids(views[v].nodes[i]))
  }

  lemma KidsVerdictAtKids(env: Env, views: seq<ViewRecord>, v: nat, i: nat)
    requires EnvReady(env) && Wf(views) && v < |views| && i < |views[v].nodes|
    ensures ViewWf(views, v) && KidsOk(views, v, i)
    ensures KidsVerdictAt(env, views, v, i) == KidsVerdict(env, views, v, Kids(views[v].nodes[i]))
  {
    assert ViewWf(views, v);
  }

  /** The verdict of the first k + 1 child views, from that of the first k. */
  lemma KidsVerdictStep(env: Env, views: seq<ViewRecord>, v: nat, ks: seq<nat>, k: nat)
    requires EnvReady(env) && Wf(views) && v < |views| && k < |ks|
    requires forall j :: 0 <= j < |ks| ==> v < ks[j] < |views|
    requires KidsVerdict(env, views, v, ks[..k]) == Ok
    ensures KidsVerdict(env, views, v, ks[..k + 1]) ==
            if CanCheck(views[ks[k]].state) then NoChangesOutcome(env, views, ks[k]) else Ok
  {
    assert ks[..k + 1][..k] == ks[..k];
  }

  /** The child views pass exactly when those before the last pass and the last one, if it may be checked, passes. */
  lemma KidsVerdictLast(env: Env, views: seq<ViewRecord>, v: nat, ks: seq<nat>)
    requires EnvReady(env) && Wf(views) && v < |views| && ks != []
    requires forall k :: 0 <= k < |ks| ==> v < ks[k] < |views|
    ensures KidsVerdict(env, views, v, ks) == Ok <==>
            KidsVerdict(env, views, v, ks[..|ks| - 1]) == Ok &&
            (CanCheck(views[ks[|ks| - 1]].state) ==> NoChangesOutcome(env, views, ks[|ks| - 1]) == Ok)
  {
  }

  /** Child views that pass each passed their own check, when they could be checked. */
  lemma {:induction false} KidsVerdictPassed(env: Env, views: seq<ViewRecord>, v: nat, ks: seq<nat>)
    requires EnvReady(env) && Wf(views) && v < |views|
    requires forall k :: 0 <= k < |ks| ==> v < ks[k] < |views|
    requires KidsVerdict(env, views, v, ks) == Ok
    ensures forall k :: 0 <= k < |ks| && CanCheck(views[ks[k]].state) ==> NoChangesOutcome(env, views, ks[k]) == Ok
    decreases |ks|
  {
    if ks != [] {
      var m := |ks| - 1;
      var pre := ks[..m];
      KidsVerdictLast(env, views, v, ks);
      KidsVerdictPassed(env, views, v, pre);
      forall k | 0 <= k < |ks| && CanCheck(views[ks[k]].state)
        ensures NoChangesOutcome(env, views, ks[k]) == Ok
      {
        if k < m {
          assert pre[k] == ks[k];
        }
      }
    }
  }

  /** Child views each of which passes its own check when it may be checked pass together. */
  lemma {:induction false} KidsVerdictPasses(env: Env, views: seq<ViewRecord>, v: nat, ks: seq<nat>)
    requires EnvReady(env) && Wf(views) && v < |views|
    requires forall k :: 0 <= k < |ks| ==> v < ks[k] < |views|
    requires forall k :: 0 <= k < |ks| && CanCheck(views[ks[k]].state) ==> NoChangesOutcome(env, views, ks[k]) == Ok
    ensures KidsVerdict(env, views, v, ks) == Ok
    decreases |ks|
  {
    if ks != [] {
      var m := |ks| - 1;
      var pre := ks[..m];
      assert forall k :: 0 <= k < m ==> pre[k] == ks[k];
      KidsVerdictPasses(env, views, v, pre);
      KidsVerdictLast(env, views, v, ks);
    }
  }

  /** The child views pass exactly when every one that may be checked passes its own check. */
  lemma KidsVerdictOk(env: Env, views: seq<ViewRecord>, v: nat, ks: seq<nat>)
    requires EnvReady(env) && Wf(views) && v < |views|
    requires forall k :: 0 <= k < |ks| ==> v < ks[k] < |views|
    ensures KidsVerdict(env, views, v, ks) == Ok <==>
            forall k :: 0 <= k < |ks| && CanCheck(views[ks[k]].state) ==> NoChangesOutcome(env, views, ks[k]) == Ok
  {
    if KidsVerdict(env, views, v, ks) == Ok {
      KidsVerdictPassed(env, views, v, ks);
    } else if forall k :: 0 <= k < |ks| && CanCheck(views[ks[k]].state) ==> NoChangesOutcome(env, views, ks[k]) == Ok {
      KidsVerdictPasses(env, views, v, ks);
    }
  }

  /** A walk passes exactly when every target node holds data and its child views pass. */
  lemma {:induction false} WalkVerdictOk(env: Env, views: seq<ViewRecord>, v: nat, ts: seq<nat>)
    requires EnvReady(env) && Wf(views) && v < |views|
    requires forall k :: 0 <= k < |ts| ==> ts[k] < |views[v].nodes|
    ensures WalkVerdict(env, views, v, ts) == Ok <==>
            forall k :: 0 <= k < |ts| ==> views[v].nodes[ts[k]] != NoData && KidsVerdictAt(env, views, v, ts[k]) == Ok
    decreases |ts|
  {
    if ts != [] {
      var m := |ts| - 1;
      WalkVerdictOk(env, views, v, ts[..m]);
      assert forall k :: 0 <= k < m ==> ts[..m][k] == ts[k];
    }
  }

  /** Once the child views of a prefix failed, the rest is not looked at. */
  lemma {:induction false} KidsVerdictStopped(env: Env, views: seq<ViewRecord>, v: nat, ks: seq<nat>, n: nat)
    requires EnvReady(env) && Wf(views) && v < |views| && n <= |ks|
    requires forall k :: 0 <= k < |ks| ==> v < ks[k] < |views|
    requires KidsVerdict(env, views, v, ks[..n]) != Ok
    ensures KidsVerdict(env, views, v, ks) == KidsVerdict(env, views, v, ks[..n])
    decreases |ks|
  {
    if n == |ks| {
      assert ks[..n] == ks;
    } else {
      var m := |ks| - 1;
      assert ks[..m][..n] == ks[..n];
      KidsVerdictStopped(env, views, v, ks[..m], n);
    }
  }

  // ------------------------------------------------ the walk over the views

  /** What callViewAction does to a view (creating nodes has its own walk, below). */
  datatype ViewAction = CheckNoChanges | CheckAndUpdate | Destroy

  /** The lifecycles a checked-hooks call asks for: the checked hook, and the init hook in the first check. */
  function CheckHooks(checked: Flags, init: Flags, firstCheck: bool): Flags
  {
    Union(checked, if firstCheck then init else NoFlags)
  }

  /**
   * callViewAction (view.ts:555-577): both checks run only on a view whose
   * ChecksEnabled bit is set and whose Errored and Destroyed bits are not;
   * destroying always runs.
   */
  method CallViewAction(rt: Arena, env: Env, c: nat, action: ViewAction) returns (st: Status, evs: seq<Event>)
    requires EnvReady(env) && Wf(rt.views) && c < |rt.views|
    modifies rt
    ensures Wf(rt.views) && Changes(old(rt.views), rt.views, c) && rt.nextId == old(rt.nextId)
    ensures EventsUnder(old(rt.views), c, evs)
    ensures action == CheckNoChanges ==>
              rt.views == old(rt.views) && evs == [] &&
              st == if CanCheck(old(rt.views)[c].state) then NoChangesOutcome(env, old(rt.views), c) else Ok
    ensures action != Destroy && !CanCheck(old(rt.views)[c].state) ==> st == Ok && rt.views == old(rt.views) && evs == []
    ensures action == CheckAndUpdate && CanCheck(old(rt.views)[c].state) ==>
              rt.views[c].state == if st == Ok then AfterCheck(old(rt.views)[c].state, old(rt.views)[c].def.flags)
                                   else old(rt.views)[c].state
    ensures action == Destroy ==>
              rt.views[c].state == if st == Ok then Union(old(rt.views)[c].state, Destroyed) else old(rt.views)[c].state
    ensures st == Ok ==> ActedOn(env, old(rt.views), c, rt.views[c], action)
    decreases |rt.views| - c, 5
  {
    var state := rt.views[c].state;
    match action {
      case CheckNoChanges =>
        st, evs := Ok, [];
        if CanCheck(state) {
          st := CheckNoChangesView(rt, env, c);
        }
      case CheckAndUpdate =>
        st, evs := Ok, [];
        ChangesNone(rt.views, c);
        if CanCheck(state) {
          ghost var content, view, mid, embedded, component;
          st, evs, content, view, mid, embedded, component := CheckAndUpdateView(rt, env, c);
        }
      case Destroy =>
        ghost var embedded, component;
        st, evs, embedded, component := DestroyView(rt, env, c);
    }
  }

  /**
   * The inner loop of execEmbeddedViewsAction and the leaf of
   * execComponentViewsAction: the action on each child view node i of view
   * v lists, in order, until one throws.  The child views' subtrees are
   * disjoint and lie below v, so v itself is left as it was; each child
   * view that was acted on ends as the action makes it, and its events are
   * a block of their own.  A check for changes gives the children's verdict.
   */
  method ActOnViews(rt: Arena, env: Env, v: nat, i: nat, action: ViewAction)
    returns (st: Status, evs: seq<Event>, ghost blocks: seq<seq<Event>>)
    requires EnvReady(env) && Wf(rt.views) && v < |rt.views| && i < |rt.views[v].nodes|
    modifies rt
    ensures Wf(rt.views) && Changes(old(rt.views), rt.views, v) && rt.nextId == old(rt.nextId)
    ensures rt.views[v] == old(rt.views)[v]
    ensures EventsBelow(old(rt.views), v, evs)
    ensures action == CheckNoChanges ==>
              rt.views == old(rt.views) && evs == [] && st == KidsVerdictAt(env, old(rt.views), v, i)
    ensures var ks := Kids(old(rt.views)[v].nodes[i]);
            ChangesUnder(old(rt.views), rt.views, ks) && evs == Concat(blocks) &&
            BlocksUnder(old(rt.views), ks, blocks) &&
            (st == Ok ==> |blocks| == |ks| && KidsActed(env, old(rt.views), rt.views, ks, action))
    decreases |rt.views| - v, 1, 0
  {
    ghost var views0 := rt.views;
    assert ViewWf(views0, v) && KidsOk(views0, v, i);
    var ks := Kids(rt.views[v].nodes[i]);
    assert Siblings(views0, v, ks);
    ChangesUnderNone(views0);
    st, evs, blocks := Ok, [], [];
    for k := 0 to |ks|
      invariant KidsPrefixActed(env, views0, rt.views, v, ks, k, blocks, evs, action) && rt.nextId == old(rt.nextId)
    {
      var s, e := ActOnKid(rt, env, v, i, ks, k, action, views0, blocks, evs);
      blocks := blocks + [e];
      evs := evs + e;
      if s != Ok {
        st := s;
        return;
      }
    }
    assert ks[..|ks|] == ks;
    KidsVerdictAtKids(env, views0, v, i);
    ActedDone(views0, rt.views, v, ks, |ks|, blocks);
  }

  /**
   * ActOnViews after the first k child views ks of view v: they alone
   * changed, each as the action makes it, and their events are one block
   * each; a check for changes changed nothing and they all passed.
   */
  ghost predicate KidsPrefixActed(env: Env, views0: seq<ViewRecord>, views: seq<ViewRecord>, v: nat, ks: seq<nat>, k: nat,
                                  blocks: seq<seq<Event>>, evs: seq<Event>, action: ViewAction)
    requires EnvReady(env) && Wf(views0) && v < |views0| && Siblings(views0, v, ks) && k <= |ks|
  {
    Wf(views) && |blocks| == k && evs == Concat(blocks) && BlocksUnder(views0, ks, blocks) &&
    ChangesUnder(views0, views, ks[..k]) && KidsActed(env, views0, views, ks[..k], action) &&
    (action == CheckNoChanges ==> views == views0 && evs == [] && KidsVerdict(env, views0, v, ks[..k]) == Ok)
  }

  /**
   * The step of ActOnViews at the k-th child view of node i: the action
   * on it changes its subtree only, and its events are the block it adds.
   * A throw ends the loop with the children's verdict.
   */
  method ActOnKid(rt: Arena, env: Env, v: nat, i: nat, ks: seq<nat>, k: nat, action: ViewAction,
                  ghost views0: seq<ViewRecord>, ghost blocks: seq<seq<Event>>, ghost evs: seq<Event>)
    returns (st: Status, e: seq<Event>)
    requires EnvReady(env) && Wf(views0) && v < |views0| && i < |views0[v].nodes|
    requires ks == Kids(views0[v].nodes[i]) && Siblings(views0, v, ks) && k < |ks|
    requires KidsPrefixActed(env, views0, rt.views, v, ks, k, blocks, evs, action)
    modifies rt
    ensures rt.nextId == old(rt.nextId)
    ensures st == Ok ==> KidsPrefixActed(env, views0, rt.views, v, ks, k + 1, blocks + [e], evs + e, action)
    ensures st != Ok ==>
              Wf(rt.views) && Changes(views0, rt.views, v) && rt.views[v] == views0[v] &&
              ChangesUnder(views0, rt.views, ks) && evs + e == Concat(blocks + [e]) &&
              BlocksUnder(views0, ks, blocks + [e]) && EventsBelow(views0, v, evs + e) &&
              (action == CheckNoChanges ==> rt.views == views0 && evs + e == [] && st == KidsVerdictAt(env, views0, v, i))
    decreases |rt.views| - v, 0
  {
    ghost var pre := rt.views;
    st, e := CallViewAction(rt, env, ks[k], action);
    ConcatAppend(blocks, e);
    ActedStep(env, views0, pre, rt.views, v, ks, k, blocks, e, st == Ok, action);
    if action == CheckNoChanges {
      KidsVerdictStep(env, views0, v, ks, k);
    }
    if st != Ok {
      ActedDone(views0, rt.views, v, ks, k + 1, blocks + [e]);
      if action == CheckNoChanges {
        KidsVerdictStopped(env, views0, v, ks, k + 1);
        KidsVerdictAtKids(env, views0, v, i);
      }
    }
  }

  /**
   * execEmbeddedViewsAction (mask HasEmbeddedViews) and
   * execComponentViewsAction (mask HasComponent), view.ts:511-553: nothing
   * when the view's nodeFlags miss the mask; otherwise the nodes whose flags
   * meet it have their child views acted on, in depth-first order, the
   * descendants of a node whose flags and childFlags both miss the mask
   * being jumped over.  Reading the data of such a node that was never
   * created throws.
   */
  method ExecChildViewsAction(rt: Arena, env: Env, v: nat, mask: Flags, action: ViewAction)
    returns (st: Status, evs: seq<Event>, ghost acted: seq<nat>, ghost blocks: seq<seq<Event>>)
    requires EnvReady(env) && Wf(rt.views) && v < |rt.views|
    requires mask == HasComponent || mask == HasEmbeddedViews
    modifies rt
    ensures Wf(rt.views) && Changes(old(rt.views), rt.views, v) && rt.nextId == old(rt.nextId)
    ensures rt.views[v] == old(rt.views)[v]
    ensures EventsBelow(old(rt.views), v, evs)
    ensures var r := old(rt.views)[v];
            |r.nodes| == |r.def.nodes| &&
            (action == CheckNoChanges ==>
               rt.views == old(rt.views) && evs == [] &&
               st == WalkVerdict(env, old(rt.views), v, Targets(r.def.nodes, 0, |r.def.nodes|, mask, mask)))
    ensures (forall k :: 0 <= k < |acted| ==> acted[k] < |old(rt.views)[v].nodes|) &&
            ChangesUnder(old(rt.views), rt.views, WalkKids(old(rt.views)[v], acted)) &&
            evs == Concat(blocks) && BlocksUnder(old(rt.views), WalkKids(old(rt.views)[v], acted), blocks)
    ensures st == Ok ==>
              acted == Targets(old(rt.views)[v].def.nodes, 0, |old(rt.views)[v].def.nodes|, mask, mask) &&
              |blocks| == |WalkKids(old(rt.views)[v], acted)| &&
              KidsActed(env, old(rt.views), rt.views, WalkKids(old(rt.views)[v], acted), action)
    decreases |rt.views| - v, 2
  {
    ghost var views0 := rt.views;
    var d := rt.views[v].def;
    ViewReady(views0, v);
    ChangesNone(rt.views, v);
    ChangesUnderNone(views0);
    st, evs, acted, blocks := Ok, [], [], [];
    if !Has(d.nodeFlags, mask) {
      NoTargetsAtAll(d, mask, mask);
      return;
    }
    var i := 0;
    while i < |d.nodes|
      invariant i <= |d.nodes|
      invariant Wf(rt.views) && rt.nextId == old(rt.nextId)
      invariant |rt.views| == |views0| && rt.views[v] == views0[v]
      invariant acted == Targets(d.nodes, 0, i, mask, mask)
      invariant action == CheckNoChanges ==> rt.views == views0 && evs == [] && WalkVerdict(env, views0, v, acted) == Ok
      invariant evs == Concat(blocks) && Walked(env, views0, rt.views, v, acted, blocks, action)
      decreases |d.nodes| - i
    {
      LeafWalkStep(d, i, mask);
      if Has(d.nodes[i].flags, mask) {
        var s, e, b := WalkTarget(rt, env, v, i, mask, action, views0, acted, blocks);
        ConcatJoin(blocks, b);
        evs := evs + e;
        acted := acted + [i];
        blocks := blocks + b;
        if s != Ok {
          st := s;
          return;
        }
        i := i + 1;
      } else if !Has(d.nodes[i].childFlags, mask) {
        i := RangeEnd(d.nodes, i);
      } else {
        i := i + 1;
      }
    }
    ChildWalkDone(views0, rt.views, v, i, mask, blocks);
  }

  /**
   * The step of execEmbeddedViewsAction and execComponentViewsAction at a
   * target node i of view v: reading the data of a node that was never
   * created throws; otherwise its child views are acted on.  The walk so
   * far grows by node i.
   */
  method WalkTarget(rt: Arena, env: Env, v: nat, i: nat, mask: Flags, action: ViewAction,
                    ghost views0: seq<ViewRecord>, ghost acted: seq<nat>, ghost blocks: seq<seq<Event>>)
    returns (st: Status, e: seq<Event>, ghost b: seq<seq<Event>>)
    requires EnvReady(env) && Wf(views0) && v < |views0|
    requires |views0[v].nodes| == |views0[v].def.nodes| && i < |views0[v].def.nodes|
    requires acted == Targets(views0[v].def.nodes, 0, i, mask, mask) && Has(views0[v].def.nodes[i].flags, mask)
    requires Wf(rt.views) && |rt.views| == |views0| && rt.views[v] == views0[v]
    requires Walked(env, views0, rt.views, v, acted, blocks, action)
    requires action == CheckNoChanges ==> rt.views == views0 && WalkVerdict(env, views0, v, acted) == Ok
    modifies rt
    ensures Wf(rt.views) && rt.nextId == old(rt.nextId) && |rt.views| == |views0| && rt.views[v] == views0[v]
    ensures var ts := acted + [i];
            (forall k :: 0 <= k < |ts| ==> ts[k] < |views0[v].nodes|) &&
            ChangesUnder(views0, rt.views, WalkKids(views0[v], ts)) &&
            BlocksUnder(views0, WalkKids(views0[v], ts), blocks + b) && e == Concat(b) &&
            (st == Ok ==> Walked(env, views0, rt.views, v, ts, blocks + b, action)) &&
            (action == CheckNoChanges ==> rt.views == views0 && e == [] && WalkVerdict(env, views0, v, ts) == st)
    ensures st != Ok ==>
              Changes(views0, rt.views, v) && EventsBelow(views0, v, Concat(blocks + b)) &&
              (action == CheckNoChanges ==>
                 st == WalkVerdict(env, views0, v, Targets(views0[v].def.nodes, 0, |views0[v].def.nodes|, mask, mask)))
    decreases |rt.views| - v, 1, 1
  {
    ViewReady(views0, v);
    LeafWalkStep(views0[v].def, i, mask);
    if action == CheckNoChanges {
      WalkVerdictStep(env, views0, v, acted, i);
    }
    if rt.views[v].nodes[i] == NoData {
      WalkKidsNoData(views0[v], acted, i, blocks);
      st, e, b := TypeErr, [], [];
    } else {
      ghost var pre := rt.views;
      st, e, b := ActOnViews(rt, env, v, i, action);
      WalkedStep(env, views0, pre, rt.views, v, i, mask, blocks, b, st == Ok, action);
    }
    if st != Ok {
      if action == CheckNoChanges {
        WalkFailedAt(env, views0, v, i, mask);
      }
      ChildWalkDone(views0, rt.views, v, i + 1, mask, blocks + b);
    }
  }

  /**
   * checkNoChangesView (view.ts:337-346): the directives' bindings, the
   * embedded views, the dynamic content queries, the renderer's bindings,
   * the component views and the dynamic view queries, each checked for
   * changes in turn; the first that throws ends the check.  Nothing changes.
   */
  method CheckNoChangesView(rt: Arena, env: Env, v: nat) returns (st: Status)
    requires EnvReady(env) && Wf(rt.views) && v < |rt.views|
    modifies rt
    ensures rt.views == old(rt.views) && rt.nextId == old(rt.nextId)
    ensures st == NoChangesOutcome(env, old(rt.views), v)
    decreases |rt.views| - v, 4
  {
    var r := rt.views[v];
    assert ViewWf(rt.views, v) && RecordFits(r);
    RecordSlotsFit(r);
    st := NoChangesPass(r, v, env.updateDirectives(r), env.stale);
    if st != Ok {
      return;
    }
    var evs;
    ghost var acted, blocks;
    st, evs, acted, blocks := ExecChildViewsAction(rt, env, v, HasEmbeddedViews, CheckNoChanges);
    if st != Ok {
      return;
    }
    st, evs := ExecQueriesAction(r, v, HasContentQuery, HasDynamicQuery, QueryCheckNoChanges);
    if st != Ok {
      return;
    }
    st := NoChangesPass(r, v, env.updateRenderer(r), env.stale);
    if st != Ok {
      return;
    }
    st, evs, acted, blocks := ExecChildViewsAction(rt, env, v, HasComponent, CheckNoChanges);
    if st != Ok {
      return;
    }
    st, evs := ExecQueriesAction(r, v, HasViewQuery, HasDynamicQuery, QueryCheckNoChanges);
  }

  /**
   * The two halves of checkAndUpdateView: the content half (the directives'
   * bindings, the embedded views, the content queries) and the view half
   * (the renderer's bindings, the component views, the view queries).
   */
  datatype Half = ContentHalf | ViewHalf

  function HalfChecks(env: Env, r: ViewRecord, h: Half): seq<NodeCheck>
  {
    if h == ContentHalf then env.updateDirectives(r) else env.updateRenderer(r)
  }

  function HalfViews(h: Half): Flags
  {
    if h == ContentHalf then HasEmbeddedViews else HasComponent
  }

  function HalfQueries(h: Half): Flags
  {
    if h == ContentHalf then HasContentQuery else HasViewQuery
  }

  /** The lifecycles a half's hooks call asks for. */
  function HalfHooks(h: Half, firstCheck: bool): Flags
  {
    if h == ContentHalf then CheckHooks(AfterContentChecked, AfterContentInit, firstCheck)
    else CheckHooks(AfterViewChecked, AfterViewInit, firstCheck)
  }

  /** The init hook is asked for exactly in the first check, the checked hook always. */
  lemma HalfHooksBits(h: Half, firstCheck: bool)
    ensures h == ContentHalf ==> Has(HalfHooks(h, firstCheck), AfterContentChecked) &&
                                 (Has(HalfHooks(h, firstCheck), AfterContentInit) <==> firstCheck) &&
                                 !Has(HalfHooks(h, firstCheck), AfterViewChecked | AfterViewInit)
    ensures h == ViewHalf ==> Has(HalfHooks(h, firstCheck), AfterViewChecked) &&
                              (Has(HalfHooks(h, firstCheck), AfterViewInit) <==> firstCheck) &&
                              !Has(HalfHooks(h, firstCheck), AfterContentChecked | AfterContentInit)
  {
  }

  /**
   * The events of a half that ran through: its node checks and child views,
   * the updates of its dynamic queries, then its hooks.
   */
  function HalfEvents(v: nat, d: ViewDefinition, firstCheck: bool, h: Half, checked: seq<Event>): seq<Event>
    requires Walkable(d)
  {
    checked + QueryEvents(v, Targets(d.nodes, 0, |d.nodes|, HalfQueries(h), HasDynamicQuery)) +
    HookEvents(v, d, HookTargets(d, 0, |d.nodes|, HalfHooks(h, firstCheck)), HalfHooks(h, firstCheck))
  }

  /** What a well-formed arena promises about one view's definition and sizes. */
  lemma ViewReady(views: seq<ViewRecord>, v: nat)
    requires Wf(views) && v < |views|
    ensures Walkable(views[v].def) && |views[v].nodes| == |views[v].def.nodes| && SlotsFit(views[v])
  {
    assert ViewWf(views, v);
    RecordSlotsFit(views[v]);
  }

  /** The hooks of view v happen in view v. */
  lemma HooksUnder(views: seq<ViewRecord>, v: nat, d: ViewDefinition, lifecycles: Flags)
    requires v < |views| && Walkable(d)
    ensures EventsUnder(views, v, HookEvents(v, d, HookTargets(d, 0, |d.nodes|, lifecycles), lifecycles))
  {
    assert InSubtree(views, v, v);
    HookEventsSound(v, d, HookTargets(d, 0, |d.nodes|, lifecycles), lifecycles);
  }

  /**
   * The child views of view v's half h, reached from what the half's node
   * checks make of `before`: each ends in `after` as checkAndUpdate makes
   * it, and `kids` is their events, one block per child view, each block
   * within that child's subtree.
   */
  ghost predicate KidsChecked(env: Env, before: seq<ViewRecord>, after: seq<ViewRecord>, v: nat, h: Half,
                              kids: seq<Event>, blocks: seq<seq<Event>>)
    requires EnvReady(env) && Wf(before) && v < |before|
  {
    var pass := ChecksRun(before, v, HalfChecks(env, before[v], h), env.changed);
    var ks := ChildKids(pass.views, v, HalfViews(h));
    kids == Concat(blocks) && |blocks| == |ks| && BlocksUnder(pass.views, ks, blocks) &&
    KidsActed(env, pass.views, after, ks, CheckAndUpdate)
  }

  /**
   * The child views of both halves of a check of view v that ran through:
   * `mid` is the arena between the halves, where v is as the first pass
   * left it and only the embedded views' subtrees changed; the content
   * half's embedded views end in `mid` and the view half's component views
   * in `after` as checkAndUpdate makes them.
   */
  ghost predicate HalvesChecked(env: Env, before: seq<ViewRecord>, mid: seq<ViewRecord>, after: seq<ViewRecord>, v: nat,
                                content: seq<Event>, view: seq<Event>, embedded: seq<seq<Event>>, component: seq<seq<Event>>)
    requires EnvReady(env) && Wf(before) && v < |before|
  {
    var p1 := FirstPass(env, before, v);
    Wf(mid) && |mid| == |before| && mid[v] == p1.views[v] &&
    ChangesUnder(p1.views, mid, ChildKids(p1.views, v, HasEmbeddedViews)) &&
    KidsChecked(env, before, mid, v, ContentHalf, content, embedded) &&
    KidsChecked(env, mid, after, v, ViewHalf, view, component)
  }

  /** A new record for view v itself leaves what an action made of v's child views. */
  lemma KidsActedSetParent(env: Env, a: seq<ViewRecord>, b: seq<ViewRecord>, v: nat, mask: Flags, r: ViewRecord, action: ViewAction)
    requires Wf(a) && v < |a| && KidsActed(env, a, b, ChildKids(a, v, mask), action)
    ensures KidsActed(env, a, b[v := r], ChildKids(a, v, mask), action)
  {
    ViewReady(a, v);
    var d := a[v].def;
    TargetsAscending(d.nodes, 0, |d.nodes|, mask, mask);
    WalkKidsSiblings(a, v, Targets(d.nodes, 0, |d.nodes|, mask, mask));
  }

  /** A new record for view v itself leaves its half's child views as they were checked. */
  lemma KidsCheckedSetParent(env: Env, before: seq<ViewRecord>, after: seq<ViewRecord>, v: nat, h: Half,
                             kids: seq<Event>, blocks: seq<seq<Event>>, r: ViewRecord)
    requires EnvReady(env) && Wf(before) && v < |before| && KidsChecked(env, before, after, v, h, kids, blocks)
    ensures KidsChecked(env, before, after[v := r], v, h, kids, blocks)
  {
    var pass := ChecksRun(before, v, HalfChecks(env, before[v], h), env.changed);
    KidsActedSetParent(env, pass.views, after, v, HalfViews(h), r, CheckAndUpdate);
  }

  /**
   * One half of checkAndUpdateView (view.ts:349-356 and 358-366): the node
   * checks of a closure, the action on the child views, the update of the
   * dynamic queries, then the hooks children first, which throw at the
   * first hook target holding no created instance.  View v ends as the node
   * checks left it: the child views changed below it only.  `checked` is
   * the events of the node checks followed by those of the child views,
   * which come in one block per child view of the half's nodes, each child
   * view ending as checkAndUpdate makes it.
   */
  method CheckAndUpdateHalf(rt: Arena, env: Env, v: nat, h: Half)
    returns (st: Status, evs: seq<Event>, ghost checked: seq<Event>, ghost blocks: seq<seq<Event>>)
    requires EnvReady(env) && Wf(rt.views) && v < |rt.views|
    modifies rt
    ensures Wf(rt.views) && Changes(old(rt.views), rt.views, v) && rt.nextId == old(rt.nextId)
    ensures rt.views[v].state == old(rt.views)[v].state && rt.views[v].def == old(rt.views)[v].def
    ensures EventsUnder(old(rt.views), v, evs)
    ensures rt.views[v] == ChecksRun(old(rt.views), v, HalfChecks(env, old(rt.views)[v], h), env.changed).views[v]
    ensures st == Ok ==>
              var pass := ChecksRun(old(rt.views), v, HalfChecks(env, old(rt.views)[v], h), env.changed);
              pass.ok && |pass.evs| <= |checked| && checked[..|pass.evs|] == pass.evs &&
              EventsBelow(old(rt.views), v, checked[|pass.evs|..])
    ensures st == Ok ==>
              var d := old(rt.views)[v].def;
              Walkable(d) &&
              AllReady(rt.views[v].nodes, HookTargets(d, 0, |d.nodes|, HalfHooks(h, Has(old(rt.views)[v].state, FirstCheck)))) &&
              evs == HalfEvents(v, d, Has(old(rt.views)[v].state, FirstCheck), h, checked)
    ensures st == Ok ==>
              var pass := ChecksRun(old(rt.views), v, HalfChecks(env, old(rt.views)[v], h), env.changed);
              var ks := ChildKids(pass.views, v, HalfViews(h));
              checked == pass.evs + Concat(blocks) && ChangesUnder(pass.views, rt.views, ks) &&
              KidsChecked(env, old(rt.views), rt.views, v, h, Concat(blocks), blocks)
    decreases |rt.views| - v, 3
  {
    ghost var views0 := rt.views;
    var r := rt.views[v];
    ViewReady(views0, v);
    assert InSubtree(views0, v, v);
    var s1, e1 := RunNodeChecks(rt, env.changed, v, HalfChecks(env, r, h));
    checked := e1;
    evs := e1;
    blocks := [];
    if s1 != Ok {
      st := s1;
      return;
    }
    ghost var mid := rt.views;
    var s2, e2, acted, b2 := ExecChildViewsAction(rt, env, v, HalfViews(h), CheckAndUpdate);
    blocks := b2;
    ChangesTrans(views0, mid, rt.views, v, v, v);
    EventsBelowShape(views0, mid, v, e2);
    EventsUnderJoin(views0, v, e1, e2);
    evs := e1 + e2;
    checked := evs;
    assert checked[..|e1|] == e1 && checked[|e1|..] == e2;
    if s2 != Ok {
      st := s2;
      return;
    }
    ViewReady(rt.views, v);
    var e3;
    st, e3 := FinishHalf(rt.views[v], v, h, Has(r.state, FirstCheck));
    HalfEventsSplit(v, r.def, Has(r.state, FirstCheck), h, evs);
    EventsInUnder(views0, v, e3);
    EventsUnderJoin(views0, v, evs, e3);
    evs := evs + e3;
  }

  /**
   * The end of a half of checkAndUpdateView, on view v's record: the
   * update of the dynamic queries, then the hooks children first.
   */
  method FinishHalf(r: ViewRecord, v: nat, h: Half, firstCheck: bool) returns (st: Status, evs: seq<Event>)
    requires Walkable(r.def) && |r.nodes| == |r.def.nodes|
    ensures EventsIn(v, evs)
    ensures st == Ok <==> AllReady(r.nodes, HookTargets(r.def, 0, |r.def.nodes|, HalfHooks(h, firstCheck)))
    ensures st != Ok ==> st == TypeErr
    ensures st == Ok ==> HalfEvents(v, r.def, firstCheck, h, []) == evs
  {
    var d := r.def;
    var s3, e3 := ExecQueriesAction(r, v, HalfQueries(h), HasDynamicQuery, QueryCheckAndUpdate);
    var hooks := HalfHooks(h, firstCheck);
    var ok, e4 := CallLifecycleHooksChildrenFirst(v, d, r.nodes, hooks);
    HookRunFacts(v, d, r.nodes, hooks);
    assert EventsIn(v, e3);
    EventsInJoin(v, e3, e4);
    evs := e3 + e4;
    if !ok {
      return TypeErr, evs;
    }
    assert [] + e3 == e3;
    st := Ok;
  }

  /** A half's events are those of its node checks and child views followed by those of its end. */
  lemma HalfEventsSplit(v: nat, d: ViewDefinition, firstCheck: bool, h: Half, checked: seq<Event>)
    requires Walkable(d)
    ensures HalfEvents(v, d, firstCheck, h, checked) == checked + HalfEvents(v, d, firstCheck, h, [])
  {
    var q := QueryEvents(v, Targets(d.nodes, 0, |d.nodes|, HalfQueries(h), HasDynamicQuery));
    var hooks := HookEvents(v, d, HookTargets(d, 0, |d.nodes|, HalfHooks(h, firstCheck)), HalfHooks(h, firstCheck));
    assert HalfEvents(v, d, firstCheck, h, []) == [] + q + hooks == q + hooks;
    assert HalfEvents(v, d, firstCheck, h, checked) == checked + q + hooks == checked + (q + hooks);
  }

  /**
   * checkAndUpdateView (view.ts:348-372): the content half, then the view
   * half; then an OnPush view stops being checked and the first check is
   * over.  A throw leaves the view's state as it was.
   */
  method CheckAndUpdateView(rt: Arena, env: Env, v: nat)
    returns (st: Status, evs: seq<Event>, ghost content: seq<Event>, ghost view: seq<Event>,
             ghost mid: seq<ViewRecord>, ghost embedded: seq<seq<Event>>, ghost component: seq<seq<Event>>)
    requires EnvReady(env) && Wf(rt.views) && v < |rt.views|
    modifies rt
    ensures Wf(rt.views) && Changes(old(rt.views), rt.views, v) && rt.nextId == old(rt.nextId)
    ensures EventsUnder(old(rt.views), v, evs)
    ensures rt.views[v].def == old(rt.views)[v].def
    ensures rt.views[v].state == if st == Ok then AfterCheck(old(rt.views)[v].state, old(rt.views)[v].def.flags)
                                 else old(rt.views)[v].state
    ensures st == Ok ==> rt.views[v] == CheckedRecord(env, old(rt.views), v)
    ensures st == Ok ==>
              Walkable(old(rt.views)[v].def) &&
              var d := old(rt.views)[v].def;
              var fc := Has(old(rt.views)[v].state, FirstCheck);
              EventsBelow(old(rt.views), v, content) && EventsBelow(old(rt.views), v, view) &&
              evs == HalfEvents(v, d, fc, ContentHalf, FirstPass(env, old(rt.views), v).evs + content) +
                     HalfEvents(v, d, fc, ViewHalf, SecondPass(env, old(rt.views), v).evs + view)
    ensures st == Ok ==> HalvesChecked(env, old(rt.views), mid, rt.views, v, content, view, embedded, component)
    decreases |rt.views| - v, 4
  {
    ghost var views0 := rt.views;
    var state := rt.views[v].state;
    var flags := rt.views[v].def.flags;
    var e1;
    ghost var checked1, blocks1;
    st, e1, checked1, blocks1 := CheckAndUpdateHalf(rt, env, v, ContentHalf);
    content, view := [], [];
    mid, embedded, component := rt.views, blocks1, [];
    evs := e1;
    if st != Ok {
      return;
    }
    ghost var pass1 := FirstPass(env, views0, v);
    content := Concat(blocks1);
    var e2;
    ghost var checked2, blocks2;
    st, e2, checked2, blocks2 := CheckAndUpdateHalf(rt, env, v, ViewHalf);
    component := blocks2;
    ChangesTrans(views0, mid, rt.views, v, v, v);
    EventsUnderShape(views0, mid, v, e2);
    EventsUnderJoin(views0, v, e1, e2);
    evs := e1 + e2;
    if st != Ok {
      return;
    }
    SecondHalfPass(env, views0, mid, v);
    view := Concat(blocks2);
    EventsBelowShape(views0, mid, v, view);
    ghost var pre := rt.views;
    KidsCheckedSetParent(env, mid, pre, v, ViewHalf, view, component, pre[v].(state := AfterCheck(state, flags)));
    SetStateKeeps(rt.views, v, AfterCheck(state, flags));
    rt.views := rt.views[v := rt.views[v].(state := AfterCheck(state, flags))];
    ChangesTrans(views0, pre, rt.views, v, v, v);
  }

  /**
   * What destroyView does in the view itself once its child views are
   * gone: the ngOnDestroy hooks children first, every disposable, every
   * render node when the renderer has destroyNode, and the renderer of a
   * component view.
   */
  function OwnTeardown(r: ViewRecord, v: nat, isComponentView: bool): seq<Event>
    requires Walkable(r.def)
  {
    var d := r.def;
    HookEvents(v, d, HookTargets(d, 0, |d.nodes|, OnDestroy), OnDestroy) +
    (if r.disposables.Some? then Disposals(v, |r.disposables.value|) else []) +
    (if r.rendererHasDestroyNode then DestroyNodeEvents(d, v, |d.nodes|) else []) +
    (if isComponentView then [DestroyRenderer(v)] else [])
  }

  /**
   * The teardown runs through exactly when every ngOnDestroy target holds a
   * created instance, every disposable slot is filled and every render node
   * was created.
   */
  predicate TeardownRuns(r: ViewRecord)
    requires Walkable(r.def) && |r.nodes| == |r.def.nodes|
  {
    AllReady(r.nodes, HookTargets(r.def, 0, |r.def.nodes|, OnDestroy)) &&
    (r.disposables.Some? ==> FirstEmpty(r.disposables.value, 0).None?) &&
    (r.rendererHasDestroyNode ==> FirstBareRenderNode(r, 0).None?)
  }

  /**
   * The steps of destroyView after the child views (view.ts:477-488), on
   * the view's record: a throw from an ngOnDestroy target without a created
   * instance, an empty disposable slot or a render node never created ends
   * them.
   */
  method TeardownView(r: ViewRecord, v: nat, isComponentView: bool) returns (st: Status, evs: seq<Event>)
    requires Walkable(r.def) && |r.nodes| == |r.def.nodes|
    ensures EventsIn(v, evs)
    ensures st == Ok <==> TeardownRuns(r)
    ensures st != Ok ==> st == TypeErr
    ensures st == Ok ==> evs == OwnTeardown(r, v, isComponentView)
  {
    var ok, hooks := CallLifecycleHooksChildrenFirst(v, r.def, r.nodes, OnDestroy);
    HookRunFacts(v, r.def, r.nodes, OnDestroy);
    if !ok {
      return TypeErr, hooks;
    }
    evs := hooks;
    var disposals: seq<Event> := [];
    if r.disposables.Some? {
      st, disposals := CallDisposables(v, r.disposables.value);
      assert EventsIn(v, disposals);
      EventsInJoin(v, hooks, disposals);
      if st != Ok {
        return st, hooks + disposals;
      }
    }
    var destroyed: seq<Event> := [];
    if r.rendererHasDestroyNode {
      st, destroyed := DestroyViewNodes(r, v);
      assert EventsIn(v, destroyed);
      EventsInJoin(v, hooks + disposals, destroyed);
      if st != Ok {
        return st, hooks + disposals + destroyed;
      }
    }
    var renderer: seq<Event> := if isComponentView then [DestroyRenderer(v)] else [];
    EventsInJoin(v, hooks + disposals, destroyed);
    EventsInJoin(v, hooks + disposals + destroyed, renderer);
    assert disposals == if r.disposables.Some? then Disposals(v, |r.disposables.value|) else [];
    assert destroyed == if r.rendererHasDestroyNode then DestroyNodeEvents(r.def, v, |r.def.nodes|) else [];
    st, evs := Ok, hooks + disposals + destroyed + renderer;
  }

  /**
   * The first two steps of destroyView (view.ts:475-476): the embedded
   * views, then the component views.  Each child view's events form a
   * block, and each child view ends destroyed.
   */
  method DestroyChildViews(rt: Arena, env: Env, v: nat)
    returns (st: Status, evs: seq<Event>, ghost embedded: seq<seq<Event>>, ghost component: seq<seq<Event>>)
    requires EnvReady(env) && Wf(rt.views) && v < |rt.views|
    modifies rt
    ensures Wf(rt.views) && Changes(old(rt.views), rt.views, v) && rt.nextId == old(rt.nextId)
    ensures rt.views[v] == old(rt.views)[v]
    ensures EventsBelow(old(rt.views), v, evs)
    ensures st == Ok ==>
              var ek := ChildKids(old(rt.views), v, HasEmbeddedViews);
              var ck := ChildKids(old(rt.views), v, HasComponent);
              evs == Concat(embedded) + Concat(component) &&
              |embedded| == |ek| && BlocksUnder(old(rt.views), ek, embedded) &&
              |component| == |ck| && BlocksUnder(old(rt.views), ck, component) &&
              KidsActed(env, old(rt.views), rt.views, ek + ck, Destroy)
    decreases |rt.views| - v, 3
  {
    ghost var views0 := rt.views;
    ghost var acted;
    component := [];
    st, evs, acted, embedded := ExecChildViewsAction(rt, env, v, HasEmbeddedViews, Destroy);
    if st != Ok {
      return;
    }
    ghost var mid := rt.views;
    var e2;
    st, e2, acted, component := ExecChildViewsAction(rt, env, v, HasComponent, Destroy);
    ChangesTrans(views0, mid, rt.views, v, v, v);
    EventsBelowShape(views0, mid, v, e2);
    EventsBelowJoin(views0, v, evs, e2);
    evs := evs + e2;
    if st == Ok {
      ChildKidsApart(views0, v);
      BlocksShape(views0, mid, ChildKids(views0, v, HasComponent), component);
      ActedJoin(env, views0, mid, rt.views, v, ChildKids(views0, v, HasEmbeddedViews),
                ChildKids(views0, v, HasComponent), Destroy);
    }
  }

  /**
   * destroyView (view.ts:474-490): the child views, then the view's own
   * teardown, then the Destroyed bit.  A throw leaves the view's record as
   * it was.
   */
  method DestroyView(rt: Arena, env: Env, v: nat)
    returns (st: Status, evs: seq<Event>, ghost embedded: seq<seq<Event>>, ghost component: seq<seq<Event>>)
    requires EnvReady(env) && Wf(rt.views) && v < |rt.views|
    modifies rt
    ensures Wf(rt.views) && Changes(old(rt.views), rt.views, v) && rt.nextId == old(rt.nextId)
    ensures EventsUnder(old(rt.views), v, evs)
    ensures rt.views[v] == if st == Ok then old(rt.views)[v].(state := Union(old(rt.views)[v].state, Destroyed))
                           else old(rt.views)[v]
    ensures st == Ok ==>
              var r := old(rt.views)[v];
              var ek := ChildKids(old(rt.views), v, HasEmbeddedViews);
              var ck := ChildKids(old(rt.views), v, HasComponent);
              Walkable(r.def) && |r.nodes| == |r.def.nodes| && TeardownRuns(r) &&
              evs == Concat(embedded) + Concat(component) + OwnTeardown(r, v, IsComponentView(old(rt.views), v)) &&
              |embedded| == |ek| && BlocksUnder(old(rt.views), ek, embedded) &&
              |component| == |ck| && BlocksUnder(old(rt.views), ck, component) &&
              KidsActed(env, old(rt.views), rt.views, ek + ck, Destroy)
    decreases |rt.views| - v, 4
  {
    ghost var views0 := rt.views;
    var r := rt.views[v];
    ViewReady(views0, v);
    st, evs, embedded, component := DestroyChildViews(rt, env, v);
    ghost var below := evs;
    if st != Ok {
      EventsBelowUnder(views0, v, evs);
      return;
    }
    ComponentViewShape(views0, rt.views, v);
    var own;
    st, own := TeardownView(r, v, IsComponentView(rt.views, v));
    EventsInUnder(views0, v, own);
    EventsBelowUnder(views0, v, below);
    EventsUnderJoin(views0, v, below, own);
    evs := evs + own;
    if st != Ok {
      return;
    }
    ghost var pre := rt.views;
    ChildKidsApart(views0, v);
    SetStateKeeps(rt.views, v, Union(r.state, Destroyed));
    rt.views := rt.views[v := r.(state := Union(r.state, Destroyed))];
    ChangesTrans(views0, pre, rt.views, v, v, v);
  }
}
