/**
 * Creating views, core/src/view/view.ts:218-335: a new view record
 * (createView), its component and context (initView), the data of each of
 * its nodes (createViewNodes), and the two entry points that make an
 * embedded view below an anchor element and a root view.
 *
 * A component directive makes its component view as a new record of the
 * arena before its instance is made, so that the instance can ask for the
 * component view's change detector; the nodes of the component views are
 * created only after every node of the view itself, by a walk over the
 * component directives.  Creation may go on making component views for
 * ever (a component whose template holds itself); the depth of that walk is
 * bounded by a fuel that stands for the call stack, and running out of it
 * is the stack overflow JavaScript would throw.
 */
module ViewCreation {
  import opened Wrappers
  import opened JsValues
  import opened ViewTypes
  import opened ViewShape
  import opened ViewWalks
  import opened Views
  import opened Providers
  import opened ViewRuntime

  // ------------------------------------------------------------- records

  /**
   * createView (view.ts:236-251): the record of a new view, in its first
   * check with checks enabled, with no component, context or node data yet,
   * undefined old values, and empty disposable slots when the definition
   * has any.
   */
  function NewView(def: ViewDefinition, parent: Option<nat>, parentNodeDef: Option<nat>, destroysNodes: bool): ViewRecord
  {
    ViewRecord(def, parent, parentNodeDef, destroysNodes, InitialState, NoValue, NoValue,
               Repeat(NoData, |def.nodes|), Repeat(Undefined, def.bindingCount),
               if def.disposableCount != 0 then Some(Repeat(None, def.disposableCount)) else None)
  }

  /** `new Array(n)`, every slot holding x. */
  function Repeat<T>(x: T, n: nat): (r: seq<T>)
    ensures |r| == n && forall k :: 0 <= k < n ==> r[k] == x
  {
    if n == 0 then [] else Repeat(x, n - 1) + [x]
  }

  /** `nodes[i] = nd` in view v. */
  function SetNode(views: seq<ViewRecord>, v: nat, i: nat, nd: NodeData): seq<ViewRecord>
    requires v < |views| && i < |views[v].nodes|
  {
    views[v := views[v].(nodes := views[v].nodes[i := nd])]
  }

  /** The component view stored at node j of a record, if any. */
  function ComponentViewAt(r: ViewRecord, j: nat): Option<nat>
  {
    if j < |r.nodes| then
      match KindOf(r.nodes[j])
      case KProvider(cv) => cv
      case _ => None
    else None
  }

  /** Two records agree on everything but the values of their node data and subscriptions. */
  predicate SameView(a: ViewRecord, b: ViewRecord)
  {
    SameRecordShape(a, b) && a.state == b.state && a.component == b.component && a.context == b.context
  }

  /**
   * `b` is `a` with views appended and, of the views `a` had, only the
   * node data of view v replaced (sizes kept).
   */
  ghost predicate Filled(a: seq<ViewRecord>, b: seq<ViewRecord>, v: nat)
  {
    v < |a| <= |b| && |a[v].nodes| == |b[v].nodes| &&
    (forall u :: 0 <= u < |a| && u != v ==> SameView(a[u], b[u])) &&
    SameView(a[v].(nodes := b[v].nodes), b[v])
  }

  /** `b` is `a` with views appended and, of the views `a` had, only node i of view v replaced. */
  ghost predicate Settled(a: seq<ViewRecord>, b: seq<ViewRecord>, v: nat, i: nat)
  {
    v < |a| <= |b| && i < |a[v].nodes| && i < |b[v].nodes| &&
    (forall u :: 0 <= u < |a| && u != v ==> SameView(a[u], b[u])) &&
    SameView(a[v].(nodes := a[v].nodes[i := b[v].nodes[i]]), b[v])
  }

  lemma SameViewTrans(a: ViewRecord, b: ViewRecord, c: ViewRecord)
    requires SameView(a, b) && SameView(b, c)
    ensures SameView(a, c)
  {
    forall i | 0 <= i < |a.nodes|
      ensures KindOf(a.nodes[i]) == KindOf(c.nodes[i])
    {
      assert KindOf(a.nodes[i]) == KindOf(b.nodes[i]);
    }
  }

  /** Every node being created is a property of the kinds only. */
  lemma SameViewCreated(a: ViewRecord, b: ViewRecord)
    requires SameView(a, b) && NodesMade(a)
    ensures NodesMade(b)
    ensures forall j :: ComponentViewAt(a, j) == ComponentViewAt(b, j)
  {
    forall i | 0 <= i < |b.nodes|
      ensures DataFits(b.def.nodes[i], KindOf(b.nodes[i]))
    {
      assert KindOf(a.nodes[i]) == KindOf(b.nodes[i]);
    }
  }

  /** The component view a node stores is the child view the node lists. */
  lemma ComponentViewKids(r: ViewRecord, j: nat)
    requires ComponentViewAt(r, j).Some?
    ensures j < |r.nodes| && Kids(r.nodes[j]) == [ComponentViewAt(r, j).value]
  {
  }

  /**
   * A new view fits its definition and lists no child views, so appending
   * it to a well-formed arena keeps the arena well-formed.
   */
  lemma AppendWf(views: seq<ViewRecord>, def: ViewDefinition, parent: Option<nat>, parentNodeDef: Option<nat>, destroysNodes: bool)
    requires Wf(views) && DefReady(def)
    requires parent.Some? <==> parentNodeDef.Some?
    requires parent.Some? ==> parent.value < |views| && parentNodeDef.value < |views[parent.value].def.nodes|
    ensures Wf(views + [NewView(def, parent, parentNodeDef, destroysNodes)])
  {
    var r := NewView(def, parent, parentNodeDef, destroysNodes);
    var b := views + [r];
    forall u | 0 <= u < |b|
      ensures ViewWf(b, u)
    {
      if u < |views| {
        assert ViewWf(views, u);
        forall i | 0 <= i < |b[u].nodes|
          ensures KidsOk(b, u, i)
        {
          assert KidsOk(views, u, i);
        }
      } else {
        forall i | 0 <= i < |r.nodes|
          ensures KidsOk(b, u, i)
        {
          assert r.nodes[i] == NoData;
        }
        assert RecordFits(r);
      }
    }
  }

  /**
   * Storing at node i of view v data of the kind the node's definition
   * calls for keeps the arena well-formed, provided every child view the
   * data lists is a distinct, newer view hanging off that very node.
   */
  lemma StoreNodeWf(views: seq<ViewRecord>, v: nat, i: nat, nd: NodeData)
    requires Wf(views) && v < |views| && i < |views[v].nodes| && i < |views[v].def.nodes|
    requires DataFits(views[v].def.nodes[i], KindOf(nd))
    requires forall k, k' :: 0 <= k < k' < |Kids(nd)| ==> Kids(nd)[k] != Kids(nd)[k']
    requires forall k :: 0 <= k < |Kids(nd)| ==>
      v < Kids(nd)[k] < |views| && views[Kids(nd)[k]].parent == Some(v) && views[Kids(nd)[k]].parentNodeDef == Some(i)
    ensures Wf(SetNode(views, v, i, nd))
  {
    var b := SetNode(views, v, i, nd);
    forall u | 0 <= u < |b|
      ensures ViewWf(b, u)
    {
      assert ViewWf(views, u);
      forall j | 0 <= j < |b[u].nodes|
        ensures KidsOk(b, u, j)
      {
        if u != v || j != i {
          assert KidsOk(views, u, j);
          assert Kids(b[u].nodes[j]) == Kids(views[u].nodes[j]);
        }
      }
    }
  }

  /** Setting a view's component and context keeps the arena well-formed. */
  lemma InitViewWf(views: seq<ViewRecord>, c: nat, component: DepValue, context: DepValue)
    requires Wf(views) && c < |views|
    ensures Wf(views[c := views[c].(component := component, context := context)])
  {
    var g := views[c := views[c].(component := component, context := context)];
    assert SameRecordShape(views[c], g[c]);
    assert SameShape(views, g);
    WfShape(views, g);
  }

  /** Making lazy instances keeps every view as it was but for node data. */
  lemma OnlyCreatedSame(a: seq<ViewRecord>, b: seq<ViewRecord>)
    requires OnlyCreated(a, b)
    ensures |a| == |b| && forall u :: 0 <= u < |a| ==> SameView(a[u], b[u])
  {
    OnlyCreatedShape(a, b);
    forall u | 0 <= u < |a|
      ensures SameView(a[u], b[u])
    {
      assert RecordGrown(a[u], b[u]) && SameRecordShape(a[u], b[u]);
    }
  }

  /** Making lazy instances never touches a node that holds no data. */
  lemma OnlyCreatedKeepsBare(a: seq<ViewRecord>, b: seq<ViewRecord>, u: nat)
    requires OnlyCreated(a, b) && u < |a|
    requires forall j :: 0 <= j < |a[u].nodes| ==> !a[u].nodes[j].ProviderData?
    ensures b[u] == a[u]
  {
    assert RecordGrown(a[u], b[u]);
    assert b[u].nodes == a[u].nodes;
  }

  /** Storing subscriptions changes only the disposables of view v. */
  lemma SubscriptionsSame(views: seq<ViewRecord>, v: nat, from: nat, subs: seq<nat>)
    requires v < |views| && (subs != [] ==> views[v].disposables.Some? && from + |subs| <= |views[v].disposables.value|)
    ensures var w := WithSubscriptions(views, v, from, subs);
      |w| == |views| && (forall u :: 0 <= u < |views| && u != v ==> w[u] == views[u]) &&
      w[v].nodes == views[v].nodes && SameView(views[v], w[v])
  {
    WithSubscriptionsSlots(views, v, from, subs);
  }

  /** createView, on the arena: the new record is appended and its index returned. */
  method CreateView(rt: Arena, def: ViewDefinition, parent: Option<nat>, parentNodeDef: Option<nat>, destroysNodes: bool)
    returns (u: nat)
    modifies rt
    ensures u == |old(rt.views)| && rt.views == old(rt.views) + [NewView(def, parent, parentNodeDef, destroysNodes)]
    ensures rt.nextId == old(rt.nextId)
  {
    u := |rt.views|;
    rt.views := rt.views + [NewView(def, parent, parentNodeDef, destroysNodes)];
  }

  /** initView (view.ts:253-256). */
  method InitView(rt: Arena, u: nat, component: DepValue, context: DepValue)
    requires u < |rt.views|
    modifies rt
    ensures rt.views == old(rt.views)[u := old(rt.views)[u].(component := component, context := context)]
    ensures rt.nextId == old(rt.nextId)
  {
    rt.views := rt.views[u := rt.views[u].(component := component, context := context)];
  }

  /** Nothing changed is a change of any one node. */
  lemma SettledRefl(a: seq<ViewRecord>, v: nat, i: nat)
    requires v < |a| && i < |a[v].nodes|
    ensures Settled(a, a, v, i)
  {
    assert a[v].(nodes := a[v].nodes[i := a[v].nodes[i]]) == a[v];
  }

  /** Replacing node i of view v again is still a change of that node only. */
  lemma SettledSet(a: seq<ViewRecord>, b: seq<ViewRecord>, v: nat, i: nat, nd: NodeData)
    requires Settled(a, b, v, i)
    ensures Settled(a, SetNode(b, v, i, nd), v, i)
  {
    var c := SetNode(b, v, i, nd);
    var x := a[v].(nodes := a[v].nodes[i := b[v].nodes[i]]);
    var y := a[v].(nodes := a[v].nodes[i := nd]);
    forall j | 0 <= j < |y.nodes|
      ensures KindOf(y.nodes[j]) == KindOf(c[v].nodes[j])
    {
      if j != i {
        assert KindOf(x.nodes[j]) == KindOf(b[v].nodes[j]);
      }
    }
  }

  /** Changes that keep every old view as it was but for node data add nothing to a change of one node. */
  lemma SettledAlike(a: seq<ViewRecord>, b: seq<ViewRecord>, c: seq<ViewRecord>, v: nat, i: nat)
    requires Settled(a, b, v, i) && |b| <= |c|
    requires forall u :: 0 <= u < |a| ==> SameView(b[u], c[u])
    ensures Settled(a, c, v, i)
  {
    forall u | 0 <= u < |a| && u != v
      ensures SameView(a[u], c[u])
    {
      SameViewTrans(a[u], b[u], c[u]);
    }
    var x := a[v].(nodes := a[v].nodes[i := b[v].nodes[i]]);
    var y := a[v].(nodes := a[v].nodes[i := c[v].nodes[i]]);
    assert SameView(b[v], c[v]);
    SameViewTrans(x, b[v], c[v]);
    forall j | 0 <= j < |y.nodes|
      ensures KindOf(y.nodes[j]) == KindOf(c[v].nodes[j])
    {
      if j != i {
        assert KindOf(x.nodes[j]) == KindOf(c[v].nodes[j]);
      }
    }
  }

  /** Views that keep their shape keep the arena well-formed. */
  lemma AlikeWf(a: seq<ViewRecord>, b: seq<ViewRecord>)
    requires Wf(a) && |a| == |b| && forall u :: 0 <= u < |a| ==> SameView(a[u], b[u])
    ensures Wf(b)
  {
    assert SameShape(a, b);
    WfShape(a, b);
  }

  // ------------------------------------------------------------ node data

  /**
   * The first half of a component directive's creation: the component view
   * is appended and node i of view v stores it, with an undefined instance.
   */
  method AttachComponentView(rt: Arena, v: nat, i: nat, def: ViewDefinition, destroys: bool) returns (c: nat)
    requires Wf(rt.views) && v < |rt.views| && i < |rt.views[v].def.nodes| && i < |rt.views[v].nodes| && DefReady(def)
    requires rt.views[v].def.nodes[i].nodeType == Directive && Has(rt.views[v].def.nodes[i].flags, HasComponent)
    modifies rt
    ensures c == |old(rt.views)| && |rt.views| == c + 1 && rt.nextId == old(rt.nextId)
    ensures Wf(rt.views) && Settled(old(rt.views), rt.views, v, i)
    ensures rt.views[v].nodes[i] == ProviderData(Created(NoValue), Some(c), map[])
    ensures rt.views[c] == NewView(def, Some(v), Some(i), destroys)
  {
    ghost var views0 := rt.views;
    AppendWf(rt.views, def, Some(v), Some(i), destroys);
    c := CreateView(rt, def, Some(v), Some(i), destroys);
    assert Settled(views0, rt.views, v, i) by {
      assert views0[v].(nodes := views0[v].nodes[i := rt.views[v].nodes[i]]) == rt.views[v];
    }
    var empty := ProviderData(Created(NoValue), Some(c), map[]);
    StoreNodeWf(rt.views, v, i, empty);
    SettledSet(views0, rt.views, v, i, empty);
    rt.views := SetNode(rt.views, v, i, empty);
  }

  /**
   * createDirectiveInstance (provider.ts), seen from view creation: lazy
   * instances may be made anywhere, then the outputs' subscriptions are
   * stored in view v's disposables.
   */
  method MakeDirectiveInstance(rt: Arena, fuel: nat, v: nat, i: nat)
    returns (r: Result<DepValue, Fault>, evs: seq<Event>, subs: seq<nat>, ghost made: seq<ViewRecord>)
    requires ProviderReady(rt.views, v, i) && rt.views[v].def.nodes[i].nodeType == Directive
    modifies rt
    ensures OnlyCreated(old(rt.views), made) && old(rt.nextId) <= rt.nextId
    ensures r.Failure? ==> rt.views == made
    ensures r.Success? ==>
      var from := old(rt.views)[v].def.nodes[i].disposableIndex;
      (subs != [] ==> made[v].disposables.Some? && from + |subs| <= |made[v].disposables.value|) &&
      rt.views == WithSubscriptions(made, v, from, subs)
  {
    ghost var base;
    r, evs, subs, made, base := CreateDirectiveInstance(rt, fuel, v, i);
  }

  /** Making the directive's instance leaves the new component view and the node that holds it alone. */
  lemma MadeKeeps(views0: seq<ViewRecord>, pre: seq<ViewRecord>, made: seq<ViewRecord>, v: nat, i: nat, c: nat)
    requires Settled(views0, pre, v, i) && Wf(pre) && OnlyCreated(pre, made) && c < |pre|
    requires forall j :: 0 <= j < |pre[c].nodes| ==> !pre[c].nodes[j].ProviderData?
    requires pre[v].nodes[i] == ProviderData(Created(NoValue), Some(c), map[])
    ensures Wf(made) && Settled(views0, made, v, i) && made[c] == pre[c] && made[v].nodes[i] == pre[v].nodes[i]
  {
    OnlyCreatedSame(pre, made);
    OnlyCreatedShape(pre, made);
    OnlyCreatedKeepsBare(pre, made, c);
    assert RecordGrown(pre[v], made[v]);
    SettledAlike(views0, pre, made, v, i);
  }

  /** Storing the outputs' subscriptions changes no node and no view's shape. */
  lemma SubscribedKeeps(views0: seq<ViewRecord>, made: seq<ViewRecord>, v: nat, i: nat, from: nat, subs: seq<nat>)
    requires Settled(views0, made, v, i) && Wf(made)
    requires subs != [] ==> made[v].disposables.Some? && from + |subs| <= |made[v].disposables.value|
    ensures var w := WithSubscriptions(made, v, from, subs);
      Wf(w) && Settled(views0, w, v, i) && w[v].nodes == made[v].nodes &&
      forall u :: 0 <= u < |made| && u != v ==> w[u] == made[u]
  {
    var w := WithSubscriptions(made, v, from, subs);
    SubscriptionsSame(made, v, from, subs);
    AlikeWf(made, w);
    SettledAlike(views0, made, w, v, i);
  }

  /**
   * Storing the instance, and making it the component view's component and
   * context, changes node i of view v only, among the views there were
   * before.
   */
  lemma StoredKeeps(views0: seq<ViewRecord>, w: seq<ViewRecord>, v: nat, i: nat, c: nat, x: DepValue)
    requires Settled(views0, w, v, i) && Wf(w) && |views0| <= c < |w|
    requires w[v].nodes[i] == ProviderData(Created(NoValue), Some(c), map[])
    ensures var f := StoreInstance(w, v, i, x);
      var g := f[c := f[c].(component := x, context := x)];
      Wf(g) && Settled(views0, g, v, i) && g[v].nodes[i] == ProviderData(Created(x), Some(c), map[]) &&
      g[c] == w[c].(component := x, context := x)
  {
    var nd := ProviderData(Created(x), Some(c), map[]);
    var f := StoreInstance(w, v, i, x);
    assert f == SetNode(w, v, i, nd);
    assert ViewWf(w, v) && KidsOk(w, v, i) && Kids(w[v].nodes[i]) == [c];
    StoreNodeWf(w, v, i, nd);
    SettledSet(views0, w, v, i, nd);
    var g := f[c := f[c].(component := x, context := x)];
    InitViewWf(f, c, x, x);
    SettledAlike(views0, f, g, v, i);
  }

  /**
   * The second half of a component directive's creation: its instance is
   * made and stored at node i, and becomes the component and the context of
   * component view c.  When making it throws, the node keeps an undefined
   * instance and the component view stays uninitialised.
   */
  method InstallComponent(rt: Arena, fuel: nat, v: nat, i: nat, c: nat, ghost views0: seq<ViewRecord>)
    returns (st: Status, evs: seq<Event>)
    requires Wf(rt.views) && v < c < |rt.views| && i < |rt.views[v].def.nodes| && i < |rt.views[v].nodes|
    requires Settled(views0, rt.views, v, i) && |views0| <= c
    requires rt.views[v].def.nodes[i].nodeType == Directive && rt.views[v].def.nodes[i].provider.Some?
    requires rt.views[v].nodes[i] == ProviderData(Created(NoValue), Some(c), map[])
    requires forall j :: 0 <= j < |rt.views[c].nodes| ==> !rt.views[c].nodes[j].ProviderData?
    requires rt.views[c].component == NoValue && rt.views[c].context == NoValue
    modifies rt
    ensures Wf(rt.views) && Settled(views0, rt.views, v, i) && |rt.views| == |old(rt.views)|
    ensures old(rt.nextId) <= rt.nextId
    ensures st != Ok ==> st.error.JsError?
    ensures var nd := rt.views[v].nodes[i];
      nd.ProviderData? && nd.instance.Created? && nd.componentView == Some(c) && nd.props == map[] &&
      (st != Ok ==> nd.instance == Created(NoValue)) &&
      rt.views[c] == old(rt.views)[c].(component := nd.instance.value, context := nd.instance.value)
  {
    ghost var pre := rt.views;
    var n := rt.views[v].def.nodes[i];
    ProviderReadyHolds(rt.views, v, i);
    var r, subs;
    ghost var made;
    r, evs, subs, made := MakeDirectiveInstance(rt, fuel, v, i);
    MadeKeeps(views0, pre, made, v, i, c);
    if r.Failure? {
      assert rt.views[c] == pre[c];
      st := Threw(JsError(r.error));
      return;
    }
    SubscribedKeeps(views0, made, v, i, n.disposableIndex, subs);
    assert rt.views[c] == pre[c];
    StoredKeeps(views0, rt.views, v, i, c, r.value);
    rt.views := StoreInstance(rt.views, v, i, r.value);
    InitView(rt, c, r.value, r.value);
    st := Ok;
  }

  /**
   * The component-directive case of createViewNodes (view.ts:283-302): the
   * component view is created first, from the view definition of the
   * directive's component factory and with that factory's renderer, and
   * the node stores it with an undefined instance; then the directive's
   * instance is made and stored, and becomes the component view's
   * component and context.  A directive without a component factory throws.
   */
  method CreateComponent(rt: Arena, env: Env, fuel: nat, v: nat, i: nat) returns (st: Status, evs: seq<Event>)
    requires EnvReady(env) && Wf(rt.views) && v < |rt.views| && i < |rt.views[v].def.nodes| && i < |rt.views[v].nodes|
    requires rt.views[v].def.nodes[i].nodeType == Directive && Has(rt.views[v].def.nodes[i].flags, HasComponent)
    requires rt.views[v].def.nodes[i].provider.Some?
    modifies rt
    ensures Wf(rt.views) && Settled(old(rt.views), rt.views, v, i) && old(rt.nextId) <= rt.nextId
    ensures st != Ok ==> st.error.JsError?
    ensures var comp := old(rt.views)[v].def.nodes[i].provider.value.component;
      comp.None? ==> st == TypeErr && rt.views == old(rt.views) && evs == []
    ensures var comp := old(rt.views)[v].def.nodes[i].provider.value.component;
      var c := |old(rt.views)|;
      var nd := rt.views[v].nodes[i];
      comp.Some? ==>
        |rt.views| == c + 1 && nd.ProviderData? && nd.componentView == Some(c) && nd.props == map[] &&
        nd.instance.Created? && (st != Ok ==> nd.instance == Created(NoValue)) &&
        rt.views[c] == NewView(env.componentDef(comp.value), Some(v), Some(i), env.componentDestroysNodes(comp.value))
                         .(component := nd.instance.value, context := nd.instance.value)
  {
    ghost var views0 := rt.views;
    var n := rt.views[v].def.nodes[i];
    var comp := n.provider.value.component;
    if comp.None? {
      SettledRefl(rt.views, v, i);
      st, evs := TypeErr, [];
      return;
    }
    var c := AttachComponentView(rt, v, i, env.componentDef(comp.value), env.componentDestroysNodes(comp.value));
    ghost var pre := rt.views;
    st, evs := InstallComponent(rt, fuel, v, i, c, views0);
  }

  /** The views are the same but for node data. */
  ghost predicate Alike(a: seq<ViewRecord>, b: seq<ViewRecord>)
  {
    |a| == |b| && forall u :: 0 <= u < |a| ==> SameView(a[u], b[u])
  }

  /**
   * The instance a provider, pipe or plain directive node gets: a lazy
   * provider's is NOT_CREATED, any other is made at once.
   */
  method MakeInstance(rt: Arena, fuel: nat, v: nat, i: nat) returns (x: Result<Instance, Fault>, evs: seq<Event>)
    requires Wf(rt.views) && v < |rt.views| && i < |rt.views[v].def.nodes|
    requires rt.views[v].def.nodes[i].nodeType in {Provider, Pipe, Directive}
    modifies rt
    ensures Wf(rt.views) && Alike(old(rt.views), rt.views) && old(rt.nextId) <= rt.nextId
    ensures var n := old(rt.views)[v].def.nodes[i];
      x.Success? ==> (x.value == NotCreated <==> n.nodeType == Provider && Has(n.flags, LazyProvider))
  {
    ghost var views0 := rt.views;
    var n := rt.views[v].def.nodes[i];
    assert ViewWf(rt.views, v) && NodeReady(rt.views[v].def, i);
    ProviderReadyHolds(rt.views, v, i);
    if n.nodeType == Provider {
      ghost var made;
      x, evs, made := CreateProviderInstance(rt, fuel, v, i);
      OnlyCreatedSame(views0, rt.views);
      OnlyCreatedShape(views0, rt.views);
    } else if n.nodeType == Pipe {
      var r;
      r, evs := CreatePipeInstance(rt, fuel, v, i);
      OnlyCreatedSame(views0, rt.views);
      OnlyCreatedShape(views0, rt.views);
      x := if r.Success? then Success(Created(r.value)) else Failure(r.error);
    } else {
      var r, subs;
      ghost var made;
      r, evs, subs, made := MakeDirectiveInstance(rt, fuel, v, i);
      OnlyCreatedSame(views0, made);
      OnlyCreatedShape(views0, made);
      if r.Success? {
        SubscriptionsSame(made, v, n.disposableIndex, subs);
        AlikeWf(made, rt.views);
        forall u | 0 <= u < |views0|
          ensures SameView(views0[u], rt.views[u])
        {
          SameViewTrans(views0[u], made[u], rt.views[u]);
        }
      }
      x := if r.Success? then Success(Created(r.value)) else Failure(r.error);
    }
  }

  /**
   * A provider, a pipe or a directive without a component: its instance
   * is stored in fresh provider data; when making it throws, nothing is
   * stored.
   */
  method CreateProviderNode(rt: Arena, fuel: nat, v: nat, i: nat) returns (st: Status, evs: seq<Event>)
    requires Wf(rt.views) && v < |rt.views| && i < |rt.views[v].def.nodes| && i < |rt.views[v].nodes|
    requires rt.views[v].def.nodes[i].nodeType in {Provider, Pipe, Directive}
    requires !Has(rt.views[v].def.nodes[i].flags, HasComponent)
    modifies rt
    ensures Wf(rt.views) && Settled(old(rt.views), rt.views, v, i) && |rt.views| == |old(rt.views)|
    ensures old(rt.nextId) <= rt.nextId
    ensures st != Ok ==> st.error.JsError?
    ensures var n := old(rt.views)[v].def.nodes[i]; var nd := rt.views[v].nodes[i];
      st == Ok ==>
        nd.ProviderData? && nd.componentView == None && nd.props == map[] && DataFits(n, KindOf(nd)) &&
        (nd.instance == NotCreated <==> n.nodeType == Provider && Has(n.flags, LazyProvider))
  {
    ghost var views0 := rt.views;
    var x;
    x, evs := MakeInstance(rt, fuel, v, i);
    SettledRefl(views0, v, i);
    SettledAlike(views0, views0, rt.views, v, i);
    if x.Failure? {
      st := Threw(JsError(x.error));
      return;
    }
    var nd := ProviderData(x.value, None, map[]);
    StoreNodeWf(rt.views, v, i, nd);
    SettledSet(views0, rt.views, v, i, nd);
    rt.views := SetNode(rt.views, v, i, nd);
    st := Ok;
  }

  /** Elements, text, pure expressions, queries and ng-content: data made on the spot. */
  method CreatePlainNode(rt: Arena, v: nat, i: nat) returns (nd: NodeData)
    requires Wf(rt.views) && v < |rt.views| && i < |rt.views[v].def.nodes| && i < |rt.views[v].nodes|
    requires rt.views[v].def.nodes[i].nodeType !in {Provider, Pipe, Directive}
    modifies rt
    ensures Wf(rt.views) && rt.views == SetNode(old(rt.views), v, i, nd)
    ensures DataFits(old(rt.views)[v].def.nodes[i], KindOf(nd))
    ensures var n := old(rt.views)[v].def.nodes[i]; var id := old(rt.nextId);
      if n.nodeType in {Element, Text} then
        rt.nextId == id + 1 &&
        nd == if n.nodeType == Text then TextData(id)
              else ElementData(id, if Has(n.flags, HasEmbeddedViews) then Some([]) else None)
      else
        rt.nextId == id &&
        nd == if n.nodeType == PureExpression then PureExpressionData(Undefined)
              else if n.nodeType == Query then QueryData(true) else NoData
  {
    var n := rt.views[v].def.nodes[i];
    assert ViewWf(rt.views, v) && NodeReady(rt.views[v].def, i);
    if n.nodeType == Element || n.nodeType == Text {
      var id := rt.Fresh();
      nd := if n.nodeType == Text then TextData(id)
            else ElementData(id, if Has(n.flags, HasEmbeddedViews) then Some([]) else None);
    } else {
      nd := if n.nodeType == PureExpression then PureExpressionData(Undefined)
            else if n.nodeType == Query then QueryData(true) else NoData;
    }
    StoreNodeWf(rt.views, v, i, nd);
    rt.views := SetNode(rt.views, v, i, nd);
  }

  /**
   * One step of createViewNodes' node loop (view.ts:266-327), by node type:
   * an element gets a new render element and, when it anchors templates,
   * an empty list of embedded views; a text node a new render text; a pure
   * expression an undefined value; a query a dirty query list; ng-content
   * nothing (its projected nodes are appended); providers, pipes and
   * directives their instances, a component directive also its component
   * view.
   */
  method CreateNode(rt: Arena, env: Env, fuel: nat, v: nat, i: nat) returns (st: Status, evs: seq<Event>)
    requires EnvReady(env) && Wf(rt.views) && v < |rt.views| && i < |rt.views[v].def.nodes| && i < |rt.views[v].nodes|
    modifies rt
    ensures Wf(rt.views) && Settled(old(rt.views), rt.views, v, i) && old(rt.nextId) <= rt.nextId
    ensures |rt.views| == |old(rt.views)| ||
            (|rt.views| == |old(rt.views)| + 1 && ComponentViewAt(rt.views[v], i) == Some(|old(rt.views)|))
    ensures st == Ok ==> DataFits(old(rt.views)[v].def.nodes[i], KindOf(rt.views[v].nodes[i]))
    ensures st == Ok && ComponentViewAt(rt.views[v], i).Some? ==> |rt.views| == |old(rt.views)| + 1
    ensures st != Ok ==> st.error.JsError?
    ensures var n := old(rt.views)[v].def.nodes[i]; var id := old(rt.nextId);
      n.nodeType in {Element, Text} ==>
        st == Ok && rt.nextId == id + 1 && evs == [NodeCreated(v, i)] &&
        rt.views == SetNode(old(rt.views), v, i,
                            if n.nodeType == Text then TextData(id)
                            else ElementData(id, if Has(n.flags, HasEmbeddedViews) then Some([]) else None))
    ensures var n := old(rt.views)[v].def.nodes[i];
      n.nodeType in {PureExpression, Query, NgContent} ==>
        st == Ok && rt.nextId == old(rt.nextId) && evs == [NodeCreated(v, i)] &&
        rt.views == SetNode(old(rt.views), v, i,
                            if n.nodeType == PureExpression then PureExpressionData(Undefined)
                            else if n.nodeType == Query then QueryData(true) else NoData)
    ensures var n := old(rt.views)[v].def.nodes[i]; var nd := rt.views[v].nodes[i];
      n.nodeType in {Provider, Pipe, Directive} && st == Ok ==>
        nd.ProviderData? && nd.props == map[] &&
        (nd.instance == NotCreated <==> n.nodeType == Provider && Has(n.flags, LazyProvider))
  {
    var n := rt.views[v].def.nodes[i];
    assert ViewWf(rt.views, v) && NodeReady(rt.views[v].def, i);
    if n.nodeType == Directive && Has(n.flags, HasComponent) {
      st, evs := CreateComponent(rt, env, fuel, v, i);
      return;
    }
    if n.nodeType in {Provider, Pipe, Directive} {
      st, evs := CreateProviderNode(rt, fuel, v, i);
      return;
    }
    ghost var views0 := rt.views;
    var nd := CreatePlainNode(rt, v, i);
    SettledRefl(views0, v, i);
    SettledSet(views0, views0, v, i, nd);
    st, evs := Ok, [NodeCreated(v, i)];
  }

  // ------------------------------------------------------------ the views

  /** Nothing changed is a filling of any view. */
  lemma FilledRefl(a: seq<ViewRecord>, v: nat)
    requires v < |a|
    ensures Filled(a, a, v)
  {
    assert a[v].(nodes := a[v].nodes) == a[v];
  }

  /**
   * A change of one node of view v after a filling of v is still a filling
   * of v, and leaves the component views of v's other nodes as they were.
   */
  lemma FilledSettled(a: seq<ViewRecord>, b: seq<ViewRecord>, c: seq<ViewRecord>, v: nat, i: nat)
    requires Filled(a, b, v) && Settled(b, c, v, i)
    ensures Filled(a, c, v)
    ensures forall j: nat :: j != i ==> ComponentViewAt(c[v], j) == ComponentViewAt(b[v], j)
  {
    forall u | 0 <= u < |a| && u != v
      ensures SameView(a[u], c[u])
    {
      SameViewTrans(a[u], b[u], c[u]);
    }
    var x := b[v].(nodes := b[v].nodes[i := c[v].nodes[i]]);
    forall j: nat | j != i
      ensures ComponentViewAt(c[v], j) == ComponentViewAt(b[v], j)
    {
      if j < |c[v].nodes| {
        assert KindOf(x.nodes[j]) == KindOf(c[v].nodes[j]);
      }
    }
  }

  /** What one step of the node loop adds to what the loop keeps. */
  lemma NodeStep(views0: seq<ViewRecord>, pre: seq<ViewRecord>, post: seq<ViewRecord>, d: ViewDefinition, v: nat, i: nat, ok: bool)
    requires Wf(post) && Filled(views0, pre, v) && Settled(pre, post, v, i)
    requires pre[v].def == d && i < |d.nodes| == |pre[v].nodes|
    requires |post| == |pre| || (|post| == |pre| + 1 && ComponentViewAt(post[v], i) == Some(|pre|))
    requires ok ==> DataFits(d.nodes[i], KindOf(post[v].nodes[i]))
    requires ok && ComponentViewAt(post[v], i).Some? ==> |post| == |pre| + 1
    requires forall j :: 0 <= j < i ==> DataFits(d.nodes[j], KindOf(pre[v].nodes[j]))
    requires forall j :: 0 <= j < i && ComponentViewAt(pre[v], j).Some? ==> |views0| <= ComponentViewAt(pre[v], j).value
    requires forall u :: |views0| <= u < |pre| ==>
               pre[u].parentNodeDef.Some? && pre[u].parentNodeDef.value < i &&
               ComponentViewAt(pre[v], pre[u].parentNodeDef.value) == Some(u)
    ensures Filled(views0, post, v) && post[v].def == d && |post[v].nodes| == |d.nodes|
    ensures ok ==> forall j :: 0 <= j < i + 1 ==> DataFits(d.nodes[j], KindOf(post[v].nodes[j]))
    ensures ok ==> forall j :: 0 <= j < i + 1 && ComponentViewAt(post[v], j).Some? ==>
              |views0| <= ComponentViewAt(post[v], j).value
    ensures forall u :: |views0| <= u < |post| ==>
              post[u].parentNodeDef.Some? && post[u].parentNodeDef.value < i + 1 &&
              ComponentViewAt(post[v], post[u].parentNodeDef.value) == Some(u)
  {
    FilledSettled(views0, pre, post, v, i);
    var x := pre[v].(nodes := pre[v].nodes[i := post[v].nodes[i]]);
    assert SameView(x, post[v]);
    if ok {
      forall j | 0 <= j < i
        ensures DataFits(d.nodes[j], KindOf(post[v].nodes[j]))
      {
        assert KindOf(x.nodes[j]) == KindOf(post[v].nodes[j]);
      }
    }
    forall u | |views0| <= u < |post|
      ensures post[u].parentNodeDef.Some? && post[u].parentNodeDef.value < i + 1 &&
              ComponentViewAt(post[v], post[u].parentNodeDef.value) == Some(u)
    {
      if u < |pre| {
        assert u != v && SameView(pre[u], post[u]);
        var j := pre[u].parentNodeDef.value;
        assert ComponentViewAt(post[v], j) == ComponentViewAt(pre[v], j);
      } else {
        assert u == |pre| && ComponentViewAt(post[v], i) == Some(u);
        ComponentViewKids(post[v], i);
        assert ViewWf(post, v) && KidsOk(post, v, i) && Kids(post[v].nodes[i])[0] == u;
      }
    }
  }

  /** A node whose creation makes no instance: it is one NodeCreated event and never throws. */
  predicate MakesNoInstance(n: NodeDef)
  {
    n.nodeType in {Element, Text, PureExpression, Query, NgContent}
  }

  /**
   * The events of the node loop of view v, one block per node created, in
   * index order; a node that makes no instance contributes exactly its
   * NodeCreated event.
   */
  predicate NodeBlocks(d: ViewDefinition, v: nat, blocks: seq<seq<Event>>)
  {
    |blocks| <= |d.nodes| &&
    forall k {:trigger blocks[k]} :: 0 <= k < |blocks| && MakesNoInstance(d.nodes[k]) ==> blocks[k] == [NodeCreated(v, k)]
  }

  /**
   * The node loop of createViewNodes (view.ts:264-327): the nodes of view
   * v get their data in order, until one throws.  The events are one block
   * per node reached; on success every node was reached, and otherwise the
   * last node reached makes an instance (only those throw) and the nodes
   * after it keep the kind of data they had, so a node with no data yet
   * still has none.  Every view appended on the way is the component view
   * of one of v's nodes.
   */
  method CreateNodes(rt: Arena, env: Env, fuel: nat, v: nat) returns (st: Status, evs: seq<Event>, ghost blocks: seq<seq<Event>>)
    requires EnvReady(env) && Wf(rt.views) && v < |rt.views|
    modifies rt
    ensures Wf(rt.views) && Filled(old(rt.views), rt.views, v) && old(rt.nextId) <= rt.nextId
    ensures st != Ok ==> st.error.JsError?
    ensures NodeBlocks(old(rt.views)[v].def, v, blocks) && evs == Concat(blocks)
    ensures st == Ok ==> |blocks| == |old(rt.views)[v].def.nodes|
    ensures st != Ok ==> 0 < |blocks| && !MakesNoInstance(old(rt.views)[v].def.nodes[|blocks| - 1])
    ensures forall j :: |blocks| <= j < |rt.views[v].nodes| ==>
              KindOf(rt.views[v].nodes[j]) == KindOf(old(rt.views)[v].nodes[j]) &&
              (old(rt.views)[v].nodes[j] == NoData ==> rt.views[v].nodes[j] == NoData)
    ensures forall u :: |old(rt.views)| <= u < |rt.views| ==>
              rt.views[u].parentNodeDef.Some? &&
              ComponentViewAt(rt.views[v], rt.views[u].parentNodeDef.value) == Some(u)
    ensures st == Ok ==> NodesMade(rt.views[v])
    ensures st == Ok ==> forall j :: ComponentViewAt(rt.views[v], j).Some? ==>
              |old(rt.views)| <= ComponentViewAt(rt.views[v], j).value
  {
    ghost var views0 := rt.views;
    ViewReady(rt.views, v);
    var d := rt.views[v].def;
    FilledRefl(views0, v);
    st, evs, blocks := Ok, [], [];
    for i := 0 to |d.nodes|
      invariant Wf(rt.views) && Filled(views0, rt.views, v) && old(rt.nextId) <= rt.nextId
      invariant rt.views[v].def == d && |rt.views[v].nodes| == |d.nodes|
      invariant |blocks| == i && NodeBlocks(d, v, blocks) && evs == Concat(blocks)
      invariant forall j :: i <= j < |d.nodes| ==> KindOf(rt.views[v].nodes[j]) == KindOf(views0[v].nodes[j])
      invariant forall j :: 0 <= j < i ==> DataFits(d.nodes[j], KindOf(rt.views[v].nodes[j]))
      invariant forall j :: 0 <= j < i && ComponentViewAt(rt.views[v], j).Some? ==>
                  |views0| <= ComponentViewAt(rt.views[v], j).value
      invariant forall u :: |views0| <= u < |rt.views| ==>
                  rt.views[u].parentNodeDef.Some? && rt.views[u].parentNodeDef.value < i &&
                  ComponentViewAt(rt.views[v], rt.views[u].parentNodeDef.value) == Some(u)
    {
      var s, e := SettleNode(rt, env, fuel, v, i, views0, d, blocks);
      ConcatAppend(blocks, e);
      evs, blocks := evs + e, blocks + [e];
      if s != Ok {
        st := s;
        return;
      }
    }
  }

  /**
   * The step of CreateNodes at node i: node i gets its data, the nodes
   * before it keep theirs, and a view appended on the way is the component
   * view of node i.  Only a node that makes an instance throws.
   */
  method SettleNode(rt: Arena, env: Env, fuel: nat, v: nat, i: nat,
                    ghost views0: seq<ViewRecord>, ghost d: ViewDefinition, ghost blocks: seq<seq<Event>>)
    returns (st: Status, e: seq<Event>)
    requires EnvReady(env) && Wf(rt.views) && v < |rt.views| && Filled(views0, rt.views, v)
    requires rt.views[v].def == d && |rt.views[v].nodes| == |d.nodes| && i < |d.nodes|
    requires |blocks| == i && NodeBlocks(d, v, blocks)
    requires forall j :: i <= j < |d.nodes| ==> KindOf(rt.views[v].nodes[j]) == KindOf(views0[v].nodes[j])
    requires forall j :: 0 <= j < i ==> DataFits(d.nodes[j], KindOf(rt.views[v].nodes[j]))
    requires forall j :: 0 <= j < i && ComponentViewAt(rt.views[v], j).Some? ==>
               |views0| <= ComponentViewAt(rt.views[v], j).value
    requires forall u :: |views0| <= u < |rt.views| ==>
               rt.views[u].parentNodeDef.Some? && rt.views[u].parentNodeDef.value < i &&
               ComponentViewAt(rt.views[v], rt.views[u].parentNodeDef.value) == Some(u)
    modifies rt
    ensures Wf(rt.views) && Filled(views0, rt.views, v) && old(rt.nextId) <= rt.nextId
    ensures rt.views[v].def == d && |rt.views[v].nodes| == |d.nodes|
    ensures NodeBlocks(d, v, blocks + [e])
    ensures st != Ok ==> st.error.JsError? && !MakesNoInstance(d.nodes[i])
    ensures forall j :: i + 1 <= j < |d.nodes| ==> KindOf(rt.views[v].nodes[j]) == KindOf(views0[v].nodes[j])
    ensures st == Ok ==> forall j :: 0 <= j < i + 1 ==> DataFits(d.nodes[j], KindOf(rt.views[v].nodes[j]))
    ensures st == Ok ==> forall j :: 0 <= j < i + 1 && ComponentViewAt(rt.views[v], j).Some? ==>
              |views0| <= ComponentViewAt(rt.views[v], j).value
    ensures forall u :: |views0| <= u < |rt.views| ==>
              rt.views[u].parentNodeDef.Some? && rt.views[u].parentNodeDef.value < i + 1 &&
              ComponentViewAt(rt.views[v], rt.views[u].parentNodeDef.value) == Some(u)
  {
    ghost var pre := rt.views;
    st, e := CreateNode(rt, env, fuel, v, i);
    NodeStep(views0, pre, rt.views, d, v, i, st == Ok);
    KindsAfter(pre[v], rt.views[v], i);
  }

  /** Settling node i of a record leaves the kinds of the nodes after it. */
  lemma KindsAfter(a: ViewRecord, b: ViewRecord, i: nat)
    requires i < |a.nodes| && i < |b.nodes| && SameView(a.(nodes := a.nodes[i := b.nodes[i]]), b)
    ensures forall j :: i < j < |a.nodes| ==> KindOf(b.nodes[j]) == KindOf(a.nodes[j])
  {
    var x := a.(nodes := a.nodes[i := b.nodes[i]]);
    forall j | i < j < |a.nodes|
      ensures KindOf(b.nodes[j]) == KindOf(a.nodes[j])
    {
      assert x.nodes[j] == a.nodes[j];
    }
  }

  /** The component view a created component directive holds. */
  lemma ComponentAt(views: seq<ViewRecord>, v: nat, i: nat)
    requires Wf(views) && v < |views| && NodesMade(views[v]) && i < |views[v].nodes|
    requires Has(views[v].def.nodes[i].flags, HasComponent)
    ensures views[v].nodes[i].ProviderData? && views[v].nodes[i].componentView.Some?
    ensures ComponentViewAt(views[v], i) == Some(views[v].nodes[i].componentView.value)
    ensures v < views[v].nodes[i].componentView.value < |views|
  {
    assert ViewWf(views, v) && NodeReady(views[v].def, i);
    assert DataFits(views[v].def.nodes[i], KindOf(views[v].nodes[i]));
    ComponentViewKids(views[v], i);
    assert KidsOk(views, v, i) && Kids(views[v].nodes[i])[0] == views[v].nodes[i].componentView.value;
  }

  /** The arena grew from `a`, and the views below `base` kept their shape. */
  ghost predicate Grown(a: seq<ViewRecord>, b: seq<ViewRecord>, base: nat)
  {
    base <= |a| <= |b| && forall u :: 0 <= u < base ==> SameView(a[u], b[u])
  }

  /**
   * What the walk of CreateComponentViews keeps: the component views of
   * the nodes acted on have all their nodes, and so has every view made.
   */
  ghost predicate WalkKept(views0: seq<ViewRecord>, views: seq<ViewRecord>, v: nat, base: nat, acted: seq<nat>)
  {
    v < base <= |views0| && Grown(views0, views, base) &&
    (forall k :: 0 <= k < |acted| ==>
       ComponentViewAt(views0[v], acted[k]).Some? && ComponentViewAt(views0[v], acted[k]).value < |views| &&
       NodesMade(views[ComponentViewAt(views0[v], acted[k]).value])) &&
    forall u :: |views0| <= u < |views| ==> NodesMade(views[u])
  }

  /**
   * What one component view's creation adds to what the walk of
   * CreateComponentViews keeps: the views made before are untouched, for
   * each component view belongs to a different node.
   */
  lemma WalkStep(views0: seq<ViewRecord>, pre: seq<ViewRecord>, post: seq<ViewRecord>, v: nat, base: nat,
                 i: nat, c: nat, acted: seq<nat>, ok: bool)
    requires WalkKept(views0, pre, v, base, acted)
    requires Wf(views0) && Wf(pre) && Filled(pre, post, c) && NodesMade(views0[v])
    requires ComponentViewAt(views0[v], i) == Some(c) && base <= c
    requires forall k :: 0 <= k < |acted| ==> acted[k] < i
    requires ok ==> NodesMade(post[c]) && forall u :: |pre| <= u < |post| ==> NodesMade(post[u])
    ensures Grown(views0, post, base)
    ensures ok ==> WalkKept(views0, post, v, base, acted + [i])
  {
    var r0 := views0[v];
    ComponentViewKids(r0, i);
    assert ViewWf(views0, v) && KidsOk(views0, v, i) && Kids(r0.nodes[i])[0] == c;
    assert c < |views0|;
    forall u | 0 <= u < base
      ensures SameView(views0[u], post[u])
    {
      SameViewTrans(views0[u], pre[u], post[u]);
    }
    SameViewCreated(r0, pre[v]);
    ComponentViewKids(pre[v], i);
    assert ViewWf(pre, v) && KidsOk(pre, v, i) && Kids(pre[v].nodes[i])[0] == c;
    if ok {
      forall k | 0 <= k < |acted + [i]|
        ensures ComponentViewAt(r0, (acted + [i])[k]).Some? &&
                ComponentViewAt(r0, (acted + [i])[k]).value < |post| &&
                NodesMade(post[ComponentViewAt(r0, (acted + [i])[k]).value])
      {
        if k < |acted| {
          var j := acted[k];
          var ck := ComponentViewAt(r0, j).value;
          ComponentViewKids(pre[v], j);
          assert KidsOk(pre, v, j) && Kids(pre[v].nodes[j])[0] == ck;
          assert pre[ck].parentNodeDef == Some(j) && pre[c].parentNodeDef == Some(i);
          SameViewCreated(pre[ck], post[ck]);
        }
      }
      forall u | |views0| <= u < |post|
        ensures NodesMade(post[u])
      {
        if u < |pre| {
          SameViewCreated(pre[u], post[u]);
        }
      }
    }
  }

  /**
   * execComponentViewsAction with the action CreateViewNodes (view.ts:511-529,
   * 573-575): the component view of every component directive of view v,
   * in depth-first order, gets its nodes; the first that throws ends the
   * walk.  The views below `base` other than those component views keep
   * their nodes' kinds, so what was made before stays made.
   */
  method CreateComponentViews(rt: Arena, env: Env, fuel: nat, v: nat, ghost base: nat) returns (st: Status, evs: seq<Event>)
    requires EnvReady(env) && Wf(rt.views) && v < base <= |rt.views| && NodesMade(rt.views[v])
    requires forall j :: ComponentViewAt(rt.views[v], j).Some? ==> base <= ComponentViewAt(rt.views[v], j).value
    modifies rt
    ensures Wf(rt.views) && Grown(old(rt.views), rt.views, base) && old(rt.nextId) <= rt.nextId
    ensures st != Ok ==> st.error.JsError?
    ensures st == Ok ==> forall j :: ComponentViewAt(rt.views[v], j).Some? ==>
              ComponentViewAt(rt.views[v], j).value < |rt.views| &&
              NodesMade(rt.views[ComponentViewAt(rt.views[v], j).value])
    ensures st == Ok ==> forall u :: |old(rt.views)| <= u < |rt.views| ==> NodesMade(rt.views[u])
    decreases fuel, 0
  {
    ghost var views0 := rt.views;
    var d := rt.views[v].def;
    ViewReady(rt.views, v);
    st, evs := Ok, [];
    if !Has(d.nodeFlags, HasComponent) {
      NoTargetsAtAll(d, HasComponent, HasComponent);
      WalkDone(views0, rt.views, v, base, []);
      return;
    }
    ghost var acted: seq<nat> := [];
    assert WalkKept(views0, rt.views, v, base, acted);
    var i := 0;
    while i < |d.nodes|
      invariant i <= |d.nodes|
      invariant Wf(rt.views) && old(rt.nextId) <= rt.nextId
      invariant acted == Targets(d.nodes, 0, i, HasComponent, HasComponent)
      invariant WalkKept(views0, rt.views, v, base, acted)
      decreases |d.nodes| - i
    {
      LeafWalkStep(d, i, HasComponent);
      if Has(d.nodes[i].flags, HasComponent) {
        assert SameView(views0[v], rt.views[v]);
        SameViewCreated(views0[v], rt.views[v]);
        ComponentAt(rt.views, v, i);
        var c := rt.views[v].nodes[i].componentView.value;
        if fuel == 0 {
          st := Threw(JsError(TooDeep));
          return;
        }
        ghost var pre := rt.views;
        var s, e, _, _ := CreateViewNodes(rt, env, fuel - 1, c);
        WalkStep(views0, pre, rt.views, v, base, i, c, acted, s == Ok);
        evs := evs + e;
        acted := acted + [i];
        if s != Ok {
          st := s;
          return;
        }
        i := i + 1;
      } else if !Has(d.nodes[i].childFlags, HasComponent) {
        i := RangeEnd(d.nodes, i);
      } else {
        i := i + 1;
      }
    }
    WalkDone(views0, rt.views, v, base, acted);
  }

  /** At the end of the walk every component directive of the view was acted on. */
  lemma WalkDone(views0: seq<ViewRecord>, views: seq<ViewRecord>, v: nat, base: nat, acted: seq<nat>)
    requires WalkKept(views0, views, v, base, acted) && NodesMade(views0[v])
    requires acted == Targets(views0[v].def.nodes, 0, |views0[v].def.nodes|, HasComponent, HasComponent)
    ensures Grown(views0, views, base)
    ensures forall u :: |views0| <= u < |views| ==> NodesMade(views[u])
    ensures forall j :: ComponentViewAt(views[v], j).Some? ==>
              ComponentViewAt(views[v], j).value < |views| &&
              NodesMade(views[ComponentViewAt(views[v], j).value])
  {
    var r0 := views0[v];
    assert SameView(r0, views[v]);
    SameViewCreated(r0, views[v]);
    forall j: nat | ComponentViewAt(views[v], j).Some?
      ensures ComponentViewAt(views[v], j).value < |views| &&
              NodesMade(views[ComponentViewAt(views[v], j).value])
    {
      assert DataFits(r0.def.nodes[j], KindOf(r0.nodes[j]));
      TargetsComplete(r0.def.nodes, 0, |r0.def.nodes|, HasComponent, HasComponent, j);
      var k :| 0 <= k < |acted| && acted[k] == j;
    }
  }

  /** Views appended after a filling of v are views appended to the arena the filling started from. */
  lemma FilledGrown(a: seq<ViewRecord>, b: seq<ViewRecord>, c: seq<ViewRecord>, v: nat)
    requires Filled(a, b, v) && Grown(b, c, |a|)
    ensures Filled(a, c, v)
  {
    forall u | 0 <= u < |a| && u != v
      ensures SameView(a[u], c[u])
    {
      SameViewTrans(a[u], b[u], c[u]);
    }
    assert SameView(b[v], c[v]);
    SameViewTrans(a[v].(nodes := b[v].nodes), b[v], c[v]);
  }

  /**
   * The render host of a component view is the element data of the parent
   * of its component directive (view.ts:260-263): reading it throws when
   * that directive has no parent or its parent has no data yet.
   */
  predicate HostMissing(views: seq<ViewRecord>, v: nat)
    requires v < |views|
  {
    IsComponentView(views, v) &&
    var p := views[v].parent.value;
    match ViewParentEl(views, v)
    case None => true
    case Some(h) => h >= |views[p].nodes| || views[p].nodes[h] == NoData
  }

  /**
   * createViewNodes (view.ts:258-335): a component view first looks up its
   * host element, the data of the parent of its component directive, and
   * throws when there is none; then every node of view v is created, then
   * the nodes of its component views, then the static content and view
   * queries are filled.  Only view v's nodes change among the views there
   * were, and on success v and every view made on the way have all their
   * nodes; the events are those of the nodes, those of the component views
   * and the query updates, in that order.
   */
  method CreateViewNodes(rt: Arena, env: Env, fuel: nat, v: nat)
    returns (st: Status, evs: seq<Event>, ghost blocks: seq<seq<Event>>, ghost below: seq<Event>)
    requires EnvReady(env) && Wf(rt.views) && v < |rt.views|
    modifies rt
    ensures Wf(rt.views) && Filled(old(rt.views), rt.views, v) && old(rt.nextId) <= rt.nextId
    ensures st != Ok ==> st.error.JsError?
    ensures HostMissing(old(rt.views), v) ==> st == TypeErr && rt.views == old(rt.views) && evs == []
    ensures st == Ok ==> NodesMade(rt.views[v]) && forall u :: |old(rt.views)| <= u < |rt.views| ==> NodesMade(rt.views[u])
    ensures NodeBlocks(old(rt.views)[v].def, v, blocks)
    ensures st == Ok || below != [] ==> |blocks| == |old(rt.views)[v].def.nodes|
    ensures evs == Concat(blocks) + below +
              if st != Ok then []
              else QueryEvents(v, Targets(old(rt.views)[v].def.nodes, 0, |old(rt.views)[v].def.nodes|,
                                          Union(HasContentQuery, HasViewQuery), HasStaticQuery))
    decreases fuel, 1
  {
    ghost var views0 := rt.views;
    ParentElReady(rt.views, v);
    FilledRefl(views0, v);
    blocks, below := [], [];
    if HostMissing(rt.views, v) {
      st, evs := TypeErr, [];
      return;
    }
    var made;
    st, made, blocks := CreateNodes(rt, env, fuel, v);
    evs := made;
    if st != Ok {
      return;
    }
    ghost var mid := rt.views;
    var e;
    st, e := CreateComponentViews(rt, env, fuel, v, |views0|);
    FilledGrown(views0, mid, rt.views, v);
    evs, below := evs + e, e;
    if st != Ok {
      return;
    }
    SameViewCreated(mid[v], rt.views[v]);
    forall u | |views0| <= u < |mid|
      ensures NodesMade(rt.views[u])
    {
      var j := mid[u].parentNodeDef.value;
      assert ComponentViewAt(mid[v], j) == Some(u);
    }
    ViewReady(rt.views, v);
    var queries;
    st, queries := ExecQueriesAction(rt.views[v], v, Union(HasContentQuery, HasViewQuery), HasStaticQuery, QueryCheckAndUpdate);
    evs := evs + queries;
  }

  // ---------------------------------------------------------- entry points

  /** The record a view was made as, whatever its nodes became. */
  predicate MadeAs(r: ViewRecord, def: ViewDefinition, parent: Option<nat>, parentNodeDef: Option<nat>,
                   destroysNodes: bool, component: DepValue, context: DepValue)
  {
    r.def == def && r.parent == parent && r.parentNodeDef == parentNodeDef &&
    r.rendererHasDestroyNode == destroysNodes && r.state == InitialState &&
    r.component == component && r.context == context
  }

  /**
   * A new view is appended, initialised and has its nodes created; the
   * views there were keep their shape.
   */
  method NewViewWithNodes(rt: Arena, env: Env, fuel: nat, def: ViewDefinition, parent: Option<nat>,
                          parentNodeDef: Option<nat>, destroysNodes: bool, component: DepValue, context: DepValue)
    returns (u: nat, st: Status, evs: seq<Event>)
    requires EnvReady(env) && Wf(rt.views) && DefReady(def)
    requires parent.Some? <==> parentNodeDef.Some?
    requires parent.Some? ==> parent.value < |rt.views| && parentNodeDef.value < |rt.views[parent.value].def.nodes|
    modifies rt
    ensures Wf(rt.views) && u == |old(rt.views)| < |rt.views| && old(rt.nextId) <= rt.nextId
    ensures MadeAs(rt.views[u], def, parent, parentNodeDef, destroysNodes, component, context)
    ensures forall w :: 0 <= w < |old(rt.views)| ==> SameView(old(rt.views)[w], rt.views[w])
    ensures st != Ok ==> st.error.JsError?
    ensures st == Ok ==> forall w :: u <= w < |rt.views| ==> NodesMade(rt.views[w])
  {
    AppendWf(rt.views, def, parent, parentNodeDef, destroysNodes);
    u := CreateView(rt, def, parent, parentNodeDef, destroysNodes);
    InitViewWf(rt.views, u, component, context);
    InitView(rt, u, component, context);
    ghost var mid := rt.views;
    ghost var blocks, below;
    st, evs, blocks, below := CreateViewNodes(rt, env, fuel, u);
    assert SameView(mid[u].(nodes := rt.views[u].nodes), rt.views[u]);
  }

  /**
   * createEmbeddedView (view.ts:219-227): a view of the template of the
   * anchor element `anchor` of view p (its definition looked up in the
   * template table), hanging off that anchor, with p's
   * renderer and component and the given context, and its nodes created.
   * An anchor without element data or without a template throws before
   * anything is made.  The new view is not yet attached to the anchor's
   * list of embedded views.
   */
  method CreateEmbeddedView(rt: Arena, env: Env, fuel: nat, p: nat, anchor: nat, context: DepValue)
    returns (u: nat, st: Status, evs: seq<Event>)
    requires EnvReady(env) && Wf(rt.views)
    requires p < |rt.views| && anchor < |rt.views[p].def.nodes|
    modifies rt
    ensures Wf(rt.views) && old(rt.nextId) <= rt.nextId
    ensures st != Ok ==> st.error.JsError?
    ensures var n := old(rt.views)[p].def.nodes[anchor];
            n.element.None? || n.element.value.template.None? ==>
              st == TypeErr && rt.views == old(rt.views) && rt.nextId == old(rt.nextId)
    ensures var n := old(rt.views)[p].def.nodes[anchor];
            n.element.Some? && n.element.value.template.Some? ==>
              u == |old(rt.views)| < |rt.views| &&
              MadeAs(rt.views[u], env.templateDef(n.element.value.template.value), Some(p), Some(anchor), old(rt.views)[p].rendererHasDestroyNode,
                     old(rt.views)[p].component, context) &&
              (forall w :: 0 <= w < |old(rt.views)| ==> SameView(old(rt.views)[w], rt.views[w])) &&
              (st == Ok ==> forall w :: u <= w < |rt.views| ==> NodesMade(rt.views[w]))
  {
    var n := rt.views[p].def.nodes[anchor];
    if n.element.None? || n.element.value.template.None? {
      return 0, TypeErr, [];
    }
    var r := rt.views[p];
    var template := env.templateDef(n.element.value.template.value);
    u, st, evs := NewViewWithNodes(rt, env, fuel, template, Some(p), Some(anchor), r.rendererHasDestroyNode, r.component, context);
  }

  /**
   * createRootView (view.ts:229-234): a view with no parent whose component
   * and context are both the given context, with its nodes created.
   */
  method CreateRootView(rt: Arena, env: Env, fuel: nat, def: ViewDefinition, context: DepValue, destroysNodes: bool)
    returns (u: nat, st: Status, evs: seq<Event>)
    requires EnvReady(env) && Wf(rt.views) && DefReady(def)
    modifies rt
    ensures Wf(rt.views) && u == |old(rt.views)| < |rt.views| && old(rt.nextId) <= rt.nextId
    ensures MadeAs(rt.views[u], def, None, None, destroysNodes, context, context)
    ensures forall w :: 0 <= w < |old(rt.views)| ==> SameView(old(rt.views)[w], rt.views[w])
    ensures st != Ok ==> st.error.JsError?
    ensures st == Ok ==> forall w :: u <= w < |rt.views| ==> NodesMade(rt.views[w])
  {
    u, st, evs := NewViewWithNodes(rt, env, fuel, def, None, None, destroysNodes, context, context);
  }
}
