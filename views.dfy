/**
 * The run-time data of core/src/view/types.ts: a view instance (ViewData,
 * types.ts:286-304) with its ViewState bits (types.ts:309-314) and the
 * per-node data reached through the as*Data accessors (types.ts:329-406),
 * modelled as one tagged variant.  Views live in an arena indexed by number;
 * a view refers to its parent and to its child views by index.
 *
 * The well-formedness predicate states what the runtime takes for granted
 * about a tree of views: every record fits its definition, a parent comes
 * before its children, and a child view is listed once, by the node it hangs
 * off (an embedded view by its anchor element, a component view by its
 * component directive).
 */
module Views {
  import opened Wrappers
  import opened JsValues
  import opened ViewTypes
  import opened ViewDefSpec
  import opened ViewShape

  /** What a dependency resolves to, or what a provider node holds. */
  datatype DepValue =
    | NoValue                                   // undefined
    | TokenValue(token: Token)                  // a Value dependency or a Value provider: the token itself
    | Made(id: nat)                             // what `new ctor(...)` or `factory(...)` returned
    | RendererV1Of(view: nat)
    | RendererV2Of(view: nat)
    | ElementRefOf(view: nat, node: nat)
    | ViewContainerRefOf(view: nat, node: nat)
    | TemplateRefOf(view: nat, node: nat)
    | ChangeDetectorRefOf(view: nat)
    | InjectorOf(view: nat, node: nat)
      /** `root.injector.get(token, notFoundValue)`; the flag tells whether notFoundValue is null */
    | FromRootInjector(token: Token, notFoundIsNull: bool)

  /** ProviderData.instance: NOT_CREATED until a lazy provider is first asked for. */
  datatype Instance = NotCreated | Created(value: DepValue)

  /** One entry of the SimpleChanges map handed to ngOnChanges. */
  datatype SimpleChange = SimpleChange(previousValue: JsValue, currentValue: JsValue, firstChange: bool)

  /** The data of one node, as the as*Data accessors read it. */
  datatype NodeData =
      /** nothing stored yet, or an NgContent node (which stores undefined) */
    | NoData
    | ElementData(renderElement: nat, embeddedViews: Option<seq<nat>>)
    | TextData(renderText: nat)
      /** `props` are the instance properties checkAndUpdateProp has written */
    | ProviderData(instance: Instance, componentView: Option<nat>, props: map<string, JsValue>)
    | PureExpressionData(value: JsValue)
    | QueryData(dirty: bool)

  /** The part of a node's data the tree structure depends on. */
  datatype NodeKind =
    | KNone
    | KElement(embedded: Option<seq<nat>>)
    | KText
    | KProvider(componentView: Option<nat>)
    | KPure
    | KQuery

  function KindOf(nd: NodeData): NodeKind
  {
    match nd
    case NoData => KNone
    case ElementData(_, embedded) => KElement(embedded)
    case TextData(_) => KText
    case ProviderData(_, componentView, _) => KProvider(componentView)
    case PureExpressionData(_) => KPure
    case QueryData(_) => KQuery
  }

  /** The child views hanging off a node: an element's embedded views, a component's view. */
  function KidsOf(k: NodeKind): seq<nat>
  {
    match k
    case KElement(Some(vs)) => vs
    case KProvider(Some(c)) => [c]
    case _ => []
  }

  function Kids(nd: NodeData): seq<nat>
  {
    KidsOf(KindOf(nd))
  }

  /** An observable step of the runtime, tagged with the view it happens in. */
  datatype Event =
    | Construct(view: nat, node: nat, ctor: Token, args: seq<DepValue>, made: nat)
    | CallFactory(view: nat, node: nat, factory: Token, args: seq<DepValue>, made: nat)
      /** an output subscribed; its events are dispatched to element `node` */
    | Subscribe(view: nat, node: nat, propName: string, eventName: string, subscription: nat)
    | NgOnChanges(view: nat, node: nat, changes: map<string, SimpleChange>)
    | NgOnInit(view: nat, node: nat)
    | NgDoCheck(view: nat, node: nat)
      /** one of ngAfterContentInit, ngAfterContentChecked, ngAfterViewInit, ngAfterViewChecked, ngOnDestroy */
    | LifecycleHook(view: nat, node: nat, hook: Flags)
      /** createElement, createText, createPureExpression, createQuery or appendNgContent */
    | NodeCreated(view: nat, node: nat)
      /** checkAndUpdateElement*, checkAndUpdateText* or checkAndUpdatePureExpression* */
    | NodeChecked(view: nat, node: nat, values: seq<JsValue>)
    | QueryUpdated(view: nat, node: nat)
    | Dispose(view: nat, index: nat)
    | DestroyNode(view: nat, node: nat)
    | DestroyRenderer(view: nat)

  /**
   * A view instance.  `parentNodeDef` is the index, in the parent's
   * definition, of the anchor element (embedded views) or of the component
   * directive (component views).  The renderer matters only through whether
   * it has destroyNode.
   */
  datatype ViewRecord = ViewRecord(
    def: ViewDefinition,
    parent: Option<nat>,
    parentNodeDef: Option<nat>,
    rendererHasDestroyNode: bool,
    state: Flags,
    component: DepValue,
    context: DepValue,
    nodes: seq<NodeData>,
    oldValues: seq<JsValue>,
    /** the subscriptions stored by directive outputs; undefined when the definition has none */
    disposables: Option<seq<Option<nat>>>)

  /** The state createView gives a new view. */
  const InitialState: Flags := 0x3

  /** checkAndUpdateView's last step: an OnPush view stops being checked, and no view is in its first check any more. */
  function AfterCheck(state: Flags, viewFlags: Flags): Flags
  {
    (if Has(viewFlags, OnPush) then state & !ChecksEnabled else state) & !FirstCheck
  }

  /** The guard of callViewAction for both check actions. */
  predicate CanCheck(state: Flags)
  {
    Has(state, ChecksEnabled) && state & (Errored | Destroyed) == 0
  }

  /** A new view is in its first check and will be checked. */
  lemma InitialStateBits()
    ensures InitialState == FirstCheck | ChecksEnabled
    ensures Has(InitialState, FirstCheck) && CanCheck(InitialState)
  {
  }

  /**
   * After a check, FirstCheck is gone; ChecksEnabled survives exactly when
   * the view is not OnPush; Errored and Destroyed are as they were.
   */
  lemma AfterCheckBits(state: Flags, viewFlags: Flags)
    ensures !Has(AfterCheck(state, viewFlags), FirstCheck)
    ensures Has(AfterCheck(state, viewFlags), ChecksEnabled) <==> Has(state, ChecksEnabled) && !Has(viewFlags, OnPush)
    ensures Has(AfterCheck(state, viewFlags), Errored) <==> Has(state, Errored)
    ensures Has(AfterCheck(state, viewFlags), Destroyed) <==> Has(state, Destroyed)
  {
    var after := AfterCheck(state, viewFlags);
    assert after & FirstCheck == 0;
    assert after & ChecksEnabled == if Has(viewFlags, OnPush) then 0 else state & ChecksEnabled;
    assert after & Errored == state & Errored;
    assert after & Destroyed == state & Destroyed;
  }

  /** The check guard holds exactly when ChecksEnabled is set and neither Errored nor Destroyed is. */
  lemma CanCheckBits(state: Flags)
    ensures CanCheck(state) <==> Has(state, ChecksEnabled) && !Has(state, Errored) && !Has(state, Destroyed)
  {
  }

  /** A node's data fits its definition once created. */
  predicate DataFits(n: NodeDef, k: NodeKind)
  {
    match n.nodeType
    case Element => k.KElement? && (k.embedded.Some? ==> Has(n.flags, HasEmbeddedViews))
    case Text => k.KText?
    case Provider => k == KProvider(None)
    case Pipe => k == KProvider(None)
    case Directive => k.KProvider? && (k.componentView.Some? <==> Has(n.flags, HasComponent))
    case PureExpression => k.KPure?
    case Query => k.KQuery?
    case NgContent => k.KNone?
  }

  /**
   * What the runtime relies on in one node of a definition: binding and
   * disposable slots inside the view's arrays, a directive's outputs inside
   * its disposables, a parent element above elements and providers, the
   * flags the walks dispatch on carried only by the node types they expect,
   * and element provider tables that point at provider nodes.
   */
  predicate NodeReady(d: ViewDefinition, k: nat)
    requires k < |d.nodes|
  {
    var n := d.nodes[k];
    WellShaped(n) &&
    n.bindingIndex + |n.bindings| <= d.bindingCount &&
    n.disposableIndex + n.disposableCount <= d.disposableCount &&
    (n.provider.Some? ==> |n.provider.value.outputs| <= n.disposableCount) &&
    (n.parent.Some? ==> n.parent.value < k) &&
    (n.parent.Some? && n.nodeType in {Element, Provider, Directive, Pipe} ==>
       d.nodes[n.parent.value].element.Some?) &&
    (n.nodeType in {Provider, Directive} ==> n.parent.Some?) &&
    (Has(n.flags, HasComponent) ==> n.nodeType == Directive) &&
    (Has(n.flags, HasEmbeddedViews) ==> n.nodeType == Element) &&
    (Has(n.flags, LifecycleHooks | OnInit | DoCheck | OnChanges) ==> n.provider.Some?) &&
    (Has(n.flags, HasContentQuery | HasViewQuery) ==> n.nodeType == Query) &&
    (n.element.Some? ==>
       n.element.value.publicProviders < |d.providerTables| &&
       n.element.value.allProviders < |d.providerTables| &&
       (n.element.value.component.Some? ==> n.element.value.component.value < |d.nodes|))
  }

  /** A provider table entry names a provider node of the definition. */
  predicate TablesReady(d: ViewDefinition)
  {
    TablesOrdered(d.providerTables) &&
    forall t, token :: 0 <= t < |d.providerTables| && token in d.providerTables[t].entries ==>
      d.providerTables[t].entries[token] < |d.nodes| &&
      d.nodes[d.providerTables[t].entries[token]].provider.Some?
  }

  /** A definition the runtime can interpret. */
  predicate DefReady(d: ViewDefinition)
  {
    Walkable(d) && TablesReady(d) && forall k :: 0 <= k < |d.nodes| ==> NodeReady(d, k)
  }

  /** A view record fits its definition: sizes as createView makes them, data fitting once stored. */
  predicate RecordFits(r: ViewRecord)
  {
    DefReady(r.def) &&
    |r.nodes| == |r.def.nodes| &&
    |r.oldValues| == r.def.bindingCount &&
    (r.disposables.Some? <==> r.def.disposableCount != 0) &&
    (r.disposables.Some? ==> |r.disposables.value| == r.def.disposableCount) &&
    (r.parent.None? <==> r.parentNodeDef.None?) &&
    forall i :: 0 <= i < |r.nodes| ==> KindOf(r.nodes[i]).KNone? || DataFits(r.def.nodes[i], KindOf(r.nodes[i]))
  }

  /** The child views listed at node i of view u are distinct, newer than u, and point back to u and i. */
  ghost predicate KidsOk(views: seq<ViewRecord>, u: nat, i: nat)
    requires u < |views| && i < |views[u].nodes|
  {
    var ks := Kids(views[u].nodes[i]);
    (forall k, k' :: 0 <= k < k' < |ks| ==> ks[k] != ks[k']) &&
    (forall k :: 0 <= k < |ks| ==>
       u < ks[k] < |views| && views[ks[k]].parent == Some(u) && views[ks[k]].parentNodeDef == Some(i))
  }

  ghost predicate ViewWf(views: seq<ViewRecord>, u: nat)
    requires u < |views|
  {
    var r := views[u];
    RecordFits(r) &&
    (r.parent.Some? ==>
       r.parent.value < u && r.parentNodeDef.value < |views[r.parent.value].def.nodes|) &&
    forall i :: 0 <= i < |r.nodes| ==> KidsOk(views, u, i)
  }

  /** A well-formed arena of views. */
  ghost predicate Wf(views: seq<ViewRecord>)
  {
    forall u :: 0 <= u < |views| ==> ViewWf(views, u)
  }

  /** Every node of the view holds the data its type calls for. */
  predicate NodesMade(r: ViewRecord)
  {
    |r.nodes| == |r.def.nodes| &&
    forall i :: 0 <= i < |r.nodes| ==> DataFits(r.def.nodes[i], KindOf(r.nodes[i]))
  }

  ghost predicate AllCreated(views: seq<ViewRecord>)
  {
    forall u :: 0 <= u < |views| ==> NodesMade(views[u])
  }

  /** Two records agree on everything the tree structure and the data kinds depend on. */
  predicate SameRecordShape(a: ViewRecord, b: ViewRecord)
  {
    a.def == b.def && a.parent == b.parent && a.parentNodeDef == b.parentNodeDef &&
    a.rendererHasDestroyNode == b.rendererHasDestroyNode &&
    |a.nodes| == |b.nodes| && (forall i :: 0 <= i < |a.nodes| ==> KindOf(a.nodes[i]) == KindOf(b.nodes[i])) &&
    |a.oldValues| == |b.oldValues| &&
    a.disposables.Some? == b.disposables.Some? &&
    (a.disposables.Some? ==> |a.disposables.value| == |b.disposables.value|)
  }

  ghost predicate SameShape(a: seq<ViewRecord>, b: seq<ViewRecord>)
  {
    |a| == |b| && forall u :: 0 <= u < |a| ==> SameRecordShape(a[u], b[u])
  }

  /** Well-formedness depends on the shape only. */
  lemma WfShape(a: seq<ViewRecord>, b: seq<ViewRecord>)
    requires Wf(a) && SameShape(a, b)
    ensures Wf(b)
    ensures AllCreated(a) ==> AllCreated(b)
  {
    forall u | 0 <= u < |b|
      ensures ViewWf(b, u)
    {
      assert ViewWf(a, u);
      assert SameRecordShape(a[u], b[u]);
      forall i | 0 <= i < |b[u].nodes|
        ensures KidsOk(b, u, i)
      {
        assert KidsOk(a, u, i);
        assert Kids(b[u].nodes[i]) == Kids(a[u].nodes[i]);
        var ks := Kids(a[u].nodes[i]);
        forall k | 0 <= k < |ks|
          ensures b[ks[k]].parent == Some(u) && b[ks[k]].parentNodeDef == Some(i)
        {
          assert SameRecordShape(a[ks[k]], b[ks[k]]);
        }
      }
      if b[u].parent.Some? {
        assert SameRecordShape(a[b[u].parent.value], b[b[u].parent.value]);
      }
    }
    if AllCreated(a) {
      forall u | 0 <= u < |b|
        ensures NodesMade(b[u])
      {
        assert NodesMade(a[u]);
        assert SameRecordShape(a[u], b[u]);
      }
    }
  }

  /** Node data of the same kind never changes a record's shape. */
  lemma SameKindSameShape(r: ViewRecord, i: nat, nd: NodeData)
    requires i < |r.nodes| && KindOf(nd) == KindOf(r.nodes[i])
    ensures SameRecordShape(r, r.(nodes := r.nodes[i := nd]))
  {
  }

  /** Shape is kept along a sequence of changes. */
  lemma SameShapeTrans(a: seq<ViewRecord>, b: seq<ViewRecord>, c: seq<ViewRecord>)
    requires SameShape(a, b) && SameShape(b, c)
    ensures SameShape(a, c)
  {
  }

  /** `u` lies in the subtree of views rooted at `r`: climbing parents from `u` reaches `r`. */
  ghost predicate InSubtree(views: seq<ViewRecord>, r: nat, u: nat)
    decreases u
  {
    u < |views| &&
    (u == r ||
     (views[u].parent.Some? && views[u].parent.value < u && InSubtree(views, r, views[u].parent.value)))
  }

  /** A subtree holds no view older than its root. */
  lemma {:induction false} SubtreeAbove(views: seq<ViewRecord>, r: nat, u: nat)
    requires InSubtree(views, r, u)
    ensures r <= u
    decreases u
  {
    if u != r {
      SubtreeAbove(views, r, views[u].parent.value);
    }
  }

  /** Subtrees depend on the parents only. */
  lemma {:induction false} SubtreeShape(a: seq<ViewRecord>, b: seq<ViewRecord>, r: nat, u: nat)
    requires SameShape(a, b)
    ensures InSubtree(a, r, u) <==> InSubtree(b, r, u)
    decreases u
  {
    if u < |a| {
      assert SameRecordShape(a[u], b[u]);
      if u != r && a[u].parent.Some? && a[u].parent.value < u {
        SubtreeShape(a, b, r, a[u].parent.value);
      }
    }
  }

  /** The subtree of a child lies inside its parent's. */
  lemma {:induction false} SubtreeNested(views: seq<ViewRecord>, r: nat, c: nat, u: nat)
    requires InSubtree(views, r, c) && InSubtree(views, c, u)
    ensures InSubtree(views, r, u)
    decreases u
  {
    if u != c {
      SubtreeNested(views, r, c, views[u].parent.value);
    }
  }

  /** A child view listed by u is in u's subtree. */
  lemma ChildInSubtree(views: seq<ViewRecord>, u: nat, c: nat)
    requires c < |views| && views[c].parent == Some(u) && u < c
    ensures InSubtree(views, u, c)
  {
    assert InSubtree(views, u, u);
  }

  /**
   * Two different children of the same view root disjoint subtrees: the
   * parent chain of a view is unique, and it passes from either child
   * straight to their common parent.
   */
  lemma {:induction false} SubtreesDisjoint(views: seq<ViewRecord>, c1: nat, c2: nat, u: nat)
    requires c1 < |views| && c2 < |views| && c1 != c2
    requires views[c1].parent.Some? && views[c1].parent == views[c2].parent
    requires views[c1].parent.value < c1 && views[c2].parent.value < c2
    ensures !(InSubtree(views, c1, u) && InSubtree(views, c2, u))
    decreases u
  {
    if InSubtree(views, c1, u) && InSubtree(views, c2, u) {
      if u == c1 {
        SubtreeAbove(views, c2, views[u].parent.value);
      } else if u == c2 {
        SubtreeAbove(views, c1, views[u].parent.value);
      } else {
        SubtreesDisjoint(views, c1, c2, views[u].parent.value);
      }
    }
  }

  /**
   * `b` is `a` changed only inside the subtree rooted at `r`, with the
   * shape of every view kept.
   */
  ghost predicate Changes(a: seq<ViewRecord>, b: seq<ViewRecord>, r: nat)
  {
    SameShape(a, b) && forall u {:trigger b[u]} :: 0 <= u < |a| && !InSubtree(a, r, u) ==> b[u] == a[u]
  }

  /** Nothing changed is a change of any subtree. */
  lemma ChangesNone(a: seq<ViewRecord>, r: nat)
    ensures Changes(a, a, r)
  {
  }

  /** A change inside a child's subtree, followed by one inside the parent's, is a change inside the parent's. */
  lemma ChangesTrans(a: seq<ViewRecord>, b: seq<ViewRecord>, c: seq<ViewRecord>, r: nat, r1: nat, r2: nat)
    requires Changes(a, b, r1) && Changes(b, c, r2)
    requires r1 == r || InSubtree(a, r, r1)
    requires r2 == r || InSubtree(a, r, r2)
    ensures Changes(a, c, r)
  {
    forall u | 0 <= u < |a| && !InSubtree(a, r, u)
      ensures c[u] == a[u]
    {
      if InSubtree(a, r1, u) {
        if r1 != r {
          SubtreeNested(a, r, r1, u);
        }
        assert false;
      }
      SubtreeShape(a, b, r2, u);
      if InSubtree(a, r2, u) {
        if r2 != r {
          SubtreeNested(a, r, r2, u);
        }
        assert false;
      }
    }
  }

  /** Whether view u is a component view: its parent node is a component directive. */
  predicate IsComponentView(views: seq<ViewRecord>, u: nat)
    requires u < |views|
  {
    match views[u].parent
    case None => false
    case Some(p) =>
      p < |views| && views[u].parentNodeDef.Some? &&
      views[u].parentNodeDef.value < |views[p].def.nodes| &&
      Has(views[p].def.nodes[views[u].parentNodeDef.value].flags, HasComponent)
  }

  /**
   * viewParentEl: the element a view hangs below in its parent view (the
   * parent of its anchor or component directive), if any.
   */
  function ViewParentEl(views: seq<ViewRecord>, u: nat): Option<nat>
    requires u < |views|
  {
    match views[u].parent
    case None => None
    case Some(p) =>
      if p < |views| && views[u].parentNodeDef.Some? && views[u].parentNodeDef.value < |views[p].def.nodes|
      then views[p].def.nodes[views[u].parentNodeDef.value].parent
      else None
  }

  /** Every event of the list happens in a view strictly below `r`. */
  ghost predicate EventsBelow(views: seq<ViewRecord>, r: nat, evs: seq<Event>)
  {
    forall k :: 0 <= k < |evs| ==> evs[k].view != r && InSubtree(views, r, evs[k].view)
  }

  /** Every event of the list happens in view `v` itself. */
  predicate EventsIn(v: nat, evs: seq<Event>)
  {
    forall k :: 0 <= k < |evs| ==> evs[k].view == v
  }

  /** Events below a child of `r` are events below `r`. */
  lemma EventsBelowChild(views: seq<ViewRecord>, r: nat, c: nat, evs: seq<Event>)
    requires InSubtree(views, r, c) && r != c
    requires forall k :: 0 <= k < |evs| ==> InSubtree(views, c, evs[k].view)
    ensures EventsBelow(views, r, evs)
  {
    forall k | 0 <= k < |evs|
      ensures evs[k].view != r && InSubtree(views, r, evs[k].view)
    {
      SubtreeNested(views, r, c, evs[k].view);
      SubtreeAbove(views, c, evs[k].view);
      SubtreeAbove(views, r, c);
    }
  }

  /** Every event of the list happens in `r` or a view below it. */
  ghost predicate EventsUnder(views: seq<ViewRecord>, r: nat, evs: seq<Event>)
  {
    forall k :: 0 <= k < |evs| ==> InSubtree(views, r, evs[k].view)
  }

  /** Events below `r` stay below `r` when only non-structural data changed. */
  lemma EventsBelowShape(a: seq<ViewRecord>, b: seq<ViewRecord>, r: nat, evs: seq<Event>)
    requires SameShape(a, b) && EventsBelow(b, r, evs)
    ensures EventsBelow(a, r, evs)
  {
    forall k | 0 <= k < |evs|
      ensures InSubtree(a, r, evs[k].view)
    {
      SubtreeShape(a, b, r, evs[k].view);
    }
  }

  /** Events under a child c of `r`, seen after a change of shape-keeping data, are events below `r`. */
  lemma ChildEventsBelow(a: seq<ViewRecord>, b: seq<ViewRecord>, r: nat, c: nat, evs: seq<Event>)
    requires SameShape(a, b) && InSubtree(a, r, c) && r != c
    requires EventsUnder(b, c, evs)
    ensures EventsBelow(a, r, evs)
  {
    forall k | 0 <= k < |evs|
      ensures InSubtree(a, c, evs[k].view)
    {
      SubtreeShape(a, b, c, evs[k].view);
    }
    EventsBelowChild(a, r, c, evs);
  }

  /** Events under `r` stay under `r` when only non-structural data changed. */
  lemma EventsUnderShape(a: seq<ViewRecord>, b: seq<ViewRecord>, r: nat, evs: seq<Event>)
    requires SameShape(a, b) && EventsUnder(b, r, evs)
    ensures EventsUnder(a, r, evs)
  {
    forall k | 0 <= k < |evs|
      ensures InSubtree(a, r, evs[k].view)
    {
      SubtreeShape(a, b, r, evs[k].view);
    }
  }

  lemma EventsBelowUnder(views: seq<ViewRecord>, r: nat, evs: seq<Event>)
    requires EventsBelow(views, r, evs)
    ensures EventsUnder(views, r, evs)
  {
  }

  lemma EventsInUnder(views: seq<ViewRecord>, r: nat, evs: seq<Event>)
    requires r < |views| && EventsIn(r, evs)
    ensures EventsUnder(views, r, evs)
  {
    assert InSubtree(views, r, r);
  }

  lemma EventsInJoin(v: nat, a: seq<Event>, b: seq<Event>)
    requires EventsIn(v, a) && EventsIn(v, b)
    ensures EventsIn(v, a + b)
  {
    forall k | 0 <= k < |a + b|
      ensures (a + b)[k].view == v
    {
      if k >= |a| {
        assert (a + b)[k] == b[k - |a|];
      }
    }
  }

  /** Two lists of events under `r`, one after the other. */
  lemma EventsUnderJoin(views: seq<ViewRecord>, r: nat, a: seq<Event>, b: seq<Event>)
    requires EventsUnder(views, r, a) && EventsUnder(views, r, b)
    ensures EventsUnder(views, r, a + b)
  {
    forall k | 0 <= k < |a + b|
      ensures InSubtree(views, r, (a + b)[k].view)
    {
      if k >= |a| {
        assert (a + b)[k] == b[k - |a|];
      }
    }
  }

  /** Two lists of events below `r`, one after the other. */
  lemma EventsBelowJoin(views: seq<ViewRecord>, r: nat, a: seq<Event>, b: seq<Event>)
    requires EventsBelow(views, r, a) && EventsBelow(views, r, b)
    ensures EventsBelow(views, r, a + b)
  {
    forall k | 0 <= k < |a + b|
      ensures (a + b)[k].view != r && InSubtree(views, r, (a + b)[k].view)
    {
      if k >= |a| {
        assert (a + b)[k] == b[k - |a|];
      }
    }
  }

  /** Blocks of events one after the other. */
  function Concat(blocks: seq<seq<Event>>): seq<Event>
  {
    if blocks == [] then [] else Concat(blocks[..|blocks| - 1]) + blocks[|blocks| - 1]
  }

  lemma ConcatAppend(blocks: seq<seq<Event>>, b: seq<Event>)
    ensures Concat(blocks + [b]) == Concat(blocks) + b
  {
    assert (blocks + [b])[..|blocks|] == blocks;
  }

  lemma {:induction false} ConcatJoin(a: seq<seq<Event>>, b: seq<seq<Event>>)
    ensures Concat(a + b) == Concat(a) + Concat(b)
    decreases |b|
  {
    if b == [] {
      assert a + b == a;
    } else {
      var m := |b| - 1;
      assert a + b == (a + b[..m]) + [b[m]];
      assert b == b[..m] + [b[m]];
      ConcatAppend(a + b[..m], b[m]);
      ConcatAppend(b[..m], b[m]);
      ConcatJoin(a, b[..m]);
    }
  }

  /** ks are distinct child views of view v. */
  ghost predicate Siblings(views: seq<ViewRecord>, v: nat, ks: seq<nat>)
  {
    (forall k, k' :: 0 <= k < k' < |ks| ==> ks[k] != ks[k']) &&
    forall k :: 0 <= k < |ks| ==> v < ks[k] < |views| && views[ks[k]].parent == Some(v)
  }

  /** A view of ks is outside the subtree of every other view of ks. */
  lemma SiblingsApart(views: seq<ViewRecord>, v: nat, ks: seq<nat>, j: nat, k: nat)
    requires Siblings(views, v, ks) && j < |ks| && k < |ks| && j != k
    ensures !InSubtree(views, ks[k], ks[j])
  {
    assert InSubtree(views, ks[j], ks[j]);
    if j < k {
      SubtreesDisjoint(views, ks[j], ks[k], ks[j]);
    } else {
      SubtreesDisjoint(views, ks[k], ks[j], ks[j]);
    }
  }

  /**
   * `b` is `a` changed only inside the subtrees rooted at the views ks,
   * with the shape of every view kept.
   */
  ghost predicate ChangesUnder(a: seq<ViewRecord>, b: seq<ViewRecord>, ks: seq<nat>)
  {
    SameShape(a, b) &&
    forall u {:trigger b[u]} :: 0 <= u < |a| && !UnderAny(a, ks, u) ==> b[u] == a[u]
  }

  /** `u` lies in the subtree of one of the views ks. */
  ghost predicate UnderAny(views: seq<ViewRecord>, ks: seq<nat>, u: nat)
    decreases |ks|
  {
    ks != [] && (UnderAny(views, ks[..|ks| - 1], u) || InSubtree(views, ks[|ks| - 1], u))
  }

  /** Outside the subtree of every view of ks is outside their union. */
  lemma {:induction false} OutsideAll(views: seq<ViewRecord>, ks: seq<nat>, u: nat)
    requires forall k :: 0 <= k < |ks| ==> !InSubtree(views, ks[k], u)
    ensures !UnderAny(views, ks, u)
    decreases |ks|
  {
    if ks != [] {
      var m := |ks| - 1;
      assert forall k :: 0 <= k < m ==> ks[..m][k] == ks[k];
      OutsideAll(views, ks[..m], u);
    }
  }

  /** Outside the union of the subtrees of ks is outside each of them. */
  lemma {:induction false} OutsideEach(views: seq<ViewRecord>, ks: seq<nat>, u: nat)
    requires !UnderAny(views, ks, u)
    ensures forall k :: 0 <= k < |ks| ==> !InSubtree(views, ks[k], u)
    decreases |ks|
  {
    if ks != [] {
      var m := |ks| - 1;
      OutsideEach(views, ks[..m], u);
      assert forall k :: 0 <= k < m ==> ks[..m][k] == ks[k];
    }
  }

  /** A change inside the subtrees of ks keeps view v itself, which lies above them. */
  lemma ChangesUnderKeeps(a: seq<ViewRecord>, b: seq<ViewRecord>, v: nat, ks: seq<nat>)
    requires ChangesUnder(a, b, ks) && Siblings(a, v, ks) && v < |a|
    ensures b[v] == a[v]
  {
    forall k | 0 <= k < |ks|
      ensures !InSubtree(a, ks[k], v)
    {
      if InSubtree(a, ks[k], v) {
        SubtreeAbove(a, ks[k], v);
      }
    }
    OutsideAll(a, ks, v);
  }

  /** A change inside the subtrees of a child's views is a change inside the child's subtree. */
  lemma ChangesUnderChanges(a: seq<ViewRecord>, b: seq<ViewRecord>, v: nat, ks: seq<nat>)
    requires ChangesUnder(a, b, ks) && Siblings(a, v, ks)
    ensures Changes(a, b, v)
  {
    forall u | 0 <= u < |a| && !InSubtree(a, v, u)
      ensures b[u] == a[u]
    {
      forall k | 0 <= k < |ks|
        ensures !InSubtree(a, ks[k], u)
      {
        if InSubtree(a, ks[k], u) {
          ChildInSubtree(a, v, ks[k]);
          SubtreeNested(a, v, ks[k], u);
        }
      }
      OutsideAll(a, ks, u);
    }
  }

  /** Two groups of distinct children of v, with no view in both, are distinct children of v. */
  lemma SiblingsJoin(views: seq<ViewRecord>, v: nat, ks1: seq<nat>, ks2: seq<nat>)
    requires Siblings(views, v, ks1) && Siblings(views, v, ks2)
    requires forall j, k :: 0 <= j < |ks1| && 0 <= k < |ks2| ==> ks1[j] != ks2[k]
    ensures Siblings(views, v, ks1 + ks2)
  {
    var ks := ks1 + ks2;
    forall j, k | 0 <= j < k < |ks|
      ensures ks[j] != ks[k]
    {
      if j < |ks1| && k >= |ks1| {
        assert ks[k] == ks2[k - |ks1|];
      } else if j >= |ks1| {
        assert ks[j] == ks2[j - |ks1|] && ks[k] == ks2[k - |ks1|];
      }
    }
  }

  lemma ChangesUnderNone(a: seq<ViewRecord>)
    ensures ChangesUnder(a, a, [])
  {
  }

  /** A change inside the subtree of c is a change inside the subtrees of [c]. */
  lemma ChangesUnderOne(a: seq<ViewRecord>, b: seq<ViewRecord>, c: nat)
    requires Changes(a, b, c)
    ensures ChangesUnder(a, b, [c])
  {
    forall u | 0 <= u < |a| && !UnderAny(a, [c], u)
      ensures b[u] == a[u]
    {
      OutsideEach(a, [c], u);
      assert [c][0] == c;
    }
  }

  /** Changes inside the subtrees of ks1, then of ks2, are changes inside the subtrees of both. */
  lemma ChangesUnderJoin(a: seq<ViewRecord>, b: seq<ViewRecord>, c: seq<ViewRecord>, ks1: seq<nat>, ks2: seq<nat>)
    requires ChangesUnder(a, b, ks1) && ChangesUnder(b, c, ks2)
    ensures ChangesUnder(a, c, ks1 + ks2)
  {
    var ks := ks1 + ks2;
    SameShapeTrans(a, b, c);
    forall u | 0 <= u < |a| && !UnderAny(a, ks, u)
      ensures c[u] == a[u]
    {
      OutsideEach(a, ks, u);
      forall k | 0 <= k < |ks1|
        ensures !InSubtree(a, ks1[k], u)
      {
        assert ks[k] == ks1[k];
      }
      forall k | 0 <= k < |ks2|
        ensures !InSubtree(b, ks2[k], u)
      {
        assert ks[|ks1| + k] == ks2[k];
        SubtreeShape(a, b, ks2[k], u);
      }
      OutsideAll(a, ks1, u);
      OutsideAll(b, ks2, u);
    }
  }

  /** A change inside the subtrees of a prefix of ks is a change inside the subtrees of ks. */
  lemma ChangesUnderPrefix(a: seq<ViewRecord>, b: seq<ViewRecord>, ks: seq<nat>, n: nat)
    requires n <= |ks| && ChangesUnder(a, b, ks[..n])
    ensures ChangesUnder(a, b, ks)
  {
    forall u | 0 <= u < |a| && !UnderAny(a, ks, u)
      ensures b[u] == a[u]
    {
      OutsideEach(a, ks, u);
      forall k | 0 <= k < n
        ensures !InSubtree(a, ks[..n][k], u)
      {
        assert ks[..n][k] == ks[k];
      }
      OutsideAll(a, ks[..n], u);
    }
  }

  /**
   * Having acted on a prefix of the children ks of v: the changes lie in
   * their subtrees, so v is kept and changes only below itself, and the
   * blocks of events happen below v.
   */
  lemma ActedDone(a: seq<ViewRecord>, b: seq<ViewRecord>, v: nat, ks: seq<nat>, n: nat, blocks: seq<seq<Event>>)
    requires v < |a| && Siblings(a, v, ks) && n <= |ks|
    requires ChangesUnder(a, b, ks[..n]) && BlocksUnder(a, ks, blocks)
    ensures ChangesUnder(a, b, ks) && Changes(a, b, v) && b[v] == a[v]
    ensures EventsBelow(a, v, Concat(blocks))
  {
    ChangesUnderPrefix(a, b, ks, n);
    ChangesUnderChanges(a, b, v, ks);
    ChangesUnderKeeps(a, b, v, ks);
    var bs := blocks;
    assert BlocksUnder(a, ks[..|bs|], bs);
    assert Siblings(a, v, ks[..|bs|]);
    BlocksBelow(a, v, ks[..|bs|], bs);
  }

  /** The events of block k happen in the subtree of view ks[k]. */
  ghost predicate BlocksUnder(views: seq<ViewRecord>, ks: seq<nat>, blocks: seq<seq<Event>>)
  {
    |blocks| <= |ks| && forall k :: 0 <= k < |blocks| ==> EventsUnder(views, ks[k], blocks[k])
  }

  lemma BlocksJoin(a: seq<ViewRecord>, b: seq<ViewRecord>, ks1: seq<nat>, ks2: seq<nat>,
                   b1: seq<seq<Event>>, b2: seq<seq<Event>>)
    requires SameShape(a, b) && BlocksUnder(a, ks1, b1) && |b1| == |ks1| && BlocksUnder(b, ks2, b2)
    ensures BlocksUnder(a, ks1 + ks2, b1 + b2)
  {
    forall k | 0 <= k < |b1 + b2|
      ensures EventsUnder(a, (ks1 + ks2)[k], (b1 + b2)[k])
    {
      if k >= |b1| {
        EventsUnderShape(a, b, ks2[k - |b1|], b2[k - |b1|]);
      }
    }
  }

  lemma BlocksShape(a: seq<ViewRecord>, b: seq<ViewRecord>, ks: seq<nat>, blocks: seq<seq<Event>>)
    requires SameShape(a, b) && BlocksUnder(b, ks, blocks)
    ensures BlocksUnder(a, ks, blocks)
  {
    forall k | 0 <= k < |blocks|
      ensures EventsUnder(a, ks[k], blocks[k])
    {
      EventsUnderShape(a, b, ks[k], blocks[k]);
    }
  }

  /** Events in the subtrees of children of v are events below v. */
  lemma BlocksBelow(views: seq<ViewRecord>, v: nat, ks: seq<nat>, blocks: seq<seq<Event>>)
    requires Siblings(views, v, ks) && BlocksUnder(views, ks, blocks)
    ensures EventsBelow(views, v, Concat(blocks))
    decreases |blocks|
  {
    if blocks != [] {
      var m := |blocks| - 1;
      BlocksBelow(views, v, ks, blocks[..m]);
      ChildInSubtree(views, v, ks[m]);
      SubtreeAbove(views, v, ks[m]);
      EventsBelowChild(views, v, ks[m], blocks[m]);
      EventsBelowJoin(views, v, Concat(blocks[..m]), blocks[m]);
    }
  }

  /** Setting a view's state bits keeps the arena well formed and changes nothing else. */
  lemma SetStateKeeps(views: seq<ViewRecord>, u: nat, s: Flags)
    requires Wf(views) && u < |views|
    ensures Wf(views[u := views[u].(state := s)])
    ensures Changes(views, views[u := views[u].(state := s)], u)
  {
    var after := views[u := views[u].(state := s)];
    assert SameRecordShape(views[u], after[u]);
    assert SameShape(views, after);
    WfShape(views, after);
  }

  /** Whether a view is a component view depends on the shape only. */
  lemma ComponentViewShape(a: seq<ViewRecord>, b: seq<ViewRecord>, u: nat)
    requires SameShape(a, b) && u < |a|
    ensures IsComponentView(a, u) == IsComponentView(b, u)
  {
    assert SameRecordShape(a[u], b[u]);
    if a[u].parent.Some? && a[u].parent.value < |a| {
      assert SameRecordShape(a[a[u].parent.value], b[a[u].parent.value]);
    }
  }

  /**
   * The views of one application, updated in place, and the counter that
   * gives each object the runtime makes (instances, render nodes,
   * subscriptions) an identity of its own.
   */
  class Arena {
    var views: seq<ViewRecord>
    var nextId: nat

    constructor()
      ensures views == [] && nextId == 0
    {
      views := [];
      nextId := 0;
    }

    /** An identity no object has yet. */
    method Fresh() returns (id: nat)
      modifies this
      ensures id == old(nextId) && nextId == old(nextId) + 1 && views == old(views)
    {
      id := nextId;
      nextId := nextId + 1;
    }
  }
}
