/**
 * The definition and instantiation half of core/src/view/provider.ts: the
 * node factories for providers, directives and pipes (provider.ts:31-130),
 * dependency resolution up the element and view chain (resolveDep,
 * provider.ts:319-394) and instance creation (provider.ts:132-166 and
 * 230-317).
 *
 * Resolution is specified by a pure search (`Search`, `Resolve`) that says
 * where a dependency's value comes from: an answer the resolver builds
 * itself, a provider node whose instance answers, or a failure.  The
 * methods walk the same chain imperatively, make lazy instances on first
 * use and cache them in the provider data; every instance they make gets a
 * fresh identity from the arena.
 */
module Providers {
  import opened Wrappers
  import opened JsValues
  import opened ViewTypes
  import opened ProviderTables
  import opened Views

  // ----------------------------------------------------------- definitions

  /** The token keys the resolver answers itself instead of asking a table. */
  const RendererV1Key: Token := "Renderer"
  const RendererV2Key: Token := "RendererV2"
  const ElementRefKey: Token := "ElementRef"
  const ViewContainerRefKey: Token := "ViewContainerRef"
  const TemplateRefKey: Token := "TemplateRef"
  const ChangeDetectorRefKey: Token := "ChangeDetectorRef"
  const InjectorKey: Token := "Injector"

  /** A dependency as a factory call lists it: a `[flags, token]` pair or a bare token. */
  datatype DepInput = FlagsAndToken(flags: Flags, token: Token) | BareToken(token: Token)

  /** The dependency definitions: a pair keeps its flags, a bare token gets no flags. */
  function DepDefs(deps: seq<DepInput>): (r: seq<DepDef>)
    ensures |r| == |deps|
    ensures forall j :: 0 <= j < |deps| ==> r[j].token == deps[j].token
    ensures forall j :: 0 <= j < |deps| ==> deps[j].FlagsAndToken? ==> r[j].flags == deps[j].flags
    ensures forall j :: 0 <= j < |deps| ==> deps[j].BareToken? ==> r[j].flags == DepNone
  {
    seq(|deps|, j requires 0 <= j < |deps| =>
      match deps[j]
      case FlagsAndToken(f, t) => DepDef(f, t)
      case BareToken(t) => DepDef(DepNone, t))
  }

  /** The flags of a provider node: a component factory adds HasComponent. */
  function ComponentFlags(flags: Flags, component: Option<nat>): (r: Flags)
    ensures Has(r, HasComponent) <==> component.Some? || Has(flags, HasComponent)
  {
    if component.Some? then HasOr(flags, HasComponent, HasComponent); Union(flags, HasComponent) else flags
  }

  /** Adding HasComponent leaves every other bit as it was. */
  lemma ComponentFlagsKeep(flags: Flags, component: Option<nat>, mask: Flags)
    requires mask & HasComponent == 0
    ensures Has(ComponentFlags(flags, component), mask) <==> Has(flags, mask)
  {
    if component.Some? {
      HasOr(flags, HasComponent, mask);
    }
  }

  /**
   * _def: a provider, directive or pipe node.  The positions viewDef fills
   * in (index, parent, binding and disposable slots) start at 0.
   */
  function Def(nodeType: NodeType, flags: Flags, childCount: nat, providerType: ProviderType,
               token: Token, value: Token, deps: seq<DepInput>, bindings: seq<BindingDef>,
               outputs: seq<OutputDef>, component: Option<nat>): (n: NodeDef)
    requires nodeType in {Provider, Directive, Pipe}
    ensures WellShaped(n) && n.nodeType == nodeType && n.childCount == childCount
    ensures n.childFlags == NoFlags && n.parent.None? && n.element.None? && n.query.None?
    ensures n.bindings == bindings && n.disposableCount == |outputs|
    ensures n.provider == Some(ProviderDef(providerType, token, value, DepDefs(deps), outputs, component))
    ensures Has(n.flags, HasComponent) <==> component.Some? || Has(flags, HasComponent)
  {
    NodeDef(nodeType, 0, 0, ComponentFlags(flags, component), None, None, childCount, NoFlags,
            0, bindings, 0, |outputs|, None,
            Some(ProviderDef(providerType, token, value, DepDefs(deps), outputs, component)), None)
  }

  /** A directive input as the factory lists it: the property, its binding slot, its non-minified name. */
  datatype PropInput = PropInput(name: string, bindingIndex: nat, nonMinifiedName: string)

  /** The binding slots are exactly 0 .. |props|-1, each used once. */
  predicate DenseProps(props: seq<PropInput>)
  {
    (forall j :: 0 <= j < |props| ==> props[j].bindingIndex < |props|) &&
    (forall j, j' :: 0 <= j < j' < |props| ==> props[j].bindingIndex != props[j'].bindingIndex)
  }

  function PropBinding(p: PropInput): BindingDef
  {
    BindingDef(DirectiveProperty, p.name, p.nonMinifiedName)
  }

  /** `bindings[bindingIndex] = ...` for each input in turn, over the slots in bs. */
  function PlaceBindings(props: seq<PropInput>, bs: seq<BindingDef>): (r: seq<BindingDef>)
    requires forall j :: 0 <= j < |props| ==> props[j].bindingIndex < |bs|
    ensures |r| == |bs|
  {
    if props == [] then bs
    else
      var p := props[|props| - 1];
      PlaceBindings(props[..|props| - 1], bs)[p.bindingIndex := PropBinding(p)]
  }

  /** With distinct slots, every input ends up in its own slot. */
  lemma {:induction false} PlaceBindingsSlots(props: seq<PropInput>, bs: seq<BindingDef>, j: nat)
    requires forall j :: 0 <= j < |props| ==> props[j].bindingIndex < |bs|
    requires forall j, j' :: 0 <= j < j' < |props| ==> props[j].bindingIndex != props[j'].bindingIndex
    requires j < |props|
    ensures PlaceBindings(props, bs)[props[j].bindingIndex] == PropBinding(props[j])
  {
    var m := |props| - 1;
    if j < m {
      PlaceBindingsSlots(props[..m], bs, j);
      assert props[..m][j] == props[j];
    }
  }

  /** directiveDef: a Class provider built from the constructor, with one binding per input. */
  function DirectiveDef(flags: Flags, childCount: nat, ctor: Token, deps: seq<DepInput>,
                        props: seq<PropInput>, outputs: seq<OutputDef>, component: Option<nat>): (n: NodeDef)
    requires DenseProps(props)
  {
    var placeholder := BindingDef(DirectiveProperty, "", "");
    Def(Directive, flags, childCount, ClassProvider, ctor, ctor, deps,
        PlaceBindings(props, seq(|props|, _ => placeholder)), outputs, component)
  }

  /**
   * A directive node has one binding per input, in the input's slot, with
   * the input's names; one disposable per output; and HasComponent exactly
   * when it has a component factory or the flags said so.
   */
  lemma DirectiveDefFacts(flags: Flags, childCount: nat, ctor: Token, deps: seq<DepInput>,
                          props: seq<PropInput>, outputs: seq<OutputDef>, component: Option<nat>)
    requires DenseProps(props)
    ensures var n := DirectiveDef(flags, childCount, ctor, deps, props, outputs, component);
      n.nodeType == Directive && n.provider.Some? && n.provider.value.providerType == ClassProvider &&
      n.provider.value.token == ctor && n.provider.value.value == ctor &&
      |n.bindings| == |props| && n.disposableCount == |outputs| && n.provider.value.outputs == outputs &&
      (Has(n.flags, HasComponent) <==> component.Some? || Has(flags, HasComponent))
    ensures forall j :: 0 <= j < |props| ==>
      DirectiveDef(flags, childCount, ctor, deps, props, outputs, component).bindings[props[j].bindingIndex] == PropBinding(props[j])
  {
    var placeholder := BindingDef(DirectiveProperty, "", "");
    forall j | 0 <= j < |props|
      ensures DirectiveDef(flags, childCount, ctor, deps, props, outputs, component).bindings[props[j].bindingIndex] == PropBinding(props[j])
    {
      PlaceBindingsSlots(props, seq(|props|, _ => placeholder), j);
    }
  }

  /** pipeDef: an eager Class provider with no bindings, no outputs and its flags unchanged. */
  function PipeDef(flags: Flags, ctor: Token, deps: seq<DepInput>): (n: NodeDef)
    ensures n.nodeType == Pipe && n.flags == flags && n.childCount == 0 && n.bindings == [] && n.disposableCount == 0
    ensures n.provider == Some(ProviderDef(ClassProvider, ctor, ctor, DepDefs(deps), [], None))
  {
    Def(Pipe, flags, 0, ClassProvider, ctor, ctor, deps, [], [], None)
  }

  /** providerDef: a provider of the given kind with no bindings, no outputs and its flags unchanged. */
  function ProviderDefNode(flags: Flags, providerType: ProviderType, token: Token, value: Token,
                           deps: seq<DepInput>): (n: NodeDef)
    ensures n.nodeType == Provider && n.flags == flags && n.childCount == 0 && n.bindings == [] && n.disposableCount == 0
    ensures n.provider == Some(ProviderDef(providerType, token, value, DepDefs(deps), [], None))
  {
    Def(Provider, flags, 0, providerType, token, value, deps, [], [], None)
  }

  // ------------------------------------------------------------ resolution

  /** Where a dependency's value comes from. */
  datatype Resolution =
    | Resolved(value: DepValue)            // the resolver builds the answer itself
    | ProviderAt(view: nat, node: nat)     // the instance of this provider node answers
    | Fails                                // a property of undefined is read: a TypeError

  /** Why resolution or creation stopped: a TypeError, or recursion deeper than the fuel allows. */
  datatype Fault = TypeError | TooDeep

  /** A parent view is older, and the element a view hangs below is a node of it. */
  lemma ParentElReady(views: seq<ViewRecord>, u: nat)
    requires Wf(views) && u < |views|
    ensures views[u].parent.Some? ==>
      views[u].parent.value < u &&
      (ViewParentEl(views, u).Some? ==> ViewParentEl(views, u).value < |views[views[u].parent.value].nodes|)
  {
    assert ViewWf(views, u);
    if views[u].parent.Some? {
      var p := views[u].parent.value;
      assert ViewWf(views, p);
      assert NodeReady(views[p].def, views[u].parentNodeDef.value);
    }
  }

  /**
   * The component view a view belongs to: climb parents while the view is
   * not a component view.  The answer is the view itself or an ancestor,
   * and it is a component view or the root.
   */
  function ClimbToComp(views: seq<ViewRecord>, u: nat): (c: nat)
    requires Wf(views) && u < |views|
    ensures c < |views| && InSubtree(views, c, u)
    ensures views[c].parent.None? || IsComponentView(views, c)
    decreases u
  {
    ParentElReady(views, u);
    if views[u].parent.Some? && !IsComponentView(views, u) then ClimbToComp(views, views[u].parent.value)
    else u
  }

  /** A component view listed at node ci of view u is a component view whose parent is u. */
  lemma CompViewOf(views: seq<ViewRecord>, u: nat, ci: nat, c: nat)
    requires Wf(views) && u < |views| && ci < |views[u].nodes| && KindOf(views[u].nodes[ci]) == KProvider(Some(c))
    ensures c < |views| && views[c].parent == Some(u) && IsComponentView(views, c)
  {
    assert ViewWf(views, u);
    assert KidsOk(views, u, ci) && Kids(views[u].nodes[ci]) == [c];
    assert Kids(views[u].nodes[ci])[0] == c;
    assert RecordFits(views[u]);
    assert DataFits(views[u].def.nodes[ci], KindOf(views[u].nodes[ci]));
  }

  /**
   * findCompView: with private services, the view of the element's
   * component (None when there is none yet); otherwise the component view
   * the current view belongs to.
   */
  function FindCompView(views: seq<ViewRecord>, u: nat, e: nat, ap: bool): (c: Option<nat>)
    requires Wf(views) && u < |views| && e < |views[u].nodes|
    ensures c.Some? && ap ==> c.value < |views| && views[c.value].parent == Some(u) && IsComponentView(views, c.value)
    ensures !ap ==> c == Some(ClimbToComp(views, u))
  {
    assert ViewWf(views, u);
    var n := views[u].def.nodes[e];
    if !ap then Some(ClimbToComp(views, u))
    else if n.element.None? || n.element.value.component.None? then None
    else
      var ci := n.element.value.component.value;
      if ci < |views[u].nodes| then
        match KindOf(views[u].nodes[ci])
        case KProvider(Some(c)) =>
          CompViewOf(views, u, ci, c);
          Some(c)
        case _ => None
      else None
  }

  /** Every provider-table lookup of an element names a provider node of the view. */
  lemma LookupReady(d: ViewDefinition, t: nat, token: Token)
    requires TablesReady(d) && t < |d.providerTables| && Lookup(d.providerTables, t, token).Some?
    ensures Lookup(d.providerTables, t, token).value < |d.nodes|
    ensures d.nodes[Lookup(d.providerTables, t, token).value].provider.Some?
  {
    LookupFromEntry(d.providerTables, t, token);
  }

  /** The provider table the element offers: all of them when private services are allowed, the public ones otherwise. */
  function TableOf(el: ElementDef, ap: bool): nat
  {
    if ap then el.allProviders else el.publicProviders
  }

  /** Element e of the definition finds provider node k for the token in the table `ap` selects. */
  predicate FoundAt(d: ViewDefinition, e: nat, ap: bool, token: Token, k: nat)
  {
    e < |d.nodes| && d.nodes[e].element.Some? && TablesOrdered(d.providerTables) &&
    TableOf(d.nodes[e].element.value, ap) < |d.providerTables| &&
    Lookup(d.providerTables, TableOf(d.nodes[e].element.value, ap), token) == Some(k)
  }

  /**
   * One pass of the resolver's switch at element e of view u: an answer,
   * a failure, or None to go on to the parent view.
   */
  function LookHere(views: seq<ViewRecord>, u: nat, e: nat, ap: bool, token: Token): (r: Option<Resolution>)
    requires Wf(views) && u < |views| && e < |views[u].nodes|
  {
    assert ViewWf(views, u);
    var d := views[u].def;
    var n := d.nodes[e];
    if token == RendererV1Key then
      Some(match FindCompView(views, u, e, ap) case Some(c) => Resolved(RendererV1Of(c)) case None => Fails)
    else if token == RendererV2Key then
      Some(match FindCompView(views, u, e, ap) case Some(c) => Resolved(RendererV2Of(c)) case None => Fails)
    else if token == ElementRefKey then
      Some(if KindOf(views[u].nodes[e]).KElement? then Resolved(ElementRefOf(u, e)) else Fails)
    else if token == ViewContainerRefKey then
      Some(Resolved(ViewContainerRefOf(u, e)))
    else if token == TemplateRefKey then
      if n.element.None? then Some(Fails)
      else if n.element.value.template.Some? then Some(Resolved(TemplateRefOf(u, e)))
      else None
    else if token == ChangeDetectorRefKey then
      Some(match FindCompView(views, u, e, ap) case Some(c) => Resolved(ChangeDetectorRefOf(c)) case None => Fails)
    else if token == InjectorKey then
      Some(Resolved(InjectorOf(u, e)))
    else if n.element.None? then Some(Fails)
    else
      assert NodeReady(d, e);
      match Lookup(d.providerTables, TableOf(n.element.value, ap), token)
      case None => None
      case Some(k) => Some(ProviderAt(u, k))
  }

  /** A provider answer of the switch is a provider node of this view, found in the table private services select. */
  lemma LookHereProvider(views: seq<ViewRecord>, u: nat, e: nat, ap: bool, token: Token, w: nat, k: nat)
    requires Wf(views) && u < |views| && e < |views[u].nodes|
    requires LookHere(views, u, e, ap, token) == Some(ProviderAt(w, k))
    ensures w == u && k < |views[u].nodes| && k < |views[u].def.nodes| && views[u].def.nodes[k].provider.Some?
    ensures FoundAt(views[u].def, e, ap, token, k)
  {
    assert ViewWf(views, u);
    var d := views[u].def;
    assert NodeReady(d, e);
    LookupReady(d, TableOf(d.nodes[e].element.value, ap), token);
  }

  /**
   * The resolver's loop: try the current element, then move to the parent
   * view, where the element is the one the view hangs below and private
   * services are allowed when the view just left is a component view.  Past
   * the root, the root injector is asked.
   */
  function Search(views: seq<ViewRecord>, u: nat, el: Option<nat>, ap: bool, token: Token, notFoundIsNull: bool): (r: Resolution)
    requires Wf(views) && u < |views| && (el.Some? ==> el.value < |views[u].nodes|)
    decreases u
  {
    var here := if el.Some? then LookHere(views, u, el.value, ap, token) else None;
    if here.Some? then here.value
    else match views[u].parent
      case None => Resolved(FromRootInjector(token, notFoundIsNull))
      case Some(p) =>
        ParentElReady(views, u);
        Search(views, p, ViewParentEl(views, u), IsComponentView(views, u), token, notFoundIsNull)
  }

  /** The element-and-view position a resolution starts from fits the views. */
  predicate StartFits(views: seq<ViewRecord>, u: Option<nat>, el: Option<nat>)
  {
    u.Some? ==> u.value < |views| && (el.Some? ==> el.value < |views[u.value].nodes|)
  }

  /**
   * resolveDep: a Value dependency is its token; without a view nothing
   * can be read; SkipSelf starts at the element's parent with private
   * services hidden; Optional makes the root injector's fallback null.
   */
  function Resolve(views: seq<ViewRecord>, u: Option<nat>, el: Option<nat>, ap: bool, dep: DepDef): Resolution
    requires Wf(views) && StartFits(views, u, el)
  {
    if Has(dep.flags, Value) then Resolved(TokenValue(dep.token))
    else if u.None? then Fails
    else if Has(dep.flags, SkipSelf) then
      if el.None? then Fails
      else
        var v := u.value;
        assert ViewWf(views, v) && NodeReady(views[v].def, el.value);
        Search(views, v, views[v].def.nodes[el.value].parent, false, dep.token, Has(dep.flags, Optional))
    else Search(views, u.value, el, ap, dep.token, Has(dep.flags, Optional))
  }

  /** A provider found by the search lives in the starting view or in one of its ancestors. */
  lemma {:induction false} SearchFindsAncestor(views: seq<ViewRecord>, u: nat, el: Option<nat>, ap: bool,
                                               token: Token, nfn: bool)
    requires Wf(views) && u < |views| && (el.Some? ==> el.value < |views[u].nodes|)
    requires Search(views, u, el, ap, token, nfn).ProviderAt?
    ensures var r := Search(views, u, el, ap, token, nfn);
      r.view <= u && InSubtree(views, r.view, u) && r.node < |views[r.view].nodes| && r.node < |views[r.view].def.nodes| &&
      views[r.view].def.nodes[r.node].provider.Some?
    decreases u
  {
    var r := Search(views, u, el, ap, token, nfn);
    var here := if el.Some? then LookHere(views, u, el.value, ap, token) else None;
    if here.Some? {
      LookHereProvider(views, u, el.value, ap, token, r.view, r.node);
    } else {
      var p := views[u].parent.value;
      ParentElReady(views, u);
      SearchFindsAncestor(views, p, ViewParentEl(views, u), IsComponentView(views, u), token, nfn);
    }
  }

  /** A provider found in the starting view was found at the starting element, in the table `ap` selects. */
  lemma SearchHere(views: seq<ViewRecord>, u: nat, el: Option<nat>, ap: bool, token: Token, nfn: bool, k: nat)
    requires Wf(views) && u < |views| && (el.Some? ==> el.value < |views[u].nodes|)
    requires Search(views, u, el, ap, token, nfn) == ProviderAt(u, k)
    ensures el.Some? && FoundAt(views[u].def, el.value, ap, token, k)
  {
    var here := if el.Some? then LookHere(views, u, el.value, ap, token) else None;
    if here.Some? {
      LookHereProvider(views, u, el.value, ap, token, u, k);
    } else {
      var p := views[u].parent.value;
      ParentElReady(views, u);
      SearchFindsAncestor(views, p, ViewParentEl(views, u), IsComponentView(views, u), token, nfn);
      SubtreeAbove(views, u, p);
      assert false;
    }
  }

  /**
   * SkipSelf never answers from the element itself nor from a private
   * provider of its view: a provider of the same view comes from the public
   * table of the element's parent.
   */
  lemma SkipSelfPublicOnly(views: seq<ViewRecord>, v: nat, e: nat, ap: bool, dep: DepDef, k: nat)
    requires Wf(views) && v < |views| && e < |views[v].nodes|
    requires Has(dep.flags, SkipSelf) && !Has(dep.flags, Value)
    requires Resolve(views, Some(v), Some(e), ap, dep) == ProviderAt(v, k)
    ensures e < |views[v].def.nodes| && views[v].def.nodes[e].parent.Some?
    ensures var p := views[v].def.nodes[e].parent.value;
      p < e && FoundAt(views[v].def, p, false, dep.token, k)
  {
    assert ViewWf(views, v) && NodeReady(views[v].def, e);
    SearchHere(views, v, views[v].def.nodes[e].parent, false, dep.token, Has(dep.flags, Optional), k);
  }

  /** Without SkipSelf, a provider of the starting view comes from the starting element's table that `ap` selects. */
  lemma ResolveOwnTable(views: seq<ViewRecord>, v: nat, e: nat, ap: bool, dep: DepDef, k: nat)
    requires Wf(views) && v < |views| && e < |views[v].nodes|
    requires !Has(dep.flags, SkipSelf) && !Has(dep.flags, Value)
    requires Resolve(views, Some(v), Some(e), ap, dep) == ProviderAt(v, k)
    ensures FoundAt(views[v].def, e, ap, dep.token, k)
  {
    SearchHere(views, v, Some(e), ap, dep.token, Has(dep.flags, Optional), k);
  }

  /** When the root injector is asked, it is asked for the dependency's own token, with null as fallback exactly for Optional. */
  lemma {:induction false} SearchAsksRoot(views: seq<ViewRecord>, u: nat, el: Option<nat>, ap: bool,
                                          token: Token, nfn: bool)
    requires Wf(views) && u < |views| && (el.Some? ==> el.value < |views[u].nodes|)
    requires Search(views, u, el, ap, token, nfn).Resolved? && Search(views, u, el, ap, token, nfn).value.FromRootInjector?
    ensures Search(views, u, el, ap, token, nfn).value == FromRootInjector(token, nfn)
    decreases u
  {
    var here := if el.Some? then LookHere(views, u, el.value, ap, token) else None;
    if here.None? && views[u].parent.Some? {
      ParentElReady(views, u);
      SearchAsksRoot(views, views[u].parent.value, ViewParentEl(views, u), IsComponentView(views, u), token, nfn);
    }
  }

  /** The root fallback of resolveDep: its token and whether Optional made notFoundValue null. */
  lemma ResolveAsksRoot(views: seq<ViewRecord>, u: Option<nat>, el: Option<nat>, ap: bool, dep: DepDef)
    requires Wf(views) && StartFits(views, u, el)
    requires Resolve(views, u, el, ap, dep).Resolved? && Resolve(views, u, el, ap, dep).value.FromRootInjector?
    ensures Resolve(views, u, el, ap, dep).value == FromRootInjector(dep.token, Has(dep.flags, Optional))
  {
    if !Has(dep.flags, Value) {
      var v := u.value;
      if Has(dep.flags, SkipSelf) {
        assert ViewWf(views, v) && NodeReady(views[v].def, el.value);
        SearchAsksRoot(views, v, views[v].def.nodes[el.value].parent, false, dep.token, Has(dep.flags, Optional));
      } else {
        SearchAsksRoot(views, v, el, ap, dep.token, Has(dep.flags, Optional));
      }
    }
  }

  // ------------------------------------------------- resolution is stable

  /** Records of the same shape answer the view-level questions alike. */
  lemma ViewQuestionsShape(a: seq<ViewRecord>, b: seq<ViewRecord>, u: nat)
    requires SameShape(a, b) && u < |a|
    ensures IsComponentView(a, u) == IsComponentView(b, u)
    ensures ViewParentEl(a, u) == ViewParentEl(b, u)
  {
    assert SameRecordShape(a[u], b[u]);
    if a[u].parent.Some? && a[u].parent.value < |a| {
      assert SameRecordShape(a[a[u].parent.value], b[a[u].parent.value]);
    }
  }

  lemma {:induction false} ClimbToCompShape(a: seq<ViewRecord>, b: seq<ViewRecord>, u: nat)
    requires Wf(a) && Wf(b) && SameShape(a, b) && u < |a|
    ensures ClimbToComp(a, u) == ClimbToComp(b, u)
    decreases u
  {
    assert SameRecordShape(a[u], b[u]);
    ViewQuestionsShape(a, b, u);
    ParentElReady(a, u);
    if a[u].parent.Some? && !IsComponentView(a, u) {
      ClimbToCompShape(a, b, a[u].parent.value);
    }
  }

  lemma FindCompViewShape(a: seq<ViewRecord>, b: seq<ViewRecord>, u: nat, e: nat, ap: bool)
    requires Wf(a) && Wf(b) && SameShape(a, b) && u < |a| && e < |a[u].nodes|
    ensures FindCompView(a, u, e, ap) == FindCompView(b, u, e, ap)
  {
    assert SameRecordShape(a[u], b[u]);
    ClimbToCompShape(a, b, u);
    assert ViewWf(a, u);
    var n := a[u].def.nodes[e];
    if n.element.Some? && n.element.value.component.Some? && n.element.value.component.value < |a[u].nodes| {
      assert KindOf(a[u].nodes[n.element.value.component.value]) == KindOf(b[u].nodes[n.element.value.component.value]);
    }
  }

  /** The switch reads the definition and the kinds of node data only. */
  lemma LookHereShape(a: seq<ViewRecord>, b: seq<ViewRecord>, u: nat, e: nat, ap: bool, token: Token)
    requires Wf(a) && Wf(b) && SameShape(a, b) && u < |a| && e < |a[u].nodes|
    ensures LookHere(a, u, e, ap, token) == LookHere(b, u, e, ap, token)
  {
    assert SameRecordShape(a[u], b[u]);
    var d := a[u].def;
    assert b[u].def == d && KindOf(a[u].nodes[e]) == KindOf(b[u].nodes[e]);
    if token == RendererV1Key || token == RendererV2Key || token == ChangeDetectorRefKey {
      FindCompViewShape(a, b, u, e, ap);
    }
  }

  lemma {:induction false} SearchShape(a: seq<ViewRecord>, b: seq<ViewRecord>, u: nat, el: Option<nat>, ap: bool,
                                       token: Token, nfn: bool)
    requires Wf(a) && Wf(b) && SameShape(a, b) && u < |a| && (el.Some? ==> el.value < |a[u].nodes|)
    ensures Search(a, u, el, ap, token, nfn) == Search(b, u, el, ap, token, nfn)
    decreases u
  {
    assert SameRecordShape(a[u], b[u]);
    if el.Some? {
      LookHereShape(a, b, u, el.value, ap, token);
    }
    var here := if el.Some? then LookHere(a, u, el.value, ap, token) else None;
    if here.None? && a[u].parent.Some? {
      ViewQuestionsShape(a, b, u);
      ParentElReady(a, u);
      SearchShape(a, b, a[u].parent.value, ViewParentEl(a, u), IsComponentView(a, u), token, nfn);
    }
  }

  /** Where a dependency resolves depends on the shape of the views only, not on the instances made so far. */
  lemma ResolveShape(a: seq<ViewRecord>, b: seq<ViewRecord>, u: Option<nat>, el: Option<nat>, ap: bool, dep: DepDef)
    requires Wf(a) && Wf(b) && SameShape(a, b) && StartFits(a, u, el)
    ensures StartFits(b, u, el)
    ensures Resolve(a, u, el, ap, dep) == Resolve(b, u, el, ap, dep)
  {
    if u.Some? {
      var v := u.value;
      assert SameRecordShape(a[v], b[v]);
      if !Has(dep.flags, Value) {
        if Has(dep.flags, SkipSelf) {
          if el.Some? {
            assert ViewWf(a, v) && NodeReady(a[v].def, el.value);
            SearchShape(a, b, v, a[v].def.nodes[el.value].parent, false, dep.token, Has(dep.flags, Optional));
          }
        } else {
          SearchShape(a, b, v, el, ap, dep.token, Has(dep.flags, Optional));
        }
      }
    }
  }

  // ------------------------------------------------------ instance caching

  /** A lazy provider's instance was made: NOT_CREATED became a value, nothing else of the data changed. */
  predicate InstanceMade(a: NodeData, b: NodeData)
  {
    a.ProviderData? && a.instance == NotCreated && b.ProviderData? && b.instance.Created? &&
    b.componentView == a.componentView && b.props == a.props
  }

  predicate RecordGrown(x: ViewRecord, y: ViewRecord)
  {
    y == x.(nodes := y.nodes) && |y.nodes| == |x.nodes| &&
    forall i :: 0 <= i < |x.nodes| ==> y.nodes[i] == x.nodes[i] || InstanceMade(x.nodes[i], y.nodes[i])
  }

  /** `b` is `a` with some lazy instances made, and nothing else changed. */
  ghost predicate OnlyCreated(a: seq<ViewRecord>, b: seq<ViewRecord>)
  {
    |a| == |b| && forall u :: 0 <= u < |a| ==> RecordGrown(a[u], b[u])
  }

  lemma OnlyCreatedRefl(a: seq<ViewRecord>)
    ensures OnlyCreated(a, a)
  {
    forall u | 0 <= u < |a|
      ensures RecordGrown(a[u], a[u])
    {
      assert a[u].(nodes := a[u].nodes) == a[u];
    }
  }

  lemma OnlyCreatedTrans(a: seq<ViewRecord>, b: seq<ViewRecord>, c: seq<ViewRecord>)
    requires OnlyCreated(a, b) && OnlyCreated(b, c)
    ensures OnlyCreated(a, c)
  {
    forall u | 0 <= u < |a|
      ensures RecordGrown(a[u], c[u])
    {
      assert RecordGrown(a[u], b[u]) && RecordGrown(b[u], c[u]);
      forall i | 0 <= i < |a[u].nodes|
        ensures c[u].nodes[i] == a[u].nodes[i] || InstanceMade(a[u].nodes[i], c[u].nodes[i])
      {
      }
    }
  }

  /** Making instances keeps the shape, hence well-formedness and every resolution. */
  lemma OnlyCreatedShape(a: seq<ViewRecord>, b: seq<ViewRecord>)
    requires OnlyCreated(a, b)
    ensures SameShape(a, b)
    ensures Wf(a) ==> Wf(b)
  {
    forall u | 0 <= u < |a|
      ensures SameRecordShape(a[u], b[u])
    {
      assert RecordGrown(a[u], b[u]);
      forall i | 0 <= i < |a[u].nodes|
        ensures KindOf(a[u].nodes[i]) == KindOf(b[u].nodes[i])
      {
      }
    }
    if Wf(a) {
      WfShape(a, b);
    }
  }

  /** `providerData.instance = value` at node k of view w. */
  function StoreInstance(views: seq<ViewRecord>, w: nat, k: nat, x: DepValue): seq<ViewRecord>
    requires w < |views| && k < |views[w].nodes| && views[w].nodes[k].ProviderData?
  {
    views[w := views[w].(nodes := views[w].nodes[k := views[w].nodes[k].(instance := Created(x))])]
  }

  /** Storing the first instance of a lazy provider is making it. */
  lemma StoreMakes(a: seq<ViewRecord>, b: seq<ViewRecord>, w: nat, k: nat, x: DepValue)
    requires OnlyCreated(a, b) && w < |a| && k < |a[w].nodes| && a[w].nodes[k].ProviderData? && a[w].nodes[k].instance == NotCreated
    ensures b[w].nodes[k].ProviderData?
    ensures OnlyCreated(a, StoreInstance(b, w, k, x))
  {
    assert RecordGrown(a[w], b[w]);
    var c := StoreInstance(b, w, k, x);
    forall u | 0 <= u < |a|
      ensures RecordGrown(a[u], c[u])
    {
      if u == w {
        assert RecordGrown(a[w], b[w]);
        forall i | 0 <= i < |a[w].nodes|
          ensures c[w].nodes[i] == a[w].nodes[i] || InstanceMade(a[w].nodes[i], c[w].nodes[i])
        {
          if i != k {
            assert c[w].nodes[i] == b[w].nodes[i];
          }
        }
      } else {
        assert c[u] == b[u];
      }
    }
  }

  /** The value a dependency resolved to agrees with where it resolves: the built answer, or the provider's stored instance. */
  ghost predicate ResolvedTo(views: seq<ViewRecord>, res: Resolution, x: DepValue)
  {
    match res
    case Resolved(y) => x == y
    case Fails => false
    case ProviderAt(w, k) =>
      w < |views| && k < |views[w].nodes| && views[w].nodes[k].ProviderData? && views[w].nodes[k].instance == Created(x)
  }

  /** Later instance making never changes a value already resolved. */
  lemma ResolvedToStays(a: seq<ViewRecord>, b: seq<ViewRecord>, res: Resolution, x: DepValue)
    requires ResolvedTo(a, res, x) && OnlyCreated(a, b)
    ensures ResolvedTo(b, res, x)
  {
    if res.ProviderAt? {
      assert RecordGrown(a[res.view], b[res.view]);
    }
  }

  /**
   * What asking provider node k of view w does: a made instance is
   * returned and nothing changes; a lazy one is made as _createProviderInstance
   * makes it and stored, or making it throws and nothing is stored, or the
   * call stack runs out first; anything else is not provider data and
   * reading it throws.
   */
  ghost predicate ProvidedBy(fuel: nat, before: seq<ViewRecord>, w: nat, k: nat, after: seq<ViewRecord>, r: Result<DepValue, Fault>,
                             evs: seq<Event>, firstId: nat, nextId: nat)
    decreases fuel, 0
  {
    w < |before| && k < |before[w].nodes| &&
    (r.Success? ==> ResolvedTo(after, ProviderAt(w, k), r.value)) &&
    match before[w].nodes[k]
    case ProviderData(Created(x), _, _) => r == Success(x) && after == before && evs == []
    case ProviderData(NotCreated, _, _) =>
      if fuel == 0 then r == Failure(TooDeep) && after == before && evs == []
      else if r.Failure? then Creation(fuel - 1, before, w, k, after, r, evs, firstId, nextId)
      else exists mid: seq<ViewRecord> :: OnlyCreated(before, mid) && mid[w].nodes[k].ProviderData? &&
             Creation(fuel - 1, before, w, k, mid, r, evs, firstId, nextId) && after == StoreInstance(mid, w, k, r.value)
    case _ => r == Failure(TypeError) && after == before && evs == []
  }

  /** What resolveDep does, given where the dependency resolves. */
  ghost predicate Outcome(fuel: nat, before: seq<ViewRecord>, res: Resolution, after: seq<ViewRecord>, r: Result<DepValue, Fault>,
                          evs: seq<Event>, firstId: nat, nextId: nat)
    decreases fuel, 1
  {
    match res
    case Resolved(x) => r == Success(x) && after == before && evs == []
    case Fails => r == Failure(TypeError) && after == before && evs == []
    case ProviderAt(w, k) => ProvidedBy(fuel, before, w, k, after, r, evs, firstId, nextId)
  }

  /** The arguments were resolved, in order, each as its dependency resolves. */
  ghost predicate ArgsResolved(before: seq<ViewRecord>, after: seq<ViewRecord>, u: Option<nat>, el: Option<nat>, ap: bool,
                               deps: seq<DepDef>, args: seq<DepValue>)
    requires Wf(before) && StartFits(before, u, el)
  {
    |args| == |deps| && forall j :: 0 <= j < |deps| ==> ResolvedTo(after, Resolve(before, u, el, ap, deps[j]), args[j])
  }

  /** A successful outcome agrees with where the dependency resolves. */
  lemma OutcomeValue(fuel: nat, before: seq<ViewRecord>, res: Resolution, after: seq<ViewRecord>, r: Result<DepValue, Fault>,
                     evs: seq<Event>, firstId: nat, nextId: nat)
    requires Outcome(fuel, before, res, after, r, evs, firstId, nextId) && r.Success?
    ensures ResolvedTo(after, res, r.value)
  {
  }

  function Last(evs: seq<Event>): Event
    requires evs != []
  {
    evs[|evs| - 1]
  }

  /**
   * `new ctor(...args)` or `factory(...args)` was the last event: it ran on
   * the values the dependencies resolved to and made a fresh object.
   */
  ghost predicate MadeFrom(before: seq<ViewRecord>, after: seq<ViewRecord>, u: Option<nat>, el: Option<nat>, ap: bool,
                           deps: seq<DepDef>, evs: seq<Event>, x: DepValue, firstId: nat, nextId: nat)
  {
    Wf(before) && StartFits(before, u, el) &&
    x.Made? && firstId <= x.id < nextId && evs != [] &&
    (Last(evs).Construct? || Last(evs).CallFactory?) && Last(evs).made == x.id &&
    ArgsResolved(before, after, u, el, ap, deps, Last(evs).args)
  }

  /** What creating the instance of provider node k of view w reads is in place. */
  ghost predicate ProviderReady(views: seq<ViewRecord>, w: nat, k: nat)
  {
    Wf(views) && w < |views| && k < |views[w].nodes| && k < |views[w].def.nodes| &&
    views[w].def.nodes[k].provider.Some? && StartFits(views, Some(w), views[w].def.nodes[k].parent)
  }

  lemma ProviderReadyHolds(views: seq<ViewRecord>, w: nat, k: nat)
    requires Wf(views) && w < |views| && k < |views[w].def.nodes| && views[w].def.nodes[k].provider.Some?
    ensures ProviderReady(views, w, k)
  {
    assert ViewWf(views, w) && NodeReady(views[w].def, k);
  }

  /** _createProviderInstance, by the kind of provider. */
  ghost predicate Creation(fuel: nat, before: seq<ViewRecord>, w: nat, k: nat, after: seq<ViewRecord>, r: Result<DepValue, Fault>,
                           evs: seq<Event>, firstId: nat, nextId: nat)
    decreases fuel, 2
  {
    ProviderReady(before, w, k) &&
    var n := before[w].def.nodes[k];
    var p := n.provider.value;
    var ap := Has(n.flags, PrivateProvider);
    match p.providerType
    case ValueProvider => r == Success(TokenValue(p.value)) && after == before && evs == []
    case UseExistingProvider =>
      if p.deps == [] then r == Failure(TypeError) && after == before && evs == []
      else Outcome(fuel, before, Resolve(before, Some(w), n.parent, ap, p.deps[0]), after, r, evs, firstId, nextId)
    case ClassProvider =>
      r.Success? ==>
        MadeFrom(before, after, Some(w), n.parent, ap, p.deps, evs, r.value, firstId, nextId) &&
        Last(evs) == Construct(w, k, p.value, Last(evs).args, r.value.id)
    case FactoryProvider =>
      r.Success? ==>
        MadeFrom(before, after, Some(w), n.parent, ap, p.deps, evs, r.value, firstId, nextId) &&
        Last(evs) == Event.CallFactory(w, k, p.value, Last(evs).args, r.value.id)
  }

  // --------------------------------------------------------------- methods

  /**
   * resolveDep.  A Value dependency is answered at once.  Otherwise the
   * loop walks the element and view chain as Search does; a provider
   * answer goes through ProviderValue, which makes a lazy instance on
   * first use.  A lookup that makes instances recursively is cut off when
   * the fuel runs out.
   */
  method ResolveDep(rt: Arena, fuel: nat, u: Option<nat>, el: Option<nat>, ap: bool, dep: DepDef)
    returns (r: Result<DepValue, Fault>, evs: seq<Event>)
    requires Wf(rt.views) && StartFits(rt.views, u, el)
    modifies rt
    ensures OnlyCreated(old(rt.views), rt.views) && old(rt.nextId) <= rt.nextId
    ensures Outcome(fuel, old(rt.views), Resolve(old(rt.views), u, el, ap, dep), rt.views, r, evs, old(rt.nextId), rt.nextId)
    decreases fuel, 1
  {
    ghost var views0 := rt.views;
    ghost var target := Resolve(views0, u, el, ap, dep);
    OnlyCreatedRefl(views0);
    evs := [];
    if Has(dep.flags, Value) {
      r := Success(TokenValue(dep.token));
      return;
    }
    var notFoundIsNull := Has(dep.flags, Optional);
    if u.None? {
      // no start view: its root injector cannot be read
      r := Failure(TypeError);
      return;
    }
    var view := u;
    var elDef := el;
    var allowPrivate := ap;
    if Has(dep.flags, SkipSelf) {
      if el.None? {
        r := Failure(TypeError);
        return;
      }
      assert ViewWf(rt.views, u.value) && NodeReady(rt.views[u.value].def, el.value);
      allowPrivate := false;
      elDef := rt.views[u.value].def.nodes[el.value].parent;
    }
    var found := SearchViews(rt.views, u.value, elDef, allowPrivate, dep.token, notFoundIsNull);
    assert found == target;
    match found {
      case Resolved(x) =>
        r := Success(x);
      case Fails =>
        r := Failure(TypeError);
      case ProviderAt(w, k) =>
        SearchFindsAncestor(rt.views, u.value, elDef, allowPrivate, dep.token, notFoundIsNull);
        r, evs := ProviderValue(rt, fuel, w, k);
    }
  }

  /**
   * The loop of resolveDep: look at the element in the current view, and
   * when nothing answers there move to the view's parent element, hiding
   * private services unless the view left is a component view; past the
   * root view the root injector answers.
   */
  method SearchViews(views: seq<ViewRecord>, u: nat, el: Option<nat>, ap: bool, token: Token, notFoundIsNull: bool)
    returns (found: Resolution)
    requires Wf(views) && u < |views| && (el.Some? ==> el.value < |views[u].nodes|)
    ensures found == Search(views, u, el, ap, token, notFoundIsNull)
  {
    var view: Option<nat> := Some(u);
    var elDef := el;
    var allowPrivate := ap;
    while view.Some?
      invariant view.Some? ==> view.value < |views| && (elDef.Some? ==> elDef.value < |views[view.value].nodes|)
      invariant view.Some? ==> Search(views, view.value, elDef, allowPrivate, token, notFoundIsNull) ==
                                Search(views, u, el, ap, token, notFoundIsNull)
      invariant view.None? ==> Search(views, u, el, ap, token, notFoundIsNull) == Resolved(FromRootInjector(token, notFoundIsNull))
      decreases if view.Some? then view.value + 1 else 0
    {
      var w := view.value;
      if elDef.Some? {
        var here := LookHere(views, w, elDef.value, allowPrivate, token);
        if here.Some? {
          return here.value;
        }
      }
      ParentElReady(views, w);
      assert Search(views, w, elDef, allowPrivate, token, notFoundIsNull) ==
        match views[w].parent
        case None => Resolved(FromRootInjector(token, notFoundIsNull))
        case Some(p) => Search(views, p, ViewParentEl(views, w), IsComponentView(views, w), token, notFoundIsNull);
      allowPrivate := IsComponentView(views, w);
      elDef := ViewParentEl(views, w);
      view := views[w].parent;
    }
    found := Resolved(FromRootInjector(token, notFoundIsNull));
  }

  /**
   * asProviderData(view, index).instance, making and storing the instance
   * first when it is still NOT_CREATED.
   */
  method ProviderValue(rt: Arena, fuel: nat, w: nat, k: nat) returns (r: Result<DepValue, Fault>, evs: seq<Event>)
    requires Wf(rt.views) && w < |rt.views| && k < |rt.views[w].nodes| && k < |rt.views[w].def.nodes|
    requires rt.views[w].def.nodes[k].provider.Some?
    modifies rt
    ensures OnlyCreated(old(rt.views), rt.views) && old(rt.nextId) <= rt.nextId
    ensures ProvidedBy(fuel, old(rt.views), w, k, rt.views, r, evs, old(rt.nextId), rt.nextId)
    decreases fuel, 0
  {
    ghost var views0 := rt.views;
    OnlyCreatedRefl(views0);
    evs := [];
    match rt.views[w].nodes[k]
    case ProviderData(inst, _, _) =>
      if inst.Created? {
        r := Success(inst.value);
        return;
      }
      if fuel == 0 {
        r := Failure(TooDeep);
        return;
      }
      ProviderReadyHolds(rt.views, w, k);
      var made;
      made, evs := CreateProviderNow(rt, fuel - 1, w, k);
      if made.Failure? {
        r := Failure(made.error);
        return;
      }
      ghost var mid := rt.views;
      StoreMakes(views0, rt.views, w, k, made.value);
      rt.views := StoreInstance(rt.views, w, k, made.value);
      r := made;
      assert OnlyCreated(views0, mid) && Creation(fuel - 1, views0, w, k, mid, r, evs, old(rt.nextId), rt.nextId) && rt.views == StoreInstance(mid, w, k, r.value);
    case _ =>
      r := Failure(TypeError);
  }

  /** Resolving the dependencies of a constructor or factory call, in order. */
  method ResolveDeps(rt: Arena, fuel: nat, u: Option<nat>, el: Option<nat>, ap: bool, deps: seq<DepDef>)
    returns (r: Result<seq<DepValue>, Fault>, evs: seq<Event>)
    requires Wf(rt.views) && StartFits(rt.views, u, el)
    modifies rt
    ensures OnlyCreated(old(rt.views), rt.views) && old(rt.nextId) <= rt.nextId
    ensures r.Success? ==> ArgsResolved(old(rt.views), rt.views, u, el, ap, deps, r.value)
    decreases fuel, 2
  {
    ghost var views0 := rt.views;
    OnlyCreatedRefl(views0);
    var vals: seq<DepValue> := [];
    evs := [];
    for j := 0 to |deps|
      invariant OnlyCreated(views0, rt.views) && old(rt.nextId) <= rt.nextId
      invariant |vals| == j
      invariant forall a :: 0 <= a < j ==> ResolvedTo(rt.views, Resolve(views0, u, el, ap, deps[a]), vals[a])
    {
      OnlyCreatedShape(views0, rt.views);
      ResolveShape(views0, rt.views, u, el, ap, deps[j]);
      ghost var mid := rt.views;
      ghost var midId := rt.nextId;
      var x, e := ResolveDep(rt, fuel, u, el, ap, deps[j]);
      evs := evs + e;
      OnlyCreatedTrans(views0, mid, rt.views);
      if x.Failure? {
        r := Failure(x.error);
        return;
      }
      OutcomeValue(fuel, mid, Resolve(mid, u, el, ap, deps[j]), rt.views, x, e, midId, rt.nextId);
      forall a | 0 <= a < j
        ensures ResolvedTo(rt.views, Resolve(views0, u, el, ap, deps[a]), vals[a])
      {
        ResolvedToStays(mid, rt.views, Resolve(views0, u, el, ap, deps[a]), vals[a]);
      }
      vals := vals + [x.value];
    }
    r := Success(vals);
  }

  /** createClass: `new ctor(...)` on the resolved dependencies (the unrolled cases for 0 to 3 arguments do the same). */
  method CreateClass(rt: Arena, fuel: nat, u: Option<nat>, el: Option<nat>, ap: bool, w: nat, k: nat,
                     ctor: Token, deps: seq<DepDef>) returns (r: Result<DepValue, Fault>, evs: seq<Event>)
    requires Wf(rt.views) && StartFits(rt.views, u, el)
    modifies rt
    ensures OnlyCreated(old(rt.views), rt.views) && old(rt.nextId) <= rt.nextId
    ensures r.Success? ==>
      MadeFrom(old(rt.views), rt.views, u, el, ap, deps, evs, r.value, old(rt.nextId), rt.nextId) &&
      Last(evs) == Construct(w, k, ctor, Last(evs).args, r.value.id)
    decreases fuel, 3
  {
    var args;
    args, evs := ResolveDeps(rt, fuel, u, el, ap, deps);
    if args.Failure? {
      r := Failure(args.error);
      return;
    }
    var id := rt.Fresh();
    evs := evs + [Construct(w, k, ctor, args.value, id)];
    r := Success(Made(id));
  }

  /** callFactory: `factory(...)` on the resolved dependencies. */
  method CallFactory(rt: Arena, fuel: nat, u: Option<nat>, el: Option<nat>, ap: bool, w: nat, k: nat,
                     factory: Token, deps: seq<DepDef>) returns (r: Result<DepValue, Fault>, evs: seq<Event>)
    requires Wf(rt.views) && StartFits(rt.views, u, el)
    modifies rt
    ensures OnlyCreated(old(rt.views), rt.views) && old(rt.nextId) <= rt.nextId
    ensures r.Success? ==>
      MadeFrom(old(rt.views), rt.views, u, el, ap, deps, evs, r.value, old(rt.nextId), rt.nextId) &&
      Last(evs) == Event.CallFactory(w, k, factory, Last(evs).args, r.value.id)
    decreases fuel, 3
  {
    var args;
    args, evs := ResolveDeps(rt, fuel, u, el, ap, deps);
    if args.Failure? {
      r := Failure(args.error);
      return;
    }
    var id := rt.Fresh();
    evs := evs + [Event.CallFactory(w, k, factory, args.value, id)];
    r := Success(Made(id));
  }

  /** _createProviderInstance: build the instance of provider node k of view w by its kind. */
  method CreateProviderNow(rt: Arena, fuel: nat, w: nat, k: nat) returns (r: Result<DepValue, Fault>, evs: seq<Event>)
    requires ProviderReady(rt.views, w, k)
    modifies rt
    ensures OnlyCreated(old(rt.views), rt.views) && old(rt.nextId) <= rt.nextId
    ensures Creation(fuel, old(rt.views), w, k, rt.views, r, evs, old(rt.nextId), rt.nextId)
    decreases fuel, 4
  {
    OnlyCreatedRefl(rt.views);
    var n := rt.views[w].def.nodes[k];
    var p := n.provider.value;
    var allowPrivate := Has(n.flags, PrivateProvider);
    match p.providerType
    case ClassProvider =>
      r, evs := CreateClass(rt, fuel, Some(w), n.parent, allowPrivate, w, k, p.value, p.deps);
    case FactoryProvider =>
      r, evs := CallFactory(rt, fuel, Some(w), n.parent, allowPrivate, w, k, p.value, p.deps);
    case UseExistingProvider =>
      if p.deps == [] {
        // deps[0] is undefined and reading its flags throws
        r, evs := Failure(TypeError), [];
      } else {
        r, evs := ResolveDep(rt, fuel, Some(w), n.parent, allowPrivate, p.deps[0]);
      }
    case ValueProvider =>
      r, evs := Success(TokenValue(p.value)), [];
  }

  /**
   * createPipeInstance: climb to the component view the pipe's view
   * belongs to, then resolve from that view's host, with private services.
   */
  method CreatePipeInstance(rt: Arena, fuel: nat, v: nat, k: nat) returns (r: Result<DepValue, Fault>, evs: seq<Event>)
    requires Wf(rt.views) && v < |rt.views| && k < |rt.views[v].def.nodes| && rt.views[v].def.nodes[k].provider.Some?
    modifies rt
    ensures OnlyCreated(old(rt.views), rt.views) && old(rt.nextId) <= rt.nextId
    ensures r.Success? ==>
      var c := ClimbToComp(old(rt.views), v);
      var p := old(rt.views)[v].def.nodes[k].provider.value;
      MadeFrom(old(rt.views), rt.views, old(rt.views)[c].parent, ViewParentEl(old(rt.views), c), true,
               p.deps, evs, r.value, old(rt.nextId), rt.nextId) &&
      Last(evs) == Construct(v, k, p.value, Last(evs).args, r.value.id)
  {
    ghost var views0 := rt.views;
    var compView: nat := v;
    while rt.views[compView].parent.Some? && !IsComponentView(rt.views, compView)
      invariant rt.views == views0 && rt.nextId == old(rt.nextId)
      invariant compView < |rt.views| && ClimbToComp(rt.views, compView) == ClimbToComp(rt.views, v)
      decreases compView
    {
      ParentElReady(rt.views, compView);
      compView := rt.views[compView].parent.value;
    }
    ParentElReady(rt.views, compView);
    var p := rt.views[v].def.nodes[k].provider.value;
    r, evs := CreateClass(rt, fuel, rt.views[compView].parent, ViewParentEl(rt.views, compView), true, v, k, p.value, p.deps);
  }

  /**
   * The disposables of view v with the subscriptions stored from slot
   * `from` on, one after the other.
   */
  function WithSubscriptions(views: seq<ViewRecord>, v: nat, from: nat, subs: seq<nat>): (r: seq<ViewRecord>)
    requires v < |views| && (subs != [] ==> views[v].disposables.Some? && from + |subs| <= |views[v].disposables.value|)
    ensures |r| == |views| && r[v].disposables.Some? == views[v].disposables.Some?
    ensures r[v].disposables.Some? ==> |r[v].disposables.value| == |views[v].disposables.value|
    ensures forall u :: 0 <= u < |r| ==> r[u].nodes == views[u].nodes
    decreases |subs|
  {
    if subs == [] then views
    else
      var prev := WithSubscriptions(views, v, from, subs[..|subs| - 1]);
      var ds := prev[v].disposables.value;
      prev[v := prev[v].(disposables := Some(ds[from + |subs| - 1 := Some(subs[|subs| - 1])]))]
  }

  /**
   * Storing subscriptions touches only the disposables of view v: slot
   * from + i holds the i-th subscription, every other slot is as it was.
   */
  lemma {:induction false} WithSubscriptionsSlots(views: seq<ViewRecord>, v: nat, from: nat, subs: seq<nat>)
    requires v < |views| && (subs != [] ==> views[v].disposables.Some? && from + |subs| <= |views[v].disposables.value|)
    ensures forall u :: 0 <= u < |views| && u != v ==> WithSubscriptions(views, v, from, subs)[u] == views[u]
    ensures WithSubscriptions(views, v, from, subs)[v] ==
            views[v].(disposables := WithSubscriptions(views, v, from, subs)[v].disposables)
    ensures subs != [] ==> forall i :: 0 <= i < |views[v].disposables.value| ==>
      WithSubscriptions(views, v, from, subs)[v].disposables.value[i] ==
        if from <= i < from + |subs| then Some(subs[i - from]) else views[v].disposables.value[i]
    decreases |subs|
  {
    if subs != [] {
      var m := |subs| - 1;
      var prev := WithSubscriptions(views, v, from, subs[..m]);
      WithSubscriptionsSlots(views, v, from, subs[..m]);
      if m == 0 {
        assert prev == views;
      }
      forall i | 0 <= i < |views[v].disposables.value|
        ensures WithSubscriptions(views, v, from, subs)[v].disposables.value[i] ==
          if from <= i < from + |subs| then Some(subs[i - from]) else views[v].disposables.value[i]
      {
        if from <= i < from + m {
          assert subs[..m][i - from] == subs[i - from];
        }
      }
    }
  }

  /** The Subscribe events of a directive's outputs, in output order. */
  function SubscribeEvents(v: nat, e: nat, outputs: seq<OutputDef>, subs: seq<nat>): (evs: seq<Event>)
    requires |outputs| == |subs|
    ensures |evs| == |subs|
    ensures forall i :: 0 <= i < |subs| ==>
      evs[i] == Subscribe(v, e, outputs[i].propName, outputs[i].eventName, subs[i])
  {
    seq(|subs|, i requires 0 <= i < |subs| => Subscribe(v, e, outputs[i].propName, outputs[i].eventName, subs[i]))
  }

  /** A directive hangs below an element, and its outputs fit its view's disposable slots. */
  lemma DirectiveSlots(views: seq<ViewRecord>, v: nat, k: nat)
    requires Wf(views) && v < |views| && k < |views[v].def.nodes|
    requires views[v].def.nodes[k].nodeType == Directive
    ensures var n := views[v].def.nodes[k];
      n.parent.Some? && n.provider.Some? &&
      (n.provider.value.outputs != [] ==>
         views[v].disposables.Some? && n.disposableIndex + |n.provider.value.outputs| <= |views[v].disposables.value|)
  {
    assert ViewWf(views, v) && NodeReady(views[v].def, k) && RecordFits(views[v]);
  }

  /** Keeps one more subscription's unsubscribe in the next disposable slot. */
  method StoreSubscription(rt: Arena, v: nat, from: nat, subs: seq<nat>, id: nat, ghost views0: seq<ViewRecord>)
    requires v < |views0| && views0[v].disposables.Some? && from + |subs| < |views0[v].disposables.value|
    requires rt.views == WithSubscriptions(views0, v, from, subs)
    modifies rt
    ensures rt.views == WithSubscriptions(views0, v, from, subs + [id])
    ensures rt.nextId == old(rt.nextId)
  {
    assert (subs + [id])[..|subs|] == subs;
    var ds := rt.views[v].disposables.value;
    rt.views := rt.views[v := rt.views[v].(disposables := Some(ds[from + |subs| := Some(id)]))];
  }

  /**
   * The output loop of createDirectiveInstance: subscribe to each output
   * with a handler that dispatches to element e, and keep each
   * subscription's unsubscribe in the next disposable slot.
   */
  method SubscribeOutputs(rt: Arena, v: nat, e: nat, from: nat, outputs: seq<OutputDef>) returns (subs: seq<nat>, evs: seq<Event>)
    requires v < |rt.views|
    requires outputs != [] ==> rt.views[v].disposables.Some? && from + |outputs| <= |rt.views[v].disposables.value|
    modifies rt
    ensures |subs| == |outputs| && rt.views == WithSubscriptions(old(rt.views), v, from, subs)
    ensures evs == SubscribeEvents(v, e, outputs, subs)
    ensures forall i :: 0 <= i < |subs| ==> old(rt.nextId) <= subs[i] < rt.nextId
    ensures forall i, j :: 0 <= i < j < |subs| ==> subs[i] < subs[j]
    ensures old(rt.nextId) <= rt.nextId
  {
    ghost var views0 := rt.views;
    subs := [];
    evs := [];
    for i := 0 to |outputs|
      invariant |subs| == i && rt.views == WithSubscriptions(views0, v, from, subs)
      invariant |evs| == i
      invariant forall a :: 0 <= a < i ==> evs[a] == Subscribe(v, e, outputs[a].propName, outputs[a].eventName, subs[a])
      invariant forall a :: 0 <= a < i ==> subs[a] == old(rt.nextId) + a
      invariant rt.nextId == old(rt.nextId) + i
    {
      var id := rt.Fresh();
      StoreSubscription(rt, v, from, subs, id, views0);
      subs := subs + [id];
      evs := evs + [Subscribe(v, e, outputs[i].propName, outputs[i].eventName, id)];
    }
  }

  /**
   * createDirectiveInstance: a Class instance whose dependencies see
   * private services exactly for a component, resolved from the
   * directive's element; then one subscription per output, stored in the
   * directive's disposable slots in output order.
   */
  method CreateDirectiveInstance(rt: Arena, fuel: nat, v: nat, k: nat)
    returns (r: Result<DepValue, Fault>, evs: seq<Event>, subs: seq<nat>, ghost made: seq<ViewRecord>, ghost base: seq<Event>)
    requires ProviderReady(rt.views, v, k) && rt.views[v].def.nodes[k].nodeType == Directive
    modifies rt
    ensures OnlyCreated(old(rt.views), made) && old(rt.nextId) <= rt.nextId
    ensures r.Failure? ==> rt.views == made && subs == []
    ensures r.Success? ==>
      var n := old(rt.views)[v].def.nodes[k];
      var p := n.provider.value;
      n.parent.Some? && |subs| == |p.outputs| &&
      MadeFrom(old(rt.views), made, Some(v), n.parent, Has(n.flags, HasComponent), p.deps, base, r.value,
               old(rt.nextId), rt.nextId) &&
      Last(base) == Construct(v, k, p.value, Last(base).args, r.value.id) &&
      (subs != [] ==> made[v].disposables.Some? && n.disposableIndex + |subs| <= |made[v].disposables.value|) &&
      rt.views == WithSubscriptions(made, v, n.disposableIndex, subs) &&
      evs == base + SubscribeEvents(v, n.parent.value, p.outputs, subs)
    ensures r.Success? ==> forall i :: 0 <= i < |subs| ==> r.value.id < subs[i] < rt.nextId
    ensures r.Success? ==> forall i, j :: 0 <= i < j < |subs| ==> subs[i] < subs[j]
  {
    DirectiveSlots(rt.views, v, k);
    var n := rt.views[v].def.nodes[k];
    var p := n.provider.value;
    ghost var views0 := rt.views;
    r, evs := CreateClass(rt, fuel, Some(v), n.parent, Has(n.flags, HasComponent), v, k, p.value, p.deps);
    made := rt.views;
    base := evs;
    subs := [];
    if r.Failure? {
      return;
    }
    assert RecordGrown(views0[v], made[v]);
    var e;
    subs, e := SubscribeOutputs(rt, v, n.parent.value, n.disposableIndex, p.outputs);
    evs := evs + e;
  }

  /** createProviderInstance: a lazy provider starts as NOT_CREATED, any other is made at once. */
  method CreateProviderInstance(rt: Arena, fuel: nat, v: nat, k: nat)
    returns (r: Result<Instance, Fault>, evs: seq<Event>, ghost made: Result<DepValue, Fault>)
    requires ProviderReady(rt.views, v, k)
    modifies rt
    ensures OnlyCreated(old(rt.views), rt.views) && old(rt.nextId) <= rt.nextId
    ensures Has(old(rt.views)[v].def.nodes[k].flags, LazyProvider) ==>
      r == Success(NotCreated) && rt.views == old(rt.views) && evs == []
    ensures !Has(old(rt.views)[v].def.nodes[k].flags, LazyProvider) ==>
      Creation(fuel, old(rt.views), v, k, rt.views, made, evs, old(rt.nextId), rt.nextId) &&
      r == if made.Success? then Success(Created(made.value)) else Failure(made.error)
  {
    OnlyCreatedRefl(rt.views);
    if Has(rt.views[v].def.nodes[k].flags, LazyProvider) {
      r, evs, made := Success(NotCreated), [], Failure(TypeError);
      return;
    }
    var x;
    x, evs := CreateProviderNow(rt, fuel, v, k);
    made := x;
    r := if x.Success? then Success(Created(x.value)) else Failure(x.error);
  }
}
