/**
 * The compiler's per-template view record (compile_view.ts): its view type,
 * the component view it belongs to, the template locals it declares, the
 * view queries a component view owns, and the lookup of a local through the
 * chain of declaring views.
 */
module CompileViews {
  import opened Wrappers

  datatype ViewType = Host | Component | Embedded

  /** `getViewType`: a positive embedded-template index makes an embedded view. */
  function GetViewType(isHost: bool, embeddedTemplateIndex: int): (t: ViewType)
    ensures t.Embedded? <==> embeddedTemplateIndex > 0
    ensures t.Host? <==> embeddedTemplateIndex <= 0 && isHost
    ensures t.Component? <==> embeddedTemplateIndex <= 0 && !isHost
  {
    if embeddedTemplateIndex > 0 then Embedded
    else if isHost then Host
    else Component
  }

  /** The expression a template local stands for: `this.context.<prop>` of the view that declares it. */
  datatype LocalExpr = ContextProp(prop: string)

  /** One template variable binding `[prop, name]`. */
  datatype VariableBinding = VariableBinding(prop: string, name: string)

  /** A view query's metadata; its selectors are the tokens it looks for. */
  datatype QueryMeta = QueryMeta(selectors: seq<string>)

  /** A query created for a component view, with its position among the component's view queries. */
  datatype CompileQuery = CompileQuery(meta: QueryMeta, queryIndex: nat)

  /**
   * What `getLocal` hands back: the event variable, or the local's expression
   * read from the view that declares it (`getPropertyInView(expr, this, view)`).
   */
  datatype LocalRef<V> = EventVariable | InView(expr: LocalExpr, view: V)

  /** The name of the event variable in event handlers. */
  const EventName := "$event"

  /** The locals a list of bindings registers: a later binding of a name replaces an earlier one. */
  function LocalsOf(bindings: seq<VariableBinding>): map<string, LocalExpr>
  {
    if |bindings| == 0 then map[]
    else
      var last := bindings[|bindings| - 1];
      LocalsOf(bindings[..|bindings| - 1])[last.name := ContextProp(last.prop)]
  }

  /** A name is a local exactly when some binding registers it. */
  lemma {:induction false} LocalsKeys(bindings: seq<VariableBinding>, name: string)
    ensures name in LocalsOf(bindings) <==> exists k :: 0 <= k < |bindings| && bindings[k].name == name
  {
    if |bindings| > 0 {
      var init := bindings[..|bindings| - 1];
      LocalsKeys(init, name);
      if name in LocalsOf(init) {
        var k :| 0 <= k < |init| && init[k].name == name;
        assert bindings[k].name == name;
      }
      if exists k :: 0 <= k < |bindings| && bindings[k].name == name {
        var k :| 0 <= k < |bindings| && bindings[k].name == name;
        if k < |init| {
          assert init[k].name == name;
        }
      }
    }
  }

  /** A local reads the property named by its last binding. */
  lemma {:induction false} LocalsLastWins(bindings: seq<VariableBinding>, j: nat)
    requires j < |bindings|
    requires forall k :: j < k < |bindings| ==> bindings[k].name != bindings[j].name
    ensures bindings[j].name in LocalsOf(bindings)
    ensures LocalsOf(bindings)[bindings[j].name] == ContextProp(bindings[j].prop)
  {
    var init := bindings[..|bindings| - 1];
    if j < |bindings| - 1 {
      assert init[j] == bindings[j];
      LocalsLastWins(init, j);
    }
  }

  /** The queries a component view creates, one per view-query metadata entry, in order. */
  function QueriesOf(metas: seq<QueryMeta>): (qs: seq<CompileQuery>)
    ensures |qs| == |metas|
    ensures forall i :: 0 <= i < |qs| ==> qs[i] == CompileQuery(metas[i], i)
  {
    seq(|metas|, i requires 0 <= i < |metas| => CompileQuery(metas[i], i))
  }

  class CompileView {
    const viewType: ViewType
    const viewIndex: int
    /** `declarationElement.view`: the view holding the declaring element, null for the null element. */
    const declarationView: CompileView?
    /** How many declaring views lie outward of this one. */
    ghost const depth: nat
    var componentView: CompileView?
    var viewQueries: seq<CompileQuery>
    var locals: map<string, LocalExpr>

    /** The chain of declaring views is finite: each step outward lowers the depth. */
    ghost predicate ChainOk()
      decreases depth
    {
      declarationView != null ==> declarationView.depth < depth && declarationView.ChainOk()
    }

    /** This view and every view outward of it. */
    ghost function Chain(): set<CompileView>
      requires ChainOk()
      decreases depth
    {
      {this} + (if declarationView == null then {} else declarationView.Chain())
    }

    /**
     * The constructor: component and host views are their own component
     * view, an embedded view shares its declaring view's; only a component
     * view creates view queries; every template variable binding registers a
     * local.
     */
    constructor(isHost: bool, viewIndex: int, declarationView: CompileView?,
                templateVariableBindings: seq<VariableBinding>, componentViewQueries: seq<QueryMeta>)
      requires viewIndex > 0 ==> declarationView != null
      requires declarationView != null ==> declarationView.ChainOk()
      ensures ChainOk()
      ensures viewType == GetViewType(isHost, viewIndex)
      ensures this.viewIndex == viewIndex && this.declarationView == declarationView
      ensures viewType.Embedded? ==> componentView == declarationView.componentView
      ensures !viewType.Embedded? ==> componentView == this
      ensures viewType.Component? ==> viewQueries == QueriesOf(componentViewQueries)
      ensures !viewType.Component? ==> viewQueries == []
      ensures locals == LocalsOf(templateVariableBindings)
    {
      viewType := GetViewType(isHost, viewIndex);
      this.viewIndex := viewIndex;
      this.declarationView := declarationView;
      depth := if declarationView == null then 0 else declarationView.depth + 1;
      new;
      if viewType.Embedded? {
        componentView := declarationView.componentView;
      } else {
        componentView := this;
      }
      var queries: seq<CompileQuery> := [];
      if viewType.Component? {
        for i := 0 to |componentViewQueries|
          invariant queries == QueriesOf(componentViewQueries[..i])
        {
          queries := queries + [CompileQuery(componentViewQueries[i], i)];
        }
        assert componentViewQueries[..|componentViewQueries|] == componentViewQueries;
      }
      viewQueries := queries;
      var ls: map<string, LocalExpr> := map[];
      for i := 0 to |templateVariableBindings|
        invariant ls == LocalsOf(templateVariableBindings[..i])
      {
        var entry := templateVariableBindings[i];
        assert templateVariableBindings[..i + 1][..i] == templateVariableBindings[..i];
        ls := ls[entry.name := ContextProp(entry.prop)];
      }
      assert templateVariableBindings[..|templateVariableBindings|] == templateVariableBindings;
      locals := ls;
    }

    /** `getLocal(name)`. */
    method GetLocal(name: string) returns (r: Option<LocalRef<CompileView>>)
      requires ChainOk()
      ensures name == EventName ==> r == Some(EventVariable)
      ensures name != EventName ==> r == LookupFrom(this, name)
    {
      if name == EventName {
        return Some(EventVariable);
      }
      var currView: CompileView := this;
      var result := if name in currView.locals then Some(currView.locals[name]) else None;
      while result.None? && currView.declarationView != null
        invariant currView.ChainOk()
        invariant result == (if name in currView.locals then Some(currView.locals[name]) else None)
        invariant LookupFrom(this, name) == LookupFrom(currView, name)
        decreases currView.depth
      {
        currView := currView.declarationView;
        result := if name in currView.locals then Some(currView.locals[name]) else None;
      }
      if result.Some? {
        return Some(InView(result.value, currView));
      }
      return None;
    }
  }

  /** The declaration of `name` nearest to `v` along the chain of declaring views, with the view holding it. */
  function LookupFrom(v: CompileView, name: string): Option<LocalRef<CompileView>>
    requires v.ChainOk()
    reads v.Chain()
    decreases v.depth
  {
    if name in v.locals then Some(InView(v.locals[name], v))
    else if v.declarationView == null then None
    else LookupFrom(v.declarationView, name)
  }

  /** Every view of the chain lies no deeper than its start. */
  lemma {:induction false} ChainDepth(v: CompileView, u: CompileView)
    requires v.ChainOk() && u in v.Chain()
    ensures u.ChainOk() && u.depth <= v.depth
    ensures u.Chain() <= v.Chain()
    decreases v.depth
  {
    if u != v {
      ChainDepth(v.declarationView, u);
    }
  }

  /**
   * A lookup finds the declaration nearest to `v`: the view it reports is
   * on the chain and declares `name`, and no view nearer to `v` does; it
   * finds nothing exactly when no view of the chain declares `name`.
   */
  lemma {:induction false} LookupNearest(v: CompileView, name: string)
    requires v.ChainOk()
    ensures LookupFrom(v, name).None? <==> forall u :: u in v.Chain() ==> name !in u.locals
    ensures LookupFrom(v, name).Some? ==>
              var w := LookupFrom(v, name).value;
              w.InView? && w.view in v.Chain() && name in w.view.locals && w.expr == w.view.locals[name] &&
              forall u :: u in v.Chain() && name in u.locals ==> u.depth <= w.view.depth
    decreases v.depth
  {
    if v.declarationView != null {
      LookupNearest(v.declarationView, name);
      forall u | u in v.declarationView.Chain()
        ensures u.depth < v.depth
      {
        ChainDepth(v.declarationView, u);
      }
    }
  }
}
