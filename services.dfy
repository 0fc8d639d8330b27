/**
 * The debug services of core/src/view/services.ts: the one-time choice of
 * the service table, the guards and current-node tracking of the debug
 * update passes, the attribute names and values written for bindings, the
 * element a debug context stands for and the provider tokens it lists, and
 * callWithDebugContext, which marks the view an error escaped from.
 *
 * The module state of services.ts (initialized, _currentAction,
 * _currentView, _currentNodeIndex) is one object, ServiceState.
 */
module DebugServices {
  import opened Wrappers
  import opened JsValues
  import opened ViewTypes
  import opened ViewDefSpec
  import opened ViewShape
  import opened Views
  import opened ViewRuntime

  // --------------------------------------------------------- binding names

  /** `[$@]` of normalizeDebugBindingName's first replace. */
  predicate IsMark(c: char)
  {
    c == '$' || c == '@'
  }

  /** `[A-Z]` of camelCaseToDashCase's regular expression (ASCII only). */
  predicate IsUpper(c: char)
  {
    'A' <= c <= 'Z'
  }

  function Lower(c: char): (r: char)
    requires IsUpper(c)
    ensures 'a' <= r <= 'z'
  {
    (c as int - 'A' as int + 'a' as int) as char
  }

  /** `name.replace(/[$@]/g, '_')`. */
  function ReplaceMarks(s: string): (r: string)
    ensures |r| == |s|
    ensures forall i :: 0 <= i < |r| ==> !IsMark(r[i])
    ensures forall i :: 0 <= i < |r| && !IsMark(s[i]) ==> r[i] == s[i]
  {
    if s == [] then []
    else [if IsMark(s[0]) then '_' else s[0]] + ReplaceMarks(s[1..])
  }

  /** How many characters of `s` are upper-case ASCII letters. */
  function Uppers(s: string): nat
  {
    if s == [] then 0 else (if IsUpper(s[0]) then 1 else 0) + Uppers(s[1..])
  }

  /** camelCaseToDashCase (services.ts:267-271): each upper-case letter becomes `-` and its lower-case form. */
  function CamelToDash(s: string): (r: string)
    ensures |r| == |s| + Uppers(s)
    ensures forall i :: 0 <= i < |r| ==> !IsUpper(r[i])
  {
    if s == [] then []
    else (if IsUpper(s[0]) then ['-', Lower(s[0])] else [s[0]]) + CamelToDash(s[1..])
  }

  const ReflectPrefix: string := "ng-reflect-"

  /** normalizeDebugBindingName (services.ts:261-265). */
  function NormalizeBindingName(name: string): string
  {
    ReflectPrefix + CamelToDash(ReplaceMarks(name))
  }

  /** A string without upper-case letters is left as it is. */
  lemma {:induction false} CamelToDashKeeps(s: string)
    requires forall i :: 0 <= i < |s| ==> !IsUpper(s[i])
    ensures CamelToDash(s) == s
  {
    if s != [] {
      CamelToDashKeeps(s[1..]);
      assert s == [s[0]] + s[1..];
    }
  }

  /** Dashing twice is dashing once. */
  lemma CamelToDashIdempotent(s: string)
    ensures CamelToDash(CamelToDash(s)) == CamelToDash(s)
  {
    CamelToDashKeeps(CamelToDash(s));
  }

  /** Dashing a concatenation dashes its parts. */
  lemma {:induction false} CamelToDashAppend(a: string, b: string)
    ensures CamelToDash(a + b) == CamelToDash(a) + CamelToDash(b)
  {
    if a != [] {
      assert (a + b)[0] == a[0] && (a + b)[1..] == a[1..] + b;
      CamelToDashAppend(a[1..], b);
      var head := if IsUpper(a[0]) then ['-', Lower(a[0])] else [a[0]];
      assert CamelToDash(a + b) == head + CamelToDash(a[1..] + b);
      assert head + (CamelToDash(a[1..]) + CamelToDash(b)) == (head + CamelToDash(a[1..])) + CamelToDash(b);
    } else {
      assert a + b == b;
    }
  }

  /** Replacing marks leaves the upper-case letters where they were. */
  lemma {:induction false} ReplaceMarksUppers(s: string)
    ensures Uppers(ReplaceMarks(s)) == Uppers(s)
  {
    if s != [] {
      ReplaceMarksUppers(s[1..]);
    }
  }

  /**
   * The attribute name of a binding starts with `ng-reflect-`, holds no
   * `$`, `@` or upper-case letter, and is one character longer per
   * upper-case letter of the name.
   */
  lemma BindingNameShape(name: string)
    ensures var r := NormalizeBindingName(name);
      |r| == |ReflectPrefix| + |name| + Uppers(name) &&
      r[..|ReflectPrefix|] == ReflectPrefix &&
      forall i :: |ReflectPrefix| <= i < |r| ==> !IsUpper(r[i]) && !IsMark(r[i])
  {
    ReplaceMarksUppers(name);
    MarksStayOut(ReplaceMarks(name));
  }

  /** Dashing brings in no `$` or `@`. */
  lemma {:induction false} MarksStayOut(s: string)
    requires forall i :: 0 <= i < |s| ==> !IsMark(s[i])
    ensures forall i :: 0 <= i < |CamelToDash(s)| ==> !IsMark(CamelToDash(s)[i])
  {
    if s != [] {
      MarksStayOut(s[1..]);
      var head := if IsUpper(s[0]) then ['-', Lower(s[0])] else [s[0]];
      assert CamelToDash(s) == head + CamelToDash(s[1..]);
    }
  }

  /** A name that is already an attribute name of this form names itself. */
  lemma BindingNameOfDashed(name: string)
    requires forall i :: 0 <= i < |name| ==> !IsUpper(name[i]) && !IsMark(name[i])
    ensures NormalizeBindingName(name) == ReflectPrefix + name
  {
    NoMarksKept(name);
    CamelToDashKeeps(name);
  }

  lemma NoMarksKept(s: string)
    requires forall i :: 0 <= i < |s| ==> !IsMark(s[i])
    ensures ReplaceMarks(s) == s
  {
  }

  // -------------------------------------------------------- binding values

  const SerializeError: string := "[ERROR] Exception while trying to serialize the value"

  /**
   * normalizeDebugBindingValue (services.ts:273-280): a falsy value is
   * returned as it is; another value's string form `shown` is cut to 30
   * characters; when toString throws (`shown` is None) the error text is
   * returned instead.
   */
  function NormalizeBindingValue(value: JsValue, shown: Option<string>): (r: JsValue)
    ensures !Truthy(value) ==> r == value
    ensures Truthy(value) && shown.Some? ==>
              r.Str? && |r.s| == (if |shown.value| < 30 then |shown.value| else 30) &&
              r.s == shown.value[..|r.s|]
    ensures Truthy(value) && shown.None? ==> r == Str(SerializeError)
  {
    if !Truthy(value) then value
    else match shown
      case None => Str(SerializeError)
      case Some(s) => Str(if |s| <= 30 then s else s[..30])
  }

  /** Normalising the text a normalisation gave back, shown as itself, changes nothing. */
  lemma NormalizeValueIdempotent(value: JsValue, shown: Option<string>)
    requires NormalizeBindingValue(value, shown).Str?
    ensures var r := NormalizeBindingValue(value, shown);
      |r.s| <= 30 ==> NormalizeBindingValue(r, Some(r.s)) == r
  {
  }

  // ------------------------------------------------- next node with binding

  /** A node a debug pass reports: of the wanted category and with at least one binding. */
  predicate WithBinding(n: NodeDef, mask: Flags)
  {
    Has(n.flags, mask) && |n.bindings| > 0
  }

  /** `r` is the first node from `start` on with a binding of the category, or None when there is none. */
  predicate FirstWithBinding(ns: seq<NodeDef>, start: nat, mask: Flags, r: Option<nat>)
  {
    match r
    case Some(k) =>
      start <= k < |ns| && WithBinding(ns[k], mask) &&
      forall j :: start <= j < k ==> !WithBinding(ns[j], mask)
    case None =>
      forall j :: start <= j < |ns| ==> !WithBinding(ns[j], mask)
  }

  /** There is one first node. */
  lemma FirstWithBindingUnique(ns: seq<NodeDef>, start: nat, mask: Flags, r1: Option<nat>, r2: Option<nat>)
    requires FirstWithBinding(ns, start, mask, r1) && FirstWithBinding(ns, start, mask, r2)
    ensures r1 == r2
  {
  }

  /**
   * The shared loop of nextDirectiveWithBinding and
   * nextRenderNodeWithBinding (services.ts:282-300).
   */
  method NextWithBinding(ns: seq<NodeDef>, start: nat, mask: Flags) returns (r: Option<nat>)
    ensures FirstWithBinding(ns, start, mask, r)
  {
    var i := start;
    while i < |ns|
      invariant start <= i
      invariant forall j :: start <= j < i && j < |ns| ==> !WithBinding(ns[j], mask)
    {
      if Has(ns[i].flags, mask) && |ns[i].bindings| > 0 {
        return Some(i);
      }
      i := i + 1;
    }
    return None;
  }

  /** nextDirectiveWithBinding (services.ts:282-290). */
  method NextDirectiveWithBinding(ns: seq<NodeDef>, start: nat) returns (r: Option<nat>)
    ensures FirstWithBinding(ns, start, TypeDirective, r)
  {
    r := NextWithBinding(ns, start, TypeDirective);
  }

  /** nextRenderNodeWithBinding (services.ts:292-300). */
  method NextRenderNodeWithBinding(ns: seq<NodeDef>, start: nat) returns (r: Option<nat>)
    ensures FirstWithBinding(ns, start, CatRenderNode, r)
  {
    r := NextWithBinding(ns, start, CatRenderNode);
  }

  /**
   * The search starts at the node it is given: after a pass has checked a
   * node with bindings of the category, the current node stays on it.
   */
  lemma SearchFromChecked(ns: seq<NodeDef>, k: nat, mask: Flags)
    requires k < |ns| && WithBinding(ns[k], mask)
    ensures FirstWithBinding(ns, k, mask, Some(k))
  {
  }

  /** Searching from a later start skips exactly the nodes before it. */
  lemma FirstWithBindingLater(ns: seq<NodeDef>, start: nat, mask: Flags, r: Option<nat>, later: nat)
    requires FirstWithBinding(ns, start, mask, r) && start <= later
    requires r.Some? ==> later <= r.value
    ensures FirstWithBinding(ns, later, mask, r)
  {
  }

  // --------------------------------------------------------- debug context

  /** Node a is node k or one of its ancestors, following parent links. */
  predicate Above(d: ViewDefinition, a: nat, k: nat)
    requires DefReady(d)
    ensures Above(d, a, k) ==> a <= k
    decreases k
  {
    k < |d.nodes| &&
    (a == k ||
     (d.nodes[k].parent.Some? && (assert NodeReady(d, k); Above(d, a, d.nodes[k].parent.value))))
  }

  /**
   * The first climb of the DebugContext_ constructor (services.ts:310-315):
   * from node k through its parents to the first element; a node index
   * outside the definition reads no node.
   */
  function ElementAbove(d: ViewDefinition, k: Option<nat>): (r: Option<nat>)
    requires DefReady(d)
    ensures r.Some? ==> k.Some? && r.value <= k.value && r.value < |d.nodes| && Has(d.nodes[r.value].flags, TypeElement)
    decreases if k.Some? then k.value + 1 else 0
  {
    match k
    case None => None
    case Some(j) =>
      if j >= |d.nodes| then None
      else if Has(d.nodes[j].flags, TypeElement) then k
      else (assert NodeReady(d, j); ElementAbove(d, d.nodes[j].parent))
  }

  /**
   * The climb finds the nearest element among node k and its ancestors:
   * it is one of them and every element among them is above it; when it
   * finds none, there is none.
   */
  lemma {:induction false} ElementAboveNearest(d: ViewDefinition, k: nat)
    requires DefReady(d) && k < |d.nodes|
    ensures var r := ElementAbove(d, Some(k));
      (r.Some? ==> Above(d, r.value, k) &&
                   forall a: nat :: Above(d, a, k) && Has(d.nodes[a].flags, TypeElement) ==> Above(d, a, r.value)) &&
      (r.None? ==> forall a: nat :: Above(d, a, k) ==> !Has(d.nodes[a].flags, TypeElement))
    decreases k
  {
    if !Has(d.nodes[k].flags, TypeElement) {
      assert NodeReady(d, k);
      match d.nodes[k].parent
      case None =>
      case Some(p) =>
        ElementAboveNearest(d, p);
    }
  }

  /** View a is view u or one of its ancestor views. */
  ghost predicate ViewAbove(views: seq<ViewRecord>, a: nat, u: nat)
    requires Wf(views)
    ensures ViewAbove(views, a, u) ==> a <= u
    decreases u
  {
    u < |views| &&
    (a == u ||
     (views[u].parent.Some? && (assert ViewWf(views, u); ViewAbove(views, a, views[u].parent.value))))
  }

  /**
   * The second climb of the constructor (services.ts:316-321): from view u
   * up through the parent views to the first whose parent node has a parent
   * element; the result is that view's parent view and the element.
   */
  function ViewClimb(views: seq<ViewRecord>, u: Option<nat>): (r: (Option<nat>, Option<nat>))
    requires Wf(views) && (u.Some? ==> u.value < |views|)
    ensures r.1.Some? ==> r.0.Some? && r.0.value < |views| && r.1.value < |views[r.0.value].def.nodes|
    decreases if u.Some? then u.value + 1 else 0
  {
    match u
    case None => (None, None)
    case Some(w) =>
      assert ViewWf(views, w);
      var e := ViewParentEl(views, w);
      if e.Some? then
        var p := views[w].parent.value;
        assert ViewWf(views, p) && NodeReady(views[p].def, views[w].parentNodeDef.value);
        (Some(p), e)
      else ViewClimb(views, views[w].parent)
  }

  /**
   * The view climb stops at the nearest view on the way up that hangs below
   * an element, or reaches past the root when none does.
   */
  lemma {:induction false} ViewClimbNearest(views: seq<ViewRecord>, u: nat)
    requires Wf(views) && u < |views|
    ensures var r := ViewClimb(views, Some(u));
      (r.1.Some? ==> exists a: nat :: ViewAbove(views, a, u) && ViewParentEl(views, a) == r.1 && views[a].parent == r.0) &&
      (r.1.None? ==> forall a: nat :: ViewAbove(views, a, u) ==> ViewParentEl(views, a).None?)
    decreases u
  {
    assert ViewWf(views, u);
    if ViewParentEl(views, u).Some? {
      assert ViewAbove(views, u, u);
    } else if views[u].parent.Some? {
      var p := views[u].parent.value;
      ViewClimbNearest(views, p);
      var r := ViewClimb(views, Some(u));
      if r.1.Some? {
        var a: nat :| ViewAbove(views, a, p) && ViewParentEl(views, a) == r.1 && views[a].parent == r.0;
        assert ViewAbove(views, a, u);
      }
    }
  }

  /**
   * Where a debug context for node n of view v finds its element: the
   * nearest element at or above the node in v, else the climb through the
   * parent views.
   */
  function ElementOf(views: seq<ViewRecord>, v: nat, n: nat): (r: (Option<nat>, Option<nat>))
    requires Wf(views) && v < |views|
    ensures r.1.Some? ==> r.0.Some? && r.0.value < |views| && r.1.value < |views[r.0.value].def.nodes|
  {
    assert ViewWf(views, v);
    var el := ElementAbove(views[v].def, Some(n));
    if el.Some? then (Some(v), el) else ViewClimb(views, Some(v))
  }

  /**
   * The indices providerTokens visits below an element (services.ts:332-344):
   * from i on, each visited node's descendants are jumped over, up to `last`.
   */
  function Jumps(ns: seq<NodeDef>, i: nat, last: int): (r: seq<nat>)
    requires last < |ns|
    ensures forall k :: 0 <= k < |r| ==> i <= r[k] <= last
    decreases |ns| - i
  {
    if i > last then [] else [i] + Jumps(ns, i + ns[i].childCount + 1, last)
  }

  /** The tokens of the provider nodes among `ks`; None when one of them has no provider (a TypeError). */
  function TokensOf(ns: seq<NodeDef>, ks: seq<nat>): Option<seq<Token>>
    requires forall k :: 0 <= k < |ks| ==> ks[k] < |ns|
  {
    if ks == [] then Some([])
    else
      var rest := TokensOf(ns, ks[1..]);
      var n := ns[ks[0]];
      if !Has(n.flags, CatProvider) then rest
      else if n.provider.None? then None
      else if rest.None? then None
      else Some([n.provider.value.token] + rest.value)
  }

  /** Every node below the element that no other node below it encloses is visited. */
  lemma {:induction false} JumpsComplete(ns: seq<NodeDef>, el: nat, i: nat, k: nat)
    requires el < |ns| && End(ns, el) < |ns| && el < i <= k <= End(ns, el)
    requires forall q :: el < q < k ==> !Encloses(ns, q, k)
    ensures k in Jumps(ns, i, End(ns, el))
    decreases k - i
  {
    if i < k {
      assert !Encloses(ns, i, k);
      JumpsComplete(ns, el, i + ns[i].childCount + 1, k);
    }
  }

  /** childCount ranges nest: a node's descendants' ranges end inside its own. */
  predicate RangesNest(ns: seq<NodeDef>)
  {
    forall j, q :: 0 <= j < q < |ns| && q <= End(ns, j) ==> End(ns, q) <= End(ns, j)
  }

  /**
   * With nested ranges, every visited node is a direct child of the
   * element: no node between the element and it encloses it.
   */
  lemma {:induction false} JumpsSound(ns: seq<NodeDef>, el: nat, i: nat, k: nat)
    requires RangesNest(ns) && el < |ns| && End(ns, el) < |ns| && el < i <= End(ns, el) + 1
    requires forall q :: el < q < i ==> !Encloses(ns, q, i) && End(ns, q) < i
    requires k in Jumps(ns, i, End(ns, el))
    ensures forall q :: el < q < k ==> !Encloses(ns, q, k)
    decreases |ns| - i
  {
    if k != i {
      var i' := i + ns[i].childCount + 1;
      assert i <= End(ns, el);
      assert End(ns, i) <= End(ns, el);
      forall q | el < q < i'
        ensures !Encloses(ns, q, i') && End(ns, q) < i'
      {
        if q > i {
          NestedRange(ns, i, q);
        }
      }
      JumpsSound(ns, el, i', k);
    }
  }

  lemma NestedRange(ns: seq<NodeDef>, j: nat, q: nat)
    requires RangesNest(ns) && j < q < |ns| && q <= End(ns, j)
    ensures End(ns, q) <= End(ns, j)
  {
  }

  /** providerTokens' loop over the direct children of element `el`. */
  method ChildProviderTokens(ns: seq<NodeDef>, el: nat) returns (r: Option<seq<Token>>)
    requires el < |ns| && End(ns, el) < |ns|
    ensures r == TokensOf(ns, Jumps(ns, el + 1, End(ns, el)))
  {
    var last := el + ns[el].childCount;
    var tokens: seq<Token> := [];
    var i := el + 1;
    assert last == End(ns, el);
    PrependEmpty(TokensOf(ns, Jumps(ns, i, last)));
    ghost var want := TokensOf(ns, Jumps(ns, el + 1, last));
    while i <= last
      invariant el + 1 <= i
      invariant want == Prepend(tokens, TokensOf(ns, Jumps(ns, i, last)))
      decreases last + 1 - i
    {
      var c := ns[i];
      var next := i + c.childCount + 1;
      ghost var rest := TokensOf(ns, Jumps(ns, next, last));
      TokensStep(ns, i, last);
      if Has(c.flags, CatProvider) {
        if c.provider.None? {
          return None;
        }
        PrependAppend(tokens, c.provider.value.token, rest);
        tokens := tokens + [c.provider.value.token];
      }
      assert want == Prepend(tokens, rest);
      i := next;
    }
    assert tokens + [] == tokens;
    return Some(tokens);
  }

  /** One step of the walk: the tokens from `i` on are node i's token, if any, before those from the next sibling on. */
  lemma TokensStep(ns: seq<NodeDef>, i: nat, last: int)
    requires i <= last < |ns|
    ensures var rest := TokensOf(ns, Jumps(ns, i + ns[i].childCount + 1, last));
      TokensOf(ns, Jumps(ns, i, last)) ==
        if !Has(ns[i].flags, CatProvider) then rest
        else if ns[i].provider.None? then None
        else Prepend([ns[i].provider.value.token], rest)
  {
    var rest := Jumps(ns, i + ns[i].childCount + 1, last);
    assert Jumps(ns, i, last) == [i] + rest && ([i] + rest)[1..] == rest;
  }

  function Prepend(t: seq<Token>, r: Option<seq<Token>>): Option<seq<Token>>
  {
    if r.None? then None else Some(t + r.value)
  }

  lemma PrependEmpty(r: Option<seq<Token>>)
    ensures Prepend([], r) == r
  {
    if r.Some? {
      assert [] + r.value == r.value;
    }
  }

  lemma PrependAppend(t: seq<Token>, x: Token, r: Option<seq<Token>>)
    ensures Prepend(t, Prepend([x], r)) == Prepend(t + [x], r)
  {
    if r.Some? {
      assert t + ([x] + r.value) == (t + [x]) + r.value;
    }
  }

  /**
   * DebugContext_ (services.ts:303-392): the view and node an error or a
   * debug query is about, and the element that stands for them.
   */
  class DebugContext {
    var view: nat
    var nodeIndex: nat
    var nodeDef: Option<nat>
    var elView: Option<nat>
    var elDef: Option<nat>

    /**
     * The constructor (services.ts:306-324): a null node index means node
     * 0; the element is the nearest element at or above the node, else the
     * parent element of the nearest view on the way up that has one.
     */
    constructor (views: seq<ViewRecord>, view: nat, nodeIndex: Option<nat>)
      requires Wf(views) && view < |views|
      ensures this.view == view && this.nodeIndex == (if nodeIndex.None? then 0 else nodeIndex.value)
      ensures nodeDef == (if this.nodeIndex < |views[view].def.nodes| then Some(this.nodeIndex) else None)
      ensures (elView, elDef) == ElementOf(views, view, this.nodeIndex)
    {
      var n := if nodeIndex.None? then 0 else nodeIndex.value;
      this.view := view;
      this.nodeIndex := n;
      assert ViewWf(views, view);
      var d := views[view].def;
      var nd: Option<nat> := if n < |d.nodes| then Some(n) else None;
      this.nodeDef := nd;
      var el := nd;
      while el.Some? && !Has(d.nodes[el.value].flags, TypeElement)
        invariant el.Some? ==> el.value < |d.nodes|
        invariant ElementAbove(d, el) == ElementAbove(d, Some(n))
        decreases if el.Some? then el.value + 1 else 0
      {
        assert NodeReady(d, el.value);
        el := d.nodes[el.value].parent;
      }
      var ev: Option<nat> := Some(view);
      if el.None? {
        while el.None? && ev.Some?
          invariant ev.Some? ==> ev.value < |views|
          invariant el.None? ==> ViewClimb(views, ev) == ViewClimb(views, Some(view))
          invariant el.Some? ==> (ev, el) == ViewClimb(views, Some(view))
          decreases if ev.Some? then ev.value + 1 else 0
        {
          assert ViewWf(views, ev.value);
          el := ViewParentEl(views, ev.value);
          ev := views[ev.value].parent;
        }
      }
      this.elView := ev;
      this.elDef := el;
    }

    /**
     * providerTokens (services.ts:332-344): the tokens of the provider
     * nodes directly below the context's element, none without an element.
     */
    method ProviderTokens(views: seq<ViewRecord>) returns (r: Option<seq<Token>>)
      requires Wf(views) && view < |views| && (elView, elDef) == ElementOf(views, view, nodeIndex)
      ensures elDef.None? ==> r == Some([])
      ensures elDef.Some? ==>
        var ns := views[elView.value].def.nodes;
        End(ns, elDef.value) < |ns| && r == TokensOf(ns, Jumps(ns, elDef.value + 1, End(ns, elDef.value)))
    {
      if elDef.None? {
        return Some([]);
      }
      var w := elView.value;
      assert ViewWf(views, w);
      var ns := views[w].def.nodes;
      assert ChildrenAggregated(views[w].def, elDef.value);
      r := ChildProviderTokens(ns, elDef.value);
    }
  }

  // ------------------------------------------------------ service state

  datatype DebugAction = Create | DetectChanges | CheckNoChanges | Destroy | HandleEvent

  /** The two service tables initServicesIfNeeded chooses between. */
  datatype ServiceSet = DebugServiceSet | ProdServiceSet

  /** What a call made through callWithDebugContext throws. */
  datatype DebugError =
      /** an error of the view runtime */
    | Raised(thrown: Thrown)
      /** viewDestroyedError, naming the current action (None: undefined) */
    | ViewDestroyedError(action: Option<DebugAction>)
      /** viewWrappedDebugError: the original error and the context of the current view and node */
    | WrappedError(cause: DebugError, view: nat, node: nat)

  datatype Outcome = Returned | Failed(error: DebugError)

  /**
   * isViewDebugError: errors made with a debug context attached, i.e. the
   * changed-after-checked errors and the wrapped errors.
   */
  predicate IsViewDebugError(e: DebugError)
  {
    e.WrappedError? || (e.Raised? && (e.thrown.ExpressionChanged? || e.thrown.QueryChanged?))
  }

  /** The error callWithDebugContext rethrows (services.ts:402-409). */
  function Rethrown(e: DebugError, current: Option<nat>, node: Option<nat>): (r: DebugError)
  {
    if IsViewDebugError(e) || current.None? then e
    else WrappedError(e, current.value, if node.None? then 0 else node.value)
  }

  /**
   * An error leaving callWithDebugContext while a view is current carries
   * a debug context, and nested calls wrap it once only.
   */
  lemma RethrownOnce(e: DebugError, current: Option<nat>, node: Option<nat>, current': Option<nat>, node': Option<nat>)
    requires current.Some?
    ensures IsViewDebugError(Rethrown(e, current, node))
    ensures Rethrown(Rethrown(e, current, node), current', node') == Rethrown(e, current, node)
  {
  }

  /** The Errored bit callWithDebugContext sets keeps the view out of every later check. */
  lemma ErroredStopsChecks(state: Flags)
    ensures !CanCheck(Union(state, Errored))
    ensures Has(Union(state, Destroyed), Destroyed) == Has(Union(state, Errored), Errored)
  {
    CanCheckBits(Union(state, Errored));
    HasOr(state, Errored, Errored);
    HasOr(state, Destroyed, Destroyed);
  }

  /** The module state of services.ts. */
  class ServiceState {
    var initialized: bool
    var services: Option<ServiceSet>
    var action: Option<DebugAction>
    var view: Option<nat>
    var nodeIndex: Option<nat>

    constructor ()
      ensures !initialized && services == None && action == None && view == None && nodeIndex == None
    {
      initialized := false;
      services := None;
      action := None;
      view := None;
      nodeIndex := None;
    }

    /**
     * initServicesIfNeeded (services.ts:25-44): the first call installs the
     * debug services in dev mode and the production ones otherwise; later
     * calls change nothing.
     */
    method InitServicesIfNeeded(devMode: bool)
      modifies this
      ensures old(initialized) ==> services == old(services)
      ensures !old(initialized) ==> services == Some(if devMode then DebugServiceSet else ProdServiceSet)
      ensures initialized && action == old(action) && view == old(view) && nodeIndex == old(nodeIndex)
    {
      if initialized {
        return;
      }
      initialized := true;
      services := Some(if devMode then DebugServiceSet else ProdServiceSet);
    }

    /** debugSetCurrentNode (services.ts:161-164). */
    method SetCurrentNode(v: nat, n: Option<nat>)
      modifies this
      ensures view == Some(v) && nodeIndex == n
      ensures initialized == old(initialized) && services == old(services) && action == old(action)
    {
      view := Some(v);
      nodeIndex := n;
    }

    /**
     * The start of debugUpdateDirectives (mask TypeDirective) and
     * debugUpdateRenderer (mask CatRenderNode), services.ts:172-176 and
     * 196-200: a destroyed view throws, naming the current action, and
     * nothing changes; otherwise the current node becomes the first node
     * of the category with a binding.
     */
    method DebugUpdateStart(r: ViewRecord, v: nat, mask: Flags) returns (err: Option<DebugError>)
      modifies this
      ensures Has(r.state, Destroyed) ==>
                err == Some(ViewDestroyedError(old(action))) && view == old(view) && nodeIndex == old(nodeIndex)
      ensures !Has(r.state, Destroyed) ==>
                err == None && view == Some(v) && FirstWithBinding(r.def.nodes, 0, mask, nodeIndex)
      ensures initialized == old(initialized) && services == old(services) && action == old(action)
    {
      if Has(r.state, Destroyed) {
        return Some(ViewDestroyedError(action));
      }
      var next := NextWithBinding(r.def.nodes, 0, mask);
      SetCurrentNode(v, next);
      err := None;
    }

    /**
     * The end of the debug check functions (services.ts:187-189 and
     * 211-213): after checking node k of the category, the current node
     * becomes the first node of the category with a binding from k on.
     */
    method AfterNodeCheck(r: ViewRecord, v: nat, k: nat, mask: Flags)
      requires k < |r.def.nodes|
      modifies this
      ensures Has(r.def.nodes[k].flags, mask) ==> view == Some(v) && FirstWithBinding(r.def.nodes, k, mask, nodeIndex)
      ensures !Has(r.def.nodes[k].flags, mask) ==> view == old(view) && nodeIndex == old(nodeIndex)
      ensures initialized == old(initialized) && services == old(services) && action == old(action)
    {
      if Has(r.def.nodes[k].flags, mask) {
        var next := NextWithBinding(r.def.nodes, k, mask);
        SetCurrentNode(v, next);
      }
    }

    /**
     * callWithDebugContext (services.ts:393-411) around a call that ended
     * with `outcome`, leaving `leftView` and `leftNode` current.  A normal
     * return restores the action, view and node there were.  A view debug
     * error, or any error with no current view, is rethrown as it is;
     * another error sets the current view's Errored bit and is rethrown
     * wrapped with the current view and node.
     */
    method CallWithDebugContext(rt: Arena, act: DebugAction, outcome: Outcome, leftView: Option<nat>, leftNode: Option<nat>)
      returns (r: Outcome)
      requires Wf(rt.views) && (leftView.Some? ==> leftView.value < |rt.views|)
      modifies this, rt
      ensures Wf(rt.views) && rt.nextId == old(rt.nextId)
      ensures initialized == old(initialized) && services == old(services)
      ensures outcome.Returned? ==>
                r == Returned && rt.views == old(rt.views) &&
                action == old(action) && view == old(view) && nodeIndex == old(nodeIndex)
      ensures outcome.Failed? ==>
                r == Failed(Rethrown(outcome.error, leftView, leftNode)) &&
                action == Some(act) && view == leftView && nodeIndex == leftNode
      ensures outcome.Failed? && (IsViewDebugError(outcome.error) || leftView.None?) ==> rt.views == old(rt.views)
      ensures outcome.Failed? && !IsViewDebugError(outcome.error) && leftView.Some? ==>
                var w := leftView.value;
                rt.views == old(rt.views)[w := old(rt.views)[w].(state := Union(old(rt.views)[w].state, Errored))]
    {
      var oldAction, oldView, oldNode := action, view, nodeIndex;
      action := Some(act);
      view, nodeIndex := leftView, leftNode;
      if outcome.Returned? {
        view, nodeIndex, action := oldView, oldNode, oldAction;
        return Returned;
      }
      var e := outcome.error;
      if IsViewDebugError(e) || view.None? {
        return Failed(e);
      }
      var w := view.value;
      ghost var before := rt.views;
      rt.views := rt.views[w := rt.views[w].(state := Union(rt.views[w].state, Errored))];
      assert SameShape(before, rt.views) by {
        assert forall u :: 0 <= u < |before| ==> SameRecordShape(before[u], rt.views[u]);
      }
      WfShape(before, rt.views);
      r := Failed(WrappedError(e, w, if nodeIndex.None? then 0 else nodeIndex.value));
    }
  }
}
