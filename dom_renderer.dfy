/**
 * String helpers and renderer caches of the browser DOM renderer
 * (modules/@angular/platform-browser/src/dom/dom_renderer.ts). The DOM is
 * not modelled: elements are ids and what a renderer does to them is a log
 * of `DomCall`s; the shared styles host is the log of the style lists handed
 * to it.
 */
module DomRendering {
  import opened Wrappers
  import opened JsValues

  /** The placeholder that style sheets and attribute templates use for the component id. */
  const ComponentVariable := "%COMP%"
  const HostAttrTemplate := "_nghost-%COMP%"
  const ContentAttrTemplate := "_ngcontent-%COMP%"

  /** Whether `pat` occurs in `s` starting at position `j`. */
  predicate OccursAt(s: string, pat: string, j: nat)
  {
    j + |pat| <= |s| && s[j..j + |pat|] == pat
  }

  /** `s.replace(/pat/g, rep)` for a literal, non-empty pattern: every match, left to right, without overlap. */
  function ReplaceAll(s: string, pat: string, rep: string): string
    requires |pat| > 0
    decreases |s|
  {
    if |s| < |pat| then s
    else if s[..|pat|] == pat then rep + ReplaceAll(s[|pat|..], pat, rep)
    else [s[0]] + ReplaceAll(s[1..], pat, rep)
  }

  /** A string in which the pattern does not occur is left as it is. */
  lemma {:induction false} ReplaceAbsent(s: string, pat: string, rep: string)
    requires |pat| > 0
    requires forall j :: 0 <= j <= |s| ==> !OccursAt(s, pat, j)
    ensures ReplaceAll(s, pat, rep) == s
    decreases |s|
  {
    if |s| >= |pat| {
      assert !OccursAt(s, pat, 0);
      forall j | 0 <= j <= |s| - 1
        ensures !OccursAt(s[1..], pat, j)
      {
        assert !OccursAt(s, pat, j + 1);
        if j + |pat| <= |s| - 1 {
          assert s[1..][j..j + |pat|] == s[j + 1..j + 1 + |pat|];
        }
      }
      ReplaceAbsent(s[1..], pat, rep);
    }
  }

  /** A prefix without the pattern's first character, followed by the pattern and a tail free of it, becomes prefix, replacement, tail. */
  lemma {:induction false} ReplaceOnce(p: string, pat: string, tail: string, rep: string)
    requires |pat| > 0 && pat[0] !in p
    requires forall j :: 0 <= j <= |tail| ==> !OccursAt(tail, pat, j)
    ensures ReplaceAll(p + pat + tail, pat, rep) == p + rep + tail
    decreases |p|
  {
    var s := p + pat + tail;
    if |p| == 0 {
      assert s[..|pat|] == pat && s[|pat|..] == tail;
      ReplaceAbsent(tail, pat, rep);
    } else {
      assert s[0] == p[0] && s[0] != pat[0];
      assert s[..|pat|] != pat by {
        assert s[..|pat|][0] == s[0];
      }
      assert s[1..] == p[1..] + pat + tail;
      ReplaceOnce(p[1..], pat, tail, rep);
      assert [p[0]] + (p[1..] + rep + tail) == p + rep + tail;
    }
  }

  /** `shimContentAttribute(componentShortId)`. */
  function ShimContentAttribute(componentShortId: string): (attr: string)
    ensures attr == "_ngcontent-" + componentShortId
  {
    assert ContentAttrTemplate == "_ngcontent-" + ComponentVariable + "";
    ReplaceOnce("_ngcontent-", ComponentVariable, "", componentShortId);
    ReplaceAll(ContentAttrTemplate, ComponentVariable, componentShortId)
  }

  /** `shimHostAttribute(componentShortId)`. */
  function ShimHostAttribute(componentShortId: string): (attr: string)
    ensures attr == "_nghost-" + componentShortId
  {
    assert HostAttrTemplate == "_nghost-" + ComponentVariable + "";
    ReplaceOnce("_nghost-", ComponentVariable, "", componentShortId);
    ReplaceAll(HostAttrTemplate, ComponentVariable, componentShortId)
  }

  /** A component's styles: strings and nested arrays of them. */
  datatype Style = StyleText(text: string) | StyleArray(items: seq<Style>)

  function StyleSize(s: Style): nat
  {
    match s
    case StyleText(_) => 1
    case StyleArray(items) => 1 + StylesSize(items)
  }

  function StylesSize(styles: seq<Style>): nat
  {
    if |styles| == 0 then 0 else StyleSize(styles[0]) + StylesSize(styles[1..])
  }

  lemma {:induction false} ElementSmaller(styles: seq<Style>, i: nat)
    requires i < |styles|
    ensures StyleSize(styles[i]) <= StylesSize(styles)
  {
    if i > 0 {
      ElementSmaller(styles[1..], i - 1);
    }
  }

  /** The string leaves of nested styles, left to right. */
  function Leaves(styles: seq<Style>): seq<string>
    decreases StylesSize(styles), 1
  {
    if |styles| == 0 then [] else StyleLeaves(styles[0]) + Leaves(styles[1..])
  }

  /** The string leaves of one style. */
  function StyleLeaves(style: Style): seq<string>
    decreases StyleSize(style), 0
  {
    match style
    case StyleText(t) => [t]
    case StyleArray(items) => Leaves(items)
  }

  lemma {:induction false} LeavesAppend(a: seq<Style>, b: seq<Style>)
    ensures Leaves(a + b) == Leaves(a) + Leaves(b)
    decreases |a|
  {
    if |a| > 0 {
      assert (a + b)[0] == a[0] && (a + b)[1..] == a[1..] + b;
      LeavesAppend(a[1..], b);
    } else {
      assert a + b == b;
    }
  }

  /** Every leaf with each `%COMP%` replaced by the component id. */
  function ShimAll(compId: string, leaves: seq<string>): (r: seq<string>)
    ensures |r| == |leaves|
    ensures forall k :: 0 <= k < |leaves| ==> r[k] == ReplaceAll(leaves[k], ComponentVariable, compId)
  {
    seq(|leaves|, k requires 0 <= k < |leaves| => ReplaceAll(leaves[k], ComponentVariable, compId))
  }

  /**
   * `flattenStyles(compId, styles, target)`: appends every string leaf of the
   * nested arrays to `target`, in order, with `%COMP%` replaced; the
   * appended-to list is the result.
   */
  method FlattenStyles(compId: string, styles: seq<Style>, target: seq<string>) returns (r: seq<string>)
    ensures r == target + ShimAll(compId, Leaves(styles))
    decreases StylesSize(styles)
  {
    r := target;
    for i := 0 to |styles|
      invariant r == target + ShimAll(compId, Leaves(styles[..i]))
    {
      var style := styles[i];
      LeavesAppend(styles[..i], [style]);
      assert styles[..i + 1] == styles[..i] + [style];
      assert [style][1..] == [];
      assert Leaves([style]) == StyleLeaves(style);
      match style {
        case StyleArray(items) =>
          ElementSmaller(styles, i);
          r := FlattenStyles(compId, items, r);
        case StyleText(text) =>
          r := r + [ReplaceAll(text, ComponentVariable, compId)];
      }
    }
    assert styles[..|styles|] == styles;
  }

  /** `isNamespaced(name)`: `name[0] === ':'`, false for the empty name. */
  predicate IsNamespaced(name: string)
  {
    |name| > 0 && name[0] == ':'
  }

  /** The characters `.` does not match in a JavaScript regular expression. */
  predicate LineTerminator(c: char)
  {
    c == '\n' || c == '\r' || c == '\U{2028}' || c == '\U{2029}'
  }

  /** The position of the first `:` after the leading one, if any. */
  function SecondColon(name: string, k: nat): (r: Option<nat>)
    requires 1 <= k <= |name|
    ensures r.Some? ==> k <= r.value < |name| && name[r.value] == ':' && forall j :: k <= j < r.value ==> name[j] != ':'
    ensures r.None? ==> forall j :: k <= j < |name| ==> name[j] != ':'
    decreases |name| - k
  {
    if k == |name| then None
    else if name[k] == ':' then Some(k)
    else SecondColon(name, k + 1)
  }

  /**
   * `splitNamespace(name)` against `^:([^:]+):(.+)$`: the namespace runs to
   * the second colon and is not empty, the name is the non-empty rest free of
   * line terminators. `None` is the TypeError thrown when nothing matches.
   */
  function SplitNamespace(name: string): Option<(string, string)>
  {
    if !IsNamespaced(name) then None
    else
      match SecondColon(name, 1)
      case None => None
      case Some(c) =>
        var ns, local := name[1..c], name[c + 1..];
        if |ns| == 0 || |local| == 0 || exists j :: 0 <= j < |local| && LineTerminator(local[j]) then None
        else Some((ns, local))
  }

  /** `splitNamespace(':' + ns + ':' + local)` gives `[ns, local]` back, and any result has that shape. */
  lemma SplitNamespaceRoundTrip(ns: string, local: string)
    requires |ns| > 0 && ':' !in ns
    requires |local| > 0 && forall j :: 0 <= j < |local| ==> !LineTerminator(local[j])
    ensures SplitNamespace(":" + ns + ":" + local) == Some((ns, local))
  {
    var name := ":" + ns + ":" + local;
    assert name[|ns| + 1] == ':';
    assert forall j :: 1 <= j < |ns| + 1 ==> name[j] == ns[j - 1];
    assert SecondColon(name, 1) == Some(|ns| + 1);
    assert name[1..|ns| + 1] == ns;
    assert name[|ns| + 2..] == local;
  }

  lemma SplitNamespaceShape(name: string)
    requires SplitNamespace(name).Some?
    ensures var (ns, local) := SplitNamespace(name).value;
            name == ":" + ns + ":" + local && |ns| > 0 && ':' !in ns && |local| > 0
  {
    var c := SecondColon(name, 1).value;
    assert name == name[..1] + name[1..c] + [name[c]] + name[c + 1..];
  }

  /** `NAMESPACE_URIS`. */
  function NamespaceUri(ns: string): Option<string>
  {
    if ns == "xlink" then Some("http://www.w3.org/1999/xlink")
    else if ns == "svg" then Some("http://www.w3.org/2000/svg")
    else if ns == "xhtml" then Some("http://www.w3.org/1999/xhtml")
    else None
  }

  /** A DOM call a renderer makes on an element; a namespace of `None` is undefined. */
  datatype DomCall =
    | SetAttribute(element: nat, name: string, value: string)
    | SetAttributeNS(element: nat, namespaceUri: Option<string>, name: string, value: string)
    | RemoveAttribute(element: nat, name: string)
    | RemoveAttributeNS(element: nat, namespaceUri: Option<string>, name: string)

  /**
   * `DomRenderer.setElementAttribute`: a `:ns:name` attribute is rewritten
   * to `ns:name` and set or removed in the namespace of `ns` when it has one;
   * a null or undefined value (`None`) removes the attribute. A namespaced
   * name that does not split throws.
   */
  function SetElementAttribute(element: nat, attributeName: string, attributeValue: Option<string>): (r: Result<DomCall, string>)
    ensures r.Failure? <==> IsNamespaced(attributeName) && SplitNamespace(attributeName).None?
    ensures r.Success? ==> (attributeValue.Some? <==> r.value.SetAttribute? || r.value.SetAttributeNS?)
    ensures r.Success? && attributeValue.Some? ==> r.value.value == attributeValue.value
    ensures r.Success? && !IsNamespaced(attributeName) ==>
              r.value == (if attributeValue.Some? then SetAttribute(element, attributeName, attributeValue.value)
                          else RemoveAttribute(element, attributeName))
  {
    if IsNamespaced(attributeName) then
      match SplitNamespace(attributeName)
      case None => Failure("TypeError: Cannot read property '1' of null")
      case Some((ns, local)) =>
        var qualified := ns + ":" + local;
        var attrNs := NamespaceUri(ns);
        if attributeValue.Some? then
          Success(if attrNs.Some? then SetAttributeNS(element, attrNs, qualified, attributeValue.value)
                  else SetAttribute(element, qualified, attributeValue.value))
        else
          Success(if attrNs.Some? then RemoveAttributeNS(element, attrNs, local)
                  else RemoveAttribute(element, qualified))
    else if attributeValue.Some? then Success(SetAttribute(element, attributeName, attributeValue.value))
    else Success(RemoveAttribute(element, attributeName))
  }

  /** For `:svg:href`-style names with a known namespace, the value sets `ns:name` and its absence removes the bare name. */
  lemma SetElementAttributeNamespaced(element: nat, ns: string, local: string, value: Option<string>)
    requires |ns| > 0 && ':' !in ns && NamespaceUri(ns).Some?
    requires |local| > 0 && forall j :: 0 <= j < |local| ==> !LineTerminator(local[j])
    ensures SetElementAttribute(element, ":" + ns + ":" + local, value) ==
            Success(if value.Some? then SetAttributeNS(element, NamespaceUri(ns), ns + ":" + local, value.value)
                    else RemoveAttributeNS(element, NamespaceUri(ns), local))
  {
    SplitNamespaceRoundTrip(ns, local);
  }

  /** `DefaultDomRendererV2.setAttribute`: a truthy namespace selects `setAttributeNS` with `ns:name`. */
  function SetAttributeV2(element: nat, name: string, value: string, namespace: Option<string>): (r: DomCall)
    ensures (namespace.Some? && namespace.value != "") <==> r.SetAttributeNS?
    ensures r.SetAttributeNS? ==> r.namespaceUri == NamespaceUri(namespace.value) && r.name == namespace.value + ":" + name
    ensures r.SetAttribute? ==> r == SetAttribute(element, name, value)
  {
    if namespace.Some? && namespace.value != "" then
      SetAttributeNS(element, NamespaceUri(namespace.value), namespace.value + ":" + name, value)
    else SetAttribute(element, name, value)
  }

  /** `DefaultDomRendererV2.removeAttribute`: a truthy namespace selects `removeAttributeNS` with the bare name. */
  function RemoveAttributeV2(element: nat, name: string, namespace: Option<string>): (r: DomCall)
    ensures (namespace.Some? && namespace.value != "") <==> r.RemoveAttributeNS?
    ensures r.RemoveAttributeNS? ==> r.namespaceUri == NamespaceUri(namespace.value) && r.name == name
    ensures r.RemoveAttribute? ==> r == RemoveAttribute(element, name)
  {
    if namespace.Some? && namespace.value != "" then RemoveAttributeNS(element, NamespaceUri(namespace.value), name)
    else RemoveAttribute(element, name)
  }

  /** What the wrapper of `decoratePreventDefault` does to the event after the handler returned `result`. */
  datatype EventEffect = EventEffect(preventDefault: bool, returnValueFalse: bool)

  /** `decoratePreventDefault(handler)(event)`: only a handler result `=== false` cancels the default. */
  function DecoratePreventDefault(result: JsValue): (e: EventEffect)
    ensures e.preventDefault <==> StrictEquals(result, Bool(false))
    ensures e.returnValueFalse == e.preventDefault
    ensures result == Undefined || result == Null || result == Num(0) || result == Str("") ==> !e.preventDefault
  {
    var cancel := result == Bool(false);
    EventEffect(cancel, cancel)
  }

  datatype ViewEncapsulation = Emulated | Native | NoEncapsulation

  /** `RenderComponentType` / `RendererTypeV2`: what the renderers read of it. */
  datatype ComponentType = ComponentType(id: string, encapsulation: ViewEncapsulation, styles: seq<Style>)

  /** A `DomRenderer`: its flattened styles and, for emulated encapsulation, its shim attributes; `serial` is its identity. */
  datatype DomRenderer = DomRenderer(serial: nat, styles: seq<string>, contentAttr: Option<string>, hostAttr: Option<string>)

  /** `DomRootRenderer`: the per-component renderer cache and the styles handed to the shared styles host. */
  class DomRootRenderer {
    const appId: string
    var registeredComponents: map<string, DomRenderer>
    var sharedStyles: seq<seq<string>>
    var created: nat

    constructor(appId: string)
      ensures this.appId == appId && registeredComponents == map[] && sharedStyles == [] && created == 0
    {
      this.appId := appId;
      registeredComponents := map[];
      sharedStyles := [];
      created := 0;
    }

    /**
     * `renderComponent(proto)`: the cached renderer for the component id, or
     * a new one whose style shim id is `appId-id`; a new renderer hands its
     * styles to the shared host unless the encapsulation is native.
     */
    method RenderComponent(proto: ComponentType) returns (r: DomRenderer)
      modifies this
      ensures old(proto.id in registeredComponents) ==>
                r == old(registeredComponents[proto.id]) && registeredComponents == old(registeredComponents) &&
                sharedStyles == old(sharedStyles) && created == old(created)
      ensures old(proto.id !in registeredComponents) ==>
                var shimId := appId + "-" + proto.id;
                r.serial == old(created) && created == old(created) + 1 &&
                r.styles == ShimAll(shimId, Leaves(proto.styles)) &&
                (proto.encapsulation == Emulated ==>
                  r.contentAttr == Some("_ngcontent-" + shimId) && r.hostAttr == Some("_nghost-" + shimId)) &&
                (proto.encapsulation != Emulated ==> r.contentAttr.None? && r.hostAttr.None?) &&
                sharedStyles == old(sharedStyles) + (if proto.encapsulation != Native then [r.styles] else []) &&
                registeredComponents == old(registeredComponents)[proto.id := r]
      ensures proto.id in registeredComponents && registeredComponents[proto.id] == r
    {
      if proto.id in registeredComponents {
        r := registeredComponents[proto.id];
      } else {
        var shimId := appId + "-" + proto.id;
        var styles := FlattenStyles(shimId, proto.styles, []);
        assert styles == ShimAll(shimId, Leaves(proto.styles));
        if proto.encapsulation != Native {
          sharedStyles := sharedStyles + [styles];
        }
        if proto.encapsulation == Emulated {
          r := DomRenderer(created, styles, Some(ShimContentAttribute(shimId)), Some(ShimHostAttribute(shimId)));
        } else {
          r := DomRenderer(created, styles, None, None);
        }
        created := created + 1;
        registeredComponents := registeredComponents[proto.id := r];
      }
    }
  }

  /** What `DomRendererFactoryV2.createRenderer` hands out. */
  datatype RendererV2 =
    | DefaultRenderer
    | EmulatedRenderer(serial: nat, contentAttr: string, hostAttr: string)
    | ShadowRenderer(serial: nat, host: nat, shadowStyles: seq<string>)

  /** `DomRendererFactoryV2`: the renderer cache by component id, the shared-styles log and the DOM calls made. */
  class DomRendererFactoryV2 {
    var rendererByCompId: map<string, RendererV2>
    var sharedStyles: seq<seq<string>>
    var shadowHosts: seq<nat>
    var calls: seq<DomCall>
    var created: nat

    constructor()
      ensures rendererByCompId == map[] && sharedStyles == [] && shadowHosts == [] && calls == [] && created == 0
    {
      rendererByCompId := map[];
      sharedStyles := [];
      shadowHosts := [];
      calls := [];
      created := 0;
    }

    /**
     * `createRenderer(element, type)`; `element` is the host element's id or
     * `None` for a missing one. An emulated renderer is cached per id and
     * marks the host with its host attribute on every request; a native one
     * is new each time; default encapsulation registers its styles on the
     * first request for an id. An id cached with the default renderer and
     * then asked for emulated encapsulation fails, because the default
     * renderer has no `applyToHost`.
     */
    method CreateRenderer(element: Option<nat>, componentType: Option<ComponentType>) returns (r: Result<RendererV2, string>)
      modifies this
      ensures element.None? || componentType.None? ==>
                r == Success(DefaultRenderer) && rendererByCompId == old(rendererByCompId) &&
                sharedStyles == old(sharedStyles) && calls == old(calls) && created == old(created) && shadowHosts == old(shadowHosts)
      ensures element.Some? && componentType.Some? && componentType.value.encapsulation == Emulated ==>
                var id := componentType.value.id;
                (old(id in rendererByCompId) && !old(rendererByCompId[id]).EmulatedRenderer? <==> r.Failure?) &&
                (old(id in rendererByCompId) && r.Success? ==> r.value == old(rendererByCompId[id]) && sharedStyles == old(sharedStyles)) &&
                (old(id !in rendererByCompId) ==>
                  r == Success(EmulatedRenderer(old(created), "_ngcontent-" + id, "_nghost-" + id)) &&
                  sharedStyles == old(sharedStyles) + [ShimAll(id, Leaves(componentType.value.styles))]) &&
                (r.Success? ==> r.value.EmulatedRenderer? && calls == old(calls) + [SetAttribute(element.value, r.value.hostAttr, "")] &&
                                rendererByCompId == old(rendererByCompId)[id := r.value]) &&
                (r.Failure? ==> calls == old(calls) && rendererByCompId == old(rendererByCompId) && sharedStyles == old(sharedStyles)) &&
                created == old(created) + (if old(id in rendererByCompId) then 0 else 1) && shadowHosts == old(shadowHosts)
      ensures element.Some? && componentType.Some? && componentType.value.encapsulation == Native ==>
                r == Success(ShadowRenderer(old(created), element.value, ShimAll(componentType.value.id, Leaves(componentType.value.styles)))) &&
                rendererByCompId == old(rendererByCompId) && shadowHosts == old(shadowHosts) + [element.value] &&
                sharedStyles == old(sharedStyles) && calls == old(calls) && created == old(created) + 1
      ensures element.Some? && componentType.Some? && componentType.value.encapsulation == NoEncapsulation ==>
                var id := componentType.value.id;
                r == Success(DefaultRenderer) && calls == old(calls) && created == old(created) && shadowHosts == old(shadowHosts) &&
                (old(id in rendererByCompId) ==> sharedStyles == old(sharedStyles) && rendererByCompId == old(rendererByCompId)) &&
                (old(id !in rendererByCompId) ==>
                  sharedStyles == old(sharedStyles) + [ShimAll(id, Leaves(componentType.value.styles))] &&
                  rendererByCompId == old(rendererByCompId)[id := DefaultRenderer])
    {
      if element.None? || componentType.None? {
        return Success(DefaultRenderer);
      }
      var t := componentType.value;
      match t.encapsulation {
        case Emulated =>
          r := CreateEmulated(element.value, t);
        case Native =>
          var styles := FlattenStyles(t.id, t.styles, []);
          assert styles == ShimAll(t.id, Leaves(t.styles));
          shadowHosts := shadowHosts + [element.value];
          var renderer := ShadowRenderer(created, element.value, styles);
          created := created + 1;
          return Success(renderer);
        case NoEncapsulation =>
          if t.id !in rendererByCompId {
            var styles := FlattenStyles(t.id, t.styles, []);
            assert styles == ShimAll(t.id, Leaves(t.styles));
            sharedStyles := sharedStyles + [styles];
            rendererByCompId := rendererByCompId[t.id := DefaultRenderer];
          }
          return Success(DefaultRenderer);
      }
    }

    /** The emulated-encapsulation case of createRenderer, for element `el` and component type `t`. */
    method CreateEmulated(el: nat, t: ComponentType) returns (r: Result<RendererV2, string>)
      requires t.encapsulation == Emulated
      modifies this
      ensures var id := t.id;
                (old(id in rendererByCompId) && !old(rendererByCompId[id]).EmulatedRenderer? <==> r.Failure?) &&
                (old(id in rendererByCompId) && r.Success? ==> r.value == old(rendererByCompId[id]) && sharedStyles == old(sharedStyles)) &&
                (old(id !in rendererByCompId) ==>
                  r == Success(EmulatedRenderer(old(created), "_ngcontent-" + id, "_nghost-" + id)) &&
                  sharedStyles == old(sharedStyles) + [ShimAll(id, Leaves(t.styles))]) &&
                (r.Success? ==> r.value.EmulatedRenderer? && calls == old(calls) + [SetAttribute(el, r.value.hostAttr, "")] &&
                                rendererByCompId == old(rendererByCompId)[id := r.value]) &&
                (r.Failure? ==> calls == old(calls) && rendererByCompId == old(rendererByCompId) && sharedStyles == old(sharedStyles)) &&
                created == old(created) + (if old(id in rendererByCompId) then 0 else 1) && shadowHosts == old(shadowHosts)
    {
      var renderer: RendererV2;
      if t.id in rendererByCompId {
        renderer := rendererByCompId[t.id];
      } else {
        var styles := FlattenStyles(t.id, t.styles, []);
        assert styles == ShimAll(t.id, Leaves(t.styles));
        sharedStyles := sharedStyles + [styles];
        renderer := EmulatedRenderer(created, ShimContentAttribute(t.id), ShimHostAttribute(t.id));
        created := created + 1;
        rendererByCompId := rendererByCompId[t.id := renderer];
      }
      if !renderer.EmulatedRenderer? {
        return Failure("TypeError: renderer.applyToHost is not a function");
      }
      calls := calls + [SetAttributeV2(el, renderer.hostAttr, "", None)];
      return Success(renderer);
    }
  }
}
