/**
 * Helpers of the compiler's view builder (view_builder.ts): attribute
 * merging for element creation, the ng-container climbs, the change
 * detection mode of a generated view, the order of the statements emitted
 * into `detectChangesInternal` and `destroyInternal`, and the anchor that
 * `getOrCreateLastRenderNode` appends.
 */
module ViewBuilder {
  import opened Wrappers
  import opened CompileViews

  const ClassAttr := "class"
  const StyleAttr := "style"
  const NgContainerTag := "ng-container"

  /**
   * `mergeAttributeValue`: `class` and `style` values are joined with a
   * space; for any other attribute the second value replaces the first.
   */
  function MergeAttributeValue(attrName: string, attrValue1: string, attrValue2: string): (r: string)
    ensures (attrName == ClassAttr || attrName == StyleAttr) ==>
              |r| == |attrValue1| + 1 + |attrValue2| && r[..|attrValue1|] == attrValue1 &&
              r[|attrValue1|] == ' ' && r[|attrValue1| + 1..] == attrValue2
    ensures !(attrName == ClassAttr || attrName == StyleAttr) ==> r == attrValue2
  {
    if attrName == ClassAttr || attrName == StyleAttr then attrValue1 + " " + attrValue2
    else attrValue2
  }

  /** An attribute of the template, or a host attribute of a directive. */
  datatype Attr = Attr(name: string, value: string)

  /**
   * A JavaScript object used as a string dictionary: its own keys in
   * insertion order (what `Object.keys` lists) and their values.
   */
  datatype StringDict = StringDict(keys: seq<string>, values: map<string, string>)

  /** Keys are listed once each, and exactly the keys that have values. */
  ghost predicate DictOk(d: StringDict)
  {
    (forall i, j :: 0 <= i < j < |d.keys| ==> d.keys[i] != d.keys[j]) &&
    (forall k :: k in d.values <==> k in d.keys)
  }

  /** `d[name] = value`: a new key goes to the end of the key order, an existing one keeps its place. */
  function Put(d: StringDict, name: string, value: string): (r: StringDict)
    ensures DictOk(d) ==> DictOk(r)
    ensures r.values == d.values[name := value]
  {
    StringDict(if name in d.values then d.keys else d.keys + [name], d.values[name := value])
  }

  const EmptyDict := StringDict([], map[])

  /** The dictionary `_readHtmlAttrs` builds from the first `n` attributes. */
  function AttrDict(attrs: seq<Attr>): (d: StringDict)
    ensures DictOk(d)
  {
    if |attrs| == 0 then EmptyDict
    else
      var last := attrs[|attrs| - 1];
      Put(AttrDict(attrs[..|attrs| - 1]), last.name, last.value)
  }

  /** `_readHtmlAttrs(attrs)`. */
  method ReadHtmlAttrs(attrs: seq<Attr>) returns (htmlAttrs: StringDict)
    ensures htmlAttrs == AttrDict(attrs)
  {
    htmlAttrs := EmptyDict;
    for i := 0 to |attrs|
      invariant htmlAttrs == AttrDict(attrs[..i])
    {
      assert attrs[..i + 1][..i] == attrs[..i];
      htmlAttrs := Put(htmlAttrs, attrs[i].name, attrs[i].value);
    }
    assert attrs[..|attrs|] == attrs;
  }

  /** A name is an attribute exactly when some attribute carries it. */
  lemma {:induction false} AttrDictKeys(attrs: seq<Attr>, name: string)
    ensures name in AttrDict(attrs).values <==> exists k :: 0 <= k < |attrs| && attrs[k].name == name
  {
    if |attrs| > 0 {
      var init := attrs[..|attrs| - 1];
      AttrDictKeys(init, name);
      if name in AttrDict(init).values {
        var k :| 0 <= k < |init| && init[k].name == name;
        assert attrs[k].name == name;
      }
      if exists k :: 0 <= k < |attrs| && attrs[k].name == name {
        var k :| 0 <= k < |attrs| && attrs[k].name == name;
        if k < |init| {
          assert init[k].name == name;
        }
      }
    }
  }

  /** A repeated attribute keeps the value of its last occurrence. */
  lemma {:induction false} AttrDictLastWins(attrs: seq<Attr>, j: nat)
    requires j < |attrs|
    requires forall k :: j < k < |attrs| ==> attrs[k].name != attrs[j].name
    ensures attrs[j].name in AttrDict(attrs).values
    ensures AttrDict(attrs).values[attrs[j].name] == attrs[j].value
  {
    var init := attrs[..|attrs| - 1];
    if j < |attrs| - 1 {
      assert init[j] == attrs[j];
      AttrDictLastWins(init, j);
    }
  }

  /** One host attribute merged into the dictionary: a present value is merged with `MergeAttributeValue`. */
  function MergeEntry(d: StringDict, e: Attr): StringDict
  {
    Put(d, e.name, if e.name in d.values then MergeAttributeValue(e.name, d.values[e.name], e.value) else e.value)
  }

  /** A directive's host attributes merged one after the other. */
  function MergeHost(d: StringDict, host: seq<Attr>): StringDict
  {
    if |host| == 0 then d else MergeEntry(MergeHost(d, host[..|host| - 1]), host[|host| - 1])
  }

  /** The dictionary `_mergeHtmlAndDirectiveAttrs` fills: the HTML attributes, then each directive's host attributes. */
  function MergedDict(declared: StringDict, directives: seq<seq<Attr>>): StringDict
  {
    if |directives| == 0 then declared
    else MergeHost(MergedDict(declared, directives[..|directives| - 1]), directives[|directives| - 1])
  }

  /** Merging keeps the dictionary well formed, and a name ends up in it exactly when it was declared or some host attribute names it. */
  lemma {:induction false} MergeHostKeys(d: StringDict, host: seq<Attr>, name: string)
    requires DictOk(d)
    ensures DictOk(MergeHost(d, host))
    ensures name in MergeHost(d, host).values <==>
            name in d.values || exists k :: 0 <= k < |host| && host[k].name == name
  {
    if |host| > 0 {
      var init := host[..|host| - 1];
      MergeHostKeys(d, init, name);
      if exists k :: 0 <= k < |init| && init[k].name == name {
        var k :| 0 <= k < |init| && init[k].name == name;
        assert host[k].name == name;
      }
      if exists k :: 0 <= k < |host| && host[k].name == name {
        var k :| 0 <= k < |host| && host[k].name == name;
        if k < |init| {
          assert init[k].name == name;
        }
      }
    }
  }

  /** The merged dictionary is well formed and holds exactly the declared names and every directive's host attribute names. */
  lemma {:induction false} MergedDictKeys(declared: StringDict, directives: seq<seq<Attr>>, name: string)
    requires DictOk(declared)
    ensures DictOk(MergedDict(declared, directives))
    ensures name in MergedDict(declared, directives).values <==>
            name in declared.values ||
            exists i, k :: 0 <= i < |directives| && 0 <= k < |directives[i]| && directives[i][k].name == name
  {
    if |directives| > 0 {
      var init := directives[..|directives| - 1];
      var last := directives[|directives| - 1];
      MergedDictKeys(declared, init, name);
      MergeHostKeys(MergedDict(declared, init), last, name);
      if exists i, k :: 0 <= i < |init| && 0 <= k < |init[i]| && init[i][k].name == name {
        var i, k :| 0 <= i < |init| && 0 <= k < |init[i]| && init[i][k].name == name;
        assert directives[i][k].name == name;
      }
      if exists k :: 0 <= k < |last| && last[k].name == name {
        var k :| 0 <= k < |last| && last[k].name == name;
        assert directives[|directives| - 1][k].name == name;
      }
      if exists i, k :: 0 <= i < |directives| && 0 <= k < |directives[i]| && directives[i][k].name == name {
        var i, k :| 0 <= i < |directives| && 0 <= k < |directives[i]| && directives[i][k].name == name;
        if i < |init| {
          assert init[i][k].name == name;
        } else {
          assert last[k].name == name;
        }
      }
    }
  }

  /** Merging an attribute present on both sides: `class` and `style` keep both values, anything else takes the directive's. */
  lemma MergeEntryValue(d: StringDict, e: Attr)
    requires e.name in d.values
    ensures var v := MergeEntry(d, e).values[e.name];
            if e.name == ClassAttr || e.name == StyleAttr then v == d.values[e.name] + " " + e.value else v == e.value
  {
  }

  /** The default order of `Array.prototype.sort` on strings: code-unit-wise lexicographic. */
  predicate Less(a: string, b: string)
    decreases |a|
  {
    |b| > 0 && (|a| == 0 || a[0] < b[0] || (a[0] == b[0] && Less(a[1..], b[1..])))
  }

  lemma {:induction false} LessIrreflexive(a: string)
    ensures !Less(a, a)
    decreases |a|
  {
    if |a| > 0 {
      LessIrreflexive(a[1..]);
    }
  }

  lemma {:induction false} LessTotal(a: string, b: string)
    requires a != b
    ensures Less(a, b) || Less(b, a)
    decreases |a|
  {
    if |a| > 0 && |b| > 0 && a[0] == b[0] {
      assert a == [a[0]] + a[1..] && b == [b[0]] + b[1..];
      LessTotal(a[1..], b[1..]);
    }
  }

  lemma {:induction false} LessTransitive(a: string, b: string, c: string)
    requires Less(a, b) && Less(b, c)
    ensures Less(a, c)
    decreases |a|
  {
    if |a| > 0 && a[0] == b[0] && b[0] == c[0] {
      LessTransitive(a[1..], b[1..], c[1..]);
    }
  }

  /** Each name is below the next one. */
  predicate Ascending(s: seq<string>)
  {
    forall i :: 0 < i < |s| ==> Less(s[i - 1], s[i])
  }

  /** An ascending list is strictly increasing throughout, so it lists no name twice. */
  lemma {:induction false} AscendingStrict(s: seq<string>, i: nat, j: nat)
    requires Ascending(s) && i < j < |s|
    ensures Less(s[i], s[j]) && s[i] != s[j]
    decreases j - i
  {
    if i + 1 < j {
      AscendingStrict(s, i + 1, j);
      LessTransitive(s[i], s[i + 1], s[j]);
    }
    if s[i] == s[j] {
      LessIrreflexive(s[i]);
    }
  }

  /** Putting `x` between its neighbours keeps a list ascending. */
  lemma InsertAscending(s: seq<string>, p: nat, x: string)
    requires Ascending(s) && p <= |s|
    requires p > 0 ==> Less(s[p - 1], x)
    requires p < |s| ==> Less(x, s[p])
    ensures Ascending(s[..p] + [x] + s[p..])
  {
    var r := s[..p] + [x] + s[p..];
    forall i | 0 < i < |r|
      ensures Less(r[i - 1], r[i])
    {
      if i < p {
        assert r[i - 1] == s[i - 1] && r[i] == s[i];
      } else if i > p + 1 {
        assert r[i - 1] == s[i - 2] && r[i] == s[i - 1];
      }
    }
  }

  /** Puts `x` into an ascending list at its place. */
  method InsertSorted(s: seq<string>, x: string) returns (r: seq<string>)
    requires Ascending(s) && x !in s
    ensures Ascending(r)
    ensures multiset(r) == multiset(s) + multiset{x}
  {
    var p := 0;
    while p < |s| && Less(s[p], x)
      invariant p <= |s|
      invariant p > 0 ==> Less(s[p - 1], x)
    {
      p := p + 1;
    }
    if p < |s| {
      assert s[p] != x;
      LessTotal(s[p], x);
    }
    InsertAscending(s, p, x);
    r := s[..p] + [x] + s[p..];
    assert s == s[..p] + s[p..];
  }

  /** `keys.sort()` on distinct keys. */
  method SortNames(keys: seq<string>) returns (sorted: seq<string>)
    requires forall i, j :: 0 <= i < j < |keys| ==> keys[i] != keys[j]
    ensures Ascending(sorted)
    ensures multiset(sorted) == multiset(keys)
  {
    sorted := [];
    for i := 0 to |keys|
      invariant Ascending(sorted)
      invariant multiset(sorted) == multiset(keys[..i])
    {
      assert forall k :: 0 <= k < i ==> keys[..i][k] != keys[i];
      assert keys[i] !in keys[..i];
      assert keys[i] !in multiset(sorted);
      sorted := InsertSorted(sorted, keys[i]);
      assert keys[..i + 1] == keys[..i] + [keys[i]];
    }
    assert keys[..|keys|] == keys;
  }

  /** The flat `[name, value, ...]` list for the given names. */
  function Flatten(names: seq<string>, values: map<string, string>): (r: seq<string>)
    requires forall k :: 0 <= k < |names| ==> names[k] in values
    ensures |r| == 2 * |names|
    ensures forall k :: 0 <= k < |names| ==> r[2 * k] == names[k] && r[2 * k + 1] == values[names[k]]
  {
    if |names| == 0 then []
    else Flatten(names[..|names| - 1], values) + [names[|names| - 1], values[names[|names| - 1]]]
  }

  /** The names of a flat `[name, value, ...]` list: its items at even positions. */
  function NamesOf(r: seq<string>): (ns: seq<string>)
    ensures |ns| == |r| / 2 && forall k :: 0 <= k < |ns| ==> ns[k] == r[2 * k]
  {
    seq(|r| / 2, k requires 0 <= k < |r| / 2 => r[2 * k])
  }

  /** The flat list over sorted names holds each name once, in order, followed by its value. */
  lemma FlatListShape(names: seq<string>, d: StringDict)
    requires forall k :: 0 <= k < |names| ==> names[k] in d.values
    ensures var r := Flatten(names, d.values);
            |r| % 2 == 0 && NamesOf(r) == names &&
            forall k :: 0 <= k < |r| / 2 ==> r[2 * k] in d.values && r[2 * k + 1] == d.values[r[2 * k]]
  {
    var r := Flatten(names, d.values);
    assert |r| / 2 == |names|;
    assert NamesOf(r) == names;
  }

  /** The two `forEach` loops of `_mergeHtmlAndDirectiveAttrs` that fill `mapResult`. */
  method MergeInto(declaredHtmlAttrs: StringDict, directives: seq<seq<Attr>>) returns (mapResult: StringDict)
    requires DictOk(declaredHtmlAttrs)
    ensures mapResult == MergedDict(declaredHtmlAttrs, directives)
  {
    mapResult := declaredHtmlAttrs;
    for i := 0 to |directives|
      invariant mapResult == MergedDict(declaredHtmlAttrs, directives[..i])
    {
      var host := directives[i];
      assert directives[..i + 1][..i] == directives[..i];
      for j := 0 to |host|
        invariant mapResult == MergeHost(MergedDict(declaredHtmlAttrs, directives[..i]), host[..j])
      {
        assert host[..j + 1][..j] == host[..j];
        var name := host[j].name;
        var value := host[j].value;
        var present := name in mapResult.values;
        mapResult := Put(mapResult, name, if present then MergeAttributeValue(name, mapResult.values[name], value) else value);
      }
      assert host[..|host|] == host;
    }
    assert directives[..|directives|] == directives;
  }

  /** The last loop of `_mergeHtmlAndDirectiveAttrs`: each name pushed with its value. */
  method PushPairs(names: seq<string>, values: map<string, string>) returns (r: seq<string>)
    requires forall k :: 0 <= k < |names| ==> names[k] in values
    ensures r == Flatten(names, values)
  {
    r := [];
    for i := 0 to |names|
      invariant r == Flatten(names[..i], values)
    {
      assert names[..i + 1][..i] == names[..i];
      r := r + [names[i], values[names[i]]];
    }
    assert names[..|names|] == names;
  }

  /**
   * `_mergeHtmlAndDirectiveAttrs(declaredHtmlAttrs, directives)`, each
   * directive given by its host attributes: the merged dictionary flattened
   * over its names in sorted order, each name once.
   */
  method MergeHtmlAndDirectiveAttrs(declaredHtmlAttrs: StringDict, directives: seq<seq<Attr>>)
    returns (r: seq<string>)
    requires DictOk(declaredHtmlAttrs)
    ensures var merged := MergedDict(declaredHtmlAttrs, directives);
            |r| % 2 == 0 &&
            Ascending(NamesOf(r)) && multiset(NamesOf(r)) == multiset(merged.keys) &&
            forall k :: 0 <= k < |r| / 2 ==> r[2 * k] in merged.values && r[2 * k + 1] == merged.values[r[2 * k]]
  {
    var mapResult := MergeInto(declaredHtmlAttrs, directives);
    MergedDictKeys(declaredHtmlAttrs, directives, "");
    var sortedNames := SortNames(mapResult.keys);
    forall k | 0 <= k < |sortedNames|
      ensures sortedNames[k] in mapResult.values
    {
      assert sortedNames[k] in multiset(mapResult.keys);
    }
    r := PushPairs(sortedNames, mapResult.values);
    FlatListShape(sortedNames, mapResult);
  }

  /** A node of the template being compiled: its tag name (empty for text), its view, and its parent (`None` is the null element). */
  datatype CompileNode = CompileNode(name: string, view: nat, parent: Option<CompileNode>)

  /** `_isNgContainer(node, view)`. */
  predicate IsNgContainer(node: Option<CompileNode>, view: nat)
  {
    node.Some? && node.value.name == NgContainerTag && node.value.view == view
  }

  /** Where the climb of `_getOuterContainerOrSelf` ends. */
  function OuterContainerFrom(node: CompileNode, view: nat): CompileNode
    decreases node
  {
    if IsNgContainer(node.parent, view) then OuterContainerFrom(node.parent.value, view) else node
  }

  /** `node` is `a` or lies below it. */
  predicate AncestorOrSelf(a: CompileNode, node: CompileNode)
    decreases node
  {
    a == node || (node.parent.Some? && AncestorOrSelf(a, node.parent.value))
  }

  /** `_getOuterContainerOrSelf(node)`. */
  method GetOuterContainerOrSelf(node: CompileNode) returns (r: CompileNode)
    ensures r == OuterContainerFrom(node, node.view)
  {
    var view := node.view;
    r := node;
    while IsNgContainer(r.parent, view)
      invariant OuterContainerFrom(r, view) == OuterContainerFrom(node, view)
      decreases r
    {
      r := r.parent.value;
    }
  }

  /**
   * The climb stops at the node itself or at an ancestor whose parent is not
   * an ng-container of the view, and it moves exactly when the node's parent
   * is one.
   */
  lemma {:induction false} OuterContainerStops(node: CompileNode, view: nat)
    ensures AncestorOrSelf(OuterContainerFrom(node, view), node)
    ensures !IsNgContainer(OuterContainerFrom(node, view).parent, view)
    ensures OuterContainerFrom(node, view) == node <==> !IsNgContainer(node.parent, view)
    decreases node
  {
    if IsNgContainer(node.parent, view) {
      OuterContainerStops(node.parent.value, view);
      AncestorBelow(OuterContainerFrom(node, view), node.parent.value);
    }
  }

  /** An ancestor of a node is a strictly smaller value than any node below it. */
  lemma {:induction false} AncestorBelow(a: CompileNode, node: CompileNode)
    requires AncestorOrSelf(a, node)
    ensures a == node || a < node
    decreases node
  {
    if a != node {
      AncestorBelow(a, node.parent.value);
    }
  }

  /** Where the climb of `_getOuterContainerParentOrSelf` ends. */
  function OuterContainerParentFrom(el: Option<CompileNode>, view: nat): Option<CompileNode>
    decreases el
  {
    if IsNgContainer(el, view) then OuterContainerParentFrom(el.value.parent, view) else el
  }

  /** `_getOuterContainerParentOrSelf(el)`; `None` is the null element, whose own climb is empty. */
  method GetOuterContainerParentOrSelf(el: Option<CompileNode>) returns (r: Option<CompileNode>)
    ensures el.Some? ==> r == OuterContainerParentFrom(el, el.value.view)
    ensures el.None? ==> r == el
  {
    if el.None? {
      return el;
    }
    var view := el.value.view;
    r := el;
    while IsNgContainer(r, view)
      invariant OuterContainerParentFrom(r, view) == OuterContainerParentFrom(el, view)
      decreases r
    {
      r := r.value.parent;
    }
  }

  /** The climb ends at the first node that is not an ng-container of the view, and stays put exactly when `el` is not one. */
  lemma {:induction false} OuterContainerParentStops(el: Option<CompileNode>, view: nat)
    ensures !IsNgContainer(OuterContainerParentFrom(el, view), view)
    ensures OuterContainerParentFrom(el, view) == el <==> !IsNgContainer(el, view)
    ensures OuterContainerParentFrom(el, view).Some? ==> el.Some? && AncestorOrSelf(OuterContainerParentFrom(el, view).value, el.value)
    decreases el
  {
    if IsNgContainer(el, view) {
      OuterContainerParentStops(el.value.parent, view);
      var r := OuterContainerParentFrom(el, view);
      if r.Some? {
        AncestorBelow(r.value, el.value.parent.value);
        assert r.value != el.value;
      }
    }
  }

  datatype ChangeDetectorStatus = CheckOnce | CheckAlways

  /** `getChangeDetectionMode(view)`: `isDefaultStrategy` is whether the component uses the default strategy. */
  function GetChangeDetectionMode(viewType: ViewType, isDefaultStrategy: bool): (mode: ChangeDetectorStatus)
    ensures mode == CheckOnce <==> viewType == Component && !isDefaultStrategy
  {
    if viewType == Component then (if isDefaultStrategy then CheckAlways else CheckOnce)
    else CheckAlways
  }

  /** A generated statement: one finished by a compile method, a call on a view container or child view, the anchor creation, or a block run only when `throwOnChange` is false. */
  datatype Stmt =
    | Emitted(id: nat)
    | CallMethod(receiver: string, methodName: string, passesThrowOnChange: bool)
    | CreateAnchor(field: string)
    | IfNotThrowOnChange(body: seq<Stmt>)

  /** The parts of a compiled view the two generators read: the finished compile methods, the view containers and the child component views. */
  datatype ViewParts = ViewParts(
    animationBindings: seq<Stmt>,
    detectChangesInInputs: seq<Stmt>,
    updateContentQueries: seq<Stmt>,
    afterContentLifecycleCallbacks: seq<Stmt>,
    detectChangesRenderProperties: seq<Stmt>,
    updateViewQueries: seq<Stmt>,
    afterViewLifecycleCallbacks: seq<Stmt>,
    destroy: seq<Stmt>,
    viewContainers: seq<string>,
    viewChildren: seq<string>)

  /** Every method is empty and there are no view containers and no child views. */
  predicate NothingToDetect(v: ViewParts)
  {
    v.animationBindings == [] && v.detectChangesInInputs == [] && v.updateContentQueries == [] &&
    v.afterContentLifecycleCallbacks == [] && v.detectChangesRenderProperties == [] &&
    v.updateViewQueries == [] && v.afterViewLifecycleCallbacks == [] &&
    v.viewContainers == [] && v.viewChildren == []
  }

  /** One call per receiver, in order. */
  function Calls(receivers: seq<string>, methodName: string, passesThrowOnChange: bool): (r: seq<Stmt>)
    ensures |r| == |receivers|
    ensures forall k :: 0 <= k < |r| ==> r[k] == CallMethod(receivers[k], methodName, passesThrowOnChange)
  {
    seq(|receivers|, k requires 0 <= k < |receivers| => CallMethod(receivers[k], methodName, passesThrowOnChange))
  }

  /** The block guarded by `!throwOnChange`, left out when it would be empty. */
  function Guarded(stmts: seq<Stmt>): seq<Stmt>
  {
    if |stmts| > 0 then [IfNotThrowOnChange(stmts)] else []
  }

  /** The statements `generateDetectChangesMethod` collects before the shared binding variables. */
  function DetectChangesBody(v: ViewParts): seq<Stmt>
  {
    v.animationBindings + v.detectChangesInInputs +
    Calls(v.viewContainers, "detectChangesInNestedViews", true) +
    Guarded(v.updateContentQueries + v.afterContentLifecycleCallbacks) +
    v.detectChangesRenderProperties +
    Calls(v.viewChildren, "internalDetectChanges", true) +
    Guarded(v.updateViewQueries + v.afterViewLifecycleCallbacks)
  }

  /**
   * `generateDetectChangesMethod(view)`; `sharedVariables` stands for
   * `legacyCreateSharedBindingVariablesIfNeeded`, whose declarations go first.
   */
  method GenerateDetectChangesMethod(v: ViewParts, sharedVariables: seq<Stmt> -> seq<Stmt>) returns (r: seq<Stmt>)
    ensures NothingToDetect(v) ==> r == []
    ensures !NothingToDetect(v) ==> r == sharedVariables(DetectChangesBody(v)) + DetectChangesBody(v)
  {
    if NothingToDetect(v) {
      return [];
    }
    var stmts := v.animationBindings + v.detectChangesInInputs;
    var prefix := stmts;
    for k := 0 to |v.viewContainers|
      invariant stmts == prefix + Calls(v.viewContainers[..k], "detectChangesInNestedViews", true)
    {
      stmts := stmts + [CallMethod(v.viewContainers[k], "detectChangesInNestedViews", true)];
    }
    assert v.viewContainers[..|v.viewContainers|] == v.viewContainers;
    var afterContentStmts := v.updateContentQueries + v.afterContentLifecycleCallbacks;
    if |afterContentStmts| > 0 {
      stmts := stmts + [IfNotThrowOnChange(afterContentStmts)];
    }
    stmts := stmts + v.detectChangesRenderProperties;
    prefix := stmts;
    for k := 0 to |v.viewChildren|
      invariant stmts == prefix + Calls(v.viewChildren[..k], "internalDetectChanges", true)
    {
      stmts := stmts + [CallMethod(v.viewChildren[k], "internalDetectChanges", true)];
    }
    assert v.viewChildren[..|v.viewChildren|] == v.viewChildren;
    var afterViewStmts := v.updateViewQueries + v.afterViewLifecycleCallbacks;
    if |afterViewStmts| > 0 {
      stmts := stmts + [IfNotThrowOnChange(afterViewStmts)];
    }
    assert stmts == DetectChangesBody(v);
    r := sharedVariables(stmts) + stmts;
  }

  /** The early return loses nothing: the collected statements are empty exactly when every part is. */
  lemma DetectChangesBodyEmpty(v: ViewParts)
    ensures DetectChangesBody(v) == [] <==> NothingToDetect(v)
  {
    if DetectChangesBody(v) == [] {
      assert |Calls(v.viewContainers, "detectChangesInNestedViews", true)| == 0;
      assert |Calls(v.viewChildren, "internalDetectChanges", true)| == 0;
    }
  }

  /** Where the nested-view call of the `k`-th view container sits. */
  function NestedViewsAt(v: ViewParts, k: nat): nat
  {
    |v.animationBindings| + |v.detectChangesInInputs| + k
  }

  /** Where the render-property statements start. */
  function RenderPropertiesAt(v: ViewParts): nat
  {
    NestedViewsAt(v, |v.viewContainers|) + |Guarded(v.updateContentQueries + v.afterContentLifecycleCallbacks)|
  }

  /** Where the internal-detect call of the `m`-th child view sits. */
  function ViewChildAt(v: ViewParts, m: nat): nat
  {
    RenderPropertiesAt(v) + |v.detectChangesRenderProperties| + m
  }

  /** The `k`-th view container's nested views are checked right after the animations and the inputs. */
  lemma DetectChangesNested(v: ViewParts, k: nat)
    requires k < |v.viewContainers|
    ensures NestedViewsAt(v, k) < |DetectChangesBody(v)|
    ensures DetectChangesBody(v)[NestedViewsAt(v, k)] == CallMethod(v.viewContainers[k], "detectChangesInNestedViews", true)
  {
    var p1 := v.animationBindings + v.detectChangesInInputs;
    var nested := Calls(v.viewContainers, "detectChangesInNestedViews", true);
    var rest := Guarded(v.updateContentQueries + v.afterContentLifecycleCallbacks) + v.detectChangesRenderProperties +
                Calls(v.viewChildren, "internalDetectChanges", true) +
                Guarded(v.updateViewQueries + v.afterViewLifecycleCallbacks);
    assert DetectChangesBody(v) == p1 + nested + rest;
    assert (p1 + nested + rest)[|p1| + k] == nested[k];
  }

  /**
   * The `m`-th child view is checked after every nested-view check, the
   * after-content block and the render properties.
   */
  lemma DetectChangesChild(v: ViewParts, m: nat)
    requires m < |v.viewChildren|
    ensures ViewChildAt(v, m) < |DetectChangesBody(v)|
    ensures DetectChangesBody(v)[ViewChildAt(v, m)] == CallMethod(v.viewChildren[m], "internalDetectChanges", true)
    ensures forall k :: 0 <= k < |v.viewContainers| ==> NestedViewsAt(v, k) < ViewChildAt(v, m)
  {
    var front := v.animationBindings + v.detectChangesInInputs +
                 Calls(v.viewContainers, "detectChangesInNestedViews", true) +
                 Guarded(v.updateContentQueries + v.afterContentLifecycleCallbacks) +
                 v.detectChangesRenderProperties;
    var children := Calls(v.viewChildren, "internalDetectChanges", true);
    var back := Guarded(v.updateViewQueries + v.afterViewLifecycleCallbacks);
    assert DetectChangesBody(v) == front + children + back;
    assert |front| == ViewChildAt(v, 0);
    assert (front + children + back)[|front| + m] == children[m];
  }

  /**
   * The animations come first; the after-content block, when there is one,
   * follows the nested-view checks and holds the content-query updates
   * before the after-content hooks; the after-view block, when there is
   * one, comes last and holds the view-query updates before the after-view
   * hooks.
   */
  lemma DetectChangesGuards(v: ViewParts)
    ensures var b := DetectChangesBody(v);
      b[..|v.animationBindings|] == v.animationBindings &&
      (|v.updateContentQueries + v.afterContentLifecycleCallbacks| > 0 ==>
         NestedViewsAt(v, |v.viewContainers|) < |b| &&
         b[NestedViewsAt(v, |v.viewContainers|)] == IfNotThrowOnChange(v.updateContentQueries + v.afterContentLifecycleCallbacks)) &&
      (|v.updateViewQueries + v.afterViewLifecycleCallbacks| > 0 ==>
         b[|b| - 1] == IfNotThrowOnChange(v.updateViewQueries + v.afterViewLifecycleCallbacks))
  {
    var p1 := v.animationBindings + v.detectChangesInInputs + Calls(v.viewContainers, "detectChangesInNestedViews", true);
    var ac := Guarded(v.updateContentQueries + v.afterContentLifecycleCallbacks);
    var mid := v.detectChangesRenderProperties + Calls(v.viewChildren, "internalDetectChanges", true);
    var av := Guarded(v.updateViewQueries + v.afterViewLifecycleCallbacks);
    var b := DetectChangesBody(v);
    assert b == p1 + ac + mid + av;
    assert |p1| == NestedViewsAt(v, |v.viewContainers|);
    assert b[..|v.animationBindings|] == v.animationBindings;
    if |ac| > 0 {
      assert (p1 + ac + mid + av)[|p1|] == ac[0];
    }
  }

  /**
   * `generateDestroyMethod(view)`: the view containers' `destroyNestedViews`
   * calls, then the child views' `destroy` calls, then the view's own
   * destroy statements.
   */
  method GenerateDestroyMethod(v: ViewParts) returns (r: seq<Stmt>)
    ensures |r| == |v.viewContainers| + |v.viewChildren| + |v.destroy|
    ensures forall k :: 0 <= k < |v.viewContainers| ==> r[k] == CallMethod(v.viewContainers[k], "destroyNestedViews", false)
    ensures forall m :: 0 <= m < |v.viewChildren| ==> r[|v.viewContainers| + m] == CallMethod(v.viewChildren[m], "destroy", false)
    ensures r[|v.viewContainers| + |v.viewChildren|..] == v.destroy
  {
    r := [];
    for k := 0 to |v.viewContainers|
      invariant r == Calls(v.viewContainers[..k], "destroyNestedViews", false)
    {
      r := r + [CallMethod(v.viewContainers[k], "destroyNestedViews", false)];
    }
    assert v.viewContainers[..|v.viewContainers|] == v.viewContainers;
    for m := 0 to |v.viewChildren|
      invariant |r| == |v.viewContainers| + m
      invariant r[..|v.viewContainers|] == Calls(v.viewContainers, "destroyNestedViews", false)
      invariant r[|v.viewContainers|..] == Calls(v.viewChildren[..m], "destroy", false)
    {
      r := r + [CallMethod(v.viewChildren[m], "destroy", false)];
    }
    assert v.viewChildren[..|v.viewChildren|] == v.viewChildren;
    r := r + v.destroy;
    forall k | 0 <= k < |v.viewContainers|
      ensures r[k] == CallMethod(v.viewContainers[k], "destroyNestedViews", false)
    {
      assert r[k] == r[..|v.viewContainers|][k];
    }
  }

  datatype RootNodeType = Node | ViewContainer | NgContent

  /** A root node of a view: its kind and the field holding it. */
  datatype RootNode = RootNode(nodeType: RootNodeType, expr: string)

  /** Decimal digits of `n`, as a template literal prints it. */
  function DecimalString(n: nat): string
  {
    if n < 10 then [['0', '1', '2', '3', '4', '5', '6', '7', '8', '9'][n]]
    else DecimalString(n / 10) + DecimalString(n % 10)
  }

  /** The lists a `CompileView` grows while `ViewBuilderVisitor` visits its template. */
  class ViewUnderConstruction {
    var nodeCount: nat
    var fields: seq<string>
    var createStmts: seq<Stmt>
    var rootNodes: seq<RootNode>

    constructor()
      ensures nodeCount == 0 && fields == [] && createStmts == [] && rootNodes == []
    {
      nodeCount := 0;
      fields := [];
      createStmts := [];
      rootNodes := [];
    }

    /** The last root node is a plain node. */
    predicate EndsWithNode()
      reads this
    {
      |rootNodes| > 0 && rootNodes[|rootNodes| - 1].nodeType == Node
    }

    /**
     * `getOrCreateLastRenderNode()`: unless the last root node is a plain
     * node, a template anchor `_el_<nodes.length>` is declared, created and
     * appended as a root node; the last root node's expression is returned.
     */
    method GetOrCreateLastRenderNode() returns (e: string)
      modifies this
      ensures EndsWithNode() && e == rootNodes[|rootNodes| - 1].expr
      ensures nodeCount == old(nodeCount)
      ensures old(EndsWithNode()) ==>
                rootNodes == old(rootNodes) && fields == old(fields) && createStmts == old(createStmts)
      ensures !old(EndsWithNode()) ==>
                var fieldName := "_el_" + DecimalString(nodeCount);
                fields == old(fields) + [fieldName] &&
                createStmts == old(createStmts) + [CreateAnchor(fieldName)] &&
                rootNodes == old(rootNodes) + [RootNode(Node, fieldName)]
    {
      if !EndsWithNode() {
        var fieldName := "_el_" + DecimalString(nodeCount);
        fields := fields + [fieldName];
        createStmts := createStmts + [CreateAnchor(fieldName)];
        rootNodes := rootNodes + [RootNode(Node, fieldName)];
      }
      e := rootNodes[|rootNodes| - 1].expr;
    }
  }
}
