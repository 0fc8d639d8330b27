/**
 * The shapes of the view runtime (core/src/view/types.ts): bit masks, node
 * definitions and view definitions.  One node datatype covers every field the
 * definition builder, the provider code and the debug services read or write,
 * including the ones types.ts does not declare (a node's parent, the provider
 * tables of an element, the Directive and Pipe node types and the flag bits
 * PrivateProvider, TypeElement, TypeText, TypeDirective, CatProvider,
 * CatRenderNode, CatPureExpression, HasStaticQuery and HasDynamicQuery).
 */
module ViewTypes {
  import opened Wrappers

  /** JavaScript bit operations work on 32-bit integers. */
  type Flags = bv32

  /** A bit position in a 32-bit word. */
  type BitPos = bv5

  /** The mask with only bit `k` set (`1 << k`). */
  function Bit(k: BitPos): Flags
  {
    (1 as bv32) << (k as bv32)
  }

  /** `flags & mask` taken as a condition, as the runtime writes it. */
  predicate Has(flags: Flags, mask: Flags)
  {
    flags & mask != 0
  }

  // NodeFlags, bits 0..12 as types.ts declares them.
  const NoFlags: Flags := 0
  const OnInit: Flags := 0x1
  const OnDestroy: Flags := 0x2
  const DoCheck: Flags := 0x4
  const OnChanges: Flags := 0x8
  const AfterContentInit: Flags := 0x10
  const AfterContentChecked: Flags := 0x20
  const AfterViewInit: Flags := 0x40
  const AfterViewChecked: Flags := 0x80
  const HasEmbeddedViews: Flags := 0x100
  const HasComponent: Flags := 0x200
  const HasContentQuery: Flags := 0x400
  const HasViewQuery: Flags := 0x800
  const LazyProvider: Flags := 0x1000
  // NodeFlags the runtime uses without types.ts declaring them: free bits.
  const PrivateProvider: Flags := 0x2000
  const TypeElement: Flags := 0x4000
  const TypeText: Flags := 0x8000
  const TypeDirective: Flags := 0x10000
  const CatProvider: Flags := 0x20000
  const CatRenderNode: Flags := 0x40000
  const CatPureExpression: Flags := 0x80000
  const HasStaticQuery: Flags := 0x100000
  const HasDynamicQuery: Flags := 0x200000

  // DepFlags; Value is used by resolveDep but not declared in types.ts.
  const DepNone: Flags := 0
  const SkipSelf: Flags := 0x1
  const Optional: Flags := 0x2
  const Value: Flags := 0x8

  // ViewFlags.
  const ViewNone: Flags := 0
  const DirectDom: Flags := 0x2
  const OnPush: Flags := 0x4

  // ViewState.
  const FirstCheck: Flags := 0x1
  const ChecksEnabled: Flags := 0x2
  const Errored: Flags := 0x4
  const Destroyed: Flags := 0x8

  /** The hooks callProviderLifecycles dispatches on. */
  const LifecycleHooks: Flags :=
    AfterContentInit | AfterContentChecked | AfterViewInit | AfterViewChecked | OnDestroy

  /** A bit mask is never empty. */
  lemma BitNonZero(k: BitPos)
    ensures Bit(k) != 0
  {
  }

  /** A bit mask is a single bit: clearing its lowest set bit leaves nothing. */
  lemma BitSingle(k: BitPos)
    ensures Bit(k) & (Bit(k) - 1) == 0
  {
  }

  /**
   * Two different bits never overlap: the members of NodeFlags, DepFlags and
   * ViewState, each declared above at its own position, share no bit.
   */
  lemma BitsApart(j: BitPos, k: BitPos)
    requires j != k
    ensures Bit(j) & Bit(k) == 0
  {
  }

  /** Every NodeFlags member is the single bit at its own position. */
  lemma NodeFlagsAreBits()
    ensures OnInit == Bit(0) && OnDestroy == Bit(1) && DoCheck == Bit(2) && OnChanges == Bit(3) &&
            AfterContentInit == Bit(4) && AfterContentChecked == Bit(5) && AfterViewInit == Bit(6) &&
            AfterViewChecked == Bit(7) && HasEmbeddedViews == Bit(8) && HasComponent == Bit(9) &&
            HasContentQuery == Bit(10) && HasViewQuery == Bit(11) && LazyProvider == Bit(12) &&
            PrivateProvider == Bit(13) && TypeElement == Bit(14) && TypeText == Bit(15) &&
            TypeDirective == Bit(16) && CatProvider == Bit(17) && CatRenderNode == Bit(18) &&
            CatPureExpression == Bit(19) && HasStaticQuery == Bit(20) && HasDynamicQuery == Bit(21)
  {
  }

  /** Every DepFlags member is the single bit at its own position. */
  lemma DepFlagsAreBits()
    ensures SkipSelf == Bit(0) && Optional == Bit(1) && Value == Bit(3)
  {
  }

  /** Every ViewState member is the single bit at its own position. */
  lemma ViewStateAreBits()
    ensures FirstCheck == Bit(0) && ChecksEnabled == Bit(1) && Errored == Bit(2) && Destroyed == Bit(3)
  {
  }

  /**
   * The `|=` that aggregates flag words. Named, so that the solver compares
   * aggregated words as terms instead of bit by bit.
   */
  function Union(a: Flags, b: Flags): Flags
  {
    a | b
  }

  /** Masking an OR tells which operand carried a bit: nothing is lost. */
  lemma HasOr(a: Flags, b: Flags, mask: Flags)
    ensures Has(Union(a, b), mask) <==> Has(a, mask) || Has(b, mask)
  {
    if Has(a, mask) || Has(b, mask) {
      MaskOrIn(a, b, mask);
    }
    if Has(Union(a, b), mask) {
      MaskOrOut(a, b, mask);
    }
  }

  /** A bit either operand carries is in the OR. */
  lemma MaskOrIn(a: Flags, b: Flags, mask: Flags)
    requires a & mask != 0 || b & mask != 0
    ensures (a | b) & mask != 0
  {
  }

  /** A bit of the OR comes from one of the operands. */
  lemma MaskOrOut(a: Flags, b: Flags, mask: Flags)
    requires (a | b) & mask != 0
    ensures a & mask != 0 || b & mask != 0
  {
  }

  /** Aggregation may be regrouped. */
  lemma UnionAssoc(a: Flags, b: Flags, c: Flags)
    ensures Union(Union(a, b), c) == Union(a, Union(b, c))
  {
  }

  /** The empty word is the unit of aggregation. */
  lemma UnionUnit(a: Flags)
    ensures Union(0, a) == a && Union(a, 0) == a
  {
  }

  /** Setting a non-empty mask makes it visible. */
  lemma SetShows(state: Flags, b: Flags)
    requires b != 0
    ensures Has(state | b, b)
  {
  }

  /** Setting a mask keeps every disjoint bit as it was. */
  lemma SetKeeps(state: Flags, a: Flags, b: Flags)
    requires a & b == 0
    ensures Has(state | b, a) <==> Has(state, a)
  {
  }

  /** Clearing a mask hides it. */
  lemma ClearHides(state: Flags, b: Flags)
    ensures !Has(state & !b, b)
  {
  }

  /** Clearing a mask keeps every disjoint bit as it was. */
  lemma ClearKeeps(state: Flags, a: Flags, b: Flags)
    requires a & b == 0
    ensures Has(state & !b, a) <==> Has(state, a)
  {
  }

  datatype NodeType = Element | Text | Provider | Directive | Pipe | PureExpression | Query | NgContent

  datatype BindingType =
    ElementAttribute | ElementClass | ElementStyle | ElementProperty | ComponentHostProperty |
    DirectiveProperty | TextInterpolation | PureExpressionProperty

  datatype BindingDef = BindingDef(bindingType: BindingType, name: string, nonMinifiedName: string)

  datatype ProviderType = ValueProvider | ClassProvider | FactoryProvider | UseExistingProvider

  /** A token is known to the tables by its key. */
  type Token = string

  datatype DepDef = DepDef(flags: Flags, token: Token)

  datatype OutputDef = OutputDef(propName: string, eventName: string)

  datatype ProviderDef = ProviderDef(
    providerType: ProviderType,
    token: Token,
    value: Token,
    deps: seq<DepDef>,
    outputs: seq<OutputDef>,
    /** id of the component view definition factory, for components */
    component: Option<nat>)

  /**
   * An element's template: which view definition it is (`id`, resolved by
   * the runtime's template table) and what the definition builder reads
   * from it, the flags of its last root node when it has one.
   */
  datatype TemplateDef = TemplateDef(id: nat, lastRootNodeFlags: Option<Flags>)

  datatype ElementDef = ElementDef(
    /** None for an ng-container */
    name: Option<string>,
    template: Option<TemplateDef>,
    /** provider tables visible from this element, as ids into a table heap */
    publicProviders: nat,
    allProviders: nat,
    /** index of the component directive on this element */
    component: Option<nat>)

  datatype QueryDef = QueryDef(id: string)

  datatype NodeDef = NodeDef(
    nodeType: NodeType,
    index: int,
    reverseChildIndex: int,
    flags: Flags,
    parent: Option<nat>,
    renderParent: Option<nat>,
    /** number of transitive children */
    childCount: nat,
    /** OR of the flags of all transitive children */
    childFlags: Flags,
    bindingIndex: nat,
    bindings: seq<BindingDef>,
    disposableIndex: nat,
    disposableCount: nat,
    element: Option<ElementDef>,
    provider: Option<ProviderDef>,
    query: Option<QueryDef>)

  /**
   * The shape every node factory gives a node: element data exactly on
   * elements, provider data exactly on providers, directives and pipes.
   */
  predicate WellShaped(n: NodeDef)
  {
    (n.nodeType == Element <==> n.element.Some?) &&
    (n.nodeType in {Provider, Directive, Pipe} <==> n.provider.Some?)
  }

  /**
   * A provider table object: its own entries (token key to provider node
   * index) and the table it was made from with Object.create, if any.
   */
  datatype ProviderTable = ProviderTable(proto: Option<nat>, entries: map<Token, nat>)

  /** Every table's prototype is an older table, so lookups end. */
  predicate TablesOrdered(tables: seq<ProviderTable>)
  {
    forall t :: 0 <= t < |tables| && tables[t].proto.Some? ==> tables[t].proto.value < t
  }

  /** A property read through the prototype chain: own entry first, then the prototype's. */
  function Lookup(tables: seq<ProviderTable>, t: nat, token: Token): (r: Option<nat>)
    requires TablesOrdered(tables) && t < |tables|
    ensures token in tables[t].entries ==> r == Some(tables[t].entries[token])
    decreases t
  {
    if token in tables[t].entries then Some(tables[t].entries[token])
    else match tables[t].proto
      case None => None
      case Some(q) => Lookup(tables, q, token)
  }

  datatype ViewDefinition = ViewDefinition(
    flags: Flags,
    /** depth-first order */
    nodes: seq<NodeDef>,
    /** OR of all node flags */
    nodeFlags: Flags,
    /** parents before children, children in reverse order (indices into nodes) */
    reverseChildNodes: seq<nat>,
    lastRootNode: Option<nat>,
    bindingCount: nat,
    disposableCount: nat,
    /** the provider table objects the elements' tables point into */
    providerTables: seq<ProviderTable>)
}
