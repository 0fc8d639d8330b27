/**
 * The per-element provider tables viewDef builds (core/src/view/view.ts:67-75
 * and 98-121). The code makes them with Object.create, so a table is an
 * object whose missing keys are read from its prototype. They are modelled
 * as a heap of tables, each naming its prototype, so that the aliasing
 * between an element's tables and its parent's stays visible.
 */
module ProviderTables {
  import opened Wrappers
  import opened ViewTypes

  /** Object.create(proto): a fresh empty table at the end of the heap. */
  function Create(tables: seq<ProviderTable>, proto: Option<nat>): seq<ProviderTable>
  {
    tables + [ProviderTable(proto, map[])]
  }

  /** table[token] = node. */
  function Put(tables: seq<ProviderTable>, t: nat, token: Token, node: nat): seq<ProviderTable>
    requires t < |tables|
  {
    tables[t := tables[t].(entries := tables[t].entries[token := node])]
  }

  /** A fresh table reads through to its prototype, and every older table reads as before. */
  lemma {:induction false} CreateLookup(tables: seq<ProviderTable>, proto: Option<nat>, t: nat, token: Token)
    requires TablesOrdered(tables) && (proto.Some? ==> proto.value < |tables|) && t <= |tables|
    ensures TablesOrdered(Create(tables, proto))
    ensures t < |tables| ==> Lookup(Create(tables, proto), t, token) == Lookup(tables, t, token)
    ensures t == |tables| ==>
              Lookup(Create(tables, proto), t, token) == (if proto.None? then None else Lookup(tables, proto.value, token))
    decreases t
  {
    var tables' := Create(tables, proto);
    assert forall u :: 0 <= u < |tables| ==> tables'[u] == tables[u];
    if t == |tables| {
      if proto.Some? {
        CreateLookup(tables, proto, proto.value, token);
      }
    } else if token !in tables[t].entries && tables[t].proto.Some? {
      CreateLookup(tables, proto, tables[t].proto.value, token);
    }
  }

  /** A write is seen through its own table and leaves other keys alone. */
  lemma {:induction false} PutLookup(tables: seq<ProviderTable>, t: nat, token: Token, node: nat, u: nat, key: Token)
    requires TablesOrdered(tables) && t < |tables| && u < |tables|
    ensures TablesOrdered(Put(tables, t, token, node))
    ensures Lookup(Put(tables, t, token, node), t, token) == Some(node)
    ensures key != token ==> Lookup(Put(tables, t, token, node), u, key) == Lookup(tables, u, key)
    ensures u < t ==> Lookup(Put(tables, t, token, node), u, key) == Lookup(tables, u, key)
    decreases u
  {
    var tables' := Put(tables, t, token, node);
    assert forall v :: 0 <= v < |tables| ==> tables'[v].proto == tables[v].proto;
    if u != t {
      assert tables'[u] == tables[u];
    }
    if key !in tables[u].entries && tables[u].proto.Some? && (key != token || u < t) {
      PutLookup(tables, t, token, node, tables[u].proto.value, key);
    }
  }

  /** What one provider registration leaves behind. */
  datatype Registration = Registration(element: ElementDef, tables: seq<ProviderTable>, hasPublic: bool, hasPrivate: bool)

  /**
   * Registering provider node k, with the given flags and token, on its
   * parent element (view.ts:97-122). The first provider since the last
   * element gives the element a fresh public table over its current one; a
   * private provider that is not a component goes into the element's
   * all-providers table, made over the public one on the first such provider.
   */
  function Register(el: ElementDef, tables: seq<ProviderTable>, hasPublic: bool, hasPrivate: bool,
                    flags: Flags, token: Token, k: nat): Registration
    requires el.publicProviders < |tables| && el.allProviders < |tables|
  {
    var tables1 := if hasPublic then tables else Create(tables, Some(el.publicProviders));
    var el1 := if hasPublic then el else el.(publicProviders := |tables|, allProviders := |tables|);
    var isPrivate := Has(flags, PrivateProvider);
    var isComponent := Has(flags, HasComponent);
    var r :=
      if !isPrivate || isComponent then
        Registration(el1, Put(tables1, el1.publicProviders, token, k), true, hasPrivate)
      else
        var tables2 := if hasPrivate then tables1 else Create(tables1, Some(el1.publicProviders));
        var el2 := if hasPrivate then el1 else el1.(allProviders := |tables1|);
        Registration(el2, Put(tables2, el2.allProviders, token, k), true, true);
    if isComponent then r.(element := r.element.(component := Some(k))) else r
  }

  /** An element's all-providers table is its public one or made directly over it (view.ts:69-70, 103, 114). */
  predicate AllOverPublic(el: ElementDef, tables: seq<ProviderTable>)
  {
    el.publicProviders < |tables| && el.allProviders < |tables| &&
    (el.allProviders == el.publicProviders || tables[el.allProviders].proto == Some(el.publicProviders))
  }

  /**
   * The two "has providers" flags describe this element: a private provider
   * was registered only after a public table was made, and then into a
   * separate, newer all-providers table.
   */
  predicate FlagsDescribe(el: ElementDef, hasPublic: bool, hasPrivate: bool)
  {
    hasPrivate ==> hasPublic && el.publicProviders < el.allProviders
  }

  /** Every entry of the new heap is an old entry or the one just written. */
  predicate EntriesFrom(tables: seq<ProviderTable>, tables': seq<ProviderTable>, token: Token, k: nat)
  {
    forall t, key :: 0 <= t < |tables'| && key in tables'[t].entries ==>
      (key == token && tables'[t].entries[key] == k) ||
      (t < |tables| && key in tables[t].entries && tables'[t].entries[key] == tables[t].entries[key])
  }

  /** Registration keeps the heap ordered, only grows it, and keeps the element's two tables related. */
  lemma RegisterShape(el: ElementDef, tables: seq<ProviderTable>, hasPublic: bool, hasPrivate: bool,
                      flags: Flags, token: Token, k: nat)
    requires TablesOrdered(tables) && AllOverPublic(el, tables)
    ensures var r := Register(el, tables, hasPublic, hasPrivate, flags, token, k);
      TablesOrdered(r.tables) && |tables| <= |r.tables| && AllOverPublic(r.element, r.tables) &&
      r.hasPublic && (r.hasPrivate <==> hasPrivate || (Has(flags, PrivateProvider) && !Has(flags, HasComponent))) &&
      r.element.name == el.name && r.element.template == el.template &&
      (forall t :: 0 <= t < |tables| ==> r.tables[t].proto == tables[t].proto) &&
      (r.element.component == if Has(flags, HasComponent) then Some(k) else el.component)
  {
    var tables1 := if hasPublic then tables else Create(tables, Some(el.publicProviders));
    var el1 := if hasPublic then el else el.(publicProviders := |tables|, allProviders := |tables|);
    CreateLookup(tables, Some(el.publicProviders), 0, token);
    if Has(flags, PrivateProvider) && !Has(flags, HasComponent) {
      var tables2 := if hasPrivate then tables1 else Create(tables1, Some(el1.publicProviders));
      CreateLookup(tables1, Some(el1.publicProviders), 0, token);
      var el2 := if hasPrivate then el1 else el1.(allProviders := |tables1|);
      PutLookup(tables2, el2.allProviders, token, k, 0, token);
    } else {
      PutLookup(tables1, el1.publicProviders, token, k, 0, token);
    }
  }

  /** Registration writes exactly one entry: token to k. */
  lemma RegisterEntries(el: ElementDef, tables: seq<ProviderTable>, hasPublic: bool, hasPrivate: bool,
                        flags: Flags, token: Token, k: nat)
    requires el.publicProviders < |tables| && el.allProviders < |tables|
    ensures EntriesFrom(tables, Register(el, tables, hasPublic, hasPrivate, flags, token, k).tables, token, k)
  {
    var tables1 := if hasPublic then tables else Create(tables, Some(el.publicProviders));
    var el1 := if hasPublic then el else el.(publicProviders := |tables|, allProviders := |tables|);
    assert EntriesFrom(tables, tables1, token, k);
    if Has(flags, PrivateProvider) && !Has(flags, HasComponent) {
      var tables2 := if hasPrivate then tables1 else Create(tables1, Some(el1.publicProviders));
      assert EntriesFrom(tables, tables2, token, k);
    }
  }

  /** A public provider or a component is found through the element's public table afterwards. */
  lemma RegisterPublicVisible(el: ElementDef, tables: seq<ProviderTable>, hasPublic: bool, hasPrivate: bool,
                              flags: Flags, token: Token, k: nat)
    requires TablesOrdered(tables) && AllOverPublic(el, tables)
    requires !Has(flags, PrivateProvider) || Has(flags, HasComponent)
    ensures var r := Register(el, tables, hasPublic, hasPrivate, flags, token, k);
      TablesOrdered(r.tables) && r.element.publicProviders < |r.tables| &&
      Lookup(r.tables, r.element.publicProviders, token) == Some(k)
  {
    var tables1 := if hasPublic then tables else Create(tables, Some(el.publicProviders));
    var el1 := if hasPublic then el else el.(publicProviders := |tables|, allProviders := |tables|);
    CreateLookup(tables, Some(el.publicProviders), 0, token);
    PutLookup(tables1, el1.publicProviders, token, k, 0, token);
  }

  /**
   * A private provider is found through the element's all-providers table,
   * and, when the flags describe the element, stays out of its public table:
   * every public lookup answers as before.
   */
  lemma RegisterPrivateHidden(el: ElementDef, tables: seq<ProviderTable>, hasPublic: bool, hasPrivate: bool,
                              flags: Flags, token: Token, k: nat, key: Token)
    requires TablesOrdered(tables) && AllOverPublic(el, tables) && FlagsDescribe(el, hasPublic, hasPrivate)
    requires Has(flags, PrivateProvider) && !Has(flags, HasComponent)
    ensures var r := Register(el, tables, hasPublic, hasPrivate, flags, token, k);
      TablesOrdered(r.tables) && r.element.allProviders < |r.tables| && r.element.publicProviders < |r.tables| &&
      FlagsDescribe(r.element, r.hasPublic, r.hasPrivate) &&
      Lookup(r.tables, r.element.allProviders, token) == Some(k) &&
      Lookup(r.tables, r.element.publicProviders, key) == Lookup(tables, el.publicProviders, key)
  {
    var tables1 := if hasPublic then tables else Create(tables, Some(el.publicProviders));
    var el1 := if hasPublic then el else el.(publicProviders := |tables|, allProviders := |tables|);
    CreateLookup(tables, Some(el.publicProviders), el1.publicProviders, key);
    var tables2 := if hasPrivate then tables1 else Create(tables1, Some(el1.publicProviders));
    CreateLookup(tables1, Some(el1.publicProviders), el1.publicProviders, key);
    var el2 := if hasPrivate then el1 else el1.(allProviders := |tables1|);
    assert el2.publicProviders == el1.publicProviders < el2.allProviders;
    PutLookup(tables2, el2.allProviders, token, k, el2.publicProviders, key);
    PutLookup(tables2, el2.allProviders, token, k, el2.allProviders, token);
  }

  /** A lookup only ever answers with an entry of some table on the chain. */
  lemma {:induction false} LookupFromEntry(tables: seq<ProviderTable>, t: nat, token: Token)
    requires TablesOrdered(tables) && t < |tables| && Lookup(tables, t, token).Some?
    ensures exists u :: 0 <= u <= t && token in tables[u].entries && tables[u].entries[token] == Lookup(tables, t, token).value
    decreases t
  {
    if token !in tables[t].entries {
      LookupFromEntry(tables, tables[t].proto.value, token);
    }
  }

  /** The heap only grew: older tables keep their prototypes. */
  predicate Grows(tables: seq<ProviderTable>, tables': seq<ProviderTable>)
  {
    |tables| <= |tables'| && forall t :: 0 <= t < |tables| ==> tables'[t].proto == tables[t].proto
  }

  /** An element's two tables stay related while the heap grows. */
  lemma AllOverPublicGrows(el: ElementDef, tables: seq<ProviderTable>, tables': seq<ProviderTable>)
    requires AllOverPublic(el, tables) && Grows(tables, tables')
    ensures AllOverPublic(el, tables')
  {
  }
}
