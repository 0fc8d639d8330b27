# Angular's view engine, modelled in Dafny

This project models the core of Angular's view engine and several small
pieces around it.

- **View definitions.** `viewDef` takes a depth-first array of node
  definitions and numbers them. It works out binding and disposable
  offsets, each node's aggregated `childFlags` and the view's `nodeFlags`,
  the reverse-child order and the per-element provider tables. It rejects
  malformed arrays through `validateNode`.
- **Views.** Views live in an arena of view records. Each record holds its
  definition, its `ViewState` bits, its node data, `oldValues` and
  `disposables`. Four operations act on them:
  - creating a view (`createView`, `initView`, `createViewNodes`,
    `createEmbeddedView`, `createRootView`);
  - change detection (`checkAndUpdateView`, `checkNoChangesView`,
    `checkAndUpdateNode`, `checkNoChangesNode`);
  - destroying a view (`destroyView`);
  - the walks over child views and queries (`callViewAction`,
    `execComponentViewsAction`, `execEmbeddedViewsAction`,
    `execQueriesAction`).
- **Providers and dependency injection** (`provider.ts`):
  - `_def`, `directiveDef` and `providerDef`;
  - creating provider, pipe and directive instances, with lazy providers
    made once;
  - `resolveDep`, walking elements and then parent views;
  - `checkAndUpdateProp` and the directive checks with their `ngOnChanges`,
    `ngOnInit` and `ngDoCheck` calls;
  - `callLifecycleHooksChildrenFirst`.
- **Debug services** (`services.ts`): the service table's first
  installation, binding name and value normalisation, the next-node scans,
  `DebugContext_` and `callWithDebugContext`'s bookkeeping of the current
  action, view and node.
- **Other pieces:**
  - the template compiler's attribute merging, change-detection mode,
    generated method ordering and view scoping (`view_builder.ts`,
    `compile_view.ts`);
  - the DOM renderer's shim and namespace helpers, style flattening and
    renderer caches (`dom_renderer.ts`);
  - the forms validators (`validators.ts`);
  - the router's default URL matcher and navigation-canceling errors
    (`shared.ts`);
  - `NgForOf` (`ng_for_of.ts`).

Bit sets (`NodeFlags`, `DepFlags`, `ViewState`) are 32-bit vectors, as
JavaScript's bitwise operators are. Calls into code outside the model are
parameters of the operations:
- the generated `updateDirectives`/`updateRenderer` closures, given as the
  node checks they make;
- the change test of `checkAndUpdateBinding`;
- constructors, factories and output subscriptions, given as their
  outcomes;
- `RegExp.prototype.test`.

What the renderer, the root injector and the hooks do is recorded as a
sequence of events. A thrown error is a `Status` (`Ok`, `Threw(...)`).

## Model

| member | source | states |
|---|---|---|
| FormValidators.EmptyInputCases | packages/forms/src/validators.ts:14-17 | `isEmptyInputValue` holds exactly for null, undefined, the empty string, an empty array and an object whose `length` is 0 |
| FormValidators.ActualLength | packages/forms/src/validators.ts:125-132 | the length `minLength`/`maxLength` read: 0 for a falsy value, the string's or array's length otherwise |
| FormValidators.PatternValidator | packages/forms/src/validators.ts:137-147 | no pattern or the empty string gives the null validator; a non-empty string is anchored as `^p$`; a RegExp keeps its own text |
| FormValidators.Compose | packages/forms/src/validators.ts:167-175 | null exactly for a null list or one without present validators; otherwise a composed validator over exactly the present ones, in order |
| FormValidators.PresentEmpty | packages/forms/src/validators.ts:169-170 | filtering leaves nothing exactly when every entry is null |
| FormValidators.MergedKeys | packages/forms/src/validators.ts:205-210 | a key is in the merged map exactly when some non-null error map has it |
| FormValidators.MergedLastWins | packages/forms/src/validators.ts:206-209 | a key's merged value is the one in the last error map that holds it |
| FormValidators.MergeErrorsNull | packages/forms/src/validators.ts:205-211 | `_mergeErrors` gives null exactly when every entry is null or an empty map |
| FormValidators.FirstMismatch | packages/forms/src/validators.ts:71-81 | the first field path, from a position on, that is missing or not strictly equal to the control's value; none means all fields are equal |
| FormValidators.EqualsFrom | packages/forms/src/validators.ts:65-84 | the `equalsTo` loop: decided by the first mismatching path, it throws when that field is missing, reports `{equalsTo: {unequalField}}` when it differs, and passes when no path mismatches |
| FormValidators.RunAll | packages/forms/src/validators.ts:197-199 | `_executeValidators`: one result per validator when none throws |
| FormValidators.RunAllItems | packages/forms/src/validators.ts:197-199 | each position of a successful run holds that validator's own result |
| FormValidators.RequiredIff | packages/forms/src/validators.ts:89-91 | `required` never throws and reports `{required: true}` exactly for empty values |
| FormValidators.RequiredTrueIff | packages/forms/src/validators.ts:96-98 | `requiredTrue` passes exactly when the value is strictly `true` |
| FormValidators.MinLengthIff | packages/forms/src/validators.ts:110-120 | `minLength` passes empty values and reports required and actual length exactly when a defined length is below the minimum |
| FormValidators.MaxLengthIff | packages/forms/src/validators.ts:125-132 | `maxLength` reports required and actual length exactly when a defined length exceeds the maximum |
| FormValidators.MaxLengthFalsy | packages/forms/src/validators.ts:127-130 | a falsy value counts as length 0 for `maxLength` |
| FormValidators.EmptyValuesPass | packages/forms/src/validators.ts:148-151 | `pattern` and `minLength` pass every empty value, whatever the pattern or minimum |
| FormValidators.ComposedNull | packages/forms/src/validators.ts:172-174 | a composed validator passes exactly when each of its validators passes or returns an empty map |
| UrlMatcher.Split | packages/router/src/shared.ts:45 | `path.split('/')`: at least one part, no part holds `/`, and joining the parts with `/` gives the path back |
| UrlMatcher.SplitJoin | packages/router/src/shared.ts:45 | splitting a join of slash-free parts gives the parts back |
| UrlMatcher.DefaultUrlMatcher | packages/router/src/shared.ts:42-72 | succeeds exactly when there are at least as many segments as parts, every literal part equals its segment's path, and a `full` match has no children and no segment left; on success `consumed` is the first `parts.length` segments and `posParams` the `:name` bindings |
| UrlMatcher.BindingKeys | packages/router/src/shared.ts:59-61 | a name is bound exactly when some `:name` part among the matched ones names it |
| UrlMatcher.BindingLastWins | packages/router/src/shared.ts:59-61 | a name is bound to the segment at its last `:name` part |
| UrlMatcher.NavigationCancelingError | packages/router/src/shared.ts:32-36 | the error carries the mark and its message is `NavigationCancelingError: ` followed by the message |
| UrlMatcher.PlainError | packages/router/src/shared.ts:38-40 | a plain error has no mark and keeps its message |
| NgFor.JsRem2 | modules/@angular/common/src/directives/ng_for_of.ts:20 | JavaScript's `% 2` lies in -1..1 and agrees with the mathematical remainder on non-negative indices |
| NgFor.RowGetters | modules/@angular/common/src/directives/ng_for_of.ts:13-23 | with index and count set, `first` iff index is 0, `last` iff index is count - 1, `even` iff index is even, `odd` iff it is odd |
| NgFor.InsertAt | modules/@angular/common/src/directives/ng_for_of.ts:154-155 | the container after inserting a view: one longer, the view at its position, the others shifted by one |
| NgFor.RemoveAt | modules/@angular/common/src/directives/ng_for_of.ts:159 | the container after removing a view: one shorter, later views shifted down |
| NgFor.ApplyOpCounts | modules/@angular/common/src/directives/ng_for_of.ts:151-166 | an insert adds exactly one new view, a removal takes exactly the view at `adjustedPreviousIndex`, a move keeps the same views |
| NgFor.ApplyOpFresh | modules/@angular/common/src/directives/ng_for_of.ts:151-166 | one operation keeps the container's view identities distinct |
| NgFor.ApplyOps | modules/@angular/common/src/directives/ng_for_of.ts:151-166 | the container length after all operations is the one the operations imply |
| NgFor.NextAfterOps | modules/@angular/common/src/directives/ng_for_of.ts:154-155 | creating views only ever takes new identities |
| NgFor.IdsInsert | modules/@angular/common/src/directives/ng_for_of.ts:154-155 | inserting a view inserts its identity at the same position |
| NgFor.IdsRemove | modules/@angular/common/src/directives/ng_for_of.ts:159 | removing a view removes its identity at the same position |
| NgFor.InsertDistinct | modules/@angular/common/src/directives/ng_for_of.ts:154-155 | a newly created view's identity differs from all others |
| NgFor.RemoveDistinct | modules/@angular/common/src/directives/ng_for_of.ts:159 | after a removal the removed view is gone and the rest stay distinct |
| NgFor.SetImplicitOf | modules/@angular/common/src/directives/ng_for_of.ts:184-186 | `_perViewChange` keeps the views and their order |
| NgFor.ApplyTuples | modules/@angular/common/src/directives/ng_for_of.ts:168-170 | handing out the records' items keeps the views and their order |
| NgFor.Renumber | modules/@angular/common/src/directives/ng_for_of.ts:172-176 | numbering keeps the views and their order |
| NgFor.SetImplicitAt | modules/@angular/common/src/directives/ng_for_of.ts:179-180 | an identity change keeps the views and their order |
| NgFor.ApplyIdentity | modules/@angular/common/src/directives/ng_for_of.ts:178-181 | the identity changes keep the views and their order |
| NgFor.IdentityKeepsNumbers | modules/@angular/common/src/directives/ng_for_of.ts:172-181 | setting items after numbering leaves every view's index at its position and count at the container length |
| NgFor.IdentityLastWins | modules/@angular/common/src/directives/ng_for_of.ts:178-181 | the last identity change at a position decides the item of the view there |
| NgFor.IdentityUntouched | modules/@angular/common/src/directives/ng_for_of.ts:178-181 | a view at a position no identity change names is left alone |
| NgFor.NgForOf.constructor | modules/@angular/common/src/directives/ng_for_of.ts:110-115 | a new directive has no differ, an empty container and the template it was given |
| NgFor.NgForOf.SetNgForOf | modules/@angular/common/src/directives/ng_for_of.ts:94 | the input is stored and nothing else changes |
| NgFor.NgForOf.SetTrackBy | modules/@angular/common/src/directives/ng_for_of.ts:96-106 | the trackBy function is stored and nothing else changes |
| NgFor.NgForOf.SetTemplate | modules/@angular/common/src/directives/ng_for_of.ts:118-125 | a truthy template replaces the current one, a falsy one is ignored |
| NgFor.NgForOf.NgOnChanges | modules/@angular/common/src/directives/ng_for_of.ts:127-140 | a differ is created exactly when `ngForOf` changed to a truthy value and there is none yet; an unsupported value throws an error naming it; an existing differ is kept |
| NgFor.NgForOf.NgDoCheck | modules/@angular/common/src/directives/ng_for_of.ts:142-147 | nothing changes without a differ or without changes; otherwise the container becomes the views after replaying the operations (new views from the template, each inserted or moved view given its record's item), renumbered, with the identity changes applied, every view numbered, and the next view id advanced by the inserts |
| NgFor.NgForOf.ApplyChanges | modules/@angular/common/src/directives/ng_for_of.ts:149-182 | the container becomes: the operations replayed, the recorded items handed out, every view numbered, then the identity changes applied; every view's index is its position and its count the container length |
| NgFor.NgForOf.ReplayOperations | modules/@angular/common/src/directives/ng_for_of.ts:151-166 | the container and the recorded tuples after all operations are those the operations define |
| NgFor.NgForOf.ApplyOperation | modules/@angular/common/src/directives/ng_for_of.ts:152-165 | an insert creates a view with an empty row at `currentIndex`, a removal drops the view at `adjustedPreviousIndex`, a move takes that view to `currentIndex`; inserts and moves record a tuple |
| NgFor.NgForOf.PerViewChange | modules/@angular/common/src/directives/ng_for_of.ts:184-186 | the named view's item becomes the record's item |
| NgFor.NgForOf.NumberViews | modules/@angular/common/src/directives/ng_for_of.ts:172-176 | every view's context gets its position and the container length |
| CompileViews.GetViewType | modules/@angular/compiler/src/view_compiler/compile_view.ts:165-175 | embedded exactly for a positive index; otherwise host exactly for a host component, component exactly for the rest |
| CompileViews.LocalsKeys | modules/@angular/compiler/src/view_compiler/compile_view.ts:128-129 | a name is a local exactly when some template variable binding registers it |
| CompileViews.LocalsLastWins | modules/@angular/compiler/src/view_compiler/compile_view.ts:128-129 | a local reads `context.<prop>` of the last binding that registers its name |
| CompileViews.QueriesOf | modules/@angular/compiler/src/view_compiler/compile_view.ts:120-125 | one query per view-query metadata entry, with its metadata and its position, in order |
| CompileViews.CompileView.constructor | modules/@angular/compiler/src/view_compiler/compile_view.ts:104-129 | the view type comes from `getViewType`; component and host views are their own component view, an embedded view takes its declaring view's; only a component view has view queries; the locals are those the bindings register |
| CompileViews.CompileView.GetLocal | modules/@angular/compiler/src/view_compiler/compile_view.ts:140-155 | the event name gives the event variable; any other name gives the nearest declaration along the chain of declaring views |
| CompileViews.ChainDepth | modules/@angular/compiler/src/view_compiler/compile_view.ts:146-149 | every view on the chain of declaring views is no deeper than its start, so the climb ends |
| CompileViews.LookupNearest | modules/@angular/compiler/src/view_compiler/compile_view.ts:144-154 | the lookup reports a view on the chain that declares the name with no nearer view declaring it, and finds nothing exactly when no view on the chain declares it |
| DomRendering.ReplaceAbsent | modules/@angular/platform-browser/src/dom/dom_renderer.ts:307 | a global replace of `%COMP%` leaves a string without the placeholder unchanged |
| DomRendering.ReplaceOnce | modules/@angular/platform-browser/src/dom/dom_renderer.ts:307 | one placeholder between placeholder-free parts is replaced exactly once |
| DomRendering.ShimContentAttribute | modules/@angular/platform-browser/src/dom/dom_renderer.ts:310-314 | the content attribute is `_ngcontent-` followed by the id |
| DomRendering.ShimHostAttribute | modules/@angular/platform-browser/src/dom/dom_renderer.ts:309-318 | the host attribute is `_nghost-` followed by the id |
| DomRendering.LeavesAppend | modules/@angular/platform-browser/src/dom/dom_renderer.ts:322-331 | the string leaves of two style lists are the leaves of the first followed by those of the second |
| DomRendering.ShimAll | modules/@angular/platform-browser/src/dom/dom_renderer.ts:328 | one result per leaf, each leaf with every `%COMP%` replaced by the id |
| DomRendering.FlattenStyles | modules/@angular/platform-browser/src/dom/dom_renderer.ts:320-333 | the result is the target followed by every string leaf of the nested arrays, left to right, each with `%COMP%` replaced |
| DomRendering.SecondColon | modules/@angular/platform-browser/src/dom/dom_renderer.ts:335 | the first colon after the leading one, or none |
| DomRendering.SplitNamespaceRoundTrip | modules/@angular/platform-browser/src/dom/dom_renderer.ts:335-344 | `splitNamespace(':' + ns + ':' + name)` gives `[ns, name]` for a non-empty, colon-free namespace and a non-empty name |
| DomRendering.SplitNamespaceShape | modules/@angular/platform-browser/src/dom/dom_renderer.ts:335-344 | every successful split has that shape: `:`, a non-empty colon-free namespace, `:`, a non-empty name |
| DomRendering.SetElementAttribute | modules/@angular/platform-browser/src/dom/dom_renderer.ts:199-221 | throws exactly for a namespaced name that does not split; a present value sets, null or undefined removes; a plain name is used as given |
| DomRendering.SetElementAttributeNamespaced | modules/@angular/platform-browser/src/dom/dom_renderer.ts:200-220 | a `:ns:name` attribute with a known namespace sets `ns:name` in that namespace, and a missing value removes the bare name there |
| DomRendering.SetAttributeV2 | modules/@angular/platform-browser/src/dom/dom_renderer.ts:449-455 | a truthy namespace selects `setAttributeNS` with `ns:name`, otherwise a plain `setAttribute` |
| DomRendering.RemoveAttributeV2 | modules/@angular/platform-browser/src/dom/dom_renderer.ts:457-463 | a truthy namespace selects `removeAttributeNS` with the bare name, otherwise a plain `removeAttribute` |
| DomRendering.DecoratePreventDefault | modules/@angular/platform-browser/src/dom/dom_renderer.ts:296-305 | the default is prevented, and `returnValue` set to false, exactly when the handler returns `false`; other falsy results do not prevent it |
| DomRendering.DomRootRenderer.constructor | modules/@angular/platform-browser/src/dom/dom_renderer.ts:28-33 | a new root renderer has no registered components and no shared styles |
| DomRendering.DomRootRenderer.RenderComponent | modules/@angular/platform-browser/src/dom/dom_renderer.ts:35-43 | a repeated component id returns the cached renderer and changes nothing; a new id creates and caches a renderer whose styles are flattened under `appId-id`, handed to the shared host unless native, with shim attributes only for emulated encapsulation (lines 75-89) |
| DomRendering.DomRendererFactoryV2.constructor | modules/@angular/platform-browser/src/dom/dom_renderer.ts:366-371 | a new factory has an empty renderer cache |
| DomRendering.DomRendererFactoryV2.CreateRenderer | modules/@angular/platform-browser/src/dom/dom_renderer.ts:373-399 | a missing element or type gives the default renderer and changes nothing; emulated renderers are cached per id, register their styles once and mark the host on every request; a native renderer is new each time, numbered by the creation counter, and every renderer made advances the counter; default encapsulation registers its styles only on the first request for an id |
| DomRendering.DomRendererFactoryV2.CreateEmulated | modules/@angular/platform-browser/src/dom/dom_renderer.ts:378-386 | an id cached with a non-emulated renderer fails and changes nothing; otherwise the cached renderer, or a new one counted and registered with its styles once, is stored for the id and marks the host element |
| ViewBuilder.MergeAttributeValue | modules/@angular/compiler/src/view_compiler/view_builder.ts:362-368 | for `class` and `style` the result is the first value, a space, then the second; for any other name it is the second value |
| ViewBuilder.Put | modules/@angular/compiler/src/view_compiler/view_builder.ts:358 | assigning a key keeps the dictionary well formed and maps the key to the new value |
| ViewBuilder.AttrDict | modules/@angular/compiler/src/view_compiler/view_builder.ts:356-360 | the dictionary built from the attributes is well formed |
| ViewBuilder.ReadHtmlAttrs | modules/@angular/compiler/src/view_compiler/view_builder.ts:356-360 | the loop builds that dictionary |
| ViewBuilder.AttrDictKeys | modules/@angular/compiler/src/view_compiler/view_builder.ts:356-360 | a name is in the dictionary exactly when some attribute carries it |
| ViewBuilder.AttrDictLastWins | modules/@angular/compiler/src/view_compiler/view_builder.ts:358 | a repeated attribute keeps the value of its last occurrence |
| ViewBuilder.MergeHostKeys | modules/@angular/compiler/src/view_compiler/view_builder.ts:342-346 | merging one directive's host attributes keeps the dictionary well formed; a name is in it exactly when it was there before or is a host attribute |
| ViewBuilder.MergedDictKeys | modules/@angular/compiler/src/view_compiler/view_builder.ts:339-347 | the merged dictionary holds exactly the declared names and every directive's host attribute names |
| ViewBuilder.MergeEntryValue | modules/@angular/compiler/src/view_compiler/view_builder.ts:343-345 | a name already present is merged: `class` and `style` keep both values joined by a space, any other name takes the directive's value |
| ViewBuilder.LessIrreflexive | modules/@angular/compiler/src/view_compiler/view_builder.ts:351 | the string order of `sort()` is irreflexive |
| ViewBuilder.LessTotal | modules/@angular/compiler/src/view_compiler/view_builder.ts:351 | the string order of `sort()` is total on distinct strings |
| ViewBuilder.LessTransitive | modules/@angular/compiler/src/view_compiler/view_builder.ts:351 | the string order of `sort()` is transitive |
| ViewBuilder.AscendingStrict | modules/@angular/compiler/src/view_compiler/view_builder.ts:351 | a sorted list is strictly increasing throughout, so it lists no name twice |
| ViewBuilder.InsertAscending | modules/@angular/compiler/src/view_compiler/view_builder.ts:351 | putting a name between its neighbours keeps a list sorted |
| ViewBuilder.InsertSorted | modules/@angular/compiler/src/view_compiler/view_builder.ts:351 | the result is sorted and is the list plus the new name, as a multiset |
| ViewBuilder.SortNames | modules/@angular/compiler/src/view_compiler/view_builder.ts:351 | `keys.sort()`: the result is sorted and a permutation of the keys |
| ViewBuilder.Flatten | modules/@angular/compiler/src/view_compiler/view_builder.ts:351-352 | the flat list has each name at an even position followed by its value |
| ViewBuilder.NamesOf | modules/@angular/compiler/src/view_compiler/view_builder.ts:350-351 | the names of a flat list are its items at even positions |
| ViewBuilder.FlatListShape | modules/@angular/compiler/src/view_compiler/view_builder.ts:350-351 | the flat list over the names holds each name, in their order, followed by its own value |
| ViewBuilder.MergeInto | modules/@angular/compiler/src/view_compiler/view_builder.ts:339-347 | the loops leave mapResult equal to the merged dictionary: the declared attributes, then each directive's host attributes merged in order |
| ViewBuilder.PushPairs | modules/@angular/compiler/src/view_compiler/view_builder.ts:350-351 | the last loop pushes each name followed by its value, in the names' order |
| ViewBuilder.MergeHtmlAndDirectiveAttrs | modules/@angular/compiler/src/view_compiler/view_builder.ts:337-354 | the flat `[name, value, ...]` list of the merged dictionary, names in sorted order, each merged name exactly once |
| ViewBuilder.GetOuterContainerOrSelf | modules/@angular/compiler/src/view_compiler/view_builder.ts:304-312 | the loop ends where the climb over ng-container parents of the same view ends |
| ViewBuilder.OuterContainerStops | modules/@angular/compiler/src/view_compiler/view_builder.ts:304-312 | the result is the node or an ancestor whose parent is not an ng-container of the view; it is the node itself exactly when the node's parent is not one |
| ViewBuilder.AncestorBelow | modules/@angular/compiler/src/view_compiler/view_builder.ts:307-309 | an ancestor is strictly smaller than any node below it, so the climb ends |
| ViewBuilder.GetOuterContainerParentOrSelf | modules/@angular/compiler/src/view_compiler/view_builder.ts:321-329 | the loop ends where the climb over ng-container elements of the same view ends |
| ViewBuilder.OuterContainerParentStops | modules/@angular/compiler/src/view_compiler/view_builder.ts:321-329 | the result is not an ng-container of the view; it is the element itself exactly when the element is not one; otherwise it is an ancestor |
| ViewBuilder.GetChangeDetectionMode | modules/@angular/compiler/src/view_compiler/view_builder.ts:608-618 | CheckOnce exactly for a component view with a non-default strategy, CheckAlways otherwise |
| ViewBuilder.Calls | modules/@angular/compiler/src/view_compiler/view_builder.ts:568-572 | one call per receiver, in order |
| ViewBuilder.GenerateDetectChangesMethod | modules/@angular/compiler/src/view_compiler/view_builder.ts:556-591 | nothing when every part is empty; otherwise the shared variable declarations followed by the collected statements |
| ViewBuilder.DetectChangesBodyEmpty | modules/@angular/compiler/src/view_compiler/view_builder.ts:558-565 | the early return loses nothing: the collected statements are empty exactly when every part is |
| ViewBuilder.DetectChangesNested | modules/@angular/compiler/src/view_compiler/view_builder.ts:566-572 | the k-th view container's `detectChangesInNestedViews(throwOnChange)` comes right after the animations, the inputs and the earlier containers |
| ViewBuilder.DetectChangesChild | modules/@angular/compiler/src/view_compiler/view_builder.ts:573-582 | each child view's `internalDetectChanges(throwOnChange)` comes after every nested-view check |
| ViewBuilder.DetectChangesGuards | modules/@angular/compiler/src/view_compiler/view_builder.ts:566-587 | the animation statements come first; a non-empty after-content block, guarded by `!throwOnChange`, follows the nested-view checks; a non-empty after-view block comes last |
| ViewBuilder.GenerateDestroyMethod | modules/@angular/compiler/src/view_compiler/view_builder.ts:505-514 | the containers' `destroyNestedViews` calls, then the children's `destroy` calls, then the view's own destroy statements, and nothing else |
| ViewBuilder.ViewUnderConstruction.constructor | modules/@angular/compiler/src/view_compiler/compile_view.ts:61-66 | a new view has no nodes, fields, create statements or root nodes |
| ViewBuilder.ViewUnderConstruction.GetOrCreateLastRenderNode | modules/@angular/compiler/src/view_compiler/view_builder.ts:110-125 | afterwards the last root node is a plain node and its expression is returned; an anchor `_el_<nodes.length>` is declared, created and appended exactly when the last root node was not a plain node |
| DebugServices.Lower | modules/@angular/core/src/view/services.ts:270 | `toLowerCase` of an upper-case ASCII letter is a lower-case letter |
| DebugServices.ReplaceMarks | modules/@angular/core/src/view/services.ts:263 | `replace(/[$@]/g, '_')`: same length, no `$` or `@` left, every other character kept |
| DebugServices.CamelToDash | modules/@angular/core/src/view/services.ts:267-271 | one extra character per upper-case letter, and no upper-case letter left |
| DebugServices.CamelToDashKeeps | modules/@angular/core/src/view/services.ts:267-271 | a string without upper-case letters is left as it is |
| DebugServices.CamelToDashIdempotent | modules/@angular/core/src/view/services.ts:267-271 | dashing twice is dashing once |
| DebugServices.CamelToDashAppend | modules/@angular/core/src/view/services.ts:267-271 | dashing a concatenation dashes its parts |
| DebugServices.ReplaceMarksUppers | modules/@angular/core/src/view/services.ts:263 | replacing `$` and `@` keeps the upper-case letters |
| DebugServices.BindingNameShape | modules/@angular/core/src/view/services.ts:261-265 | the attribute name starts with `ng-reflect-`, has no `$`, `@` or upper-case letter after it, and is one character longer per upper-case letter of the name |
| DebugServices.MarksStayOut | modules/@angular/core/src/view/services.ts:263 | dashing brings in no `$` or `@` |
| DebugServices.BindingNameOfDashed | modules/@angular/core/src/view/services.ts:261-265 | a name already free of `$`, `@` and upper-case letters only gets the prefix |
| DebugServices.NoMarksKept | modules/@angular/core/src/view/services.ts:263 | a string without `$` or `@` is left as it is |
| DebugServices.NormalizeBindingValue | modules/@angular/core/src/view/services.ts:273-280 | a falsy value is returned as it is; another value's string form is cut to its first 30 characters; a throwing `toString` gives the error text |
| DebugServices.NormalizeValueIdempotent | modules/@angular/core/src/view/services.ts:273-280 | normalising a normalised text again changes nothing |
| DebugServices.FirstWithBindingUnique | modules/@angular/core/src/view/services.ts:282-300 | the first node of the category with a binding is unique |
| DebugServices.NextWithBinding | modules/@angular/core/src/view/services.ts:282-300 | the result is the smallest index from the start on whose node has the category flag and a binding, or none when there is none |
| DebugServices.NextDirectiveWithBinding | modules/@angular/core/src/view/services.ts:282-290 | that search for directives |
| DebugServices.NextRenderNodeWithBinding | modules/@angular/core/src/view/services.ts:292-300 | that search for render nodes |
| DebugServices.SearchFromChecked | modules/@angular/core/src/view/services.ts:187-189 | a search from a node that has a binding of the category stays on it |
| DebugServices.FirstWithBindingLater | modules/@angular/core/src/view/services.ts:283 | searching from a later start that does not pass the answer gives the same answer |
| DebugServices.ElementAbove | modules/@angular/core/src/view/services.ts:310-315 | the climb ends at an element at or above the node, or finds none |
| DebugServices.ElementAboveNearest | modules/@angular/core/src/view/services.ts:313-315 | the element found is the nearest at or above the node; none found means none exists |
| DebugServices.ViewClimb | modules/@angular/core/src/view/services.ts:316-321 | the view climb ends with an element of that view, or with none |
| DebugServices.ViewClimbNearest | modules/@angular/core/src/view/services.ts:316-321 | the element found is the parent element of the nearest view on the way up that has one; none found means no view on the way up has one |
| DebugServices.ElementOf | modules/@angular/core/src/view/services.ts:310-323 | the element a debug context stands for lies in the view it names |
| DebugServices.Jumps | modules/@angular/core/src/view/services.ts:335-341 | every index `providerTokens` visits lies inside the element's range |
| DebugServices.JumpsComplete | modules/@angular/core/src/view/services.ts:335-341 | every node below the element that no other node below it encloses is visited |
| DebugServices.JumpsSound | modules/@angular/core/src/view/services.ts:335-341 | with properly nested ranges, every visited node is a direct child: no node between the element and it encloses it |
| DebugServices.NestedRange | modules/@angular/core/src/view/types.ts:100-102 | with properly nested ranges, a node inside another's range ends inside it |
| DebugServices.ChildProviderTokens | modules/@angular/core/src/view/services.ts:333-343 | the loop returns the tokens of the provider nodes among the visited direct children, in order, or fails like the source when a provider node has no provider |
| DebugServices.TokensStep | modules/@angular/core/src/view/services.ts:336-340 | one step: a provider node's token comes before the tokens from its next sibling on |
| DebugServices.PrependEmpty | modules/@angular/core/src/view/services.ts:333 | the loop starts from an empty token list |
| DebugServices.PrependAppend | modules/@angular/core/src/view/services.ts:338 | pushing a token appends it to the list |
| DebugServices.DebugContext.constructor | modules/@angular/core/src/view/services.ts:306-324 | a null node index means node 0; the node is read only when it exists; the element is the nearest element at or above the node, else the parent element of the nearest view on the way up |
| DebugServices.DebugContext.ProviderTokens | modules/@angular/core/src/view/services.ts:332-344 | without an element no tokens; otherwise the tokens of the provider nodes directly below the element |
| DebugServices.RethrownOnce | modules/@angular/core/src/view/services.ts:404-410 | with a current view the rethrown error is a view debug error, so a second call rethrows it unchanged |
| DebugServices.ErroredStopsChecks | modules/@angular/core/src/view/services.ts:408 | the Errored bit keeps the view out of every later check |
| DebugServices.ServiceState.constructor | modules/@angular/core/src/view/services.ts:23 | services start uninitialised, with no current action, view or node |
| DebugServices.ServiceState.InitServicesIfNeeded | modules/@angular/core/src/view/services.ts:25-44 | only the first call installs a table, the debug one in dev mode and the production one otherwise; later calls change nothing |
| DebugServices.ServiceState.SetCurrentNode | modules/@angular/core/src/view/services.ts:161-164 | the current view and node become the given ones |
| DebugServices.ServiceState.DebugUpdateStart | modules/@angular/core/src/view/services.ts:172-176 | a destroyed view throws `viewDestroyedError` naming the current action and nothing changes; otherwise the current node becomes the first node of the category with a binding |
| DebugServices.ServiceState.AfterNodeCheck | modules/@angular/core/src/view/services.ts:187-189 | after a node of the category, the current node becomes the first node of the category with a binding from it on; other nodes change nothing |
| DebugServices.ServiceState.CallWithDebugContext | modules/@angular/core/src/view/services.ts:393-411 | a normal return restores action, view and node; a view debug error, or any error with no current view, is rethrown unchanged; any other error sets the current view's Errored bit and is rethrown wrapped with the current view and node |
| ViewTypes.NodeFlagsAreBits | modules/@angular/core/src/view/types.ts:138-153 | every NodeFlags member is the single bit `1 << k` at its declared position |
| ViewTypes.DepFlagsAreBits | modules/@angular/core/src/view/types.ts:226-230 | every DepFlags member is the single bit at its declared position |
| ViewTypes.ViewStateAreBits | modules/@angular/core/src/view/types.ts:309-314 | every ViewState member is the single bit at its declared position |
| ViewTypes.HasOr | modules/@angular/core/src/view/view.ts:79-90 | a mask hits an OR-aggregated flag word exactly when it hits one of the operands: aggregation loses no bit |
| ViewTypes.SetShows | modules/@angular/core/src/view/view.ts:489 | after `state \|= b` the bits of a non-empty b are seen |
| ViewTypes.SetKeeps | modules/@angular/core/src/view/view.ts:489 | `state \|= b` leaves every bit disjoint from b as it was |
| ViewTypes.ClearHides | modules/@angular/core/src/view/view.ts:368-371 | after `state &= ~b` no bit of b is seen |
| ViewTypes.ClearKeeps | modules/@angular/core/src/view/view.ts:368-371 | `state &= ~b` leaves every bit disjoint from b as it was |
| ViewTypes.Lookup | modules/@angular/core/src/view/provider.ts:364-366 | a prototype-chain property read: a key the table owns answers with its own entry |
| Views.InitialStateBits | modules/@angular/core/src/view/view.ts:247 | a new view is in its first check and passes the check guard |
| Views.AfterCheckBits | modules/@angular/core/src/view/view.ts:368-371 | after a check FirstCheck is cleared, ChecksEnabled stays exactly when the view is not OnPush, and Errored and Destroyed are unchanged |
| Views.CanCheckBits | modules/@angular/core/src/view/view.ts:555-567 | the guard of both check actions holds exactly when ChecksEnabled is set and neither Errored nor Destroyed is |
| Views.WfShape | modules/@angular/core/src/view/types.ts:286-304 | well-formedness of a tree of views depends only on parents, child lists and data kinds, so writing node data of the same kind keeps it |
| Views.SubtreesDisjoint | modules/@angular/core/src/view/view.ts:511-553 | two different child views of one view root disjoint subtrees, so a walk over one child's subtree never touches the other's |
| Views.SetStateKeeps | modules/@angular/core/src/view/view.ts:368-371 | writing a view's state bits keeps the arena well formed and changes nothing outside that view |
| Views.Arena.constructor | modules/@angular/core/src/view/types.ts:286-304 | the arena starts with no views and no identities handed out |
| Views.Arena.Fresh | modules/@angular/core/src/view/provider.ts:132-166 | each object the runtime makes gets an identity no earlier object has; the views are unchanged |
| ViewShape.ChildFlagsHit | modules/@angular/core/src/view/types.ts:99-102 | in an aggregated definition, a node's childFlags hit a mask exactly when some node in its childCount range carries it |
| ViewShape.NodeFlagsHit | modules/@angular/core/src/view/types.ts:33-34 | in an aggregated definition, the view's nodeFlags hit a mask exactly when some node carries it |
| ViewDefSpec.ParentScan | modules/@angular/core/src/view/view.ts:42-52 | the nearest node before j whose childCount range covers i, and no node between it and j covers i; none when no earlier node covers i |
| ViewDefSpec.ParentOf | modules/@angular/core/src/view/view.ts:42-52 | the parent viewDef gives node i is the nearest earlier node whose range covers i, and a root node has no covering node before it |
| ViewDefSpec.RenderParentOf | modules/@angular/core/src/view/view.ts:58-65 | the render parent comes before the node and is never an ng-container: an ng-container parent passes on its own render parent |
| ViewDefSpec.FlagsInSplit | modules/@angular/core/src/view/view.ts:79-90 | the OR of a range of node flags is the OR of its two halves |
| ViewDefSpec.FlagsInHas | modules/@angular/core/src/view/view.ts:79-90 | a range's aggregated flags hit a mask exactly when one of its nodes' flags does |
| ViewDefSpec.ReverseIndexStep | modules/@angular/core/src/view/view.ts:146-183 | a root's reverse index is `nodeCount - 1` minus its last descendant's index; a child's is its parent's end in reverse order minus its last descendant's offset in the parent |
| ViewDefSpec.ReverseIndexInRange | modules/@angular/core/src/view/view.ts:146-183 | in a nested list a node and its childCount descendants fit inside 0 .. nodeCount-1 in reverse child order |
| ViewDefSpec.ReverseIndexDescendant | modules/@angular/core/src/view/view.ts:148-152 | in reverse child order a node comes before each descendant, and the descendant's block lies inside the node's |
| ViewDefSpec.ReverseIndexAfter | modules/@angular/core/src/view/view.ts:154-157 | sibling subtrees are mirrored: a node after i's whole subtree comes, with its subtree, before i |
| ViewDefSpec.ReverseIndexInjective | modules/@angular/core/src/view/view.ts:146-183 | different nodes get different reverse indices |
| ViewDefSpec.Pigeonhole | modules/@angular/core/src/view/view.ts:76 | n different values taken from 0 .. n-1 take every one of them |
| ViewDefSpec.ReverseIndexPermutation | modules/@angular/core/src/view/view.ts:76 | in a nested list the reverse child index is a permutation of 0 .. nodeCount-1, so reverseChildNodes gets exactly one node per slot |
| ViewDefSpec.ValidateNode | modules/@angular/core/src/view/view.ts:185-217 | an error names the node; a last template root with embedded views, a provider or directive not under an element, a content query not under a directive, a view query with a parent, and a childCount range leaving the parent's are rejected; an accepted node with children stays inside its parent |
| ViewDefSpec.ValidateNodeReads | modules/@angular/core/src/view/view.ts:185-217 | validateNode reads only the parent's type, index and childCount and the node's input fields, so it answers the same on the original and the rewritten list |
| ViewDefSpec.AcceptedNested | modules/@angular/core/src/view/view.ts:210-216 | when every node passes the childCount check, every node's range nests inside its parent's |
| ViewDefSpec.AcceptedShape | modules/@angular/core/src/view/view.ts:185-217 | an accepted list has nested ranges, providers and directives under elements, content queries under directives and view queries at the top level |
| ViewDefSpec.LastRootBefore | modules/@angular/core/src/view/view.ts:95-97 | the last node before m with no render parent: it is a root and every later node before m has a render parent |
| ViewDefSpec.ComponentOf | modules/@angular/core/src/view/view.ts:118-120 | an element's component is the last component provider or directive among its children seen so far |
| ViewDefSpec.ComponentOfNone | modules/@angular/core/src/view/view.ts:118-120 | an element has no component from children that come before it |
| ViewDefBuilder.OrIntoParent | modules/@angular/core/src/view/view.ts:43-48 | popping the cursor ORs its childFlags into its parent, moves the cursor to that parent, and changes no other node |
| ViewDefBuilder.ParentFromStack | modules/@angular/core/src/view/view.ts:52 | once the climb stops, the cursor is node i's parent as ParentOf defines it |
| ViewDefBuilder.CloseTop | modules/@angular/core/src/view/view.ts:43-48 | closing a range that has ended keeps the builder's invariant one level down the chain |
| ViewDefBuilder.CursorReads | modules/@angular/core/src/view/view.ts:52-65 | the reverse index, the render parent and the validation error read off the cursor agree with ReverseIndex, RenderParentOf and NodeError |
| ViewDefBuilder.PlaceNode | modules/@angular/core/src/view/view.ts:50-77 | node i is written back with its computed index, parent, render parent, reverse index and counters, an element gets its parent's public table or a fresh root table, and the result is validateNode's answer |
| ViewDefBuilder.RegisterProvider | modules/@angular/core/src/view/view.ts:98-121 | registering the node at i writes exactly the parent element's tables as Register says, and no other node |
| ViewDefBuilder.VisitNode | modules/@angular/core/src/view/view.ts:50-124 | one pass after the climb fails exactly as the value-level visit does, and otherwise leaves the node list, reverseChildNodes and locals that visit describes |
| ViewDefBuilder.Climb | modules/@angular/core/src/view/view.ts:42-49 | the climb leaves the node list and cursor of the value-level climb: each ended range ORs its childFlags into its parent |
| ViewDefBuilder.Step | modules/@angular/core/src/view/view.ts:41-125 | one pass fails with node i's validation error, or keeps viewDef's loop invariant with node i placed |
| ViewDefBuilder.CloseAll | modules/@angular/core/src/view/view.ts:126-133 | the closing climb ends with no cursor and every range closed, each node's childFlags the OR of its whole range |
| ViewDefBuilder.Scan | modules/@angular/core/src/view/view.ts:41-125 | the loop fails with the error of the first node validateNode rejects, or ends with every node placed |
| ViewDefBuilder.Finalize | modules/@angular/core/src/view/view.ts:126-143 | the returned definition is Built from the input: placed nodes, full childFlags, reverseChildNodes, nodeFlags, lastRootNode, counts and provider tables |
| ViewDefBuilder.ViewDef | modules/@angular/core/src/view/view.ts:24-144 | an empty list throws; otherwise the result is a definition exactly when every node is accepted, a failure is the first rejected node's error, and a success is Built from the input |
| ViewDefFacts.BuiltReversePermutation | modules/@angular/core/src/view/types.ts:35-39 | reverseChildNodes lists every node exactly once, at the position of its reverseChildIndex |
| ViewDefFacts.BuiltReverseOrder | modules/@angular/core/src/view/types.ts:35-39 | parents come before their descendants, and children come in reverse order |
| ViewDefFacts.BuiltFlagsKept | modules/@angular/core/src/view/view.ts:50-56 | viewDef keeps each node's own flags |
| ViewDefFacts.BuiltAggregated | modules/@angular/core/src/view/types.ts:33-34 | every node's childFlags is the OR of its descendants' flags, and nodeFlags the OR of all nodes' flags |
| ViewDefFacts.BuiltReverseBlocks | modules/@angular/core/src/view/types.ts:35-39 | in reverseChildNodes the childCount positions after a node hold exactly its descendants |
| ViewDefFacts.BuiltWalkable | modules/@angular/core/src/view/types.ts:92-124 | every definition viewDef returns is indexed, aggregated and reverse-blocked, the shape the walks rely on |
| ViewDefFacts.BuiltProviderLookup | modules/@angular/core/src/view/view.ts:98-121 | whatever an element's public or all-providers table yields for a token, through its prototype chain, is a provider or directive registered under that token |
| ProviderTables.CreateLookup | modules/@angular/core/src/view/view.ts:102-103 | `Object.create(proto)` makes a fresh table that reads through to its prototype and changes no older table's reads |
| ProviderTables.PutLookup | modules/@angular/core/src/view/view.ts:109 | a write is read back through its own table and changes no other key, and no table older than the one written |
| ProviderTables.RegisterShape | modules/@angular/core/src/view/view.ts:98-121 | a registration keeps the heap ordered, only grows it, and keeps the all-providers table equal to or directly over the public one |
| ProviderTables.RegisterEntries | modules/@angular/core/src/view/view.ts:98-121 | a registration writes exactly one entry, token to node |
| ProviderTables.RegisterPublicVisible | modules/@angular/core/src/view/view.ts:106-109 | a public provider or a component is found through the element's public table afterwards |
| ProviderTables.RegisterPrivateHidden | modules/@angular/core/src/view/view.ts:110-116 | a private non-component provider is found through the all-providers table and every public lookup answers as before |
| ProviderTables.LookupFromEntry | modules/@angular/core/src/view/provider.ts:364-366 | a lookup answers only with an entry of some table on the prototype chain |
| ProviderTables.AllOverPublicGrows | modules/@angular/core/src/view/view.ts:69-71 | an element's two tables stay related while the heap grows |
| ViewWalks.Targets | modules/@angular/core/src/view/view.ts:584-609 | the nodes a walk acts on are exactly those in the range whose own flags meet the masks |
| ViewWalks.TargetsComplete | modules/@angular/core/src/view/view.ts:584-609 | no node of the range that meets the masks is missing from the targets |
| ViewWalks.TargetsAscending | modules/@angular/core/src/view/view.ts:516 | targets are listed in ascending node order, each once |
| ViewWalks.TargetsSplit | modules/@angular/core/src/view/view.ts:516 | the targets of a range are the targets of its two halves, in order |
| ViewWalks.SkipLosesNothing | modules/@angular/core/src/view/view.ts:603-607 | when a node's childFlags miss a mask, none of its descendants is a target, so jumping over them loses nothing |
| ViewWalks.NoTargetsAtAll | modules/@angular/core/src/view/view.ts:586-588 | when the view's nodeFlags miss a mask, the early return skips no target |
| ViewWalks.LeafWalkStep | modules/@angular/core/src/view/view.ts:516-528 | a node carrying the mask is acted on, and one whose flags and childFlags both miss it is jumped over with its descendants, losing no target |
| ViewWalks.QueryWalkStep | modules/@angular/core/src/view/view.ts:590-608 | a node meeting both masks is acted on, and its descendants are jumped over whenever its childFlags miss either mask, losing no target |
| ViewWalks.HookTargets | modules/@angular/core/src/view/provider.ts:436-450 | the nodes the hook walk acts on, in reverseChildNodes order, are exactly those whose flags meet the lifecycles |
| ViewWalks.HookTargetsSplit | modules/@angular/core/src/view/provider.ts:436 | the hook targets of a range of positions are those of its two halves |
| ViewWalks.HookSkipLosesNothing | modules/@angular/core/src/view/provider.ts:444-449 | the childCount positions after a node whose childFlags miss the lifecycles hold no hook target |
| ViewWalks.HookWalkStep | modules/@angular/core/src/view/provider.ts:438-443 | a position whose node meets the lifecycles adds that node to the hook targets walked so far |
| ViewWalks.HookWalkSkip | modules/@angular/core/src/view/provider.ts:444-449 | a position whose node and childFlags both miss the lifecycles is passed over, with its childCount positions, without losing a target |
| ViewWalks.NoHookTargets | modules/@angular/core/src/view/provider.ts:432-434 | when nodeFlags miss the lifecycles, the early return skips no hook target |
| Providers.DepDefs | modules/@angular/core/src/view/provider.ts:88-98 | one dependency definition per listed dependency, with its token; a `[flags, token]` pair keeps its flags and a bare token gets none |
| Providers.ComponentFlags | modules/@angular/core/src/view/provider.ts:99-101 | a node's flags carry HasComponent exactly when it has a component factory or its flags already did |
| Providers.ComponentFlagsKeep | modules/@angular/core/src/view/provider.ts:99-101 | adding HasComponent leaves every other bit as it was |
| Providers.Def | modules/@angular/core/src/view/provider.ts:70-130 | a well-shaped provider, directive or pipe node with no childFlags and no parent yet, its bindings as given, one disposable per output, and its provider record from the arguments |
| Providers.PlaceBindingsSlots | modules/@angular/core/src/view/provider.ts:37-48 | with distinct binding slots, every input ends up in its own slot |
| Providers.DirectiveDefFacts | modules/@angular/core/src/view/provider.ts:31-58 | a directive is a Class provider built from its constructor, with each input's binding in the input's slot with its names, one disposable per output, and HasComponent exactly when it has a component factory or the flags said so |
| Providers.PipeDef | modules/@angular/core/src/view/provider.ts:60-62 | a pipe is a Class provider of its constructor with no children, bindings or outputs and its flags unchanged |
| Providers.ProviderDefNode | modules/@angular/core/src/view/provider.ts:64-68 | a provider node of the given kind, token and value, with no children, bindings or outputs and its flags unchanged |
| Providers.ClimbToComp | modules/@angular/core/src/view/provider.ts:389-391 | the climb ends at the view itself or an ancestor, and that view is a component view or the root |
| Providers.FindCompView | modules/@angular/core/src/view/provider.ts:383-394 | with private services, the component view of the element's component, whose parent is the current view; otherwise the component view the current view belongs to |
| Providers.LookupReady | modules/@angular/core/src/view/provider.ts:364-368 | every provider-table lookup of an element names a provider node of the view |
| Providers.LookHereProvider | modules/@angular/core/src/view/provider.ts:363-373 | a provider answer at an element is a provider node of the current view, found in the table private services select |
| Providers.SearchFindsAncestor | modules/@angular/core/src/view/provider.ts:336-379 | a provider found by the resolver lives in the starting view or in one of its ancestors |
| Providers.SearchHere | modules/@angular/core/src/view/provider.ts:336-379 | a provider found in the starting view was found at the starting element, in the table private services select |
| Providers.SkipSelfPublicOnly | modules/@angular/core/src/view/provider.ts:331-334 | with SkipSelf, a provider of the same view comes from the public table of the element's parent, never from the element itself |
| Providers.ResolveOwnTable | modules/@angular/core/src/view/provider.ts:336-375 | without SkipSelf, a provider of the starting view comes from the starting element's table that private services select |
| Providers.SearchAsksRoot | modules/@angular/core/src/view/provider.ts:380 | past the root view the root injector is asked for the dependency's own token |
| Providers.ResolveAsksRoot | modules/@angular/core/src/view/provider.ts:326-328 | the root injector's fallback is null exactly when the dependency is Optional |
| Providers.OnlyCreatedShape | modules/@angular/core/src/view/provider.ts:369-371 | making lazy instances keeps the shape of every view, hence well-formedness |
| Providers.StoreMakes | modules/@angular/core/src/view/provider.ts:369-371 | storing the first instance of a NOT_CREATED provider only makes an instance |
| Providers.ResolvedToStays | modules/@angular/core/src/view/provider.ts:369-372 | making more instances later never changes a value already resolved |
| Providers.OutcomeValue | modules/@angular/core/src/view/provider.ts:319-381 | a successful resolution agrees with where the dependency resolves: the resolver's own answer or the provider's stored instance |
| Providers.ResolveDep | modules/@angular/core/src/view/provider.ts:319-381 | resolveDep's outcome is the one the pure search Resolve predicts, and the only change to the views is lazy instances made and stored |
| Providers.ProviderValue | modules/@angular/core/src/view/provider.ts:367-372 | a made instance is returned unchanged with no events; a NOT_CREATED one is made exactly as provider creation makes it, with its events, and that same value is stored in the slot; out of fuel is TooDeep; non-provider data throws |
| Providers.ResolveDeps | modules/@angular/core/src/view/provider.ts:276-281 | the arguments are resolved in order, each as its dependency resolves, and only lazy instances change |
| Providers.CreateClass | modules/@angular/core/src/view/provider.ts:254-284 | `new ctor(...)` runs on the values the dependencies resolved to and makes a fresh object |
| Providers.CallFactory | modules/@angular/core/src/view/provider.ts:286-317 | `factory(...)` runs on the values the dependencies resolved to and makes a fresh object |
| Providers.CreateProviderNow | modules/@angular/core/src/view/provider.ts:230-252 | the instance is built by the provider's kind: Class and Factory from the resolved dependencies, UseExisting as its first dependency resolves, Value as the value itself |
| Providers.CreatePipeInstance | modules/@angular/core/src/view/provider.ts:136-148 | a pipe is built from the host element of the component view its view belongs to, with private services allowed |
| Providers.WithSubscriptionsSlots | modules/@angular/core/src/view/provider.ts:162 | storing subscriptions touches only view v's disposables: slot from + i holds the i-th subscription and every other slot is as it was |
| Providers.SubscribeEvents | modules/@angular/core/src/view/provider.ts:158-163 | one Subscribe event per output, in output order, each dispatching to the directive's element |
| Providers.StoreSubscription | modules/@angular/core/src/view/provider.ts:162 | one more unsubscribe is kept in the next disposable slot and nothing else changes |
| Providers.SubscribeOutputs | modules/@angular/core/src/view/provider.ts:157-164 | one subscription per output, each with a fresh identity in increasing order, stored in consecutive disposable slots with matching Subscribe events |
| Providers.CreateDirectiveInstance | modules/@angular/core/src/view/provider.ts:150-166 | a Class instance whose dependencies see private services exactly for a component, then its outputs subscribed after it, in order, in the directive's disposable slots |
| Providers.CreateProviderInstance | modules/@angular/core/src/view/provider.ts:132-134 | a lazy provider starts as NOT_CREATED and nothing else changes; any other is made at once |
| Providers.SearchViews | modules/@angular/core/src/view/provider.ts:336-380 | the loop of resolveDep returns what the pure search from the start element predicts: the first element up the view chain that answers, or the root injector |
| ProviderChecks.HookPicks | modules/@angular/core/src/view/provider.ts:453-469 | the positions of the hooks the lifecycles include, and only those |
| ProviderChecks.HookPicksComplete | modules/@angular/core/src/view/provider.ts:453-469 | every hook the lifecycles include is picked |
| ProviderChecks.HookPicksAscending | modules/@angular/core/src/view/provider.ts:453-469 | the hooks are picked in the fixed order, each once |
| ProviderChecks.ProviderLifecycleEvents | modules/@angular/core/src/view/provider.ts:453-469 | every hook called on the instance is one the lifecycles include |
| ProviderChecks.ProviderLifecycleEventsOrder | modules/@angular/core/src/view/provider.ts:453-469 | each included hook is called, once, in the order ngAfterContentInit, ngAfterContentChecked, ngAfterViewInit, ngAfterViewChecked, ngOnDestroy |
| ProviderChecks.HookEventsSound | modules/@angular/core/src/view/provider.ts:440-443 | every hook the walk calls is one the node's flags declare and the caller asked for, in the walked view |
| ProviderChecks.HookEventsComplete | modules/@angular/core/src/view/provider.ts:440-443 | each listed node gets every hook it declares among the lifecycles |
| ProviderChecks.ReadyPrefix | modules/@angular/core/src/view/provider.ts:29 | the listed nodes, from the first on, whose data holds a created instance, up to the first that holds NOT_CREATED or no provider data |
| ProviderChecks.ReadyPrefixAll | modules/@angular/core/src/view/provider.ts:133 | every listed node can have its hooks called exactly when none holds NOT_CREATED or other data |
| ProviderChecks.HookRunFacts | modules/@angular/core/src/view/provider.ts:431-451 | the walk runs through exactly when every hook target holds a created instance, and then calls the hooks of all of them; whatever it calls is a hook a target declares, in the walked view |
| ProviderChecks.HooksStopAt | modules/@angular/core/src/view/provider.ts:443 | at a target holding NOT_CREATED the hook call throws: the walk ends, having called the hooks of the targets before it |
| ProviderChecks.HooksNone | modules/@angular/core/src/view/provider.ts:432-434 | when the view's nodeFlags miss the lifecycles nothing is called |
| ProviderChecks.CallLifecycleHooksChildrenFirst | modules/@angular/core/src/view/provider.ts:431-451 | the hooks called and whether the walk threw are HookRun's: the hooks of the targets in reverse child order, up to the first target without a created instance |
| ProviderChecks.PropStep | modules/@angular/core/src/view/provider.ts:396-429 | one binding check keeps the size of oldValues, and a change is stored in the binding's slot and the instance and recorded under OnChanges |
| ProviderChecks.FoldLeavesOthers | modules/@angular/core/src/view/provider.ts:402-403 | a binding's slot keeps its old value until its own turn, so each binding is compared against the value held before the directive check |
| ProviderChecks.FoldOldValues | modules/@angular/core/src/view/provider.ts:403-410 | after the check a binding that reported a change holds its new value and every other slot is as before |
| ProviderChecks.FoldAnyChanged | modules/@angular/core/src/view/provider.ts:410 | the check reports a change exactly when some binding reported one |
| ProviderChecks.FoldChangeKeys | modules/@angular/core/src/view/provider.ts:401-426 | without OnChanges no SimpleChanges are recorded; with it, a key is recorded exactly for the non-minified name of a binding that changed |
| ProviderChecks.FoldChangeValues | modules/@angular/core/src/view/provider.ts:402-406 | a recorded SimpleChange holds the binding's value before the check, its new value and whether this is the first check |
| ProviderChecks.DirectiveCheckChanges | modules/@angular/core/src/view/provider.ts:411-415 | a directive check changes only its view and the directive's component view, keeps every view's shape, and a re-enabled component view gets ChecksEnabled and keeps its other bits |
| ProviderChecks.AfterDirectiveCheckTwice | modules/@angular/core/src/view/provider.ts:396-429 | two directive checks of the same node in a row amount to one with the later values |
| ProviderChecks.AfterDirectiveCheckStart | modules/@angular/core/src/view/provider.ts:396-429 | a check where nothing changed leaves the views as they are |
| ProviderChecks.CheckAndUpdateProp | modules/@angular/core/src/view/provider.ts:396-429 | the new views are PropStep's: the slot, the instance property, the SimpleChange and an OnPush component view re-enabled when the binding changed |
| ProviderChecks.CheckProps | modules/@angular/core/src/view/provider.ts:216-218 | the bindings checked in order give the views and SimpleChanges of the fold over them |
| ProviderChecks.DirectiveHookEvents | modules/@angular/core/src/view/provider.ts:201-209 | ngOnChanges first when a change was recorded, ngOnInit exactly in the first check with OnInit, ngDoCheck last exactly with DoCheck |
| ProviderChecks.InlineOrder | modules/@angular/core/src/view/provider.ts:179-200 | the fall-through switch visits the bindings from the last down to the first for one to ten bindings, and none otherwise |
| ProviderChecks.InlineOrderCovers | modules/@angular/core/src/view/provider.ts:179-200 | for one to ten bindings every binding is visited once |
| ProviderChecks.CheckAndUpdateDirectiveInline | modules/@angular/core/src/view/provider.ts:172-210 | the views are the fold over the inline order with each binding's own argument, followed by the directive's hooks; only the view and its component view change |
| ProviderChecks.CheckAndUpdateDirectiveDynamic | modules/@angular/core/src/view/provider.ts:212-228 | the views are the fold over the values in order, one per binding from the first, followed by the directive's hooks; only the view and its component view change |
| ViewRuntime.CheckOrder | modules/@angular/core/src/view/view.ts:425-460 | the inline check visits bindings from the last down to the first; the dynamic check visits positions 0 to the number of values, in order |
| ViewRuntime.CheckValues | modules/@angular/core/src/view/view.ts:425-460 | each visited binding is compared with the argument of its own position (v0 to v9) or with the values array in order |
| ViewRuntime.RecordSlotsFit | modules/@angular/core/src/view/view.ts:248 | every node's binding slots lie inside the view's oldValues array |
| ViewRuntime.CheckOrderFits | modules/@angular/core/src/view/view.ts:425-460 | every binding a check visits has its old value inside oldValues |
| ViewRuntime.FirstStale | modules/@angular/core/src/view/view.ts:458-460 | the first flagged binding from a position on: flagged, with none flagged before it, or none flagged at all |
| ViewRuntime.NoChangesVerdictOk | modules/@angular/core/src/view/view.ts:415-463 | a node check passes if and only if the node exists and no visited binding's old value is flagged as changed |
| ViewRuntime.CheckNoChangesNode | modules/@angular/core/src/view/view.ts:415-463 | the no-changes check of one node throws at the first flagged binding in visiting order (or on a missing node) and otherwise passes, writing nothing |
| ViewRuntime.ScanStale | modules/@angular/core/src/view/view.ts:456-460 | the loop over the bindings stops at exactly the first flagged one |
| ViewRuntime.QueryEvents | modules/@angular/core/src/view/view.ts:594-597 | one query update per target, in target order |
| ViewRuntime.QueryEventsAppend | modules/@angular/core/src/view/view.ts:590-597 | one more target adds its update at the end |
| ViewRuntime.QueryVerdictOk | modules/@angular/core/src/view/view.ts:465-472 | the query check passes if and only if every target holds a created query list that is not dirty |
| ViewRuntime.QueryVerdictAppend | modules/@angular/core/src/view/view.ts:590-602 | checking two runs of targets in turn gives the first run's failure, or else the second run's verdict |
| ViewRuntime.QueryFailsAt | modules/@angular/core/src/view/view.ts:465-472 | a dirty or missing query list after clean ones decides the whole walk: QueryChanged or a TypeError |
| ViewRuntime.QueryCleanAt | modules/@angular/core/src/view/view.ts:465-472 | a clean target keeps the walk clean so far |
| ViewRuntime.ExecQueriesAction | modules/@angular/core/src/view/view.ts:584-609 | updating acts on exactly the nodes meeting both masks, in depth-first order, and never fails; the no-changes check fails exactly as the query check over those same targets does and writes nothing |
| ViewRuntime.FirstEmpty | modules/@angular/core/src/view/view.ts:478-482 | the first slot holding no function, with every earlier slot filled, or every slot filled |
| ViewRuntime.Disposals | modules/@angular/core/src/view/view.ts:479-481 | disposable i of the view is called i-th |
| ViewRuntime.CallDisposables | modules/@angular/core/src/view/view.ts:478-482 | every disposable is called in index order; the call at the first empty slot throws after all earlier ones ran |
| ViewRuntime.FirstBareRenderNode | modules/@angular/core/src/view/view.ts:492-502 | the first element or text node whose data was never created, with every earlier one created, or none |
| ViewRuntime.DestroyNodeEvents | modules/@angular/core/src/view/view.ts:492-502 | only element and text nodes go to destroyNode, each of them does, and nothing from another view |
| ViewRuntime.DestroyViewNodes | modules/@angular/core/src/view/view.ts:492-502 | every element and text node is destroyed in index order; the first one never created throws after all earlier ones were destroyed |
| ViewRuntime.PassVerdictOk | modules/@angular/core/src/view/view.ts:338 | a closure's no-changes pass is clean if and only if every one of its node checks is |
| ViewRuntime.PassVerdictOkAt | modules/@angular/core/src/view/view.ts:338 | in a clean pass each node check is clean |
| ViewRuntime.PassVerdictFails | modules/@angular/core/src/view/view.ts:338 | a failing pass has a failing node check |
| ViewRuntime.NoChangesPass | modules/@angular/core/src/view/view.ts:338 | the closure's node checks run in order until one throws, and the pass's status is theirs |
| ViewRuntime.CheckableShape | modules/@angular/core/src/view/view.ts:387-394 | whether a node check can be carried out depends on the view's shape alone, not on values written by earlier checks |
| ViewRuntime.CheckOrderBinding | modules/@angular/core/src/view/view.ts:425-460 | a check visits bindings of its own node, each at most once |
| ViewRuntime.NodeCheckStep | modules/@angular/core/src/view/view.ts:384-413 | a node check changes only its view and the views below it, keeps the view's state and definition, and its events happen in the view |
| ViewRuntime.CheckAndUpdateNode | modules/@angular/core/src/view/view.ts:374-413 | the check succeeds if and only if the node exists and a directive holds its instance; a failure is a TypeError that changes nothing; a success is the node check step, confined to the view and below |
| ViewRuntime.ChecksRun | modules/@angular/core/src/view/view.ts:349 | node checks run one after another on the views each leaves, changing only the view and the views below it and keeping its state |
| ViewRuntime.ChecksRunOk | modules/@angular/core/src/view/view.ts:349 | a pass runs through if and only if every check can be carried out on the views before the pass |
| ViewRuntime.ChecksRunStopped | modules/@angular/core/src/view/view.ts:349 | after a check that cannot be carried out, later checks change nothing |
| ViewRuntime.ChecksRunNext | modules/@angular/core/src/view/view.ts:349 | one more check extends the pass by that check's writes and events when it can be carried out, and otherwise ends it failed with nothing added |
| ViewRuntime.RunNodeChecks | modules/@angular/core/src/view/view.ts:349 | the closure's checks run in order and the first TypeError ends the pass; the result is the pass function's, and it succeeds if and only if every check can be carried out |
| ViewRuntime.CallViewAction | modules/@angular/core/src/view/view.ts:555-577 | a check runs only when ChecksEnabled is set and Errored and Destroyed are clear, and otherwise changes nothing; the no-changes check writes nothing and its verdict is the view's own no-changes outcome; a check that runs through leaves exactly the checked record (second pass over the first, state after the check); destroying always runs and on success sets Destroyed; every event happens in the view or below it |
| ViewRuntime.ActOnViews | modules/@angular/core/src/view/view.ts:541-545 | the child views of the node are acted on one after another: on success every one of them is what callViewAction makes of it, nothing outside their subtrees changes, the parent view is untouched, and the events are the children's blocks in child order, each in its own child's subtree; the no-changes check writes nothing and its verdict is the first failing child's |
| ViewRuntime.ExecChildViewsAction | modules/@angular/core/src/view/view.ts:511-553 | the walk reaches exactly the child views of the nodes meeting the mask, in depth-first order; on success each of them is what callViewAction makes of it, only their subtrees change and the events are their blocks in that order; the no-changes walk writes nothing, and a target holding no data or the first failing child view decides its verdict |
| ViewRuntime.CheckNoChangesView | modules/@angular/core/src/view/view.ts:337-346 | nothing changes, and the verdict is the first failure among the directive pass, the embedded views' own checks, the dynamic content queries, the renderer pass, the component views' own checks and the dynamic view queries, or Ok when all pass |
| ViewRuntime.HalfHooksBits | modules/@angular/core/src/view/view.ts:354-356 | the checked hook is always asked for, the init hook exactly in the first check |
| ViewRuntime.ViewReady | modules/@angular/core/src/view/view.ts:236-251 | every view in a well-formed arena has a walkable definition, one data slot per node and oldValues covering every binding |
| ViewRuntime.HooksUnder | modules/@angular/core/src/view/view.ts:354-356 | the hooks of a view happen in that view |
| ViewRuntime.CheckAndUpdateHalf | modules/@angular/core/src/view/view.ts:349-356 | the view ends as its node checks leave it; success means every check could be carried out, every hook target holds an instance, and the events are the checks', the child views', the dynamic query updates and then the hooks; the child views of the half's nodes (embedded views for the content half, component views for the view half) each end as checkAndUpdate makes them, with one event block per child view inside its subtree, and nothing outside their subtrees changes |
| ViewRuntime.FinishHalf | modules/@angular/core/src/view/view.ts:351-356 | the dynamic query updates then the hooks children first; it succeeds if and only if every hook target holds a created instance |
| ViewRuntime.HalfEventsSplit | modules/@angular/core/src/view/view.ts:349-356 | a half's events are those of its checks and child views followed by those of its end |
| ViewRuntime.CheckAndUpdateView | modules/@angular/core/src/view/view.ts:348-372 | a check that runs through leaves the view as the renderer pass run over the directive pass's result, with FirstCheck cleared and, for OnPush, ChecksEnabled cleared; its events are the content half (the directive checks' events first) before the view half (the renderer checks' events first), the rest of each half below the view; the content half's events after the directive checks are exactly the embedded views' blocks, one per embedded view of the first pass, each view ending as checkAndUpdate makes it in the arena between the halves (where only their subtrees changed), and the view half's are exactly the component views' blocks, each component view ending checked likewise; a throw leaves the state as it was |
| ViewRuntime.KidsActedSetParent | modules/@angular/core/src/view/view.ts:368-371 | setting the view's own state after its halves keeps what the action made of every child view |
| ViewRuntime.KidsCheckedSetParent | modules/@angular/core/src/view/view.ts:368-371 | setting the view's own state after its halves keeps the checked child views of a half and their event blocks |
| ViewRuntime.TeardownView | modules/@angular/core/src/view/view.ts:477-488 | the own teardown runs through if and only if every ngOnDestroy target holds an instance, every disposable slot is filled and every render node was created; then its events are the hooks, the disposables, the destroyed nodes and the renderer's destroy, in that order |
| ViewRuntime.DestroyChildViews | modules/@angular/core/src/view/view.ts:475-476 | on success every embedded child view, then every component child view, is destroyed (its Destroyed bit set), the events are the embedded views' blocks followed by the component views' blocks, each in its own child's subtree, and the view itself is untouched |
| ViewRuntime.DestroyView | modules/@angular/core/src/view/view.ts:474-490 | success sets Destroyed and nothing else in the view, after the embedded then component child views were destroyed and the own teardown ran, with the events in that order; a throw leaves the view's record as it was |
| ViewRuntime.FirstPass | modules/@angular/core/src/view/view.ts:349 | the directive pass changes only the view and the views below it and keeps its definition |
| ViewRuntime.SecondHalfPass | modules/@angular/core/src/view/view.ts:358 | the renderer pass run on any arena agreeing with the first pass at the view gives the second pass's record and events |
| ViewRuntime.CheckedRecordLocal | modules/@angular/core/src/view/view.ts:348-372 | the record a check leaves depends on the view's own record only and keeps its shape |
| ViewRuntime.ActedJoin | modules/@angular/core/src/view/view.ts:541-545 | acting on two groups of sibling views in turn acts on all of them: what the first group made stays and the second found its views unchanged |
| ViewRuntime.ActOnKid | modules/@angular/core/src/view/view.ts:543-544 | one child view is acted on: only its subtree changes, its block of events happens in it, and on success it is what callViewAction makes of it; a failure stops the walk with the verdict of the node's child views |
| ViewRuntime.WalkTarget | modules/@angular/core/src/view/view.ts:534-545 | one target node is handled: a node holding no data throws, otherwise its child views are acted on; the walk's reach and blocks grow by that node's child views and the no-changes verdict is that of the walk so far |
| ViewRuntime.KidsVerdictOk | modules/@angular/core/src/view/view.ts:541-545 | the child views pass exactly when every one that may be checked passes its own no-changes check |
| ViewRuntime.KidsVerdictLast | modules/@angular/core/src/view/view.ts:541-545 | a list of child views passes exactly when all but the last pass and the last, if it may be checked, passes its own check |
| ViewRuntime.KidsVerdictPassed | modules/@angular/core/src/view/view.ts:541-545 | when the child views pass, each one that may be checked passed its own no-changes check |
| ViewRuntime.KidsVerdictPasses | modules/@angular/core/src/view/view.ts:541-545 | when each child view that may be checked passes its own no-changes check, the child views pass |
| ViewRuntime.WalkVerdictOk | modules/@angular/core/src/view/view.ts:534-553 | a no-changes walk passes exactly when every target node holds data and its child views pass |
| ViewRuntime.KidsVerdictStopped | modules/@angular/core/src/view/view.ts:541-545 | after a failing child view the later ones do not change the verdict |
| ViewCreation.Repeat | modules/@angular/core/src/view/view.ts:239-240 | an array of n slots, every slot holding the same value |
| ViewCreation.AppendWf | modules/@angular/core/src/view/view.ts:236-251 | a new view fits its definition and lists no child views, so the arena stays well-formed when it is added |
| ViewCreation.StoreNodeWf | modules/@angular/core/src/view/view.ts:266-325 | storing data of the kind a node's type calls for keeps the arena well-formed, provided its child views are distinct newer views hanging off that node |
| ViewCreation.InitViewWf | modules/@angular/core/src/view/view.ts:253-256 | setting a view's component and context keeps the arena well-formed |
| ViewCreation.ComponentViewKids | modules/@angular/core/src/view/view.ts:302-304 | the component view a node stores is the one child view it lists |
| ViewCreation.SameViewCreated | modules/@angular/core/src/view/view.ts:266-325 | whether every node of a view has been created depends on the kinds of its data only |
| ViewCreation.OnlyCreatedKeepsBare | modules/@angular/core/src/view/provider.ts:367-372 | making lazy instances never touches a view holding no provider data |
| ViewCreation.CreateView | modules/@angular/core/src/view/view.ts:236-251 | the new view is appended to the arena, in its first check with checks enabled and no node data, and its index is returned |
| ViewCreation.InitView | modules/@angular/core/src/view/view.ts:253-256 | the view gets the component and context given and nothing else changes |
| ViewCreation.AttachComponentView | modules/@angular/core/src/view/view.ts:302-304 | the component view is appended as a new view hanging off the directive, and the node stores it with an undefined instance |
| ViewCreation.MakeDirectiveInstance | modules/@angular/core/src/view/view.ts:305 | only lazy instances are made elsewhere; on success the outputs' subscriptions are stored in the view's disposables |
| ViewCreation.InstallComponent | modules/@angular/core/src/view/view.ts:305-306 | the instance made becomes the node's instance and the component view's component and context; a throw leaves an undefined instance |
| ViewCreation.CreateComponent | modules/@angular/core/src/view/view.ts:289-306 | a directive without a component factory is a TypeError that changes nothing; otherwise exactly one view is appended, the component view of the factory's definition, whose component and context are the directive's instance |
| ViewCreation.MakeInstance | modules/@angular/core/src/view/provider.ts:132-134 | the instance is NOT_CREATED exactly for a lazy provider; views keep their shape |
| ViewCreation.CreateProviderNode | modules/@angular/core/src/view/view.ts:276-311 | on success the node holds fresh provider data of its kind, with no component view, NOT_CREATED exactly for a lazy provider |
| ViewCreation.CreatePlainNode | modules/@angular/core/src/view/view.ts:270-275 | an element gets a new render element (with an empty list of embedded views when it anchors templates), a text a new render text, a pure expression an undefined value, a query a dirty list, ng-content nothing |
| ViewCreation.CreateNode | modules/@angular/core/src/view/view.ts:266-325 | each node type gets the data it calls for, only that node changes among the existing views, and at most one view is appended, the node's component view |
| ViewCreation.CreateNodes | modules/@angular/core/src/view/view.ts:266-326 | the nodes are created in index order until one throws, and the events are the per-node blocks in that order; a node that makes no instance never throws and gives exactly its NodeCreated event; a throw comes from an instance-making node and leaves every later node with its kind, NoData staying NoData; only the view's node data changes, every appended view is the component view of one of its nodes, and on success every node is made |
| ViewCreation.ComponentAt | modules/@angular/core/src/view/view.ts:289-306 | a created component directive holds a component view that is newer than its own view |
| ViewCreation.WalkDone | modules/@angular/core/src/view/view.ts:511-529 | once the walk has acted on every component directive, each of their component views has all its nodes |
| ViewCreation.CreateComponentViews | modules/@angular/core/src/view/view.ts:511-529 | on success every component view of the view, and every view made on the way, has all its nodes; the views there were keep their shape |
| ViewCreation.CreateViewNodes | modules/@angular/core/src/view/view.ts:258-335 | a component view whose host element has no data is a TypeError that changes nothing; only the view's node data changes among the views there were; the events are the nodes' blocks in index order, then the component views', then on success one static query update per query node; on success it and every view made on the way have all their nodes |
| ViewCreation.NewViewWithNodes | modules/@angular/core/src/view/view.ts:219-234 | a new view is appended, initialised and has its nodes created; the views there were keep their shape |
| ViewCreation.CreateEmbeddedView | modules/@angular/core/src/view/view.ts:219-227 | an anchor without element data or without a template is a TypeError that changes nothing; otherwise the new view is made from the template table's definition for the anchor's template, hangs off the anchor, has the parent's renderer and component and the given context, leaves every earlier view's shape alone, and on success has all its nodes |
| ViewCreation.CreateRootView | modules/@angular/core/src/view/view.ts:229-234 | a new view with no parent whose component and context are both the given context; on success it has all its nodes |
| ViewCreation.SettleNode | modules/@angular/core/src/view/view.ts:266-326 | one node is created: the nodes before it keep their data, a node that makes no instance never throws and adds its NodeCreated block, and a view appended on the way is the component view of that node |

## Left out

- Numbers are `JsValues.Num(n: int)`. There are no fractions, NaN or infinities, so truthiness and strict equality of numbers follow integers.
- JsValues.Length: lengths count Dafny characters (code points), not the UTF-16 code units of JavaScript strings. The same holds for FormValidators.ActualLength, FormValidators.MinLengthIff and FormValidators.MaxLengthIff, and for the 30-character cut of DebugServices.NormalizeBindingValue.
- ViewBuilder.SortNames: names are ordered by ViewBuilder.Less, character by character on code points. JavaScript's default sort compares UTF-16 code units, so names outside the Basic Multilingual Plane may come out in another order.
- CompileViews.QueriesOf: the view queries are kept as a sequence, one per metadata entry. The token map that `addQueryToTokenMap` builds (compile_view.ts:117-127) is not modelled, nor are queries' own fields.
- DebugServices.ServiceState.DebugUpdateStart: the debug check functions' writes of `ng-reflect-*` attributes and comments (services.ts:220-254) are not modelled; only the binding name and value they would write are (DebugServices.BindingNameShape, DebugServices.NormalizeBindingValue).
- ViewRuntime.ExecQueriesAction: updating a query list (`checkAndUpdateQuery`, query.ts) is an event. query.ts is not part of this model, so the model does not say which nodes a query list collects. `matchedQueries`, `childMatchedQueries` and `matchedQueryIds` are not modelled.
- NgFor.NgForOf.NgDoCheck: requires `ChangesFit`, that every operation the differ reports fits the container. This is `IterableDiffer`'s guarantee; the differ is outside the model and its changes are a parameter.
- NgFor.NgForOf.ApplyChanges: requires `ChangesFit` for the same reason, and NgFor.ApplyOps requires `OpsFit`.
- Providers.DirectiveDef: requires `DenseProps`, that the inputs' binding slots are exactly 0 to n-1, as the compiler emits them. Sparse slots would leave holes in the `bindings` array, which the model does not represent.
- ProviderChecks.CheckAndUpdateDirectiveDynamic: requires `|values| <= |bindings|`. With more values than bindings, the source reads an undefined binding definition and throws a TypeError once one of the extra values has changed. ViewRuntime.EnvReady asks the same of every node check the generated code makes.
- ViewRuntime.CheckAndUpdateView: this and the other view walks, ViewRuntime.CheckNoChangesView, ViewRuntime.CallViewAction, ViewRuntime.DestroyView and the ViewCreation methods, require `EnvReady`. That is, the generated closures keep to their nodes' bindings, and every component factory yields a definition that `viewDef` accepts. Both come from the compiler, which is not part of this model.
- Providers.ResolveDep: creating a lazy provider can resolve further lazy providers without bound. A `fuel` parameter stands for the call stack, and running out of it is the `TooDeep` fault, in place of JavaScript's stack overflow. The same fuel bounds the nested component views of ViewCreation.CreateViewNodes.
- FormValidators.EqualsFrom: the form's fields are a flat map from path to value. `FormGroup.get` resolves dotted paths through nested groups; the model does not.
- FormValidators.Merged: `ɵmerge` is read as "later maps win", so a key's merged value is the one in the last error map that has it.
- `RegExp.prototype.test` (for `email` and `pattern`) is a parameter. Regular expressions are not interpreted.
- The flags the runtime uses but types.ts does not declare (PrivateProvider, the node-type and category flags, HasStaticQuery, HasDynamicQuery) are placed on free bits 13 to 21. DepFlags.Value gets bit 3.
- ViewRuntime.CheckAndUpdateNode: the checks of elements, texts and pure expressions (element.ts, text.ts, pure_expression.ts) are events. Those files are not part of this model, and neither is what a check writes to the renderer. `oldValues` is read by the no-changes check but never written; `checkAndUpdateBinding` (util.ts) is given as its answer, the `changed` test.
- DebugServices.ServiceState.InitServicesIfNeeded: `isDevMode` is a parameter. Which table is installed is modelled; the production services' own members are not.
- DebugServices.DebugContext.constructor: the debug context's `references`, `source`, `renderNode`, `componentRenderElement`, `injector`, `debugHandleEvent` and `debugCreateRootView` are not modelled.
- DebugServices.ServiceState.CallWithDebugContext: the called function is given as its outcome, and errors.ts is not part of this model. A wrapped error is a tag on the status, not a new error object.
- DebugServices.NormalizeBindingValue: `toString()` is given as its outcome `shown`; a value whose toString throws gives `None`.
- DebugServices.JumpsSound: it requires that node ranges nest, which `viewDef` guarantees (ViewDefSpec.AcceptedNested).
- Providers.ResolveDep: the answers for the Renderer, ElementRef, ViewContainerRef, TemplateRef, ChangeDetectorRef and Injector tokens are opaque values built from the view and element (refs.ts is not part of this model). What the root injector answers is left as a value naming the token and the not-found value it was asked with.
- Constructors, factories and `subscribe` are not run. Each call is an event, and the instance is a fresh opaque value.
- The DOM itself, `document`, the event manager, shadow roots and the debug renderer are not modelled. DomRendering records renderer calls as events on element ids.
- The animation files are not modelled. Their keyframe offsets are floating-point, and their backfill relies on prototype chains.
