/**
 * The `NgForOf` directive (modules/@angular/common/src/directives/ng_for_of.ts):
 * the per-row context and the application of an iterable diff to the
 * embedded views of its view container. The differ itself is not part of
 * this model: its output (the operations and identity changes) is an input.
 * The view container is a field of the directive holding the embedded views
 * in order; each view is known by a unique id, which stands for its identity.
 */
module NgFor {
  import opened Wrappers
  import opened JsValues

  /** `NgForOfRow`: the row context; `None` stands for the `null` the row is created with. */
  datatype Row = Row(implicit: JsValue, index: Option<int>, count: Option<int>)

  /** JavaScript's `a % 2`, whose sign follows `a`. */
  function JsRem2(a: int): (r: int)
    ensures -1 <= r <= 1
    ensures a >= 0 ==> r == a % 2
  {
    if a >= 0 then a % 2 else -((-a) % 2)
  }

  /** The `first` getter: `index === 0`. */
  predicate First(r: Row)
  {
    r.index == Some(0)
  }

  /** The `last` getter: `index === count - 1`, where a null count counts as 0 in the subtraction. */
  predicate Last(r: Row)
  {
    r.index.Some? && r.index.value == (if r.count.Some? then r.count.value else 0) - 1
  }

  /** The `even` getter: `index % 2 === 0`; a null index counts as 0. */
  predicate Even(r: Row)
  {
    r.index.None? || JsRem2(r.index.value) == 0
  }

  /** The `odd` getter: `!even`. */
  predicate Odd(r: Row)
  {
    !Even(r)
  }

  /** For a set index and count the getters mean what their names say, for negative indices too. */
  lemma RowGetters(item: JsValue, i: int, n: int)
    ensures First(Row(item, Some(i), Some(n))) <==> i == 0
    ensures Last(Row(item, Some(i), Some(n))) <==> i == n - 1
    ensures Even(Row(item, Some(i), Some(n))) <==> i % 2 == 0
    ensures Odd(Row(item, Some(i), Some(n))) <==> i % 2 == 1
  {
    if i < 0 {
      assert (-i) % 2 == 0 <==> i % 2 == 0 by {
        var q := (-i) / 2;
        assert -i == 2 * q + (-i) % 2;
        assert i == 2 * (-q - 1) + (2 - (-i) % 2);
      }
    }
  }

  /** An embedded view of the container, the template it was created from and its row context. */
  datatype EmbeddedView = EmbeddedView(id: nat, template: JsValue, context: Row)

  /**
   * One operation of `forEachOperation`: an insert when `previousIndex` is
   * null, a removal at `adjustedPreviousIndex` when `currentIndex` is null,
   * otherwise a move from `adjustedPreviousIndex` to `currentIndex`.
   */
  datatype Operation = Operation(item: JsValue, previousIndex: Option<int>, adjustedPreviousIndex: int, currentIndex: Option<int>)

  /** One record of `forEachIdentityChange`: the new item at a position. */
  datatype IdentityChange = IdentityChange(item: JsValue, currentIndex: int)

  /** What `_applyChanges` needs from the diff. */
  datatype Changes = Changes(operations: seq<Operation>, identityChanges: seq<IdentityChange>)

  /** A differ created for a `trackBy` function. */
  datatype Differ = Differ(trackBy: JsValue)

  /** A view that `_applyChanges` will give the record's item: the view's id and the item. */
  datatype Tuple = Tuple(viewId: nat, item: JsValue)

  function InsertAt<T>(s: seq<T>, i: nat, x: T): (r: seq<T>)
    requires i <= |s|
    ensures |r| == |s| + 1 && r[i] == x
    ensures forall k :: 0 <= k < i ==> r[k] == s[k]
    ensures forall k :: i < k < |r| ==> r[k] == s[k - 1]
  {
    s[..i] + [x] + s[i..]
  }

  function RemoveAt<T>(s: seq<T>, i: nat): (r: seq<T>)
    requires i < |s|
    ensures |r| == |s| - 1
    ensures forall k :: 0 <= k < i ==> r[k] == s[k]
    ensures forall k :: i <= k < |r| ==> r[k] == s[k + 1]
  {
    s[..i] + s[i + 1..]
  }

  /** Whether the view container accepts an operation on a container of length `len`. */
  predicate OpFits(op: Operation, len: nat)
  {
    if op.previousIndex.None? then op.currentIndex.Some? && 0 <= op.currentIndex.value <= len
    else if op.currentIndex.None? then 0 <= op.adjustedPreviousIndex < len
    else 0 <= op.adjustedPreviousIndex < len && 0 <= op.currentIndex.value < len
  }

  /** The container length after an operation. */
  function LengthAfter(op: Operation, len: nat): nat
  {
    if op.previousIndex.None? then len + 1
    else if op.currentIndex.None? then (if len > 0 then len - 1 else 0)
    else len
  }

  /** Every operation fits the container as the earlier ones left it. */
  predicate OpsFit(ops: seq<Operation>, len: nat)
    decreases |ops|
  {
    |ops| == 0 || (OpFits(ops[0], len) && OpsFit(ops[1..], LengthAfter(ops[0], len)))
  }

  /** The views after one operation, and the tuple it records if any; a new view gets id `next`. */
  function ApplyOp(views: seq<EmbeddedView>, op: Operation, template: JsValue, next: nat): (seq<EmbeddedView>, Option<Tuple>)
    requires OpFits(op, |views|)
  {
    if op.previousIndex.None? then
      (InsertAt(views, op.currentIndex.value, EmbeddedView(next, template, Row(Null, None, None))), Some(Tuple(next, op.item)))
    else if op.currentIndex.None? then
      (RemoveAt(views, op.adjustedPreviousIndex), None)
    else
      var view := views[op.adjustedPreviousIndex];
      (InsertAt(RemoveAt(views, op.adjustedPreviousIndex), op.currentIndex.value, view), Some(Tuple(view.id, op.item)))
  }

  /** The next free id after an operation: an insert uses one. */
  function NextAfter(op: Operation, next: nat): nat
  {
    if op.previousIndex.None? then next + 1 else next
  }

  /** The views and the tuples after all operations, in order. */
  function ApplyOps(views: seq<EmbeddedView>, ops: seq<Operation>, template: JsValue, next: nat): (r: (seq<EmbeddedView>, seq<Tuple>))
    requires OpsFit(ops, |views|)
    ensures |r.0| == LengthAfterOps(ops, |views|)
    decreases |ops|
  {
    if |ops| == 0 then (views, [])
    else
      ApplyOpCounts(views, ops[0], template, next);
      var (v1, t) := ApplyOp(views, ops[0], template, next);
      var (v2, ts) := ApplyOps(v1, ops[1..], template, NextAfter(ops[0], next));
      (v2, (if t.Some? then [t.value] else []) + ts)
  }

  /** The container length after all operations. */
  function LengthAfterOps(ops: seq<Operation>, len: nat): nat
    decreases |ops|
  {
    if |ops| == 0 then len else LengthAfterOps(ops[1..], LengthAfter(ops[0], len))
  }

  /** The next free id after all operations. */
  function NextAfterOps(ops: seq<Operation>, next: nat): (r: nat)
    ensures next <= r
    decreases |ops|
  {
    if |ops| == 0 then next else NextAfterOps(ops[1..], NextAfter(ops[0], next))
  }

  function Ids(views: seq<EmbeddedView>): seq<nat>
  {
    seq(|views|, k requires 0 <= k < |views| => views[k].id)
  }

  /** Pairwise distinct numbers, all below `next`. */
  predicate DistinctBelow(ids: seq<nat>, next: nat)
  {
    (forall k :: 0 <= k < |ids| ==> ids[k] < next) &&
    (forall k, l :: 0 <= k < l < |ids| ==> ids[k] != ids[l])
  }

  /** Views have pairwise distinct ids, all below `next`. */
  predicate IdsFresh(views: seq<EmbeddedView>, next: nat)
  {
    DistinctBelow(Ids(views), next)
  }

  lemma IdsInsert(views: seq<EmbeddedView>, i: nat, x: EmbeddedView)
    requires i <= |views|
    ensures Ids(InsertAt(views, i, x)) == InsertAt(Ids(views), i, x.id)
  {
  }

  lemma IdsRemove(views: seq<EmbeddedView>, i: nat)
    requires i < |views|
    ensures Ids(RemoveAt(views, i)) == RemoveAt(Ids(views), i)
  {
  }

  lemma MultisetInsert<T>(s: seq<T>, i: nat, x: T)
    requires i <= |s|
    ensures multiset(InsertAt(s, i, x)) == multiset(s) + multiset{x}
  {
    assert s == s[..i] + s[i..];
  }

  lemma MultisetRemove<T>(s: seq<T>, i: nat)
    requires i < |s|
    ensures multiset(RemoveAt(s, i)) == multiset(s) - multiset{s[i]}
  {
    assert s == s[..i] + [s[i]] + s[i + 1..];
  }

  /** `_perViewChange` on the view with the given id. */
  function SetImplicitOf(views: seq<EmbeddedView>, id: nat, item: JsValue): (r: seq<EmbeddedView>)
    ensures |r| == |views| && Ids(r) == Ids(views)
  {
    seq(|views|, k requires 0 <= k < |views| =>
      if views[k].id == id then views[k].(context := views[k].context.(implicit := item)) else views[k])
  }

  /** The tuples applied in order. */
  function ApplyTuples(views: seq<EmbeddedView>, tuples: seq<Tuple>): (r: seq<EmbeddedView>)
    ensures |r| == |views| && Ids(r) == Ids(views)
    decreases |tuples|
  {
    if |tuples| == 0 then views
    else ApplyTuples(SetImplicitOf(views, tuples[0].viewId, tuples[0].item), tuples[1..])
  }

  /** The context of every view numbered with its position and the container length. */
  function Renumber(views: seq<EmbeddedView>): (r: seq<EmbeddedView>)
    ensures |r| == |views| && Ids(r) == Ids(views)
  {
    seq(|views|, k requires 0 <= k < |views| =>
      views[k].(context := views[k].context.(index := Some(k), count := Some(|views|))))
  }

  predicate IdentityFits(changes: seq<IdentityChange>, len: nat)
  {
    forall k :: 0 <= k < |changes| ==> 0 <= changes[k].currentIndex < len
  }

  /** Whether the diff's operations and identity changes fit a container of length `len`. */
  predicate ChangesFit(c: Changes, len: nat)
  {
    OpsFit(c.operations, len) && IdentityFits(c.identityChanges, LengthAfterOps(c.operations, len))
  }

  /** Sets the item of the view at a position. */
  function SetImplicitAt(views: seq<EmbeddedView>, p: nat, item: JsValue): (r: seq<EmbeddedView>)
    requires p < |views|
    ensures |r| == |views| && Ids(r) == Ids(views)
  {
    var v := views[p];
    var r := views[p := v.(context := v.context.(implicit := item))];
    assert Ids(r) == Ids(views);
    r
  }

  /** The identity changes applied in order. */
  function ApplyIdentity(views: seq<EmbeddedView>, changes: seq<IdentityChange>): (r: seq<EmbeddedView>)
    requires IdentityFits(changes, |views|)
    ensures |r| == |views| && Ids(r) == Ids(views)
    decreases |changes|
  {
    if |changes| == 0 then views
    else ApplyIdentity(SetImplicitAt(views, changes[0].currentIndex, changes[0].item), changes[1..])
  }

  /** Whether every view's context holds its own position and the container length. */
  predicate Numbered(views: seq<EmbeddedView>)
  {
    forall k :: 0 <= k < |views| ==> views[k].context.index == Some(k) && views[k].context.count == Some(|views|)
  }

  /** Setting items after numbering keeps the numbering. */
  lemma {:induction false} IdentityKeepsNumbers(views: seq<EmbeddedView>, changes: seq<IdentityChange>)
    requires IdentityFits(changes, |views|) && Numbered(views)
    ensures Numbered(ApplyIdentity(views, changes))
    decreases |changes|
  {
    if |changes| > 0 {
      IdentityKeepsNumbers(SetImplicitAt(views, changes[0].currentIndex, changes[0].item), changes[1..]);
    }
  }

  /** The last identity change at a position decides the item there. */
  lemma {:induction false} IdentityLastWins(views: seq<EmbeddedView>, changes: seq<IdentityChange>, j: nat)
    requires IdentityFits(changes, |views|) && j < |changes|
    requires forall k :: j < k < |changes| ==> changes[k].currentIndex != changes[j].currentIndex
    ensures ApplyIdentity(views, changes)[changes[j].currentIndex].context.implicit == changes[j].item
    decreases |changes|
  {
    var views' := SetImplicitAt(views, changes[0].currentIndex, changes[0].item);
    if j == 0 {
      IdentityUntouched(views', changes[1..], changes[0].currentIndex);
    } else {
      IdentityLastWins(views', changes[1..], j - 1);
    }
  }

  /** Identity changes at other positions leave a view alone. */
  lemma {:induction false} IdentityUntouched(views: seq<EmbeddedView>, changes: seq<IdentityChange>, p: nat)
    requires IdentityFits(changes, |views|) && p < |views|
    requires forall k :: 0 <= k < |changes| ==> changes[k].currentIndex != p
    ensures ApplyIdentity(views, changes)[p] == views[p]
    decreases |changes|
  {
    if |changes| > 0 {
      IdentityUntouched(SetImplicitAt(views, changes[0].currentIndex, changes[0].item), changes[1..], p);
    }
  }

  /** An insert adds one view, a removal takes one, a move keeps the same views. */
  lemma ApplyOpCounts(views: seq<EmbeddedView>, op: Operation, template: JsValue, next: nat)
    requires OpFits(op, |views|)
    ensures |ApplyOp(views, op, template, next).0| == LengthAfter(op, |views|)
    ensures op.previousIndex.None? ==>
              multiset(Ids(ApplyOp(views, op, template, next).0)) == multiset(Ids(views)) + multiset{next}
    ensures op.previousIndex.Some? && op.currentIndex.None? ==>
              multiset(Ids(ApplyOp(views, op, template, next).0)) ==
              multiset(Ids(views)) - multiset{views[op.adjustedPreviousIndex].id}
    ensures op.previousIndex.Some? && op.currentIndex.Some? ==>
              multiset(Ids(ApplyOp(views, op, template, next).0)) == multiset(Ids(views))
  {
    if op.previousIndex.None? {
      var x := EmbeddedView(next, template, Row(Null, None, None));
      IdsInsert(views, op.currentIndex.value, x);
      MultisetInsert(Ids(views), op.currentIndex.value, next);
    } else {
      var a := op.adjustedPreviousIndex;
      IdsRemove(views, a);
      MultisetRemove(Ids(views), a);
      if op.currentIndex.Some? {
        IdsInsert(RemoveAt(views, a), op.currentIndex.value, views[a]);
        MultisetInsert(Ids(RemoveAt(views, a)), op.currentIndex.value, views[a].id);
      }
    }
  }

  /** Inserting a new number below the bound keeps the numbers distinct. */
  lemma InsertDistinct(ids: seq<nat>, i: nat, x: nat, bound: nat)
    requires i <= |ids| && DistinctBelow(ids, bound) && x < bound && x !in ids
    ensures DistinctBelow(InsertAt(ids, i, x), bound)
  {
    var r := InsertAt(ids, i, x);
    forall k, l | 0 <= k < l < |r|
      ensures r[k] != r[l]
    {
      if k < i && l > i {
        assert ids[k] != ids[l - 1];
      } else if k > i {
        assert ids[k - 1] != ids[l - 1];
      } else if k == i {
        assert ids[l - 1] in ids;
      } else if l == i {
        assert ids[k] in ids;
      }
    }
  }

  /** Removing a number keeps the rest distinct, and the number is gone. */
  lemma RemoveDistinct(ids: seq<nat>, i: nat, bound: nat)
    requires i < |ids| && DistinctBelow(ids, bound)
    ensures DistinctBelow(RemoveAt(ids, i), bound) && ids[i] !in RemoveAt(ids, i)
  {
    var r := RemoveAt(ids, i);
    forall k | 0 <= k < |r|
      ensures r[k] != ids[i]
    {
      if k >= i {
        assert ids[i] != ids[k + 1];
      }
    }
    forall k, l | 0 <= k < l < |r|
      ensures r[k] != r[l]
    {
      if k < i && l >= i {
        assert ids[k] != ids[l + 1];
      } else if k >= i {
        assert ids[k + 1] != ids[l + 1];
      }
    }
  }

  /** One operation keeps the ids fresh below the next free id. */
  lemma ApplyOpFresh(views: seq<EmbeddedView>, op: Operation, template: JsValue, next: nat)
    requires OpFits(op, |views|) && IdsFresh(views, next)
    ensures IdsFresh(ApplyOp(views, op, template, next).0, NextAfter(op, next))
  {
    var ids := Ids(views);
    if op.previousIndex.None? {
      var x := EmbeddedView(next, template, Row(Null, None, None));
      IdsInsert(views, op.currentIndex.value, x);
      assert next !in ids;
      InsertDistinct(ids, op.currentIndex.value, next, next + 1);
    } else {
      var a := op.adjustedPreviousIndex;
      IdsRemove(views, a);
      RemoveDistinct(ids, a, next);
      if op.currentIndex.Some? {
        IdsInsert(RemoveAt(views, a), op.currentIndex.value, views[a]);
        InsertDistinct(RemoveAt(ids, a), op.currentIndex.value, ids[a], next);
      }
    }
  }

  class NgForOf {
    /** The `ngForOf` input. */
    var ngForOf: JsValue
    var trackByFn: JsValue
    var differ: Option<Differ>
    var template: JsValue
    /** The view container's embedded views, in order. */
    var views: seq<EmbeddedView>
    /** The id the next created view receives. */
    var nextViewId: nat

    /** View ids are distinct and below the next free id. */
    predicate Valid()
      reads this
    {
      IdsFresh(views, nextViewId)
    }

    constructor(template: JsValue)
      ensures Valid() && this.template == template && differ.None? && views == [] && nextViewId == 0
      ensures ngForOf == Undefined && trackByFn == Undefined
    {
      ngForOf := Undefined;
      trackByFn := Undefined;
      differ := None;
      this.template := template;
      views := [];
      nextViewId := 0;
    }

    /** The `ngForOf` input setter. */
    method SetNgForOf(value: JsValue)
      modifies this
      ensures ngForOf == value
      ensures trackByFn == old(trackByFn) && differ == old(differ) && template == old(template)
      ensures views == old(views) && nextViewId == old(nextViewId)
    {
      ngForOf := value;
    }

    /** The `ngForTrackBy` setter (the development-mode warning is not modelled). */
    method SetTrackBy(fn: JsValue)
      modifies this
      ensures trackByFn == fn
      ensures ngForOf == old(ngForOf) && differ == old(differ) && template == old(template)
      ensures views == old(views) && nextViewId == old(nextViewId)
    {
      trackByFn := fn;
    }

    /** The `ngForTemplate` setter: a falsy template is ignored. */
    method SetTemplate(value: JsValue)
      modifies this
      ensures template == (if Truthy(value) then value else old(template))
      ensures ngForOf == old(ngForOf) && differ == old(differ) && trackByFn == old(trackByFn)
      ensures views == old(views) && nextViewId == old(nextViewId)
    {
      if Truthy(value) {
        template := value;
      }
    }

    /**
     * `ngOnChanges`: `changes` maps each changed input to its current value;
     * `supported` says whether some differ factory accepts the value, and the
     * error carries the value the message names. The differ is created at
     * most once, and only for a truthy `ngForOf`.
     */
    method NgOnChanges(changes: map<string, JsValue>, supported: bool) returns (r: Result<(), JsValue>)
      modifies this
      ensures var create := "ngForOf" in changes && old(differ).None? && Truthy(changes["ngForOf"]);
              (r.Failure? <==> create && !supported) &&
              (r.Failure? ==> r.error == changes["ngForOf"]) &&
              differ == (if create && supported then Some(Differ(trackByFn)) else old(differ))
      ensures old(differ).Some? ==> differ == old(differ)
      ensures ngForOf == old(ngForOf) && template == old(template) && trackByFn == old(trackByFn)
      ensures views == old(views) && nextViewId == old(nextViewId)
    {
      if "ngForOf" in changes {
        var value := changes["ngForOf"];
        if differ.None? && Truthy(value) {
          if !supported {
            return Failure(value);
          }
          differ := Some(Differ(trackByFn));
        }
      }
      return Success(());
    }

    /**
     * `ngDoCheck`: `diff` is what the differ reports for the current
     * `ngForOf` (`None` for no changes). Nothing happens without a differ.
     */
    method NgDoCheck(diff: Option<Changes>)
      requires Valid()
      requires differ.Some? && diff.Some? ==> ChangesFit(diff.value, |views|)
      modifies this
      ensures Valid()
      ensures differ.None? || diff.None? ==> views == old(views) && nextViewId == old(nextViewId)
      ensures old(differ).Some? && diff.Some? ==>
                var (after, tuples) := ApplyOps(old(views), diff.value.operations, old(template), old(nextViewId));
                views == ApplyIdentity(Renumber(ApplyTuples(after, tuples)), diff.value.identityChanges) &&
                nextViewId == NextAfterOps(diff.value.operations, old(nextViewId))
      ensures differ.Some? && diff.Some? ==> Numbered(views)
      ensures ngForOf == old(ngForOf) && differ == old(differ) && template == old(template) && trackByFn == old(trackByFn)
    {
      if differ.Some? && diff.Some? {
        ApplyChanges(diff.value);
      }
    }

    /**
     * `_applyChanges`: replays the operations on the container, hands each
     * inserted or moved view its record's item, numbers every view, then
     * applies the identity changes.
     */
    method ApplyChanges(changes: Changes)
      requires Valid() && ChangesFit(changes, |views|)
      modifies this
      ensures Valid()
      ensures var (after, tuples) := ApplyOps(old(views), changes.operations, old(template), old(nextViewId));
              views == ApplyIdentity(Renumber(ApplyTuples(after, tuples)), changes.identityChanges)
      ensures Numbered(views)
      ensures nextViewId == NextAfterOps(changes.operations, old(nextViewId))
      ensures ngForOf == old(ngForOf) && differ == old(differ) && template == old(template) && trackByFn == old(trackByFn)
    {
      var tuples := ReplayOperations(changes.operations);
      for i := 0 to |tuples|
        invariant ApplyTuples(ApplyOps(old(views), changes.operations, template, old(nextViewId)).0, tuples) ==
                  ApplyTuples(views, tuples[i..])
        invariant Valid() && |views| == LengthAfterOps(changes.operations, old(|views|))
        invariant ngForOf == old(ngForOf) && differ == old(differ) && template == old(template) && trackByFn == old(trackByFn)
        invariant nextViewId == NextAfterOps(changes.operations, old(nextViewId))
      {
        assert tuples[i..][1..] == tuples[i + 1..];
        PerViewChange(tuples[i]);
      }
      assert tuples[|tuples|..] == [];
      NumberViews();
      ghost var numbered := views;
      var identity := changes.identityChanges;
      for j := 0 to |identity|
        invariant |views| == |numbered|
        invariant ApplyIdentity(numbered, identity) == ApplyIdentity(views, identity[j..])
        invariant Valid()
        invariant ngForOf == old(ngForOf) && differ == old(differ) && template == old(template) && trackByFn == old(trackByFn)
        invariant nextViewId == NextAfterOps(changes.operations, old(nextViewId))
      {
        assert identity[j..][1..] == identity[j + 1..];
        var p := identity[j].currentIndex;
        var view := views[p];
        views := SetImplicitAt(views, p, identity[j].item);
      }
      assert identity[|identity|..] == [];
      IdentityKeepsNumbers(numbered, identity);
    }

    /** The `forEachOperation` callback over all operations: the container after them and the tuples recorded. */
    method ReplayOperations(ops: seq<Operation>) returns (tuples: seq<Tuple>)
      requires Valid() && OpsFit(ops, |views|)
      modifies this
      ensures Valid()
      ensures (views, tuples) == ApplyOps(old(views), ops, template, old(nextViewId))
      ensures nextViewId == NextAfterOps(ops, old(nextViewId))
      ensures ngForOf == old(ngForOf) && differ == old(differ) && template == old(template) && trackByFn == old(trackByFn)
    {
      tuples := [];
      var i := 0;
      assert ops[0..] == ops;
      while i < |ops|
        invariant 0 <= i <= |ops|
        invariant OpsFit(ops[i..], |views|)
        invariant NextAfterOps(ops[i..], nextViewId) == NextAfterOps(ops, old(nextViewId))
        invariant var full := ApplyOps(old(views), ops, template, old(nextViewId));
                  var tail := ApplyOps(views, ops[i..], template, nextViewId);
                  full.0 == tail.0 && full.1 == tuples + tail.1
        invariant Valid()
        invariant ngForOf == old(ngForOf) && differ == old(differ) && template == old(template) && trackByFn == old(trackByFn)
      {
        var op := ops[i];
        assert ops[i..][0] == op && ops[i..][1..] == ops[i + 1..];
        ghost var rest := ApplyOps(ApplyOp(views, op, template, nextViewId).0, ops[i + 1..], template, NextAfter(op, nextViewId));
        var t := ApplyOperation(op);
        var opt := if t.Some? then [t.value] else [];
        assert tuples + (opt + rest.1) == (tuples + opt) + rest.1;
        tuples := tuples + opt;
        i := i + 1;
      }
      assert ops[i..] == [];
      assert tuples + [] == tuples;
    }

    /**
     * The `forEachOperation` callback for one operation: an insert creates a
     * view from the template with an empty row, a removal drops the view, a
     * move takes the view out and puts it back at its new position.
     */
    method ApplyOperation(op: Operation) returns (t: Option<Tuple>)
      requires Valid() && OpFits(op, |views|)
      modifies this
      ensures Valid()
      ensures (views, t) == ApplyOp(old(views), op, template, old(nextViewId))
      ensures nextViewId == NextAfter(op, old(nextViewId))
      ensures ngForOf == old(ngForOf) && differ == old(differ) && template == old(template) && trackByFn == old(trackByFn)
    {
      ApplyOpFresh(views, op, template, nextViewId);
      if op.previousIndex.None? {
        var view := EmbeddedView(nextViewId, template, Row(Null, None, None));
        views := InsertAt(views, op.currentIndex.value, view);
        t := Some(Tuple(nextViewId, op.item));
        nextViewId := nextViewId + 1;
      } else if op.currentIndex.None? {
        views := RemoveAt(views, op.adjustedPreviousIndex);
        t := None;
      } else {
        var view := views[op.adjustedPreviousIndex];
        views := InsertAt(RemoveAt(views, op.adjustedPreviousIndex), op.currentIndex.value, view);
        t := Some(Tuple(view.id, op.item));
      }
    }

    /** `_perViewChange`: the view the tuple names gets the record's item. */
    method PerViewChange(t: Tuple)
      requires Valid()
      modifies this
      ensures Valid()
      ensures views == SetImplicitOf(old(views), t.viewId, t.item)
      ensures nextViewId == old(nextViewId)
      ensures ngForOf == old(ngForOf) && differ == old(differ) && template == old(template) && trackByFn == old(trackByFn)
    {
      views := SetImplicitOf(views, t.viewId, t.item);
    }

    /** The numbering loop: each view's context gets its position and the container length. */
    method NumberViews()
      requires Valid()
      modifies this
      ensures Valid()
      ensures views == Renumber(old(views)) && Numbered(views)
      ensures nextViewId == old(nextViewId)
      ensures ngForOf == old(ngForOf) && differ == old(differ) && template == old(template) && trackByFn == old(trackByFn)
    {
      var ilen := |views|;
      for k := 0 to ilen
        invariant |views| == ilen
        invariant forall m :: 0 <= m < k ==> views[m] == Renumber(old(views))[m]
        invariant forall m :: k <= m < ilen ==> views[m] == old(views)[m]
        invariant nextViewId == old(nextViewId)
        invariant ngForOf == old(ngForOf) && differ == old(differ) && template == old(template) && trackByFn == old(trackByFn)
      {
        var view := views[k];
        views := views[k := view.(context := view.context.(index := Some(k), count := Some(ilen)))];
      }
      assert views == Renumber(old(views));
    }
  }
}
