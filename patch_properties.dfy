/** What a PATCH merge promises: how handleArrayNode leaves a list, and which fields doMerge
    leaves in the document for Jackson and which it handles itself. */
module PatchProperties {
  import opened Wrappers
  import opened Values
  import opened Mapping
  import opened ReaderHelpers
  import opened PatchSpec
  import JsonQuote

  // ---------------------------------------------------------------------------------------
  // handleArrayNode on a list
  // ---------------------------------------------------------------------------------------

  lemma MultisetTakeOne(a: multiset<Value>, x: Value, b: multiset<Value>)
    requires multiset{x} + b <= a
    ensures b <= a - multiset{x}
    ensures (a - multiset{x}) - b == a - (multiset{x} + b)
  {
  }

  /** Removing snapshot elements that the list still holds removes exactly those, one each. */
  lemma {:induction false} RemovedSurplusFromList(c: Value, snapshot: seq<Value>, k: nat)
    requires c.Coll? && c.mutable && k <= |snapshot|
    requires multiset(snapshot[k..]) <= multiset(c.elems)
    ensures RemovedSurplus(c, snapshot, k).Success?
    ensures |RemovedSurplus(c, snapshot, k).value.elems| == |c.elems| - (|snapshot| - k)
    ensures multiset(RemovedSurplus(c, snapshot, k).value.elems) == multiset(c.elems) - multiset(snapshot[k..])
    decreases |snapshot| - k
  {
    if k < |snapshot| {
      var x := snapshot[k];
      assert snapshot[k..] == [x] + snapshot[k + 1..];
      assert multiset(snapshot[k..]) == multiset{x} + multiset(snapshot[k + 1..]);
      assert x in c.elems by {
        assert x in multiset(c.elems);
      }
      RemoveFirstCounts(c.elems, x);
      var c1 := WithElems(c, RemoveFirst(c.elems, x));
      assert Remove(c, x) == Success(c1);
      MultisetTakeOne(multiset(c.elems), x, multiset(snapshot[k + 1..]));
      RemovedSurplusFromList(c1, snapshot, k + 1);
      assert RemovedSurplus(c, snapshot, k) == RemovedSurplus(c1, snapshot, k + 1);
    } else {
      assert snapshot[k..] == [];
    }
  }

  /** An element once the item at its position has been applied: an object item is merged into
      it, any other item leaves it as it is. */
  function ItemMerged(env: Env, item: Json, current: Value): Value {
    if item.JObject? && MergedDocument(env, item, current).Success? then MergedDocument(env, item, current).value.value
    else current
  }

  /** The first |items| snapshot elements, each with its item applied. */
  function MergedPrefix(env: Env, items: seq<Json>, snapshot: seq<Value>): (r: seq<Value>)
    requires |items| <= |snapshot|
    ensures |r| == |items| && forall k :: 0 <= k < |items| ==> r[k] == ItemMerged(env, items[k], snapshot[k])
  {
    seq(|items|, k requires 0 <= k < |items| => ItemMerged(env, items[k], snapshot[k]))
  }

  /** Position k of the list once the first j items have been walked: a snapshot element with
      its item applied or not yet reached, or an item decoded and appended. */
  ghost predicate ElementAfter(env: Env, items: seq<Json>, snapshot: seq<Value>, componentType: Option<TypeInfo>,
                               j: nat, k: nat, x: Value)
  {
    if k < |snapshot| then
      if k < j && k < |items| then x == ItemMerged(env, items[k], snapshot[k]) else x == snapshot[k]
    else
      k < j && k < |items| && env.jackson.treeToValue(items[k], TypeToMap(None, componentType).cls) == Success(x)
  }

  /** The state of a mutable list after handleArrayNode has walked the first j items. */
  ghost predicate ListVisited(env: Env, node: Json, snapshot: seq<Value>, componentType: Option<TypeInfo>, j: nat, c: Value)
    requires node.JArray?
  {
    && c.Coll? && c.kind == ListKind && c.mutable && j <= |node.items|
    && |c.elems| == (if j < |snapshot| then |snapshot| else j)
    && forall k :: 0 <= k < |c.elems| ==> ElementAfter(env, node.items, snapshot, componentType, j, k, c.elems[k])
  }

  /** No item facing a snapshot element is itself an array (which would end the walk). */
  predicate NoNestedArray(items: seq<Json>, snapshot: seq<Value>) {
    forall k :: 0 <= k < |items| && k < |snapshot| ==> !items[k].JArray?
  }

  /** Some item among the first j that faces a snapshot element is an object. */
  predicate ObjectMerged(items: seq<Json>, snapshot: seq<Value>, j: nat) {
    exists k :: 0 <= k < j && k < |items| && k < |snapshot| && items[k].JObject?
  }

  /** An item past the snapshot is decoded and appended. */
  lemma VisitedAfterAdd(env: Env, node: Json, snapshot: seq<Value>, componentType: Option<TypeInfo>, j: nat, c: Value, x: Value)
    requires node.JArray? && ListVisited(env, node, snapshot, componentType, j, c)
    requires |snapshot| <= j < |node.items|
    requires env.jackson.treeToValue(node.items[j], TypeToMap(None, componentType).cls) == Success(x)
    ensures Add(c, x).Success? && ListVisited(env, node, snapshot, componentType, j + 1, Add(c, x).value)
  {
    var added := Add(c, x).value;
    assert added.elems == c.elems + [x];
    forall k | 0 <= k < |added.elems|
      ensures ElementAfter(env, node.items, snapshot, componentType, j + 1, k, added.elems[k])
    {
      if k < j {
        assert ElementAfter(env, node.items, snapshot, componentType, j, k, c.elems[k]);
      }
    }
  }

  /** An object item facing a snapshot element is merged into it. */
  lemma VisitedAfterMerge(env: Env, node: Json, snapshot: seq<Value>, componentType: Option<TypeInfo>, j: nat, c: Value)
    requires node.JArray? && ListVisited(env, node, snapshot, componentType, j, c)
    requires j < |node.items| && j < |snapshot| && node.items[j].JObject?
    requires MergedDocument(env, node.items[j], snapshot[j]).Success?
    ensures ListVisited(env, node, snapshot, componentType, j + 1,
                        SetElem(c, j, MergedDocument(env, node.items[j], snapshot[j]).value.value))
  {
    var c1 := SetElem(c, j, MergedDocument(env, node.items[j], snapshot[j]).value.value);
    forall k | 0 <= k < |c1.elems|
      ensures ElementAfter(env, node.items, snapshot, componentType, j + 1, k, c1.elems[k])
    {
      if k != j {
        assert ElementAfter(env, node.items, snapshot, componentType, j, k, c.elems[k]);
      }
    }
  }

  /** A scalar item facing a snapshot element changes nothing. */
  lemma VisitedAfterSkip(env: Env, node: Json, snapshot: seq<Value>, componentType: Option<TypeInfo>, j: nat, c: Value)
    requires node.JArray? && ListVisited(env, node, snapshot, componentType, j, c)
    requires j < |node.items| && j < |snapshot| && !node.items[j].JObject?
    ensures ListVisited(env, node, snapshot, componentType, j + 1, c)
  {
    forall k | 0 <= k < |c.elems|
      ensures ElementAfter(env, node.items, snapshot, componentType, j + 1, k, c.elems[k])
    {
      assert ElementAfter(env, node.items, snapshot, componentType, j, k, c.elems[k]);
    }
  }

  /** Once every item is walked, the surplus is removed. */
  lemma VisitedEnd(env: Env, node: Json, snapshot: seq<Value>, componentType: Option<TypeInfo>, c: Value)
    requires node.JArray? && ListVisited(env, node, snapshot, componentType, |node.items|, c)
    ensures |node.items| >= |snapshot| ==> RemovedSurplus(c, snapshot, |node.items|) == Success(c)
    ensures |node.items| < |snapshot| ==>
              && RemovedSurplus(c, snapshot, |node.items|).Success?
              && |RemovedSurplus(c, snapshot, |node.items|).value.elems| == |node.items|
              && multiset(RemovedSurplus(c, snapshot, |node.items|).value.elems)
                 == multiset(MergedPrefix(env, node.items, snapshot))
  {
    var j := |node.items|;
    if j < |snapshot| {
      var prefix := MergedPrefix(env, node.items, snapshot);
      assert c.elems == prefix + snapshot[j..] by {
        forall k | 0 <= k < |c.elems| ensures c.elems[k] == (prefix + snapshot[j..])[k] {
          assert ElementAfter(env, node.items, snapshot, componentType, j, k, c.elems[k]);
        }
      }
      assert multiset(c.elems) == multiset(prefix) + multiset(snapshot[j..]);
      RemovedSurplusFromList(c, snapshot, j);
    }
  }

  /** The walk of handleArrayNode's loop over a list from item j on: the proof is split between
      the end of the walk (here) and one step of it (ArrayItemsOnListTurn). */
  lemma {:induction false} ArrayItemsOnList(env: Env, node: Json, snapshot: seq<Value>, componentType: Option<TypeInfo>,
                                            j: nat, c: Value, nested: bool, items: seq<Json>)
    requires node.JArray? && ListVisited(env, node, snapshot, componentType, j, c) && |items| == |node.items|
    requires NoNestedArray(node.items, snapshot)
    requires nested <==> ObjectMerged(node.items, snapshot, j)
    ensures var r := ArrayItems(env, node, snapshot, componentType, j, c, nested, items);
            r.Success? ==>
              && |r.value.coll.elems| == |node.items|
              && (r.value.handled <==> ObjectMerged(node.items, snapshot, |node.items|))
              && (|node.items| >= |snapshot| ==> forall k :: 0 <= k < |node.items| ==>
                    ElementAfter(env, node.items, snapshot, componentType, |node.items|, k, r.value.coll.elems[k]))
              && (|node.items| < |snapshot| ==>
                    multiset(r.value.coll.elems) == multiset(MergedPrefix(env, node.items, snapshot)))
    decreases |node.items| - j, 1
  {
    if j == |node.items| {
      VisitedEnd(env, node, snapshot, componentType, c);
    } else {
      ArrayItemsOnListTurn(env, node, snapshot, componentType, j, c, nested, items);
    }
  }

  lemma {:induction false} ArrayItemsOnListTurn(env: Env, node: Json, snapshot: seq<Value>, componentType: Option<TypeInfo>,
                                                j: nat, c: Value, nested: bool, items: seq<Json>)
    requires node.JArray? && ListVisited(env, node, snapshot, componentType, j, c) && |items| == |node.items|
    requires j < |node.items|
    requires NoNestedArray(node.items, snapshot)
    requires nested <==> ObjectMerged(node.items, snapshot, j)
    ensures var r := ArrayItems(env, node, snapshot, componentType, j, c, nested, items);
            r.Success? ==>
              && |r.value.coll.elems| == |node.items|
              && (r.value.handled <==> ObjectMerged(node.items, snapshot, |node.items|))
              && (|node.items| >= |snapshot| ==> forall k :: 0 <= k < |node.items| ==>
                    ElementAfter(env, node.items, snapshot, componentType, |node.items|, k, r.value.coll.elems[k]))
              && (|node.items| < |snapshot| ==>
                    multiset(r.value.coll.elems) == multiset(MergedPrefix(env, node.items, snapshot)))
    decreases |node.items| - j, 0
  {
    if j >= |snapshot| {
      var x := env.jackson.treeToValue(node.items[j], TypeToMap(None, componentType).cls);
      if x.Success? {
        VisitedAfterAdd(env, node, snapshot, componentType, j, c, x.value);
        assert ObjectMerged(node.items, snapshot, j + 1) == ObjectMerged(node.items, snapshot, j);
        ArrayItemsOnList(env, node, snapshot, componentType, j + 1, Add(c, x.value).value, nested, items);
      }
    } else if node.items[j].JObject? {
      var d := MergedDocument(env, node.items[j], snapshot[j]);
      if d.Success? {
        VisitedAfterMerge(env, node, snapshot, componentType, j, c);
        assert ObjectMerged(node.items, snapshot, j + 1);
        ArrayItemsOnList(env, node, snapshot, componentType, j + 1, SetElem(c, j, d.value.value), true, items[j := d.value.doc]);
      }
    } else {
      assert !node.items[j].JArray?;
      VisitedAfterSkip(env, node, snapshot, componentType, j, c);
      assert ObjectMerged(node.items, snapshot, j + 1) == ObjectMerged(node.items, snapshot, j);
      ArrayItemsOnList(env, node, snapshot, componentType, j + 1, c, nested, items);
    }
  }

  /** handleArrayNode on a modifiable list whose items facing its elements are no arrays: the
      list ends with one element per item; an element facing an object item is that item merged
      into it, the others stay, items past the list's end are decoded and appended, and elements
      past the array's end are removed (by equality, so the survivors agree with the items as a
      multiset); the array counts as handled exactly when an object item faced an element. */
  lemma HandleArrayNodeOnList(env: Env, node: Json, c: Value, componentType: Option<TypeInfo>)
    requires node.JArray? && c.Coll? && c.kind == ListKind && c.mutable
    requires NoNestedArray(node.items, c.elems)
    ensures var r := HandledArrayNode(env, node, c, componentType);
            r.Success? ==>
              && r.value.coll.Coll? && r.value.coll.ref == c.ref && r.value.coll.kind == ListKind
              && |r.value.coll.elems| == |node.items|
              && (r.value.handled <==> ObjectMerged(node.items, c.elems, |node.items|))
              && (forall k :: 0 <= k < |node.items| && k < |c.elems| && |node.items| >= |c.elems| ==>
                    r.value.coll.elems[k] == ItemMerged(env, node.items[k], c.elems[k]))
              && (forall k :: |c.elems| <= k < |node.items| ==>
                    env.jackson.treeToValue(node.items[k], TypeToMap(None, componentType).cls) == Success(r.value.coll.elems[k]))
              && (|node.items| < |c.elems| ==>
                    multiset(r.value.coll.elems) == multiset(MergedPrefix(env, node.items, c.elems)))
  {
    assert ListVisited(env, node, c.elems, componentType, 0, c);
    assert !ObjectMerged(node.items, c.elems, 0);
    ArrayItemsOnList(env, node, c.elems, componentType, 0, c, false, node.items);
    var r := HandledArrayNode(env, node, c, componentType);
    if r.Success? && |node.items| >= |c.elems| {
      forall k | 0 <= k < |node.items|
        ensures ElementAfter(env, node.items, c.elems, componentType, |node.items|, k, r.value.coll.elems[k])
      {
      }
    }
  }

  /** The walk from item i to the first item, facing a snapshot element, that is an array: the
      items before it are applied as usual, and the nested array ends the walk with what
      handleArray made of it. */
  lemma {:induction false} ArrayItemsToNestedArray(env: Env, node: Json, snapshot: seq<Value>, componentType: Option<TypeInfo>,
                                                   i: nat, c: Value, nested: bool, items: seq<Json>, j: nat)
    requires node.JArray? && ListVisited(env, node, snapshot, componentType, i, c) && |items| == |node.items|
    requires i <= j < |node.items| && j < |snapshot| && node.items[j].JArray?
    requires forall k :: i <= k < j ==> !node.items[k].JArray?
    ensures var r := ArrayItems(env, node, snapshot, componentType, i, c, nested, items);
            var inner := HandledArray(env, node.items[j], snapshot[j],
                                      TypeToMap(Some(RuntimeClass(SNAPSHOT_ITERATOR, None)), componentType));
            r.Success? ==>
              && inner.Success? && r.value.handled == inner.value.handled
              && |r.value.coll.elems| == |snapshot| && r.value.coll.elems[j] == inner.value.coll
              && (forall k :: 0 <= k < |snapshot| && k != j ==>
                    ElementAfter(env, node.items, snapshot, componentType, j, k, r.value.coll.elems[k]))
              && r.value.node.items[j] == inner.value.node
              && (forall k :: j < k < |items| ==> r.value.node.items[k] == items[k])
    decreases j - i
  {
    if i == j {
      forall k | 0 <= k < |snapshot| && k != j
        ensures ElementAfter(env, node.items, snapshot, componentType, j, k, c.elems[k])
      {
      }
    } else if node.items[i].JObject? {
      var d := MergedDocument(env, node.items[i], snapshot[i]);
      if d.Success? {
        VisitedAfterMerge(env, node, snapshot, componentType, i, c);
        ArrayItemsToNestedArray(env, node, snapshot, componentType, i + 1, SetElem(c, i, d.value.value), true,
                                items[i := d.value.doc], j);
      }
    } else {
      VisitedAfterSkip(env, node, snapshot, componentType, i, c);
      ArrayItemsToNestedArray(env, node, snapshot, componentType, i + 1, c, nested, items, j);
    }
  }

  /** handleArrayNode on a modifiable list whose j-th item is the first array among the items
      facing its elements: the method returns from inside the loop with the nested array's
      result. The earlier items are applied, the j-th element is what handleArray made of it,
      the later items are not applied, no element is removed, and the array counts as handled
      exactly when the nested one does, whatever object items came before it. */
  lemma HandleArrayNodeAtNestedArray(env: Env, node: Json, c: Value, componentType: Option<TypeInfo>, j: nat)
    requires node.JArray? && c.Coll? && c.kind == ListKind && c.mutable
    requires j < |node.items| && j < |c.elems| && node.items[j].JArray?
    requires forall k :: 0 <= k < j ==> !node.items[k].JArray?
    ensures var r := HandledArrayNode(env, node, c, componentType);
            var inner := HandledArray(env, node.items[j], c.elems[j],
                                      TypeToMap(Some(RuntimeClass(SNAPSHOT_ITERATOR, None)), componentType));
            r.Success? ==>
              && inner.Success? && r.value.handled == inner.value.handled
              && r.value.coll.Coll? && r.value.coll.ref == c.ref && r.value.coll.kind == ListKind
              && |r.value.coll.elems| == |c.elems| && r.value.coll.elems[j] == inner.value.coll
              && (forall k :: 0 <= k < j ==> r.value.coll.elems[k] == ItemMerged(env, node.items[k], c.elems[k]))
              && (forall k :: j < k < |c.elems| ==> r.value.coll.elems[k] == c.elems[k])
              && r.value.node.items[j] == inner.value.node
              && (forall k :: j < k < |node.items| ==> r.value.node.items[k] == node.items[k])
  {
    assert ListVisited(env, node, c.elems, componentType, 0, c);
    ArrayItemsToNestedArray(env, node, c.elems, componentType, 0, c, false, node.items, j);
    var r := HandledArrayNode(env, node, c, componentType);
    if r.Success? {
      forall k | 0 <= k < |c.elems| && k != j
        ensures ElementAfter(env, node.items, c.elems, componentType, j, k, r.value.coll.elems[k])
      {
      }
    }
  }

  // ---------------------------------------------------------------------------------------
  // doMerge: what is left in the document for Jackson
  // ---------------------------------------------------------------------------------------

  /** A document field that doMerge leaves for Jackson as it is: it backs no persistent property,
      the property holds null, or its value is a scalar, a linkable association, an empty object
      for a map, or an object for a property that is neither a map nor an entity. */
  predicate LeftVerbatim(e: EntityInfo, t: Value, f: JField) {
    match PropertyForField(e.props, f.name)
    case None => true
    case Some(p) =>
      || FieldOf(t, p.name).Null?
      || f.value.JValue?
      || (f.value.JObject? && (p.linkable || (p.isMap && f.value.fields == []) || (!p.isMap && !p.isEntity)))
  }

  /** A document field that doMerge merges itself and removes: a nested entity, or a non-empty
      object for a map. */
  predicate MergedAway(e: EntityInfo, t: Value, f: JField) {
    match PropertyForField(e.props, f.name)
    case None => false
    case Some(p) =>
      !FieldOf(t, p.name).Null? && f.value.JObject? && !p.linkable && (if p.isMap then f.value.fields != [] else p.isEntity)
  }

  /** Two document fields of a well-formed entity never back properties of the same name. */
  lemma DistinctFieldsDistinctProperties(e: EntityInfo, a: string, b: string)
    requires WellFormed(e) && a != b
    requires PropertyForField(e.props, a).Some? && PropertyForField(e.props, b).Some?
    ensures PropertyForField(e.props, a).value.name != PropertyForField(e.props, b).value.name
  {
    var p, q := PropertyForField(e.props, a).value, PropertyForField(e.props, b).value;
    var x :| 0 <= x < |e.props| && e.props[x] == p;
    var y :| 0 <= y < |e.props| && e.props[y] == q;
    assert x != y;
  }

  /** The property value field i of the loop writes. */
  function WrittenBy(e: EntityInfo, root: Json, k: nat): Option<PropName>
    requires root.JObject? && k < |root.fields|
  {
    match PropertyForField(e.props, root.fields[k].name)
    case None => None
    case Some(p) => Some(p.name)
  }

  /** A target field that no remaining document field backs keeps its value. */
  lemma {:induction false} PrunedFieldsUntouched(env: Env, e: EntityInfo, root: Json, i: nat, t: Value, kept: seq<JField>, n: PropName)
    requires root.JObject? && i <= |root.fields| && t.Obj?
    requires forall k :: i <= k < |root.fields| ==> WrittenBy(e, root, k) != Some(n)
    ensures PrunedFields(env, e, root, i, t, kept).Success? ==>
              FieldOf(PrunedFields(env, e, root, i, t, kept).value.target, n) == FieldOf(t, n)
    decreases |root.fields| - i
  {
    if i < |root.fields| {
      var f := root.fields[i];
      match PropertyForField(e.props, f.name)
      case None =>
        PrunedFieldsUntouched(env, e, root, i + 1, t, kept + [f], n);
      case Some(p) =>
        assert WrittenBy(e, root, i) == Some(p.name);
        var raw := FieldOf(t, p.name);
        if raw.Null? {
          PrunedFieldsUntouched(env, e, root, i + 1, t, kept + [f], n);
        } else {
          var o := FieldMerge(env, p, f.value, raw);
          if o.Success? {
            PrunedFieldsUntouched(env, e, root, i + 1, SetField(t, p.name, o.value.raw),
                                  if o.value.keep then kept + [JField(f.name, o.value.node)] else kept, n);
          }
        }
    }
  }

  /** The step of the loop at field i leaves the property of any later field as it was. */
  lemma StepKeepsLaterProperty(e: EntityInfo, root: Json, i: nat, k: nat, t: Value, x: Value)
    requires root.JObject? && WellFormed(e) && DistinctFieldNames(root.fields) && i < k < |root.fields| && t.Obj?
    requires PropertyForField(e.props, root.fields[i].name).Some? && PropertyForField(e.props, root.fields[k].name).Some?
    ensures FieldOf(SetField(t, PropertyForField(e.props, root.fields[i].name).value.name, x),
                    PropertyForField(e.props, root.fields[k].name).value.name)
            == FieldOf(t, PropertyForField(e.props, root.fields[k].name).value.name)
  {
    DistinctFieldsDistinctProperties(e, root.fields[i].name, root.fields[k].name);
  }

  /** A field doMerge does not handle reaches Jackson unchanged. */
  lemma {:induction false} PrunedFieldKept(env: Env, e: EntityInfo, root: Json, i: nat, t: Value, kept: seq<JField>, k: nat)
    requires root.JObject? && i <= k < |root.fields| && t.Obj? && WellFormed(e) && DistinctFieldNames(root.fields)
    requires LeftVerbatim(e, t, root.fields[k])
    ensures PrunedFields(env, e, root, i, t, kept).Success? ==> root.fields[k] in PrunedFields(env, e, root, i, t, kept).value.kept
    decreases |root.fields| - i
  {
    var f := root.fields[i];
    match PropertyForField(e.props, f.name)
    case None =>
      if i < k {
        PrunedFieldKept(env, e, root, i + 1, t, kept + [f], k);
      } else {
        assert (kept + [f])[|kept|] == f;
      }
    case Some(p) =>
      var raw := FieldOf(t, p.name);
      if raw.Null? {
        if i < k {
          PrunedFieldKept(env, e, root, i + 1, t, kept + [f], k);
        } else {
          assert (kept + [f])[|kept|] == f;
        }
      } else {
        var o := FieldMerge(env, p, f.value, raw);
        if o.Success? {
          var t1 := SetField(t, p.name, o.value.raw);
          var kept1 := if o.value.keep then kept + [JField(f.name, o.value.node)] else kept;
          if i < k {
            if PropertyForField(e.props, root.fields[k].name).Some? {
              StepKeepsLaterProperty(e, root, i, k, t, o.value.raw);
            }
            assert LeftVerbatim(e, t1, root.fields[k]);
            PrunedFieldKept(env, e, root, i + 1, t1, kept1, k);
          } else {
            assert o.value.keep && JField(f.name, o.value.node) == f;
            assert kept1[|kept|] == f;
          }
        }
      }
  }

  /** A nested entity or a non-empty map object is merged by doMerge and does not reach Jackson. */
  lemma {:induction false} PrunedFieldDropped(env: Env, e: EntityInfo, root: Json, i: nat, t: Value, kept: seq<JField>, k: nat)
    requires root.JObject? && i <= k < |root.fields| && t.Obj? && WellFormed(e) && DistinctFieldNames(root.fields)
    requires MergedAway(e, t, root.fields[k]) && root.fields[k].name !in Names(kept)
    ensures PrunedFields(env, e, root, i, t, kept).Success? ==>
              root.fields[k].name !in Names(PrunedFields(env, e, root, i, t, kept).value.kept)
    decreases |root.fields| - i
  {
    var f := root.fields[i];
    match PropertyForField(e.props, f.name)
    case None =>
      assert i < k;
      assert f.name != root.fields[k].name;
      PrunedFieldDropped(env, e, root, i + 1, t, kept + [f], k);
    case Some(p) =>
      var raw := FieldOf(t, p.name);
      if raw.Null? {
        assert i < k;
        assert f.name != root.fields[k].name;
        PrunedFieldDropped(env, e, root, i + 1, t, kept + [f], k);
      } else {
        var o := FieldMerge(env, p, f.value, raw);
        if o.Success? {
          var t1 := SetField(t, p.name, o.value.raw);
          var kept1 := if o.value.keep then kept + [JField(f.name, o.value.node)] else kept;
          if i < k {
            StepKeepsLaterProperty(e, root, i, k, t, o.value.raw);
            assert f.name != root.fields[k].name;
            assert MergedAway(e, t1, root.fields[k]);
            PrunedFieldDropped(env, e, root, i + 1, t1, kept1, k);
          } else {
            assert !o.value.keep;
            var r := PrunedFields(env, e, root, i + 1, t1, kept1);
            assert root.fields[k].name !in Names(root.fields[i + 1..]) by {
              forall g | g in root.fields[i + 1..] ensures g.name != f.name {
                var x :| i + 1 <= x < |root.fields| && root.fields[x] == g;
              }
            }
          }
        }
      }
  }

  /** At its own turn, a handled field holding `raw` goes into the document exactly when
      handling it asked to keep it, and no later turn adds its name. */
  lemma KeptIffKeepAtTurn(env: Env, e: EntityInfo, root: Json, k: nat, t: Value, kept: seq<JField>, raw: Value)
    requires root.JObject? && k < |root.fields| && t.Obj? && DistinctFieldNames(root.fields)
    requires PropertyForField(e.props, root.fields[k].name).Some?
    requires FieldOf(t, PropertyForField(e.props, root.fields[k].name).value.name) == raw && !raw.Null?
    requires root.fields[k].name !in Names(kept)
    ensures var o := FieldMerge(env, PropertyForField(e.props, root.fields[k].name).value, root.fields[k].value, raw);
            var r := PrunedFields(env, e, root, k, t, kept);
            r.Success? ==> o.Success? && (root.fields[k].name in Names(r.value.kept) <==> o.value.keep)
  {
    var f := root.fields[k];
    var p := PropertyForField(e.props, f.name).value;
    var o := FieldMerge(env, p, f.value, raw);
    if o.Success? {
      var t1 := SetField(t, p.name, o.value.raw);
      var kept1 := if o.value.keep then kept + [JField(f.name, o.value.node)] else kept;
      var r := PrunedFields(env, e, root, k + 1, t1, kept1);
      if o.value.keep {
        assert kept1[|kept|] == JField(f.name, o.value.node);
        if r.Success? {
          assert r.value.kept[|kept|] == JField(f.name, o.value.node);
        }
      } else {
        assert f.name !in Names(root.fields[k + 1..]) by {
          forall g | g in root.fields[k + 1..] ensures g.name != f.name {
            var x :| k + 1 <= x < |root.fields| && root.fields[x] == g;
          }
        }
      }
    }
  }

  /** A handled field holding `raw` stays in the document exactly when handling it asked to
      keep it. The proof is split between the turns that leave the target alone (here) and the
      turns that handle an earlier field (PrunedFieldKeptIffKeepPast). */
  lemma {:induction false} PrunedFieldKeptIffKeep(env: Env, e: EntityInfo, root: Json, i: nat, t: Value, kept: seq<JField>,
                                                  k: nat, raw: Value)
    requires root.JObject? && i <= k < |root.fields| && t.Obj? && WellFormed(e) && DistinctFieldNames(root.fields)
    requires PropertyForField(e.props, root.fields[k].name).Some?
    requires FieldOf(t, PropertyForField(e.props, root.fields[k].name).value.name) == raw && !raw.Null?
    requires root.fields[k].name !in Names(kept)
    ensures var o := FieldMerge(env, PropertyForField(e.props, root.fields[k].name).value, root.fields[k].value, raw);
            var r := PrunedFields(env, e, root, i, t, kept);
            r.Success? ==> o.Success? && (root.fields[k].name in Names(r.value.kept) <==> o.value.keep)
    decreases |root.fields| - i, 1
  {
    var f := root.fields[i];
    if i == k {
      KeptIffKeepAtTurn(env, e, root, k, t, kept, raw);
    } else if PropertyForField(e.props, f.name).None? || FieldOf(t, PropertyForField(e.props, f.name).value.name).Null? {
      assert f.name != root.fields[k].name;
      assert PrunedFields(env, e, root, i, t, kept) == PrunedFields(env, e, root, i + 1, t, kept + [f]);
      PrunedFieldKeptIffKeep(env, e, root, i + 1, t, kept + [f], k, raw);
    } else {
      PrunedFieldKeptIffKeepPast(env, e, root, i, t, kept, k, raw);
    }
  }

  /** One turn of doMerge's loop on a field whose property holds a value. */
  lemma PrunedFieldsHandledTurn(env: Env, e: EntityInfo, root: Json, i: nat, t: Value, kept: seq<JField>)
    requires root.JObject? && i < |root.fields| && t.Obj?
    requires PropertyForField(e.props, root.fields[i].name).Some?
    requires !FieldOf(t, PropertyForField(e.props, root.fields[i].name).value.name).Null?
    ensures var f := root.fields[i];
            var p := PropertyForField(e.props, f.name).value;
            var o := FieldMerge(env, p, f.value, FieldOf(t, p.name));
            PrunedFields(env, e, root, i, t, kept).Success? ==>
              && o.Success?
              && PrunedFields(env, e, root, i, t, kept)
                 == PrunedFields(env, e, root, i + 1, SetField(t, p.name, o.value.raw),
                                 if o.value.keep then kept + [JField(f.name, o.value.node)] else kept)
  {
  }

  lemma {:induction false} PrunedFieldKeptIffKeepPast(env: Env, e: EntityInfo, root: Json, i: nat, t: Value, kept: seq<JField>,
                                                      k: nat, raw: Value)
    requires root.JObject? && i < k < |root.fields| && t.Obj? && WellFormed(e) && DistinctFieldNames(root.fields)
    requires PropertyForField(e.props, root.fields[k].name).Some?
    requires FieldOf(t, PropertyForField(e.props, root.fields[k].name).value.name) == raw && !raw.Null?
    requires root.fields[k].name !in Names(kept)
    requires PropertyForField(e.props, root.fields[i].name).Some?
    requires !FieldOf(t, PropertyForField(e.props, root.fields[i].name).value.name).Null?
    ensures var o := FieldMerge(env, PropertyForField(e.props, root.fields[k].name).value, root.fields[k].value, raw);
            var r := PrunedFields(env, e, root, i, t, kept);
            r.Success? ==> o.Success? && (root.fields[k].name in Names(r.value.kept) <==> o.value.keep)
    decreases |root.fields| - i, 0
  {
    var f := root.fields[i];
    var p := PropertyForField(e.props, f.name).value;
    var o := FieldMerge(env, p, f.value, FieldOf(t, p.name));
    PrunedFieldsHandledTurn(env, e, root, i, t, kept);
    if o.Success? {
      var t1 := SetField(t, p.name, o.value.raw);
      var kept1 := if o.value.keep then kept + [JField(f.name, o.value.node)] else kept;
      StepKeepsLaterProperty(e, root, i, k, t, o.value.raw);
      assert f.name != root.fields[k].name;
      assert root.fields[k].name !in Names(kept1);
      PrunedFieldKeptIffKeep(env, e, root, i + 1, t1, kept1, k, raw);
    }
  }

  /** A handled field's property holds what handling the field made of its value. */
  lemma {:induction false} PrunedFieldWritten(env: Env, e: EntityInfo, root: Json, i: nat, t: Value, kept: seq<JField>, k: nat)
    requires root.JObject? && i <= k < |root.fields| && t.Obj? && WellFormed(e) && DistinctFieldNames(root.fields)
    requires PropertyForField(e.props, root.fields[k].name).Some?
    requires !FieldOf(t, PropertyForField(e.props, root.fields[k].name).value.name).Null?
    ensures var p := PropertyForField(e.props, root.fields[k].name).value;
            PrunedFields(env, e, root, i, t, kept).Success? ==>
              && FieldMerge(env, p, root.fields[k].value, FieldOf(t, p.name)).Success?
              && FieldOf(PrunedFields(env, e, root, i, t, kept).value.target, p.name)
                 == FieldMerge(env, p, root.fields[k].value, FieldOf(t, p.name)).value.raw
    decreases |root.fields| - i
  {
    var f := root.fields[i];
    var q := PropertyForField(e.props, root.fields[k].name).value;
    match PropertyForField(e.props, f.name)
    case None =>
      PrunedFieldWritten(env, e, root, i + 1, t, kept + [f], k);
    case Some(p) =>
      var raw := FieldOf(t, p.name);
      if raw.Null? {
        assert i < k;
        PrunedFieldWritten(env, e, root, i + 1, t, kept + [f], k);
      } else {
        var o := FieldMerge(env, p, f.value, raw);
        if o.Success? {
          var t1 := SetField(t, p.name, o.value.raw);
          var kept1 := if o.value.keep then kept + [JField(f.name, o.value.node)] else kept;
          if i < k {
            StepKeepsLaterProperty(e, root, i, k, t, o.value.raw);
            PrunedFieldWritten(env, e, root, i + 1, t1, kept1, k);
          } else {
            forall x | i + 1 <= x < |root.fields| ensures WrittenBy(e, root, x) != Some(q.name) {
              if PropertyForField(e.props, root.fields[x].name).Some? {
                DistinctFieldsDistinctProperties(e, root.fields[x].name, f.name);
              }
            }
            PrunedFieldsUntouched(env, e, root, i + 1, t1, kept1, q.name);
          }
        }
      }
  }

  /** The document doMerge hands to readerForUpdating: every field it does not handle is there
      unchanged, no nested entity or non-empty map object it merged itself is, and the object
      Jackson updates has each handled property set to what handling its field gave. */
  lemma DocumentHandedToJackson(env: Env, root: Json, target: Value)
    requires root.JObject? && target.Obj? && target.cls in env.schema.entities
    requires WellFormed(env.schema.entities[target.cls]) && DistinctFieldNames(root.fields)
    ensures var e := env.schema.entities[target.cls];
            var r := MergedDocument(env, root, target);
            r.Success? ==>
              && PrunedFields(env, e, root, 0, target, []).Success?
              && env.jackson.updating(PrunedFields(env, e, root, 0, target, []).value.target, r.value.doc) == Success(r.value.value)
              && (forall k :: 0 <= k < |root.fields| && LeftVerbatim(e, target, root.fields[k]) ==> root.fields[k] in r.value.doc.fields)
              && (forall k :: 0 <= k < |root.fields| && MergedAway(e, target, root.fields[k]) ==>
                    root.fields[k].name !in Names(r.value.doc.fields))
              // an array field stays exactly when no item of it was merged as an object
              && (forall k :: (0 <= k < |root.fields| && root.fields[k].value.JArray?
                               && PropertyForField(e.props, root.fields[k].name).Some?
                               && !FieldOf(target, PropertyForField(e.props, root.fields[k].name).value.name).Null?) ==>
                    var p := PropertyForField(e.props, root.fields[k].name).value;
                    HandledArray(env, root.fields[k].value, FieldOf(target, p.name), p.typeInfo).Success?
                    && (root.fields[k].name in Names(r.value.doc.fields)
                        <==> !HandledArray(env, root.fields[k].value, FieldOf(target, p.name), p.typeInfo).value.handled))
              && (forall k :: (0 <= k < |root.fields| && PropertyForField(e.props, root.fields[k].name).Some?
                               && !FieldOf(target, PropertyForField(e.props, root.fields[k].name).value.name).Null?) ==>
                    var p := PropertyForField(e.props, root.fields[k].name).value;
                    FieldMerge(env, p, root.fields[k].value, FieldOf(target, p.name)).Success?
                    && FieldOf(PrunedFields(env, e, root, 0, target, []).value.target, p.name)
                       == FieldMerge(env, p, root.fields[k].value, FieldOf(target, p.name)).value.raw)
  {
    var e := env.schema.entities[target.cls];
    forall k | 0 <= k < |root.fields| && LeftVerbatim(e, target, root.fields[k])
      ensures PrunedFields(env, e, root, 0, target, []).Success? ==>
                root.fields[k] in PrunedFields(env, e, root, 0, target, []).value.kept
    {
      PrunedFieldKept(env, e, root, 0, target, [], k);
    }
    forall k | 0 <= k < |root.fields| && MergedAway(e, target, root.fields[k])
      ensures PrunedFields(env, e, root, 0, target, []).Success? ==>
                root.fields[k].name !in Names(PrunedFields(env, e, root, 0, target, []).value.kept)
    {
      PrunedFieldDropped(env, e, root, 0, target, [], k);
    }
    forall k | 0 <= k < |root.fields| && PropertyForField(e.props, root.fields[k].name).Some?
                 && !FieldOf(target, PropertyForField(e.props, root.fields[k].name).value.name).Null?
      ensures var p := PropertyForField(e.props, root.fields[k].name).value;
              PrunedFields(env, e, root, 0, target, []).Success? ==>
                && FieldMerge(env, p, root.fields[k].value, FieldOf(target, p.name)).Success?
                && FieldOf(PrunedFields(env, e, root, 0, target, []).value.target, p.name)
                   == FieldMerge(env, p, root.fields[k].value, FieldOf(target, p.name)).value.raw
    {
      PrunedFieldWritten(env, e, root, 0, target, [], k);
    }
    forall k | (0 <= k < |root.fields| && root.fields[k].value.JArray?
                && PropertyForField(e.props, root.fields[k].name).Some?
                && !FieldOf(target, PropertyForField(e.props, root.fields[k].name).value.name).Null?)
      ensures var p := PropertyForField(e.props, root.fields[k].name).value;
              var pr := PrunedFields(env, e, root, 0, target, []);
              pr.Success? ==>
                && FieldMerge(env, p, root.fields[k].value, FieldOf(target, p.name)).Success?
                && (root.fields[k].name in Names(pr.value.kept)
                    <==> FieldMerge(env, p, root.fields[k].value, FieldOf(target, p.name)).value.keep)
    {
      var p := PropertyForField(e.props, root.fields[k].name).value;
      PrunedFieldKeptIffKeep(env, e, root, 0, target, [], k, FieldOf(target, p.name));
    }
  }

  lemma {:induction false} PrunedFieldsAllVerbatim(env: Env, e: EntityInfo, root: Json, i: nat, t: Value, kept: seq<JField>)
    requires root.JObject? && i <= |root.fields| && t.Obj?
    requires forall k :: i <= k < |root.fields| ==> LeftVerbatim(e, t, root.fields[k])
    ensures PrunedFields(env, e, root, i, t, kept) == Success(Pruned(t, kept + root.fields[i..]))
    decreases |root.fields| - i
  {
    if i == |root.fields| {
      assert kept + root.fields[i..] == kept;
    } else {
      var f := root.fields[i];
      assert (kept + [f]) + root.fields[i + 1..] == kept + root.fields[i..];
      assert LeftVerbatim(e, t, f);
      match PropertyForField(e.props, f.name)
      case None =>
        PrunedFieldsAllVerbatim(env, e, root, i + 1, t, kept + [f]);
      case Some(p) =>
        var raw := FieldOf(t, p.name);
        if !raw.Null? {
          assert FieldMerge(env, p, f.value, raw) == Success(FieldOutcome(raw, true, f.value));
          assert SetField(t, p.name, raw) == t;
          assert JField(f.name, f.value) == f;
        }
        PrunedFieldsAllVerbatim(env, e, root, i + 1, t, kept + [f]);
    }
  }

  /** A document doMerge handles no field of is exactly a Jackson update of the target. */
  lemma MergedDocumentPlain(env: Env, root: Json, target: Value)
    requires root.JObject? && target.Obj? && target.cls in env.schema.entities
    requires forall k :: 0 <= k < |root.fields| ==> LeftVerbatim(env.schema.entities[target.cls], target, root.fields[k])
    ensures MergedDocument(env, root, target).Success? == env.jackson.updating(target, root).Success?
    ensures MergedDocument(env, root, target).Success? ==>
              MergedDocument(env, root, target).value == Patched(env.jackson.updating(target, root).value, root)
  {
    PrunedFieldsAllVerbatim(env, env.schema.entities[target.cls], root, 0, target, []);
    assert [] + root.fields[0..] == root.fields;
  }

  // ---------------------------------------------------------------------------------------
  // doMergeNestedMap
  // ---------------------------------------------------------------------------------------

  /** The keys the fields from the i-th on decode to. */
  ghost function DecodedKeys(env: Env, node: Json, keyType: ClassName, i: nat): set<Key>
    requires node.JObject?
    decreases |node.fields| - i
  {
    if i >= |node.fields| then {}
    else
      var key := DecodedKey(env, node.fields[i].name, keyType);
      (if key.Success? then {key.value} else {}) + DecodedKeys(env, node, keyType, i + 1)
  }

  /** One turn of doMergeNestedMap's loop: the field's name decodes to a key, the entry under
      it is written, and the loop goes on with the map that results. */
  lemma NestedEntriesStep(env: Env, node: Json, keyType: ClassName, valueType: Option<TypeInfo>, i: nat, m: Value)
    requires node.JObject? && i < |node.fields| && m.MapV?
    requires NestedEntries(env, node, keyType, valueType, i, m).Success?
    ensures var m1 := NestedEntry(env, node, keyType, valueType, i, m);
            var key := DecodedKey(env, node.fields[i].name, keyType);
            && m1.Success? && m1.value.MapV? && key.Success?
            && m1.value.entries.Keys == m.entries.Keys + {key.value}
            && NestedEntries(env, node, keyType, valueType, i + 1, m1.value).Success?
            && NestedEntries(env, node, keyType, valueType, i, m) == NestedEntries(env, node, keyType, valueType, i + 1, m1.value)
            && DecodedKeys(env, node, keyType, i) == {key.value} + DecodedKeys(env, node, keyType, i + 1)
  {
  }

  /** One turn of the loop leaves an entry under a key that no later field decodes to. */
  lemma NestedEntriesStepUntouched(env: Env, node: Json, keyType: ClassName, valueType: Option<TypeInfo>, i: nat, m: Value, key: Key)
    requires node.JObject? && i < |node.fields| && m.MapV?
    requires NestedEntries(env, node, keyType, valueType, i, m).Success?
    requires key in m.entries && key !in DecodedKeys(env, node, keyType, i)
    ensures var m1 := NestedEntry(env, node, keyType, valueType, i, m).value;
            && key in m1.entries && m1.entries[key] == m.entries[key]
            && key !in DecodedKeys(env, node, keyType, i + 1)
  {
    NestedEntriesStep(env, node, keyType, valueType, i, m);
  }

  // Each property of the loop is proved by a pair of lemmas: the first closes the loop's end,
  // the second takes one turn and hands the rest back to the first.

  /** Every field name from the i-th on decodes to a key. */
  lemma {:induction false} NestedEntriesDecodeAll(env: Env, node: Json, keyType: ClassName, valueType: Option<TypeInfo>, i: nat, m: Value, out: MapOutcome)
    requires node.JObject? && i <= |node.fields| && m.MapV?
    requires NestedEntries(env, node, keyType, valueType, i, m) == Success(out)
    ensures forall k :: i <= k < |node.fields| ==> DecodedKey(env, node.fields[k].name, keyType).Success?
    decreases |node.fields| - i, 1
  {
    if i < |node.fields| {
      NestedEntriesDecodeAllTurn(env, node, keyType, valueType, i, m, out);
    }
  }

  lemma {:induction false} NestedEntriesDecodeAllTurn(env: Env, node: Json, keyType: ClassName, valueType: Option<TypeInfo>, i: nat, m: Value, out: MapOutcome)
    requires node.JObject? && i < |node.fields| && m.MapV?
    requires NestedEntries(env, node, keyType, valueType, i, m) == Success(out)
    ensures forall k :: i <= k < |node.fields| ==> DecodedKey(env, node.fields[k].name, keyType).Success?
    decreases |node.fields| - i, 0
  {
    NestedEntriesStep(env, node, keyType, valueType, i, m);
    var m1 := NestedEntry(env, node, keyType, valueType, i, m).value;
    NestedEntriesDecodeAll(env, node, keyType, valueType, i + 1, m1, out);
    forall k | i < k < |node.fields|
      ensures DecodedKey(env, node.fields[k].name, keyType).Success?
    {
      assert i + 1 <= k < |node.fields|;
    }
  }

  /** The map ends with its own keys and the ones the fields from the i-th on decode to. */
  lemma {:induction false} NestedEntriesKeySet(env: Env, node: Json, keyType: ClassName, valueType: Option<TypeInfo>, i: nat, m: Value, out: MapOutcome)
    requires node.JObject? && i <= |node.fields| && m.MapV?
    requires NestedEntries(env, node, keyType, valueType, i, m) == Success(out)
    ensures out.m.entries.Keys == m.entries.Keys + DecodedKeys(env, node, keyType, i)
    decreases |node.fields| - i, 1
  {
    if i < |node.fields| {
      NestedEntriesKeySetTurn(env, node, keyType, valueType, i, m, out);
    }
  }

  lemma {:induction false} NestedEntriesKeySetTurn(env: Env, node: Json, keyType: ClassName, valueType: Option<TypeInfo>, i: nat, m: Value, out: MapOutcome)
    requires node.JObject? && i < |node.fields| && m.MapV?
    requires NestedEntries(env, node, keyType, valueType, i, m) == Success(out)
    ensures out.m.entries.Keys == m.entries.Keys + DecodedKeys(env, node, keyType, i)
    decreases |node.fields| - i, 0
  {
    NestedEntriesStep(env, node, keyType, valueType, i, m);
    var m1 := NestedEntry(env, node, keyType, valueType, i, m).value;
    NestedEntriesKeySet(env, node, keyType, valueType, i + 1, m1, out);
  }

  /** An entry whose key no field from the i-th on decodes to is left as it was. */
  lemma {:induction false} NestedEntriesUntouched(env: Env, node: Json, keyType: ClassName, valueType: Option<TypeInfo>, i: nat, m: Value, out: MapOutcome, key: Key)
    requires node.JObject? && i <= |node.fields| && m.MapV?
    requires NestedEntries(env, node, keyType, valueType, i, m) == Success(out)
    requires key in m.entries && key !in DecodedKeys(env, node, keyType, i)
    ensures key in out.m.entries && out.m.entries[key] == m.entries[key]
    decreases |node.fields| - i, 1
  {
    if i < |node.fields| {
      NestedEntriesUntouchedTurn(env, node, keyType, valueType, i, m, out, key);
    }
  }

  lemma {:induction false} NestedEntriesUntouchedTurn(env: Env, node: Json, keyType: ClassName, valueType: Option<TypeInfo>, i: nat, m: Value, out: MapOutcome, key: Key)
    requires node.JObject? && i < |node.fields| && m.MapV?
    requires NestedEntries(env, node, keyType, valueType, i, m) == Success(out)
    requires key in m.entries && key !in DecodedKeys(env, node, keyType, i)
    ensures key in out.m.entries && out.m.entries[key] == m.entries[key]
    decreases |node.fields| - i, 0
  {
    NestedEntriesStep(env, node, keyType, valueType, i, m);
    NestedEntriesStepUntouched(env, node, keyType, valueType, i, m, key);
    var m1 := NestedEntry(env, node, keyType, valueType, i, m).value;
    NestedEntriesUntouched(env, node, keyType, valueType, i + 1, m1, out, key);
  }

  /** doMergeNestedMap on a map: every field name is decoded to a key, the map ends with its own
      keys and the decoded ones, an entry whose key no field names is left as it was, and the
      object node is emptied. */
  lemma MergedNestedMapEntries(env: Env, node: Json, source: Value, mapType: TypeInfo)
    requires node.JObject? && source.MapV?
    ensures var r := MergedNestedMap(env, node, source, mapType);
            var keyType := TypeOrObject(mapType.component);
            r.Success? ==>
              && r.value.node == JObject([])
              && (forall k :: 0 <= k < |node.fields| ==>
                    DecodedKey(env, node.fields[k].name, keyType).Success?)
              && r.value.m.entries.Keys == source.entries.Keys + DecodedKeys(env, node, keyType, 0)
              && (forall key :: key in source.entries && key !in DecodedKeys(env, node, keyType, 0) ==>
                    r.value.m.entries[key] == source.entries[key])
  {
    var r := MergedNestedMap(env, node, source, mapType);
    var keyType := TypeOrObject(mapType.component);
    if r.Success? {
      assert r == NestedEntries(env, node, keyType, mapType.mapValue, 0, source);
      NestedEntriesDecodeAll(env, node, keyType, mapType.mapValue, 0, source, r.value);
      NestedEntriesKeySet(env, node, keyType, mapType.mapValue, 0, source, r.value);
      forall key | key in source.entries && key !in DecodedKeys(env, node, keyType, 0)
        ensures r.value.m.entries[key] == source.entries[key]
      {
        NestedEntriesUntouched(env, node, keyType, mapType.mapValue, 0, source, r.value, key);
      }
    }
  }

  // ---------------------------------------------------------------------------------------
  // Map keys read back through Jackson
  // ---------------------------------------------------------------------------------------

  /** With Jackson reading String keys as the literals they are handed, a field name decodes
      to itself under the corrected quote, and under quote as written when it needs no escape. */
  lemma DecodedStringKey(env: Env, name: string)
    requires ReadsStringKeys(env.jackson)
    ensures env.reading == Corrected ==> DecodedKey(env, name, STRING) == Success(Key(STRING, name))
    ensures env.reading == AsWritten && JsonQuote.NeedsNoEscape(name) ==>
              DecodedKey(env, name, STRING) == Success(Key(STRING, name))
  {
    if env.reading == AsWritten && JsonQuote.NeedsNoEscape(name) {
      JsonQuote.QuotePlainRoundTrip(name);
    }
  }

  /** The field name `C:\temp` (JSON `"C:\\temp"`) read back as a String key: as written the
      backslash and the `t` become a tab; as corrected the name comes back. */
  lemma BackslashKeyDecoded(env: Env)
    requires ReadsStringKeys(env.jackson)
    ensures env.reading == AsWritten ==> DecodedKey(env, "C:\\temp", STRING) == Success(Key(STRING, "C:\temp"))
    ensures env.reading == Corrected ==> DecodedKey(env, "C:\\temp", STRING) == Success(Key(STRING, "C:\\temp"))
  {
    if env.reading == AsWritten {
      JsonQuote.QuoteMisreadsBackslash();
    } else {
      DecodedStringKey(env, "C:\\temp");
    }
  }

  /** The keys decoded from a one-field object. */
  lemma OneFieldDecodedKeys(env: Env, node: Json, keyType: ClassName)
    requires node.JObject? && |node.fields| == 1
    ensures var key := DecodedKey(env, node.fields[0].name, keyType);
            DecodedKeys(env, node, keyType, 0) == if key.Success? then {key.value} else {}
  {
    assert DecodedKeys(env, node, keyType, 1) == {};
  }

  /** PATCHing `{"C:\\temp": 1}` into a Map<String, ...>: as written the entry lands under
      `C:<tab>emp`, and no entry is written under the key the document names; as corrected it
      lands under `C:\temp`. */
  lemma BackslashKeyMisread(env: Env, m: Value)
    requires ReadsStringKeys(env.jackson) && m.MapV?
    ensures var node := JObject([JField("C:\\temp", JValue("1"))]);
            var mapType := TypeInfo("java.util.Map", Some(FromClass(STRING)), Some(FromClass("java.lang.Integer")));
            var r := MergedNestedMap(env, node, m, mapType);
            && (r.Success? && env.reading == AsWritten ==>
                  && r.value.m.entries.Keys == m.entries.Keys + {Key(STRING, "C:\temp")}
                  && (Key(STRING, "C:\\temp") !in m.entries ==> Key(STRING, "C:\\temp") !in r.value.m.entries))
            && (r.Success? && env.reading == Corrected ==>
                  r.value.m.entries.Keys == m.entries.Keys + {Key(STRING, "C:\\temp")})
  {
    var node := JObject([JField("C:\\temp", JValue("1"))]);
    var mapType := TypeInfo("java.util.Map", Some(FromClass(STRING)), Some(FromClass("java.lang.Integer")));
    assert TypeOrObject(mapType.component) == STRING;
    MergedNestedMapEntries(env, node, m, mapType);
    BackslashKeyDecoded(env);
    OneFieldDecodedKeys(env, node, STRING);
  }

  // ---------------------------------------------------------------------------------------
  // Identity: nested objects are updated in place
  // ---------------------------------------------------------------------------------------

  /** doMerge on an object hands back that object, updated, when Jackson updates in place. */
  lemma MergedDocumentKeepsIdentity(env: Env, root: Json, target: Value)
    requires UpdatesInPlace(env.jackson) && root.JObject? && target.Obj?
    ensures var r := MergedDocument(env, root, target);
            r.Success? ==> r.value.value.Obj? && r.value.value.ref == target.ref && r.value.value.cls == target.cls
  {
    match EntityOf(env.schema, target)
    case None =>
      assert MergedDocument(env, root, target).Success? ==> env.jackson.updating(target, root).Success?;
    case Some(e) =>
      var pr := PrunedFields(env, e, root, 0, target, []);
      if pr.Success? {
        var doc := JObject(pr.value.kept);
        assert MergedDocument(env, root, target).Success? ==>
                 MergedDocument(env, root, target).value.value == env.jackson.updating(pr.value.target, doc).value;
      }
  }

  /** A nested entity merged by doMerge is the very object the property held. */
  lemma NestedEntityKeepsIdentity(env: Env, p: Property, child: Json, raw: Value)
    requires UpdatesInPlace(env.jackson) && child.JObject? && !p.linkable && !p.isMap && p.isEntity && raw.Obj?
    ensures var r := FieldMerge(env, p, child, raw);
            r.Success? ==> !r.value.keep && r.value.raw.Obj? && r.value.raw.ref == raw.ref && r.value.raw.cls == raw.cls
  {
    MergedDocumentKeepsIdentity(env, child, raw);
  }

  /** After doMerge's loop, a property whose document field is a nested entity holds the same
      object as before, updated in place. */
  lemma PatchedEntityKeepsIdentity(env: Env, e: EntityInfo, root: Json, t: Value, k: nat)
    requires UpdatesInPlace(env.jackson) && root.JObject? && k < |root.fields| && t.Obj?
    requires WellFormed(e) && DistinctFieldNames(root.fields)
    requires PropertyForField(e.props, root.fields[k].name).Some?
    requires var p := PropertyForField(e.props, root.fields[k].name).value;
             root.fields[k].value.JObject? && !p.linkable && !p.isMap && p.isEntity && FieldOf(t, p.name).Obj?
    ensures var p := PropertyForField(e.props, root.fields[k].name).value;
            var r := PrunedFields(env, e, root, 0, t, []);
            r.Success? ==>
              && FieldOf(r.value.target, p.name).Obj?
              && FieldOf(r.value.target, p.name).ref == FieldOf(t, p.name).ref
              && FieldOf(r.value.target, p.name).cls == FieldOf(t, p.name).cls
  {
    var p := PropertyForField(e.props, root.fields[k].name).value;
    PrunedFieldWritten(env, e, root, 0, t, [], k);
    NestedEntityKeepsIdentity(env, p, root.fields[k].value, FieldOf(t, p.name));
  }

  /** A nested-map entry merged as an object is the very object the map held under its key. */
  lemma NestedEntryKeepsIdentity(env: Env, node: Json, keyType: ClassName, valueType: Option<TypeInfo>, i: nat, m: Value)
    requires UpdatesInPlace(env.jackson) && node.JObject? && i < |node.fields| && m.MapV?
    requires node.fields[i].value.JObject?
    requires DecodedKey(env, node.fields[i].name, keyType).Success?
    requires MapGet(m, DecodedKey(env, node.fields[i].name, keyType).value).Obj?
    ensures var key := DecodedKey(env, node.fields[i].name, keyType).value;
            var r := NestedEntry(env, node, keyType, valueType, i, m);
            r.Success? ==>
              && key in r.value.entries && r.value.entries[key].Obj?
              && r.value.entries[key].ref == m.entries[key].ref && r.value.entries[key].cls == m.entries[key].cls
  {
    var key := DecodedKey(env, node.fields[i].name, keyType).value;
    MergedDocumentKeepsIdentity(env, node.fields[i].value, m.entries[key]);
  }
}
