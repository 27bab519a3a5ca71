/** The PATCH merge as DomainObjectReader runs it: doMerge's loop over the fields of the
    document, removing the ones it handles; handleArrayNode's walk over an array node against a
    snapshot of the collection; doMergeNestedMap's walk over a map's fields.

    Each method is proved to compute what its PatchSpec counterpart defines. */
module PatchMerge {
  import opened Wrappers
  import opened Values
  import opened Mapping
  import opened ReaderHelpers
  import opened PatchSpec

  /** doMerge(root, target, mapper): returns the state Jackson leaves the target in, and the
      document as pruned before it was handed to Jackson. */
  method DoMerge(env: Env, root: Json, target: Value) returns (r: Result<Patched, Fault>)
    requires root.JObject?
    ensures r == MergedDocument(env, root, target)
    decreases root, 6
  {
    if target.Null? {
      return Failure(IllegalArgument);
    }
    var entity := EntityOf(env.schema, target);
    if entity.None? {
      var v := env.jackson.updating(target, root);
      if v.Failure? {
        return Failure(v.error);
      }
      return Success(Patched(v.value, root));
    }
    var e := entity.value;
    var fields := root.fields;
    var t := target;
    var kept: seq<JField> := [];
    var i := 0;
    while i < |fields|
      invariant 0 <= i <= |fields| && t.Obj?
      invariant PrunedFields(env, e, root, i, t, kept) == PrunedFields(env, e, root, 0, target, [])
    {
      var entry := fields[i];
      var child := entry.value;
      var property := PropertyForField(e.props, entry.name);
      if property.None? {
        kept := kept + [entry];
        i := i + 1;
        continue;
      }
      var p := property.value;
      var rawValue := FieldOf(t, p.name);
      if rawValue.Null? {
        kept := kept + [entry];
        i := i + 1;
        continue;
      }
      var outcome: FieldOutcome;
      if child.JArray? {
        var a := HandleArray(env, child, rawValue, p.typeInfo);
        if a.Failure? {
          return Failure(a.error);
        }
        outcome := FieldOutcome(a.value.coll, !a.value.handled, a.value.node);
      } else if child.JObject? && !p.linkable && p.isMap && child.fields != [] {
        if !rawValue.MapV? {
          return Failure(ClassCast);
        }
        var m := DoMergeNestedMap(env, rawValue, child, p.typeInfo);
        if m.Failure? {
          return Failure(m.error);
        }
        // remove the emptied map: its values have been handled recursively
        outcome := FieldOutcome(m.value.m, m.value.node.fields != [], m.value.node);
      } else if child.JObject? && !p.linkable && !p.isMap && p.isEntity {
        var d := DoMerge(env, child, rawValue);
        if d.Failure? {
          return Failure(d.error);
        }
        outcome := FieldOutcome(d.value.value, false, d.value.doc);
      } else {
        outcome := FieldOutcome(rawValue, true, child);
      }
      assert FieldMerge(env, p, child, rawValue) == Success(outcome);
      t := SetField(t, p.name, outcome.raw);
      if outcome.keep {
        kept := kept + [JField(entry.name, outcome.node)];
      }
      i := i + 1;
    }
    var doc := JObject(kept);
    var v := env.jackson.updating(t, doc);
    if v.Failure? {
      return Failure(v.error);
    }
    return Success(Patched(v.value, doc));
  }

  /** handleArray(node, source, mapper, collectionType). */
  method HandleArray(env: Env, node: Json, source: Value, collectionType: TypeInfo) returns (r: Result<ArrayOutcome, Fault>)
    requires node.JArray?
    ensures r == HandledArray(env, node, source, collectionType)
    decreases node, 4
  {
    if source.Null? {
      return Failure(IllegalArgument);
    }
    var collection := IfCollection(source);
    if collection.None? {
      return Success(ArrayOutcome(source, node, false));
    }
    r := HandleArrayNode(env, node, collection.value, collectionType.component);
  }

  /** handleArrayNode(arrayNode, collection, mapper, componentType). */
  method HandleArrayNode(env: Env, arrayNode: Json, collection: Value, componentType: Option<TypeInfo>) returns (r: Result<ArrayOutcome, Fault>)
    requires arrayNode.JArray? && (collection.Coll? || collection.Arr?)
    ensures r == HandledArrayNode(env, arrayNode, collection, componentType)
    decreases arrayNode, 3
  {
    // iterate over a copy of the original collection, which may change underneath
    var snapshot := collection.elems;
    var c := collection;
    var nestedObjectFound := false;
    var items := arrayNode.items;
    var j := 0;
    while j < |arrayNode.items|
      invariant 0 <= j <= |arrayNode.items| && (c.Coll? || c.Arr?) && |snapshot| <= |c.elems| && |items| == |arrayNode.items|
      invariant ArrayItems(env, arrayNode, snapshot, componentType, j, c, nestedObjectFound, items)
                == HandledArrayNode(env, arrayNode, collection, componentType)
    {
      var jsonNode := arrayNode.items[j];
      if j >= |snapshot| {
        var x := env.jackson.treeToValue(jsonNode, TypeToMap(None, componentType).cls);
        if x.Failure? {
          return Failure(x.error);
        }
        var added := Add(c, x.value);
        if added.Failure? {
          return Failure(added.error);
        }
        c := added.value;
        j := j + 1;
        continue;
      }
      var next := snapshot[j];
      if jsonNode.JArray? {
        var inner := HandleArray(env, jsonNode, next, TypeToMap(Some(RuntimeClass(SNAPSHOT_ITERATOR, None)), componentType));
        if inner.Failure? {
          return Failure(inner.error);
        }
        return Success(ArrayOutcome(SetElem(c, j, inner.value.coll), JArray(items[j := inner.value.node]), inner.value.handled));
      }
      if jsonNode.JObject? {
        nestedObjectFound := true;
        var d := DoMerge(env, jsonNode, next);
        if d.Failure? {
          return Failure(d.error);
        }
        c := SetElem(c, j, d.value.value);
        items := items[j := d.value.doc];
      }
      j := j + 1;
    }
    // more elements in the collection than items in the array node: remove the surplus
    var k := j;
    ghost var before := c;
    while k < |snapshot|
      invariant j <= k && (c.Coll? || c.Arr?)
      invariant RemovedSurplus(c, snapshot, k) == RemovedSurplus(before, snapshot, j)
      decreases |snapshot| - k
    {
      var removed := Remove(c, snapshot[k]);
      if removed.Failure? {
        return Failure(removed.error);
      }
      c := removed.value;
      k := k + 1;
    }
    return Success(ArrayOutcome(c, JArray(items), nestedObjectFound));
  }

  /** The body of doMergeNestedMap's loop for its i-th field: the map after the entry the
      field's name decodes to is merged or put. */
  method MergeNestedEntry(env: Env, node: Json, keyType: ClassName, valueType: Option<TypeInfo>, i: nat, m: Value)
    returns (r: Result<Value, Fault>)
    requires node.JObject? && i < |node.fields| && m.MapV?
    ensures r == NestedEntry(env, node, keyType, valueType, i, m)
    decreases node, 2
  {
    var entry := node.fields[i];
    var value := entry.value;
    var mappedKey := DecodedKey(env, entry.name, keyType);
    if mappedKey.Failure? {
      return Failure(mappedKey.error);
    }
    var key := mappedKey.value;
    var sourceValue := MapGet(m, key);
    var typeToMap := TypeToMap(RuntimeClassOf(sourceValue), valueType);
    var next: Value;
    if value.JObject? && !sourceValue.Null? {
      var d := DoMerge(env, value, sourceValue);
      if d.Failure? {
        return Failure(d.error);
      }
      next := WithEntries(m, m.entries[key := d.value.value]);
    } else if value.JArray? && !sourceValue.Null? {
      var a := HandleArray(env, value, sourceValue, TypeToMap(RuntimeClassOf(sourceValue), Some(typeToMap)));
      if a.Failure? {
        return Failure(a.error);
      }
      next := WithEntries(m, m.entries[key := a.value.coll]);
    } else {
      var x := env.jackson.treeToValue(value, typeToMap.cls);
      if x.Failure? {
        return Failure(x.error);
      }
      var put := Put(m, key, x.value);
      if put.Failure? {
        return Failure(put.error);
      }
      next := put.value;
    }
    return Success(next);
  }

  /** doMergeNestedMap(source, node, mapper, type): returns the map's new state and the node
      with the fields it handled removed. */
  method DoMergeNestedMap(env: Env, source: Value, node: Json, mapType: TypeInfo) returns (r: Result<MapOutcome, Fault>)
    requires node.JObject? && (source.Null? || source.MapV?)
    ensures r == MergedNestedMap(env, node, source, mapType)
    decreases node, 4
  {
    if source.Null? {
      return Success(MapOutcome(source, node));
    }
    var keyType := TypeOrObject(mapType.component);
    var valueType := mapType.mapValue;
    var m := source;
    var i := 0;
    while i < |node.fields|
      invariant 0 <= i <= |node.fields| && m.MapV?
      invariant NestedEntries(env, node, keyType, valueType, i, m) == NestedEntries(env, node, keyType, valueType, 0, source)
    {
      var next := MergeNestedEntry(env, node, keyType, valueType, i, m);
      if next.Failure? {
        return Failure(next.error);
      }
      m := next.value;
      i := i + 1;
    }
    return Success(MapOutcome(m, JObject([])));
  }
}
