/** The PATCH merge (doMerge) as functions of the JSON document and the target value.

    doMerge walks the fields of an object node. Fields it handles itself (nested entities, nested
    maps, arrays whose items were merged as objects) are removed from the node; what is left is
    handed to Jackson's readerForUpdating together with the target. The JSON tree is a value
    here, so every function returns the node as it has been pruned next to the value's new state.
    Everything decreases on the JSON tree. */
module PatchSpec {
  import opened Wrappers
  import opened Values
  import opened Mapping
  import opened ReaderHelpers
  import JsonQuote

  /** The state the merged object is left in, and the object node as pruned. */
  datatype Patched = Patched(value: Value, doc: Json)

  /** doMerge's loop so far: the target's state and the fields still in the node. */
  datatype Pruned = Pruned(target: Value, kept: seq<JField>)

  /** One field of doMerge's loop: the property value's new state, whether the field stays in the
      node, and the field's node as it stays. */
  datatype FieldOutcome = FieldOutcome(raw: Value, keep: bool, node: Json)

  /** handleArray: the collection's new state, the array node (its nested object nodes pruned),
      and whether an object merge was applied to one of its items. */
  datatype ArrayOutcome = ArrayOutcome(coll: Value, node: Json, handled: bool)

  /** doMergeNestedMap: the map's new state and what is left of the object node. */
  datatype MapOutcome = MapOutcome(m: Value, node: Json)

  /** The field names of an object node. */
  function Names(fields: seq<JField>): set<string> {
    set f | f in fields :: f.name
  }

  /** Jackson's ObjectNode holds each field name once. */
  predicate DistinctFieldNames(fields: seq<JField>) {
    forall i, j :: 0 <= i < j < |fields| ==> fields[i].name != fields[j].name
  }

  /** Element j of a collection (or of an array) as it stands after an in-place merge. */
  function SetElem(c: Value, j: nat, x: Value): (r: Value)
    requires (c.Coll? || c.Arr?) && j < |c.elems|
    ensures (r.Coll? || r.Arr?) && r.ref == c.ref && r.cls == c.cls
    ensures r.elems == c.elems[j := x]
    ensures c.Coll? ==> r.Coll? && r.kind == c.kind && r.mutable == c.mutable
  {
    WithElems(c, c.elems[j := x])
  }

  // ---------------------------------------------------------------------------------------
  // doMerge
  // ---------------------------------------------------------------------------------------

  /** doMerge(root, target, mapper). */
  function MergedDocument(env: Env, root: Json, target: Value): (r: Result<Patched, Fault>)
    requires root.JObject?
    ensures target.Null? ==> r == Failure(IllegalArgument)
    ensures r.Success? ==> r.value.doc.JObject? && Names(r.value.doc.fields) <= Names(root.fields)
    ensures EntityOf(env.schema, target).None? && !target.Null? ==>
              r.Success? == env.jackson.updating(target, root).Success? && (r.Success? ==> r.value.doc == root)
    decreases root, 6
  {
    if target.Null? then Failure(IllegalArgument)
    else match EntityOf(env.schema, target)
      case None =>
        var v :- env.jackson.updating(target, root);
        Success(Patched(v, root))
      case Some(e) =>
        var pr :- PrunedFields(env, e, root, 0, target, []);
        var doc := JObject(pr.kept);
        var v :- env.jackson.updating(pr.target, doc);
        Success(Patched(v, doc))
  }

  /** The loop over root's fields from the i-th on, with the target `t` and the fields `kept`
      so far. A field that names no persistent property, or whose property currently holds null,
      stays as it is. */
  function PrunedFields(env: Env, e: EntityInfo, root: Json, i: nat, t: Value, kept: seq<JField>): (r: Result<Pruned, Fault>)
    requires root.JObject? && i <= |root.fields| && t.Obj?
    ensures r.Success? ==> r.value.target.Obj? && r.value.target.ref == t.ref && r.value.target.cls == t.cls
    ensures r.Success? ==> Names(r.value.kept) <= Names(kept) + Names(root.fields[i..])
    ensures r.Success? ==> kept <= r.value.kept
    decreases root, 5, |root.fields| - i
  {
    if i == |root.fields| then Success(Pruned(t, kept))
    else
      var f := root.fields[i];
      assert Names(root.fields[i + 1..]) + {f.name} == Names(root.fields[i..]) by {
        assert root.fields[i..] == [f] + root.fields[i + 1..];
      }
      match PropertyForField(e.props, f.name)
      case None => PrunedFields(env, e, root, i + 1, t, kept + [f])
      case Some(p) =>
        var raw := FieldOf(t, p.name);
        if raw.Null? then PrunedFields(env, e, root, i + 1, t, kept + [f])
        else
          var o :- FieldMerge(env, p, f.value, raw);
          PrunedFields(env, e, root, i + 1, SetField(t, p.name, o.raw),
                       if o.keep then kept + [JField(f.name, o.node)] else kept)
  }

  /** The body of doMerge's loop for a field backed by property `p` that holds `raw`. */
  function FieldMerge(env: Env, p: Property, child: Json, raw: Value): (r: Result<FieldOutcome, Fault>)
    requires !raw.Null?
    // scalars and linkable associations are left to Jackson untouched
    ensures child.JValue? ==> r == Success(FieldOutcome(raw, true, child))
    ensures child.JObject? && p.linkable ==> r == Success(FieldOutcome(raw, true, child))
    // an empty object for a map is kept so that Jackson wipes the map
    ensures child.JObject? && !p.linkable && p.isMap && child.fields == [] ==> r == Success(FieldOutcome(raw, true, child))
    ensures child.JObject? && !p.linkable && p.isMap && child.fields != [] && !raw.MapV? ==> r == Failure(ClassCast)
    // a non-empty object for a map is merged entry by entry, and then removed from the document
    ensures child.JObject? && !p.linkable && p.isMap && child.fields != [] && raw.MapV? && r.Success? ==>
              !r.value.keep && r.value.raw.MapV? && r.value.raw.ref == raw.ref
    // a nested entity is merged here and removed from the document
    ensures child.JObject? && !p.linkable && !p.isMap && p.isEntity ==>
              r.Success? == MergedDocument(env, child, raw).Success?
              && (r.Success? ==> !r.value.keep && r.value.raw == MergedDocument(env, child, raw).value.value)
    ensures child.JObject? && !p.linkable && !p.isMap && !p.isEntity ==> r == Success(FieldOutcome(raw, true, child))
    // an array stays unless one of its items was merged as an object
    ensures child.JArray? ==> r.Success? == HandledArray(env, child, raw, p.typeInfo).Success?
    ensures child.JArray? && r.Success? ==> r.value.keep == !HandledArray(env, child, raw, p.typeInfo).value.handled
    decreases child, 7
  {
    match child
    case JArray(_) =>
      var a :- HandledArray(env, child, raw, p.typeInfo);
      Success(FieldOutcome(a.coll, !a.handled, a.node))
    case JObject(fields) =>
      if p.linkable then Success(FieldOutcome(raw, true, child))
      else if p.isMap then
        if fields == [] then Success(FieldOutcome(raw, true, child))
        else if !raw.MapV? then Failure(ClassCast)
        else
          var m :- MergedNestedMap(env, child, raw, p.typeInfo);
          Success(FieldOutcome(m.m, m.node.fields != [], m.node))
      else if p.isEntity then
        var d :- MergedDocument(env, child, raw);
        Success(FieldOutcome(d.value, false, d.doc))
      else Success(FieldOutcome(raw, true, child))
    case JValue(_) => Success(FieldOutcome(raw, true, child))
  }

  // ---------------------------------------------------------------------------------------
  // handleArray / handleArrayNode
  // ---------------------------------------------------------------------------------------

  /** handleArray(node, source, mapper, collectionType). */
  function HandledArray(env: Env, node: Json, source: Value, collectionType: TypeInfo): (r: Result<ArrayOutcome, Fault>)
    requires node.JArray?
    ensures source.Null? ==> r == Failure(IllegalArgument)
    ensures !source.Null? && !(source.Coll? || source.Arr?) ==> r == Success(ArrayOutcome(source, node, false))
    ensures r.Success? ==> r.value.node.JArray? && |r.value.node.items| == |node.items|
    ensures r.Success? && (source.Coll? || source.Arr?) ==>
              (r.value.coll.Coll? || r.value.coll.Arr?) && r.value.coll.ref == source.ref && r.value.coll.cls == source.cls
    decreases node, 4
  {
    if source.Null? then Failure(IllegalArgument)
    else match IfCollection(source)
      case None => Success(ArrayOutcome(source, node, false))
      case Some(c) => HandledArrayNode(env, node, c, collectionType.component)
  }

  /** handleArrayNode(array, collection, mapper, componentType): walks the items against a
      snapshot of the collection taken before any change. */
  function HandledArrayNode(env: Env, node: Json, c: Value, componentType: Option<TypeInfo>): (r: Result<ArrayOutcome, Fault>)
    requires node.JArray? && (c.Coll? || c.Arr?)
    ensures r.Success? ==> (r.value.coll.Coll? || r.value.coll.Arr?) && r.value.coll.ref == c.ref && r.value.coll.cls == c.cls
    ensures r.Success? ==> r.value.node.JArray? && |r.value.node.items| == |node.items|
    decreases node, 3
  {
    ArrayItems(env, node, c.elems, componentType, 0, c, false, node.items)
  }

  /** The loop of handleArrayNode from item j on: `c` is the collection as it stands, `nested`
      whether an object item has been merged, `items` the items as they stand. */
  function ArrayItems(env: Env, node: Json, snapshot: seq<Value>, componentType: Option<TypeInfo>, j: nat,
                      c: Value, nested: bool, items: seq<Json>): (r: Result<ArrayOutcome, Fault>)
    requires node.JArray? && (c.Coll? || c.Arr?) && j <= |node.items| && |snapshot| <= |c.elems| && |items| == |node.items|
    ensures r.Success? ==> (r.value.coll.Coll? || r.value.coll.Arr?) && r.value.coll.ref == c.ref && r.value.coll.cls == c.cls
    ensures r.Success? && c.Coll? ==> r.value.coll.Coll? && r.value.coll.kind == c.kind && r.value.coll.mutable == c.mutable
    ensures r.Success? ==> r.value.node.JArray? && |r.value.node.items| == |node.items|
    decreases node, 2, |node.items| - j
  {
    if j == |node.items| then
      var rest :- RemovedSurplus(c, snapshot, j);
      Success(ArrayOutcome(rest, JArray(items), nested))
    else
      var item := node.items[j];
      if j >= |snapshot| then
        // the collection has run out: the item is decoded and added
        var x :- env.jackson.treeToValue(item, TypeToMap(None, componentType).cls);
        var added :- Add(c, x);
        ArrayItems(env, node, snapshot, componentType, j + 1, added, nested, items)
      else if item.JArray? then
        // a nested array: handled recursively, and the loop ends there
        var inner :- HandledArray(env, item, snapshot[j],
                                  TypeToMap(Some(RuntimeClass(SNAPSHOT_ITERATOR, None)), componentType));
        Success(ArrayOutcome(SetElem(c, j, inner.coll), JArray(items[j := inner.node]), inner.handled))
      else if item.JObject? then
        var d :- MergedDocument(env, item, snapshot[j]);
        ArrayItems(env, node, snapshot, componentType, j + 1, SetElem(c, j, d.value), true, items[j := d.doc])
      else
        ArrayItems(env, node, snapshot, componentType, j + 1, c, nested, items)
  }

  /** The closing loop of handleArrayNode: every snapshot element from position k on has no
      item, and is removed from the collection. */
  function RemovedSurplus(c: Value, snapshot: seq<Value>, k: nat): (r: Result<Value, Fault>)
    requires c.Coll? || c.Arr?
    ensures r.Success? ==> (r.value.Coll? || r.value.Arr?) && r.value.ref == c.ref && r.value.cls == c.cls
    ensures r.Success? && c.Coll? ==> r.value.Coll? && r.value.kind == c.kind && r.value.mutable == c.mutable
    ensures k >= |snapshot| ==> r == Success(c)
    decreases |snapshot| - k
  {
    if k >= |snapshot| then Success(c)
    else
      var c1 :- Remove(c, snapshot[k]);
      RemovedSurplus(c1, snapshot, k + 1)
  }

  // ---------------------------------------------------------------------------------------
  // doMergeNestedMap
  // ---------------------------------------------------------------------------------------

  /** doMergeNestedMap(source, node, mapper, type). */
  function MergedNestedMap(env: Env, node: Json, source: Value, mapType: TypeInfo): (r: Result<MapOutcome, Fault>)
    requires node.JObject? && (source.Null? || source.MapV?)
    ensures source.Null? ==> r == Success(MapOutcome(source, node))
    ensures r.Success? ==> r.value.node.JObject?
    ensures r.Success? && source.MapV? ==> r.value.node == JObject([]) && r.value.m.MapV? && r.value.m.ref == source.ref
    decreases node, 4
  {
    if source.Null? then Success(MapOutcome(source, node))
    else NestedEntries(env, node, TypeOrObject(mapType.component), mapType.mapValue, 0, source)
  }

  /** Map.get: the value held for a key, or null. */
  function MapGet(m: Value, k: Key): (r: Value)
    requires m.MapV?
    ensures k in m.entries ==> r == m.entries[k]
    ensures k !in m.entries ==> r.Null?
  {
    if k in m.entries then m.entries[k] else Null
  }

  /** quote(key): the name between quotes as written, or escaped as a JSON string literal. */
  function KeyLiteral(reading: Reading, name: string): (r: string)
    ensures reading == AsWritten ==> r == JsonQuote.Quote(Some(name)).value
    ensures reading == Corrected ==> JsonQuote.DecodeLiteral(r) == Some(name)
  {
    if reading == AsWritten then JsonQuote.Quote(Some(name)).value
    else
      JsonQuote.QuoteEscapedRoundTrip(name);
      JsonQuote.QuoteEscaped(name)
  }

  /** The key a field name stands for: mapper.readValue(quote(key), keyType). */
  function DecodedKey(env: Env, name: string, keyType: ClassName): Result<Key, Fault> {
    env.jackson.readKey(KeyLiteral(env.reading, name), keyType)
  }

  /** The loop of doMergeNestedMap from the i-th field on, over the map `m` as it stands. Each
      field is removed from the node once handled. */
  function NestedEntries(env: Env, node: Json, keyType: ClassName, valueType: Option<TypeInfo>, i: nat, m: Value): (r: Result<MapOutcome, Fault>)
    requires node.JObject? && i <= |node.fields| && m.MapV?
    ensures r.Success? ==> r.value.node == JObject([]) && r.value.m.MapV? && r.value.m.ref == m.ref && r.value.m.cls == m.cls
    ensures r.Success? ==> m.entries.Keys <= r.value.m.entries.Keys
    decreases node, 3, |node.fields| - i
  {
    if i == |node.fields| then Success(MapOutcome(m, JObject([])))
    else
      var m1 :- NestedEntry(env, node, keyType, valueType, i, m);
      NestedEntries(env, node, keyType, valueType, i + 1, m1)
  }

  /** The body of doMergeNestedMap's loop for the i-th field: the entry its name decodes to is
      merged in place when the field is an object or an array and the entry is present, and is
      otherwise decoded and put. No other entry changes. */
  function NestedEntry(env: Env, node: Json, keyType: ClassName, valueType: Option<TypeInfo>, i: nat, m: Value): (r: Result<Value, Fault>)
    requires node.JObject? && i < |node.fields| && m.MapV?
    ensures r.Success? ==> DecodedKey(env, node.fields[i].name, keyType).Success?
    ensures r.Success? ==> r.value.MapV? && r.value.ref == m.ref && r.value.cls == m.cls && r.value.mutable == m.mutable
    ensures r.Success? ==> r.value.entries.Keys == m.entries.Keys + {DecodedKey(env, node.fields[i].name, keyType).value}
    ensures r.Success? ==> forall k :: k in m.entries && k != DecodedKey(env, node.fields[i].name, keyType).value ==>
                             r.value.entries[k] == m.entries[k]
    // a scalar, or a value for a key the map holds no value for, is decoded and put: the map
    // must be modifiable
    ensures var key := DecodedKey(env, node.fields[i].name, keyType);
            key.Success? && (node.fields[i].value.JValue? || MapGet(m, key.value).Null?) && r.Success? ==>
              && m.mutable
              && env.jackson.treeToValue(node.fields[i].value, TypeToMap(RuntimeClassOf(MapGet(m, key.value)), valueType).cls)
                 == Success(r.value.entries[key.value])
    decreases node, 2
  {
    var f := node.fields[i];
    var mappedKey :- DecodedKey(env, f.name, keyType);
    var sourceValue := MapGet(m, mappedKey);
    var typeToMap := TypeToMap(RuntimeClassOf(sourceValue), valueType);
    if f.value.JObject? && !sourceValue.Null? then
      // the value is merged in place: no put
      var d :- MergedDocument(env, f.value, sourceValue);
      Success(WithEntries(m, m.entries[mappedKey := d.value]))
    else if f.value.JArray? && !sourceValue.Null? then
      var a :- HandledArray(env, f.value, sourceValue, TypeToMap(RuntimeClassOf(sourceValue), Some(typeToMap)));
      Success(WithEntries(m, m.entries[mappedKey := a.coll]))
    else
      var x :- env.jackson.treeToValue(f.value, typeToMap.cls);
      Put(m, mappedKey, x)
  }
}
