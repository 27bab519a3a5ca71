/** The PUT merge as DomainObjectReader runs it: a MergingPropertyHandler visits the target
    entity's properties and writes each merged value into the target, mergeCollections and
    mergeMaps build their results element by element and refill the target container, and
    copyRemainingProperties copies what the mapping model does not know about.

    Each method is proved to agree with its PutSpec counterpart (Wrappers.SameOutcome: the same
    success value, or a failure on both sides). */
module PutMerge {
  import opened Wrappers
  import opened Values
  import opened Mapping
  import opened ReaderHelpers
  import opened PutSpec

  /** Adding one more element to a container built by InsertedAll. */
  lemma {:induction false} InsertedAllSnoc(kind: CollKind, s: seq<Value>, xs: seq<Value>, x: Value)
    ensures InsertedAll(kind, s, xs + [x]) == Inserted(kind, InsertedAll(kind, s, xs), x)
    decreases |xs|
  {
    if xs != [] {
      assert (xs + [x])[1..] == xs[1..] + [x];
      InsertedAllSnoc(kind, Inserted(kind, s, xs[0]), xs[1..], x);
    }
  }

  /** MergingPropertyHandler: the source read from, the target written into, and the flag that
      makes entity references merge without their associations. */
  class MergingPropertyHandler {
    const env: Env
    const source: Value
    const bidi: bool
    var target: Value

    ghost predicate Valid()
      reads this
    {
      source.Obj? && target.Obj?
    }

    constructor (env: Env, source: Value, target: Value, bidi: bool)
      requires source.Obj? && target.Obj?
      ensures Valid()
      ensures this.env == env && this.source == source && this.target == target && this.bidi == bidi
    {
      this.env := env;
      this.source := source;
      this.target := target;
      this.bidi := bidi;
    }

    /** doWithPersistentProperty(property). On an exception the target is left as it was. */
    method DoWithPersistentProperty(p: Property) returns (fault: Option<Fault>)
      requires Valid()
      modifies this
      ensures Valid()
      ensures fault.None? <==> MergedProperty(env, source, old(target), p, bidi).Success?
      ensures fault.None? ==> target == MergedProperty(env, source, old(target), p, bidi).value
      ensures fault.Some? ==> target == old(target)
      decreases Present(source), source, 3
    {
      if p.isId || p.isVersion || !p.writable {
        return None;
      }
      if !IsMapped(p) {
        return None;
      }
      var sourceValue := FieldOf(source, p.name);
      var targetValue := FieldOf(target, p.name);
      var result: Result<Value, Fault>;
      if p.isMap {
        result := MergeMaps(env, p, sourceValue, targetValue);
      } else if p.isCollectionLike {
        result := MergeCollections(env, p, sourceValue, targetValue);
      } else if p.isEntity {
        if bidi {
          result := MergeForPutNoAssociations(env, sourceValue, targetValue);
        } else if !sourceValue.Null? && ClassOf(sourceValue) in env.schema.idFields {
          var sourceId := FieldOf(sourceValue, env.schema.idFields[ClassOf(sourceValue)]);
          var targetId := GetId(env.schema, targetValue);
          if targetId.Failure? {
            result := Failure(targetId.error);
          } else if sourceId != Null && targetId.value != Null && sourceId != targetId.value {
            // a different entity: keep the new reference as it is
            result := Success(sourceValue);
          } else {
            result := MergeForPut(env, sourceValue, targetValue, false);
          }
        } else {
          result := MergeForPut(env, sourceValue, targetValue, false);
        }
      } else {
        result := Success(sourceValue);
      }
      assert SameOutcome(result, MergedValue(env, p, sourceValue, targetValue, bidi));
      if result.Failure? {
        return Some(result.error);
      }
      target := SetField(target, p.name, result.value);
      return None;
    }

    /** PersistentEntity.doWithProperties(handler) and doWithAssociations(handler): the handler
        applied to each property in turn, up to the first exception. */
    method DoWithProperties(props: seq<Property>) returns (fault: Option<Fault>)
      requires Valid()
      modifies this
      ensures Valid()
      ensures fault.None? <==> MergedProps(env, source, old(target), props, bidi).Success?
      ensures fault.None? ==> target == MergedProps(env, source, old(target), props, bidi).value
      decreases Present(source), source, 4
    {
      ghost var start := target;
      var i := 0;
      while i < |props|
        invariant 0 <= i <= |props| && Valid()
        invariant MergedProps(env, source, target, props[i..], bidi) == MergedProps(env, source, start, props, bidi)
      {
        ghost var before := target;
        assert props[i..][0] == props[i] && props[i..][1..] == props[i + 1..];
        fault := DoWithPersistentProperty(props[i]);
        if fault.Some? {
          MergedPropsFails(env, source, before, props[i..], bidi);
          return;
        }
        MergedPropsStep(env, source, before, props[i..], bidi, target);
        i := i + 1;
      }
      return None;
    }
  }

  /** mergeForPut(source, target, mapper, bidirectional). */
  method MergeForPut(env: Env, source: Value, target: Value, bidi: bool) returns (r: Result<Value, Fault>)
    ensures SameOutcome(r, MergedForPut(env, source, target, bidi))
    decreases Present(source), source, 5
  {
    if target.Null? || source.Null? {
      return Success(source);
    }
    var entity := EntityOf(env.schema, target);
    if entity.None? {
      return Success(source);
    }
    if !IsInstance(env.schema, source, target.cls) {
      return Failure(IllegalArgument);
    }
    MergedForPutOfProps(env, source, target, bidi);
    var handler := new MergingPropertyHandler(env, source, target, bidi);
    // the plain properties, then the associations
    var fault := handler.DoWithProperties(PutOrder(entity.value));
    if fault.Some? {
      return Failure(fault.value);
    }
    var t := CopyRemainingProperties(entity.value.unmapped, source, handler.target);
    return Success(t);
  }

  /** mergeForPutNoAssociations(source, target, mapper). */
  method MergeForPutNoAssociations(env: Env, source: Value, target: Value) returns (r: Result<Value, Fault>)
    ensures SameOutcome(r, MergedForPutNoAssociations(env, source, target))
    decreases Present(source), source, 5
  {
    if target.Null? || source.Null? {
      return Success(source);
    }
    var entity := EntityOf(env.schema, target);
    if entity.None? {
      return Success(source);
    }
    if !IsInstance(env.schema, source, target.cls) {
      return Failure(IllegalArgument);
    }
    var handler := new MergingPropertyHandler(env, source, target, false);
    var fault := handler.DoWithProperties(PlainProperties(entity.value.props));
    if fault.Some? {
      return Failure(fault.value);
    }
    return Success(handler.target);
  }

  /** Element k of `merged` is element k of `sources` merged with the target element at k. */
  ghost predicate MergedPositionally(env: Env, sources: seq<Value>, targets: seq<Value>, bidi: bool, merged: seq<Value>) {
    && |merged| <= |sources|
    && forall k :: 0 <= k < |merged| ==> MergedForPut(env, sources[k], ElemAt(targets, k), bidi) == Success(merged[k])
  }

  lemma MergedPositionallySnoc(env: Env, sources: seq<Value>, targets: seq<Value>, bidi: bool, merged: seq<Value>, x: Value)
    requires MergedPositionally(env, sources, targets, bidi, merged) && |merged| < |sources|
    requires MergedForPut(env, sources[|merged|], ElemAt(targets, |merged|), bidi) == Success(x)
    ensures MergedPositionally(env, sources, targets, bidi, merged + [x])
  {
    var m := merged + [x];
    forall k | 0 <= k < |m| ensures MergedForPut(env, sources[k], ElemAt(targets, k), bidi) == Success(m[k]) {
      if k < |merged| {
        assert m[k] == merged[k];
      }
    }
  }

  /** The elements MergeCollections' loop merged, one per element of the source's view, are what
      MergedSources gives. */
  lemma MergedSourcesOfLoop(env: Env, source: Value, target: Value, bidi: bool, merged: seq<Value>)
    requires !source.Null? && |merged| == |ViewElems(AsCollection(source).value)|
    requires MergedPositionally(env, ViewElems(AsCollection(source).value), TargetElems(target), bidi, merged)
    ensures MergedSources(env, source, target, bidi) == Success(merged)
  {
    var targets := TargetElems(target);
    if source.Coll? || source.Arr? {
      var whole := MergedElements(env, source, 0, targets, bidi);
      assert whole.Success?;
      assert |whole.value| == |merged| && forall k :: 0 <= k < |merged| ==> whole.value[k] == merged[k];
      assert whole.value == merged;
    } else {
      assert merged == [merged[0]];
      assert MergedForPut(env, source, ElemAt(targets, 0), bidi) == Success(merged[0]);
    }
  }

  /** What mergeCollections returns once its loop merged `merged`: the target refilled, or the
      collection built for the result when there is no target or it cannot be refilled. */
  lemma MergedCollectionOfLoop(env: Env, source: Value, target: Value, bidi: bool, merged: seq<Value>)
    requires !source.Null? && |merged| == |ViewElems(AsCollection(source).value)|
    requires MergedPositionally(env, ViewElems(AsCollection(source).value), TargetElems(target), bidi, merged)
    ensures var kind := ResultKind(target);
            var built := Coll(Fresh, ClassFor(kind), kind, InsertedAll(kind, [], merged), true);
            MergedCollection(env, source, target, bidi)
            == Success(if target.Null? then built
                       else match ClearAndAddAll(AsCollection(target).value, built.elems)
                            case Success(c) => c
                            case Failure(_) => built)
  {
    MergedSourcesOfLoop(env, source, target, bidi, merged);
  }

  /** One element whose merge fails fails the whole collection merge. */
  lemma MergedCollectionFails(env: Env, source: Value, target: Value, bidi: bool, k: nat)
    requires !source.Null? && k < |ViewElems(AsCollection(source).value)|
    requires MergedForPut(env, ViewElems(AsCollection(source).value)[k], ElemAt(TargetElems(target), k), bidi).Failure?
    ensures MergedCollection(env, source, target, bidi).Failure?
  {
  }

  /** mergeCollections(property, source, target, mapper). */
  method MergeCollections(env: Env, p: Property, source: Value, target: Value) returns (r: Result<Value, Fault>)
    ensures SameOutcome(r, MergedCollection(env, source, target, AssociationBidirectional(env.reading, p)))
    decreases Present(source), source, 8
  {
    var sourceCollection := AsCollection(source);
    if sourceCollection.None? {
      return Success(Null);
    }
    var targetCollection := AsCollection(target);
    var kind := ResultKind(target);
    var result: seq<Value> := [];
    var sources := ViewElems(sourceCollection.value);
    var targets := TargetElems(target);
    var bidi := AssociationBidirectional(env.reading, p);
    ghost var merged: seq<Value> := [];
    var i := 0;
    while i < |sources|
      invariant 0 <= i <= |sources| && |merged| == i
      invariant result == InsertedAll(kind, [], merged)
      invariant MergedPositionally(env, sources, targets, bidi, merged)
    {
      assert sources[i] == source || sources[i] in source.elems;
      var element := MergeForPut(env, sources[i], ElemAt(targets, i), bidi);
      if element.Failure? {
        MergedCollectionFails(env, source, target, bidi, i);
        return Failure(element.error);
      }
      InsertedAllSnoc(kind, [], merged, element.value);
      MergedPositionallySnoc(env, sources, targets, bidi, merged, element.value);
      result := Inserted(kind, result, element.value);
      merged := merged + [element.value];
      i := i + 1;
    }
    MergedCollectionOfLoop(env, source, target, bidi, merged);
    var built := Coll(Fresh, ClassFor(kind), kind, result, true);
    if targetCollection.None? {
      return Success(built);
    }
    var refilled := ClearAndAddAll(targetCollection.value, result);
    if refilled.Failure? {
      return Success(built);
    }
    return Success(refilled.value);
  }

  /** What mergeMaps returns once every entry merged: its results, in the target when that can
      be refilled, else in a new LinkedHashMap. */
  lemma MergedMapOfLoop(env: Env, source: Value, target: Value, bidi: bool, result: map<Key, Value>)
    requires source.MapV? && (target.Null? || target.MapV?) && result.Keys == source.entries.Keys
    requires forall k :: k in result ==> MergedForPut(env, source.entries[k], EntryAt(target, k), bidi) == Success(result[k])
    ensures MergedMap(env, source, target, bidi)
            == Success(if target.Null? || !target.mutable then MapV(Fresh, LINKED_HASH_MAP, result, true)
                       else WithEntries(target, result))
  {
    assert result == map k | k in EntryMerges(env, source, target, bidi) :: EntryMerges(env, source, target, bidi)[k].value;
  }

  /** One entry whose merge fails fails the whole map merge. */
  lemma MergedMapFails(env: Env, source: Value, target: Value, bidi: bool, k: Key)
    requires source.MapV? && (target.Null? || target.MapV?) && k in source.entries
    requires MergedForPut(env, source.entries[k], EntryAt(target, k), bidi).Failure?
    ensures MergedMap(env, source, target, bidi).Failure?
  {
    assert EntryMerges(env, source, target, bidi)[k].Failure?;
  }

  /** mergeMaps(property, source, target, mapper). */
  method MergeMaps(env: Env, p: Property, source: Value, target: Value) returns (r: Result<Value, Fault>)
    ensures SameOutcome(r, MergedMap(env, source, target, AssociationBidirectional(env.reading, p)))
    decreases Present(source), source, 8
  {
    if source.Null? {
      return Success(Null);
    }
    if !source.MapV? || !(target.Null? || target.MapV?) {
      return Failure(ClassCast);
    }
    var bidi := AssociationBidirectional(env.reading, p);
    var result: map<Key, Value> := map[];
    var keys := source.entries.Keys;
    while keys != {}
      invariant keys <= source.entries.Keys
      invariant result.Keys == source.entries.Keys - keys
      invariant forall k :: k in result ==> MergedForPut(env, source.entries[k], EntryAt(target, k), bidi) == Success(result[k])
      decreases keys
    {
      var k :| k in keys;
      var merged := MergeForPut(env, source.entries[k], EntryAt(target, k), bidi);
      if merged.Failure? {
        MergedMapFails(env, source, target, bidi, k);
        return Failure(merged.error);
      }
      result := result[k := merged.value];
      keys := keys - {k};
    }
    MergedMapOfLoop(env, source, target, bidi, result);
    if target.Null? || !target.mutable {
      return Success(MapV(Fresh, LINKED_HASH_MAP, result, true));
    }
    return Success(WithEntries(target, result));
  }

  /** copyRemainingProperties(properties, source, target), returning the updated target. */
  method CopyRemainingProperties(unmapped: seq<UnmappedProperty>, source: Value, target: Value) returns (t: Value)
    requires target.Obj?
    ensures t == CopiedRemaining(unmapped, source, target)
  {
    t := target;
    var i := 0;
    while i < |unmapped|
      invariant 0 <= i <= |unmapped| && t.Obj?
      invariant CopiedRemaining(unmapped[i..], source, t) == CopiedRemaining(unmapped, source, target)
    {
      var property := unmapped[i];
      assert unmapped[i..][1..] == unmapped[i + 1..];
      if property.fieldWritable {
        t := SetField(t, property.name, FieldOf(source, property.name));
      } else if property.setterWritable && property.getterReadable {
        t := SetField(t, property.name, FieldOf(source, property.name));
      }
      i := i + 1;
    }
  }
}
