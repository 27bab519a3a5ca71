/** What a PUT merge (DomainObjectReader.mergeForPut and the MergingPropertyHandler it drives)
    leaves behind, as functions of the source and target values.

    The functions are ghost because a map merge that fails in several entries fails with the
    exception of whichever entry a hash map's iteration reaches first; the specification picks one
    of them, and the methods in PutMerge are proved to agree with it up to that choice
    (Wrappers.SameOutcome). They recurse on the SOURCE value: every nested merge is applied to a
    field, element or entry of the source, or to the source itself one rank lower. */
module PutSpec {
  import opened Wrappers
  import opened Values
  import opened Mapping
  import opened ReaderHelpers

  /** 0 for null, 1 otherwise: a null field read from the source is not a sub-term of it but is
      still smaller. */
  function Present(v: Value): nat {
    if v.Null? then 0 else 1
  }

  /** getClass() of a non-null value. */
  function ClassOf(v: Value): ClassName
    requires !v.Null?
  {
    RuntimeClassOf(v).value.cls
  }

  /** MergingPropertyHandler.doWithPersistentProperty returns early for id, version, read-only
      and Jackson-unmapped properties; every other property is written. */
  predicate Writes(p: Property) {
    !p.isId && !p.isVersion && p.writable && IsMapped(p)
  }

  /** The names the handler may write when it visits `props`. */
  function WrittenNames(props: seq<Property>): set<PropName> {
    set p | p in props && Writes(p) :: p.name
  }

  /** The sequence is free of two different properties with one name. */
  predicate NameOwnedBy(props: seq<Property>, p: Property) {
    forall q :: q in props && q.name == p.name ==> q == p
  }

  /** copyRemainingProperties copies through the field when the target has a writable field,
      otherwise through the bean accessors when the target can write and the source can read. */
  predicate Copies(u: UnmappedProperty) {
    u.fieldWritable || (u.setterWritable && u.getterReadable)
  }

  function CopiedNames(unmapped: seq<UnmappedProperty>): set<PropName> {
    set u | u in unmapped && Copies(u) :: u.name
  }

  /** getId: null for null; otherwise the value of the class's id field. A class without one makes
      FieldUtils.readField reject the null field. */
  function GetId(s: Schema, v: Value): Result<Value, Fault> {
    if v.Null? then Success(Null)
    else if ClassOf(v) in s.idFields then Success(FieldOf(v, s.idFields[ClassOf(v)]))
    else Failure(IllegalArgument)
  }

  /** Both objects have an id, both ids are non-null and they differ: the reference names another
      entity than the one currently held. */
  predicate IdsDiffer(s: Schema, sv: Value, tv: Value) {
    && !sv.Null? && !tv.Null?
    && ClassOf(sv) in s.idFields && ClassOf(tv) in s.idFields
    && FieldOf(sv, s.idFields[ClassOf(sv)]) != Null
    && FieldOf(tv, s.idFields[ClassOf(tv)]) != Null
    && FieldOf(sv, s.idFields[ClassOf(sv)]) != FieldOf(tv, s.idFields[ClassOf(tv)])
  }

  /** The element a positional merge pairs with source element i: the target's, or null once the
      target has run out. */
  function ElemAt(tgts: seq<Value>, i: nat): Value {
    if i < |tgts| then tgts[i] else Null
  }

  /** targetMap.get(key), null for a missing map or key. */
  function EntryAt(tv: Value, k: Key): Value {
    if tv.MapV? && k in tv.entries then tv.entries[k] else Null
  }

  /** The elements the target collection presents to the positional merge. */
  function TargetElems(tv: Value): seq<Value> {
    match AsCollection(tv)
    case None => []
    case Some(w) => ViewElems(w)
  }

  /** The kind of the collection mergeCollections builds its result in: CollectionFactory gives a
      LinkedHashSet for the plain Collection interface when there is no target, and an
      approximation of the target otherwise. */
  function ResultKind(tv: Value): CollKind {
    match AsCollection(tv)
    case None => SetKind
    case Some(w) => ApproximateKind(w)
  }

  // ---------------------------------------------------------------------------------------
  // mergeForPut / mergeForPutNoAssociations
  // ---------------------------------------------------------------------------------------

  /** mergeForPut(source, target, mapper, bidirectional). */
  ghost function MergedForPut(env: Env, source: Value, target: Value, bidi: bool): (r: Result<Value, Fault>)
    // a null on either side, or a target that is no entity, hands back the source
    ensures target.Null? || source.Null? || EntityOf(env.schema, target).None? ==> r == Success(source)
    // getPropertyAccessor(source) refuses a source that is no instance of the entity's type
    ensures !target.Null? && !source.Null? && EntityOf(env.schema, target).Some? && !IsInstance(env.schema, source, target.cls) ==>
              r == Failure(IllegalArgument)
    // otherwise the very target object comes back, updated in place
    ensures !target.Null? && !source.Null? && EntityOf(env.schema, target).Some? && r.Success? ==>
              r.value.Obj? && r.value.ref == target.ref && r.value.cls == target.cls
    decreases Present(source), source, 5
  {
    if target.Null? || source.Null? then Success(source)
    else match EntityOf(env.schema, target)
      case None => Success(source)
      case Some(e) =>
        // entity.getPropertyAccessor(source) accepts only an instance of the entity's type
        if !IsInstance(env.schema, source, target.cls) then Failure(IllegalArgument)
        else
          var t1 :- MergedProps(env, source, target, PutOrder(e), bidi);
          Success(CopiedRemaining(e.unmapped, source, t1))
  }

  /** mergeForPutNoAssociations(source, target, mapper): the plain properties only, merged with the
      bidirectional flag off, and no unmapped properties copied. */
  ghost function MergedForPutNoAssociations(env: Env, source: Value, target: Value): (r: Result<Value, Fault>)
    ensures target.Null? || source.Null? || EntityOf(env.schema, target).None? ==> r == Success(source)
    ensures !target.Null? && !source.Null? && EntityOf(env.schema, target).Some? && !IsInstance(env.schema, source, target.cls) ==>
              r == Failure(IllegalArgument)
    // the target keeps its identity, and every association and unwritten property is left alone
    ensures !target.Null? && !source.Null? && EntityOf(env.schema, target).Some? && r.Success? ==>
              && r.value.Obj? && r.value.ref == target.ref && r.value.cls == target.cls
              && forall n :: n !in WrittenNames(PlainProperties(EntityOf(env.schema, target).value.props)) ==>
                   FieldOf(r.value, n) == FieldOf(target, n)
    decreases Present(source), source, 5
  {
    if target.Null? || source.Null? then Success(source)
    else match EntityOf(env.schema, target)
      case None => Success(source)
      case Some(e) =>
        if !IsInstance(env.schema, source, target.cls) then Failure(IllegalArgument)
        else MergedProps(env, source, target, PlainProperties(e.props), false)
  }

  /** The handler applied to each of `props` in turn; the first exception ends the merge. */
  ghost function MergedProps(env: Env, s: Value, t: Value, props: seq<Property>, bidi: bool): (r: Result<Value, Fault>)
    requires s.Obj? && t.Obj?
    ensures r.Success? ==> r.value.Obj? && r.value.ref == t.ref && r.value.cls == t.cls
    ensures r.Success? ==> forall n :: n !in WrittenNames(props) ==> FieldOf(r.value, n) == FieldOf(t, n)
    decreases Present(s), s, 4, |props|
  {
    if props == [] then Success(t)
    else
      var t1 :- MergedProperty(env, s, t, props[0], bidi);
      MergedProps(env, s, t1, props[1..], bidi)
  }

  /** After the first property of a sequence is merged, the rest remain to be visited. */
  lemma MergedPropsStep(env: Env, s: Value, t: Value, props: seq<Property>, bidi: bool, t1: Value)
    requires s.Obj? && t.Obj? && props != []
    requires MergedProperty(env, s, t, props[0], bidi) == Success(t1)
    ensures t1.Obj? && MergedProps(env, s, t, props, bidi) == MergedProps(env, s, t1, props[1..], bidi)
  {
  }

  /** A property whose merge fails fails the whole visit. */
  lemma MergedPropsFails(env: Env, s: Value, t: Value, props: seq<Property>, bidi: bool)
    requires s.Obj? && t.Obj? && props != []
    requires MergedProperty(env, s, t, props[0], bidi).Failure?
    ensures MergedProps(env, s, t, props, bidi).Failure?
  {
  }

  /** mergeForPut on an entity: the properties merged in order, then the unmapped ones copied. */
  lemma MergedForPutOfProps(env: Env, source: Value, target: Value, bidi: bool)
    requires !target.Null? && EntityOf(env.schema, target).Some? && IsInstance(env.schema, source, target.cls)
    ensures var e := EntityOf(env.schema, target).value;
            var t1 := MergedProps(env, source, target, PutOrder(e), bidi);
            MergedForPut(env, source, target, bidi)
            == if t1.Failure? then Failure(t1.error) else Success(CopiedRemaining(e.unmapped, source, t1.value))
  {
  }

  /** MergingPropertyHandler.doWithPersistentProperty(property): the target after it. */
  ghost function MergedProperty(env: Env, s: Value, t: Value, p: Property, bidi: bool): (r: Result<Value, Fault>)
    requires s.Obj? && t.Obj?
    ensures !Writes(p) ==> r == Success(t)
    ensures r.Success? ==> r.value.Obj? && r.value.ref == t.ref && r.value.cls == t.cls
    ensures r.Success? ==> forall n :: n != p.name ==> FieldOf(r.value, n) == FieldOf(t, n)
    // a written property ends up holding what the per-kind merge of its two values gives
    ensures Writes(p) ==>
              && r.Success? == MergedValue(env, p, FieldOf(s, p.name), FieldOf(t, p.name), bidi).Success?
              && (r.Success? ==> FieldOf(r.value, p.name) == MergedValue(env, p, FieldOf(s, p.name), FieldOf(t, p.name), bidi).value)
    decreases Present(s), s, 3
  {
    if !Writes(p) then Success(t)
    else
      var res :- MergedValue(env, p, FieldOf(s, p.name), FieldOf(t, p.name), bidi);
      Success(SetField(t, p.name, res))
  }

  /** The value the handler writes for property `p`, given the source's value `sv` and the
      target's value `tv`: a map or collection merge, a reference merge, or the source verbatim. */
  ghost function MergedValue(env: Env, p: Property, sv: Value, tv: Value, bidi: bool): (r: Result<Value, Fault>)
    ensures !p.isMap && !p.isCollectionLike && !p.isEntity ==> r == Success(sv)
    decreases Present(sv), sv, 9
  {
    if p.isMap then MergedMap(env, sv, tv, AssociationBidirectional(env.reading, p))
    else if p.isCollectionLike then MergedCollection(env, sv, tv, AssociationBidirectional(env.reading, p))
    else if p.isEntity then MergedReference(env, sv, tv, bidi)
    else Success(sv)
  }

  /** The entity-reference branch of doWithPersistentProperty. */
  ghost function MergedReference(env: Env, sv: Value, tv: Value, bidi: bool): (r: Result<Value, Fault>)
    // bidirectional: the referenced target object is kept and only its plain properties merged
    ensures bidi && r.Success? && !sv.Null? && EntityOf(env.schema, tv).Some? ==>
              && r.value.Obj? && r.value.ref == tv.ref
              && forall n :: n !in WrittenNames(PlainProperties(EntityOf(env.schema, tv).value.props)) ==>
                   FieldOf(r.value, n) == FieldOf(tv, n)
    // two different identified entities: the new reference replaces the old one wholesale
    ensures !bidi && IdsDiffer(env.schema, sv, tv) ==> r == Success(sv)
    // otherwise the source is merged into the referenced object, which keeps its identity
    ensures !bidi && !IdsDiffer(env.schema, sv, tv) && r.Success? && !sv.Null? && EntityOf(env.schema, tv).Some? ==>
              r.value.Obj? && r.value.ref == tv.ref && r.value.cls == tv.cls
    // a null reference stays null
    ensures sv.Null? ==> r == Success(Null)
    decreases Present(sv), sv, 6
  {
    if bidi then MergedForPutNoAssociations(env, sv, tv)
    else if !sv.Null? && ClassOf(sv) in env.schema.idFields then
      var targetId :- GetId(env.schema, tv);
      var sourceId := FieldOf(sv, env.schema.idFields[ClassOf(sv)]);
      if sourceId != Null && targetId != Null && sourceId != targetId then Success(sv)
      else MergedForPut(env, sv, tv, false)
    else MergedForPut(env, sv, tv, false)
  }

  // ---------------------------------------------------------------------------------------
  // mergeCollections
  // ---------------------------------------------------------------------------------------

  /** The source elements from index `i` on, each merged with the target element at its position. */
  ghost function MergedElements(env: Env, owner: Value, i: nat, tgts: seq<Value>, bidi: bool): (r: Result<seq<Value>, Fault>)
    requires (owner.Coll? || owner.Arr?) && i <= |owner.elems|
    ensures r.Success? <==> forall k :: i <= k < |owner.elems| ==> MergedForPut(env, owner.elems[k], ElemAt(tgts, k), bidi).Success?
    ensures r.Success? ==> |r.value| == |owner.elems| - i
    ensures r.Success? ==> forall k :: 0 <= k < |r.value| ==>
              MergedForPut(env, owner.elems[i + k], ElemAt(tgts, i + k), bidi) == Success(r.value[k])
    decreases Present(owner), owner, 6, |owner.elems| - i
  {
    if i == |owner.elems| then Success([])
    else
      var m :- MergedForPut(env, owner.elems[i], ElemAt(tgts, i), bidi);
      var rest :- MergedElements(env, owner, i + 1, tgts, bidi);
      Success([m] + rest)
  }

  /** What the positional merge gives for the whole source collection (a single element for the
      one-element view of a non-collection source). */
  ghost function MergedSources(env: Env, sv: Value, tv: Value, bidi: bool): (r: Result<seq<Value>, Fault>)
    requires !sv.Null?
    ensures r.Success? ==> |r.value| == |ViewElems(AsCollection(sv).value)|
    decreases Present(sv), sv, 7
  {
    if sv.Coll? || sv.Arr? then MergedElements(env, sv, 0, TargetElems(tv), bidi)
    else
      var m :- MergedForPut(env, sv, ElemAt(TargetElems(tv), 0), bidi);
      Success([m])
  }

  /** mergeCollections(property, source, target, mapper). */
  ghost function MergedCollection(env: Env, sv: Value, tv: Value, bidi: bool): (r: Result<Value, Fault>)
    ensures sv.Null? ==> r == Success(Null)
    ensures !sv.Null? ==> r.Success? == MergedSources(env, sv, tv, bidi).Success?
    // the result holds the merged elements, as a collection of the result kind collects them
    ensures !sv.Null? && r.Success? ==>
              && (r.value.Coll? || r.value.Arr?)
              && (r.value.Coll? ==> r.value.kind == (if tv.Coll? then tv.kind else ResultKind(tv)))
              && r.value.elems == InsertedAll(ResultKind(tv), [], MergedSources(env, sv, tv, bidi).value)
    // a modifiable target collection is refilled and returned itself
    ensures !sv.Null? && r.Success? && tv.Coll? && tv.mutable ==> r.value.ref == tv.ref && r.value.cls == tv.cls
    // an empty array survives "clear and add nothing" and comes back itself
    ensures !sv.Null? && r.Success? && r.value.Arr? ==> r.value == tv && tv.elems == []
    // otherwise the collection built for the result comes back
    ensures !sv.Null? && r.Success? && !(tv.Coll? && tv.mutable) && !r.value.Arr? ==>
              r.value.ref == Fresh && r.value.cls == ClassFor(ResultKind(tv)) && r.value.kind == ResultKind(tv)
    decreases Present(sv), sv, 8
  {
    if sv.Null? then Success(Null)
    else
      var merged :- MergedSources(env, sv, tv, bidi);
      var kind := ResultKind(tv);
      var result := Coll(Fresh, ClassFor(kind), kind, InsertedAll(kind, [], merged), true);
      InsertedAllIdempotent(kind, merged);
      if tv.Null? then Success(result)
      else match ClearAndAddAll(AsCollection(tv).value, result.elems)
        case Success(c) => Success(c)
        case Failure(_) => Success(result)
  }

  // ---------------------------------------------------------------------------------------
  // mergeMaps
  // ---------------------------------------------------------------------------------------

  /** mergeForPut applied to every source entry and the target's value under the same key. */
  ghost function EntryMerges(env: Env, sv: Value, tv: Value, bidi: bool): (r: map<Key, Result<Value, Fault>>)
    requires sv.MapV?
    ensures r.Keys == sv.entries.Keys
    decreases Present(sv), sv, 6
  {
    map k | k in sv.entries :: MergedForPut(env, sv.entries[k], EntryAt(tv, k), bidi)
  }

  /** mergeMaps(property, source, target, mapper). */
  ghost function MergedMap(env: Env, sv: Value, tv: Value, bidi: bool): (r: Result<Value, Fault>)
    ensures sv.Null? ==> r == Success(Null)
    ensures !sv.Null? ==> (r.Success? <==> (&& sv.MapV? && (tv.Null? || tv.MapV?)
                                           && forall k :: k in sv.entries ==> MergedForPut(env, sv.entries[k], EntryAt(tv, k), bidi).Success?))
    // the result has exactly the source's keys, each mapped to the merge of the two values under it
    ensures !sv.Null? && r.Success? ==>
              && r.value.MapV? && r.value.entries.Keys == sv.entries.Keys
              && forall k :: k in sv.entries ==> MergedForPut(env, sv.entries[k], EntryAt(tv, k), bidi) == Success(r.value.entries[k])
    // a modifiable target map is refilled and returned itself; otherwise a new LinkedHashMap
    ensures !sv.Null? && r.Success? && tv.MapV? && tv.mutable ==> r.value.ref == tv.ref && r.value.cls == tv.cls
    ensures !sv.Null? && r.Success? && !(tv.MapV? && tv.mutable) ==> r.value.ref == Fresh && r.value.cls == LINKED_HASH_MAP
    decreases Present(sv), sv, 8
  {
    if sv.Null? then Success(Null)
    else if !sv.MapV? || !(tv.Null? || tv.MapV?) then Failure(ClassCast)
    else
      var results := EntryMerges(env, sv, tv, bidi);
      if exists k :: k in results && results[k].Failure? then
        var k :| k in results && results[k].Failure?;
        Failure(results[k].error)
      else
        var merged := map k | k in results :: results[k].value;
        if tv.MapV? && tv.mutable then Success(WithEntries(tv, merged))
        else Success(MapV(Fresh, LINKED_HASH_MAP, merged, true))
  }

  // ---------------------------------------------------------------------------------------
  // copyRemainingProperties
  // ---------------------------------------------------------------------------------------

  /** copyRemainingProperties(properties, source, target): the target afterwards. */
  function CopiedRemaining(unmapped: seq<UnmappedProperty>, s: Value, t: Value): (r: Value)
    requires t.Obj?
    ensures r.Obj? && r.ref == t.ref && r.cls == t.cls
    // a copyable property takes the source's value, every other field keeps the target's
    ensures forall n :: FieldOf(r, n) == if n in CopiedNames(unmapped) then FieldOf(s, n) else FieldOf(t, n)
  {
    if unmapped == [] then t
    else
      var u := unmapped[0];
      var t1 := if Copies(u) then SetField(t, u.name, FieldOf(s, u.name)) else t;
      assert CopiedNames(unmapped) == CopiedNames(unmapped[1..]) + (if Copies(u) then {u.name} else {});
      CopiedRemaining(unmapped[1..], s, t1)
  }
}
