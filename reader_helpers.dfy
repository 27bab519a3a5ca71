/** The static helpers of DomainObjectReader: how a property value is seen as a collection,
    which type Jackson is asked to decode into, and the container refill after a PUT merge. */
module ReaderHelpers {
  import opened Wrappers
  import opened Values

  /** What asCollection hands back: the collection itself, an Arrays.asList view of an
      array, or Collections.singleton of any other value. */
  datatype CollectionView = Live(c: Value) | ArrayView(a: Value) | SingletonView(x: Value)

  /** asCollection: null stays null, a collection is itself, an array is a fixed-size list
      view, anything else becomes a one-element immutable set. */
  function AsCollection(v: Value): (r: Option<CollectionView>)
    ensures r.None? <==> v.Null?
    ensures r.Some? ==> ViewElems(r.value) == (if v.Coll? || v.Arr? then v.elems else [v])
  {
    match v
    case Null => None
    case Coll(_, _, _, _, _) => Some(Live(v))
    case Arr(_, _, _) => Some(ArrayView(v))
    case _ => Some(SingletonView(v))
  }

  function ViewElems(w: CollectionView): seq<Value> {
    match w
    case Live(c) => if c.Coll? then c.elems else []
    case ArrayView(a) => if a.Arr? then a.elems else []
    case SingletonView(x) => [x]
  }

  /** ifCollection on a non-null value: a collection or (the list view of) an array, else nothing.
      The view of an array is the array itself, whose Add and Remove fail. */
  function IfCollection(v: Value): (r: Option<Value>)
    requires !v.Null?
    ensures r.Some? <==> v.Coll? || v.Arr?
    ensures r.Some? ==> r.value == v
  {
    if v.Coll? || v.Arr? then Some(v) else None
  }

  /** The class and kind CollectionFactory.createApproximateCollection allocates for a view:
      an ArrayList for any list, a LinkedHashSet for any other collection. */
  function ApproximateKind(w: CollectionView): CollKind {
    match w
    case Live(c) => if c.Coll? then c.kind else ListKind
    case ArrayView(_) => ListKind
    case SingletonView(_) => SetKind
  }

  function ClassFor(kind: CollKind): ClassName {
    if kind == ListKind then ARRAY_LIST else LINKED_HASH_SET
  }

  /** targetCollection.clear() followed by addAll(result). An unmodifiable collection or a
      singleton throws; the list view of an array throws as soon as there is anything to
      clear or to add. */
  function ClearAndAddAll(w: CollectionView, result: seq<Value>): (r: Result<Value, Fault>)
    ensures r.Success? <==> match w
                             case Live(c) => c.Coll? && c.mutable
                             case ArrayView(a) => a.Arr? && a.elems == [] && result == []
                             case SingletonView(_) => false
    // the collection itself comes back, holding the result as its kind collects it
    ensures r.Success? && w.Live? ==> r.value.Coll? && r.value.ref == w.c.ref && r.value.elems == InsertedAll(w.c.kind, [], result)
    ensures r.Success? && w.ArrayView? ==> r.value == w.a
  {
    match w
    case Live(c) =>
      if c.Coll? && c.mutable then Success(WithElems(c, InsertedAll(c.kind, [], result)))
      else Failure(UnsupportedOperation)
    case ArrayView(a) =>
      if a.Arr? && a.elems == [] && result == [] then Success(a) else Failure(UnsupportedOperation)
    case SingletonView(_) => Failure(UnsupportedOperation)
  }

  /** typeOrObject */
  function TypeOrObject(t: Option<TypeInfo>): (c: ClassName)
    ensures t.Some? ==> c == t.value.cls
    ensures t.None? ==> c == OBJECT
  {
    if t.None? then OBJECT else t.value.cls
  }

  /** getTypeToMap: the type Jackson decodes into, from the value currently held (its
      runtime class, if any) and the declared type. */
  function TypeToMap(value: Option<RuntimeClass>, declared: Option<TypeInfo>): (r: TypeInfo)
    ensures value.None? ==> r == declared.GetOr(FromClass(OBJECT))
    ensures value.Some? && value.value.enumDeclaring.Some? ==> r == FromClass(value.value.enumDeclaring.value)
    ensures value.Some? && value.value.enumDeclaring.None? ==> r.cls == value.value.cls
    // the declared type, with its type arguments, survives only when nothing more concrete is known
    ensures r != declared.GetOr(FromClass(OBJECT)) ==> value.Some? && r.component.None? && r.mapValue.None?
  {
    var ty := if declared.None? then FromClass(OBJECT) else declared.value;
    if value.None? then ty
    else if value.value.enumDeclaring.Some? then FromClass(value.value.enumDeclaring.value)
    else if value.value.cls == ty.cls then ty
    else FromClass(value.value.cls)
  }
}
