/** The live object graph and the JSON tree that DomainObjectReader works on, as values.

    A Java object, collection, array or map is a value carrying its identity `ref`; an
    in-place update of such an object is modelled as the value with the same `ref` and
    new contents. The graph is a tree: two fields never hold the same object. */
module Values {
  import opened Wrappers

  type ClassName = string
  type PropName = string

  const OBJECT: ClassName := "java.lang.Object"
  /** What CollectionFactory allocates: ArrayList for lists, LinkedHashSet for everything
      else (including the plain Collection interface), LinkedHashMap for maps. */
  const ARRAY_LIST: ClassName := "java.util.ArrayList"
  const LINKED_HASH_SET: ClassName := "java.util.LinkedHashSet"
  const LINKED_HASH_MAP: ClassName := "java.util.LinkedHashMap"
  /** The runtime class of `new ArrayList<Object>(collection).iterator()`. */
  const SNAPSHOT_ITERATOR: ClassName := "java.util.ArrayList$Itr"

  /** Where the code departs from what it is evidently meant to do, the model runs either the
      code as written or the corrected code; every property is proved for both. */
  datatype Reading = AsWritten | Corrected

  /** Object identity: an existing object, or one this merge allocated. */
  datatype Ref = At(addr: nat) | Fresh

  /** The exceptions the core can raise; callers wrap each as "could not read payload". */
  datatype Fault =
    | IllegalArgument        // Assert.notNull, FieldUtils.readField on a missing field
    | UnsupportedOperation   // add/remove/put/clear on a fixed-size or unmodifiable container
    | ClassCast              // a map-typed property that does not hold a Map
    | Unreadable             // a failure inside Jackson

  /** A decoded map key (keys are decoded from JSON field names, so they are scalars). */
  datatype Key = Key(cls: ClassName, text: string)

  /** Lists keep duplicates; sets (LinkedHashSet order) drop an element already present. */
  datatype CollKind = ListKind | SetKind

  datatype Value =
    | Null
    | Scalar(cls: ClassName, text: string)
    | EnumConst(cls: ClassName, declaring: ClassName, name: string)
    | Obj(ref: Ref, cls: ClassName, fields: map<PropName, Value>)
    | Coll(ref: Ref, cls: ClassName, kind: CollKind, elems: seq<Value>, mutable: bool)
    | Arr(ref: Ref, cls: ClassName, elems: seq<Value>)
    | MapV(ref: Ref, cls: ClassName, entries: map<Key, Value>, mutable: bool)

  /** A property read through an accessor: a missing field, or a non-object, reads as null. */
  function FieldOf(v: Value, name: PropName): Value {
    if v.Obj? && name in v.fields then v.fields[name] else Null
  }

  /** A property write (PersistentPropertyAccessor.setProperty) on an object. */
  function SetField(v: Value, name: PropName, x: Value): (r: Value)
    requires v.Obj?
    ensures r.Obj? && r.ref == v.ref && r.cls == v.cls
    ensures FieldOf(r, name) == x
    ensures forall n :: n != name ==> FieldOf(r, n) == FieldOf(v, n)
  {
    Obj(v.ref, v.cls, v.fields[name := x])
  }

  /** What Object.getClass() and Enum.getDeclaringClass() report for a non-null value. */
  datatype RuntimeClass = RuntimeClass(cls: ClassName, enumDeclaring: Option<ClassName>)

  function RuntimeClassOf(v: Value): (r: Option<RuntimeClass>)
    ensures r.None? <==> v.Null?
    ensures r.Some? && r.value.enumDeclaring.Some? <==> v.EnumConst?
  {
    match v
    case Null => None
    case EnumConst(c, d, _) => Some(RuntimeClass(c, Some(d)))
    case Scalar(c, _) => Some(RuntimeClass(c, None))
    case Obj(_, c, _) => Some(RuntimeClass(c, None))
    case Coll(_, c, _, _, _) => Some(RuntimeClass(c, None))
    case Arr(_, c, _) => Some(RuntimeClass(c, None))
    case MapV(_, c, _, _) => Some(RuntimeClass(c, None))
  }

  /** Spring Data's TypeInformation: the raw class, the component type (element type of a
      collection, KEY type of a map) and the map value type. */
  datatype TypeInfo = TypeInfo(cls: ClassName, component: Option<TypeInfo>, mapValue: Option<TypeInfo>)

  /** ClassTypeInformation.from(c): a runtime class carries no type arguments (erasure). */
  function FromClass(c: ClassName): TypeInfo {
    TypeInfo(c, None, None)
  }

  /** Jackson's tree: object nodes keep their fields in document order. */
  datatype Json = JObject(fields: seq<JField>) | JArray(items: seq<Json>) | JValue(text: string)
  datatype JField = JField(name: string, value: Json)

  // ---------------------------------------------------------------------------------
  // java.util container operations used by the merge
  // ---------------------------------------------------------------------------------

  /** Collection.add on a list appends; on a set it appends only an absent element. */
  function Inserted(kind: CollKind, s: seq<Value>, x: Value): (r: seq<Value>)
    ensures kind == ListKind ==> r == s + [x]
    ensures kind == SetKind ==> (x in s ==> r == s) && (x !in s ==> r == s + [x])
  {
    if kind == SetKind && x in s then s else s + [x]
  }

  /** Adding every element of `xs`, in order, to a container that already holds `s`. */
  function InsertedAll(kind: CollKind, s: seq<Value>, xs: seq<Value>): seq<Value>
    decreases |xs|
  {
    if xs == [] then s else InsertedAll(kind, Inserted(kind, s, xs[0]), xs[1..])
  }

  /** A sequence without repeated elements, as a set iterates. */
  ghost predicate NoDuplicates(s: seq<Value>) {
    forall i, j :: 0 <= i < j < |s| ==> s[i] != s[j]
  }

  /** Adding to a list appends everything. */
  lemma {:induction false} InsertedAllList(s: seq<Value>, xs: seq<Value>)
    ensures InsertedAll(ListKind, s, xs) == s + xs
    decreases |xs|
  {
    if xs != [] {
      InsertedAllList(s + [xs[0]], xs[1..]);
      assert (s + [xs[0]]) + xs[1..] == s + xs;
    }
  }

  /** Adding elements a set does not hold yet, and that are distinct, appends them all. */
  lemma {:induction false} InsertedAllSetDistinct(s: seq<Value>, xs: seq<Value>)
    requires NoDuplicates(s + xs)
    ensures InsertedAll(SetKind, s, xs) == s + xs
    decreases |xs|
  {
    if xs != [] {
      assert (s + [xs[0]]) + xs[1..] == s + xs;
      assert xs[0] !in s by {
        forall i | 0 <= i < |s| ensures s[i] != xs[0] {
          assert (s + xs)[i] == s[i] && (s + xs)[|s|] == xs[0];
        }
      }
      InsertedAllSetDistinct(s + [xs[0]], xs[1..]);
    }
  }

  /** A set built by adding `xs` to `s` holds each element of either once. */
  lemma {:induction false} InsertedAllSetContents(s: seq<Value>, xs: seq<Value>)
    requires NoDuplicates(s)
    ensures NoDuplicates(InsertedAll(SetKind, s, xs))
    ensures forall x :: x in InsertedAll(SetKind, s, xs) <==> x in s || x in xs
    decreases |xs|
  {
    if xs != [] {
      var s1 := Inserted(SetKind, s, xs[0]);
      assert NoDuplicates(s1) by {
        if xs[0] !in s {
          forall i, j | 0 <= i < j < |s1| ensures s1[i] != s1[j] {
            if j == |s| {
              assert s1[j] == xs[0] && s1[i] == s[i];
            }
          }
        }
      }
      InsertedAllSetContents(s1, xs[1..]);
      assert xs == [xs[0]] + xs[1..];
    }
  }

  /** Refilling a container of the same kind with what it produced changes nothing. */
  lemma InsertedAllIdempotent(kind: CollKind, xs: seq<Value>)
    ensures InsertedAll(kind, [], InsertedAll(kind, [], xs)) == InsertedAll(kind, [], xs)
  {
    if kind == ListKind {
      InsertedAllList([], xs);
      InsertedAllList([], InsertedAll(kind, [], xs));
    } else {
      InsertedAllSetContents([], xs);
      assert [] + InsertedAll(kind, [], xs) == InsertedAll(kind, [], xs);
      InsertedAllSetDistinct([], InsertedAll(kind, [], xs));
    }
  }

  /** List.remove(Object): drops the FIRST element equal to `x`, if any. */
  function RemoveFirst(s: seq<Value>, x: Value): (r: seq<Value>)
  {
    if s == [] then []
    else if s[0] == x then s[1..]
    else [s[0]] + RemoveFirst(s[1..], x)
  }

  lemma {:induction false} RemoveFirstCounts(s: seq<Value>, x: Value)
    ensures x in s ==> |RemoveFirst(s, x)| == |s| - 1 && multiset(RemoveFirst(s, x)) == multiset(s) - multiset{x}
    ensures x !in s ==> RemoveFirst(s, x) == s
  {
    if s == [] {
      return;
    }
    assert s == [s[0]] + s[1..];
    assert multiset(s) == multiset{s[0]} + multiset(s[1..]);
    if s[0] != x {
      RemoveFirstCounts(s[1..], x);
      assert x in s <==> x in s[1..];
      assert multiset(RemoveFirst(s, x)) == multiset{s[0]} + multiset(RemoveFirst(s[1..], x));
    }
  }

  /** The same container (same identity, class and flags) holding `s`. */
  function WithElems(c: Value, s: seq<Value>): (r: Value)
    requires c.Coll? || c.Arr?
    ensures r.Coll? == c.Coll? && r.Arr? == c.Arr? && r.ref == c.ref && r.cls == c.cls && r.elems == s
    ensures c.Coll? ==> r.kind == c.kind && r.mutable == c.mutable
  {
    match c
    case Coll(ref, cls, kind, _, mutable) => Coll(ref, cls, kind, s, mutable)
    case Arr(ref, cls, _) => Arr(ref, cls, s)
  }

  /** The same map holding `m`. */
  function WithEntries(v: Value, m: map<Key, Value>): (r: Value)
    requires v.MapV?
    ensures r.MapV? && r.ref == v.ref && r.cls == v.cls && r.mutable == v.mutable && r.entries == m
  {
    MapV(v.ref, v.cls, m, v.mutable)
  }

  /** Collection.add on a live container (the Java view a collection or array presents). */
  function Add(c: Value, x: Value): (r: Result<Value, Fault>)
    requires c.Coll? || c.Arr?
    ensures r.Success? <==> c.Coll? && c.mutable
    ensures r.Success? ==> r.value == WithElems(c, Inserted(c.kind, c.elems, x))
  {
    if c.Arr? || !c.mutable then Failure(UnsupportedOperation)
    else Success(WithElems(c, Inserted(c.kind, c.elems, x)))
  }

  /** Collection.remove(Object). An Arrays.asList view fails only once it finds the element. */
  function Remove(c: Value, x: Value): (r: Result<Value, Fault>)
    requires c.Coll? || c.Arr?
    ensures r.Success? <==> (c.Coll? && c.mutable) || (c.Arr? && x !in c.elems)
    ensures r.Success? ==> r.value == WithElems(c, RemoveFirst(c.elems, x))
  {
    RemoveFirstCounts(c.elems, x);
    if c.Arr? then (if x in c.elems then Failure(UnsupportedOperation) else Success(c))
    else if !c.mutable then Failure(UnsupportedOperation)
    else Success(WithElems(c, RemoveFirst(c.elems, x)))
  }

  /** Map.put on a live map. */
  function Put(m: Value, k: Key, v: Value): (r: Result<Value, Fault>)
    requires m.MapV?
    ensures r.Success? <==> m.mutable
    ensures r.Success? ==> r.value == WithEntries(m, m.entries[k := v])
  {
    if m.mutable then Success(WithEntries(m, m.entries[k := v])) else Failure(UnsupportedOperation)
  }
}
