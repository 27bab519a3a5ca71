/** What a PUT merge promises about the object it returns, field by field, and about the
    collections it rebuilds. */
module PutProperties {
  import opened Wrappers
  import opened Values
  import opened Mapping
  import opened ReaderHelpers
  import opened PutSpec

  /** No two entries of `props` name the same field. */
  ghost predicate DistinctNames(props: seq<Property>) {
    forall i, j :: 0 <= i < j < |props| ==> props[i].name != props[j].name
  }

  /** In a sequence with distinct names, visiting every property leaves at `p.name` what the
      per-kind merge makes of the two values found there at the start. */
  lemma {:induction false} PropertyWritten(env: Env, s: Value, t: Value, props: seq<Property>, bidi: bool, p: Property)
    requires s.Obj? && t.Obj? && DistinctNames(props) && p in props && Writes(p)
    ensures MergedProps(env, s, t, props, bidi).Success? ==>
              && MergedValue(env, p, FieldOf(s, p.name), FieldOf(t, p.name), bidi).Success?
              && FieldOf(MergedProps(env, s, t, props, bidi).value, p.name)
                 == MergedValue(env, p, FieldOf(s, p.name), FieldOf(t, p.name), bidi).value
    decreases |props|
  {
    var r1 := MergedProperty(env, s, t, props[0], bidi);
    if r1.Success? {
      var rest := props[1..];
      assert forall k :: 0 <= k < |rest| ==> rest[k] == props[k + 1];
      if props[0] == p {
        assert p.name !in WrittenNames(rest) by {
          forall q | q in rest ensures q.name != p.name {
            var j :| 0 <= j < |rest| && rest[j] == q;
            assert props[j + 1] == q;
          }
        }
      } else {
        var j :| 0 <= j < |props| && props[j] == p;
        assert j > 0;
        assert props[0].name != p.name;
        assert p in rest by { assert rest[j - 1] == p; }
        PropertyWritten(env, s, r1.value, rest, bidi, p);
      }
    }
  }

  lemma DistinctTail(props: seq<Property>)
    requires DistinctNames(props) && props != []
    ensures DistinctNames(props[1..]) && forall q :: q in props[1..] ==> q.name != props[0].name
  {
    var rest := props[1..];
    assert forall k :: 0 <= k < |rest| ==> rest[k] == props[k + 1];
    forall q | q in rest ensures q.name != props[0].name {
      var j :| 0 <= j < |rest| && rest[j] == q;
      assert props[j + 1] == q;
    }
  }

  lemma {:induction false} PlainPropertiesDistinct(props: seq<Property>)
    requires DistinctNames(props)
    ensures DistinctNames(PlainProperties(props)) && DistinctNames(AssociationProperties(props))
    decreases |props|
  {
    if props != [] {
      var rest := props[1..];
      DistinctTail(props);
      PlainPropertiesDistinct(rest);
      var head := [props[0]];
      DistinctConcat(if props[0].isAssociation then [] else head, PlainProperties(rest));
      DistinctConcat(if props[0].isAssociation then head else [], AssociationProperties(rest));
    }
  }

  lemma DistinctConcat(a: seq<Property>, b: seq<Property>)
    requires DistinctNames(a) && DistinctNames(b)
    requires forall i, j :: 0 <= i < |a| && 0 <= j < |b| ==> a[i].name != b[j].name
    ensures DistinctNames(a + b)
  {
    var ab := a + b;
    forall i, j | 0 <= i < j < |ab| ensures ab[i].name != ab[j].name {
      if j < |a| {
        assert ab[i] == a[i] && ab[j] == a[j];
      } else if i >= |a| {
        assert ab[i] == b[i - |a|] && ab[j] == b[j - |a|];
      } else {
        assert ab[i] == a[i] && ab[j] == b[j - |a|];
      }
    }
  }

  /** The order the handler visits an entity's properties in repeats no name. */
  lemma PutOrderDistinct(e: EntityInfo)
    requires WellFormed(e)
    ensures DistinctNames(PutOrder(e))
  {
    PlainPropertiesDistinct(e.props);
    var pr, ar := PlainProperties(e.props), AssociationProperties(e.props);
    forall i, j | 0 <= i < |pr| && 0 <= j < |ar| ensures pr[i].name != ar[j].name {
      assert pr[i] in e.props && ar[j] in e.props;
      var a :| 0 <= a < |e.props| && e.props[a] == pr[i];
      var b :| 0 <= b < |e.props| && e.props[b] == ar[j];
      assert a != b;
    }
    DistinctConcat(pr, ar);
  }

  /** mergeForPut of two instances of a well-formed entity: every written property holds what the
      per-kind merge of the two values gives; a plain property the source's value verbatim; a
      reference to another identified entity the source's reference unchanged. */
  lemma PutWritesProperty(env: Env, source: Value, target: Value, bidi: bool, p: Property)
    requires target.Obj? && target.cls in env.schema.entities && !source.Null?
    requires WellFormed(env.schema.entities[target.cls]) && p in env.schema.entities[target.cls].props
    requires Writes(p)
    ensures MergedForPut(env, source, target, bidi).Success? ==>
              && MergedValue(env, p, FieldOf(source, p.name), FieldOf(target, p.name), bidi).Success?
              && FieldOf(MergedForPut(env, source, target, bidi).value, p.name)
                 == MergedValue(env, p, FieldOf(source, p.name), FieldOf(target, p.name), bidi).value
    ensures MergedForPut(env, source, target, bidi).Success? && !p.isMap && !p.isCollectionLike && !p.isEntity ==>
              FieldOf(MergedForPut(env, source, target, bidi).value, p.name) == FieldOf(source, p.name)
    ensures MergedForPut(env, source, target, bidi).Success? && !p.isMap && !p.isCollectionLike && p.isEntity
              && !bidi && IdsDiffer(env.schema, FieldOf(source, p.name), FieldOf(target, p.name)) ==>
              FieldOf(MergedForPut(env, source, target, bidi).value, p.name) == FieldOf(source, p.name)
  {
    var e := env.schema.entities[target.cls];
    if MergedForPut(env, source, target, bidi).Success? && IsInstance(env.schema, source, target.cls) {
      MergedForPutOfProps(env, source, target, bidi);
      PutOrderDistinct(e);
      var t1 := MergedProps(env, source, target, PutOrder(e), bidi);
      PropertyWritten(env, source, target, PutOrder(e), bidi, p);
      assert p.name !in CopiedNames(e.unmapped) by {
        forall u | u in e.unmapped ensures u.name != p.name {
          var a :| 0 <= a < |e.unmapped| && e.unmapped[a] == u;
          var b :| 0 <= b < |e.props| && e.props[b] == p;
        }
      }
    }
  }

  /** mergeForPut leaves untouched every field that no written property and no copied unmapped
      property names: ids, versions, read-only and unmapped persistent properties among them. */
  lemma PutLeavesUnwritten(env: Env, source: Value, target: Value, bidi: bool, n: PropName)
    requires target.Obj? && target.cls in env.schema.entities && !source.Null?
    requires n !in WrittenNames(env.schema.entities[target.cls].props)
    requires n !in CopiedNames(env.schema.entities[target.cls].unmapped)
    ensures MergedForPut(env, source, target, bidi).Success? ==>
              FieldOf(MergedForPut(env, source, target, bidi).value, n) == FieldOf(target, n)
  {
    var e := env.schema.entities[target.cls];
    assert WrittenNames(PutOrder(e)) == WrittenNames(e.props);
  }

  /** mergeForPut copies every copyable unmapped property from the source. */
  lemma PutCopiesUnmapped(env: Env, source: Value, target: Value, bidi: bool, u: UnmappedProperty)
    requires target.Obj? && target.cls in env.schema.entities && !source.Null?
    requires u in env.schema.entities[target.cls].unmapped && Copies(u)
    ensures MergedForPut(env, source, target, bidi).Success? ==>
              FieldOf(MergedForPut(env, source, target, bidi).value, u.name) == FieldOf(source, u.name)
  {
  }

  /** Merged into a list (the target is a list or an array): the result has the source's length and
      element i is source element i merged with target element i, or with null past the target's
      end; target elements past the source's length are gone. */
  lemma ListMergeIsPositional(env: Env, sv: Value, tv: Value, bidi: bool)
    requires sv.Coll? || sv.Arr?
    requires ResultKind(tv) == ListKind
    ensures MergedCollection(env, sv, tv, bidi).Success? ==>
              && |MergedCollection(env, sv, tv, bidi).value.elems| == |sv.elems|
              && forall i :: 0 <= i < |sv.elems| ==>
                   MergedForPut(env, sv.elems[i], ElemAt(TargetElems(tv), i), bidi)
                   == Success(MergedCollection(env, sv, tv, bidi).value.elems[i])
  {
    var r := MergedCollection(env, sv, tv, bidi);
    if r.Success? {
      var m := MergedElements(env, sv, 0, TargetElems(tv), bidi);
      assert m == MergedSources(env, sv, tv, bidi);
      InsertedAllList([], m.value);
      assert r.value.elems == m.value;
      forall i | 0 <= i < |sv.elems|
        ensures MergedForPut(env, sv.elems[i], ElemAt(TargetElems(tv), i), bidi) == Success(r.value.elems[i])
      {
        assert MergedForPut(env, sv.elems[0 + i], ElemAt(TargetElems(tv), 0 + i), bidi) == Success(m.value[i]);
      }
    }
  }

  /** The merged sources pair up with the source's elements by position. */
  lemma MergedSourcesPositional(env: Env, sv: Value, tv: Value, bidi: bool)
    requires sv.Coll? || sv.Arr?
    ensures var m := MergedSources(env, sv, tv, bidi);
            m.Success? ==>
              && |m.value| == |sv.elems|
              && forall i :: 0 <= i < |sv.elems| ==> MergedForPut(env, sv.elems[i], ElemAt(TargetElems(tv), i), bidi) == Success(m.value[i])
  {
    var m := MergedElements(env, sv, 0, TargetElems(tv), bidi);
    assert m == MergedSources(env, sv, tv, bidi);
    if m.Success? {
      forall i | 0 <= i < |sv.elems|
        ensures MergedForPut(env, sv.elems[i], ElemAt(TargetElems(tv), i), bidi) == Success(m.value[i])
      {
        assert MergedForPut(env, sv.elems[0 + i], ElemAt(TargetElems(tv), 0 + i), bidi) == Success(m.value[i]);
      }
    }
  }

  /** Merged into a set (no target, a set target, or a single value): each merged element occurs
      once, and the result holds exactly the merged elements. */
  lemma SetMergeIsDeduplicated(env: Env, sv: Value, tv: Value, bidi: bool)
    requires sv.Coll? || sv.Arr?
    requires ResultKind(tv) == SetKind
    ensures MergedCollection(env, sv, tv, bidi).Success? ==>
              && NoDuplicates(MergedCollection(env, sv, tv, bidi).value.elems)
              && (forall i :: 0 <= i < |sv.elems| ==>
                    MergedForPut(env, sv.elems[i], ElemAt(TargetElems(tv), i), bidi).value
                    in MergedCollection(env, sv, tv, bidi).value.elems)
              && (forall x :: x in MergedCollection(env, sv, tv, bidi).value.elems ==>
                    exists i :: 0 <= i < |sv.elems| && MergedForPut(env, sv.elems[i], ElemAt(TargetElems(tv), i), bidi) == Success(x))
  {
    var m := MergedSources(env, sv, tv, bidi);
    if m.Success? {
      MergedSourcesPositional(env, sv, tv, bidi);
      InsertedAllSetContents([], m.value);
      var r := MergedCollection(env, sv, tv, bidi).value;
      assert r.elems == InsertedAll(SetKind, [], m.value);
      forall x | x in r.elems
        ensures exists i :: 0 <= i < |sv.elems| && MergedForPut(env, sv.elems[i], ElemAt(TargetElems(tv), i), bidi) == Success(x)
      {
        var i :| 0 <= i < |m.value| && m.value[i] == x;
        assert MergedForPut(env, sv.elems[i], ElemAt(TargetElems(tv), i), bidi) == Success(x);
      }
      forall i | 0 <= i < |sv.elems|
        ensures MergedForPut(env, sv.elems[i], ElemAt(TargetElems(tv), i), bidi).value in r.elems
      {
        assert m.value[i] in m.value;
      }
    }
  }
}
