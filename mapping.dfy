/** The metadata the merge consults: persistent entities and their properties (Spring Data's
    mapping model), the Jackson view of them (MappedProperties), the reflective id-field
    lookup, and the Jackson operations the merge delegates to. */
module Mapping {
  import opened Wrappers
  import opened Values
  import JsonQuote

  /** A @OneToMany or @ManyToMany annotation; `mappedBy` defaults to the empty string. */
  datatype AssociationAnnotation = AssociationAnnotation(mappedBy: string)

  datatype Property = Property(
    name: PropName,                 // the field on the object
    jsonName: Option<string>,       // the Jackson property it backs; None when Jackson does not map it
    isId: bool,
    isVersion: bool,
    writable: bool,
    isMap: bool,
    isCollectionLike: bool,
    isEntity: bool,
    isAssociation: bool,            // visited by doWithAssociations rather than doWithProperties
    linkable: bool,                 // Associations.isLinkableAssociation: exposed as a link, not inlined
    oneToMany: Option<AssociationAnnotation>,
    manyToMany: Option<AssociationAnnotation>,
    typeInfo: TypeInfo)

  /** A Jackson property with no persistent property behind it (a transient field), together
      with what the direct-field and bean accessors report for it. */
  datatype UnmappedProperty = UnmappedProperty(name: PropName, fieldWritable: bool,
                                               setterWritable: bool, getterReadable: bool)

  datatype EntityInfo = EntityInfo(props: seq<Property>, unmapped: seq<UnmappedProperty>)

  /** `entities` is PersistentEntities; `idFields` is what findIdField finds by reflection:
      the first field annotated with javax.persistence.Id, per class; `supertypes` holds the
      proper superclasses and interfaces of each class. */
  datatype Schema = Schema(entities: map<ClassName, EntityInfo>, idFields: map<ClassName, PropName>,
                           supertypes: map<ClassName, set<ClassName>>)

  /** Class.isInstance as entity.getPropertyAccessor(source) applies it: only an object of the
      entity's class or of one of its subclasses is an instance of an entity type. */
  function IsInstance(s: Schema, v: Value, c: ClassName): (r: bool)
    ensures r ==> v.Obj?
    ensures v.Obj? && v.cls == c ==> r
  {
    v.Obj? && (v.cls == c || (v.cls in s.supertypes && c in s.supertypes[v.cls]))
  }

  /** The Jackson calls, left uninterpreted: treeToValue(node, type); readValue(literal, keyType),
      which decodes a map key from the JSON text of a string literal (JsonQuote models how such a
      literal reads back); and readerForUpdating(target).readValue(node), whose result is the
      state the target object is left in. */
  datatype Jackson = Jackson(
    treeToValue: (Json, ClassName) -> Result<Value, Fault>,
    readKey: (string, ClassName) -> Result<Key, Fault>,
    updating: (Value, Json) -> Result<Value, Fault>)

  /** `reading` says whether the merge runs isBidirectionalAssociation and quote as written or
      as corrected. */
  datatype Env = Env(schema: Schema, jackson: Jackson, reading: Reading)

  const STRING: ClassName := "java.lang.String"

  /** Jackson reads a String key as the JSON string literal it is handed stands for, and refuses
      a literal that is not one. */
  ghost predicate ReadsStringKeys(j: Jackson) {
    forall literal: string :: j.readKey(literal, STRING)
                      == if JsonQuote.DecodeLiteral(literal).Some? then Success(Key(STRING, JsonQuote.DecodeLiteral(literal).value))
                         else Failure(Unreadable)
  }

  /** readerForUpdating(target).readValue(node) updates the target itself: a successful read
      into an object hands back that same object. */
  ghost predicate UpdatesInPlace(j: Jackson) {
    forall v: Value, node: Json :: v.Obj? && j.updating(v, node).Success? ==>
      && j.updating(v, node).value.Obj?
      && j.updating(v, node).value.ref == v.ref
      && j.updating(v, node).value.cls == v.cls
  }

  /** entities.getPersistentEntity(value.getClass()) */
  function EntityOf(s: Schema, v: Value): (r: Option<EntityInfo>)
    ensures r.Some? <==> v.Obj? && v.cls in s.entities
    ensures r.Some? ==> r.value == s.entities[v.cls]
  {
    if v.Obj? && v.cls in s.entities then Some(s.entities[v.cls]) else None
  }

  /** MappedProperties.isMappedProperty */
  predicate IsMapped(p: Property) {
    p.jsonName.Some?
  }

  /** MappedProperties.getPersistentProperty(fieldName), None when
      hasPersistentPropertyForField(fieldName) is false. */
  function PropertyForField(props: seq<Property>, fieldName: string): (r: Option<Property>)
    ensures r.Some? ==> r.value in props && r.value.jsonName == Some(fieldName)
    ensures r.None? ==> forall p :: p in props ==> p.jsonName != Some(fieldName)
  {
    if props == [] then None
    else if props[0].jsonName == Some(fieldName) then Some(props[0])
    else PropertyForField(props[1..], fieldName)
  }

  /** doWithProperties visits the plain properties, doWithAssociations the associations. */
  function PlainProperties(props: seq<Property>): (r: seq<Property>)
    ensures forall p :: p in r <==> p in props && !p.isAssociation
  {
    if props == [] then []
    else (if props[0].isAssociation then [] else [props[0]]) + PlainProperties(props[1..])
  }

  function AssociationProperties(props: seq<Property>): (r: seq<Property>)
    ensures forall p :: p in r <==> p in props && p.isAssociation
  {
    if props == [] then []
    else (if props[0].isAssociation then [props[0]] else []) + AssociationProperties(props[1..])
  }

  /** The order in which mergeForPut's handler sees the properties of an entity. */
  function PutOrder(e: EntityInfo): (r: seq<Property>)
    ensures forall p :: p in r <==> p in e.props
  {
    PlainProperties(e.props) + AssociationProperties(e.props)
  }

  /** Every property name occurs once, every Jackson name backs at most one property, and no
      unmapped Jackson property shares a name with a persistent one. */
  ghost predicate WellFormed(e: EntityInfo) {
    && (forall i, j :: 0 <= i < j < |e.props| ==> e.props[i].name != e.props[j].name)
    && (forall i, j :: 0 <= i < j < |e.props| && e.props[i].jsonName.Some? ==> e.props[i].jsonName != e.props[j].jsonName)
    && (forall i, j :: 0 <= i < j < |e.unmapped| ==> e.unmapped[i].name != e.unmapped[j].name)
    && (forall i, j :: 0 <= i < |e.unmapped| && 0 <= j < |e.props| ==> e.unmapped[i].name != e.props[j].name)
  }

  ghost predicate WellFormedSchema(s: Schema) {
    forall c :: c in s.entities ==> WellFormed(s.entities[c])
  }

  // ---------------------------------------------------------------------------------
  // isBidirectionalAssociation
  // ---------------------------------------------------------------------------------

  /** isBidirectionalAssociation as written: `mappedBy() != null` holds for every
      annotation, since an annotation member is never null, so any @OneToMany or
      @ManyToMany counts as bidirectional. */
  function IsBidirectionalAssociationAsWritten(p: Property): (r: bool)
    ensures r <==> p.oneToMany.Some? || p.manyToMany.Some?
  {
    if p.oneToMany.Some? then true else p.manyToMany.Some?
  }

  /** The mappedBy of the annotation the check consults: @OneToMany first, else @ManyToMany. */
  function ConsultedMappedBy(p: Property): Option<string> {
    if p.oneToMany.Some? then Some(p.oneToMany.value.mappedBy)
    else if p.manyToMany.Some? then Some(p.manyToMany.value.mappedBy)
    else None
  }

  /** isBidirectionalAssociation as its documentation states it: "mappedBy is set", i.e. the
      property is the inverse side of a @OneToMany or @ManyToMany. */
  function IsBidirectionalAssociation(p: Property): (r: bool)
    ensures r <==> ConsultedMappedBy(p).Some? && ConsultedMappedBy(p).value != ""
    ensures r ==> IsBidirectionalAssociationAsWritten(p)
  {
    if p.oneToMany.Some? then p.oneToMany.value.mappedBy != ""
    else p.manyToMany.Some? && p.manyToMany.value.mappedBy != ""
  }

  /** The flag mergeMaps and mergeCollections compute for a property (lines 467 and 510). */
  function AssociationBidirectional(reading: Reading, p: Property): (r: bool)
    ensures reading == AsWritten ==> (r <==> p.oneToMany.Some? || p.manyToMany.Some?)
    ensures reading == Corrected ==> (r <==> ConsultedMappedBy(p).Some? && ConsultedMappedBy(p).value != "")
  {
    if reading == AsWritten then IsBidirectionalAssociationAsWritten(p) else IsBidirectionalAssociation(p)
  }

  /** A unidirectional @OneToMany (no mappedBy) is reported bidirectional by the code as written. */
  lemma UnidirectionalReportedBidirectional(p: Property)
    requires p.oneToMany == Some(AssociationAnnotation(""))
    ensures IsBidirectionalAssociationAsWritten(p)
    ensures !IsBidirectionalAssociation(p)
  {
    assert ConsultedMappedBy(p) == Some("");
  }
}
