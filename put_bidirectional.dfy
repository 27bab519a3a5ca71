/** What isBidirectionalAssociation's readings do to a PUT: an Order holds a unidirectional
    @OneToMany list of Lines (no mappedBy), and each Line refers to a Product by a plain
    reference. The PUT replaces the product of the order's one line, id 1, by product id 2.

    As written, the list counts as bidirectional, so each line is merged with the flag on and
    its product merged without associations into the product already held: product 1 keeps
    its identity and id and takes product 2's name. As corrected, the flag is off, the ids
    differ, and the line refers to product 2. */
module PutBidirectional {
  import opened Wrappers
  import opened Values
  import opened Mapping
  import opened ReaderHelpers
  import opened PutSpec

  const LONG: ClassName := "java.lang.Long"

  /** Order.lines: @OneToMany List<Line> without mappedBy, inlined (the Line repository is not
      exported). */
  const LINES: Property :=
    Property("lines", Some("lines"), false, false, true, false, true, false, true, false,
             Some(AssociationAnnotation("")), None, TypeInfo("java.util.List", Some(FromClass("Line")), None))

  /** Line.product: a reference to a Product entity. */
  const PRODUCT: Property :=
    Property("product", Some("product"), false, false, true, false, false, true, true, false,
             None, None, FromClass("Product"))

  const PRODUCT_ID: Property :=
    Property("id", Some("id"), true, false, true, false, false, false, false, false, None, None, FromClass(LONG))

  const PRODUCT_NAME: Property :=
    Property("name", Some("name"), false, false, true, false, false, false, false, false, None, None, FromClass(STRING))

  function OrderSchema(): Schema {
    Schema(map["Order" := EntityInfo([LINES], []),
               "Line" := EntityInfo([PRODUCT], []),
               "Product" := EntityInfo([PRODUCT_ID, PRODUCT_NAME], [])],
           map["Product" := "id"], map[])
  }

  function ProductAt(addr: nat, id: string, name: string): Value {
    Obj(At(addr), "Product", map["id" := Scalar(LONG, id), "name" := Scalar(STRING, name)])
  }

  function LineAt(addr: nat, product: Value): Value {
    Obj(At(addr), "Line", map["product" := product])
  }

  function LinesAt(addr: nat, line: Value): Value {
    Coll(At(addr), ARRAY_LIST, ListKind, [line], true)
  }

  function OrderAt(addr: nat, lines: Value): Value {
    Obj(At(addr), "Order", map["lines" := lines])
  }

  /** The order as stored: its line refers to product 1. */
  function StoredOrder(): Value {
    OrderAt(1, LinesAt(2, LineAt(3, ProductAt(4, "1", "old"))))
  }

  /** The order as PUT: its line refers to product 2. */
  function PutOrderValue(): Value {
    OrderAt(5, LinesAt(6, LineAt(7, ProductAt(8, "2", "new"))))
  }

  /** The product the stored line ends up referring to, under each reading. */
  function ProductAfter(reading: Reading): Value {
    if reading == AsWritten then ProductAt(4, "1", "new") else ProductAt(8, "2", "new")
  }

  lemma PropertyOrders()
    ensures PlainProperties([PRODUCT_ID, PRODUCT_NAME]) == [PRODUCT_ID, PRODUCT_NAME]
    ensures PutOrder(EntityInfo([PRODUCT], [])) == [PRODUCT]
    ensures PutOrder(EntityInfo([LINES], [])) == [LINES]
  {
    assert [PRODUCT_ID, PRODUCT_NAME][1..] == [PRODUCT_NAME];
    assert [PRODUCT_NAME][1..] == [] && [PRODUCT][1..] == [] && [LINES][1..] == [];
    assert PlainProperties([PRODUCT_NAME]) == [PRODUCT_NAME] + PlainProperties([]);
    assert PlainProperties([PRODUCT]) == [] && AssociationProperties([PRODUCT]) == [PRODUCT] + AssociationProperties([]);
    assert PlainProperties([LINES]) == [] && AssociationProperties([LINES]) == [LINES] + AssociationProperties([]);
  }

  // Steps of the spec, for any values

  /** A written property takes the merge of its two values. */
  lemma WrittenWith(env: Env, s: Value, t: Value, p: Property, bidi: bool, x: Value)
    requires s.Obj? && t.Obj? && Writes(p)
    requires MergedValue(env, p, FieldOf(s, p.name), FieldOf(t, p.name), bidi) == Success(x)
    ensures MergedProperty(env, s, t, p, bidi) == Success(SetField(t, p.name, x))
  {
  }

  lemma OnlyProperty(env: Env, s: Value, t: Value, p: Property, bidi: bool, t1: Value)
    requires s.Obj? && t.Obj? && MergedProperty(env, s, t, p, bidi) == Success(t1)
    ensures MergedProps(env, s, t, [p], bidi) == Success(t1)
  {
    MergedPropsStep(env, s, t, [p], bidi, t1);
    assert [p][1..] == [];
  }

  /** mergeForPut on an entity whose one property is an association. */
  lemma MergedForPutOfOne(env: Env, s: Value, t: Value, p: Property, bidi: bool, t1: Value)
    requires t.Obj? && EntityOf(env.schema, t) == Some(EntityInfo([p], [])) && p.isAssociation
    requires IsInstance(env.schema, s, t.cls)
    requires MergedProperty(env, s, t, p, bidi) == Success(t1)
    ensures MergedForPut(env, s, t, bidi) == Success(t1)
  {
    OnlyProperty(env, s, t, p, bidi, t1);
    assert [p][1..] == [];
    assert PlainProperties([p]) == [] && AssociationProperties([p]) == [p] + AssociationProperties([]);
    MergedForPutOfProps(env, s, t, bidi);
  }

  /** The positional merge of a one-element collection. */
  lemma MergedOneElement(env: Env, owner: Value, tgts: seq<Value>, bidi: bool, m: Value)
    requires (owner.Coll? || owner.Arr?) && |owner.elems| == 1
    requires MergedForPut(env, owner.elems[0], ElemAt(tgts, 0), bidi) == Success(m)
    ensures MergedElements(env, owner, 0, tgts, bidi) == Success([m])
  {
    assert MergedElements(env, owner, 1, tgts, bidi) == Success([]);
    assert [m] + [] == [m];
  }

  /** A modifiable target list is refilled with the one merged element. */
  lemma RefilledWithOne(env: Env, sv: Value, tv: Value, bidi: bool, m: Value)
    requires sv.Coll? && tv.Coll? && tv.kind == ListKind && tv.mutable
    requires MergedElements(env, sv, 0, TargetElems(tv), bidi) == Success([m])
    ensures MergedCollection(env, sv, tv, bidi) == Success(WithElems(tv, [m]))
  {
    assert MergedSources(env, sv, tv, bidi) == Success([m]);
    assert ResultKind(tv) == ListKind;
    assert InsertedAll(ListKind, [], [m]) == [m];
  }

  // The schema

  lemma Entities(env: Env, v: Value)
    requires env.schema == OrderSchema() && v.Obj?
    ensures v.cls == "Order" ==> EntityOf(env.schema, v) == Some(EntityInfo([LINES], []))
    ensures v.cls == "Line" ==> EntityOf(env.schema, v) == Some(EntityInfo([PRODUCT], []))
    ensures v.cls == "Product" ==> EntityOf(env.schema, v) == Some(EntityInfo([PRODUCT_ID, PRODUCT_NAME], []))
    ensures v.cls == "Product" ==> ClassOf(v) in env.schema.idFields && env.schema.idFields[ClassOf(v)] == "id"
  {
  }

  // The example, one level at a time

  /** The reference a line ends up holding: with the flag on, the product it held, with the
      new product's name; with the flag off, the new product. */
  function ReferenceAfter(bidi: bool, sp: Value, tp: Value): Value
    requires tp.Obj?
  {
    if bidi then SetField(tp, "name", FieldOf(sp, "name")) else sp
  }

  /** A product merged into another without associations takes the other's name, and keeps
      its identity and id. */
  lemma ProductMergedWithoutAssociations(env: Env, s: Value, t: Value)
    requires env.schema == OrderSchema() && s.Obj? && t.Obj? && s.cls == "Product" && t.cls == "Product"
    ensures MergedForPutNoAssociations(env, s, t) == Success(SetField(t, "name", FieldOf(s, "name")))
  {
    Entities(env, t);
    PropertyOrders();
    var t1 := SetField(t, "name", FieldOf(s, "name"));
    assert MergedProperty(env, s, t, PRODUCT_ID, false) == Success(t);
    WrittenWith(env, s, t, PRODUCT_NAME, false, FieldOf(s, "name"));
    MergedPropsStep(env, s, t, [PRODUCT_ID, PRODUCT_NAME], false, t);
    assert [PRODUCT_ID, PRODUCT_NAME][1..] == [PRODUCT_NAME];
    OnlyProperty(env, s, t, PRODUCT_NAME, false, t1);
  }

  /** Two distinct products: with the flag on, the held one keeps its identity and id and takes
      the new name; with it off, the new one replaces it. */
  lemma ProductMerged(env: Env, s: Value, t: Value, bidi: bool)
    requires env.schema == OrderSchema() && s.Obj? && t.Obj? && s.cls == "Product" && t.cls == "Product"
    requires IdsDiffer(env.schema, s, t)
    ensures MergedReference(env, s, t, bidi) == Success(ReferenceAfter(bidi, s, t))
  {
    if bidi {
      ProductMergedWithoutAssociations(env, s, t);
    }
  }

  /** A line whose product changes identity. */
  predicate LineOfProduct(line: Value)
  {
    line.Obj? && line.cls == "Line" && FieldOf(line, "product").Obj? && FieldOf(line, "product").cls == "Product"
  }

  lemma LineMerged(env: Env, s: Value, t: Value, bidi: bool)
    requires env.schema == OrderSchema() && LineOfProduct(s) && LineOfProduct(t)
    requires IdsDiffer(env.schema, FieldOf(s, "product"), FieldOf(t, "product"))
    ensures MergedForPut(env, s, t, bidi)
            == Success(SetField(t, "product", ReferenceAfter(bidi, FieldOf(s, "product"), FieldOf(t, "product"))))
  {
    var x := ReferenceAfter(bidi, FieldOf(s, "product"), FieldOf(t, "product"));
    Entities(env, t);
    ProductMerged(env, FieldOf(s, "product"), FieldOf(t, "product"), bidi);
    WrittenWith(env, s, t, PRODUCT, bidi, x);
    MergedForPutOfOne(env, s, t, PRODUCT, bidi, SetField(t, "product", x));
  }

  /** The line a one-line list merge leaves behind. */
  function LineAfter(bidi: bool, sv: Value, tv: Value): Value
    requires sv.Coll? && tv.Coll? && |sv.elems| == 1 && |tv.elems| == 1 && LineOfProduct(tv.elems[0])
  {
    SetField(tv.elems[0], "product", ReferenceAfter(bidi, FieldOf(sv.elems[0], "product"), FieldOf(tv.elems[0], "product")))
  }

  lemma LinesMerged(env: Env, sv: Value, tv: Value, bidi: bool)
    requires env.schema == OrderSchema() && sv.Coll? && tv.Coll? && tv.kind == ListKind && tv.mutable
    requires |sv.elems| == 1 && |tv.elems| == 1
    requires LineOfProduct(sv.elems[0]) && LineOfProduct(tv.elems[0])
    requires IdsDiffer(env.schema, FieldOf(sv.elems[0], "product"), FieldOf(tv.elems[0], "product"))
    ensures MergedCollection(env, sv, tv, bidi) == Success(WithElems(tv, [LineAfter(bidi, sv, tv)]))
  {
    var m := LineAfter(bidi, sv, tv);
    var tgts := TargetElems(tv);
    assert tgts == tv.elems;
    LineMerged(env, sv.elems[0], ElemAt(tgts, 0), bidi);
    MergedOneElement(env, sv, tgts, bidi, m);
    RefilledWithOne(env, sv, tv, bidi, m);
  }

  /** The order a PUT leaves behind, with the flag the lines property computes. */
  function OrderAfter(reading: Reading, s: Value, t: Value): Value
    requires s.Obj? && t.Obj? && FieldOf(s, "lines").Coll? && FieldOf(t, "lines").Coll?
    requires |FieldOf(s, "lines").elems| == 1 && |FieldOf(t, "lines").elems| == 1 && LineOfProduct(FieldOf(t, "lines").elems[0])
  {
    var tv := FieldOf(t, "lines");
    SetField(t, "lines", WithElems(tv, [LineAfter(AssociationBidirectional(reading, LINES), FieldOf(s, "lines"), tv)]))
  }

  lemma OrderMerged(env: Env, s: Value, t: Value)
    requires env.schema == OrderSchema() && s.Obj? && t.Obj? && s.cls == "Order" && t.cls == "Order"
    requires var sv, tv := FieldOf(s, "lines"), FieldOf(t, "lines");
             && sv.Coll? && tv.Coll? && tv.kind == ListKind && tv.mutable && |sv.elems| == 1 && |tv.elems| == 1
             && LineOfProduct(sv.elems[0]) && LineOfProduct(tv.elems[0])
             && IdsDiffer(env.schema, FieldOf(sv.elems[0], "product"), FieldOf(tv.elems[0], "product"))
    ensures MergedForPut(env, s, t, false) == Success(OrderAfter(env.reading, s, t))
  {
    var bidi := AssociationBidirectional(env.reading, LINES);
    var lines := WithElems(FieldOf(t, "lines"), [LineAfter(bidi, FieldOf(s, "lines"), FieldOf(t, "lines"))]);
    Entities(env, t);
    LinesMerged(env, FieldOf(s, "lines"), FieldOf(t, "lines"), bidi);
    WrittenWith(env, s, t, LINES, false, lines);
    MergedForPutOfOne(env, s, t, LINES, false, SetField(t, "lines", lines));
  }

  lemma ExampleReference(reading: Reading)
    ensures ReferenceAfter(AssociationBidirectional(reading, LINES), ProductAt(8, "2", "new"), ProductAt(4, "1", "old"))
            == ProductAfter(reading)
  {
    assert AssociationBidirectional(reading, LINES) == (reading == AsWritten) by {
      assert ConsultedMappedBy(LINES) == Some("");
    }
    if reading == AsWritten {
      assert FieldOf(ProductAt(8, "2", "new"), "name") == Scalar(STRING, "new");
    }
  }

  /** The example's values meet the requirements of OrderMerged. */
  lemma ExampleFields()
    ensures FieldOf(PutOrderValue(), "lines") == LinesAt(6, LineAt(7, ProductAt(8, "2", "new")))
    ensures FieldOf(StoredOrder(), "lines") == LinesAt(2, LineAt(3, ProductAt(4, "1", "old")))
    ensures FieldOf(LineAt(7, ProductAt(8, "2", "new")), "product") == ProductAt(8, "2", "new")
    ensures FieldOf(LineAt(3, ProductAt(4, "1", "old")), "product") == ProductAt(4, "1", "old")
    ensures IdsDiffer(OrderSchema(), ProductAt(8, "2", "new"), ProductAt(4, "1", "old"))
  {
  }

  lemma ExampleLine(reading: Reading)
    ensures LineAfter(AssociationBidirectional(reading, LINES), LinesAt(6, LineAt(7, ProductAt(8, "2", "new"))),
                      LinesAt(2, LineAt(3, ProductAt(4, "1", "old"))))
            == LineAt(3, ProductAfter(reading))
  {
    ExampleFields();
    ExampleReference(reading);
  }

  /** OrderAfter, spelled out for the example. */
  lemma ExampleOrderAfter(reading: Reading)
    ensures OrderAfter(reading, PutOrderValue(), StoredOrder()) == OrderAt(1, LinesAt(2, LineAt(3, ProductAfter(reading))))
  {
    ExampleFields();
    ExampleLine(reading);
    var line := LineAt(3, ProductAfter(reading));
    assert WithElems(LinesAt(2, LineAt(3, ProductAt(4, "1", "old"))), [line]) == LinesAt(2, line);
  }

  /** The whole PUT of the order: under both readings the stored order, list and line keep their
      identity; as written the stored product 1 is kept and takes the new name, as corrected
      product 2 replaces it. */
  lemma UnidirectionalListMergedAsBidirectional(env: Env)
    requires env.schema == OrderSchema()
    ensures IsBidirectionalAssociationAsWritten(LINES) && !IsBidirectionalAssociation(LINES)
    ensures MergedForPut(env, PutOrderValue(), StoredOrder(), false)
            == Success(OrderAt(1, LinesAt(2, LineAt(3, ProductAfter(env.reading)))))
    ensures env.reading == AsWritten ==> ProductAfter(env.reading) == ProductAt(4, "1", "new")
    ensures env.reading == Corrected ==> ProductAfter(env.reading) == ProductAt(8, "2", "new")
  {
    UnidirectionalReportedBidirectional(LINES);
    ExampleFields();
    ExampleOrderAfter(env.reading);
    OrderMerged(env, PutOrderValue(), StoredOrder());
  }
}
