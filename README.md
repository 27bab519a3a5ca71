# Spring Data REST: merging request payloads into entities

This project models the part of Spring Data REST that applies an HTTP request body to an
existing entity, together with the listener that reports whether a save changed the entity.

- **`DomainObjectReader`** merges in two ways.
  - **PUT** (`mergeForPut`). A `MergingPropertyHandler` visits every persistent property of the
    target entity. It skips id, version, read-only and unmapped properties. It merges maps key by
    key, collections position by position, and referenced entities recursively. Every other
    property it overwrites with the source's value. Then `copyRemainingProperties` copies the
    transient (unmapped) properties.
  - **PATCH** (`doMerge`). It walks the JSON object node. It merges arrays into the collections
    the target holds (`handleArray`/`handleArrayNode`), non-empty objects into maps
    (`doMergeNestedMap`), and nested objects into referenced entities (recursive `doMerge`). It
    removes from the node every field it handled. What remains goes to Jackson's
    `readerForUpdating`.
- **`RepositoryOptimisticLockEventHandler`** reacts to an `OptimisticLockEvent`.
  - It flushes the EntityManager.
  - It then publishes either `AfterSaveEvent` or `AfterSaveNoChangeEvent`. The choice depends on
    whether the entity's version changed in the flush.

The live Java object graph is modelled as a value (`Values.Value`). Every object, collection,
array and map carries its identity (`Ref`). An in-place update is then the same identity with
new contents. A few functions stand in for Jackson and are left uninterpreted: `treeToValue`,
`readValue` of a map key, and `readerForUpdating(target).readValue(node)`. They are fields of
`Mapping.Jackson`. Their failures are `Values.Fault`s, and these propagate as Java exceptions do.

The modules:
- `Values`: the Java containers used.
- `ReaderHelpers`: DomainObjectReader's static helpers.
- `Mapping`: the entity metadata, plus `isBidirectionalAssociation`.
- `PutSpec`: the PUT merge as functions.
- `PutProperties`: what a PUT promises.
- `PutMerge`: the PUT merge as the handler class and methods with loops, proved against
  `PutSpec`.
- `PutBidirectional`: a PUT of an order whose unidirectional line list holds a different
  product, merged under both readings of `isBidirectionalAssociation`.
- `JsonQuote`: `quote` and how Jackson reads the literal back.
- `PatchSpec`: the PATCH merge as functions.
- `PatchProperties`: what a PATCH promises.
- `PatchMerge`: the PATCH loops, proved to compute `PatchSpec`.
- `OptimisticLock`: the listener.

Properties are proved both where the code does what its documentation says and where it does not.
- **Where the code is kept as written:**
  - `handleArrayNode` passes the snapshot iterator, not the element, to `getTypeToMap` (line
    372). The iterator's class never equals the declared type, so the nested array is handled with
    `ArrayList$Itr` as its collection type. The model does the same.
  - A map key that needs no escaping round-trips through `quote`.
- **Where the code departs from what is evidently meant** (see "## Findings"):
  - `isBidirectionalAssociation`;
  - `quote` on keys that need escaping;
  - the `@Version` test of the optimistic-lock listener.

  The model runs both versions. `Mapping.Env.reading` chooses `AsWritten` or `Corrected` for
  the PUT and PATCH merges, and the handler's `reading` field does the same for the listener.
  Every contract below holds under both readings. Where the two readings differ, lemmas state
  the difference on a concrete input.

## Model

| member | source | states |
|---|---|---|
| Values.SetField | spring-data-rest-webmvc/src/main/java/org/springframework/data/rest/webmvc/json/DomainObjectReader.java:730 | a property write keeps the object's identity and class, sets that property and no other |
| Values.RuntimeClassOf | spring-data-rest-webmvc/src/main/java/org/springframework/data/rest/webmvc/json/DomainObjectReader.java:611-615 | a runtime class exists exactly for non-null values; a declaring enum class exactly for enum constants |
| Values.Inserted | spring-data-rest-webmvc/src/main/java/org/springframework/data/rest/webmvc/json/DomainObjectReader.java:517 | `add` appends to a list; on a set it appends only an element not already present |
| Values.InsertedAllList | spring-data-rest-webmvc/src/main/java/org/springframework/data/rest/webmvc/json/DomainObjectReader.java:512-518 | adding elements one by one to a list appends them all, in order |
| Values.InsertedAllSetDistinct | spring-data-rest-webmvc/src/main/java/org/springframework/data/rest/webmvc/json/DomainObjectReader.java:512-518 | adding distinct new elements to a set appends them all, in order |
| Values.InsertedAllSetContents | spring-data-rest-webmvc/src/main/java/org/springframework/data/rest/webmvc/json/DomainObjectReader.java:512-518 | a set built by adding elements has no duplicates and holds exactly the old and the added elements |
| Values.InsertedAllIdempotent | spring-data-rest-webmvc/src/main/java/org/springframework/data/rest/webmvc/json/DomainObjectReader.java:526-527 | refilling a container of the same kind with the merged result leaves the result unchanged |
| Values.RemoveFirstCounts | spring-data-rest-webmvc/src/main/java/org/springframework/data/rest/webmvc/json/DomainObjectReader.java:383-385 | `remove(x)` removes exactly one occurrence (length one less, multiset minus x) when x is present; otherwise nothing changes |
| Values.Add | spring-data-rest-webmvc/src/main/java/org/springframework/data/rest/webmvc/json/DomainObjectReader.java:364 | `collection.add` succeeds exactly on a modifiable collection (never on an array view) and inserts the element |
| Values.Remove | spring-data-rest-webmvc/src/main/java/org/springframework/data/rest/webmvc/json/DomainObjectReader.java:384 | `collection.remove` succeeds on a modifiable collection, and on an array view only when the element is absent; it removes the first occurrence |
| Values.Put | spring-data-rest-webmvc/src/main/java/org/springframework/data/rest/webmvc/json/DomainObjectReader.java:429 | `map.put` succeeds exactly on a modifiable map and sets that key |
| ReaderHelpers.AsCollection | spring-data-rest-webmvc/src/main/java/org/springframework/data/rest/webmvc/json/DomainObjectReader.java:537-548 | null for null; otherwise a view whose elements are the collection's, the array's, or the single value |
| ReaderHelpers.IfCollection | spring-data-rest-webmvc/src/main/java/org/springframework/data/rest/webmvc/json/DomainObjectReader.java:557-570 | a collection or array is returned itself, anything else gives null |
| ReaderHelpers.ClearAndAddAll | spring-data-rest-webmvc/src/main/java/org/springframework/data/rest/webmvc/json/DomainObjectReader.java:524-532 | clear-then-addAll succeeds exactly on a modifiable collection, which then holds the result as its kind collects it, or on an empty array view refilled with nothing; a singleton always refuses |
| ReaderHelpers.TypeOrObject | spring-data-rest-webmvc/src/main/java/org/springframework/data/rest/webmvc/json/DomainObjectReader.java:588-590 | the type's class, or Object for no type |
| ReaderHelpers.TypeToMap | spring-data-rest-webmvc/src/main/java/org/springframework/data/rest/webmvc/json/DomainObjectReader.java:601-616 | the declared type (Object by default) for null; the declaring class for an enum; the value's own class otherwise; the declared type survives only when nothing more concrete is known |
| Mapping.IsInstance | spring-data-rest-webmvc/src/main/java/org/springframework/data/rest/webmvc/json/DomainObjectReader.java:680 | only an object is an instance; an object of the class itself always is |
| Mapping.EntityOf | spring-data-rest-webmvc/src/main/java/org/springframework/data/rest/webmvc/json/DomainObjectReader.java:146-150 | an entity is found exactly for an object whose class is a persistent entity |
| Mapping.PropertyForField | spring-data-rest-webmvc/src/main/java/org/springframework/data/rest/webmvc/json/DomainObjectReader.java:259-263 | a property found for a JSON field belongs to the entity and is serialized under that name; none found means no property is |
| Mapping.PlainProperties | spring-data-rest-webmvc/src/main/java/org/springframework/data/rest/webmvc/json/DomainObjectReader.java:156 | `doWithProperties` visits exactly the non-association properties |
| Mapping.AssociationProperties | spring-data-rest-webmvc/src/main/java/org/springframework/data/rest/webmvc/json/DomainObjectReader.java:157 | `doWithAssociations` visits exactly the associations |
| Mapping.PutOrder | spring-data-rest-webmvc/src/main/java/org/springframework/data/rest/webmvc/json/DomainObjectReader.java:156-157 | the handler visits exactly the entity's properties |
| Mapping.IsBidirectionalAssociationAsWritten | spring-data-rest-webmvc/src/main/java/org/springframework/data/rest/webmvc/json/DomainObjectReader.java:442-450 | as written the test holds exactly when a @OneToMany or @ManyToMany annotation is present |
| Mapping.IsBidirectionalAssociation | spring-data-rest-webmvc/src/main/java/org/springframework/data/rest/webmvc/json/DomainObjectReader.java:442-450 | holds exactly when the consulted annotation has a non-empty mappedBy; implies the as-written test |
| Mapping.AssociationBidirectional | spring-data-rest-webmvc/src/main/java/org/springframework/data/rest/webmvc/json/DomainObjectReader.java:442-450 | as written: set for any @OneToMany or @ManyToMany; as corrected: set exactly when the consulted annotation's mappedBy is non-empty |
| Mapping.UnidirectionalReportedBidirectional | spring-data-rest-webmvc/src/main/java/org/springframework/data/rest/webmvc/json/DomainObjectReader.java:443-445 | a @OneToMany without mappedBy passes the as-written test but is not bidirectional |
| PutSpec.MergedForPut | spring-data-rest-webmvc/src/main/java/org/springframework/data/rest/webmvc/json/DomainObjectReader.java:136-164 | null on either side or a non-entity target returns the source; a source that is no instance of the target's class (Class.isInstance, subclasses included) fails; otherwise the target object itself comes back |
| PutSpec.MergedForPutNoAssociations | spring-data-rest-webmvc/src/main/java/org/springframework/data/rest/webmvc/json/DomainObjectReader.java:166-188 | as mergeForPut for nulls, non-entities and non-instances; otherwise the target keeps its identity and every field but the written plain properties |
| PutSpec.MergedProps | spring-data-rest-webmvc/src/main/java/org/springframework/data/rest/webmvc/json/DomainObjectReader.java:156-157 | visiting properties in turn keeps the target's identity and every field none of them writes |
| PutSpec.MergedProperty | spring-data-rest-webmvc/src/main/java/org/springframework/data/rest/webmvc/json/DomainObjectReader.java:690-731 | id, version, read-only and unmapped properties leave the target alone; any other property holds the per-kind merge of its source and target values, and no other field changes |
| PutSpec.MergedValue | spring-data-rest-webmvc/src/main/java/org/springframework/data/rest/webmvc/json/DomainObjectReader.java:705-728 | a property that is no map, collection or entity takes the source value verbatim; maps and collections are merged with the flag AssociationBidirectional computes under the chosen reading |
| PutSpec.MergedReference | spring-data-rest-webmvc/src/main/java/org/springframework/data/rest/webmvc/json/DomainObjectReader.java:709-725 | bidirectional: the referenced object is kept and only plain properties merged; two different non-null ids: the new reference replaces the old; otherwise merged into the referenced object; null stays null |
| PutSpec.MergedElements | spring-data-rest-webmvc/src/main/java/org/springframework/data/rest/webmvc/json/DomainObjectReader.java:505-518 | succeeds iff every element merge does; the k-th result is the merge of the k-th source element with the k-th target element (or null) |
| PutSpec.MergedSources | spring-data-rest-webmvc/src/main/java/org/springframework/data/rest/webmvc/json/DomainObjectReader.java:494-518 | one merged element per element of the source's collection view |
| PutSpec.MergedCollection | spring-data-rest-webmvc/src/main/java/org/springframework/data/rest/webmvc/json/DomainObjectReader.java:491-534 | null for null; the merged elements collected by the result kind; a modifiable target is refilled and returned; otherwise a fresh ArrayList or LinkedHashSet |
| PutSpec.EntryMerges | spring-data-rest-webmvc/src/main/java/org/springframework/data/rest/webmvc/json/DomainObjectReader.java:469-473 | one merge per source key |
| PutSpec.MergedMap | spring-data-rest-webmvc/src/main/java/org/springframework/data/rest/webmvc/json/DomainObjectReader.java:453-489 | null for null; succeeds iff every entry merges; exactly the source's keys, each the merge of the two values; a modifiable target map is refilled and returned, otherwise a fresh LinkedHashMap |
| PutSpec.CopiedRemaining | spring-data-rest-webmvc/src/main/java/org/springframework/data/rest/webmvc/json/DomainObjectReader.java:198-218 | every copyable unmapped property takes the source's value; every other field is unchanged |
| PutProperties.PropertyWritten | spring-data-rest-webmvc/src/main/java/org/springframework/data/rest/webmvc/json/DomainObjectReader.java:154-157 | with distinct names, after visiting all properties a written property holds its own merge result |
| PutProperties.PlainPropertiesDistinct | spring-data-rest-webmvc/src/main/java/org/springframework/data/rest/webmvc/json/DomainObjectReader.java:156-157 | splitting the properties into plain ones and associations keeps names distinct |
| PutProperties.PutOrderDistinct | spring-data-rest-webmvc/src/main/java/org/springframework/data/rest/webmvc/json/DomainObjectReader.java:156-157 | in a well-formed entity the handler never visits two properties with one name |
| PutProperties.PutWritesProperty | spring-data-rest-webmvc/src/main/java/org/springframework/data/rest/webmvc/json/DomainObjectReader.java:690-731 | after a PUT every written property holds its merge result; a simple property holds the source's value |
| PutProperties.PutLeavesUnwritten | spring-data-rest-webmvc/src/main/java/org/springframework/data/rest/webmvc/json/DomainObjectReader.java:692-698 | after a PUT a field no property writes and no unmapped property copies keeps the target's value |
| PutProperties.PutCopiesUnmapped | spring-data-rest-webmvc/src/main/java/org/springframework/data/rest/webmvc/json/DomainObjectReader.java:205-217 | after a PUT every copyable unmapped property holds the source's value |
| PutProperties.ListMergeIsPositional | spring-data-rest-webmvc/src/main/java/org/springframework/data/rest/webmvc/json/DomainObjectReader.java:501-518 | merged into a list, the result has the source's length and pairs elements by position |
| PutProperties.SetMergeIsDeduplicated | spring-data-rest-webmvc/src/main/java/org/springframework/data/rest/webmvc/json/DomainObjectReader.java:501-518 | merged into a set, the result has no duplicates and holds exactly the merged elements |
| PutMerge.MergingPropertyHandler.constructor | spring-data-rest-webmvc/src/main/java/org/springframework/data/rest/webmvc/json/DomainObjectReader.java:670-683 | the handler holds the source, the target, the mapper and the bidirectional flag |
| PutMerge.MergingPropertyHandler.DoWithPersistentProperty | spring-data-rest-webmvc/src/main/java/org/springframework/data/rest/webmvc/json/DomainObjectReader.java:690-731 | the target becomes what MergedProperty gives; on an exception it is left as it was |
| PutMerge.MergeForPut | spring-data-rest-webmvc/src/main/java/org/springframework/data/rest/webmvc/json/DomainObjectReader.java:136-164 | has the outcome of MergedForPut |
| PutMerge.MergeForPutNoAssociations | spring-data-rest-webmvc/src/main/java/org/springframework/data/rest/webmvc/json/DomainObjectReader.java:166-188 | has the outcome of MergedForPutNoAssociations |
| PutMerge.MergingPropertyHandler.DoWithProperties | spring-data-rest-webmvc/src/main/java/org/springframework/data/rest/webmvc/json/DomainObjectReader.java:156-157 | visiting the properties in turn succeeds exactly when MergedProps does, and then leaves the target MergedProps gives |
| PutMerge.MergeCollections | spring-data-rest-webmvc/src/main/java/org/springframework/data/rest/webmvc/json/DomainObjectReader.java:491-534 | the loop over the source has the outcome of MergedCollection, with the flag AssociationBidirectional computes for the property |
| PutMerge.MergeMaps | spring-data-rest-webmvc/src/main/java/org/springframework/data/rest/webmvc/json/DomainObjectReader.java:453-489 | the loop over the entries has the outcome of MergedMap, with the flag AssociationBidirectional computes for the property |
| PutMerge.CopyRemainingProperties | spring-data-rest-webmvc/src/main/java/org/springframework/data/rest/webmvc/json/DomainObjectReader.java:198-218 | the loop over the unmapped properties computes CopiedRemaining |
| JsonQuote.Quote | spring-data-rest-webmvc/src/main/java/org/springframework/data/rest/webmvc/json/DomainObjectReader.java:578-580 | null for null; otherwise the key between two double quotes, unchanged |
| JsonQuote.QuotePlainRoundTrip | spring-data-rest-webmvc/src/main/java/org/springframework/data/rest/webmvc/json/DomainObjectReader.java:415 | a key with no quote, backslash or control character is read back as itself |
| JsonQuote.QuoteMisreadsBackslash | spring-data-rest-webmvc/src/main/java/org/springframework/data/rest/webmvc/json/DomainObjectReader.java:578-580 | the key `C:\temp` is read back with a tab in it |
| JsonQuote.QuoteTruncatesAtQuote | spring-data-rest-webmvc/src/main/java/org/springframework/data/rest/webmvc/json/DomainObjectReader.java:578-580 | the key `a"b` is read back as `a` |
| JsonQuote.QuoteRejectsLineBreak | spring-data-rest-webmvc/src/main/java/org/springframework/data/rest/webmvc/json/DomainObjectReader.java:578-580 | a key holding a line break gives a literal that cannot be read |
| JsonQuote.QuoteEscapedRoundTrip | spring-data-rest-webmvc/src/main/java/org/springframework/data/rest/webmvc/json/DomainObjectReader.java:578-580 | the escaped literal is read back as exactly the key, for every key |
| JsonQuote.EscapedPlain | spring-data-rest-webmvc/src/main/java/org/springframework/data/rest/webmvc/json/DomainObjectReader.java:578-580 | on keys that need no escaping the corrected quote equals the one as written |
| PatchSpec.KeyLiteral | spring-data-rest-webmvc/src/main/java/org/springframework/data/rest/webmvc/json/DomainObjectReader.java:415 | as written: the key between two double quotes (quote); as corrected: a literal that reads back as the key |
| PatchSpec.MergedDocument | spring-data-rest-webmvc/src/main/java/org/springframework/data/rest/webmvc/json/DomainObjectReader.java:239-313 | a null target is refused; the document handed to Jackson holds only fields of the request; a non-entity target is a plain Jackson update of the whole document |
| PatchSpec.PrunedFields | spring-data-rest-webmvc/src/main/java/org/springframework/data/rest/webmvc/json/DomainObjectReader.java:253-310 | the loop keeps the target's identity, keeps only fields of the node, and never drops a field already kept |
| PatchSpec.FieldMerge | spring-data-rest-webmvc/src/main/java/org/springframework/data/rest/webmvc/json/DomainObjectReader.java:271-309 | scalars, linkable associations, empty maps and other objects stay; a non-empty map is merged and removed once emptied (a non-map value is a ClassCastException); a nested entity is merged and removed; an array is removed iff handleArray says it was handled |
| PatchSpec.HandledArray | spring-data-rest-webmvc/src/main/java/org/springframework/data/rest/webmvc/json/DomainObjectReader.java:327-337 | a null value is refused; a value that is no collection is left alone and the field kept; a collection keeps its identity; the node keeps its length |
| PatchSpec.HandledArrayNode | spring-data-rest-webmvc/src/main/java/org/springframework/data/rest/webmvc/json/DomainObjectReader.java:348-388 | the collection keeps its identity and the node its length |
| PatchSpec.ArrayItems | spring-data-rest-webmvc/src/main/java/org/springframework/data/rest/webmvc/json/DomainObjectReader.java:360-387 | the loop keeps the collection's identity, kind and modifiability, and the node's length |
| PatchSpec.RemovedSurplus | spring-data-rest-webmvc/src/main/java/org/springframework/data/rest/webmvc/json/DomainObjectReader.java:383-385 | removing the surplus keeps the collection's identity, and removes nothing when there is no surplus |
| PatchSpec.MergedNestedMap | spring-data-rest-webmvc/src/main/java/org/springframework/data/rest/webmvc/json/DomainObjectReader.java:398-434 | a null map leaves everything as it was; otherwise the map keeps its identity and the node ends empty |
| PatchSpec.MapGet | spring-data-rest-webmvc/src/main/java/org/springframework/data/rest/webmvc/json/DomainObjectReader.java:416 | the value under a key, or null for a missing key |
| PatchSpec.NestedEntries | spring-data-rest-webmvc/src/main/java/org/springframework/data/rest/webmvc/json/DomainObjectReader.java:409-433 | the loop empties the node, keeps the map's identity and loses no key |
| PatchSpec.NestedEntry | spring-data-rest-webmvc/src/main/java/org/springframework/data/rest/webmvc/json/DomainObjectReader.java:411-432 | one field: its name, quoted as the reading says, decodes to a key; that key is the only one added or changed; a scalar (or a value under a missing key) is decoded with getTypeToMap's type and put, which needs a modifiable map |
| PatchProperties.RemovedSurplusFromList | spring-data-rest-webmvc/src/main/java/org/springframework/data/rest/webmvc/json/DomainObjectReader.java:382-385 | on a modifiable list holding the surplus elements, exactly one occurrence of each is removed |
| PatchProperties.ArrayItemsOnList | spring-data-rest-webmvc/src/main/java/org/springframework/data/rest/webmvc/json/DomainObjectReader.java:360-387 | on a modifiable list with no nested array, the walk ends with one element per item; positions are merged, extra items appended, surplus elements removed |
| PatchProperties.HandleArrayNodeOnList | spring-data-rest-webmvc/src/main/java/org/springframework/data/rest/webmvc/json/DomainObjectReader.java:348-388 | on a modifiable list with no nested array: the same list with one element per item; handled iff some object item was merged; element k is item k applied to element k; extra items are decoded and appended; surplus elements are removed (multiset) |
| PatchProperties.HandleArrayNodeAtNestedArray | spring-data-rest-webmvc/src/main/java/org/springframework/data/rest/webmvc/json/DomainObjectReader.java:359-388 | on a modifiable list whose j-th item is the first array facing an element: the walk returns there with handleArray's handled flag; earlier items applied, element j is the nested result, later elements and items untouched, nothing removed |
| PatchProperties.ArrayItemsToNestedArray | spring-data-rest-webmvc/src/main/java/org/springframework/data/rest/webmvc/json/DomainObjectReader.java:359-373 | the loop from any point before the first nested array ends at it, with the elements before it in their walked state |
| PatchProperties.PrunedFieldsUntouched | spring-data-rest-webmvc/src/main/java/org/springframework/data/rest/webmvc/json/DomainObjectReader.java:253-310 | a target property that no remaining field backs keeps its value |
| PatchProperties.PrunedFieldKept | spring-data-rest-webmvc/src/main/java/org/springframework/data/rest/webmvc/json/DomainObjectReader.java:259-293 | a field doMerge does not handle stays in the node, unchanged |
| PatchProperties.PrunedFieldDropped | spring-data-rest-webmvc/src/main/java/org/springframework/data/rest/webmvc/json/DomainObjectReader.java:295-307 | a nested entity or a non-empty map object is removed from the node |
| PatchProperties.PrunedFieldKeptIffKeep | spring-data-rest-webmvc/src/main/java/org/springframework/data/rest/webmvc/json/DomainObjectReader.java:271-309 | a field whose property holds a value stays in the document exactly when handling it asked to keep it |
| PatchProperties.PrunedFieldWritten | spring-data-rest-webmvc/src/main/java/org/springframework/data/rest/webmvc/json/DomainObjectReader.java:264-308 | a handled field's property ends up holding what handling the field made of its value |
| PatchProperties.DocumentHandedToJackson | spring-data-rest-webmvc/src/main/java/org/springframework/data/rest/webmvc/json/DomainObjectReader.java:239-313 | on success the result is Jackson's update of the merged target with the pruned node; unhandled fields are in it, merged-away ones are not, an array field is in it exactly when handleArray reports no object merge, handled properties hold their merge |
| PatchProperties.PrunedFieldsAllVerbatim | spring-data-rest-webmvc/src/main/java/org/springframework/data/rest/webmvc/json/DomainObjectReader.java:253-310 | when no field is handled, the loop changes nothing and keeps every field |
| PatchProperties.MergedDocumentPlain | spring-data-rest-webmvc/src/main/java/org/springframework/data/rest/webmvc/json/DomainObjectReader.java:239-313 | a document doMerge handles no field of is exactly a Jackson update of the target |
| PatchProperties.NestedEntriesDecodeAll | spring-data-rest-webmvc/src/main/java/org/springframework/data/rest/webmvc/json/DomainObjectReader.java:409-433 | when the loop over a nested map succeeds, every remaining field name decoded to a key |
| PatchProperties.NestedEntriesKeySet | spring-data-rest-webmvc/src/main/java/org/springframework/data/rest/webmvc/json/DomainObjectReader.java:409-433 | the map ends with exactly its own keys and the keys the remaining field names decode to |
| PatchProperties.NestedEntriesUntouched | spring-data-rest-webmvc/src/main/java/org/springframework/data/rest/webmvc/json/DomainObjectReader.java:409-433 | an entry under a key that no remaining field name decodes to ends with the value it had |
| PatchProperties.MergedNestedMapEntries | spring-data-rest-webmvc/src/main/java/org/springframework/data/rest/webmvc/json/DomainObjectReader.java:398-434 | on a map: the node ends empty, every name decodes to a key, the keys are the map's own plus the decoded ones, and entries under other keys are unchanged |
| PatchProperties.DecodedStringKey | spring-data-rest-webmvc/src/main/java/org/springframework/data/rest/webmvc/json/DomainObjectReader.java:415 | with Jackson reading String keys as JSON literals, a field name decodes to itself: always as corrected, and as written when it needs no escaping |
| PatchProperties.BackslashKeyMisread | spring-data-rest-webmvc/src/main/java/org/springframework/data/rest/webmvc/json/DomainObjectReader.java:411-432 | PATCHing `{"C:\\temp": 1}` (the key `C:\temp`) into a Map<String, Integer>: as written the only key added is `C:<tab>emp`, and none is added under `C:\temp`; as corrected the key added is `C:\temp` |
| PatchProperties.MergedDocumentKeepsIdentity | spring-data-rest-webmvc/src/main/java/org/springframework/data/rest/webmvc/json/DomainObjectReader.java:239-312 | when Jackson's readerForUpdating updates in place, doMerge on an object hands back that object (same identity and class) |
| PatchProperties.NestedEntityKeepsIdentity | spring-data-rest-webmvc/src/main/java/org/springframework/data/rest/webmvc/json/DomainObjectReader.java:300-308 | a nested entity merged by doMerge, whose result the code discards, is the very object the property held |
| PatchProperties.PatchedEntityKeepsIdentity | spring-data-rest-webmvc/src/main/java/org/springframework/data/rest/webmvc/json/DomainObjectReader.java:258-310 | after doMerge's loop, a property whose field is a nested entity still holds the same object |
| PatchProperties.NestedEntryKeepsIdentity | spring-data-rest-webmvc/src/main/java/org/springframework/data/rest/webmvc/json/DomainObjectReader.java:418-422 | a nested-map entry merged through doMerge is the very object the map held under that key |
| PatchMerge.DoMerge | spring-data-rest-webmvc/src/main/java/org/springframework/data/rest/webmvc/json/DomainObjectReader.java:239-313 | the loop over the fields computes MergedDocument |
| PatchMerge.HandleArray | spring-data-rest-webmvc/src/main/java/org/springframework/data/rest/webmvc/json/DomainObjectReader.java:327-337 | computes HandledArray |
| PatchMerge.HandleArrayNode | spring-data-rest-webmvc/src/main/java/org/springframework/data/rest/webmvc/json/DomainObjectReader.java:348-388 | the walk over the items and the removal loop compute HandledArrayNode |
| PatchMerge.MergeNestedEntry | spring-data-rest-webmvc/src/main/java/org/springframework/data/rest/webmvc/json/DomainObjectReader.java:411-432 | one turn of the loop computes NestedEntry: the same map or the same failure |
| PatchMerge.DoMergeNestedMap | spring-data-rest-webmvc/src/main/java/org/springframework/data/rest/webmvc/json/DomainObjectReader.java:398-434 | the loop over the node's fields computes MergedNestedMap |
| PutBidirectional.OrderMerged | spring-data-rest-webmvc/src/main/java/org/springframework/data/rest/webmvc/json/DomainObjectReader.java:136-164 | PUT of an order with one line onto an order with one line, whose products have different ids: the stored order keeps its identity, and its line's product is the one ReferenceAfter gives under the flag the reading computes |
| PutBidirectional.LinesMerged | spring-data-rest-webmvc/src/main/java/org/springframework/data/rest/webmvc/json/DomainObjectReader.java:491-534 | a one-line list merged into a modifiable one-line list holds the merged line |
| PutBidirectional.ProductMerged | spring-data-rest-webmvc/src/main/java/org/springframework/data/rest/webmvc/json/DomainObjectReader.java:709-726 | two products with different ids: with the flag set, the stored product keeps its identity and id and takes the new name; with it clear, the new product replaces it |
| PutBidirectional.UnidirectionalListMergedAsBidirectional | spring-data-rest-webmvc/src/main/java/org/springframework/data/rest/webmvc/json/DomainObjectReader.java:442-450 | for a unidirectional @OneToMany `lines`, the stored order holding product 1 and the PUT holding product 2: as written, product 1's object is kept and gets product 2's name; as corrected, product 2 takes its place |
| OptimisticLock.VersionNeverOnClass | spring-data-rest-core/src/main/java/org/springframework/data/rest/core/event/RepositoryOptimisticLockEventHandler.java:44 | a class that compiles never carries @Version on its declaration |
| OptimisticLock.Published | spring-data-rest-core/src/main/java/org/springframework/data/rest/core/event/RepositoryOptimisticLockEventHandler.java:37-65 | exactly one event that carries the source; AfterSaveNoChangeEvent iff flushed, versioned and the versions are equal (both null included), AfterSaveEvent otherwise |
| OptimisticLock.PublishedAsWritten | spring-data-rest-core/src/main/java/org/springframework/data/rest/core/event/RepositoryOptimisticLockEventHandler.java:44-64 | as written, a class without @Version on its declaration always gets AfterSaveEvent |
| OptimisticLock.AsWrittenAlwaysAfterSave | spring-data-rest-core/src/main/java/org/springframework/data/rest/core/event/RepositoryOptimisticLockEventHandler.java:44-64 | as written, every class that compiles gets AfterSaveEvent, whatever the versions |
| OptimisticLock.PublishedCorrected | spring-data-rest-core/src/main/java/org/springframework/data/rest/core/event/RepositoryOptimisticLockEventHandler.java:36-67 | AfterSaveNoChangeEvent iff flushed, the entity has a @Version field and the versions are equal |
| OptimisticLock.UnchangedVersionReportedAsSave | spring-data-rest-core/src/main/java/org/springframework/data/rest/core/event/RepositoryOptimisticLockEventHandler.java:44-61 | an entity with a @Version field whose version stays 3: AfterSaveEvent as written, AfterSaveNoChangeEvent corrected |
| OptimisticLock.RepositoryOptimisticLockEventHandler.constructor | spring-data-rest-core/src/main/java/org/springframework/data/rest/core/event/RepositoryOptimisticLockEventHandler.java:23-25 | a handler with or without an EntityManager, nothing published or flushed yet |
| OptimisticLock.RepositoryOptimisticLockEventHandler.OnApplicationEvent | spring-data-rest-core/src/main/java/org/springframework/data/rest/core/event/RepositoryOptimisticLockEventHandler.java:28-34 | only an exact OptimisticLockEvent is processed; any other event publishes nothing and flushes nothing; as written, every processed event on a compilable class publishes AfterSaveEvent; as corrected, the event PublishedCorrected chooses |
| OptimisticLock.RepositoryOptimisticLockEventHandler.ProcessEvent | spring-data-rest-core/src/main/java/org/springframework/data/rest/core/event/RepositoryOptimisticLockEventHandler.java:36-67 | appends exactly one event, which carries the source; as written it is the one PublishedAsWritten chooses (AfterSaveEvent on any class that compiles), as corrected the one PublishedCorrected chooses; flushes once iff an EntityManager and a transaction are present |

## Left out

- Object identity and aliasing. The object graph is a tree of values. Objects reachable twice
  and cycles are not modelled. An in-place update is a new value with the same `Ref`.
- Partial updates before an exception. When a merge fails part-way, the model returns the
  fault. The Java objects may already be partly changed at that point; the model does not
  capture that change.
- Jackson. `treeToValue`, reading a key, and `readerForUpdating(...).readValue` are
  uninterpreted functions (no modelled deserialization).
- `MappedProperties`, `PersistentEntity` and `Associations` are abstract metadata (`Mapping`).
  Their own construction is not modelled.
- The Jackson names are assumed distinct within an entity, and ObjectNode field names are
  assumed distinct. These assumptions appear as the `WellFormed` and `DistinctFieldNames`
  requirements of the PATCH lemmas.
- The public wrappers `read`, `readPut` and `merge` are left out. They only catch exceptions and
  rethrow them as "could not read payload". The model keeps the fault instead.
- `ConvertingPropertyAccessor` conversions are not modelled. Property writes store the value as
  given.
- `Assert.notNull` on the mapper is left out, because the mapper is always present in the model.
  The other assertions that can fail (a null target in doMerge, a null value in ifCollection)
  are `IllegalArgument` faults.
- Java `equals` on elements and keys is structural equality of values.
- An entity is looked up by the exact class of the object (`EntityOf`). A subclass proxy is
  therefore a different class there. The instance test of `getPropertyAccessor` does accept
  subclasses, through `Schema.supertypes`.
- PATCH stores what `readerForUpdating(...).readValue` hands back in three places: a nested
  entity (line 307), a collection element facing an object item in handleArrayNode (line 378),
  and a map entry (line 421). The Java code drops that result each time and relies on the
  value being updated in place. So where Jackson does not update in place (a String element
  facing an object item, say), Java keeps the old element while the model stores Jackson's
  result, and that result flows into `ItemMerged` and `HandleArrayNodeOnList`. Under
  `UpdatesInPlace`, the `KeepsIdentity` lemmas show the two agree for objects, and
  `MergedDocumentKeepsIdentity` covers an object element of a collection. A
  map entry that holds a map or a collection also goes through `readerForUpdating`
  (lines 420-421). What the model stores there is not tied to the value it held.
- Reading a String key is stated through `ReadsStringKeys`: Jackson reads the literal by the JSON
  string grammar of `JsonQuote.DecodeLiteral`. Other key types stay uninterpreted.
- CollectionFactory is modelled for lists (ArrayList) and for everything else (LinkedHashSet,
  LinkedHashMap). Sorted sets, enum sets, LinkedList and any other specific collection type are
  left out, and so is their iteration order.
- Arrays of primitives are left out. Arrays hold objects: `ObjectUtils.toObjectArray` and the
  `(Object[])` cast are the identity here.
- PatchProperties.HandleArrayNodeOnList: characterises handleArrayNode only on a modifiable
  list, and only when no item facing an element is an array. The early return at such an item
  (lines 371-373) is stated separately, by PatchProperties.HandleArrayNodeAtNestedArray. Sets
  and array views are not characterised, beyond PatchSpec's identity and length facts.
- PatchProperties.NestedEntriesUntouched: states the values of the entries a nested-map merge
  leaves alone. The values stored under merged entries are stated one field at a time, in
  PatchSpec.NestedEntry, and not for the whole loop.
- `getId` reading the first `@Id` field is a lookup in `Schema.idFields`. The
  `IllegalAccessException` path of `FieldUtils.readField` is not modelled.
- Strings are Dafny strings, which are sequences of Unicode scalar values. Java's UTF-16 code
  units are not modelled, and neither are lone surrogates or surrogate pairs: a character
  outside the Basic Multilingual Plane is one character here but two Java `char`s. A `\u`
  escape that names a surrogate is rejected by the key decoder rather than paired.
- The EntityManager's flush and `TransactionSynchronizationManager` are inputs. They are whether
  an EntityManager is present (a field of the handler), whether a transaction is active, and the
  versions read before and after the flush.
- `findVersion`'s `(Long)` cast and its `IllegalAccessException` are not modelled. Versions are
  optional integers.
- `setApplicationEventPublisher` is left out. The publisher is the handler's `published` log.
- RepositoryEntityController is not part of this model.

## Findings

| source | as written | input that shows it | evidently intended | confidence | as-written member | corrected member |
|---|---|---|---|---|---|---|
| spring-data-rest-webmvc/src/main/java/org/springframework/data/rest/webmvc/json/DomainObjectReader.java:443-449 | `mappedBy() != null`, which holds for every annotation, since mappedBy defaults to `""` | a unidirectional `@OneToMany` with no mappedBy is treated as bidirectional | bidirectional iff mappedBy is non-empty | not executed; high | Mapping.IsBidirectionalAssociationAsWritten, Mapping.UnidirectionalReportedBidirectional, PutBidirectional.UnidirectionalListMergedAsBidirectional | Mapping.IsBidirectionalAssociation, Mapping.AssociationBidirectional, PutBidirectional.ProductMerged |
| spring-data-rest-webmvc/src/main/java/org/springframework/data/rest/webmvc/json/DomainObjectReader.java:578-580 | the key is wrapped in quotes with nothing escaped, then read as a JSON string literal | map key `C:\temp` is decoded with a tab; `a"b` is decoded as `a`; a key with a line break cannot be read | escape `"`, `\` and control characters so the literal reads back as the key | not executed; high | JsonQuote.Quote, JsonQuote.QuoteMisreadsBackslash, PatchProperties.BackslashKeyMisread | JsonQuote.QuoteEscaped, JsonQuote.QuoteEscapedRoundTrip, PatchSpec.KeyLiteral, PatchProperties.DecodedStringKey |
| spring-data-rest-core/src/main/java/org/springframework/data/rest/core/event/RepositoryOptimisticLockEventHandler.java:44-50 | `clazz.isAnnotationPresent(Version.class)`, but @Version is declared for fields, methods and annotation types only, so no class carries it | an entity with a `@Version` field whose version the flush leaves unchanged gets AfterSaveEvent | test whether the class has a `@Version` field, as `findVersion` reads one | not executed; high | OptimisticLock.PublishedAsWritten, OptimisticLock.UnchangedVersionReportedAsSave, OptimisticLock.RepositoryOptimisticLockEventHandler.ProcessEvent | OptimisticLock.PublishedCorrected, OptimisticLock.RepositoryOptimisticLockEventHandler.ProcessEvent |
