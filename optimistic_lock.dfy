/** RepositoryOptimisticLockEventHandler: on an OptimisticLockEvent it flushes the persistence
    context and publishes an AfterSaveEvent when the entity's version changed in the flush, an
    AfterSaveNoChangeEvent when it did not.

    The EntityManager's presence is a flag of the handler; whether a transaction is active and
    the version before and after the flush are inputs. What the handler publishes is appended
    to a log. */
module OptimisticLock {
  import opened Wrappers
  import opened Values

  /** The repository events involved, each carrying its source object. `Other` is any other
      RepositoryEvent class (a subclass of OptimisticLockEvent included). */
  datatype RepositoryEvent =
    | OptimisticLockEvent(source: Value)
    | AfterSaveEvent(source: Value)
    | AfterSaveNoChangeEvent(source: Value)
    | Other(cls: ClassName, source: Value)

  // ---------------------------------------------------------------------------------------
  // Where the @Version annotation can be present
  // ---------------------------------------------------------------------------------------

  /** java.lang.annotation.ElementType, as far as it matters here. */
  datatype ElementType = TypeDeclaration | FieldDeclaration | MethodDeclaration | AnnotationTypeDeclaration

  datatype Annotation = Annotation(name: string, targets: set<ElementType>)

  /** Spring Data's @Version, declared for fields, methods and annotation types. */
  const VERSION: Annotation :=
    Annotation("org.springframework.data.annotation.Version", {FieldDeclaration, MethodDeclaration, AnnotationTypeDeclaration})

  /** A class as reflection sees it: the annotations on its declaration, and the fields that
      carry @Version (FieldUtils.getFieldsWithAnnotation). */
  datatype ClassInfo = ClassInfo(annotations: set<Annotation>, versionFields: seq<PropName>)

  /** A class the Java compiler accepts carries only annotations declared for types. */
  predicate Compiles(c: ClassInfo) {
    forall a :: a in c.annotations ==> TypeDeclaration in a.targets
  }

  /** Class.isAnnotationPresent */
  predicate IsAnnotationPresent(c: ClassInfo, a: Annotation) {
    a in c.annotations
  }

  /** No class can carry @Version on its declaration. */
  lemma VersionNeverOnClass(c: ClassInfo)
    requires Compiles(c)
    ensures !IsAnnotationPresent(c, VERSION)
  {
  }

  /** The entity has a @Version field, which findVersion reads. */
  predicate HasVersionField(c: ClassInfo) {
    |c.versionFields| > 0
  }

  // ---------------------------------------------------------------------------------------
  // The decision
  // ---------------------------------------------------------------------------------------

  /** The check as written: a version appeared, or an old version differs from the new one
      (Long.equals, so a version that disappears counts as a change). */
  predicate VersionChanged(oldVersion: Option<int>, newVersion: Option<int>) {
    (oldVersion.None? && newVersion.Some?) || (oldVersion.Some? && oldVersion != newVersion)
  }

  /** The event processEvent publishes. `flushed` is whether an EntityManager is present and a
      transaction is active; `versioned` is the outcome of the handler's versioning test; the
      versions are those read before and after the flush. */
  function Published(source: Value, flushed: bool, versioned: bool, oldVersion: Option<int>, newVersion: Option<int>): (r: RepositoryEvent)
    ensures r.source == source
    ensures r.AfterSaveEvent? || r.AfterSaveNoChangeEvent?
    ensures r.AfterSaveNoChangeEvent? <==> flushed && versioned && oldVersion == newVersion
  {
    if !flushed then AfterSaveEvent(source)
    else if versioned then
      if VersionChanged(oldVersion, newVersion) then AfterSaveEvent(source) else AfterSaveNoChangeEvent(source)
    else AfterSaveEvent(source)
  }

  /** Whether processEvent treats the entity as versioned: the class annotation as written, a
      @Version field as corrected. */
  function VersioningTest(reading: Reading, c: ClassInfo): bool {
    if reading == AsWritten then IsAnnotationPresent(c, VERSION) else HasVersionField(c)
  }

  /** processEvent as written tests `clazz.isAnnotationPresent(Version.class)`. */
  function PublishedAsWritten(source: Value, flushed: bool, c: ClassInfo, oldVersion: Option<int>, newVersion: Option<int>): (r: RepositoryEvent)
    ensures r.source == source
    ensures !IsAnnotationPresent(c, VERSION) ==> r == AfterSaveEvent(source)
  {
    Published(source, flushed, IsAnnotationPresent(c, VERSION), oldVersion, newVersion)
  }

  /** For any class that compiles, the handler as written never reports an unchanged entity. */
  lemma AsWrittenAlwaysAfterSave(source: Value, flushed: bool, c: ClassInfo, oldVersion: Option<int>, newVersion: Option<int>)
    requires Compiles(c)
    ensures PublishedAsWritten(source, flushed, c, oldVersion, newVersion) == AfterSaveEvent(source)
  {
    VersionNeverOnClass(c);
  }

  /** processEvent as evidently meant: an entity is versioned when it has a @Version field. */
  function PublishedCorrected(source: Value, flushed: bool, c: ClassInfo, oldVersion: Option<int>, newVersion: Option<int>): (r: RepositoryEvent)
    ensures r.source == source
    ensures r.AfterSaveNoChangeEvent? <==> flushed && HasVersionField(c) && oldVersion == newVersion
  {
    Published(source, flushed, HasVersionField(c), oldVersion, newVersion)
  }

  /** A versioned entity whose version the flush left alone: as written the handler reports a
      save; the corrected handler reports no change. */
  lemma UnchangedVersionReportedAsSave()
    ensures var c := ClassInfo({}, ["version"]);
            var entity := Obj(At(1), "Order", map["version" := Scalar("java.lang.Long", "3")]);
            && Compiles(c)
            && PublishedAsWritten(entity, true, c, Some(3), Some(3)) == AfterSaveEvent(entity)
            && PublishedCorrected(entity, true, c, Some(3), Some(3)) == AfterSaveNoChangeEvent(entity)
  {
    var c := ClassInfo({}, ["version"]);
    assert !IsAnnotationPresent(c, VERSION);
  }

  // ---------------------------------------------------------------------------------------
  // The listener
  // ---------------------------------------------------------------------------------------

  class RepositoryOptimisticLockEventHandler {
    /** Whether an EntityManager was injected. */
    const hasEntityManager: bool
    /** Whether the handler runs its versioning test as written or as corrected. */
    const reading: Reading
    /** Every event handed to the ApplicationEventPublisher, in order. */
    var published: seq<RepositoryEvent>
    /** How many times the EntityManager was flushed. */
    var flushes: nat

    constructor (hasEntityManager: bool, reading: Reading)
      ensures this.hasEntityManager == hasEntityManager && this.reading == reading
      ensures published == [] && flushes == 0
    {
      this.hasEntityManager := hasEntityManager;
      this.reading := reading;
      published := [];
      flushes := 0;
    }

    /** onApplicationEvent(event): only an event whose class is exactly OptimisticLockEvent is
        processed; any other leaves the handler as it was. */
    method OnApplicationEvent(event: RepositoryEvent, transactionActive: bool, c: ClassInfo,
                              versionBefore: Option<int>, versionAfterFlush: Option<int>)
      modifies this
      ensures !event.OptimisticLockEvent? ==> published == old(published) && flushes == old(flushes)
      ensures event.OptimisticLockEvent? ==>
                && published == old(published) + [Published(event.source, hasEntityManager && transactionActive,
                                                            VersioningTest(reading, c), versionBefore, versionAfterFlush)]
                && flushes == old(flushes) + (if hasEntityManager && transactionActive then 1 else 0)
      // as written, an OptimisticLockEvent on any class that compiles is reported as a save
      ensures event.OptimisticLockEvent? && reading == AsWritten && Compiles(c) ==>
                published == old(published) + [AfterSaveEvent(event.source)]
      ensures event.OptimisticLockEvent? && reading == Corrected ==>
                published == old(published) + [PublishedCorrected(event.source, hasEntityManager && transactionActive,
                                                                     c, versionBefore, versionAfterFlush)]
    {
      if event.OptimisticLockEvent? {
        ProcessEvent(event, transactionActive, c, versionBefore, versionAfterFlush);
      }
    }

    /** processEvent(event): exactly one event is published, carrying the event's source. */
    method ProcessEvent(event: RepositoryEvent, transactionActive: bool, c: ClassInfo,
                        versionBefore: Option<int>, versionAfterFlush: Option<int>)
      modifies this
      ensures |published| == |old(published)| + 1 && published[..|old(published)|] == old(published)
      ensures published[|old(published)|].source == event.source
      ensures published == old(published) + [Published(event.source, hasEntityManager && transactionActive,
                                                      VersioningTest(reading, c), versionBefore, versionAfterFlush)]
      ensures flushes == old(flushes) + (if hasEntityManager && transactionActive then 1 else 0)
      ensures reading == AsWritten ==>
                published[|old(published)|] == PublishedAsWritten(event.source, hasEntityManager && transactionActive,
                                                                  c, versionBefore, versionAfterFlush)
      ensures reading == AsWritten && Compiles(c) ==> published[|old(published)|] == AfterSaveEvent(event.source)
      ensures reading == Corrected ==>
                published[|old(published)|] == PublishedCorrected(event.source, hasEntityManager && transactionActive,
                                                                  c, versionBefore, versionAfterFlush)
    {
      if reading == AsWritten && Compiles(c) {
        VersionNeverOnClass(c);
      }
      if !hasEntityManager || !transactionActive {
        published := published + [AfterSaveEvent(event.source)];
      } else {
        var versioned := VersioningTest(reading, c);
        var oldVersion: Option<int> := None;
        if versioned {
          oldVersion := versionBefore;
        }
        flushes := flushes + 1;
        if versioned {
          var newVersion := versionAfterFlush;
          if (oldVersion.None? && newVersion.Some?) || (oldVersion.Some? && oldVersion != newVersion) {
            published := published + [AfterSaveEvent(event.source)];
          } else {
            // the entity itself was not updated
            published := published + [AfterSaveNoChangeEvent(event.source)];
          }
        } else {
          published := published + [AfterSaveEvent(event.source)];
        }
      }
    }
  }
}
