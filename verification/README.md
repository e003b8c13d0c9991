# metasfresh web UI document engine: identity, caching and policy layer

This project models in Dafny the core of the metasfresh web UI API's document engine. That core is:

- **Document ids.** `DocumentId` is a tagged 32-bit int with a JSON form: `NEW`, `T<n>` for a temporary id, or the decimal value. It comes with a decreasing temporary-id counter.
- **Document cache.** `DocumentsCache` is an insertion-ordered id → document map plus a set of stale ids.
- **Repository status.** `DocumentRepositoryStatus` holds a sticky "staled" flag and the version last seen in the repository.
- **Included collections.** `AbstractDocumentsCollection` decides create/delete permissions with three-valued logic. `HighVolumeIncludedDocumentsCollection` refuses every change.
- **Lookup values.** `LookupValue` covers id normalisation, construction, equality, and integer ↔ string conversion.
- **Field descriptors.** `DocumentFieldDescriptor` covers the value-conversion table `convertToValueClass` and the builder's precedence chains for effective readonly and mandatory logic.
- **Descriptor factory.** The pure decisions of `GridTabVOBasedDocumentEntityDescriptorFactory`: link columns, tab readonly logic, field settings, sort numbers and button actions.
- **SQL repository.** The pure parts of `SqlDocumentRepository`: the WHERE-clause builder, the single-row rule, default seeding at creation, loading, and the window-number counter.
- **Menu tree.** `MenuNode` covers the builder, node ids, filtered deep copy and pre-order iteration.
- **HU editor buffer.** The default query pipeline of `HUEditorViewBuffer`.
- **Views repository.** `ViewsRepository` covers factory and storage registration and lookup, and the create / filter / delete-sticky-filter / get / delete / notify rules.
- **Picking slot storage.** `PickingSlotViewsIndexStorage` composes and decomposes slot view ids and forwards calls to the picking view.
- **Board controller.** From `BoardRestController`: parsing card change events, and the default position of a new card.

The model is functional: entities are datatypes and operations are pure functions, with two methods where the source runs a loop (`CreateBoardCardChangeRequest` and `CreateNewDocument`) and one method, `NoApplicableChangeGivesEmptyRequest`, that states a property of the first. Mutable Java objects become values, and a mutation returns the new value. Collaborators the core calls but does not define become function parameters of the operations that use them. These are:

- logic-expression evaluation;
- the repository's version lookup;
- `DisplayType.toBoolean`;
- date conversion;
- lookup `findById`;
- view factories;
- the string matcher of HU rows.

Java's `null` is `Option.None` where the source's handling of null matters. Exceptions are `Result.Err` values naming the exception.

Shared modules:

- `Wrappers` holds `Option`, `Result` and `Outcome`.
- `JavaLang` holds the Java semantics the core depends on: the 32-bit int range and wrap-around, `Integer.parseInt`, `String.valueOf(int)`, `String.trim` and blank tests, and `String.hashCode`.
- `Seqs` holds filtering, mapping and subsequence facts.
- `Logic` holds the structural logic expressions.
- `ViewIds` holds window and view ids.

Where the code and its documentation disagree, the model follows the code:

- `DocumentsCache.putAll` does not clear staleness.
- `DocumentId.of("")` throws `NullPointerException` rather than a format error.
- The instance `isNew()` of a document id holds only for `-1`, while the static `isNew(int)` holds for every negative value.

## Model

| member | source | states |
|---|---|---|
| DocumentIds.OfString | metasfresh-webui-api/src/main/java/de/metas/ui/web/window/datatypes/DocumentId.java:40-63 | "NEW" parses to the NEW id; null and "" fail with NullPointerException; any other text succeeds exactly when Integer.parseInt accepts it with a leading 'T' read as '-', gives DocumentId.of of that int, and otherwise fails with NumberFormatException on that text |
| DocumentIds.FromNullable | metasfresh-webui-api/src/main/java/de/metas/ui/web/window/datatypes/DocumentId.java:75-82 | null or blank gives no id; otherwise the trimmed text is parsed, failing exactly when that parse fails |
| DocumentIds.FromObject | metasfresh-webui-api/src/main/java/de/metas/ui/web/window/datatypes/DocumentId.java:84-98 | an Integer goes through of(int), a String through of(String), anything else (and null) is IllegalArgumentException |
| DocumentIds.ToJson | metasfresh-webui-api/src/main/java/de/metas/ui/web/window/datatypes/DocumentId.java:126-137 | never empty; "NEW" exactly for the NEW id; starts with 'T' exactly for other negative ids; otherwise exactly the decimal text of the id, which parses back to it; a temporary id is 'T' followed by the text of its 32-bit negation |
| DocumentIds.OfIntKeepsValue | metasfresh-webui-api/src/main/java/de/metas/ui/web/window/datatypes/DocumentId.java:65-73 | of(n) keeps n as its int; of(-1) and of("NEW") are both NEW, and of(n) is NEW exactly for n = -1 |
| DocumentIds.TemporaryPrefixIsMinus | metasfresh-webui-api/src/main/java/de/metas/ui/web/window/datatypes/DocumentId.java:47-62 | a leading 'T' means the same as a leading '-': of("T"+k) == of("-"+k) |
| DocumentIds.TemporaryStringIsNegative | metasfresh-webui-api/src/main/java/de/metas/ui/web/window/datatypes/DocumentId.java:56-62 | "T" followed by the digits of m is the id of(-m), for every m up to 2^31 |
| DocumentIds.JsonRoundTrip | metasfresh-webui-api/src/main/java/de/metas/ui/web/window/datatypes/DocumentId.java:126-137 | of(toJson(of(n))) == of(n) for every 32-bit n except Integer.MIN_VALUE |
| DocumentIds.JsonRoundTripFailsAtMinValue | metasfresh-webui-api/src/main/java/de/metas/ui/web/window/datatypes/DocumentId.java:126-137 | for Integer.MIN_VALUE the JSON form is "T-2147483648", which does not parse back |
| DocumentIds.NewPredicates | metasfresh-webui-api/src/main/java/de/metas/ui/web/window/datatypes/DocumentId.java:167-170 | static isNew(n) holds exactly for n < 0; the instance isNew() implies it, but -1001 shows the converse fails |
| DocumentIds.HashCodeIsInjective | metasfresh-webui-api/src/main/java/de/metas/ui/web/window/datatypes/DocumentId.java:139-160 | hash and equality depend only on the wrapped int, and equal hashes mean equal ids |
| DocumentIds.GenerateTemporaryId | metasfresh-webui-api/src/main/java/de/metas/ui/web/window/datatypes/DocumentId.java:107-110 | the counter is decremented and the new value returned, wrapping from MIN_VALUE to MAX_VALUE |
| DocumentIds.GenerateManyCountsDown | metasfresh-webui-api/src/main/java/de/metas/ui/web/window/datatypes/DocumentId.java:107-110 | k successive calls return current-1, current-2, … while no wrap-around occurs |
| DocumentIds.TemporaryIdsFromStart | metasfresh-webui-api/src/main/java/de/metas/ui/web/window/datatypes/DocumentId.java:38 | from start the ids are -1001, -1002, …: strictly decreasing, all below -1000, never the NEW id |
| DocumentsCaches.Empty | metasfresh-webui-api/src/main/java/de/metas/ui/web/window/model/DocumentsCache.java:46-54 | a new cache holds no documents and nothing is stale |
| DocumentsCaches.IsStaleAny | metasfresh-webui-api/src/main/java/de/metas/ui/web/window/model/DocumentsCache.java:139-142 | isStale() holds exactly when some id is stale |
| DocumentsCaches.Store | metasfresh-webui-api/src/main/java/de/metas/ui/web/window/model/DocumentsCache.java:89-95 | the document is found under its id, other ids are unchanged, staleness is untouched, a new id goes to the end and an existing one keeps its place |
| DocumentsCaches.Put | metasfresh-webui-api/src/main/java/de/metas/ui/web/window/model/DocumentsCache.java:89-95 | put(null) fails; otherwise the document is found under its id and is not stale, and every other id keeps its document and staleness; a known id keeps its place in the order and a new id is appended last |
| DocumentsCaches.PutAll | metasfresh-webui-api/src/main/java/de/metas/ui/web/window/model/DocumentsCache.java:97-113 | an empty collection changes nothing; the stale set is never changed; the previous iteration order is kept as a prefix |
| DocumentsCaches.LastWithId | metasfresh-webui-api/src/main/java/de/metas/ui/web/window/model/DocumentsCache.java:97-113 | the reference definition for putAll: the last document in the collection with a given id, if any |
| DocumentsCaches.PutAllLastWins | metasfresh-webui-api/src/main/java/de/metas/ui/web/window/model/DocumentsCache.java:97-113 | after putAll an id maps to the last document with that id, or keeps its old document when none has it |
| DocumentsCaches.PutAllNewIds | metasfresh-webui-api/src/main/java/de/metas/ui/web/window/model/DocumentsCache.java:97-113 | the ids appended by putAll were not cached before and come from the collection |
| DocumentsCaches.PutAllFirstInsertionOrder | metasfresh-webui-api/src/main/java/de/metas/ui/web/window/model/DocumentsCache.java:97-113 | appended ids are ordered by their first occurrence in the collection |
| DocumentsCaches.RemoveById | metasfresh-webui-api/src/main/java/de/metas/ui/web/window/model/DocumentsCache.java:115-119 | a null id fails; otherwise the id is neither cached nor stale, and every other id is unchanged |
| DocumentsCaches.PutThenRemove | metasfresh-webui-api/src/main/java/de/metas/ui/web/window/model/DocumentsCache.java:115-119 | putting a new document and removing it again restores the cache, except that its id is no longer stale |
| DocumentsCaches.NewEntries | metasfresh-webui-api/src/main/java/de/metas/ui/web/window/model/DocumentsCache.java:121-137 | the entries of the map whose document is new, with their documents |
| DocumentsCaches.ClearAllExceptNewDocuments | metasfresh-webui-api/src/main/java/de/metas/ui/web/window/model/DocumentsCache.java:121-137 | exactly the new documents stay, in their original order, and the stale set is not touched |
| DocumentsCaches.FilterDocuments | metasfresh-webui-api/src/main/java/de/metas/ui/web/window/model/DocumentsCache.java:121-137 | filtering the documents by isNew equals listing the kept ids' documents |
| DocumentsCaches.MarkAllStale | metasfresh-webui-api/src/main/java/de/metas/ui/web/window/model/DocumentsCache.java:149-152 | the stale set gains exactly the cached ids, and documents are unchanged |
| DocumentsCaches.MarkAllNotStale | metasfresh-webui-api/src/main/java/de/metas/ui/web/window/model/DocumentsCache.java:154-157 | nothing is stale afterwards, and documents are unchanged |
| DocumentsCaches.MarkNotStale | metasfresh-webui-api/src/main/java/de/metas/ui/web/window/model/DocumentsCache.java:159-166 | a null id fails; otherwise only that id leaves the stale set |
| DocumentsCaches.Copy | metasfresh-webui-api/src/main/java/de/metas/ui/web/window/model/DocumentsCache.java:56-65 | same ids in the same order, same stale set, each document replaced by its copy |
| DocumentsCaches.SizeCountsIds | metasfresh-webui-api/src/main/java/de/metas/ui/web/window/model/DocumentsCache.java:67-76 | size() equals the number of ids getDocumentIds() lists |
| RepositoryStatuses.CheckStaled | metasfresh-webui-api/src/main/java/de/metas/ui/web/window/model/DocumentRepositoryStatus.java:68-90 | already staled → true and unchanged; new document → false and unchanged; otherwise stale exactly when the remembered version differs from the repository's, which sets the flag |
| RepositoryStatuses.MarkStaled | metasfresh-webui-api/src/main/java/de/metas/ui/web/window/model/DocumentRepositoryStatus.java:92-95 | sets the flag and keeps the version |
| RepositoryStatuses.MarkNotStaled | metasfresh-webui-api/src/main/java/de/metas/ui/web/window/model/DocumentRepositoryStatus.java:97-101 | clears the flag and records the given version |
| RepositoryStatuses.Copy | metasfresh-webui-api/src/main/java/de/metas/ui/web/window/model/DocumentRepositoryStatus.java:44-49 | the copy has the same flag and version |
| RepositoryStatuses.FreshStatus | metasfresh-webui-api/src/main/java/de/metas/ui/web/window/model/DocumentRepositoryStatus.java:35-41 | a fresh status is not staled with no version, so a saved document is stale exactly when the repository reports a version |
| RepositoryStatuses.RepositoryNotConsulted | metasfresh-webui-api/src/main/java/de/metas/ui/web/window/model/DocumentRepositoryStatus.java:70-80 | when staled or new, the result does not depend on the repository |
| RepositoryStatuses.MarkNotStaledThenCheck | metasfresh-webui-api/src/main/java/de/metas/ui/web/window/model/DocumentRepositoryStatus.java:82-101 | after markNotStaled(v), a check against a repository reporting v says not stale and changes nothing |
| RepositoryStatuses.StalenessIsSticky | metasfresh-webui-api/src/main/java/de/metas/ui/web/window/model/DocumentRepositoryStatus.java:70-90 | over any sequence of checks, once one answers true every later one does |
| IncludedCollections.AllowCreateNewDocument | metasfresh-webui-api/src/main/java/de/metas/ui/web/window/model/AbstractDocumentsCollection.java:69-79 | a processed parent gives a definite false without evaluating; otherwise the allow-create logic evaluated on the parent |
| IncludedCollections.AssertNewDocumentAllowed | metasfresh-webui-api/src/main/java/de/metas/ui/web/window/model/AbstractDocumentsCollection.java:58-67 | fails with InvalidDocumentState exactly when the result is a definite false; no-result passes |
| IncludedCollections.CreateNewDocument | metasfresh-webui-api/src/main/java/de/metas/ui/web/window/model/AbstractDocumentsCollection.java:82-90 | checks writability first, then the create permission, and only then returns the repository's new document |
| IncludedCollections.AllowDeleteDocument | metasfresh-webui-api/src/main/java/de/metas/ui/web/window/model/AbstractDocumentsCollection.java:102-112 | a processed parent gives a definite false; otherwise the allow-delete logic |
| IncludedCollections.AssertDeleteDocumentAllowed | metasfresh-webui-api/src/main/java/de/metas/ui/web/window/model/AbstractDocumentsCollection.java:93-100 | fails exactly on a definite false |
| IncludedCollections.CreateSucceedsIff | metasfresh-webui-api/src/main/java/de/metas/ui/web/window/model/AbstractDocumentsCollection.java:58-90 | creation succeeds exactly for a writable, unprocessed parent whose logic is not a definite false; a no-result still creates |
| IncludedCollections.DeleteRefusedIff | metasfresh-webui-api/src/main/java/de/metas/ui/web/window/model/AbstractDocumentsCollection.java:93-112 | deletion is refused exactly when the parent is processed or the logic is a definite false |
| IncludedCollections.ProcessedParentIgnoresLogic | metasfresh-webui-api/src/main/java/de/metas/ui/web/window/model/AbstractDocumentsCollection.java:69-74 | for a processed parent both permissions are the same whatever the logic evaluates to |
| IncludedCollections.HighVolumeCopy | metasfresh-webui-api/src/main/java/de/metas/ui/web/window/model/HighVolumeIncludedDocumentsCollection.java:48-52 | copy returns the same collection for any parent copy and copy mode |
| IncludedCollections.HighVolumeGetDocuments | metasfresh-webui-api/src/main/java/de/metas/ui/web/window/model/HighVolumeIncludedDocumentsCollection.java:55-61 | the documents are those the repository query returns for the parent |
| IncludedCollections.HighVolumeGetDocumentById | metasfresh-webui-api/src/main/java/de/metas/ui/web/window/model/HighVolumeIncludedDocumentsCollection.java:63-77 | the queried row when present; otherwise DocumentNotFound at the parent path extended with (detailId, id) |
| IncludedCollections.HighVolumeAssertNewDocumentAllowed | metasfresh-webui-api/src/main/java/de/metas/ui/web/window/model/HighVolumeIncludedDocumentsCollection.java:79-83 | always fails with OperationNotAllowed |
| IncludedCollections.HighVolumeCreateNewDocument | metasfresh-webui-api/src/main/java/de/metas/ui/web/window/model/HighVolumeIncludedDocumentsCollection.java:85-89 | always fails with OperationNotAllowed |
| IncludedCollections.HighVolumeDeleteDocuments | metasfresh-webui-api/src/main/java/de/metas/ui/web/window/model/HighVolumeIncludedDocumentsCollection.java:91-95 | always fails with OperationNotAllowed, whatever the ids |
| IncludedCollections.HighVolumeCheckAndGetValidStatus | metasfresh-webui-api/src/main/java/de/metas/ui/web/window/model/HighVolumeIncludedDocumentsCollection.java:97-102 | always valid |
| IncludedCollections.HighVolumeHasChangesRecursively | metasfresh-webui-api/src/main/java/de/metas/ui/web/window/model/HighVolumeIncludedDocumentsCollection.java:104-108 | never has changes |
| IncludedCollections.HighVolumeSaveIfHasChanges | metasfresh-webui-api/src/main/java/de/metas/ui/web/window/model/HighVolumeIncludedDocumentsCollection.java:110-114 | saving changes nothing |
| IncludedCollections.HighVolumeMarkStaleAll | metasfresh-webui-api/src/main/java/de/metas/ui/web/window/model/HighVolumeIncludedDocumentsCollection.java:116-120 | marking stale changes nothing |
| IncludedCollections.HighVolumeGetNextLineNo | metasfresh-webui-api/src/main/java/de/metas/ui/web/window/model/HighVolumeIncludedDocumentsCollection.java:122-126 | always fails |
| IncludedCollections.HighVolumeIsReadOnly | metasfresh-webui-api/src/main/java/de/metas/ui/web/window/model/HighVolumeIncludedDocumentsCollection.java:79-95 | the high-volume collection refuses create and delete even where the ordinary rules would allow both |
| LookupValues.NormalizeId | src/main/java/de/metas/ui/web/window/datatypes/LookupValue.java:39-75 | null → null; non-numeric key → toString(); numeric key: a Number's int value, a blank text → null, other text parsed untrimmed (errors propagate), negatives → null |
| LookupValues.NormalizeIsIdempotent | src/main/java/de/metas/ui/web/window/datatypes/LookupValue.java:39-75 | normalising an already normalised id gives it back |
| LookupValues.NormalizeNumberAndText | src/main/java/de/metas/ui/web/window/datatypes/LookupValue.java:46-69 | with a numeric key, an Integer and its decimal text normalise alike |
| LookupValues.NormalizeParsesUntrimmed | src/main/java/de/metas/ui/web/window/datatypes/LookupValue.java:58-69 | " 7" is not blank and its untrimmed parse fails |
| LookupValues.NormalizeBlankIsNull | src/main/java/de/metas/ui/web/window/datatypes/LookupValue.java:58-64 | whitespace-only text normalises to null |
| LookupValues.New | src/main/java/de/metas/ui/web/window/datatypes/LookupValue.java:143-152 | a null id fails; a null display name becomes "" |
| LookupValues.FromObject | src/main/java/de/metas/ui/web/window/datatypes/LookupValue.java:77-91 | null id → null; Integer → integer lookup value; anything else → string lookup value of toString(); the display name is kept |
| LookupValues.EqualityIgnoresDisplayName | src/main/java/de/metas/ui/web/window/datatypes/LookupValue.java:163-187 | equality and hash use only the id; equal values hash alike; an integer and a string lookup value are never equal |
| LookupValues.GetIdAsString | src/main/java/de/metas/ui/web/window/datatypes/LookupValue.java:212-215 | a string id as is; an integer id as decimal text that parses back |
| LookupValues.GetIdAsInt | src/main/java/de/metas/ui/web/window/datatypes/LookupValue.java:248-255 | an integer id as is; a string id parsed, failing with NumberFormatException |
| LookupValues.IdAccessorsAgree | src/main/java/de/metas/ui/web/window/datatypes/LookupValue.java:248-255 | getIdAsInt succeeds exactly when getIdAsString parses, with the same value |
| LookupValues.IntegerOf | src/main/java/de/metas/ui/web/window/datatypes/LookupValue.java:271-278 | null → null; otherwise an integer lookup value with the parsed id and the same display name, failing exactly when the id does not parse |
| LookupValues.StringOf | src/main/java/de/metas/ui/web/window/descriptor/DocumentFieldDescriptor.java:614-620 | an integer lookup value becomes a string one with the same id text and display name |
| LookupValues.IntegerStringRoundTrip | src/main/java/de/metas/ui/web/window/datatypes/LookupValue.java:271-278 | converting an integer lookup value to a string one and back gives the original |
| LookupValues.IntegerUnknown | src/main/java/de/metas/ui/web/window/datatypes/LookupValue.java:280-283 | unknown(id) has that id and the display name "<id>" |
| LookupValues.StringUnknown | src/main/java/de/metas/ui/web/window/datatypes/LookupValue.java:235-240 | unknown(value) has id value and a display name that starts with '<', ends with '>' and holds exactly the value between them; null fails |
| FieldValues.IntValueExact | src/main/java/de/metas/ui/web/window/descriptor/DocumentFieldDescriptor.java:441-477 | BigDecimal.intValueExact: zero is 0; the exact int when the value is integral and in range; more than 19 integer digits overflow before any fraction is checked; RoundingNecessary exactly when a non-zero fraction is met within 19 integer digits |
| FieldValues.RoundExactToInt | src/main/java/de/metas/ui/web/window/descriptor/DocumentFieldDescriptor.java:441-477 | the rounding and range steps of intValueExact: RoundingNecessary exactly for a non-zero fraction; an integral value in range is returned exactly |
| FieldValues.OverflowBeforeRounding | src/main/java/de/metas/ui/web/window/descriptor/DocumentFieldDescriptor.java:441-477 | 100000000000000000000.5 converts with an Overflow, not a rounding failure |
| FieldValues.IntRangeHasFewDigits | src/main/java/de/metas/ui/web/window/descriptor/DocumentFieldDescriptor.java:441-477 | a non-zero value in the int range has at most ten integer digits, so the 19-digit test never rejects it |
| FieldValues.Convert | src/main/java/de/metas/ui/web/window/descriptor/DocumentFieldDescriptor.java:375-632 | null stays null; an assignable value is returned unchanged; every result conforms to the target class; a String target gives toString() of any non-Map |
| FieldValues.ToInteger | src/main/java/de/metas/ui/web/window/descriptor/DocumentFieldDescriptor.java:441-477 | a Number gives its int value, a lookup value its int id (failing as getIdAsInt does); every result is an int |
| FieldValues.IntegerTextRoundTrip | src/main/java/de/metas/ui/web/window/descriptor/DocumentFieldDescriptor.java:441-477 | the decimal text of any int converts back to that int, for Integer and int targets |
| FieldValues.IntegerTextMustBeExact | src/main/java/de/metas/ui/web/window/descriptor/DocumentFieldDescriptor.java:455-466 | "1.5" to Integer fails with the wrapped rounding error |
| FieldValues.IntegerTextZeroFraction | src/main/java/de/metas/ui/web/window/descriptor/DocumentFieldDescriptor.java:455-466 | "1.0" to Integer gives 1 |
| FieldValues.ConvertToIntegerTarget | src/main/java/de/metas/ui/web/window/descriptor/DocumentFieldDescriptor.java:441-477 | a non-Integer value to an Integer target is the Integer conversion rule |
| FieldValues.ParseOneDecimal | src/main/java/de/metas/ui/web/window/descriptor/DocumentFieldDescriptor.java:479-495 | "1.d" parses to the decimal 1.d with scale 1 |
| FieldValues.EmptyStringConversions | src/main/java/de/metas/ui/web/window/descriptor/DocumentFieldDescriptor.java:441-495 | "" gives null for Integer and lookup targets, and zero for BigDecimal |
| FieldValues.IntegerDecimalRoundTrip | src/main/java/de/metas/ui/web/window/descriptor/DocumentFieldDescriptor.java:441-495 | Integer → BigDecimal keeps the value, and converting back gives the int |
| FieldValues.LookupTargetNeedsSource | src/main/java/de/metas/ui/web/window/descriptor/DocumentFieldDescriptor.java:516-620 | a non-empty string or a number cannot become a lookup value without a lookup source |
| FieldValues.LookupByText | src/main/java/de/metas/ui/web/window/descriptor/DocumentFieldDescriptor.java:570-589 | with a source, a string becomes the lookup value the source finds for it, or null when none |
| FieldValues.LookupKindRoundTrip | src/main/java/de/metas/ui/web/window/descriptor/DocumentFieldDescriptor.java:590-620 | integer ↔ string lookup conversion keeps the id and display name and round-trips |
| FieldValues.TimestampBecomesDate | src/main/java/de/metas/ui/web/window/descriptor/DocumentFieldDescriptor.java:400-416 | a Timestamp is assignable to Date but is still normalised into a Date |
| FieldDescriptors.NewBuilder | src/main/java/de/metas/ui/web/window/descriptor/DocumentFieldDescriptor.java:683-688 | an empty field name fails; otherwise a builder with the documented defaults and nothing built |
| FieldDescriptors.Apply | src/main/java/de/metas/ui/web/window/descriptor/DocumentFieldDescriptor.java:711-717 | a guarded setter fails with "Already built" exactly when the descriptor was built; field name and built descriptor never change |
| FieldDescriptors.GetValueClass | src/main/java/de/metas/ui/web/window/descriptor/DocumentFieldDescriptor.java:932-941 | the explicit value class, else the widget type's, failing when there is no widget type |
| FieldDescriptors.BuildReadonlyLogicEffective | src/main/java/de/metas/ui/web/window/descriptor/DocumentFieldDescriptor.java:1028-1091 | the first matching rule decides: always-readonly → TRUE, DocumentNo/DocAction → FALSE, readonly by field → TRUE |
| FieldDescriptors.ReadonlyFallsBackToEntityOrField | src/main/java/de/metas/ui/web/window/descriptor/DocumentFieldDescriptor.java:1075-1091 | when no rule applies, effective readonly holds exactly when the entity or the field logic holds |
| FieldDescriptors.ReadonlyEffectiveIsAtLeastDeclared | src/main/java/de/metas/ui/web/window/descriptor/DocumentFieldDescriptor.java:1028-1091 | unless a special editable field applies, a field readonly by its own or the entity's logic stays readonly |
| FieldDescriptors.BuildMandatoryLogicEffective | src/main/java/de/metas/ui/web/window/descriptor/DocumentFieldDescriptor.java:1170-1223 | parent link in a detail → TRUE; never-mandatory or hidden-optional → FALSE; DocumentNo → TRUE |
| FieldDescriptors.MandatoryEffectiveAgainstDeclared | src/main/java/de/metas/ui/web/window/descriptor/DocumentFieldDescriptor.java:1170-1223 | effective mandatory only adds the parent-link and DocumentNo cases, and keeps declared mandatory unless an exclusion applies |
| FieldDescriptors.IsPossiblePublicField | src/main/java/de/metas/ui/web/window/descriptor/DocumentFieldDescriptor.java:1129-1146 | every field may be public except a non-key field whose display logic is constant false |
| FieldDescriptors.IsSupportZoomInto | src/main/java/de/metas/ui/web/window/descriptor/DocumentFieldDescriptor.java:1295-1325 | a key always supports zoom; otherwise no widget type fails, and zoom is supported exactly when the widget does, the value class is not a string lookup and the lookup table is not AD_Ref_List |
| FieldDescriptors.Build | src/main/java/de/metas/ui/web/window/descriptor/DocumentFieldDescriptor.java:140-177 | the descriptor carries the effective readonly and mandatory logic, the value class and the zoom flag; it fails without a widget type |
| FieldDescriptors.GetOrBuild | src/main/java/de/metas/ui/web/window/descriptor/DocumentFieldDescriptor.java:702-709 | builds once and then returns the same descriptor |
| FieldDescriptors.BuiltDescriptorIsFrozen | src/main/java/de/metas/ui/web/window/descriptor/DocumentFieldDescriptor.java:702-717 | after building, later settings never change the descriptor, and a guarded setter fails |
| FieldDescriptors.FrozenSteps | src/main/java/de/metas/ui/web/window/descriptor/DocumentFieldDescriptor.java:711-717 | any run of settings keeps the built descriptor, and fails if one is guarded |
| GridTabFactory.ExtractTabReadonlyLogic | src/main/java/de/metas/ui/web/window/descriptor/factory/standard/GridTabVOBasedDocumentEntityDescriptorFactory.java:115-138 | a view or read-only tab gives TRUE; otherwise the tab's own logic |
| GridTabFactory.TabLogicMeaning | src/main/java/de/metas/ui/web/window/descriptor/factory/standard/GridTabVOBasedDocumentEntityDescriptorFactory.java:115-168 | tab readonly holds exactly for a view, a read-only tab or its logic; allowCreate = insert allowed and not readonly; allowDelete = delete allowed and not readonly |
| GridTabFactory.ParentLinkColumnName | src/main/java/de/metas/ui/web/window/descriptor/factory/standard/GridTabVOBasedDocumentEntityDescriptorFactory.java:452-471 | the parent column is Parent_Column_ID's name, falling back to the parent's key column |
| GridTabFactory.ExtractChildParentLinkColumnNames | src/main/java/de/metas/ui/web/window/descriptor/factory/standard/GridTabVOBasedDocumentEntityDescriptorFactory.java:452-494 | a pair exists exactly with a parent tab, a parent column, and one link column or a link column named like the parent's; with several it is (parent, parent) |
| GridTabFactory.ExtractButtonAction | src/main/java/de/metas/ui/web/window/descriptor/factory/standard/GridTabVOBasedDocumentEntityDescriptorFactory.java:391-423 | a process on DocAction or Processing gives no action; other processes a process call; without a process, the generic zoom-into action exactly when there is a table name and a zoom target, and none otherwise |
| GridTabFactory.ExtractAlwaysUpdateable | src/main/java/de/metas/ui/web/window/descriptor/factory/standard/GridTabVOBasedDocumentEntityDescriptorFactory.java:506-520 | always updateable exactly when not virtual, updateable, and DocAction or flagged |
| GridTabFactory.OrderBySortNo | src/main/java/de/metas/ui/web/window/descriptor/factory/standard/GridTabVOBasedDocumentEntityDescriptorFactory.java:326-330 | a key column with SortNo 0 sorts as Integer.MAX_VALUE; every other column by its SortNo |
| GridTabFactory.KeyWithoutSortNoSortsLast | src/main/java/de/metas/ui/web/window/descriptor/factory/standard/GridTabVOBasedDocumentEntityDescriptorFactory.java:326-330 | such a key column sorts after every other column |
| GridTabFactory.DictionaryReadonlyLogic | src/main/java/de/metas/ui/web/window/descriptor/factory/standard/GridTabVOBasedDocumentEntityDescriptorFactory.java:284-297 | read-only → TRUE; not updateable and not a parent link → FALSE; otherwise the field's logic |
| GridTabFactory.CreateFieldSettings | src/main/java/de/metas/ui/web/window/descriptor/factory/standard/GridTabVOBasedDocumentEntityDescriptorFactory.java:239-330 | a parent-link column is an Integer, readonly, without default; any other field's action is extractButtonFieldActionDescriptor's result when its widget is a button and none otherwise; a zoom button is never readonly; button widgets and actions agree; sort number and mandatory logic as the dictionary says |
| GridTabFactory.ProcessFieldBecomesProcessButton | src/main/java/de/metas/ui/web/window/descriptor/factory/standard/GridTabVOBasedDocumentEntityDescriptorFactory.java:300-310 | a button field with a process, other than DocAction and Processing, becomes a process button calling that process |
| GridTabFactory.ReadonlyFieldStaysReadonly | src/main/java/de/metas/ui/web/window/descriptor/factory/standard/GridTabVOBasedDocumentEntityDescriptorFactory.java:284-316 | a read-only field is readonly unless it became a zoom-into button |
| GridTabFactory.DocActionIsNoProcessButton | src/main/java/de/metas/ui/web/window/descriptor/factory/standard/GridTabVOBasedDocumentEntityDescriptorFactory.java:394-402 | DocAction and Processing never get a process button |
| SqlRepository.Conditions | metasfresh-webui-api/src/main/java/de/metas/ui/web/window/model/sql/SqlDocumentRepository.java:191-229 | a key condition exactly when a record id is given (failing without key column), then a parent-link condition exactly when a parent link column exists |
| SqlRepository.JoinConditions | metasfresh-webui-api/src/main/java/de/metas/ui/web/window/model/sql/SqlDocumentRepository.java:207-226 | the joined text is empty exactly when there is no condition |
| SqlRepository.BuildSqlWhereClause | metasfresh-webui-api/src/main/java/de/metas/ui/web/window/model/sql/SqlDocumentRepository.java:191-229 | fails exactly for a record id without key column |
| SqlRepository.WhereClauseIsJoinedConditions | metasfresh-webui-api/src/main/java/de/metas/ui/web/window/model/sql/SqlDocumentRepository.java:191-229 | the clause is the conditions joined with "\n AND " and the parameters are theirs, in order |
| SqlRepository.JoinedPlaceholders | metasfresh-webui-api/src/main/java/de/metas/ui/web/window/model/sql/SqlDocumentRepository.java:207-226 | the joined text has one '?' per condition |
| SqlRepository.PlaceholdersMatchParameters | metasfresh-webui-api/src/main/java/de/metas/ui/web/window/model/sql/SqlDocumentRepository.java:191-229 | one parameter per '?', the record id first and the parent link id last |
| SqlRepository.BuildSql | metasfresh-webui-api/src/main/java/de/metas/ui/web/window/model/sql/SqlDocumentRepository.java:157-170 | the SELECT text, followed by "\n WHERE " and the clause when the clause is not empty |
| SqlRepository.BareSelectIffNoCondition | metasfresh-webui-api/src/main/java/de/metas/ui/web/window/model/sql/SqlDocumentRepository.java:157-229 | the SQL is the bare SELECT, with no parameters, exactly when there is neither record id nor parent link |
| SqlRepository.RetrieveDocument | metasfresh-webui-api/src/main/java/de/metas/ui/web/window/model/sql/SqlDocumentRepository.java:106-124 | 0 rows → null, 1 row → that row, more → DBMoreThenOneRecordsFoundException |
| SqlRepository.NextWindowNo | metasfresh-webui-api/src/main/java/de/metas/ui/web/window/model/sql/SqlDocumentRepository.java:129 | incrementAndGet: the counter plus one, wrapping at MAX_VALUE |
| SqlRepository.TakeWindowNosCountsUp | metasfresh-webui-api/src/main/java/de/metas/ui/web/window/model/sql/SqlDocumentRepository.java:64 | successive window numbers count up by one |
| SqlRepository.WindowNosFromStart | metasfresh-webui-api/src/main/java/de/metas/ui/web/window/model/sql/SqlDocumentRepository.java:64 | the first window number is 2, and they strictly increase |
| SqlRepository.MakeNotNull | metasfresh-webui-api/src/main/java/de/metas/ui/web/window/model/sql/SqlDocumentRepository.java:138-147 | null becomes the null marker, any other value is kept |
| SqlRepository.CreateNewDocument | metasfresh-webui-api/src/main/java/de/metas/ui/web/window/model/sql/SqlDocumentRepository.java:127-155 | takes the next window number; each field with a default is seeded with value = initial value = that default, a failing default is skipped; dependencies are updated once |
| SqlRepository.LoadFields | metasfresh-webui-api/src/main/java/de/metas/ui/web/window/model/sql/SqlDocumentRepository.java:239-253 | each loaded field's value and initial value are the retrieved value made not-null |
| SqlRepository.LoadDocument | metasfresh-webui-api/src/main/java/de/metas/ui/web/window/model/sql/SqlDocumentRepository.java:231-262 | a loaded document takes the next window number; each field's value and initial value are makeNotNull of the retrieved value; nothing else changes |
| MenuNodes.NodeId | src/main/java/de/metas/ui/web/menu/MenuNode.java:354-376 | a negative AD_Menu_ID fails; a NewRecord node's id is the decimal id plus "-new", any other node's the decimal id |
| MenuNodes.NodeIdIsInjective | src/main/java/de/metas/ui/web/menu/MenuNode.java:365-376 | two ids are equal exactly when the menu ids are and both or neither are NewRecord nodes |
| MenuNodes.SetAdMenuId | src/main/java/de/metas/ui/web/menu/MenuNode.java:348-352 | records the menu id |
| MenuNodes.SetTypeGroup | src/main/java/de/metas/ui/web/menu/MenuNode.java:397-402 | the type becomes Group with no element id |
| MenuNodes.AddChildToFirstsList | src/main/java/de/metas/ui/web/menu/MenuNode.java:404-409 | null fails; otherwise appended to the first children |
| MenuNodes.AddChild | src/main/java/de/metas/ui/web/menu/MenuNode.java:411-416 | null fails; otherwise appended to the other children |
| MenuNodes.AddChildren | src/main/java/de/metas/ui/web/menu/MenuNode.java:418-427 | null changes nothing; otherwise all appended in order |
| MenuNodes.Build | src/main/java/de/metas/ui/web/menu/MenuNode.java:84-111 | fails without a menu id, or for a non-group with children; otherwise the node with its id, fields and children first-list then rest, not matched |
| MenuNodes.FirstsListComesFirst | src/main/java/de/metas/ui/web/menu/MenuNode.java:404-416 | a child added to the first list precedes one added earlier to the rest |
| MenuNodes.BuiltNonGroupIsLeaf | src/main/java/de/metas/ui/web/menu/MenuNode.java:105-109 | a built node that is not a group is a leaf |
| MenuNodes.EqualNodesHashAlike | src/main/java/de/metas/ui/web/menu/MenuNode.java:148-176 | equal nodes (same id) have equal hashes |
| MenuNodes.CountAccepted | src/main/java/de/metas/ui/web/menu/MenuNode.java:256-292 | zero exactly when no kept child resolved as Accept or AcceptIfHasChildren |
| MenuNodes.DeepCopy0 | src/main/java/de/metas/ui/web/menu/MenuNode.java:244-297 | Reject drops the node; Accept and AcceptIfParentIsAccepted keep it; AcceptIfHasChildren keeps it exactly when an accepted child was kept; the copy has the kept children and is matched exactly on Accept |
| MenuNodes.CopyChildren | src/main/java/de/metas/ui/web/menu/MenuNode.java:256-276 | no kept child was rejected, and no more are kept than there were |
| MenuNodes.DeepCopy | src/main/java/de/metas/ui/web/menu/MenuNode.java:238-242 | a rejected node gives null; a copy keeps id, type and caption and is matched exactly on Accept |
| MenuNodes.CopyChildrenIsSubsequence | src/main/java/de/metas/ui/web/menu/MenuNode.java:256-276 | the kept children's ids are an order-preserving subsequence of the original ones |
| MenuNodes.CopiedChildrenAreSubsequence | src/main/java/de/metas/ui/web/menu/MenuNode.java:256-296 | a copied node's children are an order-preserving subsequence of the original's |
| MenuNodes.NoAcceptedChildren | src/main/java/de/metas/ui/web/menu/MenuNode.java:256-292 | children that are all rejected or AcceptIfParentIsAccepted count as no accepted child |
| MenuNodes.AcceptIfHasChildrenNeedsAcceptedChild | src/main/java/de/metas/ui/web/menu/MenuNode.java:278-292 | an AcceptIfHasChildren node without an accepted child is dropped |
| MenuNodes.LeafCopy | src/main/java/de/metas/ui/web/menu/MenuNode.java:244-297 | a leaf is kept exactly on Accept or AcceptIfParentIsAccepted, and stays a leaf |
| MenuNodes.Iterate | src/main/java/de/metas/ui/web/menu/MenuNode.java:229-236 | the node itself is visited first |
| MenuNodes.IterateFromSplits | src/main/java/de/metas/ui/web/menu/MenuNode.java:229-236 | the visit of the children splits at each child |
| MenuNodes.IterateIsPreOrder | src/main/java/de/metas/ui/web/menu/MenuNode.java:229-236 | each child's whole subtree is visited as one block after the node and the earlier children's subtrees |
| MenuNodes.IterateLeaf | src/main/java/de/metas/ui/web/menu/MenuNode.java:229-236 | a node is a leaf exactly when iterating visits only itself |
| HUEditorViewBuffers.FilterByRowType | src/main/java/de/metas/ui/web/handlingunits/HUEditorViewBuffer.java:73-78 | keeps exactly the rows of the given type, in order; no type keeps all |
| HUEditorViewBuffers.FilterByString | src/main/java/de/metas/ui/web/handlingunits/HUEditorViewBuffer.java:80-85 | a blank filter keeps all; otherwise exactly the rows that match it, in order |
| HUEditorViewBuffers.FilterByExcludedHUs | src/main/java/de/metas/ui/web/handlingunits/HUEditorViewBuffer.java:87-92 | keeps exactly the rows whose HU is not excluded, in order |
| HUEditorViewBuffers.StreamAllRecursive | src/main/java/de/metas/ui/web/handlingunits/HUEditorViewBuffer.java:69-95 | a row is in the result exactly when it is streamed and passes all three tests |
| HUEditorViewBuffers.StreamIsSubsequence | src/main/java/de/metas/ui/web/handlingunits/HUEditorViewBuffer.java:69-95 | the result is an order-preserving subsequence of all rows |
| HUEditorViewBuffers.NeutralQueryKeepsAll | src/main/java/de/metas/ui/web/handlingunits/HUEditorViewBuffer.java:73-92 | no type, a blank filter and no exclusions keep every row |
| HUEditorViewBuffers.MatchesAnyIffSomeRowPasses | src/main/java/de/metas/ui/web/handlingunits/HUEditorViewBuffer.java:98-101 | matchesAnyRowRecursive holds exactly when some row passes the query |
| HUEditorViewBuffers.SelectByIds | src/main/java/de/metas/ui/web/handlingunits/HUEditorViewBuffer.java:104-117 | every returned row is requested and occurs in the tree |
| HUEditorViewBuffers.SelectedRowsExcludeIncludedRows | src/main/java/de/metas/ui/web/handlingunits/HUEditorViewBuffer.java:104-117 | in a tree with unique row ids, no returned row is included at any depth in another returned row |
| HUEditorViewBuffers.RequestedRowsAreCovered | src/main/java/de/metas/ui/web/handlingunits/HUEditorViewBuffer.java:104-117 | every requested row is returned or included in a returned row |
| HUEditorViewBuffers.SelectionExample | src/main/java/de/metas/ui/web/handlingunits/HUEditorViewBuffer.java:104-117 | the documented example: with 1 ⊃ 2 ⊃ 3, asking for {1, 3} returns 1 and asking for {3} returns 3 |
| ViewIds.GetPart | src/main/java/de/metas/ui/web/picking/PickingSlotViewsIndexStorage.java:113 | part 0 is the window id, part 1 the view id part, and a part exists exactly below the number of parts |
| ViewIds.PartsRoundTrip | src/main/java/de/metas/ui/web/picking/PickingSlotViewsIndexStorage.java:102 | the parts given to ofParts are read back in order |
| ViewsRepositories.EffectiveViewTypes | src/main/java/de/metas/ui/web/view/ViewsRepository.java:130-134 | an annotation naming no view type stands for all of them |
| ViewsRepositories.RegisterOne | src/main/java/de/metas/ui/web/view/ViewsRepository.java:119-141 | an unannotated factory is skipped; otherwise it replaces whatever was under each of its keys, and no other key changes |
| ViewsRepositories.RegisteredIff | src/main/java/de/metas/ui/web/view/ViewsRepository.java:116-142 | a key is registered exactly when it was before or some factory registers it |
| ViewsRepositories.LastRegistrationWins | src/main/java/de/metas/ui/web/view/ViewsRepository.java:116-142 | the last factory registered under a key is the one kept |
| ViewsRepositories.UnregisteredKeyKeepsFactory | src/main/java/de/metas/ui/web/view/ViewsRepository.java:116-142 | a key no factory registers keeps its factory |
| ViewsRepositories.NoNullViewTypeKeys | src/main/java/de/metas/ui/web/view/ViewsRepository.java:116-142 | nothing is ever registered under a null view type |
| ViewsRepositories.GetFactory | src/main/java/de/metas/ui/web/view/ViewsRepository.java:144-159 | the exact key, then the window with a null type, then the default factory |
| ViewsRepositories.WindowFallbackNeverApplies | src/main/java/de/metas/ui/web/view/ViewsRepository.java:116-159 | after annotation registration, a missing exact key falls to the default factory |
| ViewsRepositories.RegisterStorages | src/main/java/de/metas/ui/web/view/ViewsRepository.java:167-191 | default storages are skipped; registration fails exactly when some other storage has no window id, naming the first such storage, and keeps what was registered before it |
| ViewsRepositories.RegisteredWindowsIff | src/main/java/de/metas/ui/web/view/ViewsRepository.java:167-191 | a window has a storage after registration exactly when it had one or a storage ahead of the first failure names it |
| ViewsRepositories.LastStorageWins | src/main/java/de/metas/ui/web/view/ViewsRepository.java:175-190 | the last storage ahead of the first failure naming a window is the one registered for it |
| ViewsRepositories.UntouchedWindowKeepsStorage | src/main/java/de/metas/ui/web/view/ViewsRepository.java:175-190 | a window no storage ahead of the first failure names keeps its storage |
| ViewsRepositories.GetViewsStorageFor | src/main/java/de/metas/ui/web/view/ViewsRepository.java:193-202 | the storage registered for the view's window, else the default storage |
| ViewsRepositories.Put | src/main/java/de/metas/ui/web/view/ViewsRepository.java:240-244 | storing a view changes no registration and keeps each view under its own id |
| ViewsRepositories.GetViewIfExists | src/main/java/de/metas/ui/web/view/ViewsRepository.java:320-333 | the view when its storage holds it, otherwise EntityNotFoundException; never null |
| ViewsRepositories.PutThenGet | src/main/java/de/metas/ui/web/view/ViewsRepository.java:320-333 | a stored view is found under its id, and other lookups are unchanged |
| ViewsRepositories.CreateView | src/main/java/de/metas/ui/web/view/ViewsRepository.java:229-246 | a null from the factory fails; otherwise the factory's view, found afterwards under its id |
| ViewsRepositories.DeriveView | src/main/java/de/metas/ui/web/view/ViewsRepository.java:248-306 | an unknown view fails; for a found view the view's factory is asked: null fails, otherwise its view is returned, stored when it is a different object and not stored when it is the same; in a repository that keeps each view under its own id that invariant is kept and the result is found under its id |
| ViewsRepositories.FilterView | src/main/java/de/metas/ui/web/view/ViewsRepository.java:248-277 | an unknown view fails; for a found view the factory's filterView result is returned, null fails, a different object is stored and the same one is not; the result is found under its id in a repository that keeps each view under its own id |
| ViewsRepositories.DeleteStickyFilter | src/main/java/de/metas/ui/web/view/ViewsRepository.java:278-306 | an unknown view fails; for a found view the factory's deleteStickyFilter result is returned, null fails, a different object is stored and the same one is not; the result is found under its id in a repository that keeps each view under its own id |
| ViewsRepositories.SameViewIsNotStoredAgain | src/main/java/de/metas/ui/web/view/ViewsRepository.java:262-270 | when the factory returns the current view, nothing is stored |
| ViewsRepositories.DeleteView | src/main/java/de/metas/ui/web/view/ViewsRepository.java:335-339 | the view is gone and every other view stays |
| ViewsRepositories.NotifyRecordsChanged | src/main/java/de/metas/ui/web/view/ViewsRepository.java:347-368 | an empty set notifies no view; otherwise exactly the views streamed by the default storage and by the registered storages that stream their views |
| ViewsRepositories.NonStreamingStorageIsNotNotified | src/main/java/de/metas/ui/web/view/ViewsRepository.java:204-208 | a view held only by storages that stream nothing, like the picking-slot storage, is never notified |
| PickingSlotViews.GetWindowId | src/main/java/de/metas/ui/web/picking/PickingSlotViewsIndexStorage.java:75-79 | always the picking-slot window, never the picking window |
| PickingSlotViews.CreateViewId | src/main/java/de/metas/ui/web/picking/PickingSlotViewsIndexStorage.java:92-103 | fails exactly when the view is not a picking view; otherwise the slot window with parts (view id part, row id JSON) |
| PickingSlotViews.ExtractPickingViewId | src/main/java/de/metas/ui/web/picking/PickingSlotViewsIndexStorage.java:105-109 | the picking window with the same view id part |
| PickingSlotViews.ExtractRowId | src/main/java/de/metas/ui/web/picking/PickingSlotViewsIndexStorage.java:111-115 | part 2 parsed as a document id, failing as that parse fails; a missing part is a null string |
| PickingSlotViews.SlotViewIdRoundTrip | src/main/java/de/metas/ui/web/picking/PickingSlotViewsIndexStorage.java:92-115 | a slot view id leads back to its picking view and to its row, for every row id but Integer.MIN_VALUE |
| PickingSlotViews.MinValueRowIdIsLost | src/main/java/de/metas/ui/web/picking/PickingSlotViewsIndexStorage.java:111-115 | the row id Integer.MIN_VALUE does not survive |
| PickingSlotViews.Resolve | src/main/java/de/metas/ui/web/picking/PickingSlotViewsIndexStorage.java:111-122 | succeeds exactly when the picking view exists and the row id parses; a missing picking view is reported before an invalid row id |
| PickingSlotViews.Put | src/main/java/de/metas/ui/web/picking/PickingSlotViewsIndexStorage.java:81-90 | the picking view keeps the slot view for the row; nothing else changes |
| PickingSlotViews.GetById | src/main/java/de/metas/ui/web/picking/PickingSlotViewsIndexStorage.java:124-153 | an unresolvable id fails as the resolution does; the row's slot view if present; otherwise EntityNotFound when the picking view has no such row, else a created one, which is then stored |
| PickingSlotViews.GetIfPresent | src/main/java/de/metas/ui/web/picking/PickingSlotViewsIndexStorage.java:154-157 | the row's slot view, or null |
| PickingSlotViews.RemoveById | src/main/java/de/metas/ui/web/picking/PickingSlotViewsIndexStorage.java:160-165 | the picking view drops the row's slot view and nothing else changes; an invalid row id is reported before a missing picking view |
| PickingSlotViews.StreamAllViews | src/main/java/de/metas/ui/web/picking/PickingSlotViewsIndexStorage.java:182-187 | always empty |
| PickingSlotViews.PutThenGet | src/main/java/de/metas/ui/web/picking/PickingSlotViewsIndexStorage.java:124-153 | a stored slot view is found again without creating another |
| PickingSlotViews.RemoveThenGetIfPresent | src/main/java/de/metas/ui/web/picking/PickingSlotViewsIndexStorage.java:154-165 | after removal the row has no slot view |
| PickingSlotViews.GetByIdIsIdempotent | src/main/java/de/metas/ui/web/picking/PickingSlotViewsIndexStorage.java:131-153 | a second lookup returns the view the first created and changes nothing |
| Boards.DescribesStep | src/main/java/de/metas/ui/web/board/BoardRestController.java:151-166 | one more event leaves each property at the value of the last event that replaces it |
| Boards.CreateBoardCardChangeRequest | src/main/java/de/metas/ui/web/board/BoardRestController.java:143-169 | an empty list fails with "no changes requested"; otherwise laneId and position are the integer value (default -1) of the last replace of that path, and unset when none |
| Boards.NoApplicableChangeGivesEmptyRequest | src/main/java/de/metas/ui/web/board/BoardRestController.java:150-168 | a non-empty list without a replace of a known path gives a request with nothing set |
| Boards.AddCardPosition | src/main/java/de/metas/ui/web/board/BoardRestController.java:114 | the requested position, or Integer.MAX_VALUE when none |

## Left out

- Database access is not modelled: JDBC result-set reading, LOB handling and SecureEngine decryption in the SQL repository are I/O and foreign calls. Rows are parameters.
- Logic expressions are structural. Compilation and evaluation against a document are a parameter, and no simplification of `or`/`and` is modelled.
- The conversion of a JSON value to an integer in `JSONDocumentChangedEvent` is outside the core. An event carries its converted value, or none.
- Date parsing, `DisplayType.toBoolean`, JSON lookup-map decoding and `LookupValueByIdSupplier.findById` are parameters.
- Timestamp → Date is kept only as an abstract case.
- BigDecimal parsing accepts ASCII digits only, and decimals are (unscaled, scale) pairs.
- JavaLang.ParseInt: accepts only the ASCII digits '0'-'9'. `Integer.parseInt` also accepts the other Unicode decimal digits that `Character.digit` knows; those inputs are not modelled.
- Document, DocumentFieldDependencyMap, DocumentPath, LogicExpressionResult and BoardCardChangeRequest are not shown in the source. They are modelled only as far as the core uses them.
- ViewId is modelled as its parts; `ofViewIdString` parsing is not part of this model.
- Concurrency is left out: the AtomicInteger counters are sequential counters, and ConcurrentHashMap is a plain map.
- The `@Async` fan-out of `notifyRecordsChanged` is reduced to the set of views notified.
- The window-access permission check in `getViewIfExists`, and `invalidateView`, are left out: they need the user session and the view change collector.
- The picking view constants `WINDOWID_PickingView` and `WINDOWID_PickingSlotView` are not shown. They are distinct symbolic constants here.
- The view that `PickingSlotViewFactory` creates is a parameter.
- `streamByIdsExcludingIncludedRows` has no implementation in the source. Its documented contract is modelled as a reference selection over the row tree.
- MenuNodes.HashCode: no contract of its own. Its agreement with equality is stated by EqualNodesHashAlike.
- DocumentsCaches.PutAll: its last-wins and order properties are stated by separate lemmas rather than in its contract.
- ViewsRepositories.FilterView: states that the view is found under its id only for repositories that store each view under its own id. Consistent states that invariant, and every operation here preserves it.
- ViewsRepositories.DeriveView: the same condition on Consistent as FilterView.
- ViewsRepositories.DeleteStickyFilter: the same condition on Consistent as FilterView.
- ViewsRepositories.NotifyRecordsChanged: a registered storage is modelled as the map of views it holds plus whether it streams them. How the picking-slot storage delegates to its picking views and creates slot views on demand is modelled separately, in PickingSlotViews.
- Logging is left out: the logger calls in the views repository, the documents cache and the factories have no effect on results.
- MenuNodes: the parent back-pointer of a menu node is not modelled. Nodes are values built bottom-up, and no operation modelled here reads the parent.
- Spring wiring and REST glue are not modelled: the rest of the board controller, user sessions and DTOs.
