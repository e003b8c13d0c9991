/** The policies of the included-document collections of a parent document:
    the create/delete permission check shared by the cached collections
    (AbstractDocumentsCollection), and the fixed capability table of the
    high-volume collection, which never holds documents in memory. */
module IncludedCollections {
  import opened Wrappers
  import opened DocumentIds
  import opened Logic

  /** DocumentPath, kept structural: a root, or a parent path extended with
      one (detail id, document id) step. */
  datatype DocumentPath =
    | RootPath(root: string)
    | ChildPath(parent: DocumentPath, detailId: string, documentId: DocumentId)

  /** The parent document, as far as the collections look at it. */
  datatype ParentDocument = ParentDocument(path: DocumentPath, processed: bool, writable: bool)

  datatype CollectionError =
    | NotWritable                                 // thrown by the parent's assertWritable()
    | InvalidDocumentState(reason: LogicResult)   // InvalidDocumentStateException
    | OperationNotAllowed(message: string)        // OperationNotAllowedException
    | DocumentNotFound(path: DocumentPath)        // DocumentNotFoundException

  /** The result used instead of evaluating any logic when the parent is processed. */
  const PARENT_DOCUMENT_PROCESSED: LogicResult := NamedConstant("ParentDocumentProcessed", false)

  // ---------------------------------------------------------------------------
  // AbstractDocumentsCollection

  /** `getAllowCreateNewDocument()`; `evalCreate` evaluates the descriptor's
      allowCreateNewLogic against the parent with ReturnNoResult. */
  function AllowCreateNewDocument(parent: ParentDocument, evalCreate: ParentDocument -> LogicResult): (r: LogicResult)
    ensures parent.processed ==> r == PARENT_DOCUMENT_PROCESSED && IsFalse(r)
    ensures !parent.processed ==> r == evalCreate(parent)
  {
    if parent.processed then PARENT_DOCUMENT_PROCESSED else evalCreate(parent)
  }

  /** `assertNewDocumentAllowed()`: throws only on a definite false. */
  function AssertNewDocumentAllowed(parent: ParentDocument, evalCreate: ParentDocument -> LogicResult): (r: Outcome<CollectionError>)
    ensures r.Fail? <==> IsFalse(AllowCreateNewDocument(parent, evalCreate))
    ensures r.Fail? ==> r.error == InvalidDocumentState(AllowCreateNewDocument(parent, evalCreate))
  {
    var allow := AllowCreateNewDocument(parent, evalCreate);
    if IsFalse(allow) then Fail(InvalidDocumentState(allow)) else Pass
  }

  /** `createNewDocument()`: the parent must be writable, then creating must be
      allowed; only then is the repository asked to create the document. */
  function CreateNewDocument<D>(parent: ParentDocument, evalCreate: ParentDocument -> LogicResult,
                                createInRepository: ParentDocument -> D): (r: Result<D, CollectionError>)
    ensures !parent.writable ==> r == Err(NotWritable)
    ensures parent.writable && IsFalse(AllowCreateNewDocument(parent, evalCreate)) ==>
              r == Err(InvalidDocumentState(AllowCreateNewDocument(parent, evalCreate)))
    ensures r.Ok? ==> r.value == createInRepository(parent)
  {
    if !parent.writable then Err(NotWritable)
    else
      var allowed := AssertNewDocumentAllowed(parent, evalCreate);
      if allowed.Fail? then Err(allowed.error) else Ok(createInRepository(parent))
  }

  /** `getAllowDeleteDocument()`. */
  function AllowDeleteDocument(parent: ParentDocument, evalDelete: ParentDocument -> LogicResult): (r: LogicResult)
    ensures parent.processed ==> r == PARENT_DOCUMENT_PROCESSED && IsFalse(r)
    ensures !parent.processed ==> r == evalDelete(parent)
  {
    if parent.processed then PARENT_DOCUMENT_PROCESSED else evalDelete(parent)
  }

  /** `assertDeleteDocumentAllowed(document)`: throws only on a definite false. */
  function AssertDeleteDocumentAllowed(parent: ParentDocument, evalDelete: ParentDocument -> LogicResult): (r: Outcome<CollectionError>)
    ensures r.Fail? <==> IsFalse(AllowDeleteDocument(parent, evalDelete))
    ensures r.Fail? ==> r.error == InvalidDocumentState(AllowDeleteDocument(parent, evalDelete))
  {
    var allow := AllowDeleteDocument(parent, evalDelete);
    if IsFalse(allow) then Fail(InvalidDocumentState(allow)) else Pass
  }

  /** Creation succeeds exactly when the parent is writable, not processed, and
      the allow-create logic does not give a definite false; in particular
      "no result" lets creation through. */
  lemma CreateSucceedsIff<D>(parent: ParentDocument, evalCreate: ParentDocument -> LogicResult,
                             createInRepository: ParentDocument -> D)
    ensures CreateNewDocument(parent, evalCreate, createInRepository).Ok? <==>
              parent.writable && !parent.processed && !IsFalse(evalCreate(parent))
    ensures parent.writable && !parent.processed && evalCreate(parent) == Evaluated(NoResult) ==>
              CreateNewDocument(parent, evalCreate, createInRepository) == Ok(createInRepository(parent))
  {
  }

  /** Deletion is refused exactly when the parent is processed or the
      allow-delete logic gives a definite false. */
  lemma DeleteRefusedIff(parent: ParentDocument, evalDelete: ParentDocument -> LogicResult)
    ensures AssertDeleteDocumentAllowed(parent, evalDelete).Fail? <==> parent.processed || IsFalse(evalDelete(parent))
  {
  }

  /** For a processed parent the descriptor logic is never looked at: any two
      evaluators give the same answers. */
  lemma ProcessedParentIgnoresLogic(parent: ParentDocument, eval1: ParentDocument -> LogicResult, eval2: ParentDocument -> LogicResult)
    requires parent.processed
    ensures AllowCreateNewDocument(parent, eval1) == AllowCreateNewDocument(parent, eval2)
    ensures AllowDeleteDocument(parent, eval1) == AllowDeleteDocument(parent, eval2)
  {
  }

  // ---------------------------------------------------------------------------
  // HighVolumeIncludedDocumentsCollection

  datatype HighVolumeCollection = HighVolumeCollection(parent: ParentDocument, detailId: string)

  datatype ValidStatus = Valid | Invalid(reason: string)

  const CREATE_NOT_ALLOWED: string := "creating new document is not allowed"
  const DELETE_NOT_ALLOWED: string := "deleting documents is not allowed"
  const NEXT_LINE_NO_NOT_SUPPORTED: string := "getting next LineNo is not supported"

  /** `copy(parentDocumentCopy, copyMode)`: the collection itself, whatever the arguments. */
  function HighVolumeCopy<M>(c: HighVolumeCollection, parentCopy: ParentDocument, copyMode: M): (r: HighVolumeCollection)
    ensures r == c
  {
    c
  }

  /** `getDocuments()`: whatever the query for the parent's rows returns. */
  function HighVolumeGetDocuments<D>(c: HighVolumeCollection, queryRows: ParentDocument -> seq<D>): (r: seq<D>)
    ensures r == queryRows(c.parent)
  {
    queryRows(c.parent)
  }

  /** `getDocumentById(documentId)`: the queried row, or DocumentNotFound whose
      path is the parent's path extended with (detailId, documentId). */
  function HighVolumeGetDocumentById<D>(c: HighVolumeCollection, id: DocumentId,
                                        queryRow: (ParentDocument, DocumentId) -> Option<D>): (r: Result<D, CollectionError>)
    ensures queryRow(c.parent, id).Some? ==> r == Ok(queryRow(c.parent, id).value)
    ensures queryRow(c.parent, id).None? ==> r == Err(DocumentNotFound(ChildPath(c.parent.path, c.detailId, id)))
  {
    match queryRow(c.parent, id)
    case Some(d) => Ok(d)
    case None => Err(DocumentNotFound(ChildPath(c.parent.path, c.detailId, id)))
  }

  function HighVolumeAssertNewDocumentAllowed(c: HighVolumeCollection): (r: Outcome<CollectionError>)
    ensures r == Fail(OperationNotAllowed(CREATE_NOT_ALLOWED))
  {
    Fail(OperationNotAllowed(CREATE_NOT_ALLOWED))
  }

  function HighVolumeCreateNewDocument<D>(c: HighVolumeCollection): (r: Result<D, CollectionError>)
    ensures r == Err(OperationNotAllowed(CREATE_NOT_ALLOWED))
  {
    Err(OperationNotAllowed(CREATE_NOT_ALLOWED))
  }

  function HighVolumeDeleteDocuments(c: HighVolumeCollection, ids: set<DocumentId>): (r: Outcome<CollectionError>)
    ensures r == Fail(OperationNotAllowed(DELETE_NOT_ALLOWED))
  {
    Fail(OperationNotAllowed(DELETE_NOT_ALLOWED))
  }

  function HighVolumeCheckAndGetValidStatus(c: HighVolumeCollection): (r: ValidStatus)
    ensures r == Valid
  {
    Valid
  }

  function HighVolumeHasChangesRecursively(c: HighVolumeCollection): (r: bool)
    ensures !r
  {
    false
  }

  /** `saveIfHasChanges()` and `markStaleAll()` do nothing. */
  function HighVolumeSaveIfHasChanges(c: HighVolumeCollection): (r: HighVolumeCollection)
    ensures r == c
  {
    c
  }

  function HighVolumeMarkStaleAll(c: HighVolumeCollection): (r: HighVolumeCollection)
    ensures r == c
  {
    c
  }

  function HighVolumeGetNextLineNo(c: HighVolumeCollection): (r: Result<int, CollectionError>)
    ensures r == Err(OperationNotAllowed(NEXT_LINE_NO_NOT_SUPPORTED))
  {
    Err(OperationNotAllowed(NEXT_LINE_NO_NOT_SUPPORTED))
  }

  /** The high-volume collection refuses to create or delete for every parent
      state, whereas a cached collection under a writable, unprocessed parent
      whose logic gives no definite false accepts both. */
  lemma HighVolumeIsReadOnly<D>(c: HighVolumeCollection, ids: set<DocumentId>,
                                evalCreate: ParentDocument -> LogicResult, evalDelete: ParentDocument -> LogicResult,
                                createInRepository: ParentDocument -> D)
    ensures HighVolumeCreateNewDocument<D>(c).Err? && HighVolumeDeleteDocuments(c, ids).Fail?
    ensures c.parent.writable && !c.parent.processed && !IsFalse(evalCreate(c.parent)) && !IsFalse(evalDelete(c.parent)) ==>
              CreateNewDocument(c.parent, evalCreate, createInRepository).Ok? &&
              AssertDeleteDocumentAllowed(c.parent, evalDelete).Pass?
  {
  }
}
