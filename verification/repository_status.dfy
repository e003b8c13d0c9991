/** DocumentRepositoryStatus: whether a document's in-memory state is known
    to be out of date with respect to the repository. The flag `staled` is
    sticky; `version` is the repository version last recorded as current
    (`None` when unknown). The repository's `retrieveVersion` is a function
    parameter, applied to the document's key. */
module RepositoryStatuses {
  import opened Wrappers
  import opened JavaLang

  datatype Status = Status(staled: bool, version: Option<string>)

  /** The constructor: not staled, version unknown. */
  const FRESH: Status := Status(false, None)

  /** What `checkStaled` needs of a document: whether it is new and its key. */
  datatype CheckedDocument = CheckedDocument(isNew: bool, idInt: Int32)

  /** The answer of `checkStaled` together with the status it leaves behind. */
  datatype Checked = Checked(stale: bool, status: Status)

  /** `checkStaled(document)`. */
  function CheckStaled(s: Status, doc: CheckedDocument, retrieveVersion: Int32 -> Option<string>): (r: Checked)
    ensures s.staled ==> r == Checked(true, s)
    ensures !s.staled && doc.isNew ==> r == Checked(false, s)
    ensures !s.staled && !doc.isNew ==> (r.stale <==> s.version != retrieveVersion(doc.idInt))
    ensures r.stale == r.status.staled
    ensures r.status.version == s.version
    ensures !r.stale ==> r.status == s
  {
    if s.staled then Checked(true, s)
    else if doc.isNew then Checked(false, s)
    else if s.version == retrieveVersion(doc.idInt) then Checked(false, s)
    else Checked(true, s.(staled := true))
  }

  /** `markStaled()`. */
  function MarkStaled(s: Status): (r: Status)
    ensures r.staled && r.version == s.version
  {
    s.(staled := true)
  }

  /** `markNotStaled(version)`. */
  function MarkNotStaled(s: Status, version: Option<string>): (r: Status)
    ensures !r.staled && r.version == version
  {
    Status(false, version)
  }

  /** `copy()`: a status with the same flag and version. The copy is a value,
      so later changes to either cannot reach the other. */
  function Copy(s: Status): (r: Status)
    ensures r.staled == s.staled && r.version == s.version
  {
    Status(s.staled, s.version)
  }

  /** A fresh status reports a persisted document stale exactly when the
      repository knows a version for it. */
  lemma FreshStatus(doc: CheckedDocument, retrieveVersion: Int32 -> Option<string>)
    ensures !FRESH.staled && FRESH.version.None?
    ensures !doc.isNew ==> (CheckStaled(FRESH, doc, retrieveVersion).stale <==> retrieveVersion(doc.idInt).Some?)
  {
  }

  /** The repository is not consulted when the status is already staled or the
      document is new: any two repositories give the same answer. */
  lemma RepositoryNotConsulted(s: Status, doc: CheckedDocument, repo1: Int32 -> Option<string>, repo2: Int32 -> Option<string>)
    requires s.staled || doc.isNew
    ensures CheckStaled(s, doc, repo1) == CheckStaled(s, doc, repo2)
  {
  }

  /** Right after `markNotStaled(v)`, a check against a repository that
      reports v for the document says "not stale" and changes nothing. */
  lemma MarkNotStaledThenCheck(s: Status, v: Option<string>, doc: CheckedDocument, retrieveVersion: Int32 -> Option<string>)
    requires retrieveVersion(doc.idInt) == v
    ensures CheckStaled(MarkNotStaled(s, v), doc, retrieveVersion) == Checked(false, MarkNotStaled(s, v))
  {
  }

  /** The answers of checking the documents one after another, each check
      seeing the status the previous one left. */
  function CheckAll(s: Status, docs: seq<CheckedDocument>, retrieveVersion: Int32 -> Option<string>): (answers: seq<bool>)
    ensures |answers| == |docs|
    decreases |docs|
  {
    if |docs| == 0 then []
    else
      var r := CheckStaled(s, docs[0], retrieveVersion);
      [r.stale] + CheckAll(r.status, docs[1..], retrieveVersion)
  }

  /** Staleness is sticky: once a check has answered "stale" (or the status
      started out staled), every later check answers "stale" too, whatever
      the documents and the repository. */
  lemma {:induction false} StalenessIsSticky(s: Status, docs: seq<CheckedDocument>, retrieveVersion: Int32 -> Option<string>)
    ensures s.staled ==> forall i :: 0 <= i < |docs| ==> CheckAll(s, docs, retrieveVersion)[i]
    ensures forall i, j :: 0 <= i < j < |docs| && CheckAll(s, docs, retrieveVersion)[i] ==>
              CheckAll(s, docs, retrieveVersion)[j]
    decreases |docs|
  {
    if |docs| > 0 {
      var r := CheckStaled(s, docs[0], retrieveVersion);
      var answers := CheckAll(s, docs, retrieveVersion);
      var rest := CheckAll(r.status, docs[1..], retrieveVersion);
      StalenessIsSticky(r.status, docs[1..], retrieveVersion);
      assert answers == [r.stale] + rest;
      forall i | 0 <= i < |docs| && s.staled ensures answers[i] {
        if i > 0 {
          assert answers[i] == rest[i - 1];
        }
      }
      forall i, j | 0 <= i < j < |docs| && answers[i] ensures answers[j] {
        assert answers[j] == rest[j - 1];
        if i > 0 {
          assert answers[i] == rest[i - 1];
        }
      }
    }
  }
}
