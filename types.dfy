/** The records shared by the auditor: documents, rules, analysis results and
    audit jobs, with their enumerations (types.ts). */
module Types {

  datatype Option<+T> = None | Some(value: T)

  /** Where a document came from (types.ts:9). */
  datatype Source = Local | Dropbox | Drive | Db

  /** Severity of a reported deviation (types.ts:31). */
  datatype Severity = Low | Medium | High

  /** Lifecycle of an audit job (types.ts:38). */
  datatype Status = Pending | Running | Completed | Failed

  /** An uploaded document. `size` is its byte count and `uploadedAt` an
      opaque timestamp. */
  datatype Document = Document(
    id: string,
    name: string,
    mimeType: string,
    content: string,
    size: int,
    uploadedAt: int,
    source: Source)

  /** A compliance rule; `referenceDocId` names an optional template document. */
  datatype Rule = Rule(
    id: string,
    name: string,
    instruction: string,
    referenceDocId: Option<string>)

  /** The verdict of one (document, rule) analysis. */
  datatype AnalysisResult = AnalysisResult(
    docId: string,
    ruleId: string,
    hasDeviation: bool,
    summary: string,
    details: seq<string>,
    severity: Severity)

  /** Results of a job: document id to the results gathered for it, in order. */
  type Results = map<string, seq<AnalysisResult>>

  /** One audit run over a fixed selection of documents and rules.
      `createdAt` is an opaque timestamp. */
  datatype Job = Job(
    id: string,
    name: string,
    createdAt: int,
    status: Status,
    progress: int,
    results: Results,
    selectedDocIds: seq<string>,
    selectedRuleIds: seq<string>)

  /** The distinct ids of a sequence of ids. */
  function Elements(s: seq<string>): set<string> {
    set x | x in s
  }

  /** No element occurs twice. */
  predicate NoDuplicates<T(==)>(s: seq<T>) {
    forall i, j :: 0 <= i < j < |s| ==> s[i] != s[j]
  }

  /** A sequence has at least as many positions as distinct elements. */
  lemma {:induction false} ElementsBound(s: seq<string>)
    ensures |Elements(s)| <= |s|
  {
    if s != [] {
      ElementsBound(s[..|s| - 1]);
      assert Elements(s) == Elements(s[..|s| - 1]) + {s[|s| - 1]};
    }
  }
}
