/** The figures the result panel derives from one job (ResultPanel.tsx):
    the pass and deviation counters of the header and one table row per
    selected document. */
module ResultPanel {
  import opened Types
  import opened AuditSpec
  import RunnerFacts

  /** `list.some(r => r.hasDeviation)`. */
  function AnyDeviation(rs: seq<AnalysisResult>): (b: bool)
    ensures b <==> exists k :: 0 <= k < |rs| && rs[k].hasDeviation
  {
    if rs == [] then false
    else
      assert forall k :: 1 <= k < |rs| ==> rs[k] == rs[1..][k - 1];
      rs[0].hasDeviation || AnyDeviation(rs[1..])
  }

  /** The keys of `results` whose list reports no deviation (the filter of
      ResultPanel.tsx:29); an empty list is among them. */
  function CompliantKeys(results: Results): set<string> {
    set d | d in results && !AnyDeviation(results[d])
  }

  /** The keys whose list reports a deviation. */
  function DeviatingKeys(results: Results): set<string> {
    set d | d in results && AnyDeviation(results[d])
  }

  /** The "Pass" counter. */
  function CompliantDocs(results: Results): nat {
    |CompliantKeys(results)|
  }

  /** The "Deviations" counter: selected documents minus passing keys. It is
      an `int` because nothing in the component keeps it from going
      negative. */
  function DeviationCount(job: Job): int {
    |job.selectedDocIds| - CompliantDocs(job.results)
  }

  /** Every key either passes or deviates. */
  lemma KeysPartition(results: Results)
    ensures CompliantKeys(results) + DeviatingKeys(results) == results.Keys
    ensures CompliantKeys(results) * DeviatingKeys(results) == {}
    ensures CompliantDocs(results) + |DeviatingKeys(results)| == |results.Keys|
  {
    var c, d := CompliantKeys(results), DeviatingKeys(results);
    assert c + d == results.Keys;
    assert c * d == {};
    assert |c + d| == |c| + |d| - |c * d|;
  }

  /** The header's two counters add up to the selection size, and a
      selected document without a key counts as a deviation: there are as
      many deviations as deviating keys plus the selection's length minus
      the number of keys. With repeated ids this exceeds the number of
      positions that have no key. */
  lemma {:induction false} HeaderCounts(job: Job)
    ensures CompliantDocs(job.results) + DeviationCount(job) == |job.selectedDocIds|
    ensures DeviationCount(job) ==
            |DeviatingKeys(job.results)| + (|job.selectedDocIds| - |job.results.Keys|)
  {
    KeysPartition(job.results);
  }

  /** A selection without repeats whose every document has a key: the
      deviation counter is exactly the number of deviating documents. */
  lemma {:induction false} FinishedHeaderCounts(job: Job)
    requires NoDuplicates(job.selectedDocIds)
    requires job.results.Keys == Elements(job.selectedDocIds)
    ensures DeviationCount(job) == |DeviatingKeys(job.results)|
  {
    HeaderCounts(job);
    ElementsDistinct(job.selectedDocIds);
  }

  lemma {:induction false} ElementsDistinct(s: seq<string>)
    requires NoDuplicates(s)
    ensures |Elements(s)| == |s|
  {
    if s != [] {
      var pre := s[..|s| - 1];
      assert NoDuplicates(pre);
      ElementsDistinct(pre);
      assert s[|s| - 1] !in Elements(pre);
      assert Elements(s) == Elements(pre) + {s[|s| - 1]};
    }
  }

  /** With the keys inside the selection, the deviation counter is never
      negative, even when ids repeat. */
  lemma DeviationCountNonNegative(job: Job)
    requires job.results.Keys <= Elements(job.selectedDocIds)
    ensures 0 <= DeviationCount(job) <= |job.selectedDocIds|
  {
    KeysPartition(job.results);
    ElementsBound(job.selectedDocIds);
    assert CompliantKeys(job.results) <= Elements(job.selectedDocIds);
    SubsetCard(CompliantKeys(job.results), Elements(job.selectedDocIds));
  }

  lemma SubsetCard(a: set<string>, b: set<string>)
    requires a <= b
    ensures |a| <= |b|
  {
    assert b == a + (b - a);
  }

  /** Every job of a valid list shows a counter in 0..|selectedDocIds|. */
  lemma WellFormedDeviationCount(job: Job)
    requires WellFormed(job)
    ensures 0 <= DeviationCount(job) <= |job.selectedDocIds|
  {
    DeviationCountNonNegative(job);
  }

  // ---------------------------------------------------------------------
  // Rows (ResultPanel.tsx:70-97)

  /** `job.results[docId] || []`. */
  function DocResults(job: Job, docId: string): seq<AnalysisResult> {
    if docId in job.results then job.results[docId] else []
  }

  /** The index of the first result reporting a deviation. */
  function FirstDeviation(rs: seq<AnalysisResult>): (r: Option<nat>)
    ensures r.None? <==> !AnyDeviation(rs)
    ensures r.Some? ==> r.value < |rs| && rs[r.value].hasDeviation &&
                        forall j :: 0 <= j < r.value ==> !rs[j].hasDeviation
  {
    if rs == [] then None
    else if rs[0].hasDeviation then Some(0)
    else
      assert forall k :: 1 <= k < |rs| ==> rs[k] == rs[1..][k - 1];
      match FirstDeviation(rs[1..])
      case None => None
      case Some(k) => Some(k + 1)
  }

  /** `docRes.find(r => r.hasDeviation) || docRes[0]`: the first deviating
      result, else the first result, else none. */
  function TopResult(rs: seq<AnalysisResult>): (r: Option<AnalysisResult>)
    ensures r.None? <==> rs == []
    ensures r.Some? ==> r.value in rs
    ensures r.Some? ==> (r.value.hasDeviation <==> AnyDeviation(rs))
    ensures AnyDeviation(rs) ==>
              exists k :: 0 <= k < |rs| && r == Some(rs[k]) &&
                          forall j :: 0 <= j < k ==> !rs[j].hasDeviation
    ensures rs != [] && !AnyDeviation(rs) ==> r == Some(rs[0])
  {
    match FirstDeviation(rs)
    case Some(k) => Some(rs[k])
    case None => if rs == [] then None else Some(rs[0])
  }

  datatype Label = Processing | DeviationFound | Compliant

  /** The status cell (ResultPanel.tsx:85-93). */
  function StatusLabel(rs: seq<AnalysisResult>): (l: Label)
    ensures l == Processing <==> rs == []
    ensures l == DeviationFound <==> exists k :: 0 <= k < |rs| && rs[k].hasDeviation
    ensures l == Compliant <==> rs != [] && forall k :: 0 <= k < |rs| ==> !rs[k].hasDeviation
  {
    if |rs| == 0 then Processing
    else if AnyDeviation(rs) then DeviationFound
    else Compliant
  }

  /** The summary cell (ResultPanel.tsx:97). */
  function SummaryText(rs: seq<AnalysisResult>): (t: string)
    ensures rs == [] ==> t == "Awaiting data..."
    ensures rs != [] ==> exists k :: 0 <= k < |rs| && t == rs[k].summary
    ensures FirstDeviation(rs).Some? ==> t == rs[FirstDeviation(rs).value].summary
    ensures rs != [] && !AnyDeviation(rs) ==> t == rs[0].summary
  {
    match TopResult(rs)
    case None => "Awaiting data..."
    case Some(res) => res.summary
  }

  datatype RowView = RowView(docId: string, hasDeviation: bool, isProcessed: bool,
                             status: Label, summary: string)

  function ViewOf(job: Job, docId: string): RowView {
    var rs := DocResults(job, docId);
    RowView(docId, AnyDeviation(rs), |rs| > 0, StatusLabel(rs), SummaryText(rs))
  }

  /** One row per selected document, in selection order, repeats included. */
  function Rows(job: Job): (rows: seq<RowView>)
    ensures |rows| == |job.selectedDocIds|
    ensures forall k :: 0 <= k < |rows| ==>
              rows[k].docId == job.selectedDocIds[k] &&
              rows[k] == ViewOf(job, job.selectedDocIds[k])
  {
    seq(|job.selectedDocIds|, k requires 0 <= k < |job.selectedDocIds| => ViewOf(job, job.selectedDocIds[k]))
  }

  /** A document without a key reads as not yet processed. */
  lemma MissingKeyRow(job: Job, docId: string)
    requires docId !in job.results
    ensures ViewOf(job, docId) == RowView(docId, false, false, Processing, "Awaiting data...")
  {
  }

  /** A key holding an empty list counts as a Pass in the header while its
      row reads Processing... */
  lemma EmptyListPassesButProcessing(job: Job, docId: string)
    requires docId in job.results && job.results[docId] == []
    ensures docId in CompliantKeys(job.results)
    ensures ViewOf(job, docId).status == Processing
  {
  }

  /** That happens after a run: when every analysis call fails, a selected
      document that resolves gets a key with an empty list, so the finished
      job counts it as a Pass and shows it as Processing... */
  lemma FailedRunReadsPassAndProcessing(job: Job, docs: seq<Document>, rules: seq<Rule>,
                                        analyze: Invoker, docId: string)
    requires forall d, r, t :: analyze(d, r, t).None?
    requires docId in job.selectedDocIds && FindDocument(docs, docId).Some?
    requires CountFound(job.selectedRuleIds, rules) > 0
    ensures var done := Processed(job, docs, rules, analyze);
            docId in CompliantKeys(done.results) && ViewOf(done, docId).status == Processing
  {
    var ds, rs := job.selectedDocIds, job.selectedRuleIds;
    RunnerFacts.CountedAtLeastRow(ds, rs, docs, rules, docId);
    RunnerFacts.GatheredKeys(ds, rs, docs, rules, analyze);
    RunnerFacts.GatheredRow(ds, rs, docs, rules, analyze, docId);
    RunnerFacts.RowAllFailed(FindDocument(docs, docId).value, rs, docs, rules, analyze);
  }
}
