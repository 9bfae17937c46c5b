/** The job cards of the audit history (AuditHistory.tsx): the empty state,
    and per job the deviation flag, the number of checks, the outcome
    banner and the view button. */
module AuditHistory {
  import opened Types
  import opened AuditSpec
  import RunnerFacts
  import ResultPanel

  /** `Object.values(results).some(list => list.some(r => r.hasDeviation))`. */
  function HasDeviations(results: Results): (b: bool)
    ensures b <==> exists d, k :: d in results && 0 <= k < |results[d]| && results[d][k].hasDeviation
  {
    exists d :: d in results && ResultPanel.AnyDeviation(results[d])
  }

  /** The history's flag and the result panel's header agree: a job is
      flagged exactly when fewer keys pass than there are keys. */
  lemma HasDeviationsIffSomeKeyFails(results: Results)
    ensures HasDeviations(results) <==> ResultPanel.CompliantDocs(results) < |results.Keys|
  {
    ResultPanel.KeysPartition(results);
    if HasDeviations(results) {
      var d :| d in results && ResultPanel.AnyDeviation(results[d]);
      assert d in ResultPanel.DeviatingKeys(results);
    } else {
      assert ResultPanel.DeviatingKeys(results) == {};
    }
  }

  /** `selectedDocIds.length * selectedRuleIds.length`. */
  function TotalChecks(job: Job): nat {
    |job.selectedDocIds| * |job.selectedRuleIds|
  }

  /** A run counts at most the job's total checks, and exactly that many
      when every selected id resolves. */
  lemma TotalChecksBoundsRun(job: Job, docs: seq<Document>, rules: seq<Rule>)
    ensures Counted(job.selectedDocIds, job.selectedRuleIds, docs, rules) <= TotalChecks(job)
    ensures (forall k :: 0 <= k < |job.selectedDocIds| ==> FindDocument(docs, job.selectedDocIds[k]).Some?) &&
            (forall k :: 0 <= k < |job.selectedRuleIds| ==> FindRule(rules, job.selectedRuleIds[k]).Some?) ==>
              Counted(job.selectedDocIds, job.selectedRuleIds, docs, rules) == TotalChecks(job)
  {
    RunnerFacts.CountedBound(job.selectedDocIds, job.selectedRuleIds, docs, rules);
    if (forall k :: 0 <= k < |job.selectedDocIds| ==> FindDocument(docs, job.selectedDocIds[k]).Some?) &&
       (forall k :: 0 <= k < |job.selectedRuleIds| ==> FindRule(rules, job.selectedRuleIds[k]).Some?) {
      RunnerFacts.CountedAllFound(job.selectedDocIds, job.selectedRuleIds, docs, rules);
    }
  }

  datatype Banner = DeviationsDetected | AllCompliant

  /** The outcome banner (AuditHistory.tsx:97-106), shown for completed jobs
      only. */
  function OutcomeBanner(job: Job): (b: Option<Banner>)
    ensures b.Some? <==> job.status == Completed
    ensures b == Some(DeviationsDetected) <==> job.status == Completed && HasDeviations(job.results)
    ensures b == Some(AllCompliant) <==> job.status == Completed && !HasDeviations(job.results)
  {
    if job.status != Completed then None
    else if HasDeviations(job.results) then Some(DeviationsDetected)
    else Some(AllCompliant)
  }

  /** A completed job with no results at all reads All Compliant. */
  lemma NoResultsAllCompliant(job: Job)
    requires job.status == Completed && job.results == map[]
    ensures OutcomeBanner(job) == Some(AllCompliant)
  {
  }

  /** A run whose invoker never reports a deviation (as the service's
      fallback verdict does) ends All Compliant. */
  lemma NoDeviationRunAllCompliant(job: Job, docs: seq<Document>, rules: seq<Rule>, analyze: Invoker)
    requires job.results == map[]
    requires forall d, r, t :: analyze(d, r, t).Some? ==> !analyze(d, r, t).value.hasDeviation
    ensures OutcomeBanner(Processed(job, docs, rules, analyze)) == Some(AllCompliant)
  {
    var ds, rs := job.selectedDocIds, job.selectedRuleIds;
    var g := Gathered(ds, rs, docs, rules, analyze);
    forall d | d in g
      ensures !ResultPanel.AnyDeviation(g[d])
    {
      RunnerFacts.GatheredRow(ds, rs, docs, rules, analyze, d);
      RunnerFacts.RowNoDeviation(FindDocument(docs, d).value, rs, docs, rules, analyze);
    }
  }

  datatype ButtonText = ProcessingText | ViewReportText

  /** The card's view button (AuditHistory.tsx:112-127). */
  datatype ViewButton = ViewButton(disabled: bool, text: ButtonText)

  function ButtonOf(job: Job): (v: ViewButton)
    ensures v.disabled <==> job.status == Pending
    ensures v.text == ProcessingText <==> job.status == Running
  {
    ViewButton(job.status == Pending, if job.status == Running then ProcessingText else ViewReportText)
  }

  /** What one card shows. */
  datatype Card = Card(jobId: string, name: string, status: Status, progress: int,
                       docCount: nat, ruleCount: nat, banner: Option<Banner>, button: ViewButton)

  function CardOf(job: Job): Card {
    Card(job.id, job.name, job.status, job.progress, |job.selectedDocIds|, |job.selectedRuleIds|,
         OutcomeBanner(job), ButtonOf(job))
  }

  datatype View = EmptyState | Cards(cards: seq<Card>)

  /** The whole history (AuditHistory.tsx:20-38). */
  function HistoryView(jobs: seq<Job>): (v: View)
    ensures v.EmptyState? <==> jobs == []
    ensures v.Cards? ==> (|v.cards| == |jobs| &&
                          forall k :: 0 <= k < |jobs| ==> v.cards[k] == CardOf(jobs[k]))
  {
    if jobs == [] then EmptyState
    else Cards(seq(|jobs|, k requires 0 <= k < |jobs| => CardOf(jobs[k])))
  }

  /** The newest job is the first card: after `createJob` the new pending
      job heads the history with its button disabled. */
  lemma NewJobHeadsHistory(j: Job, jobs: seq<Job>)
    requires j.status == Pending
    ensures HistoryView([j] + jobs).Cards?
    ensures HistoryView([j] + jobs).cards[0].jobId == j.id
    ensures HistoryView([j] + jobs).cards[0].button.disabled
  {
  }
}
