/** The audit engine of ComplianceAuditor.tsx: the job list and the two
    selections as mutable state, the scheduler effect, the task runner and
    job creation. */
module ComplianceAuditor {
  import opened Types
  import opened AuditSpec
  import RunnerFacts

  /** The job as last published after `completed` counted pairs: untouched
      while nothing was counted, otherwise with the rounded progress and the
      `shown` results. */
  function Snapshot(job: Job, completed: nat, total: nat, shown: Results): Job
    requires total > 0
  {
    if completed == 0 then job
    else job.(progress := Round(completed, total), results := shown)
  }

  /** A running job stays well formed in every snapshot of its run, given
      that the shown keys are selected documents (RunnerFacts.GatheredKeys),
      so the header counters of ResultPanel stay in range mid-run. */
  lemma SnapshotWellFormed(job: Job, completed: nat, total: nat, shown: Results)
    requires WellFormed(job) && job.status == Running
    requires 0 < total && completed <= total
    requires shown.Keys <= Elements(job.selectedDocIds)
    ensures WellFormed(Snapshot(job, completed, total, shown))
    ensures Snapshot(job, completed, total, shown).status == Running
  {
    RoundBounds(completed, total);
  }

  /** The job list holds `orig` except at position `i`, where it holds the
      snapshot of `job`. */
  ghost predicate Shows(jobs: seq<Job>, orig: seq<Job>, i: nat, job: Job, completed: nat, total: nat,
                        shown: Results)
  {
    && i < |orig| && UniqueIds(orig) && orig[i].id == job.id && total > 0
    && jobs == orig[i := Snapshot(job, completed, total, shown)]
  }

  /** Publishing a snapshot after one more counted pair. */
  lemma PublishShows(jobs: seq<Job>, orig: seq<Job>, i: nat, job: Job, completed: nat, total: nat,
                     shown: Results, shown': Results)
    requires Shows(jobs, orig, i, job, completed, total, shown)
    ensures Shows(UpdateJob(jobs, job.id, Publish(Round(completed + 1, total), shown')),
                  orig, i, job, completed + 1, total, shown')
  {
    assert UniqueIds(jobs) by {
      forall k, l | 0 <= k < l < |jobs| ensures jobs[k].id != jobs[l].id {
        assert jobs[k].id == orig[k].id && jobs[l].id == orig[l].id;
      }
    }
    assert jobs[i].id == job.id;
    UpdateJobAt(jobs, i, Publish(Round(completed + 1, total), shown'));
  }

  /** Every counted pair published the progress of its own count. */
  ghost predicate Logged(log: seq<int>, completed: nat, total: nat)
    requires total > 0
  {
    |log| == completed &&
    forall k :: 0 <= k < completed ==> log[k] == Round(k + 1, total)
  }

  /** The published progress values stay within 0..100 and never decrease. */
  lemma LoggedProgress(log: seq<int>, completed: nat, total: nat)
    requires 0 < total && completed <= total && Logged(log, completed, total)
    ensures forall k :: 0 <= k < |log| ==> 0 <= log[k] <= 100
    ensures forall k, l :: 0 <= k <= l < |log| ==> log[k] <= log[l]
  {
    forall k, l | 0 <= k <= l < |log|
      ensures 0 <= log[k] <= 100 && log[k] <= log[l]
    {
      RoundBounds(k + 1, total);
      RoundMonotone(k + 1, l + 1, total);
    }
  }

  class Auditor {
    var jobs: seq<Job>
    var selectedDocs: seq<string>
    var selectedRules: seq<string>
    /** The analysis calls of the latest run, in the order they were made. */
    ghost var calls: seq<(string, string)>
    /** The progress value of every snapshot the latest run published. */
    ghost var progressLog: seq<int>

    ghost predicate Valid()
      reads this
    {
      JobsValid(jobs)
    }

    /** The component's initial state (ComplianceAuditor.tsx:29-31). */
    constructor ()
      ensures Valid()
      ensures jobs == [] && selectedDocs == [] && selectedRules == []
    {
      jobs, selectedDocs, selectedRules := [], [], [];
      calls, progressLog := [], [];
    }

    /** Clicking a document (ComplianceAuditor.tsx:155). */
    method ToggleDoc(id: string)
      requires Valid()
      modifies this
      ensures Valid()
      ensures selectedDocs == Toggle(old(selectedDocs), id)
      ensures NoDuplicates(old(selectedDocs)) ==> NoDuplicates(selectedDocs)
      ensures jobs == old(jobs) && selectedRules == old(selectedRules)
    {
      selectedDocs := Toggle(selectedDocs, id);
    }

    /** Clicking a rule (ComplianceAuditor.tsx:188). */
    method ToggleRule(id: string)
      requires Valid()
      modifies this
      ensures Valid()
      ensures selectedRules == Toggle(old(selectedRules), id)
      ensures NoDuplicates(old(selectedRules)) ==> NoDuplicates(selectedRules)
      ensures jobs == old(jobs) && selectedDocs == old(selectedDocs)
    {
      selectedRules := Toggle(selectedRules, id);
    }

    /** "Select All" over the registry's rules (ComplianceAuditor.tsx:177). */
    method SelectAllRules(rules: seq<Rule>)
      requires Valid()
      modifies this
      ensures Valid()
      ensures selectedRules == SelectAll(old(selectedRules), rules)
      ensures jobs == old(jobs) && selectedDocs == old(selectedDocs)
    {
      selectedRules := SelectAll(selectedRules, rules);
    }

    /** `createJob` (ComplianceAuditor.tsx:80-95): a pending job over the
        current selections goes to the FRONT of the list and both selections
        are cleared. It is reachable only through the button that the
        selections enable (line 119). `id` is fresh, `name` and `createdAt`
        stand for the clock-derived values. */
    method CreateJob(id: string, name: string, createdAt: int)
      requires Valid()
      requires CanAnalyze(selectedDocs, selectedRules)
      requires forall k :: 0 <= k < |jobs| ==> jobs[k].id != id
      modifies this
      ensures Valid()
      ensures jobs == [NewJob(id, name, createdAt, old(selectedDocs), old(selectedRules))] + old(jobs)
      ensures jobs[0].status == Pending && jobs[0].progress == 0 && jobs[0].results == map[]
      ensures selectedDocs == [] && selectedRules == []
    {
      var job := NewJob(id, name, createdAt, selectedDocs, selectedRules);
      PrependKeepsValid(job, jobs);
      jobs := [job] + jobs;
      selectedDocs, selectedRules := [], [];
    }

    /** The scheduler effect (ComplianceAuditor.tsx:35-41) together with the
        first step of `processJob` (line 44). With no running job, the first
        pending job in list order, which is the newest one, is marked
        running and its id returned; otherwise nothing changes. */
    method Tick() returns (started: Option<string>)
      requires Valid()
      modifies this
      ensures Valid()
      ensures selectedDocs == old(selectedDocs) && selectedRules == old(selectedRules)
      ensures FirstWithStatus(old(jobs), Running).Some? ==> started == None && jobs == old(jobs)
      ensures FirstWithStatus(old(jobs), Running).None? && FirstWithStatus(old(jobs), Pending).None? ==>
                started == None && jobs == old(jobs)
      ensures FirstWithStatus(old(jobs), Running).None? && FirstWithStatus(old(jobs), Pending).Some? ==>
                var i := FirstWithStatus(old(jobs), Pending).value;
                started == Some(old(jobs)[i].id) &&
                jobs == old(jobs)[i := old(jobs)[i].(status := Running)]
      ensures started.Some? ==> exists k :: 0 <= k < |jobs| && jobs[k].id == started.value && jobs[k].status == Running
    {
      started := None;
      if FirstWithStatus(jobs, Running).None? {
        var next := FirstWithStatus(jobs, Pending);
        if next.Some? {
          var i := next.value;
          UpdateJobAt(jobs, i, MarkRunning);
          StartKeepsValid(jobs, i);
          jobs := UpdateJob(jobs, jobs[i].id, MarkRunning);
          started := Some(jobs[i].id);
        }
      }
    }

    /** One pass of the inner loop of `processJob` (ComplianceAuditor.tsx:58-74):
        a rule the registry does not resolve is skipped; otherwise the rule is
        analysed with its template, a successful verdict is appended to the
        document's list, and the pair is counted and a snapshot with the
        rounded progress and a copy of the results is published whether or
        not the call succeeded. */
    method RunPair(ghost orig: seq<Job>, i: nat, job: Job, doc: Document, docId: string,
                   ruleId: string, docs: seq<Document>, rules: seq<Rule>, analyze: Invoker,
                   total: nat, completed0: nat, ghost shown: Results,
                   ghost before: Results, ghost row: seq<AnalysisResult>, results0: Results)
      returns (completed: nat, newResults: Results)
      requires total > 0 && results0 == before[docId := row]
      requires Shows(jobs, orig, i, job, completed0, total, shown)
      requires Logged(progressLog, completed0, total)
      modifies this
      ensures selectedDocs == old(selectedDocs) && selectedRules == old(selectedRules)
      ensures Logged(progressLog, completed, total)
      ensures FindRule(rules, ruleId).None? ==>
                completed == completed0 && newResults == results0 &&
                jobs == old(jobs) && calls == old(calls)
      ensures FindRule(rules, ruleId).Some? ==>
                var v := Verdict(doc, ruleId, docs, rules, analyze);
                && completed == completed0 + 1
                && newResults == before[docId := row + (if v.Some? then [v.value] else [])]
                && Shows(jobs, orig, i, job, completed, total, newResults)
                && calls == old(calls) + [(docId, ruleId)]
    {
      completed, newResults := completed0, results0;
      var rule := FindRule(rules, ruleId);
      if rule.Some? {
        var template := TemplateFor(docs, rule.value);
        var res := analyze(doc, rule.value, template);
        assert res == Verdict(doc, ruleId, docs, rules, analyze);
        calls := calls + [(docId, ruleId)];
        if res.Some? {
          newResults := newResults[docId := newResults[docId] + [res.value]];
          assert newResults == before[docId := row + [res.value]];
        } else {
          assert row + [] == row;
        }
        PublishShows(jobs, orig, i, job, completed, total, shown, newResults);
        completed := completed + 1;
        jobs := UpdateJob(jobs, job.id, Publish(Round(completed, total), newResults));
        progressLog := progressLog + [Round(completed, total)];
      }
    }

    /** The inner loop of `processJob` (ComplianceAuditor.tsx:57-75) for one
        found document, over the job's rule selection in order. */
    method RunRow(ghost orig: seq<Job>, i: nat, job: Job, docId: string, doc: Document,
                  docs: seq<Document>, rules: seq<Rule>, analyze: Invoker, total: nat,
                  completed0: nat, ghost before: Results, results0: Results)
      returns (completed: nat, newResults: Results)
      requires total > 0
      requires results0 == before[docId := []]
      requires Shows(jobs, orig, i, job, completed0, total, before)
      requires Logged(progressLog, completed0, total)
      modifies this
      ensures selectedDocs == old(selectedDocs) && selectedRules == old(selectedRules)
      ensures newResults == before[docId := Row(doc, job.selectedRuleIds, docs, rules, analyze)]
      ensures completed == completed0 + CountFound(job.selectedRuleIds, rules)
      ensures CountFound(job.selectedRuleIds, rules) > 0 ==> Shows(jobs, orig, i, job, completed, total, newResults)
      ensures CountFound(job.selectedRuleIds, rules) == 0 ==> Shows(jobs, orig, i, job, completed, total, before)
      ensures calls == old(calls) + RowPairs(docId, job.selectedRuleIds, rules)
      ensures Logged(progressLog, completed, total)
    {
      var ruleIds := job.selectedRuleIds;
      completed, newResults := completed0, results0;
      var b := 0;
      while b < |ruleIds|
        invariant 0 <= b <= |ruleIds|
        invariant selectedDocs == old(selectedDocs) && selectedRules == old(selectedRules)
        invariant newResults == before[docId := Row(doc, ruleIds[..b], docs, rules, analyze)]
        invariant completed == completed0 + CountFound(ruleIds[..b], rules)
        invariant Shows(jobs, orig, i, job, completed, total,
                        if CountFound(ruleIds[..b], rules) == 0 then before else newResults)
        invariant calls == old(calls) + RowPairs(docId, ruleIds[..b], rules)
        invariant Logged(progressLog, completed, total)
      {
        var ruleId := ruleIds[b];
        RowStep(doc, docId, ruleIds, b, docs, rules, analyze);
        ghost var row := Row(doc, ruleIds[..b], docs, rules, analyze);
        ghost var shown := if CountFound(ruleIds[..b], rules) == 0 then before else newResults;
        ghost var v := Verdict(doc, ruleId, docs, rules, analyze);
        completed, newResults :=
          RunPair(orig, i, job, doc, docId, ruleId, docs, rules, analyze, total,
                  completed, shown, before, row, newResults);
        assert FindRule(rules, ruleId).None? ==> v == None && row + [] == row;
        b := b + 1;
      }
      assert ruleIds[..b] == ruleIds;
    }

    /** The last step of `processJob` (ComplianceAuditor.tsx:77): the job
        as last published is marked completed with progress 100. */
    method Finish(ghost orig: seq<Job>, i: nat, job: Job, docs: seq<Document>, rules: seq<Rule>,
                  analyze: Invoker, completed: nat, total: nat, ghost shown: Results)
      requires JobsValid(orig) && i < |orig| && orig[i] == job
      requires job.status == Running && WellFormed(job)
      requires completed == Counted(job.selectedDocIds, job.selectedRuleIds, docs, rules)
      requires shown == Gathered(job.selectedDocIds, job.selectedRuleIds, docs, rules, analyze)
      requires Shows(jobs, orig, i, job, completed, total, shown)
      modifies this
      ensures jobs == orig[i := Processed(job, docs, rules, analyze)]
      ensures JobsValid(jobs)
      ensures calls == old(calls) && progressLog == old(progressLog)
      ensures selectedDocs == old(selectedDocs) && selectedRules == old(selectedRules)
    {
      assert UniqueIds(jobs) by {
        forall k, l | 0 <= k < l < |jobs| ensures jobs[k].id != jobs[l].id {
          assert jobs[k].id == orig[k].id && jobs[l].id == orig[l].id;
        }
      }
      UpdateJobAt(jobs, i, MarkCompleted);
      RunnerFacts.FinalResultsKeys(job, docs, rules, analyze);
      ReplaceKeepsValid(orig, i, Processed(job, docs, rules, analyze));
      jobs := UpdateJob(jobs, job.id, MarkCompleted);
    }

    /** The outer loop of `processJob` (ComplianceAuditor.tsx:52-76): the
        job's document selection in order; a document the registry does not
        resolve is skipped, a found one gets a fresh empty list and its row. */
    method RunDocs(ghost orig: seq<Job>, i: nat, job: Job, docs: seq<Document>, rules: seq<Rule>,
                   analyze: Invoker, total: nat)
      returns (completed: nat, newResults: Results)
      requires total > 0
      requires Shows(jobs, orig, i, job, 0, total, map[])
      requires calls == [] && progressLog == []
      modifies this
      ensures selectedDocs == old(selectedDocs) && selectedRules == old(selectedRules)
      ensures newResults == Gathered(job.selectedDocIds, job.selectedRuleIds, docs, rules, analyze)
      ensures completed == Counted(job.selectedDocIds, job.selectedRuleIds, docs, rules)
      ensures Shows(jobs, orig, i, job, completed, total, newResults)
      ensures calls == Pairs(job.selectedDocIds, job.selectedRuleIds, docs, rules)
      ensures Logged(progressLog, completed, total)
    {
      var docIds, ruleIds := job.selectedDocIds, job.selectedRuleIds;
      completed, newResults := 0, map[];
      var a := 0;
      while a < |docIds|
        invariant 0 <= a <= |docIds|
        invariant selectedDocs == old(selectedDocs) && selectedRules == old(selectedRules)
        invariant newResults == Gathered(docIds[..a], ruleIds, docs, rules, analyze)
        invariant completed == Counted(docIds[..a], ruleIds, docs, rules)
        invariant Shows(jobs, orig, i, job, completed, total, newResults)
        invariant calls == Pairs(docIds[..a], ruleIds, docs, rules)
        invariant Logged(progressLog, completed, total)
      {
        var docId := docIds[a];
        var doc := FindDocument(docs, docId);
        GatheredStep(docIds, ruleIds, a, docs, rules, analyze);
        if doc.Some? {
          ghost var before := newResults;
          completed, newResults :=
            RunRow(orig, i, job, docId, doc.value, docs, rules, analyze, total,
                   completed, before, newResults[docId := []]);
          if CountFound(ruleIds, rules) == 0 {
            RunnerFacts.CountedNeedsRule(docIds[..a], ruleIds, docs, rules);
          }
        }
        assert newResults == Gathered(docIds[..a + 1], ruleIds, docs, rules, analyze);
        assert completed == Counted(docIds[..a + 1], ruleIds, docs, rules);
        a := a + 1;
      }
      assert docIds[..a] == docIds;
    }

    /** The rest of `processJob` (ComplianceAuditor.tsx:45-77) for a job that
        Tick marked running. `docs` and `rules` are the registry as captured
        when the run starts; `analyze` is the analysis call. Pairs are
        visited document-major; after every counted pair a snapshot with the
        rounded progress and a copy of the results is published, and finally
        the job is marked completed with progress 100. */
    method RunJob(jobId: string, docs: seq<Document>, rules: seq<Rule>, analyze: Invoker)
      requires Valid()
      requires forall k :: 0 <= k < |jobs| && jobs[k].id == jobId ==> jobs[k].status == Running
      modifies this
      ensures Valid()
      ensures selectedDocs == old(selectedDocs) && selectedRules == old(selectedRules)
      ensures FirstWithId(old(jobs), jobId).None? ==> jobs == old(jobs)
      ensures FirstWithId(old(jobs), jobId).Some? ==>
                var i := FirstWithId(old(jobs), jobId).value;
                var job := old(jobs)[i];
                var total := |job.selectedDocIds| * |job.selectedRuleIds|;
                && jobs == old(jobs)[i := Processed(job, docs, rules, analyze)]
                && calls == Pairs(job.selectedDocIds, job.selectedRuleIds, docs, rules)
                && |progressLog| == Counted(job.selectedDocIds, job.selectedRuleIds, docs, rules) <= total
                && (forall k :: 0 <= k < |progressLog| ==> progressLog[k] == Round(k + 1, total))
                && (forall k :: 0 <= k < |progressLog| ==> 0 <= progressLog[k] <= 100)
                && (forall k, l :: 0 <= k <= l < |progressLog| ==> progressLog[k] <= progressLog[l])
    {
      var found := FirstWithId(jobs, jobId);
      if found.None? {
        return;
      }
      var i := found.value;
      var job := jobs[i];
      ghost var orig := jobs;
      var docIds, ruleIds := job.selectedDocIds, job.selectedRuleIds;
      assert WellFormed(job);
      var total := |docIds| * |ruleIds|;
      calls, progressLog := [], [];
      assert jobs == orig[i := Snapshot(job, 0, total, map[])];
      var completed, newResults := RunDocs(orig, i, job, docs, rules, analyze, total);
      RunnerFacts.CountedBound(docIds, ruleIds, docs, rules);
      Finish(orig, i, job, docs, rules, analyze, completed, total, newResults);
      LoggedProgress(progressLog, completed, total);
    }
  }
}
