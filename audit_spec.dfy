/** Reference definitions for the audit engine of ComplianceAuditor.tsx:
    registry lookups, selection toggles, job updates, scheduling choices and
    what one run of `processJob` computes. The imperative engine in
    module ComplianceAuditor is proved against these. */
module AuditSpec {
  import opened Types

  /** The analysis call: a verdict, or None when the call rejects. */
  type Invoker = (Document, Rule, Option<Document>) -> Option<AnalysisResult>

  // ---------------------------------------------------------------------
  // Registry lookups (`documents.find`, `rules.find`)

  /** The first document with the given id. */
  function FindDocument(docs: seq<Document>, id: string): (r: Option<Document>)
    ensures r.None? <==> forall k :: 0 <= k < |docs| ==> docs[k].id != id
    ensures r.Some? ==> r.value in docs && r.value.id == id
  {
    if docs == [] then None
    else if docs[0].id == id then Some(docs[0])
    else
      var r := FindDocument(docs[1..], id);
      assert forall k :: 1 <= k < |docs| ==> docs[k] == docs[1..][k - 1];
      r
  }

  /** The lookup returns the earliest document with the id. */
  lemma {:induction false} FindDocumentFirst(docs: seq<Document>, id: string, k: nat)
    requires k < |docs| && docs[k].id == id
    requires forall l :: 0 <= l < k ==> docs[l].id != id
    ensures FindDocument(docs, id) == Some(docs[k])
  {
    if k > 0 {
      FindDocumentFirst(docs[1..], id, k - 1);
    }
  }

  /** The first rule with the given id. */
  function FindRule(rules: seq<Rule>, id: string): (r: Option<Rule>)
    ensures r.None? <==> forall k :: 0 <= k < |rules| ==> rules[k].id != id
    ensures r.Some? ==> r.value in rules && r.value.id == id
  {
    if rules == [] then None
    else if rules[0].id == id then Some(rules[0])
    else
      var r := FindRule(rules[1..], id);
      assert forall k :: 1 <= k < |rules| ==> rules[k] == rules[1..][k - 1];
      r
  }

  /** The lookup returns the earliest rule with the id. */
  lemma {:induction false} FindRuleFirst(rules: seq<Rule>, id: string, k: nat)
    requires k < |rules| && rules[k].id == id
    requires forall l :: 0 <= l < k ==> rules[l].id != id
    ensures FindRule(rules, id) == Some(rules[k])
  {
    if k > 0 {
      FindRuleFirst(rules[1..], id, k - 1);
    }
  }

  /** The template handed to the analysis call for `rule`
      (ComplianceAuditor.tsx:60): the document whose id is the rule's
      reference. An unset reference matches no document. */
  function TemplateFor(docs: seq<Document>, rule: Rule): (r: Option<Document>)
    ensures r.Some? ==> r.value in docs && rule.referenceDocId == Some(r.value.id)
    ensures r.None? <==> (rule.referenceDocId.None? ||
              forall k :: 0 <= k < |docs| ==> docs[k].id != rule.referenceDocId.value)
  {
    match rule.referenceDocId
    case None => None
    case Some(ref) => FindDocument(docs, ref)
  }

  // ---------------------------------------------------------------------
  // Selections (ComplianceAuditor.tsx:155, 177, 188)

  /** `prev.filter(id => id !== x)`. */
  function Without(s: seq<string>, x: string): (r: seq<string>)
    ensures forall y :: y in r <==> y in s && y != x
    ensures NoDuplicates(s) ==> NoDuplicates(r)
    ensures x !in s ==> r == s
  {
    if s == [] then []
    else
      var rest := Without(s[..|s| - 1], x);
      var last := s[|s| - 1];
      assert s == s[..|s| - 1] + [last];
      assert forall y :: y in s <==> y in s[..|s| - 1] || y == last;
      if last == x then rest
      else
        assert NoDuplicates(s) ==> last !in s[..|s| - 1] && last !in rest;
        rest + [last]
  }

  /** Removal distributes over concatenation, so the ids that stay keep
      their relative order. */
  lemma {:induction false} WithoutAppend(a: seq<string>, b: seq<string>, x: string)
    ensures Without(a + b, x) == Without(a, x) + Without(b, x)
    decreases |b|
  {
    if b == [] {
      assert a + b == a;
    } else {
      var b' := b[..|b| - 1];
      var last := b[|b| - 1];
      assert (a + b)[..|a + b| - 1] == a + b';
      assert (a + b)[|a + b| - 1] == last;
      WithoutAppend(a, b', x);
    }
  }

  /** Removing a selected id from a selection without repeats leaves the ids
      before it followed by the ids after it. */
  lemma WithoutSplit(a: seq<string>, b: seq<string>, x: string)
    requires x !in a && x !in b
    ensures Without(a + [x] + b, x) == a + b
  {
    WithoutAppend(a + [x], b, x);
    WithoutAppend(a, [x], x);
    assert Without([x], x) == [];
  }

  /** Clicking an id: drop it if selected, append it otherwise. */
  function Toggle(sel: seq<string>, x: string): (r: seq<string>)
    ensures x in r <==> x !in sel
    ensures forall y :: y != x ==> (y in r <==> y in sel)
    ensures NoDuplicates(sel) ==> NoDuplicates(r)
    ensures x !in sel ==> r == sel + [x]
    ensures forall a, b :: sel == a + [x] + b && x !in a && x !in b ==> r == a + b
  {
    forall a, b | sel == a + [x] + b && x !in a && x !in b
      ensures Without(sel, x) == a + b
    {
      WithoutSplit(a, b, x);
    }
    if x in sel then Without(sel, x) else sel + [x]
  }

  /** The ids of the registry's rules, in registry order. */
  function RuleIds(rules: seq<Rule>): (r: seq<string>)
    ensures |r| == |rules|
    ensures forall k :: 0 <= k < |rules| ==> r[k] == rules[k].id
  {
    if rules == [] then [] else [rules[0].id] + RuleIds(rules[1..])
  }

  /** "Select All": clears when the selection has as many entries as there
      are rules, otherwise selects every rule in registry order. */
  function SelectAll(sel: seq<string>, rules: seq<Rule>): (r: seq<string>)
    ensures |sel| == |rules| ==> r == []
    ensures |sel| != |rules| ==> (|r| == |rules| &&
              forall k :: 0 <= k < |rules| ==> r[k] == rules[k].id)
    ensures NoDuplicates(RuleIds(rules)) ==> NoDuplicates(r)
  {
    if |sel| == |rules| then [] else RuleIds(rules)
  }

  /** The "Analyze Selected" button is enabled (ComplianceAuditor.tsx:119). */
  predicate CanAnalyze(selDocs: seq<string>, selRules: seq<string>) {
    |selDocs| > 0 && |selRules| > 0
  }

  // ---------------------------------------------------------------------
  // Jobs and their updates

  /** The job `createJob` builds (ComplianceAuditor.tsx:81-90). */
  function NewJob(id: string, name: string, createdAt: int,
                  selDocs: seq<string>, selRules: seq<string>): Job
  {
    Job(id, name, createdAt, Pending, 0, map[], selDocs, selRules)
  }

  /** What one `setJobs` call writes into the matching job. */
  datatype JobPatch =
    | MarkRunning                                  // line 44
    | Publish(progress: int, results: Results)     // lines 70-74
    | MarkCompleted                                // line 77

  function Apply(j: Job, p: JobPatch): Job {
    match p
    case MarkRunning => j.(status := Running)
    case Publish(pr, rs) => j.(progress := pr, results := rs)
    case MarkCompleted => j.(status := Completed, progress := 100)
  }

  /** `prev.map(j => j.id === id ? patched : j)`. */
  function UpdateJob(jobs: seq<Job>, id: string, p: JobPatch): (r: seq<Job>)
  {
    if jobs == [] then []
    else [if jobs[0].id == id then Apply(jobs[0], p) else jobs[0]] + UpdateJob(jobs[1..], id, p)
  }

  predicate UniqueIds(jobs: seq<Job>) {
    forall k, l :: 0 <= k < l < |jobs| ==> jobs[k].id != jobs[l].id
  }

  /** The update touches exactly the one job that carries the id, when ids
      are unique. */
  lemma {:induction false} UpdateJobAt(jobs: seq<Job>, i: nat, p: JobPatch)
    requires UniqueIds(jobs) && i < |jobs|
    ensures UpdateJob(jobs, jobs[i].id, p) == jobs[i := Apply(jobs[i], p)]
  {
    if i > 0 {
      UpdateJobAt(jobs[1..], i - 1, p);
      assert jobs[1..][i - 1] == jobs[i];
    } else {
      UpdateJobAbsent(jobs[1..], jobs[0].id, p);
    }
  }

  /** An id no job carries changes nothing. */
  lemma {:induction false} UpdateJobAbsent(jobs: seq<Job>, id: string, p: JobPatch)
    requires forall k :: 0 <= k < |jobs| ==> jobs[k].id != id
    ensures UpdateJob(jobs, id, p) == jobs
  {
    if jobs != [] {
      UpdateJobAbsent(jobs[1..], id, p);
      assert jobs == [jobs[0]] + jobs[1..];
    }
  }

  /** Position of the first job with the given status (`jobs.find`). */
  function FirstWithStatus(jobs: seq<Job>, s: Status): (r: Option<nat>)
    ensures r.Some? ==> (r.value < |jobs| && jobs[r.value].status == s &&
              forall k :: 0 <= k < r.value ==> jobs[k].status != s)
    ensures r.None? <==> forall k :: 0 <= k < |jobs| ==> jobs[k].status != s
  {
    if jobs == [] then None
    else if jobs[0].status == s then Some(0)
    else match FirstWithStatus(jobs[1..], s)
      case None => None
      case Some(i) => Some(i + 1)
  }

  /** Position of the first job with the given id (`jobs.find`). */
  function FirstWithId(jobs: seq<Job>, id: string): (r: Option<nat>)
    ensures r.Some? ==> (r.value < |jobs| && jobs[r.value].id == id &&
              forall k :: 0 <= k < r.value ==> jobs[k].id != id)
    ensures r.None? <==> forall k :: 0 <= k < |jobs| ==> jobs[k].id != id
  {
    if jobs == [] then None
    else if jobs[0].id == id then Some(0)
    else match FirstWithId(jobs[1..], id)
      case None => None
      case Some(i) => Some(i + 1)
  }

  /** Because `createJob` prepends, the job the scheduler starts next is the
      newest pending one: a freshly created job is picked before every
      older pending job. */
  lemma NewestPendingFirst(job: Job, jobs: seq<Job>)
    requires job.status == Pending
    ensures FirstWithStatus([job] + jobs, Pending) == Some(0)
  {
  }

  /** The shape every job keeps (creation at ComplianceAuditor.tsx:80-93,
      updates at 44, 70-74 and 77). */
  predicate WellFormed(j: Job) {
    && |j.selectedDocIds| > 0 && |j.selectedRuleIds| > 0
    && 0 <= j.progress <= 100
    && j.results.Keys <= Elements(j.selectedDocIds)
    && j.status != Failed
    && (j.status == Pending ==> j.progress == 0 && j.results == map[])
    && (j.status == Completed ==> j.progress == 100)
  }

  /** The job list's invariant: distinct ids, at most one running job. */
  predicate JobsValid(jobs: seq<Job>) {
    && UniqueIds(jobs)
    && (forall k, l :: (0 <= k < |jobs| && 0 <= l < |jobs| &&
          jobs[k].status == Running && jobs[l].status == Running) ==> k == l)
    && (forall k :: 0 <= k < |jobs| ==> WellFormed(jobs[k]))
  }

  /** Putting a well-formed job that is not running in place of a job keeps
      the list valid, provided the id stays. */
  lemma ReplaceKeepsValid(jobs: seq<Job>, i: nat, j: Job)
    requires JobsValid(jobs) && i < |jobs|
    requires j.id == jobs[i].id && WellFormed(j) && j.status != Running
    ensures JobsValid(jobs[i := j])
  {
  }

  /** Marking a job running keeps the list valid when none was running. */
  lemma StartKeepsValid(jobs: seq<Job>, i: nat)
    requires JobsValid(jobs) && i < |jobs| && jobs[i].status == Pending
    requires forall k :: 0 <= k < |jobs| ==> jobs[k].status != Running
    ensures JobsValid(jobs[i := jobs[i].(status := Running)])
  {
  }

  /** Prepending a fresh pending job keeps the list valid. */
  lemma PrependKeepsValid(j: Job, jobs: seq<Job>)
    requires JobsValid(jobs) && WellFormed(j) && j.status == Pending
    requires forall k :: 0 <= k < |jobs| ==> jobs[k].id != j.id
    ensures JobsValid([j] + jobs)
  {
    var js := [j] + jobs;
    assert forall k :: 1 <= k < |js| ==> js[k] == jobs[k - 1];
  }

  // ---------------------------------------------------------------------
  // Progress (ComplianceAuditor.tsx:72)

  /** `Math.round(c / t * 100)` on exact rationals: halves round up. */
  function Round(c: nat, t: nat): (r: nat)
    requires t > 0
    ensures 2 * r * t <= 200 * c + t < 2 * r * t + 2 * t
  {
    (200 * c + t) / (2 * t)
  }

  lemma MulMono(a: int, b: int, t: nat)
    requires a <= b
    ensures a * t <= b * t
  {
  }

  lemma RoundBounds(c: nat, t: nat)
    requires 0 < t && c <= t
    ensures 0 <= Round(c, t) <= 100
    ensures Round(0, t) == 0 && Round(t, t) == 100
  {
    var r, r0, rt := Round(c, t), Round(0, t), Round(t, t);
    MulMono(c, t, 200);
    if r > 100 {
      MulMono(202, 2 * r, t);
    }
    if r0 > 0 {
      MulMono(2, 2 * r0, t);
    }
    if rt > 100 {
      MulMono(202, 2 * rt, t);
    }
    if rt < 100 {
      MulMono(2 * rt, 198, t);
    }
  }

  lemma RoundMonotone(c1: nat, c2: nat, t: nat)
    requires 0 < t && c1 <= c2
    ensures Round(c1, t) <= Round(c2, t)
  {
    var r1, r2 := Round(c1, t), Round(c2, t);
    MulMono(c1, c2, 200);
    if r1 > r2 {
      MulMono(2 * r2 + 2, 2 * r1, t);
    }
  }

  /** Progress reads 100 exactly when at least 99.5% of the tasks are done. */
  lemma RoundIs100(c: nat, t: nat)
    requires 0 < t && c <= t
    ensures Round(c, t) == 100 <==> 200 * c >= 199 * t
  {
    var r := Round(c, t);
    RoundBounds(c, t);
    if r == 100 {
      assert 2 * r * t == 200 * t;
    }
    if r < 100 {
      MulMono(2 * r + 2, 200, t);
    }
  }

  /** So with fewer than 200 tasks, progress is below 100 until the last one. */
  lemma RoundBelow100(c: nat, t: nat)
    requires 0 < t < 200 && c < t
    ensures Round(c, t) < 100
  {
    RoundIs100(c, t);
  }

  /** With 200 tasks or more it can read 100 early: 199 of 200 rounds up. */
  lemma RoundEarly100()
    ensures Round(199, 200) == 100
  {
  }

  // ---------------------------------------------------------------------
  // One run of processJob (ComplianceAuditor.tsx:48-77), as functions of the
  // job's selections, the registry snapshot and the invoker. They are written
  // from the end of the selection so that each loop step extends them.

  /** How many selected rule ids the registry resolves (the counted pairs of
      one row). */
  function CountFound(ruleIds: seq<string>, rules: seq<Rule>): (r: nat)
    ensures r <= |ruleIds|
  {
    if ruleIds == [] then 0
    else CountFound(ruleIds[..|ruleIds| - 1], rules) +
         (if FindRule(rules, ruleIds[|ruleIds| - 1]).Some? then 1 else 0)
  }

  /** The results the inner loop appends for `doc`, in rule order. */
  function Row(doc: Document, ruleIds: seq<string>, docs: seq<Document>,
               rules: seq<Rule>, analyze: Invoker): seq<AnalysisResult>
  {
    if ruleIds == [] then []
    else
      var prev := Row(doc, ruleIds[..|ruleIds| - 1], docs, rules, analyze);
      match FindRule(rules, ruleIds[|ruleIds| - 1])
      case None => prev
      case Some(rule) =>
        match analyze(doc, rule, TemplateFor(docs, rule))
        case None => prev
        case Some(res) => prev + [res]
  }

  /** The (document, rule) pairs the inner loop sends to the invoker. */
  function RowPairs(docId: string, ruleIds: seq<string>, rules: seq<Rule>): seq<(string, string)>
  {
    if ruleIds == [] then []
    else
      var prev := RowPairs(docId, ruleIds[..|ruleIds| - 1], rules);
      var ruleId := ruleIds[|ruleIds| - 1];
      if FindRule(rules, ruleId).Some? then prev + [(docId, ruleId)] else prev
  }

  /** The accumulated `newResults` map after the given documents. */
  function Gathered(docIds: seq<string>, ruleIds: seq<string>, docs: seq<Document>,
                    rules: seq<Rule>, analyze: Invoker): Results
  {
    if docIds == [] then map[]
    else
      var prev := Gathered(docIds[..|docIds| - 1], ruleIds, docs, rules, analyze);
      var docId := docIds[|docIds| - 1];
      match FindDocument(docs, docId)
      case None => prev
      case Some(doc) => prev[docId := Row(doc, ruleIds, docs, rules, analyze)]
  }

  /** `completedTasks` after the given documents. */
  function Counted(docIds: seq<string>, ruleIds: seq<string>, docs: seq<Document>,
                   rules: seq<Rule>): nat
  {
    if docIds == [] then 0
    else
      Counted(docIds[..|docIds| - 1], ruleIds, docs, rules) +
      (if FindDocument(docs, docIds[|docIds| - 1]).Some? then CountFound(ruleIds, rules) else 0)
  }

  /** The sequence of analysis calls after the given documents. */
  function Pairs(docIds: seq<string>, ruleIds: seq<string>, docs: seq<Document>,
                 rules: seq<Rule>): seq<(string, string)>
  {
    if docIds == [] then []
    else
      var prev := Pairs(docIds[..|docIds| - 1], ruleIds, docs, rules);
      var docId := docIds[|docIds| - 1];
      if FindDocument(docs, docId).Some? then prev + RowPairs(docId, ruleIds, rules) else prev
  }

  // One more loop step extends each of them.

  /** The outcome of one pair: None when the rule is missing or the call
      fails. */
  function Verdict(doc: Document, ruleId: string, docs: seq<Document>,
                   rules: seq<Rule>, analyze: Invoker): Option<AnalysisResult>
  {
    match FindRule(rules, ruleId)
    case None => None
    case Some(rule) => analyze(doc, rule, TemplateFor(docs, rule))
  }

  lemma RowStep(doc: Document, docId: string, ruleIds: seq<string>, b: nat, docs: seq<Document>,
                rules: seq<Rule>, analyze: Invoker)
    requires b < |ruleIds|
    ensures CountFound(ruleIds[..b + 1], rules) ==
            CountFound(ruleIds[..b], rules) + (if FindRule(rules, ruleIds[b]).Some? then 1 else 0)
    ensures Row(doc, ruleIds[..b + 1], docs, rules, analyze) ==
            Row(doc, ruleIds[..b], docs, rules, analyze) +
            (var v := Verdict(doc, ruleIds[b], docs, rules, analyze);
             if v.Some? then [v.value] else [])
    ensures RowPairs(docId, ruleIds[..b + 1], rules) ==
            RowPairs(docId, ruleIds[..b], rules) +
            (if FindRule(rules, ruleIds[b]).Some? then [(docId, ruleIds[b])] else [])
  {
    assert ruleIds[..b + 1][..b] == ruleIds[..b];
  }

  lemma GatheredStep(docIds: seq<string>, ruleIds: seq<string>, a: nat, docs: seq<Document>,
                     rules: seq<Rule>, analyze: Invoker)
    requires a < |docIds|
    ensures FindDocument(docs, docIds[a]).None? ==>
              Gathered(docIds[..a + 1], ruleIds, docs, rules, analyze) ==
              Gathered(docIds[..a], ruleIds, docs, rules, analyze)
    ensures FindDocument(docs, docIds[a]).Some? ==>
              Gathered(docIds[..a + 1], ruleIds, docs, rules, analyze) ==
              Gathered(docIds[..a], ruleIds, docs, rules, analyze)[docIds[a] :=
                Row(FindDocument(docs, docIds[a]).value, ruleIds, docs, rules, analyze)]
    ensures Counted(docIds[..a + 1], ruleIds, docs, rules) ==
            Counted(docIds[..a], ruleIds, docs, rules) +
            (if FindDocument(docs, docIds[a]).Some? then CountFound(ruleIds, rules) else 0)
    ensures Pairs(docIds[..a + 1], ruleIds, docs, rules) ==
            Pairs(docIds[..a], ruleIds, docs, rules) +
            (if FindDocument(docs, docIds[a]).Some? then RowPairs(docIds[a], ruleIds, rules) else [])
  {
    assert docIds[..a + 1][..a] == docIds[..a];
  }

  /** The results the job holds once the run is over: the last published
      snapshot. When no pair was counted nothing was published, and the job
      keeps the results it had (line 77 does not copy `newResults`). */
  function FinalResults(job: Job, docs: seq<Document>, rules: seq<Rule>, analyze: Invoker): Results
  {
    if Counted(job.selectedDocIds, job.selectedRuleIds, docs, rules) == 0 then job.results
    else Gathered(job.selectedDocIds, job.selectedRuleIds, docs, rules, analyze)
  }

  /** The job as the run leaves it. */
  function Processed(job: Job, docs: seq<Document>, rules: seq<Rule>, analyze: Invoker): Job
  {
    job.(status := Completed, progress := 100, results := FinalResults(job, docs, rules, analyze))
  }
}
