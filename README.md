# Compliance auditor: the audit-job engine

This project models the core of a compliance-audit web application in Dafny.
A user selects documents and rules. Each "Analyze Selected" click creates an
audit job over that selection. The parts modelled are:

- **Job queue and scheduler.** A scheduler starts one pending job at a time.
- **Task runner (`processJob`).** It walks the job's document × rule grid,
  calls an external analysis service per pair, and publishes a snapshot of
  the job after every counted pair.
- **Result views.** The result panel and the audit history summarise a job's
  results.
- **Registry and selections.** The application's registry holds the
  documents and rules; the workspace holds the two selections.
- **Rule form.** It validates and normalises a new rule and uploads a
  reference template.

Modules follow the program's files.

- `Types` (types.ts) holds the records and their enumerations.
- `Registry` (App.tsx) has class `Registry`. Its `documents` and `rules`
  fields are replaced by the three handlers.
- `AuditSpec` holds the pure reference definitions for the engine:
  - registry lookups, the template lookup, selection toggles, job updates
    (`UpdateJob` over a `JobPatch`) and the job invariant;
  - integer progress rounding;
  - what one run computes: `CountFound`, `Row`, `RowPairs`, `Gathered`,
    `Counted` and `Pairs`, each built from the end of the selection so that
    each loop step extends it;
  - the job as a run leaves it (`Processed`).
- `RunnerFacts` holds the properties of one run, stated about these
  functions.
- `ComplianceAuditor` (ComplianceAuditor.tsx) has class `Auditor`:
  - its fields are the job list and the two selections;
  - two ghost fields log the analysis calls and the published progress
    values of the latest run;
  - the runner's loops are `while` loops whose new state is tied to the
    `AuditSpec` functions.
- `ResultPanel` and `AuditHistory` are pure derivations over a job.
- `RuleBuilder` has class `RuleForm`, whose text fields the handlers check
  and reset.

How the code is modelled, and where what the code does differs from what its names and comments suggest:

- **Which job runs next.** The scheduler starts the *first* pending job in
  list order. `createJob` *prepends*, so that is the *newest* pending job,
  not the earliest created one. The model follows the code
  (`AuditSpec.NewestPendingFirst`, `ComplianceAuditor.Auditor.Tick`).
- **The `failed` status.** It exists, but no code path assigns it. The job
  invariant `AuditSpec.WellFormed` excludes it, and every operation
  preserves that invariant.
- **The last `setJobs`.** It sets only status and progress; it does not copy
  `newResults`. A completed job therefore holds the last *published*
  snapshot. When no pair was counted (no selected rule, or no selected
  document, resolves), nothing was published: the job completes with
  progress 100 and the empty results it was created with
  (`AuditSpec.FinalResults`).
- **Rounding.** Progress is `Math.round(100·c/t)`, modelled as
  `(200c + t) / (2t)`. It reads 100 exactly when `200c ≥ 199t`. So a run that
  skips a pair never shows 100 before the end when it has fewer than 200
  tasks, but with 200 tasks, 199 done already rounds to 100.
- **Result-panel header.** "Pass" counts the *keys* of `results` whose list
  has no deviation. An empty list counts as a pass while its row shows
  "Processing...".
- **Deviations counter.** It is `selectedDocIds.length − Pass`, so a
  document with no key yet counts as a deviation.
- **The scheduler step.** The effect (lines 35-41) together with the first
  `setJobs` of `processJob` (line 44) is one `Tick`. The rest of
  `processJob` is `RunJob`. `RunJob`'s loops are split into methods:
  - `RunDocs` (outer loop);
  - `RunRow` (inner loop);
  - `RunPair` (one pair);
  - `Finish` (line 77).
- **Outside inputs are parameters.**
  - The analysis call is a parameter `analyze` of type
    `(Document, Rule, Option<Document>) -> Option<AnalysisResult>`, where
    `None` stands for a rejected call.
  - The registry a run sees is a pair of sequences fixed for the run.
  - Random ids, clock-derived names and timestamps are taken as
    parameters.
  - The file reader's result is a parameter.

## Model

| member | source | states |
|---|---|---|
| Types.ElementsBound | components/ComplianceAuditor/ResultPanel.tsx:28-30 | proof helper, not a model of the source: a selection has at least as many positions as distinct ids, used to bound the deviation counter |
| Registry.InitialRules | App.tsx:21-24 | the registry starts with two rules, ids "1" and "2", neither with a reference document |
| Registry.WithoutRule | App.tsx:27 | the filter of `handleDeleteRule`, keeping the rules whose id differs, in order; definition, properties in `WithoutRuleMembers`, `WithoutAbsentRule` and `WithoutRuleAppend` |
| Registry.WithoutRuleMembers | App.tsx:27 | after deleting, a rule is kept iff it was present with another id; the list never grows |
| Registry.WithoutAbsentRule | App.tsx:27 | deleting an id no rule carries leaves the list unchanged |
| Registry.WithoutRuleAppend | App.tsx:27 | deleting keeps relative order: it distributes over concatenation |
| Registry.Registry.constructor | App.tsx:20-24 | no documents and the two initial rules |
| Registry.Registry.AddRule | App.tsx:26 | the rule is appended at the end; earlier rules and the documents are unchanged |
| Registry.Registry.DeleteRule | App.tsx:27 | every rule with the id is removed and the others stay in order; documents unchanged |
| Registry.Registry.AddDocument | App.tsx:28 | the document is appended at the end; earlier documents and the rules are unchanged |
| AuditSpec.FindDocument | components/ComplianceAuditor/ComplianceAuditor.tsx:53-54 | none iff no registry document has the id; otherwise a registry document with that id |
| AuditSpec.FindDocumentFirst | components/ComplianceAuditor/ComplianceAuditor.tsx:53 | the lookup returns the earliest document carrying the id |
| AuditSpec.FindRule | components/ComplianceAuditor/ComplianceAuditor.tsx:58-59 | none iff no registry rule has the id; otherwise a registry rule with that id |
| AuditSpec.FindRuleFirst | components/ComplianceAuditor/ComplianceAuditor.tsx:58 | the lookup returns the earliest rule carrying the id |
| AuditSpec.TemplateFor | components/ComplianceAuditor/ComplianceAuditor.tsx:60 | the template is a registry document whose id is the rule's reference; none iff the reference is unset or matches no document |
| AuditSpec.Without | components/ComplianceAuditor/ComplianceAuditor.tsx:155 | the filter keeps exactly the other ids, keeps a duplicate-free selection duplicate-free, and changes nothing when the id is absent |
| AuditSpec.WithoutAppend | components/ComplianceAuditor/ComplianceAuditor.tsx:155 | the filter distributes over concatenation, so the remaining ids keep their relative order |
| AuditSpec.WithoutSplit | components/ComplianceAuditor/ComplianceAuditor.tsx:155 | removing the one occurrence of an id leaves the ids before it followed by the ids after it |
| AuditSpec.Toggle | components/ComplianceAuditor/ComplianceAuditor.tsx:155 | the clicked id's membership flips, no other id's changes, an absent id is appended at the end, a selected id occurring once is removed with the other ids left in order (`a + [x] + b` becomes `a + b`), and a duplicate-free selection stays duplicate-free |
| AuditSpec.RuleIds | components/ComplianceAuditor/ComplianceAuditor.tsx:177 | the rule ids in registry order, one per rule |
| AuditSpec.SelectAll | components/ComplianceAuditor/ComplianceAuditor.tsx:177 | empty when the selection's length equals the rule count, otherwise every rule id in registry order; duplicate-free when the registry's ids are |
| AuditSpec.CanAnalyze | components/ComplianceAuditor/ComplianceAuditor.tsx:119 | the "Analyze Selected" button is enabled iff both selections are non-empty; definition, required by `Auditor.CreateJob` and implied for every job by `WellFormed` |
| AuditSpec.NewJob | components/ComplianceAuditor/ComplianceAuditor.tsx:81-90 | the job `createJob` builds: pending, progress 0, no results, copies of both selections; definition, stated by `Auditor.CreateJob` and kept valid by `PrependKeepsValid` |
| AuditSpec.Apply | components/ComplianceAuditor/ComplianceAuditor.tsx:44-77 | the three patches `setJobs` writes into the matching job: mark running (line 44), publish progress and results (lines 70-74), mark completed at 100 (line 77); definition, used by `UpdateJob` |
| AuditSpec.UpdateJob | components/ComplianceAuditor/ComplianceAuditor.tsx:44 | `prev.map(j => j.id === id ? patched : j)`; definition, properties in `UpdateJobAt` and `UpdateJobAbsent` |
| AuditSpec.UniqueIds | components/ComplianceAuditor/ComplianceAuditor.tsx:82 | no two jobs share an id, as the random ids are assumed fresh; invariant, part of `JobsValid` |
| AuditSpec.WellFormed | components/ComplianceAuditor/ComplianceAuditor.tsx:81-90 | a job has non-empty selections, progress in 0..100, keys among its selected documents, never `failed`, is empty and at 0 while pending, and at 100 once completed; invariant, kept by `ReplaceKeepsValid`, `StartKeepsValid`, `PrependKeepsValid` and `SnapshotWellFormed` |
| AuditSpec.JobsValid | components/ComplianceAuditor/ComplianceAuditor.tsx:35-44 | unique ids, at most one running job, every job well formed; the invariant `Auditor.Valid` that every state-changing method keeps |
| AuditSpec.UpdateJobAt | components/ComplianceAuditor/ComplianceAuditor.tsx:44 | with distinct ids, the `prev.map` update changes exactly the one job carrying the id |
| AuditSpec.UpdateJobAbsent | components/ComplianceAuditor/ComplianceAuditor.tsx:70-74 | the update leaves the list unchanged when no job carries the id |
| AuditSpec.FirstWithStatus | components/ComplianceAuditor/ComplianceAuditor.tsx:36-38 | `jobs.find` by status: the earliest position with that status, none iff there is none |
| AuditSpec.FirstWithId | components/ComplianceAuditor/ComplianceAuditor.tsx:45-46 | `jobs.find` by id: the earliest position with that id, none iff there is none |
| AuditSpec.NewestPendingFirst | components/ComplianceAuditor/ComplianceAuditor.tsx:38 | a pending job prepended by `createJob` is the one the scheduler picks, ahead of every older pending job |
| AuditSpec.ReplaceKeepsValid | components/ComplianceAuditor/ComplianceAuditor.tsx:77 | replacing a job by a well-formed, non-running job with the same id keeps distinct ids and at most one running job |
| AuditSpec.StartKeepsValid | components/ComplianceAuditor/ComplianceAuditor.tsx:44 | marking a pending job running when none runs keeps the list valid |
| AuditSpec.PrependKeepsValid | components/ComplianceAuditor/ComplianceAuditor.tsx:91 | prepending a fresh pending job with a new id keeps the list valid |
| AuditSpec.Round | components/ComplianceAuditor/ComplianceAuditor.tsx:72 | the result is the integer nearest to 100·c/t, halves rounding up |
| AuditSpec.RoundBounds | components/ComplianceAuditor/ComplianceAuditor.tsx:72 | for c ≤ t the progress is in 0..100, 0 tasks done reads 0 and all done reads 100 |
| AuditSpec.RoundMonotone | components/ComplianceAuditor/ComplianceAuditor.tsx:72 | more tasks done never shows less progress |
| AuditSpec.RoundIs100 | components/ComplianceAuditor/ComplianceAuditor.tsx:72 | progress reads 100 iff 200c ≥ 199t |
| AuditSpec.RoundBelow100 | components/ComplianceAuditor/ComplianceAuditor.tsx:72 | with fewer than 200 tasks, progress is below 100 until the last task is done |
| AuditSpec.RoundEarly100 | components/ComplianceAuditor/ComplianceAuditor.tsx:72 | a single counterexample witness, not a general law: 199 of 200 tasks already reads 100, so "100 only at the end" fails from 200 tasks on |
| AuditSpec.CountFound | components/ComplianceAuditor/ComplianceAuditor.tsx:57-59 | a row never counts more pairs than there are selected rules |
| AuditSpec.Row | components/ComplianceAuditor/ComplianceAuditor.tsx:57-64 | the results the inner loop appends for one document, in rule order; definition, properties in `RowLength`, `RowAppend`, `RowTagged`, `FailedPairLeavesNoResult`, `RowAllFailed` and `RowNoDeviation`; `Auditor.RunRow` proves the loop computes it |
| AuditSpec.RowPairs | components/ComplianceAuditor/ComplianceAuditor.tsx:57-63 | the (document, rule) calls one row makes; definition, properties in `RowPairsLength` |
| AuditSpec.Gathered | components/ComplianceAuditor/ComplianceAuditor.tsx:52-64 | the `newResults` map after the outer loop; definition, properties in `GatheredKeys` and `GatheredRow`; `Auditor.RunDocs` proves the loop computes it |
| AuditSpec.Counted | components/ComplianceAuditor/ComplianceAuditor.tsx:48-69 | `completedTasks` after the outer loop; definition, properties in `CountedBound`, `CountedAllFound`, `CountedShort`, `CountedNeedsRule` and `CountedAtLeastRow` |
| AuditSpec.Pairs | components/ComplianceAuditor/ComplianceAuditor.tsx:52-63 | the analysis calls of a run, document-major; definition, properties in `PairsLength` and `PairsTwoByTwo` |
| AuditSpec.Verdict | components/ComplianceAuditor/ComplianceAuditor.tsx:58-67 | the outcome of one pair: none when the rule is missing or the call is rejected, else the service result; definition, used by `Auditor.RunPair` |
| AuditSpec.RowStep | components/ComplianceAuditor/ComplianceAuditor.tsx:57-69 | one more inner step adds the pair's 0 or 1 to the count, its verdict (if any) to the row, and its call (if the rule resolves) to the pairs |
| AuditSpec.GatheredStep | components/ComplianceAuditor/ComplianceAuditor.tsx:52-69 | one more outer step leaves the map unchanged for a missing document, otherwise sets the document's key to its row, and adds the row's count and calls |
| AuditSpec.FinalResults | components/ComplianceAuditor/ComplianceAuditor.tsx:70-77 | the results left once the run is over: the last published snapshot, or the initial results when nothing was counted; definition, properties in `FinalResultsKeys` |
| AuditSpec.Processed | components/ComplianceAuditor/ComplianceAuditor.tsx:77 | the job as the run leaves it: completed, progress 100, `FinalResults`; definition, stated by `Auditor.RunJob` |
| RunnerFacts.CountedBound | components/ComplianceAuditor/ComplianceAuditor.tsx:48-69 | `completedTasks` never exceeds `totalTasks` |
| RunnerFacts.CountFoundAll | components/ComplianceAuditor/ComplianceAuditor.tsx:57-69 | a row whose rule ids all resolve counts every rule |
| RunnerFacts.CountedAllFound | components/ComplianceAuditor/ComplianceAuditor.tsx:48-69 | when every selected id resolves, `completedTasks` reaches `totalTasks` |
| RunnerFacts.CountFoundMissing | components/ComplianceAuditor/ComplianceAuditor.tsx:58-59 | a rule id the registry misses leaves the row short |
| RunnerFacts.CountedShort | components/ComplianceAuditor/ComplianceAuditor.tsx:53-59 | when some selected id does not resolve, fewer pairs are counted than `totalTasks` |
| RunnerFacts.SkippingRunBelow100 | components/ComplianceAuditor/ComplianceAuditor.tsx:69-74 | a run that skips a pair over fewer than 200 tasks publishes no progress of 100 |
| RunnerFacts.CountedNeedsRule | components/ComplianceAuditor/ComplianceAuditor.tsx:57-59 | when no selected rule resolves, nothing is counted |
| RunnerFacts.NoRuleCount | components/ComplianceAuditor/ComplianceAuditor.tsx:58-59 | a row whose rule ids all miss counts nothing |
| RunnerFacts.NoRuleFoundNothingCounted | components/ComplianceAuditor/ComplianceAuditor.tsx:53-59 | if every selected rule id misses, the run counts nothing |
| RunnerFacts.CountedAtLeastRow | components/ComplianceAuditor/ComplianceAuditor.tsx:52-69 | a selected document that resolves adds its row's count |
| RunnerFacts.RowPairsLength | components/ComplianceAuditor/ComplianceAuditor.tsx:57-63 | one analysis call per counted pair of the row, each for that document |
| RunnerFacts.PairsLength | components/ComplianceAuditor/ComplianceAuditor.tsx:52-69 | the run makes exactly `completedTasks` analysis calls |
| RunnerFacts.PairsTwoByTwo | components/ComplianceAuditor/ComplianceAuditor.tsx:52-57 | for documents [D1,D2] and rules [R1,R2] the calls are (D1,R1),(D1,R2),(D2,R1),(D2,R2) |
| RunnerFacts.GatheredKeys | components/ComplianceAuditor/ComplianceAuditor.tsx:53-55 | a document gets a results key iff it is selected and found, so the keys lie within the selection |
| RunnerFacts.GatheredRow | components/ComplianceAuditor/ComplianceAuditor.tsx:55-64 | each key holds its document's row (a document selected twice is re-run from an empty list) |
| RunnerFacts.RowAppend | components/ComplianceAuditor/ComplianceAuditor.tsx:57-64 | a row follows the rule selection's order: it distributes over concatenation |
| RunnerFacts.RowLength | components/ComplianceAuditor/ComplianceAuditor.tsx:62-69 | at most one result per counted pair, exactly one when no call fails |
| RunnerFacts.RowTagged | components/ComplianceAuditor/ComplianceAuditor.tsx:57-64 | with a tagging service, each result belongs to the document and a selected rule, and a duplicate-free rule selection gives at most one result per rule |
| RunnerFacts.FailedPairLeavesNoResult | components/ComplianceAuditor/ComplianceAuditor.tsx:62-67 | a rule whose call fails has no result in the row |
| RunnerFacts.RowAllFailed | components/ComplianceAuditor/ComplianceAuditor.tsx:62-67 | when every call fails, every row is empty |
| RunnerFacts.RowNoDeviation | components/ComplianceAuditor/ComplianceAuditor.tsx:62-64 | a service that never reports a deviation yields rows with none |
| RunnerFacts.FinalResultsKeys | components/ComplianceAuditor/ComplianceAuditor.tsx:70-77 | the finished job's keys stay within its selection |
| RunnerFacts.Tags | services/geminiService.ts:64-75 | the service tags every verdict with the candidate's and the rule's ids, on both return paths; assumption of `RowTagged` |
| ComplianceAuditor.SnapshotWellFormed | components/ComplianceAuditor/ComplianceAuditor.tsx:70-74 | every published snapshot of a running job is still a well-formed running job, so the header counters stay in range mid-run |
| ComplianceAuditor.Snapshot | components/ComplianceAuditor/ComplianceAuditor.tsx:70-74 | the job as last published after a number of counted pairs: untouched before the first, otherwise with the rounded progress and the shown results; definition, used by `Shows` and `SnapshotWellFormed` |
| ComplianceAuditor.Shows | components/ComplianceAuditor/ComplianceAuditor.tsx:70-74 | the job list equals the list at the start of the run except for the running job, which holds its snapshot; the invariant of the runner's loops, advanced by `PublishShows` |
| ComplianceAuditor.Logged | components/ComplianceAuditor/ComplianceAuditor.tsx:72 | the k-th published progress is the rounding of k + 1 counted pairs; the invariant of the progress log, properties in `LoggedProgress` |
| ComplianceAuditor.PublishShows | components/ComplianceAuditor/ComplianceAuditor.tsx:70-74 | a publish step replaces only the running job, with the new progress and results |
| ComplianceAuditor.LoggedProgress | components/ComplianceAuditor/ComplianceAuditor.tsx:72 | the published progress values lie in 0..100 and never decrease |
| ComplianceAuditor.Auditor.constructor | components/ComplianceAuditor/ComplianceAuditor.tsx:29-31 | no jobs and empty selections |
| ComplianceAuditor.Auditor.Valid | components/ComplianceAuditor/ComplianceAuditor.tsx:29 | the job list satisfies `JobsValid`; required and ensured by the constructor, the toggles, Select All, `CreateJob`, `Tick` and `RunJob`, while the run's inner steps keep `Shows` instead |
| ComplianceAuditor.Auditor.ToggleDoc | components/ComplianceAuditor/ComplianceAuditor.tsx:155 | the document selection becomes its toggle and stays duplicate-free; nothing else changes |
| ComplianceAuditor.Auditor.ToggleRule | components/ComplianceAuditor/ComplianceAuditor.tsx:188 | the rule selection becomes its toggle and stays duplicate-free; nothing else changes |
| ComplianceAuditor.Auditor.SelectAllRules | components/ComplianceAuditor/ComplianceAuditor.tsx:177 | the rule selection becomes Select All's result; nothing else changes |
| ComplianceAuditor.Auditor.CreateJob | components/ComplianceAuditor/ComplianceAuditor.tsx:80-95 | when both selections are non-empty (line 119), a pending job with progress 0, empty results and copies of the selections is prepended, both selections are cleared, and the job list stays valid |
| ComplianceAuditor.Auditor.Tick | components/ComplianceAuditor/ComplianceAuditor.tsx:35-44 | nothing changes while a job runs or when none is pending; otherwise the first pending job becomes running and is returned, and no other job changes |
| ComplianceAuditor.Auditor.RunPair | components/ComplianceAuditor/ComplianceAuditor.tsx:58-74 | a missing rule changes nothing; a found one makes one call, appends the verdict only on success, counts the pair either way and publishes the rounded progress |
| ComplianceAuditor.Auditor.RunRow | components/ComplianceAuditor/ComplianceAuditor.tsx:57-75 | the document's list becomes its row, the count grows by the row's counted pairs, and the calls are the row's pairs in rule order |
| ComplianceAuditor.Auditor.RunDocs | components/ComplianceAuditor/ComplianceAuditor.tsx:52-76 | after the loop the results are `Gathered`, the count is `Counted`, the calls are `Pairs`, and each published value is the rounding of its own count |
| ComplianceAuditor.Auditor.Finish | components/ComplianceAuditor/ComplianceAuditor.tsx:77 | the job as last published is marked completed with progress 100, and the list stays valid |
| ComplianceAuditor.Auditor.RunJob | components/ComplianceAuditor/ComplianceAuditor.tsx:45-77 | an unknown id changes nothing; otherwise only that job changes, to its processed form; the calls are the doc-major pairs; the number of published snapshots is the count (≤ `totalTasks`); and their progress values are the roundings, within 0..100 and non-decreasing |
| ResultPanel.AnyDeviation | components/ComplianceAuditor/ResultPanel.tsx:72 | true iff some result in the list has a deviation |
| ResultPanel.CompliantKeys | components/ComplianceAuditor/ResultPanel.tsx:29 | the keys whose list reports no deviation, an empty list included; definition, properties in `KeysPartition` |
| ResultPanel.DeviatingKeys | components/ComplianceAuditor/ResultPanel.tsx:29 | the keys whose list reports a deviation; definition, properties in `KeysPartition` |
| ResultPanel.CompliantDocs | components/ComplianceAuditor/ResultPanel.tsx:29 | the "Pass" counter `compliantDocs`; definition, properties in `KeysPartition` and `HeaderCounts` |
| ResultPanel.DeviationCount | components/ComplianceAuditor/ResultPanel.tsx:30 | the "Deviations" counter `deviationCount`, an `int` since nothing keeps it non-negative; definition, properties in `HeaderCounts`, `FinishedHeaderCounts`, `DeviationCountNonNegative` and `WellFormedDeviationCount` |
| ResultPanel.KeysPartition | components/ComplianceAuditor/ResultPanel.tsx:27-29 | every key either passes or deviates, never both, so the two counts add to the number of keys |
| ResultPanel.HeaderCounts | components/ComplianceAuditor/ResultPanel.tsx:28-30 | Pass + Deviations equals the number of selected documents, mid-run included; Deviations is the number of deviating keys plus the selection's length minus the number of keys (with repeated ids this is more than the positions without a key) |
| ResultPanel.ElementsDistinct | components/ComplianceAuditor/ResultPanel.tsx:28 | proof helper, not a model of the source: a duplicate-free selection has as many distinct ids as positions, used by `FinishedHeaderCounts` |
| ResultPanel.FinishedHeaderCounts | components/ComplianceAuditor/ResultPanel.tsx:28-30 | with no repeats and a key for every selected document, Deviations is exactly the number of deviating documents |
| ResultPanel.SubsetCard | components/ComplianceAuditor/ResultPanel.tsx:29 | proof helper, not a model of the source: a subset has no more elements than its superset, used by `DeviationCountNonNegative` |
| ResultPanel.DeviationCountNonNegative | components/ComplianceAuditor/ResultPanel.tsx:28-30 | when the keys lie within the selection, Deviations is between 0 and the selection's length |
| ResultPanel.WellFormedDeviationCount | components/ComplianceAuditor/ResultPanel.tsx:28-30 | so every job of a valid list shows Deviations between 0 and the selection's length |
| ResultPanel.DocResults | components/ComplianceAuditor/ResultPanel.tsx:71 | `job.results[docId] || []`; definition, properties in `MissingKeyRow` |
| ResultPanel.FirstDeviation | components/ComplianceAuditor/ResultPanel.tsx:74 | the earliest position with a deviation, none iff there is none |
| ResultPanel.TopResult | components/ComplianceAuditor/ResultPanel.tsx:74 | the first deviating result if any, else the first result, else none (iff the list is empty) |
| ResultPanel.StatusLabel | components/ComplianceAuditor/ResultPanel.tsx:85-93 | Processing iff the list is empty, Deviation Found iff some result deviates, Compliant iff the list is non-empty and none does |
| ResultPanel.SummaryText | components/ComplianceAuditor/ResultPanel.tsx:97 | "Awaiting data..." for an empty list, otherwise the summary of the first deviating result, or of the first result when none deviates |
| ResultPanel.ViewOf | components/ComplianceAuditor/ResultPanel.tsx:70-97 | one row's view: its deviation flag, whether it is processed, its status cell and its summary; definition, used by `Rows`, properties in `MissingKeyRow` and `EmptyListPassesButProcessing` |
| ResultPanel.Rows | components/ComplianceAuditor/ResultPanel.tsx:70-74 | one row per selected document in selection order, each built from that document's list, or [] without a key |
| ResultPanel.MissingKeyRow | components/ComplianceAuditor/ResultPanel.tsx:71-97 | a document without a key shows no deviation, Processing and "Awaiting data..." |
| ResultPanel.EmptyListPassesButProcessing | components/ComplianceAuditor/ResultPanel.tsx:29-93 | a key holding an empty list counts as Pass while its row shows Processing |
| ResultPanel.FailedRunReadsPassAndProcessing | components/ComplianceAuditor/ResultPanel.tsx:29-93 | when every call fails, a found selected document ends with an empty key: Pass in the header, Processing in its row |
| AuditHistory.HasDeviations | components/ComplianceAuditor/AuditHistory.tsx:40 | true iff some result in some document's list has a deviation |
| AuditHistory.HasDeviationsIffSomeKeyFails | components/ComplianceAuditor/AuditHistory.tsx:40 | the flag is set iff fewer keys pass than there are keys |
| AuditHistory.TotalChecks | components/ComplianceAuditor/AuditHistory.tsx:41 | `totalChecks`, the product of the two selection lengths; definition, properties in `TotalChecksBoundsRun` |
| AuditHistory.TotalChecksBoundsRun | components/ComplianceAuditor/AuditHistory.tsx:41 | a run counts at most `totalChecks` pairs, exactly that many when every selected id resolves |
| AuditHistory.OutcomeBanner | components/ComplianceAuditor/AuditHistory.tsx:97-106 | a banner only for completed jobs: Deviations Detected iff the flag is set, otherwise All Compliant |
| AuditHistory.NoResultsAllCompliant | components/ComplianceAuditor/AuditHistory.tsx:97-106 | a completed job without results reads All Compliant |
| AuditHistory.NoDeviationRunAllCompliant | components/ComplianceAuditor/AuditHistory.tsx:97-106 | a run whose service never reports a deviation ends All Compliant |
| AuditHistory.ButtonOf | components/ComplianceAuditor/AuditHistory.tsx:112-127 | the view button is disabled iff the job is pending and shows Processing... iff it is running |
| AuditHistory.CardOf | components/ComplianceAuditor/AuditHistory.tsx:44-127 | one card: id, name, status, progress, the two selection sizes, the outcome banner and the view button; definition, used by `HistoryView` |
| AuditHistory.HistoryView | components/ComplianceAuditor/AuditHistory.tsx:20-38 | the empty state iff there are no jobs, otherwise one card per job in list order |
| AuditHistory.NewJobHeadsHistory | components/ComplianceAuditor/AuditHistory.tsx:38-113 | a newly created job is the first card, with its button disabled |
| RuleBuilder.NormalizeRef | components/ComplianceAuditor/RuleBuilder.tsx:36 | "" becomes no reference, any other value is kept as is |
| RuleBuilder.CanSave | components/ComplianceAuditor/RuleBuilder.tsx:31 | both text fields are filled: the guard of `handleSave` and the enabling condition of the Save button; definition, used by `RuleForm.Save` and `RuleForm.SaveDisabled` |
| RuleBuilder.SelectorValue | components/ComplianceAuditor/RuleBuilder.tsx:106 | the selector value that shows a reference, "" for none; definition, properties in `NormalizeRoundTrip` |
| RuleBuilder.NormalizeRoundTrip | components/ComplianceAuditor/RuleBuilder.tsx:36 | normalising the selector value of a reference gives it back, and the reverse |
| RuleBuilder.NoReferenceNoTemplate | components/ComplianceAuditor/RuleBuilder.tsx:36 | a rule saved with the "" option is analysed without a template |
| RuleBuilder.TemplateDocument | components/ComplianceAuditor/RuleBuilder.tsx:48-56 | a local document with the given id, named "TEMPLATE: " + file name, with the file's type and size, and empty content when nothing was read |
| RuleBuilder.RuleForm.constructor | components/ComplianceAuditor/RuleBuilder.tsx:24-27 | form hidden, all fields empty |
| RuleBuilder.RuleForm.Open | components/ComplianceAuditor/RuleBuilder.tsx:69 | the form is shown; the fields are kept |
| RuleBuilder.RuleForm.Cancel | components/ComplianceAuditor/RuleBuilder.tsx:129 | the form is hidden; the fields are kept |
| RuleBuilder.RuleForm.Edit | components/ComplianceAuditor/RuleBuilder.tsx:87-123 | the inputs set name, instruction and reference |
| RuleBuilder.RuleForm.SaveDisabled | components/ComplianceAuditor/RuleBuilder.tsx:135 | the Save button is disabled iff a text field is empty; definition, used by `RuleForm.Save` |
| RuleBuilder.RuleForm.Save | components/ComplianceAuditor/RuleBuilder.tsx:30-40 | nothing changes when the Save button would be disabled (line 135); otherwise the registry gains the rule with the typed name and instruction and the normalised reference, the fields are reset and the form is hidden; documents are unchanged |
| RuleBuilder.RuleForm.UploadTemplate | components/ComplianceAuditor/RuleBuilder.tsx:42-61 | without a file or handler nothing changes; otherwise the template document is appended to the registry and selected as the reference; the rules are unchanged |

## Left out

- The analysis service (services/geminiService.ts) is a foreign SDK call with a prompt and JSON parsing. It is the parameter `analyze`.
  - `RunnerFacts.Tags` states its id-tagging postcondition as an assumption of the lemmas that need it.
  - The real service never rejects, because it turns every error into a non-deviating fallback. The model still lets a call fail, because the runner handles that case.
- The analysis service is a pure function of the document, rule and template. A pair analysed twice in one run (an id repeated in a selection) therefore gets the same verdict both times; the remote model call need not repeat itself, and the model does not capture that.
- The `console.error` logging in the per-pair catch (ComplianceAuditor.tsx:66) is output only and is left out; the model keeps the catch's effect, that the pair adds no result but is still counted.
- Asynchrony is left out. This covers React's batching of state updates, the effect re-running mid-run, the stale `jobs` closure used by `processJob`, and `setJobs([newJob, ...jobs])` overwriting concurrent updates. Each job run is an ordinary sequential loop, and the scheduler is an explicit `Tick` call.
- The template upload's `FileReader` is left out: its `onload` step runs at once with the read text as a parameter. RepositoryManager.tsx, with its file I/O and stub cloud connectors, is not part of this model.
- `Math.random` ids, `Date` names and timestamps are parameters: the new id is assumed fresh, and a timestamp is an opaque `int`.
- Floating point is left out: `Math.round(c / t * 100)` is computed on exact rationals.
- `totalTasks = 0` (which would give NaN) is left out. The submit guard at line 119 rules it out, and the job invariant requires non-empty selections.
- JSX, styling, view switching, the detail overlay and the `getDocName`/`getRuleName` display fallbacks are left out, as are vite.config.ts and the environment mapping.
- ComplianceAuditor.Auditor.RunJob: the job and registry are read once when the run starts, and the ghost logs are reset per run. The model does not capture edits to the registry made during a run.
