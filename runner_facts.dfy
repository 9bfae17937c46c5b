/** Properties of one run of `processJob` (ComplianceAuditor.tsx:48-77),
    stated about the reference functions of AuditSpec. */
module RunnerFacts {
  import opened Types
  import opened AuditSpec

  /** The invoker tags every verdict with the candidate's and the rule's ids,
      as the service wrapper does on both of its return paths. */
  ghost predicate Tags(analyze: Invoker) {
    forall d, r, t :: analyze(d, r, t).Some? ==>
      analyze(d, r, t).value.docId == d.id && analyze(d, r, t).value.ruleId == r.id
  }

  /** Never more counted pairs than the product of the selections. */
  lemma {:induction false} CountedBound(docIds: seq<string>, ruleIds: seq<string>,
                                        docs: seq<Document>, rules: seq<Rule>)
    ensures Counted(docIds, ruleIds, docs, rules) <= |docIds| * |ruleIds|
  {
    if docIds != [] {
      var n := |docIds|;
      CountedBound(docIds[..n - 1], ruleIds, docs, rules);
      MulSucc(n - 1, |ruleIds|);
    }
  }

  lemma MulSucc(a: nat, m: nat)
    ensures a * m + m == (a + 1) * m
  {
  }

  lemma {:induction false} CountFoundAll(ruleIds: seq<string>, rules: seq<Rule>)
    requires forall k :: 0 <= k < |ruleIds| ==> FindRule(rules, ruleIds[k]).Some?
    ensures CountFound(ruleIds, rules) == |ruleIds|
  {
    if ruleIds != [] {
      CountFoundAll(ruleIds[..|ruleIds| - 1], rules);
    }
  }

  /** When every selected id resolves, every pair is counted, so the last
      published progress is 100 and `completedTasks` equals the history's
      `totalChecks`. */
  lemma {:induction false} CountedAllFound(docIds: seq<string>, ruleIds: seq<string>,
                                           docs: seq<Document>, rules: seq<Rule>)
    requires forall k :: 0 <= k < |docIds| ==> FindDocument(docs, docIds[k]).Some?
    requires forall k :: 0 <= k < |ruleIds| ==> FindRule(rules, ruleIds[k]).Some?
    ensures Counted(docIds, ruleIds, docs, rules) == |docIds| * |ruleIds|
  {
    if docIds != [] {
      var n, m := |docIds|, |ruleIds|;
      var pre := docIds[..n - 1];
      assert forall k :: 0 <= k < |pre| ==> pre[k] == docIds[k];
      CountedAllFound(pre, ruleIds, docs, rules);
      CountFoundAll(ruleIds, rules);
      assert FindDocument(docs, docIds[n - 1]).Some?;
      assert Counted(docIds, ruleIds, docs, rules) == (n - 1) * m + m;
      MulSucc(n - 1, m);
    }
  }

  /** One analysis call per counted pair. */
  lemma {:induction false} RowPairsLength(docId: string, ruleIds: seq<string>, rules: seq<Rule>)
    ensures |RowPairs(docId, ruleIds, rules)| == CountFound(ruleIds, rules)
    ensures forall k :: 0 <= k < |RowPairs(docId, ruleIds, rules)| ==>
              RowPairs(docId, ruleIds, rules)[k].0 == docId
  {
    if ruleIds != [] {
      RowPairsLength(docId, ruleIds[..|ruleIds| - 1], rules);
    }
  }

  lemma {:induction false} PairsLength(docIds: seq<string>, ruleIds: seq<string>,
                                       docs: seq<Document>, rules: seq<Rule>)
    ensures |Pairs(docIds, ruleIds, docs, rules)| == Counted(docIds, ruleIds, docs, rules)
  {
    if docIds != [] {
      PairsLength(docIds[..|docIds| - 1], ruleIds, docs, rules);
      RowPairsLength(docIds[|docIds| - 1], ruleIds, rules);
    }
  }

  /** Doc-major order: for documents [D1, D2] and rules [R1, R2] that all
      resolve, the calls are (D1,R1), (D1,R2), (D2,R1), (D2,R2). */
  lemma PairsTwoByTwo(d1: Document, d2: Document, r1: Rule, r2: Rule)
    requires d1.id != d2.id && r1.id != r2.id
    ensures Pairs([d1.id, d2.id], [r1.id, r2.id], [d1, d2], [r1, r2]) ==
            [(d1.id, r1.id), (d1.id, r2.id), (d2.id, r1.id), (d2.id, r2.id)]
  {
    var ds, rs := [d1, d2], [r1, r2];
    var rids := [r1.id, r2.id];
    assert FindDocument(ds, d1.id) == Some(d1) && FindDocument(ds, d2.id) == Some(d2);
    assert FindRule(rs, r1.id) == Some(r1) && FindRule(rs, r2.id) == Some(r2);
    assert rids[..1] == [r1.id];
    assert RowPairs(d1.id, [r1.id], rs) == [(d1.id, r1.id)];
    assert RowPairs(d2.id, [r1.id], rs) == [(d2.id, r1.id)];
    assert [d1.id, d2.id][..1] == [d1.id];
    assert Pairs([d1.id], rids, ds, rs) == [(d1.id, r1.id), (d1.id, r2.id)];
  }

  /** A document gets a results key exactly when it is selected and found;
      so the keys lie within the selection. */
  lemma {:induction false} GatheredKeys(docIds: seq<string>, ruleIds: seq<string>,
                                        docs: seq<Document>, rules: seq<Rule>, analyze: Invoker)
    ensures forall d :: d in Gathered(docIds, ruleIds, docs, rules, analyze) <==>
              d in docIds && FindDocument(docs, d).Some?
    ensures Gathered(docIds, ruleIds, docs, rules, analyze).Keys <= Elements(docIds)
  {
    if docIds != [] {
      var n := |docIds|;
      GatheredKeys(docIds[..n - 1], ruleIds, docs, rules, analyze);
      assert docIds == docIds[..n - 1] + [docIds[n - 1]];
    }
  }

  /** Each key holds the row of its document's last run; a document selected
      twice is re-run and holds the row of that last run. */
  lemma {:induction false} GatheredRow(docIds: seq<string>, ruleIds: seq<string>,
                                       docs: seq<Document>, rules: seq<Rule>, analyze: Invoker,
                                       d: string)
    requires d in Gathered(docIds, ruleIds, docs, rules, analyze)
    ensures FindDocument(docs, d).Some?
    ensures Gathered(docIds, ruleIds, docs, rules, analyze)[d] ==
            Row(FindDocument(docs, d).value, ruleIds, docs, rules, analyze)
  {
    var n := |docIds|;
    if docIds[n - 1] != d || FindDocument(docs, d).None? {
      GatheredRow(docIds[..n - 1], ruleIds, docs, rules, analyze, d);
    }
  }

  /** The row follows the rule selection's order: it distributes over
      concatenation of the selection. */
  lemma {:induction false} RowAppend(doc: Document, a: seq<string>, b: seq<string>,
                                     docs: seq<Document>, rules: seq<Rule>, analyze: Invoker)
    ensures Row(doc, a + b, docs, rules, analyze) ==
            Row(doc, a, docs, rules, analyze) + Row(doc, b, docs, rules, analyze)
  {
    if b == [] {
      assert a + b == a;
    } else {
      var b' := b[..|b| - 1];
      assert (a + b)[..|a + b| - 1] == a + b';
      assert (a + b)[|a + b| - 1] == b[|b| - 1];
      RowAppend(doc, a, b', docs, rules, analyze);
    }
  }

  /** At most one result per counted pair; exactly one when no call fails. */
  lemma {:induction false} RowLength(doc: Document, ruleIds: seq<string>,
                                     docs: seq<Document>, rules: seq<Rule>, analyze: Invoker)
    ensures |Row(doc, ruleIds, docs, rules, analyze)| <= CountFound(ruleIds, rules)
    ensures (forall r :: analyze(doc, r, TemplateFor(docs, r)).Some?) ==>
              |Row(doc, ruleIds, docs, rules, analyze)| == CountFound(ruleIds, rules)
  {
    if ruleIds != [] {
      RowLength(doc, ruleIds[..|ruleIds| - 1], docs, rules, analyze);
    }
  }

  /** With a tagging invoker every result in the row belongs to the document
      and to a selected rule; with a duplicate-free rule selection no rule
      has two results. */
  lemma {:induction false} RowTagged(doc: Document, ruleIds: seq<string>,
                                     docs: seq<Document>, rules: seq<Rule>, analyze: Invoker)
    requires Tags(analyze)
    ensures forall k :: 0 <= k < |Row(doc, ruleIds, docs, rules, analyze)| ==>
              Row(doc, ruleIds, docs, rules, analyze)[k].docId == doc.id &&
              Row(doc, ruleIds, docs, rules, analyze)[k].ruleId in ruleIds
    ensures NoDuplicates(ruleIds) ==>
              forall k, l :: 0 <= k < l < |Row(doc, ruleIds, docs, rules, analyze)| ==>
                Row(doc, ruleIds, docs, rules, analyze)[k].ruleId !=
                Row(doc, ruleIds, docs, rules, analyze)[l].ruleId
  {
    if ruleIds != [] {
      var pre := ruleIds[..|ruleIds| - 1];
      RowTagged(doc, pre, docs, rules, analyze);
      assert ruleIds == pre + [ruleIds[|ruleIds| - 1]];
      assert NoDuplicates(ruleIds) ==> NoDuplicates(pre) && ruleIds[|ruleIds| - 1] !in pre;
    }
  }

  /** A pair whose call fails leaves no result for that rule in the row, and
      the run still counts it. */
  lemma {:induction false} FailedPairLeavesNoResult(doc: Document, ruleIds: seq<string>,
                                                    docs: seq<Document>, rules: seq<Rule>,
                                                    analyze: Invoker, ruleId: string)
    requires Tags(analyze)
    requires forall r :: r in rules && r.id == ruleId ==> analyze(doc, r, TemplateFor(docs, r)).None?
    ensures forall k :: 0 <= k < |Row(doc, ruleIds, docs, rules, analyze)| ==>
              Row(doc, ruleIds, docs, rules, analyze)[k].ruleId != ruleId
  {
    if ruleIds != [] {
      FailedPairLeavesNoResult(doc, ruleIds[..|ruleIds| - 1], docs, rules, analyze, ruleId);
    }
  }

  /** The finished job keeps its results keys inside its selection. */
  lemma FinalResultsKeys(job: Job, docs: seq<Document>, rules: seq<Rule>, analyze: Invoker)
    requires job.results.Keys <= Elements(job.selectedDocIds)
    ensures FinalResults(job, docs, rules, analyze).Keys <= Elements(job.selectedDocIds)
  {
    GatheredKeys(job.selectedDocIds, job.selectedRuleIds, docs, rules, analyze);
  }

  /** When no selected rule resolves, nothing is counted or published: the
      job completes with the results it was created with. */
  lemma {:induction false} NoRuleFoundNothingCounted(docIds: seq<string>, ruleIds: seq<string>,
                                                   docs: seq<Document>, rules: seq<Rule>)
    requires forall k :: 0 <= k < |ruleIds| ==> FindRule(rules, ruleIds[k]).None?
    ensures Counted(docIds, ruleIds, docs, rules) == 0
  {
    NoRuleCount(ruleIds, rules);
    if docIds != [] {
      NoRuleFoundNothingCounted(docIds[..|docIds| - 1], ruleIds, docs, rules);
    }
  }

  /** Pairs are counted only if some selected rule resolves. */
  lemma {:induction false} CountedNeedsRule(docIds: seq<string>, ruleIds: seq<string>,
                                            docs: seq<Document>, rules: seq<Rule>)
    requires CountFound(ruleIds, rules) == 0
    ensures Counted(docIds, ruleIds, docs, rules) == 0
  {
    if docIds != [] {
      CountedNeedsRule(docIds[..|docIds| - 1], ruleIds, docs, rules);
    }
  }

  lemma {:induction false} NoRuleCount(ruleIds: seq<string>, rules: seq<Rule>)
    requires forall k :: 0 <= k < |ruleIds| ==> FindRule(rules, ruleIds[k]).None?
    ensures CountFound(ruleIds, rules) == 0
  {
    if ruleIds != [] {
      NoRuleCount(ruleIds[..|ruleIds| - 1], rules);
    }
  }

  /** With an invoker that always fails, every row is empty. */
  lemma {:induction false} RowAllFailed(doc: Document, ruleIds: seq<string>,
                                        docs: seq<Document>, rules: seq<Rule>, analyze: Invoker)
    requires forall d, r, t :: analyze(d, r, t).None?
    ensures Row(doc, ruleIds, docs, rules, analyze) == []
  {
    if ruleIds != [] {
      RowAllFailed(doc, ruleIds[..|ruleIds| - 1], docs, rules, analyze);
    }
  }

  /** With an invoker that never reports a deviation, no result in the row
      reports one. */
  lemma {:induction false} RowNoDeviation(doc: Document, ruleIds: seq<string>,
                                          docs: seq<Document>, rules: seq<Rule>, analyze: Invoker)
    requires forall d, r, t :: analyze(d, r, t).Some? ==> !analyze(d, r, t).value.hasDeviation
    ensures forall k :: 0 <= k < |Row(doc, ruleIds, docs, rules, analyze)| ==>
              !Row(doc, ruleIds, docs, rules, analyze)[k].hasDeviation
  {
    if ruleIds != [] {
      RowNoDeviation(doc, ruleIds[..|ruleIds| - 1], docs, rules, analyze);
    }
  }

  /** A selected document that resolves contributes its row's count. */
  lemma {:induction false} CountedAtLeastRow(docIds: seq<string>, ruleIds: seq<string>,
                                             docs: seq<Document>, rules: seq<Rule>, d: string)
    requires d in docIds && FindDocument(docs, d).Some?
    ensures Counted(docIds, ruleIds, docs, rules) >= CountFound(ruleIds, rules)
  {
    var n := |docIds|;
    if docIds[n - 1] != d {
      assert d in docIds[..n - 1] by {
        var k :| 0 <= k < n && docIds[k] == d;
        assert docIds[..n - 1][k] == d;
      }
      CountedAtLeastRow(docIds[..n - 1], ruleIds, docs, rules, d);
    }
  }

  /** A selected rule id the registry misses leaves the row short. */
  lemma {:induction false} CountFoundMissing(ruleIds: seq<string>, rules: seq<Rule>, k: nat)
    requires k < |ruleIds| && FindRule(rules, ruleIds[k]).None?
    ensures CountFound(ruleIds, rules) < |ruleIds|
  {
    var n := |ruleIds|;
    if k < n - 1 {
      assert ruleIds[..n - 1][k] == ruleIds[k];
      CountFoundMissing(ruleIds[..n - 1], rules, k);
    }
  }

  /** When some selected id does not resolve, fewer pairs are counted than
      the product of the selections. */
  lemma {:induction false} CountedShort(docIds: seq<string>, ruleIds: seq<string>,
                                        docs: seq<Document>, rules: seq<Rule>)
    requires |docIds| > 0 && |ruleIds| > 0
    requires (exists k :: 0 <= k < |docIds| && FindDocument(docs, docIds[k]).None?) ||
             (exists k :: 0 <= k < |ruleIds| && FindRule(rules, ruleIds[k]).None?)
    ensures Counted(docIds, ruleIds, docs, rules) < |docIds| * |ruleIds|
  {
    var n, m := |docIds|, |ruleIds|;
    var pre := docIds[..n - 1];
    CountedBound(pre, ruleIds, docs, rules);
    MulSucc(n - 1, m);
    if exists k :: 0 <= k < m && FindRule(rules, ruleIds[k]).None? {
      var k :| 0 <= k < m && FindRule(rules, ruleIds[k]).None?;
      CountFoundMissing(ruleIds, rules, k);
    } else {
      var k :| 0 <= k < n && FindDocument(docs, docIds[k]).None?;
      if k < n - 1 {
        assert pre[k] == docIds[k];
        CountedShort(pre, ruleIds, docs, rules);
      }
    }
  }

  /** So a run that skips some pair over fewer than 200 tasks never publishes
      100 before the final update; with 200 tasks or more it can (see
      AuditSpec.RoundEarly100). */
  lemma SkippingRunBelow100(job: Job, docs: seq<Document>, rules: seq<Rule>)
    requires |job.selectedDocIds| > 0 && |job.selectedRuleIds| > 0
    requires |job.selectedDocIds| * |job.selectedRuleIds| < 200
    requires (exists k :: 0 <= k < |job.selectedDocIds| && FindDocument(docs, job.selectedDocIds[k]).None?) ||
             (exists k :: 0 <= k < |job.selectedRuleIds| && FindRule(rules, job.selectedRuleIds[k]).None?)
    ensures forall c :: 1 <= c <= Counted(job.selectedDocIds, job.selectedRuleIds, docs, rules) ==>
              Round(c, |job.selectedDocIds| * |job.selectedRuleIds|) < 100
  {
    var total := |job.selectedDocIds| * |job.selectedRuleIds|;
    CountedShort(job.selectedDocIds, job.selectedRuleIds, docs, rules);
    forall c | 1 <= c <= Counted(job.selectedDocIds, job.selectedRuleIds, docs, rules)
      ensures Round(c, total) < 100
    {
      RoundBelow100(c, total);
    }
  }
}
