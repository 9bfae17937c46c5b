/** The application's catalog of documents and rules (App.tsx). The two
    lists are state cells that the handlers replace with updated copies. */
module Registry {
  import opened Types

  /** The two rules the application starts with (App.tsx:21-24). */
  function InitialRules(): (r: seq<Rule>)
    ensures |r| == 2 && r[0].id == "1" && r[1].id == "2"
    ensures forall k :: 0 <= k < |r| ==> r[k].referenceDocId == None
  {
    [ Rule("1", "NDA Verification",
           "Check if the confidentiality period is at least 5 years.", None),
      Rule("2", "Liability Clause",
           "Ensure liability is capped appropriately.", None) ]
  }

  /** The rules whose id differs from `id`, in their original order
      (the filter of App.tsx:27). */
  function WithoutRule(rules: seq<Rule>, id: string): (r: seq<Rule>)
  {
    if rules == [] then []
    else
      var rest := WithoutRule(rules[..|rules| - 1], id);
      var last := rules[|rules| - 1];
      if last.id == id then rest else rest + [last]
  }

  /** Deleting keeps exactly the rules with another id. */
  lemma {:induction false} WithoutRuleMembers(rules: seq<Rule>, id: string)
    ensures forall x :: x in WithoutRule(rules, id) <==> x in rules && x.id != id
    ensures |WithoutRule(rules, id)| <= |rules|
  {
    if rules != [] {
      WithoutRuleMembers(rules[..|rules| - 1], id);
      assert rules == rules[..|rules| - 1] + [rules[|rules| - 1]];
    }
  }

  /** Deleting an id no rule carries changes nothing. */
  lemma {:induction false} WithoutAbsentRule(rules: seq<Rule>, id: string)
    requires forall k :: 0 <= k < |rules| ==> rules[k].id != id
    ensures WithoutRule(rules, id) == rules
  {
    if rules != [] {
      WithoutAbsentRule(rules[..|rules| - 1], id);
      assert rules == rules[..|rules| - 1] + [rules[|rules| - 1]];
    }
  }

  /** Deleting keeps the relative order: it distributes over concatenation. */
  lemma {:induction false} WithoutRuleAppend(a: seq<Rule>, b: seq<Rule>, id: string)
    ensures WithoutRule(a + b, id) == WithoutRule(a, id) + WithoutRule(b, id)
  {
    if b == [] {
      assert a + b == a;
    } else {
      var b' := b[..|b| - 1];
      assert (a + b)[..|a + b| - 1] == a + b';
      assert (a + b)[|a + b| - 1] == b[|b| - 1];
      WithoutRuleAppend(a, b', id);
    }
  }

  class Registry {
    var documents: seq<Document>
    var rules: seq<Rule>

    /** The initial state of App.tsx:20-24. */
    constructor ()
      ensures documents == [] && rules == InitialRules()
    {
      documents := [];
      rules := InitialRules();
    }

    /** handleAddRule (App.tsx:26): append at the end. */
    method AddRule(r: Rule)
      modifies this
      ensures rules == old(rules) + [r]
      ensures documents == old(documents)
    {
      rules := rules + [r];
    }

    /** handleDeleteRule (App.tsx:27): drop every rule with that id. */
    method DeleteRule(id: string)
      modifies this
      ensures rules == WithoutRule(old(rules), id)
      ensures forall x :: x in rules <==> x in old(rules) && x.id != id
      ensures documents == old(documents)
    {
      WithoutRuleMembers(rules, id);
      rules := WithoutRule(rules, id);
    }

    /** handleAddDocument (App.tsx:28): append at the end. */
    method AddDocument(d: Document)
      modifies this
      ensures documents == old(documents) + [d]
      ensures rules == old(rules)
    {
      documents := documents + [d];
    }
  }
}
