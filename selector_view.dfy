/** What the selector renders, reduced to the facts that matter for selection:
    which of the three category rows is marked selected, which rule rows are
    shown, and which of those are marked selected. */
module SelectorView {
  import opened RuleIds

  /** One entry of the instance's rule catalog. */
  datatype Rule = Rule(id: RuleId, text: string)

  /** A `Rule` row: the catalog entry it shows and whether it is marked selected. */
  datatype RuleRow = RuleRow(id: RuleId, text: string, selected: bool)

  /** A `Category` row: its id, whether it is marked selected, and the rule rows
      handed to it as children (only the `violation` row has any). */
  datatype CategoryRow = CategoryRow(id: string, selected: bool, children: seq<RuleRow>)

  const Other: string := "other"
  const Spam: string := "spam"
  const Violation: string := "violation"

  /** The category rows in the order they are rendered. */
  const CategoryIds: seq<string> := [Other, Spam, Violation]

  /** One `Rule` row per catalog entry, in catalog order, each marked selected
      exactly when its id is among the selected rule ids. */
  function RuleRows(rules: seq<Rule>, ruleIds: seq<RuleId>): (rows: seq<RuleRow>)
    ensures |rows| == |rules|
    ensures forall i :: 0 <= i < |rules| ==> rows[i].id == rules[i].id && rows[i].text == rules[i].text
    ensures forall i :: 0 <= i < |rules| ==> (rows[i].selected <==> rules[i].id in ruleIds)
  {
    if rules == [] then []
    else [RuleRow(rules[0].id, rules[0].text, rules[0].id in ruleIds)] + RuleRows(rules[1..], ruleIds)
  }

  /** The three category rows, in order `other`, `spam`, `violation`, each marked selected
      exactly when its id equals the current category; only the `violation` row carries
      the rule rows as children. */
  function CategoryRows(category: string, rules: seq<Rule>, ruleIds: seq<RuleId>): (rows: seq<CategoryRow>)
    ensures |rows| == |CategoryIds|
    ensures forall i :: 0 <= i < |rows| ==> rows[i].id == CategoryIds[i] && (rows[i].selected <==> rows[i].id == category)
    ensures rows[0].children == [] && rows[1].children == [] && rows[2].children == RuleRows(rules, ruleIds)
  {
    [ CategoryRow(Other, category == Other, []),
      CategoryRow(Spam, category == Spam, []),
      CategoryRow(Violation, category == Violation, RuleRows(rules, ruleIds)) ]
  }

  /** Every rule row on screen, category row by category row: a category row shows its
      children only while it is selected. Nothing is on screen exactly when no selected
      row has children, and the rows on screen are exactly the children of selected rows. */
  function ShownRuleRows(rows: seq<CategoryRow>): (shown: seq<RuleRow>)
    ensures shown == [] <==> forall k :: 0 <= k < |rows| && rows[k].selected ==> rows[k].children == []
    ensures forall x :: x in shown ==> exists k :: 0 <= k < |rows| && rows[k].selected && x in rows[k].children
    ensures forall k, x :: 0 <= k < |rows| && rows[k].selected && x in rows[k].children ==> x in shown
  {
    if rows == [] then []
    else (if rows[0].selected then rows[0].children else []) + ShownRuleRows(rows[1..])
  }

  /** The number of rows marked selected. */
  function SelectedCount(rows: seq<CategoryRow>): (n: nat)
  {
    if rows == [] then 0 else (if rows[0].selected then 1 else 0) + SelectedCount(rows[1..])
  }

  /** Whatever the category, at most one category row is marked selected, and exactly
      one when the category is `other`, `spam` or `violation`. */
  lemma {:induction false} OneCategorySelected(category: string, rules: seq<Rule>, ruleIds: seq<RuleId>)
    ensures SelectedCount(CategoryRows(category, rules, ruleIds)) <= 1
    ensures SelectedCount(CategoryRows(category, rules, ruleIds)) == 1 <==> category in CategoryIds
  {
    var rows := CategoryRows(category, rules, ruleIds);
    var r1 := rows[1..];
    var r2 := r1[1..];
    assert r2[1..] == [];
    assert SelectedCount(r2) == if category == Violation then 1 else 0;
    assert SelectedCount(r1) == (if category == Spam then 1 else 0) + SelectedCount(r2);
    assert SelectedCount(rows) == (if category == Other then 1 else 0) + SelectedCount(r1);
  }

  /** Clicking a category row selects that row's id, after which it is the one row
      marked selected. */
  lemma ClickedCategoryIsOnlySelected(category: string, rules: seq<Rule>, ruleIds: seq<RuleId>, i: nat)
    requires i < |CategoryIds|
    ensures forall j :: 0 <= j < |CategoryIds| ==>
      (CategoryRows(CategoryRows(category, rules, ruleIds)[i].id, rules, ruleIds)[j].selected <==> j == i)
  {
  }

  /** Rule rows are on screen only while the category is `violation`, and then they are
      all the catalog's rules in catalog order. */
  lemma {:induction false} RulesShownOnlyUnderViolation(category: string, rules: seq<Rule>, ruleIds: seq<RuleId>)
    ensures ShownRuleRows(CategoryRows(category, rules, ruleIds)) ==
      if category == Violation then RuleRows(rules, ruleIds) else []
  {
    var rows := CategoryRows(category, rules, ruleIds);
    var r1 := rows[1..];
    var r2 := r1[1..];
    assert r2[1..] == [];
    assert ShownRuleRows(r2) == (if rows[2].selected then rows[2].children else []) + [];
    assert ShownRuleRows(r1) == [] + ShownRuleRows(r2);
    assert ShownRuleRows(rows) == [] + ShownRuleRows(r1);
  }

  /** Toggling an id flips the selected flag of exactly the rule rows carrying that id. */
  lemma ToggleFlipsRuleRows(rules: seq<Rule>, ruleIds: seq<RuleId>, id: RuleId)
    ensures forall i :: 0 <= i < |rules| ==>
      RuleRows(rules, Toggled(ruleIds, id))[i].selected ==
        if rules[i].id == id then !RuleRows(rules, ruleIds)[i].selected
        else RuleRows(rules, ruleIds)[i].selected
  {
  }
}
