/** The moderator's report-reason selector: the state it holds, the two handlers
    that change it, the one-shot catalog load, and the save that follows every
    change. The PUT to the report resource is recorded in a ghost log. */
module ReportReasonSelector {
  import opened Wrappers
  import opened RuleIds
  import opened SelectorView

  /** One PUT to `/api/v1/admin/reports/<reportId>` with body `{category, rule_ids}`. */
  datatype SaveRequest = SaveRequest(reportId: string, category: string, ruleIds: seq<RuleId>)

  class Selector {
    /** The report being classified; part of the save URL, never changed. */
    const reportId: string

    var category: string
    var ruleIds: seq<RuleId>
    var rules: seq<Rule>

    /** Every save issued so far, oldest first. */
    ghost var saves: seq<SaveRequest>

    /** The last save sent, if any, carries the current state. */
    ghost predicate InSync()
      reads this
    {
      saves != [] ==> saves[|saves| - 1] == SaveRequest(reportId, category, ruleIds)
    }

    /** The rows the selector renders from its current state: the category rows, each
        selected exactly when it carries the current category, and on screen the catalog's
        rule rows while the category is `violation` and none otherwise. */
    function View(): (rows: seq<CategoryRow>)
      reads this
      ensures |rows| == |CategoryIds|
      ensures forall i :: 0 <= i < |rows| ==> rows[i].id == CategoryIds[i] && (rows[i].selected <==> rows[i].id == category)
      ensures ShownRuleRows(rows) == if category == Violation then RuleRows(rules, ruleIds) else []
    {
      RulesShownOnlyUnderViolation(category, rules, ruleIds);
      CategoryRows(category, rules, ruleIds)
    }

    /** The initial state: the category and rule ids the page supplied (no rule ids
        meaning none selected) and an empty catalog. */
    constructor (reportId: string, category: string, initialRuleIds: Option<seq<RuleId>>)
      ensures this.reportId == reportId && this.category == category
      ensures ruleIds == initialRuleIds.GetOr([])
      ensures rules == [] && saves == []
      ensures InSync()
    {
      this.reportId := reportId;
      this.category := category;
      this.ruleIds := initialRuleIds.GetOr([]);
      this.rules := [];
      this.saves := [];
    }

    /** The outcome of fetching the instance's rules once after mounting: a success
        replaces the catalog, a failure leaves everything as it was. */
    method LoadRules(ok: bool, fetched: seq<Rule>)
      modifies this
      ensures rules == if ok then fetched else old(rules)
      ensures category == old(category) && ruleIds == old(ruleIds) && saves == old(saves)
      ensures old(InSync()) ==> InSync()
    {
      if ok {
        rules := fetched;
      }
    }

    /** Sends the current category and rule ids to the report resource. */
    method Save()
      modifies this`saves
      ensures saves == old(saves) + [SaveRequest(reportId, category, ruleIds)]
      ensures InSync()
    {
      saves := saves + [SaveRequest(reportId, category, ruleIds)];
    }

    /** A category row was clicked: the category becomes `id`, the rule selection and
        the catalog are kept, and exactly one save carrying the new state is sent. */
    method HandleSelect(id: string)
      modifies this
      ensures category == id && ruleIds == old(ruleIds) && rules == old(rules)
      ensures saves == old(saves) + [SaveRequest(reportId, id, old(ruleIds))]
      ensures InSync()
    {
      category := id;
      Save();
    }

    /** A rule row was clicked: `id` leaves the rule selection when present and is
        appended when absent; the category and the catalog are kept, and exactly one
        save carrying the new state is sent. */
    method HandleToggle(id: RuleId)
      modifies this
      ensures ruleIds == Toggled(old(ruleIds), id)
      ensures category == old(category) && rules == old(rules)
      ensures saves == old(saves) + [SaveRequest(reportId, old(category), Toggled(old(ruleIds), id))]
      ensures NoDuplicates(old(ruleIds)) ==> NoDuplicates(ruleIds)
      ensures InSync()
    {
      if id in ruleIds {
        ruleIds := Without(ruleIds, id);
      } else {
        ruleIds := ruleIds + [id];
      }
      if NoDuplicates(old(ruleIds)) {
        ToggleNoDuplicates(old(ruleIds), id);
      }
      Save();
    }

    /** A click on a category row: the row hands its own id to the select handler. */
    method ClickCategoryRow(i: nat)
      requires i < |CategoryIds|
      modifies this
      ensures category == CategoryIds[i] && ruleIds == old(ruleIds) && rules == old(rules)
      ensures saves == old(saves) + [SaveRequest(reportId, CategoryIds[i], old(ruleIds))]
      ensures InSync()
    {
      HandleSelect(View()[i].id);
    }

    /** A click on a rule row. Rule rows are on screen only inside the selected
        `violation` row, and nothing stops the click from reaching that enclosing row:
        the toggle handler runs, then the select handler with `violation`. The state
        ends toggled, and two saves with that same body are sent. */
    method ClickRuleRow(id: RuleId)
      requires category == Violation
      modifies this
      ensures ruleIds == Toggled(old(ruleIds), id)
      ensures category == Violation && rules == old(rules)
      ensures saves == old(saves) + [SaveRequest(reportId, Violation, ruleIds), SaveRequest(reportId, Violation, ruleIds)]
      ensures InSync()
    {
      HandleToggle(id);
      HandleSelect(Violation);
    }
  }

  /** Picking `violation` on an `other` report sends exactly that state. */
  method SelectViolationSaves()
  {
    var s := new Selector("42", Other, None);
    s.HandleSelect(Violation);
    assert s.category == Violation && s.ruleIds == [];
    assert s.saves == [SaveRequest("42", Violation, [])];
  }

  /** Adding `r2` to `[r1]` appends it; then removing `r1` leaves `[r2]`. */
  method ToggleAddsThenRemoves()
  {
    var s := new Selector("42", Violation, Some(["r1"]));
    s.HandleToggle("r2");
    assert s.ruleIds == ["r1", "r2"];
    s.HandleToggle("r1");
    assert "r1" in ["r1", "r2"];
    assert Without(["r1", "r2"], "r1") == ["r2"];
    assert s.ruleIds == ["r2"];
  }

  /** Two toggles back to back send two saves, each with the state of its own moment. */
  method TwoTogglesSaveTwice()
  {
    var s := new Selector("7", Violation, None);
    s.HandleToggle("r1");
    assert s.ruleIds == ["r1"];
    s.HandleToggle("r2");
    assert s.ruleIds == ["r1", "r2"];
    assert s.saves == [SaveRequest("7", Violation, ["r1"]), SaveRequest("7", Violation, ["r1", "r2"])];
  }

  /** One click on a rule row sends two identical saves. */
  method RuleClickSavesTwice()
  {
    var s := new Selector("7", Violation, None);
    s.ClickRuleRow("r1");
    assert s.ruleIds == ["r1"];
    assert s.saves == [SaveRequest("7", Violation, ["r1"]), SaveRequest("7", Violation, ["r1"])];
  }

  /** A failed catalog load leaves the catalog empty: three category rows,
      exactly one selected, and no rule rows even under `violation`. */
  method FailedLoadShowsNoRules()
  {
    var s := new Selector("7", Violation, Some(["r1"]));
    s.LoadRules(false, [Rule("r9", "text")]);
    assert s.rules == [];
    var rows := s.View();
    OneCategorySelected(s.category, s.rules, s.ruleIds);
    RulesShownOnlyUnderViolation(s.category, s.rules, s.ruleIds);
    assert |rows| == 3 && SelectedCount(rows) == 1;
    assert ShownRuleRows(rows) == [];
    assert s.ruleIds == ["r1"];
  }
}
