# Report-reason selector, modelled in Dafny

This project models the selection state of Mastodon's moderator widget `ReportReasonSelector`.
In that widget a moderator classifies a report as `other`, `spam` or `violation`.
Under `violation` the moderator also ticks the instance rules the report breaks.

The widget holds three pieces of state:
- `category`: any string. PropTypes only demands a string, so the model does not close it to the three ids.
- `rule_ids`: a list of rule ids.
- `rules`: the instance's rule catalog.

Two handlers change the state:
- `handleSelect` sets the category.
- `handleToggle` filters a present rule id out of `rule_ids`, or appends an absent one.

Each handler call is followed by exactly one save: a PUT of `{category, rule_ids}` to the report.
A click on a rule row runs two handlers. Rule rows sit inside the `violation` category row, and nothing stops the click from reaching that row too. So the toggle runs, then a select of `violation`, and two saves with the same body go out (`Selector.ClickRuleRow`).
`render` derives the selected flag of each of the three category rows and of each catalog rule row.
Rule rows are shown only inside the selected `violation` row.

Modules:
- `RuleIds` (`rule_ids.dfy`): the two list operations as pure functions (`Without` is the `filter`, `Toggled` the whole toggle), with their lemmas.
- `SelectorView` (`selector_view.dfy`): the render-time flags as pure functions over the state, with their lemmas.
- `ReportReasonSelector` (`report_reason_selector.dfy`): the class `Selector`.
  - Its fields are `category`, `ruleIds` and `rules`.
  - The ghost field `saves` logs every PUT body, together with the report id of its URL.
  - The handlers are methods that state the whole new state.
  - `InSync` says that the last save carries the current state; every method keeps it.
  - Four client methods walk through concrete uses: select a category, add then remove a rule, two saves in a row, a failed catalog load.
- `Wrappers` (`wrappers.dfy`): `Option`, for the optional `rule_ids` prop.

Behaviour of the code worth knowing:
- Toggling an id twice always gives back the same *set* of ids (`ToggleTwice`).
  - When the id was absent, the list itself comes back unchanged.
  - When it was present, every copy is removed and one copy is appended at the end. The list comes back unchanged exactly when the id occurred once and was already last (`ToggleTwicePresentUnchanged`).
- Toggling a present id removes it `multiset(ids)[id]` times, once per copy (`Without`, `TogglePresent`). So the list shrinks by exactly one when the id occurs once, for instance in a duplicate-free list (`ToggleNoDuplicates`).
- The category is any string. "Exactly one category row selected" holds exactly when the category is one of the three ids (`OneCategorySelected`).

## Model

| member | source | states |
|---|---|---|
| `RuleIds.Without` | app/javascript/mastodon/components/admin/ReportReasonSelector.js:124 | the filtered list no longer holds the id, holds every other id of the input and nothing else, has the input's multiset with the id's count set to zero, and is shorter by exactly the number of occurrences removed |
| `RuleIds.Toggled` | app/javascript/mastodon/components/admin/ReportReasonSelector.js:120-128 | after a toggle the id is in the list iff it was not before, and every other id is in it iff it was before |
| `RuleIds.WithoutIsSubsequence` | app/javascript/mastodon/components/admin/ReportReasonSelector.js:124 | the filter keeps the remaining ids in their original relative order |
| `RuleIds.WithoutAbsent` | app/javascript/mastodon/components/admin/ReportReasonSelector.js:124 | filtering out an id that is not present returns the list unchanged |
| `RuleIds.WithoutNoDuplicates` | app/javascript/mastodon/components/admin/ReportReasonSelector.js:124 | filtering a duplicate-free list gives a duplicate-free list |
| `RuleIds.NoDuplicatesCardinality` | app/javascript/mastodon/components/admin/ReportReasonSelector.js:123-126 | for a duplicate-free rule id list, the number of distinct ids equals its length, so set and sequence views agree |
| `RuleIds.TogglePresent` | app/javascript/mastodon/components/admin/ReportReasonSelector.js:123-124 | toggling a present id removes every occurrence, keeps the others in their relative order with their counts, and shortens the list |
| `RuleIds.ToggleAbsent` | app/javascript/mastodon/components/admin/ReportReasonSelector.js:125-126 | toggling an absent id makes the list one longer, with the old list as prefix and the id last |
| `RuleIds.ToggleTwice` | app/javascript/mastodon/components/admin/ReportReasonSelector.js:120-128 | toggling an id twice restores the set of ids; it restores the list itself when the id was absent, and moves the id to the end when it was present |
| `RuleIds.ToggleTwicePresentUnchanged` | app/javascript/mastodon/components/admin/ReportReasonSelector.js:120-128 | for an id that is present, toggling it twice gives back the identical list exactly when the id occurs once and is the last element |
| `RuleIds.ToggleElems` | app/javascript/mastodon/components/admin/ReportReasonSelector.js:120-128 | as a set, a toggle removes the id when present and adds it when absent |
| `RuleIds.ToggleNoDuplicates` | app/javascript/mastodon/components/admin/ReportReasonSelector.js:123-126 | a toggle keeps a duplicate-free list duplicate-free and changes its length by exactly one (down when present, up when absent); the set and the sequence have the same size afterwards |
| `SelectorView.RuleRows` | app/javascript/mastodon/components/admin/ReportReasonSelector.js:139 | one rule row per catalog rule, in catalog order, same id and text, selected iff the rule's id is in `rule_ids` |
| `SelectorView.CategoryRows` | app/javascript/mastodon/components/admin/ReportReasonSelector.js:134-141 | `render` produces three category rows, `other`, `spam`, `violation` in that order. Each is selected iff its id equals `category`. Only the `violation` row is handed the rule rows as children |
| `SelectorView.ShownRuleRows` | app/javascript/mastodon/components/admin/ReportReasonSelector.js:40-44 | a category row shows its children only while selected. So no rule row is on screen iff no selected category row has children, and the rule rows on screen are exactly the children of selected category rows |
| `SelectorView.OneCategorySelected` | app/javascript/mastodon/components/admin/ReportReasonSelector.js:136-138 | at most one category row is selected, and exactly one iff `category` is one of the three ids |
| `SelectorView.ClickedCategoryIsOnlySelected` | app/javascript/mastodon/components/admin/ReportReasonSelector.js:23-26 | after a category row's click hands its own id to the select handler, that row is the one and only selected row |
| `SelectorView.RulesShownOnlyUnderViolation` | app/javascript/mastodon/components/admin/ReportReasonSelector.js:138-140 | since a category row shows its children only while selected (line 40), the rule rows on screen are exactly the catalog's rule rows when `category` is `violation`, and none otherwise |
| `SelectorView.ToggleFlipsRuleRows` | app/javascript/mastodon/components/admin/ReportReasonSelector.js:139 | toggling an id flips the selected flag of exactly the rule rows with that id and leaves every other row's flag as it was |
| `ReportReasonSelector.Selector.View` | app/javascript/mastodon/components/admin/ReportReasonSelector.js:130-143 | the rows rendered from the current state: three category rows, each selected iff its id is the current category. On screen are the catalog's rule rows while the category is `violation`, and none otherwise |
| `ReportReasonSelector.Selector.ClickCategoryRow` | app/javascript/mastodon/components/admin/ReportReasonSelector.js:23-26 | a click on a category row hands that row's own id to the select handler. The category becomes that row's id, and one save carrying the new state is logged |
| `ReportReasonSelector.Selector.ClickRuleRow` | app/javascript/mastodon/components/admin/ReportReasonSelector.js:60-63 | a rule row is clickable only while `violation` is selected (lines 40, 138-140). Its click toggles the row's id, then reaches the enclosing `violation` row, whose handler (lines 23-26, 32) selects `violation` again. The rule ids end toggled, the category stays `violation`, and two saves carrying that same state are logged |
| `ReportReasonSelector.Selector.constructor` | app/javascript/mastodon/components/admin/ReportReasonSelector.js:88-92 | the initial state copies `category`, takes the supplied rule ids or `[]` when none were supplied, starts with an empty catalog and no saves |
| `ReportReasonSelector.Selector.LoadRules` | app/javascript/mastodon/components/admin/ReportReasonSelector.js:94-102 | a successful catalog fetch replaces only `rules`; a failed one changes nothing; neither sends a save |
| `ReportReasonSelector.Selector.Save` | app/javascript/mastodon/components/admin/ReportReasonSelector.js:104-114 | a save builds its request from the report id (in the URL) and the current `category` and `rule_ids` (the body), and appends exactly that one request to the log |
| `ReportReasonSelector.Selector.HandleSelect` | app/javascript/mastodon/components/admin/ReportReasonSelector.js:116-118 | the category becomes the given id, `rule_ids` and `rules` are unchanged, and exactly one save is logged, carrying the new state |
| `ReportReasonSelector.Selector.HandleToggle` | app/javascript/mastodon/components/admin/ReportReasonSelector.js:120-128 | `rule_ids` becomes the toggled list, `category` and `rules` are unchanged, exactly one save carrying the new state is logged, and a duplicate-free list stays duplicate-free |

## Left out

- Rendering: the JSX markup, CSS class names, hidden form inputs and `tabIndex`. Only the selected and shown flags are modelled.
- Localisation: the `react-intl` message definitions and `formatMessage`. The category and rule texts are opaque strings.
- Network: the HTTP client and both requests. The GET of `/api/v1/instance` becomes `LoadRules(ok, fetched)`. The PUT becomes an entry appended to the ghost `saves` log.
- Responses: a response whose `rules` field is missing is not modelled. Neither is any effect of a PUT's response or failure; the source ignores both.
- Timing: promise and `setState` callback timing, overlapping in-flight saves, and the order in which responses arrive. Each handler runs to completion, including its save, before the next event. This is why a save's body is the post-state.
- Diagnostics: the `console.error` calls on failure.
- PropTypes validation, and the unused `onSelect` read in `Rule.render`.
- Click handlers: rows are not modelled as separate objects. A category row's click is `ClickCategoryRow`. A rule row's click, including its propagation to the enclosing `violation` row, is `ClickRuleRow`. Keyboard activation through `tabIndex` is not modelled.
