# Trello plugin card classification, in Dafny

This project models the pure decision logic of the AutoGPT Trello plugin
(`trello_plugin.py`), then proves properties of that model. The plugin
fetches the cards of a board's "doing" list and classifies each one. The
model covers four parts:

- **completion**: the checklist item, checklist and card `is_complete`
  predicates. Each is modelled both as written and as evidently intended.
- **card status**: `TrelloCard.get_status`, a first-match-wins chain over
  the complete, idle and overdue predicates.
- **issue flags**: `TrelloCard.get_issues` flags a missing start date, a
  missing due date and a card with no members.
- **routing and configuration**: `get_doing_tasks_status` places each card
  into five output lists, and `TrelloConfig` indexes the configured board
  lists and picks out the backlog, doing and done lists by tag.

Timestamps are `Option<int>` values in whole seconds. The current instant
`now` and the idle threshold in minutes are explicit parameters, so the
model never reads a clock. `GetStatus` takes the card completion predicate
as a parameter. Every status lemma holds for any predicate. Other lemmas
instantiate it twice: with the plugin's own predicate, which is false for
every card, and with the corrected one.

Files: `wrappers.dfy` (`Option`), `seqs.dfy` (Python's `list(filter(...))`),
`checklists.dfy`, `cards.dfy`, `config.dfy`, `routing.dfy`.

The model follows the code as written:

- As written, `CHECKLIST_ALL_COMPLETE` can never be reached, because no
  completion check is ever truthy. The model keeps that behaviour. The
  corrected predicates appear under Findings.
- The corrected checklist predicate keeps the code's per-checklist shape: a
  checklist with no items is not complete, because lines 69-70 return
  `False` for it. A card counts as complete only when each of its
  checklists is complete. Reading completion as "all items across all
  checklists" would make a checklist with no items vacuously complete. The
  model does not do that.

## Model

| member | source | states |
|---|---|---|
| `Seqs.FilterKeepsAll` | src/autogpt_plugins/pm_plugins/trello_plugin/trello_plugin.py:71-73 | Filtering a list keeps its length exactly when every element passes the test. This is the "all of them" comparison the completion checks mean to make. |
| `Checklists.StateValueInjective` | src/autogpt_plugins/pm_plugins/trello_plugin/trello_plugin.py:14-16 | The two item states carry different string values. |
| `Checklists.ItemCompletionIgnoresState` | src/autogpt_plugins/pm_plugins/trello_plugin/trello_plugin.py:58-59 | The item predicate as written compares an enum member with a string. It is false for every item, even one whose state is complete, so it disagrees with the corrected predicate on complete items. |
| `Checklists.ItemIsCompleteIff` | src/autogpt_plugins/pm_plugins/trello_plugin/trello_plugin.py:58-59 | The corrected item predicate compares the member's value with `"complete"`. It holds exactly when the item's state is complete. |
| `Checklists.ChecklistCompletionNeverTruthy` | src/autogpt_plugins/pm_plugins/trello_plugin/trello_plugin.py:68-73 | The checklist predicate as written returns `False` on an empty checklist and `None` otherwise. It is never truthy, whatever the items' states. |
| `Checklists.ChecklistIsCompleteIff` | src/autogpt_plugins/pm_plugins/trello_plugin/trello_plugin.py:68-73 | The corrected checklist predicate holds exactly when the checklist has items and every item is complete. |
| `Cards.CardCompletionAsWrittenIsFalse` | src/autogpt_plugins/pm_plugins/trello_plugin/trello_plugin.py:104-109 | The card predicate as written compares a list with an int. It is false for every card, including a card that the corrected predicate calls complete. |
| `Cards.CardIsCompleteIff` | src/autogpt_plugins/pm_plugins/trello_plugin/trello_plugin.py:104-109 | The corrected card predicate holds exactly when the card has at least one checklist, every checklist has items, and every item is complete. |
| `Cards.OverdueIff` | src/autogpt_plugins/pm_plugins/trello_plugin/trello_plugin.py:111-115 | A card is overdue exactly when it has a due date and `now` is strictly after it. A card with no due date is never overdue, at any instant. |
| `Cards.OverdueMonotone` | src/autogpt_plugins/pm_plugins/trello_plugin/trello_plugin.py:111-115 | Once a card is overdue at some instant, it stays overdue at every later instant. |
| `Cards.IdleSpan` | src/autogpt_plugins/pm_plugins/trello_plugin/trello_plugin.py:120-122 | The threshold splits into whole days by floor division plus leftover seconds. `days * 86400 + seconds` equals the threshold in seconds, and the leftover seconds always lie in `[0, 86400)`. |
| `Cards.IsIdle` | src/autogpt_plugins/pm_plugins/trello_plugin/trello_plugin.py:117-124 | A card is idle exactly when it has a last-activity date and `now` is strictly later than that date plus the threshold in minutes. A card with no last-activity date is never idle. |
| `Cards.GetIssues` | src/autogpt_plugins/pm_plugins/trello_plugin/trello_plugin.py:126-135 | Each flag is present exactly when its field is missing: the start date, the due date, or the members. Flags come in declaration order with no duplicates, and there are at most three. |
| `Cards.IssuesIgnoreOtherFields` | src/autogpt_plugins/pm_plugins/trello_plugin/trello_plugin.py:126-135 | Two cards that agree on start date, due date and members get the same flags, whatever their checklists, activity or status. |
| `Cards.StatusWithoutChecklists` | src/autogpt_plugins/pm_plugins/trello_plugin/trello_plugin.py:137-147 | A card with no checklists is `UNKNOWN`, whatever its due, start and last-activity dates. |
| `Cards.StatusPriority` | src/autogpt_plugins/pm_plugins/trello_plugin/trello_plugin.py:138-146 | With checklists, the status follows a fixed priority: complete, then idle, then overdue, then in progress. Each status holds exactly when its condition holds and no earlier one does, and `UNKNOWN` cannot occur. |
| `Cards.InProgressOnlyWhenCalm` | src/autogpt_plugins/pm_plugins/trello_plugin/trello_plugin.py:143-146 | `CHECKLIST_IN_PROGRESS` is returned only for a card that has checklists and is neither complete, idle nor overdue. |
| `Cards.StatusRange` | src/autogpt_plugins/pm_plugins/trello_plugin/trello_plugin.py:137-147 | The status is never `NOT_STARTED` or `WITH_ISSUE`. |
| `Cards.NeverAllCompleteAsWritten` | src/autogpt_plugins/pm_plugins/trello_plugin/trello_plugin.py:137-140 | With the plugin's own completion predicate, no card is ever `CHECKLIST_ALL_COMPLETE`. |
| `Cards.AllCompleteWhenEveryItemDone` | src/autogpt_plugins/pm_plugins/trello_plugin/trello_plugin.py:138-140 | With the corrected predicate, a card is `CHECKLIST_ALL_COMPLETE` exactly when it has checklists, each is non-empty, and every item is complete. Its dates play no part. |
| `Cards.FinishedCardMisclassified` | src/autogpt_plugins/pm_plugins/trello_plugin/trello_plugin.py:104-109 | Take a card with no dates and one checklist whose single item is complete. The corrected predicate makes it `CHECKLIST_ALL_COMPLETE`. The plugin's own predicate makes it `CHECKLIST_IN_PROGRESS`. |
| `Cards.GetLastUpdateDifference` | src/autogpt_plugins/pm_plugins/trello_plugin/trello_plugin.py:149-153 | A difference exists exactly when both the start and last-activity dates are known. Adding it to the start date gives the last-activity date. |
| `Config.ParseTag` | src/autogpt_plugins/pm_plugins/trello_plugin/trello_plugin.py:19-22 | A tag string that names a list type is that type's value. |
| `Config.ParseTagRoundTrip` | src/autogpt_plugins/pm_plugins/trello_plugin/trello_plugin.py:19-22 | Every list type's value parses back to that type. |
| `Config.StepSlots` | src/autogpt_plugins/pm_plugins/trello_plugin/trello_plugin.py:189-198 | One loop pass stores the list under its name. It assigns the backlog, doing or done slot only when the entry's tag is that slot's value, and leaves everything else alone. |
| `Config.StepOtherTag` | src/autogpt_plugins/pm_plugins/trello_plugin/trello_plugin.py:193-198 | An entry whose tag names no list type changes only `board_lists`. |
| `Config.NewConfig` | src/autogpt_plugins/pm_plugins/trello_plugin/trello_plugin.py:184-198 | User name, board name and threshold are copied over. `board_lists` holds exactly the configured names, each mapped to the last entry with that name. Each of backlog, doing and done is the last entry with that tag, and is absent when no entry has it. |
| `Routing.RulesExclusive` | src/autogpt_plugins/pm_plugins/trello_plugin/trello_plugin.py:436-447 | Under the routing rules, a card lands in at most one of the issue, overdue and idle lists, and in at most one of the complete and in-progress lists. An issue-free `UNKNOWN` card lands in no list. |
| `Routing.GetDoingTasksStatus` | src/autogpt_plugins/pm_plugins/trello_plugin/trello_plugin.py:436-447 | Card `i` is in the issue list exactly when it has issues. It is in the overdue or idle list exactly when it has no issues and that status. It is in the complete or in-progress list exactly when it has that status. The lists keep fetch order, with no repeats. The exclusivity rules hold for every card. |

## Findings

| source | as written | input that shows it | evidently intended | confidence | as-written member | corrected member |
|---|---|---|---|---|---|---|
| src/autogpt_plugins/pm_plugins/trello_plugin/trello_plugin.py:58-59 | compares the enum member `self.status` with the string `"complete"`, which is always unequal | an item whose state is `complete` is reported incomplete | compare `self.status.value`, or the member itself | high (not executed) | `Checklists.ItemCompletionIgnoresState` | `Checklists.ItemIsCompleteIff` |
| src/autogpt_plugins/pm_plugins/trello_plugin/trello_plugin.py:68-73 | the comparison on a non-empty checklist is evaluated and discarded, and the method returns `None` | a checklist with one complete item yields `None`, which is falsy | return whether the number of complete items equals the number of items | high (not executed) | `Checklists.ChecklistCompletionNeverTruthy` | `Checklists.ChecklistIsCompleteIff` |
| src/autogpt_plugins/pm_plugins/trello_plugin/trello_plugin.py:104-109 | compares the filtered list itself with an int, which is always unequal | a card with one checklist whose items are all complete is not complete, so `CHECKLIST_ALL_COMPLETE` is never produced | compare the filtered list's length with the number of checklists | high (not executed) | `Cards.FinishedCardMisclassified` | `Cards.CardIsCompleteIff` |

`Cards.CardCompletionAsWrittenIsFalse` shows that the third defect affects
every card. `Cards.NeverAllCompleteAsWritten` and
`Cards.AllCompleteWhenEveryItemDone` carry the same finding through to the
status.

## Left out

- HTTP plumbing is not modelled: `_send_api_request`, `get_cards`, `get_board_lists`, `get_board_members`, `get_checklists`, `add_card_comment`, `mark_card_as_complete` and `move_card_to_new_list`. These are network requests whose responses the model cannot see. The routing method receives the cards with their checklists already attached.
- Board, list and member resolution in `Trello.__init__` is not modelled. It is interleaved with three API calls, and its only pure content is a dictionary update.
- YAML loading (`read_trello_configuration`) and the environment checks (`trello_api_key_set`, `trello_config_file_exists`) are not modelled. They are file and OS I/O. `NewConfig` receives the loaded values already typed, so a missing key (`KeyError`) or a non-string name or tag is not modelled. The threshold is an integer number of minutes. A YAML float such as `1.5` would also work in the source (lines 121-123), because `//` and `timedelta` both accept floats, but the model does not cover it.
- Date parsing with `dateutil`, time zones and sub-second precision are not modelled. Timestamps are whole seconds supplied by the caller. Comparing a naive date with an aware one (a `TypeError`) is not modelled.
- Cards.IsIdle: the model does not raise `OverflowError`, which the source raises when `timedelta` or the date addition leaves Python's representable range. Integers here are unbounded.
- Cards.GetStatus: the model uses one instant `now` for every card in a run. The source reads the clock afresh in each `is_idle` and `is_overdue` call, so two calls can see slightly different instants.
- Display text is not modelled: the `__str__` methods, `format_date_diff`, `generate_close_summary` and the `_handle_*_cards` summaries. `_handle_all_complete_cards` also refers to a module-level `card_id` and changes remote state, and it is left out with the rest of the display code.
- Routing.GetDoingTasksStatus: the lists hold card positions, not card objects. The method does not model the mutations the source makes to a card (`issues`, `prefix`, `close_summary`).
- Object sharing is not modelled. A `TrelloList` stored in `board_lists` is the same object as the backlog, doing or done slot, and a later identifier update reaches both. Here they are separate values, which agree when built.
- Building a checklist item from JSON is not modelled, including the `ValueError` for an unknown state string.
- `demo.py` is a scratch script and is not modelled. The test module runs against mocked HTTP responses and is not modelled either. Its assertion that `is_complete` is false (line 110) agrees with `Cards.CardCompletionAsWrittenIsFalse`.
