/** Checklist items and checklists (`TrelloCheckListItem`, `TrelloCheckList`)
    and their completion predicates, both as the plugin computes them and as
    they are evidently meant. */
module Checklists {
  import opened Wrappers
  import opened Seqs

  /** `CheckListItemStatus`: the state Trello reports for a checklist item. */
  datatype ItemStatus = Complete | Incomplete

  /** The enum member's `.value`, the string of Trello's `state` field. */
  function StateValue(s: ItemStatus): string {
    match s
    case Complete => "complete"
    case Incomplete => "incomplete"
  }

  /** Distinct members carry distinct values. */
  lemma StateValueInjective(a: ItemStatus, b: ItemStatus)
    ensures StateValue(a) == StateValue(b) <==> a == b
  {
    if a != b {
      assert |StateValue(a)| != |StateValue(b)|;
    }
  }

  /** One checklist item; `due` is in seconds and absent when Trello sends none. */
  datatype ChecklistItem = ChecklistItem(id: string, name: string, status: ItemStatus, due: Option<int>)

  /** One checklist: an ordered sequence of items (Python's `None` default is the empty sequence). */
  datatype Checklist = Checklist(id: string, name: string, items: seq<ChecklistItem>)

  /** Python's `==` between a plain `Enum` member and a `str`. `Enum` keeps
      object identity as its equality, so no member equals any string. */
  function EnumEqualsStr(member: ItemStatus, s: string): bool {
    false
  }

  /** `TrelloCheckListItem.is_complete` as written: it compares the status
      member itself with the string `"complete"`. */
  function ItemIsCompleteAsWritten(item: ChecklistItem): bool {
    EnumEqualsStr(item.status, StateValue(Complete))
  }

  /** As written, an item whose state is `complete` is still reported
      incomplete: the predicate ignores the state altogether. */
  lemma ItemCompletionIgnoresState(item: ChecklistItem)
    ensures !ItemIsCompleteAsWritten(item)
    ensures item.status == Complete ==> ItemIsCompleteAsWritten(item) != ItemIsComplete(item)
  {
  }

  /** The evident intent: compare the member's value with `"complete"`. */
  function ItemIsComplete(item: ChecklistItem): bool {
    StateValue(item.status) == StateValue(Complete)
  }

  /** The corrected item predicate holds exactly for items in state `complete`. */
  lemma ItemIsCompleteIff(item: ChecklistItem)
    ensures ItemIsComplete(item) <==> item.status == Complete
  {
    StateValueInjective(item.status, Complete);
  }

  /** `TrelloCheckList.is_complete` as written. An empty checklist returns
      `False`; on a non-empty one the comparison is evaluated and discarded and
      the method falls off its end, returning `None` (modelled as `None`). */
  function ChecklistIsCompleteAsWritten(cl: Checklist): Option<bool> {
    if |cl.items| == 0 then Some(false) else None
  }

  /** Python truthiness of a `bool`-or-`None` result. */
  predicate Truthy(v: Option<bool>) {
    v == Some(true)
  }

  /** As written, no checklist is ever truthily complete, and a non-empty one
      yields `None` whatever its items' states. */
  lemma ChecklistCompletionNeverTruthy(cl: Checklist)
    ensures !Truthy(ChecklistIsCompleteAsWritten(cl))
    ensures |cl.items| > 0 ==> ChecklistIsCompleteAsWritten(cl) == None
  {
  }

  /** The evident intent: a non-empty checklist whose filtered list of
      complete items is as long as the whole list. */
  function ChecklistIsComplete(cl: Checklist): bool {
    |cl.items| > 0 && |Filter(ItemIsComplete, cl.items)| == |cl.items|
  }

  /** The corrected checklist predicate holds exactly when the checklist has
      items and every one of them is in state `complete`. */
  lemma ChecklistIsCompleteIff(cl: Checklist)
    ensures ChecklistIsComplete(cl) <==>
              |cl.items| > 0 && forall k :: 0 <= k < |cl.items| ==> cl.items[k].status == Complete
  {
    FilterKeepsAll(ItemIsComplete, cl.items);
    forall k | 0 <= k < |cl.items| {
      ItemIsCompleteIff(cl.items[k]);
    }
  }
}
