/** A card (`TrelloCard`): its completion, overdue and idle predicates, its
    issue flags and its status. Timestamps are whole seconds; the current
    instant `now` and the idle threshold (minutes) are passed in. */
module Cards {
  import opened Wrappers
  import opened Seqs
  import opened Checklists

  const SecondsPerMinute: int := 60
  const MinutesPerDay: int := 24 * 60
  const SecondsPerDay: int := 24 * 60 * 60

  /** `TrelloCardStatus`. */
  datatype Status =
    | NotStarted
    | ChecklistInProgress
    | ChecklistAllComplete
    | Overdue
    | Idle
    | WithIssue
    | Unknown

  /** `TrelloCardIssue`, declared in the order the flags are collected. */
  datatype Issue = MissingStartDate | MissingDueDate | MissingMembers

  /** Position of a flag in `TrelloCardIssue`'s declaration. */
  function IssueRank(i: Issue): nat {
    match i
    case MissingStartDate => 0
    case MissingDueDate => 1
    case MissingMembers => 2
  }

  /** A card as fetched from a list, with its checklists attached. */
  datatype Card = Card(
    id: string,
    name: string,
    url: string,
    checklistIds: seq<string>,
    memberIds: seq<string>,
    due: Option<int>,
    start: Option<int>,
    lastActivity: Option<int>,
    checklists: seq<Checklist>)

  /** Python's `==` between a `list` and an `int`: values of different types
      compare unequal. */
  function ListEqualsInt<T>(l: seq<T>, n: int): bool {
    false
  }

  /** `TrelloCard.is_complete` as written: it compares the filtered list of
      complete checklists with the number of checklists. */
  function CardIsCompleteAsWritten(card: Card): bool {
    if |card.checklists| == 0 then false
    else ListEqualsInt(
      Filter((cl: Checklist) => Truthy(ChecklistIsCompleteAsWritten(cl)), card.checklists),
      |card.checklists|)
  }

  /** As written, no card is ever complete, including one whose every
      checklist item is in state `complete`. */
  lemma CardCompletionAsWrittenIsFalse(card: Card)
    ensures !CardIsCompleteAsWritten(card)
    ensures CardIsComplete(card) ==> CardIsCompleteAsWritten(card) != CardIsComplete(card)
  {
  }

  /** The evident intent: a card with checklists, each of which is complete. */
  function CardIsComplete(card: Card): bool {
    |card.checklists| > 0
    && |Filter(ChecklistIsComplete, card.checklists)| == |card.checklists|
  }

  /** The corrected card predicate holds exactly when the card has at least
      one checklist, every checklist has items, and every item is complete. */
  lemma CardIsCompleteIff(card: Card)
    ensures CardIsComplete(card) <==>
              && |card.checklists| > 0
              && forall j :: 0 <= j < |card.checklists| ==>
                   && |card.checklists[j].items| > 0
                   && forall k :: 0 <= k < |card.checklists[j].items| ==>
                        card.checklists[j].items[k].status == Complete
  {
    FilterKeepsAll(ChecklistIsComplete, card.checklists);
    forall j | 0 <= j < |card.checklists| {
      ChecklistIsCompleteIff(card.checklists[j]);
    }
  }

  /** `TrelloCard.is_overdue` at instant `now`. */
  function IsOverdue(card: Card, now: int): bool {
    match card.due
    case None => false
    case Some(d) => now > d
  }

  /** A card is overdue exactly when it has a due date that `now` is strictly
      past; without a due date it never is. */
  lemma OverdueIff(card: Card, now: int)
    ensures IsOverdue(card, now) <==> card.due.Some? && now > card.due.value
    ensures card.due.None? ==> forall t :: !IsOverdue(card, t)
  {
  }

  /** Once a card is overdue it stays overdue as time goes on. */
  lemma OverdueMonotone(card: Card, t: int, t': int)
    requires IsOverdue(card, t) && t <= t'
    ensures IsOverdue(card, t')
  {
  }

  /** The idle threshold split into `timedelta(idle_day, idle_second)`: whole
      days by Python's floor division `//` (Dafny's `/` agrees for a positive
      divisor), then the remaining minutes as seconds. */
  function IdleSpan(threshold: int): (r: (int, int))
    ensures r.0 * SecondsPerDay + r.1 == threshold * SecondsPerMinute
    ensures 0 <= r.1 < SecondsPerDay
    ensures threshold >= 0 ==> r.0 >= 0
  {
    var idleDay := threshold / MinutesPerDay;
    (idleDay, (threshold - idleDay * MinutesPerDay) * SecondsPerMinute)
  }

  /** `TrelloCard.is_idle` at instant `now` for a threshold in minutes. */
  function IsIdle(card: Card, now: int, threshold: int): (r: bool)
    ensures r <==> card.lastActivity.Some?
                   && now > card.lastActivity.value + threshold * SecondsPerMinute
  {
    match card.lastActivity
    case None => false
    case Some(last) =>
      var (idleDay, idleSecond) := IdleSpan(threshold);
      now > idleDay * SecondsPerDay + idleSecond + last
  }

  /** `TrelloCard.get_issues`. */
  function GetIssues(card: Card): (r: seq<Issue>)
    ensures MissingStartDate in r <==> card.start.None?
    ensures MissingDueDate in r <==> card.due.None?
    ensures MissingMembers in r <==> |card.memberIds| == 0
    ensures forall i, j :: 0 <= i < j < |r| ==> IssueRank(r[i]) < IssueRank(r[j])
    ensures forall i, j :: 0 <= i < j < |r| ==> r[i] != r[j]
    ensures |r| <= 3
  {
    (if card.start.None? then [MissingStartDate] else [])
    + (if card.due.None? then [MissingDueDate] else [])
    + (if |card.memberIds| == 0 then [MissingMembers] else [])
  }

  /** The issue flags read only the start date, the due date and the members:
      checklists, last activity and identity play no part. */
  lemma IssuesIgnoreOtherFields(a: Card, b: Card)
    requires a.start == b.start && a.due == b.due && a.memberIds == b.memberIds
    ensures GetIssues(a) == GetIssues(b)
  {
  }

  /** `TrelloCard.get_status`, first match wins, with the completion predicate
      `isComplete` as a parameter (the plugin's own is `CardIsCompleteAsWritten`). */
  function GetStatus(card: Card, now: int, threshold: int, isComplete: Card -> bool): Status {
    if |card.checklists| > 0 then
      if isComplete(card) then ChecklistAllComplete
      else if IsIdle(card, now, threshold) then Idle
      else if IsOverdue(card, now) then Overdue
      else if |card.checklists| > 0 && !isComplete(card) then ChecklistInProgress
      else Unknown
    else Unknown
  }

  /** A card without checklists is `UNKNOWN`, whatever its dates. */
  lemma StatusWithoutChecklists(card: Card, now: int, threshold: int, isComplete: Card -> bool)
    requires |card.checklists| == 0
    ensures GetStatus(card, now, threshold, isComplete) == Unknown
    ensures forall d, s, l :: GetStatus(card.(due := d, start := s, lastActivity := l), now, threshold, isComplete) == Unknown
  {
  }

  /** With checklists, the status follows the fixed priority complete, idle,
      overdue, in progress, and `UNKNOWN` cannot occur. */
  lemma StatusPriority(card: Card, now: int, threshold: int, isComplete: Card -> bool)
    requires |card.checklists| > 0
    ensures var r := GetStatus(card, now, threshold, isComplete);
      && (r == ChecklistAllComplete <==> isComplete(card))
      && (r == Idle <==> !isComplete(card) && IsIdle(card, now, threshold))
      && (r == Overdue <==> !isComplete(card) && !IsIdle(card, now, threshold) && IsOverdue(card, now))
      && (r == ChecklistInProgress <==>
            !isComplete(card) && !IsIdle(card, now, threshold) && !IsOverdue(card, now))
      && r != Unknown
  {
  }

  /** `CHECKLIST_IN_PROGRESS` is reported only for a card with checklists that
      is neither complete, idle nor overdue. */
  lemma InProgressOnlyWhenCalm(card: Card, now: int, threshold: int, isComplete: Card -> bool)
    requires GetStatus(card, now, threshold, isComplete) == ChecklistInProgress
    ensures |card.checklists| > 0 && !isComplete(card)
    ensures !IsIdle(card, now, threshold) && !IsOverdue(card, now)
  {
  }

  /** `get_status` never yields `NOT_STARTED` or `WITH_ISSUE`. */
  lemma StatusRange(card: Card, now: int, threshold: int, isComplete: Card -> bool)
    ensures GetStatus(card, now, threshold, isComplete) != NotStarted
    ensures GetStatus(card, now, threshold, isComplete) != WithIssue
  {
  }

  /** With the plugin's own completion predicate `CHECKLIST_ALL_COMPLETE`
      never occurs. */
  lemma NeverAllCompleteAsWritten(card: Card, now: int, threshold: int)
    ensures GetStatus(card, now, threshold, CardIsCompleteAsWritten) != ChecklistAllComplete
  {
  }

  /** With the corrected completion predicate a card is `CHECKLIST_ALL_COMPLETE`
      exactly when it has checklists, each non-empty, and every item is
      complete, regardless of its dates. */
  lemma AllCompleteWhenEveryItemDone(card: Card, now: int, threshold: int)
    ensures GetStatus(card, now, threshold, CardIsComplete) == ChecklistAllComplete <==>
              && |card.checklists| > 0
              && forall j :: 0 <= j < |card.checklists| ==>
                   && |card.checklists[j].items| > 0
                   && forall k :: 0 <= k < |card.checklists[j].items| ==>
                        card.checklists[j].items[k].status == Complete
  {
    CardIsCompleteIff(card);
  }

  /** A card with one checklist whose single item is complete, with no dates:
      the corrected predicate files it as complete, the plugin as in progress. */
  lemma FinishedCardMisclassified(now: int, threshold: int)
    ensures var card := Card("c", "finished", "", ["l"], ["m"], None, None, None,
                             [Checklist("l", "steps", [ChecklistItem("i", "step", Complete, None)])]);
      && GetStatus(card, now, threshold, CardIsComplete) == ChecklistAllComplete
      && GetStatus(card, now, threshold, CardIsCompleteAsWritten) == ChecklistInProgress
  {
    var card := Card("c", "finished", "", ["l"], ["m"], None, None, None,
                     [Checklist("l", "steps", [ChecklistItem("i", "step", Complete, None)])]);
    CardIsCompleteIff(card);
  }

  /** `TrelloCard.get_last_update_difference`: the time from start to last
      activity in seconds, when both dates are known. */
  function GetLastUpdateDifference(card: Card): (r: Option<int>)
    ensures r.Some? <==> card.start.Some? && card.lastActivity.Some?
    ensures r.Some? ==> card.start.value + r.value == card.lastActivity.value
  {
    if card.lastActivity.Some? && card.start.Some? then
      Some(card.lastActivity.value - card.start.value)
    else None
  }
}
