/** The routing branch of `Trello.get_doing_tasks_status`: every card fetched
    from the "doing" list is classified and placed into the five output lists. */
module Routing {
  import opened Cards
  import opened Config

  /** The five output lists. Each holds the positions, in fetch order, of the
      cards it received; a position stands for the card object the source
      appends. */
  datatype Buckets = Buckets(
    allComplete: seq<nat>,
    inProgress: seq<nat>,
    overdue: seq<nat>,
    withIssue: seq<nat>,
    idle: seq<nat>)

  /** `s` lists positions below `n` in strictly increasing order. */
  predicate Ascending(s: seq<nat>, n: nat) {
    && (forall k :: 0 <= k < |s| ==> s[k] < n)
    && (forall k, l :: 0 <= k < l < |s| ==> s[k] < s[l])
  }

  /** Appending a position larger than all others keeps a list ascending. */
  lemma AscendingAppend(s: seq<nat>, n: nat)
    requires Ascending(s, n)
    ensures Ascending(s + [n], n + 1)
  {
  }

  /** All five lists are ascending below `n`. */
  predicate AllAscending(b: Buckets, n: nat) {
    && Ascending(b.allComplete, n) && Ascending(b.inProgress, n) && Ascending(b.overdue, n)
    && Ascending(b.withIssue, n) && Ascending(b.idle, n)
  }

  /** Where the rules send card `i`, stated list by list. */
  predicate PlacedByRules(b: Buckets, i: nat, issues: seq<Issue>, status: Status) {
    && (i in b.allComplete <==> status == ChecklistAllComplete)
    && (i in b.inProgress <==> status == ChecklistInProgress)
    && (i in b.withIssue <==> |issues| > 0)
    && (i in b.overdue <==> |issues| == 0 && status == Overdue)
    && (i in b.idle <==> |issues| == 0 && status == Idle)
  }

  /** Lines 436-447 for the card at position `i`. */
  function Place(b: Buckets, i: nat, issues: seq<Issue>, status: Status): Buckets {
    var b1 :=
      if status == ChecklistAllComplete then b.(allComplete := b.allComplete + [i])
      else if status == ChecklistInProgress then b.(inProgress := b.inProgress + [i])
      else b;
    if |issues| > 0 then b1.(withIssue := b1.withIssue + [i])
    else if status == Overdue then b1.(overdue := b1.overdue + [i])
    else if status == Idle then b1.(idle := b1.idle + [i])
    else b1
  }

  /** Appending position `i` to an ascending list exactly when `cond` holds
      records `i` on that condition and leaves earlier positions alone. */
  lemma AppendWhen(s: seq<nat>, i: nat, cond: bool)
    requires Ascending(s, i)
    ensures var s' := if cond then s + [i] else s;
      && Ascending(s', i + 1)
      && (i in s' <==> cond)
      && forall j: nat :: j < i ==> (j in s' <==> j in s)
  {
    if cond {
      AscendingAppend(s, i);
    }
  }

  /** Each list of `Place` is the old list, with `i` appended exactly when
      that list's rule selects the card. */
  lemma PlaceFields(b: Buckets, i: nat, issues: seq<Issue>, status: Status)
    ensures var r := Place(b, i, issues, status);
      && r.allComplete == (if status == ChecklistAllComplete then b.allComplete + [i] else b.allComplete)
      && r.inProgress == (if status == ChecklistInProgress then b.inProgress + [i] else b.inProgress)
      && r.withIssue == (if |issues| > 0 then b.withIssue + [i] else b.withIssue)
      && r.overdue == (if |issues| == 0 && status == Overdue then b.overdue + [i] else b.overdue)
      && r.idle == (if |issues| == 0 && status == Idle then b.idle + [i] else b.idle)
  {
  }

  /** Placing card `i` keeps the lists ascending. */
  lemma PlaceAscending(b: Buckets, i: nat, issues: seq<Issue>, status: Status)
    requires AllAscending(b, i)
    ensures AllAscending(Place(b, i, issues, status), i + 1)
  {
    PlaceFields(b, i, issues, status);
    var clean := |issues| == 0;
    AppendWhen(b.allComplete, i, status == ChecklistAllComplete);
    AppendWhen(b.inProgress, i, status == ChecklistInProgress);
    AppendWhen(b.withIssue, i, !clean);
    AppendWhen(b.overdue, i, clean && status == Overdue);
    AppendWhen(b.idle, i, clean && status == Idle);
  }

  /** Placing card `i` puts it where the rules say. */
  lemma PlaceFollowsRules(b: Buckets, i: nat, issues: seq<Issue>, status: Status)
    requires AllAscending(b, i)
    ensures PlacedByRules(Place(b, i, issues, status), i, issues, status)
  {
    PlaceFields(b, i, issues, status);
    var clean := |issues| == 0;
    AppendWhen(b.allComplete, i, status == ChecklistAllComplete);
    AppendWhen(b.inProgress, i, status == ChecklistInProgress);
    AppendWhen(b.withIssue, i, !clean);
    AppendWhen(b.overdue, i, clean && status == Overdue);
    AppendWhen(b.idle, i, clean && status == Idle);
  }

  /** Placing card `i` leaves every earlier position where it was. */
  lemma PlaceKeepsEarlier(b: Buckets, i: nat, issues: seq<Issue>, status: Status)
    ensures forall j: nat :: j < i ==> SamePlacement(Place(b, i, issues, status), b, j)
  {
    var r := Place(b, i, issues, status);
    PlaceFields(b, i, issues, status);
    forall j: nat | j < i
      ensures SamePlacement(r, b, j)
    {
      AppendKeeps(b.allComplete, i, j);
      AppendKeeps(b.inProgress, i, j);
      AppendKeeps(b.overdue, i, j);
      AppendKeeps(b.withIssue, i, j);
      AppendKeeps(b.idle, i, j);
    }
  }

  /** Appending `i` changes membership of no other position. */
  lemma AppendKeeps(s: seq<nat>, i: nat, j: nat)
    requires j != i
    ensures j in s + [i] <==> j in s
  {
  }

  /** Position `j` is in the same lists of `b` and `b'`. */
  predicate SamePlacement(b: Buckets, b': Buckets, j: nat) {
    && (j in b.allComplete <==> j in b'.allComplete)
    && (j in b.inProgress <==> j in b'.inProgress)
    && (j in b.overdue <==> j in b'.overdue)
    && (j in b.withIssue <==> j in b'.withIssue)
    && (j in b.idle <==> j in b'.idle)
  }

  /** Rules that held of position `j` still hold when `j` sits in the same lists. */
  lemma KeepPlacement(b: Buckets, b': Buckets, j: nat, issues: seq<Issue>, status: Status)
    requires PlacedByRules(b, j, issues, status) && SamePlacement(b', b, j)
    ensures PlacedByRules(b', j, issues, status)
  {
  }

  /** Under the rules a card lands in at most one of the issue, overdue and
      idle lists and at most one of the complete and in-progress lists; an
      issue-free `UNKNOWN` card lands in none. */
  lemma RulesExclusive(b: Buckets, i: nat, issues: seq<Issue>, status: Status)
    requires PlacedByRules(b, i, issues, status)
    ensures !(i in b.withIssue && i in b.overdue)
    ensures !(i in b.withIssue && i in b.idle)
    ensures !(i in b.overdue && i in b.idle)
    ensures !(i in b.allComplete && i in b.inProgress)
    ensures |issues| == 0 && status == Unknown ==>
              i !in b.allComplete && i !in b.inProgress && i !in b.overdue && i !in b.withIssue && i !in b.idle
  {
  }

  /** The first `n` cards are placed by the rules and the lists are ascending. */
  ghost predicate Routed(b: Buckets, cards: seq<Card>, n: nat, now: int, threshold: int, isComplete: Card -> bool) {
    && n <= |cards|
    && AllAscending(b, n)
    && forall i :: 0 <= i < n ==>
         PlacedByRules(b, i, GetIssues(cards[i]), GetStatus(cards[i], now, threshold, isComplete))
  }

  /** Placing the next card extends `Routed` by one position. */
  lemma RoutedStep(b: Buckets, cards: seq<Card>, n: nat, now: int, threshold: int, isComplete: Card -> bool)
    requires n < |cards| && Routed(b, cards, n, now, threshold, isComplete)
    ensures Routed(Place(b, n, GetIssues(cards[n]), GetStatus(cards[n], now, threshold, isComplete)),
                   cards, n + 1, now, threshold, isComplete)
  {
    var issues := GetIssues(cards[n]);
    var status := GetStatus(cards[n], now, threshold, isComplete);
    PlaceAscending(b, n, issues, status);
    PlaceFollowsRules(b, n, issues, status);
    PlaceKeepsEarlier(b, n, issues, status);
    var b' := Place(b, n, issues, status);
    forall i | 0 <= i < n
      ensures PlacedByRules(b', i, GetIssues(cards[i]), GetStatus(cards[i], now, threshold, isComplete))
    {
      KeepPlacement(b, b', i, GetIssues(cards[i]), GetStatus(cards[i], now, threshold, isComplete));
    }
  }

  /** The routing loop of `get_doing_tasks_status` over the fetched cards, with
      the configured idle threshold and one instant `now`. */
  method GetDoingTasksStatus(config: TrelloConfig, cards: seq<Card>, now: int, isComplete: Card -> bool)
    returns (b: Buckets)
    ensures AllAscending(b, |cards|)
    ensures forall i :: 0 <= i < |cards| ==>
              PlacedByRules(b, i, GetIssues(cards[i]), GetStatus(cards[i], now, config.idleThreshold, isComplete))
    ensures forall i :: 0 <= i < |cards| ==>
              && !(i in b.withIssue && i in b.overdue)
              && !(i in b.withIssue && i in b.idle)
              && !(i in b.overdue && i in b.idle)
    ensures forall i :: 0 <= i < |cards| ==> !(i in b.allComplete && i in b.inProgress)
    ensures forall i :: 0 <= i < |cards| && |GetIssues(cards[i])| == 0
                        && GetStatus(cards[i], now, config.idleThreshold, isComplete) == Unknown ==>
              i !in b.allComplete && i !in b.inProgress && i !in b.overdue && i !in b.withIssue && i !in b.idle
  {
    b := Buckets([], [], [], [], []);
    for n := 0 to |cards|
      invariant Routed(b, cards, n, now, config.idleThreshold, isComplete)
    {
      var status := GetStatus(cards[n], now, config.idleThreshold, isComplete);
      var issues := GetIssues(cards[n]);
      RoutedStep(b, cards, n, now, config.idleThreshold, isComplete);
      b := Place(b, n, issues, status);
    }
    forall i | 0 <= i < |cards| {
      RulesExclusive(b, i, GetIssues(cards[i]), GetStatus(cards[i], now, config.idleThreshold, isComplete));
    }
  }
}
