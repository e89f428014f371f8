/** The board configuration (`TrelloConfig`): lists indexed by name and the
    three distinguished lists found by their tags. */
module Config {
  import opened Wrappers

  /** `TrelloListType`. */
  datatype ListType = Backlog | Doing | Done

  /** The enum member's `.value`, the tag string of the configuration file. */
  function TagOf(t: ListType): string {
    match t
    case Backlog => "backlog"
    case Doing => "doing"
    case Done => "done"
  }

  /** The list type whose value is `tag`, if any (`TrelloListType`'s values). */
  function ParseTag(tag: string): (r: Option<ListType>)
    ensures r.Some? ==> TagOf(r.value) == tag
  {
    if tag == TagOf(Backlog) then Some(Backlog)
    else if tag == TagOf(Doing) then Some(Doing)
    else if tag == TagOf(Done) then Some(Done)
    else None
  }

  /** Every list type's tag parses back to that type. */
  lemma ParseTagRoundTrip(t: ListType)
    ensures ParseTag(TagOf(t)) == Some(t)
  {
  }

  /** One `board_lists` entry of the configuration file. */
  datatype ListEntry = ListEntry(name: string, tag: string)

  /** The configuration file after loading. */
  datatype RawConfig = RawConfig(userName: string, boardName: string, idleThreshold: int, boardLists: seq<ListEntry>)

  /** `TrelloBoard`; the identifier is resolved later over the network. */
  datatype Board = Board(id: Option<string>, name: string)

  /** `TrelloList`; the identifier is resolved later over the network. */
  datatype TrelloList = TrelloList(id: Option<string>, name: string, tag: string)

  /** `TrelloConfig`. A distinguished list that no entry tags stays `None`
      (in the source the attribute is never assigned). */
  datatype TrelloConfig = TrelloConfig(
    userName: string,
    board: Board,
    idleThreshold: int,
    boardLists: map<string, TrelloList>,
    backlog: Option<TrelloList>,
    doing: Option<TrelloList>,
    done: Option<TrelloList>)

  /** The list an entry describes, before its identifier is known. */
  function ListOf(e: ListEntry): TrelloList {
    TrelloList(None, e.name, e.tag)
  }

  /** No entry after position `i` carries the name of entry `i`. */
  ghost predicate LastNamed(entries: seq<ListEntry>, i: int) {
    0 <= i < |entries| && forall j :: i < j < |entries| ==> entries[j].name != entries[i].name
  }

  /** `slot` refers to the last entry tagged `tag`, and is `None` when no
      entry carries that tag. */
  ghost predicate RefersToLastTagged(slot: Option<TrelloList>, entries: seq<ListEntry>, tag: string) {
    && (slot.None? <==> forall i :: 0 <= i < |entries| ==> entries[i].tag != tag)
    && forall i :: 0 <= i < |entries| && entries[i].tag == tag ==>
         (forall j :: i < j < |entries| ==> entries[j].tag != tag) ==> slot == Some(ListOf(entries[i]))
  }

  /** One pass of the loop in `TrelloConfig.__init__`. */
  function Step(c: TrelloConfig, e: ListEntry): TrelloConfig {
    var l := ListOf(e);
    var c' := c.(boardLists := c.boardLists[e.name := l]);
    if e.tag == TagOf(Backlog) then c'.(backlog := Some(l))
    else if e.tag == TagOf(Doing) then c'.(doing := Some(l))
    else if e.tag == TagOf(Done) then c'.(done := Some(l))
    else c'
  }

  /** One pass stores the entry under its name and assigns exactly the slot
      its tag names. */
  lemma StepSlots(c: TrelloConfig, e: ListEntry)
    ensures Step(c, e).boardLists == c.boardLists[e.name := ListOf(e)]
    ensures Step(c, e).backlog == if e.tag == TagOf(Backlog) then Some(ListOf(e)) else c.backlog
    ensures Step(c, e).doing == if e.tag == TagOf(Doing) then Some(ListOf(e)) else c.doing
    ensures Step(c, e).done == if e.tag == TagOf(Done) then Some(ListOf(e)) else c.done
    ensures Step(c, e).userName == c.userName && Step(c, e).board == c.board
    ensures Step(c, e).idleThreshold == c.idleThreshold
  {
  }

  /** An entry whose tag names no list type changes only `board_lists`. */
  lemma StepOtherTag(c: TrelloConfig, e: ListEntry)
    requires ParseTag(e.tag) == None
    ensures Step(c, e) == c.(boardLists := c.boardLists[e.name := ListOf(e)])
  {
  }

  /** The names of the lists a configuration file declares. */
  ghost function NamesOf(entries: seq<ListEntry>): set<string> {
    set i | 0 <= i < |entries| :: entries[i].name
  }

  /** `board_lists` holds every declared name, mapped to its last entry. */
  ghost predicate IndexesByName(m: map<string, TrelloList>, entries: seq<ListEntry>) {
    && m.Keys == NamesOf(entries)
    && forall i :: LastNamed(entries, i) ==> entries[i].name in m && m[entries[i].name] == ListOf(entries[i])
  }

  /** Storing one more entry under its name keeps the index by name. */
  lemma IndexByNameStep(m: map<string, TrelloList>, entries: seq<ListEntry>, e: ListEntry)
    requires IndexesByName(m, entries)
    ensures IndexesByName(m[e.name := ListOf(e)], entries + [e])
  {
    var entries' := entries + [e];
    var m' := m[e.name := ListOf(e)];
    assert NamesOf(entries') == NamesOf(entries) + {e.name} by {
      forall x | x in NamesOf(entries')
        ensures x in NamesOf(entries) + {e.name}
      {
        var i :| 0 <= i < |entries'| && entries'[i].name == x;
        if i < |entries| {
          assert entries[i].name == x;
        }
      }
      forall x | x in NamesOf(entries) + {e.name}
        ensures x in NamesOf(entries')
      {
        if x == e.name {
          assert entries'[|entries|].name == x;
        } else {
          var i :| 0 <= i < |entries| && entries[i].name == x;
          assert entries'[i].name == x;
        }
      }
    }
    forall i | LastNamed(entries', i)
      ensures entries'[i].name in m' && m'[entries'[i].name] == ListOf(entries'[i])
    {
      if i < |entries| {
        assert forall j :: 0 <= j < |entries| ==> entries'[j] == entries[j];
        assert entries'[|entries|].name != entries'[i].name;
        assert LastNamed(entries, i);
      }
    }
  }

  /** Assigning the slot for `tag` when, and only when, the next entry
      carries that tag keeps it on the last such entry. */
  lemma LastTaggedStep(slot: Option<TrelloList>, entries: seq<ListEntry>, e: ListEntry, tag: string)
    requires RefersToLastTagged(slot, entries, tag)
    ensures RefersToLastTagged(if e.tag == tag then Some(ListOf(e)) else slot, entries + [e], tag)
  {
    var entries' := entries + [e];
    var slot' := if e.tag == tag then Some(ListOf(e)) else slot;
    if e.tag != tag {
      assert forall i :: 0 <= i < |entries| ==> entries'[i] == entries[i];
      forall i | 0 <= i < |entries'| && entries'[i].tag == tag && (forall j :: i < j < |entries'| ==> entries'[j].tag != tag)
        ensures slot' == Some(ListOf(entries'[i]))
      {
        assert i < |entries|;
      }
    } else {
      assert entries'[|entries|].tag == tag;
    }
  }

  /** Extending a prefix by the next element. */
  lemma PrefixStep<T>(s: seq<T>, n: nat)
    requires n < |s|
    ensures s[..n + 1] == s[..n] + [s[n]]
  {
  }

  /** The state of `TrelloConfig.__init__` after its loop has processed the
      first `n` configured lists. */
  ghost predicate Indexed(c: TrelloConfig, raw: RawConfig, n: nat) {
    && n <= |raw.boardLists|
    && c.userName == raw.userName && c.idleThreshold == raw.idleThreshold
    && c.board == Board(None, raw.boardName)
    && IndexesByName(c.boardLists, raw.boardLists[..n])
    && RefersToLastTagged(c.backlog, raw.boardLists[..n], TagOf(Backlog))
    && RefersToLastTagged(c.doing, raw.boardLists[..n], TagOf(Doing))
    && RefersToLastTagged(c.done, raw.boardLists[..n], TagOf(Done))
  }

  /** One loop pass extends `Indexed` by one entry. */
  lemma IndexedStep(c: TrelloConfig, raw: RawConfig, n: nat)
    requires n < |raw.boardLists| && Indexed(c, raw, n)
    ensures Indexed(Step(c, raw.boardLists[n]), raw, n + 1)
  {
    var entries := raw.boardLists;
    var e := entries[n];
    PrefixStep(entries, n);
    IndexByNameStep(c.boardLists, entries[..n], e);
    LastTaggedStep(c.backlog, entries[..n], e, TagOf(Backlog));
    LastTaggedStep(c.doing, entries[..n], e, TagOf(Doing));
    LastTaggedStep(c.done, entries[..n], e, TagOf(Done));
    StepSlots(c, e);
  }

  /** Once every entry is processed, `Indexed` speaks of the whole list. */
  lemma IndexedAll(c: TrelloConfig, raw: RawConfig)
    requires Indexed(c, raw, |raw.boardLists|)
    ensures IndexesByName(c.boardLists, raw.boardLists)
    ensures RefersToLastTagged(c.backlog, raw.boardLists, TagOf(Backlog))
    ensures RefersToLastTagged(c.doing, raw.boardLists, TagOf(Doing))
    ensures RefersToLastTagged(c.done, raw.boardLists, TagOf(Done))
  {
    assert raw.boardLists[..|raw.boardLists|] == raw.boardLists;
  }

  /** `TrelloConfig.__init__`. */
  method NewConfig(raw: RawConfig) returns (c: TrelloConfig)
    ensures c.userName == raw.userName && c.idleThreshold == raw.idleThreshold
    ensures c.board == Board(None, raw.boardName)
    ensures c.boardLists.Keys == NamesOf(raw.boardLists)
    ensures forall i :: LastNamed(raw.boardLists, i) ==>
              raw.boardLists[i].name in c.boardLists && c.boardLists[raw.boardLists[i].name] == ListOf(raw.boardLists[i])
    ensures RefersToLastTagged(c.backlog, raw.boardLists, TagOf(Backlog))
    ensures RefersToLastTagged(c.doing, raw.boardLists, TagOf(Doing))
    ensures RefersToLastTagged(c.done, raw.boardLists, TagOf(Done))
  {
    c := TrelloConfig(raw.userName, Board(None, raw.boardName), raw.idleThreshold, map[], None, None, None);
    for n := 0 to |raw.boardLists|
      invariant Indexed(c, raw, n)
    {
      IndexedStep(c, raw, n);
      c := Step(c, raw.boardLists[n]);
    }
    IndexedAll(c, raw);
  }

}
