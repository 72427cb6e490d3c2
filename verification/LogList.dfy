/** The list of logs of ngx_log.c, sorted by level. */
module LogList {

  /** NGX_LOG_DEBUG_CONNECTION. */
  const DEBUG_CONNECTION: nat := 0x8000_0000

  /** What a log node holds besides its link. */
  datatype Content = Content(level: nat, id: nat)

  class Log {
    var content: Content
    var next: Log?

    constructor (content: Content)
      ensures this.content == content && next == null
    {
      this.content, next := content, null;
    }
  }

  // ----- What the list should be --------------------------------------------------------------------------

  /** A new log goes before the first log of a lower level, behind those of its own. */
  function Inserted(cs: seq<Content>, c: Content): seq<Content> {
    if cs == [] then [c]
    else if c.level > cs[0].level then [c] + cs
    else [cs[0]] + Inserted(cs[1..], c)
  }

  ghost predicate Descending(cs: seq<Content>) {
    forall i, j | 0 <= i < j < |cs| :: cs[i].level >= cs[j].level
  }

  /** The logs that admit a message of this level, in list order. */
  function Admitting(cs: seq<Content>, level: nat): seq<Content> {
    if cs == [] then []
    else (if cs[0].level >= level then [cs[0]] else []) + Admitting(cs[1..], level)
  }

  /** An insertion loses nothing and keeps the order. */
  lemma InsertedHolds(cs: seq<Content>, c: Content)
    ensures multiset(Inserted(cs, c)) == multiset(cs) + multiset{c}
    ensures Descending(cs) ==> Descending(Inserted(cs, c))
  {
    hide Inserted, Descending;
    InsertedKeeps(cs, c);
    if Descending(cs) {
      InsertedDescends(cs, c);
    }
  }

  lemma {:induction false} InsertedKeeps(cs: seq<Content>, c: Content)
    ensures multiset(Inserted(cs, c)) == multiset(cs) + multiset{c}
  {
    if cs == [] {
    } else {
      assert cs == [cs[0]] + cs[1..];
      if c.level <= cs[0].level {
        InsertedKeeps(cs[1..], c);
      }
    }
  }

  lemma {:induction false} InsertedDescends(cs: seq<Content>, c: Content)
    requires Descending(cs)
    ensures Descending(Inserted(cs, c))
    ensures forall i | 0 <= i < |Inserted(cs, c)| :: Inserted(cs, c)[i] == c || Inserted(cs, c)[i] in cs
  {
    if cs == [] {
    } else if c.level <= cs[0].level {
      InsertedDescends(cs[1..], c);
    }
  }

  function AtLevel(cs: seq<Content>, level: nat): seq<Content> {
    if cs == [] then [] else (if cs[0].level == level then [cs[0]] else []) + AtLevel(cs[1..], level)
  }

  /** Each level keeps the order of insertion. */
  lemma {:induction false} InsertedIsStable(cs: seq<Content>, c: Content, level: nat)
    requires Descending(cs)
    ensures AtLevel(Inserted(cs, c), level) == AtLevel(cs, level) + if c.level == level then [c] else []
  {
    hide AtLevel;
    if cs == [] || c.level > cs[0].level {
      assert Inserted(cs, c) == [c] + cs;
      StableFirst(cs, c, level);
    } else {
      assert cs == [cs[0]] + cs[1..];
      InsertedIsStable(cs[1..], c, level);
      StableStep(cs[0], cs[1..], Inserted(cs[1..], c), if c.level == level then [c] else [], level);
    }
  }

  lemma StableFirst(cs: seq<Content>, c: Content, level: nat)
    requires forall i | 0 <= i < |cs| :: cs[i].level < c.level
    ensures AtLevel([c] + cs, level) == AtLevel(cs, level) + if c.level == level then [c] else []
  {
    hide AtLevel;
    AtLevelCons(c, cs, level);
    if level == c.level {
      NoneAtLevel(cs, level);
    } else {
      assert [] + AtLevel(cs, level) == AtLevel(cs, level) + [];
    }
  }

  lemma StableStep(first: Content, cs: seq<Content>, after: seq<Content>, own: seq<Content>, level: nat)
    requires AtLevel(after, level) == AtLevel(cs, level) + own
    ensures AtLevel([first] + after, level) == AtLevel([first] + cs, level) + own
  {
    hide AtLevel;
    AtLevelCons(first, cs, level);
    AtLevelCons(first, after, level);
  }

  lemma AtLevelCons(c: Content, cs: seq<Content>, level: nat)
    ensures AtLevel([c] + cs, level) == (if c.level == level then [c] else []) + AtLevel(cs, level)
  {
    assert ([c] + cs)[1..] == cs;
  }

  lemma {:induction false} NoneAtLevel(cs: seq<Content>, level: nat)
    requires forall i | 0 <= i < |cs| :: cs[i].level < level
    ensures AtLevel(cs, level) == []
  {
    if cs != [] {
      NoneAtLevel(cs[1..], level);
    }
  }

  lemma {:induction false} NoneAdmitting(cs: seq<Content>, level: nat)
    requires forall i | 0 <= i < |cs| :: cs[i].level < level
    ensures Admitting(cs, level) == []
  {
    if cs != [] {
      NoneAdmitting(cs[1..], level);
    }
  }

  // ----- The linked list ---------------------------------------------------------------------------------------

  function Behind(nodes: seq<Log>, i: nat): Log?
    requires i < |nodes|
  {
    if i + 1 < |nodes| then nodes[i + 1] else null
  }

  ghost predicate Distinct(nodes: seq<Log>) {
    forall i, j | 0 <= i < j < |nodes| :: nodes[i] != nodes[j]
  }

  ghost predicate List(nodes: seq<Log>)
    reads nodes
  {
    && nodes != [] && Distinct(nodes)
    && forall i | 0 <= i < |nodes| :: nodes[i].next == Behind(nodes, i)
  }

  ghost function Contents(nodes: seq<Log>): (cs: seq<Content>)
    reads nodes
    ensures |cs| == |nodes|
  {
    seq(|nodes|, i requires 0 <= i < |nodes| reads nodes => nodes[i].content)
  }

  /** Inserting behind position `k` of a descending list, all of whose first logs have at least the level. */
  lemma {:induction false} InsertedAt(cs: seq<Content>, c: Content, k: nat)
    requires k <= |cs| && (forall i | 0 <= i < k :: cs[i].level >= c.level)
    requires k < |cs| ==> cs[k].level < c.level
    ensures Inserted(cs, c) == cs[..k] + [c] + cs[k..]
  {
    if k > 0 {
      InsertedAt(cs[1..], c, k - 1);
      ConsSlices(cs, k);
    }
  }

  lemma ConsSlices<T>(s: seq<T>, k: nat)
    requires 0 < k <= |s|
    ensures s[..k] == [s[0]] + s[1..][..k - 1] && s[k..] == s[1..][k - 1..]
  {
  }

  lemma NextOf(nodes: seq<Log>, k: nat)
    requires List(nodes) && k < |nodes|
    ensures nodes[k].next == null <==> k + 1 == |nodes|
    ensures k + 1 < |nodes| ==> nodes[k].next == nodes[k + 1]
  {
  }

  lemma ContentAt(nodes: seq<Log>, k: nat)
    requires k < |nodes|
    ensures Contents(nodes)[k] == nodes[k].content
  {
  }

  /** `ngx_log_insert`: the head node stays the head even when its log does not, and the logs are those of
      the list and the new one, inserted by level. */
  method Insert(log: Log, newLog: Log, ghost nodes: seq<Log>) returns (ghost after: seq<Log>)
    requires List(nodes) && nodes[0] == log && newLog !in nodes && newLog.next == null
    modifies nodes, newLog
    ensures List(after) && after[0] == log && multiset(after) == multiset(nodes) + multiset{newLog}
    ensures Contents(after) == Inserted(old(Contents(nodes)), old(newLog.content))
  {
    if newLog.content.level > log.content.level {
      after := Swap(log, newLog, nodes);
      return;
    }
    ghost var cs := Contents(nodes);
    var at, before, k := FindPlace(log, newLog.content.level, nodes, cs);
    InsertedAt(cs, newLog.content, k + 1);
    if before {
      after := LinkBehind(at, newLog, nodes, k);
    } else {
      after := LinkLast(at, newLog, nodes);
      assert cs[..k + 1] == cs && cs[k + 1..] == [] && cs + [newLog.content] + [] == cs + [newLog.content];
    }
  }

  /** The walk along the list: the new log goes behind node `k`, before a log of a lower level or at the end. */
  method FindPlace(log: Log, level: nat, ghost nodes: seq<Log>, ghost cs: seq<Content>)
    returns (at: Log, before: bool, ghost k: nat)
    requires List(nodes) && nodes[0] == log && cs == Contents(nodes) && level <= log.content.level
    ensures k < |nodes| && at == nodes[k] && (before <==> k + 1 < |nodes|)
    ensures forall i | 0 <= i <= k :: cs[i].level >= level
    ensures before ==> cs[k + 1].level < level
    ensures at.content.level >= level
    ensures if before then at.next != null && at.next.content.level < level else at.next == null
  {
    hide List, Contents, Behind;
    NotEmpty(nodes);
    ContentAt(nodes, 0);
    at, k, before := log, 0, false;
    while true
      invariant k < |nodes| && nodes[k] == at && !before && at.content.level >= level
      invariant forall i | 0 <= i <= k :: cs[i].level >= level
      decreases |nodes| - k
    {
      NextOf(nodes, k);
      if at.next == null {
        return;
      }
      ContentAt(nodes, k + 1);
      if level > at.next.content.level {
        before := true;
        return;
      }
      at := at.next;
      k := k + 1;
    }
  }

  lemma NotEmpty(nodes: seq<Log>)
    requires List(nodes)
    ensures nodes != []
  {
  }

  /** The new log becomes the first: its node is linked in behind the head and the two swap contents. */
  method Swap(log: Log, newLog: Log, ghost nodes: seq<Log>) returns (ghost after: seq<Log>)
    requires List(nodes) && nodes[0] == log && newLog !in nodes
    requires newLog.content.level > log.content.level
    modifies log, newLog
    ensures List(after) && after[0] == log && multiset(after) == multiset(nodes) + multiset{newLog}
    ensures Contents(after) == Inserted(old(Contents(nodes)), old(newLog.content))
  {
    hide List, Contents, Inserted, Distinct;
    ListParts(nodes);
    ghost var cs, c := Contents(nodes), newLog.content;
    var content, next := log.content, log.next;
    log.content, log.next := newLog.content, newLog.next;
    newLog.content, newLog.next := content, next;
    log.next := newLog;
    after := Spliced(nodes, newLog, 0);
    forall i | 1 <= i < |nodes|
      ensures nodes[i].content == cs[i] && nodes[i].next == Behind(nodes, i)
    {
      assert nodes[i] != newLog;
      OtherNode(nodes, 0, i);
    }
    SplicedList(nodes, newLog, 0, after);
    Swapped(nodes, newLog, after, cs, c);
  }

  lemma OtherNode(nodes: seq<Log>, i: nat, j: nat)
    requires Distinct(nodes) && i < |nodes| && j < |nodes| && i != j
    ensures nodes[i] != nodes[j]
  {
  }

  lemma Swapped(nodes: seq<Log>, newLog: Log, after: seq<Log>, cs: seq<Content>, c: Content)
    requires nodes != [] && |cs| == |nodes| && after == nodes[..1] + [newLog] + nodes[1..] && c.level > cs[0].level
    requires nodes[0].content == c && newLog.content == cs[0]
    requires forall i | 1 <= i < |nodes| :: nodes[i].content == cs[i]
    ensures Contents(after) == Inserted(cs, c)
  {
    var now := Contents(after);
    forall i | 0 <= i < |now|
      ensures now[i] == ([c] + cs)[i]
    {
      assert i >= 2 ==> after[i] == nodes[i - 1];
    }
  }

  /** The new node goes behind node `k`, which may be the last. */
  method LinkBehind(at: Log, newLog: Log, ghost nodes: seq<Log>, ghost k: nat) returns (ghost after: seq<Log>)
    requires List(nodes) && k < |nodes| && nodes[k] == at && newLog !in nodes
    modifies at`next, newLog`next
    ensures List(after) && after[0] == nodes[0] && multiset(after) == multiset(nodes) + multiset{newLog}
    ensures var cs := old(Contents(nodes)); Contents(after) == cs[..k + 1] + [old(newLog.content)] + cs[k + 1..]
  {
    hide List, Contents, Distinct;
    ListParts(nodes);
    ghost var cs := Contents(nodes);
    newLog.next := at.next;
    at.next := newLog;
    after := Spliced(nodes, newLog, k);
    SplicedList(nodes, newLog, k, after);
    SplicedContents(nodes, newLog, k, after);
    SameContents(nodes, cs);
  }

  /** The new node, whose link is null, goes behind the last one. */
  method LinkLast(at: Log, newLog: Log, ghost nodes: seq<Log>) returns (ghost after: seq<Log>)
    requires List(nodes) && nodes[|nodes| - 1] == at && newLog !in nodes && newLog.next == null
    modifies at`next
    ensures List(after) && after[0] == nodes[0] && multiset(after) == multiset(nodes) + multiset{newLog}
    ensures Contents(after) == old(Contents(nodes)) + [newLog.content]
  {
    hide List, Contents, Distinct;
    ListParts(nodes);
    ghost var cs, k := Contents(nodes), |nodes| - 1;
    at.next := newLog;
    after := Spliced(nodes, newLog, k);
    SplicedList(nodes, newLog, k, after);
    SplicedContents(nodes, newLog, k, after);
    SameContents(nodes, cs);
    assert cs[..k + 1] == cs && cs[k + 1..] == [];
  }

  lemma ListParts(nodes: seq<Log>)
    requires List(nodes)
    ensures nodes != [] && Distinct(nodes)
    ensures forall i | 0 <= i < |nodes| :: nodes[i].next == Behind(nodes, i)
    ensures forall i | 0 <= i < |nodes| :: Contents(nodes)[i] == nodes[i].content
  {
  }

  lemma SameContents(nodes: seq<Log>, cs: seq<Content>)
    requires |cs| == |nodes| && forall i | 0 <= i < |nodes| :: cs[i] == nodes[i].content
    ensures cs == Contents(nodes)
  {
  }

  lemma SplicedList(nodes: seq<Log>, newLog: Log, k: nat, after: seq<Log>)
    requires k < |nodes| && newLog !in nodes && after == nodes[..k + 1] + [newLog] + nodes[k + 1..]
    requires Distinct(nodes)
    requires newLog.next == Behind(nodes, k) && nodes[k].next == newLog
    requires forall i | 0 <= i < |nodes| && i != k :: nodes[i].next == Behind(nodes, i)
    ensures List(after)
  {
    forall i | 0 <= i < |after|
      ensures after[i].next == Behind(after, i)
    {
      assert i <= k ==> after[i] == nodes[i];
      assert i > k + 1 ==> after[i] == nodes[i - 1];
    }
  }

  lemma SplicedContents(nodes: seq<Log>, newLog: Log, k: nat, after: seq<Log>)
    requires k < |nodes| && after == nodes[..k + 1] + [newLog] + nodes[k + 1..]
    ensures Contents(after) == Contents(nodes)[..k + 1] + [newLog.content] + Contents(nodes)[k + 1..]
  {
  }

  /** The nodes with a new one behind node `k`. */
  lemma Spliced(nodes: seq<Log>, newLog: Log, k: nat) returns (after: seq<Log>)
    requires k < |nodes| && newLog !in nodes
    ensures after == nodes[..k + 1] + [newLog] + nodes[k + 1..]
    ensures multiset(after) == multiset(nodes) + multiset{newLog}
  {
    after := nodes[..k + 1] + [newLog] + nodes[k + 1..];
    assert nodes == nodes[..k + 1] + nodes[k + 1..];
  }

  // ----- Delivery ------------------------------------------------------------------------------------------------

  /** Stopping at the first log of a lower level misses none. */
  lemma {:induction false} AdmittingPrefix(cs: seq<Content>, level: nat, k: nat)
    requires Descending(cs) && k <= |cs| && forall i | 0 <= i < k :: cs[i].level >= level
    requires k < |cs| ==> cs[k].level < level
    ensures Admitting(cs, level) == cs[..k]
    decreases k
  {
    if k == 0 {
      NoneAdmitting(cs, level);
    } else {
      AdmittingPrefix(cs[1..], level, k - 1);
      ConsSlices(cs, k);
    }
  }

  lemma ReachedAre(cs: seq<Content>, level: nat, k: nat)
    requires Descending(cs) && k <= |cs| && (k < |cs| ==> cs[k].level < level)
    requires forall i | 0 <= i < k :: cs[i].level >= level
    ensures forall i | 0 <= i < |cs| :: if cs[i].level >= level then i < k && cs[..k][i] == cs[i] else k <= i
  {
  }

  /** The writing loop of `ngx_log_error_core`: outside the debug_connection mode of the head log, the message
      reaches exactly the logs that admit its level; in that mode all logs. */
  method Deliver(log: Log, level: nat, ghost nodes: seq<Log>) returns (reached: seq<Content>)
    requires List(nodes) && nodes[0] == log && Descending(Contents(nodes))
    ensures reached == if log.content.level / 0x8000_0000 % 2 == 1 then Contents(nodes)
                       else Admitting(Contents(nodes), level)
    ensures log.content.level / 0x8000_0000 % 2 == 0 ==>
      && |reached| <= |nodes|
      && forall i | 0 <= i < |nodes| ::
           if Contents(nodes)[i].level >= level then i < |reached| && reached[i] == Contents(nodes)[i]
           else |reached| <= i
  {
    hide List, Descending, Admitting;
    ghost var cs := Contents(nodes);
    NotEmpty(nodes);
    reached := [];
    var debugConnection := log.content.level / DEBUG_CONNECTION % 2 == 1;
    var at: Log? := log;
    ghost var k := 0;
    while at != null
      invariant k <= |nodes| && reached == cs[..k]
      invariant at == if k < |nodes| then nodes[k] else null
      invariant debugConnection || forall i | 0 <= i < k :: cs[i].level >= level
      decreases |nodes| - k
    {
      if at.content.level < level && !debugConnection {
        AdmittingPrefix(cs, level, k);
        ReachedAre(cs, level, k);
        return;
      }
      NextOf(nodes, k);
      reached := reached + [at.content];
      at := at.next;
      k := k + 1;
    }
    assert cs[..k] == cs;
    if !debugConnection {
      AdmittingPrefix(cs, level, k);
      ReachedAre(cs, level, k);
    }
  }

  // ----- Runs ------------------------------------------------------------------------------------------------------

  function AllInserted(cs: seq<Content>, news: seq<Content>): seq<Content> {
    if news == [] then cs else Inserted(AllInserted(cs, news[..|news| - 1]), news[|news| - 1])
  }

  /** Over every run of insertions into a sorted list it stays sorted and holds exactly the inserted logs. */
  lemma {:induction false} RunsStaySorted(cs: seq<Content>, news: seq<Content>)
    requires Descending(cs)
    ensures Descending(AllInserted(cs, news)) && multiset(AllInserted(cs, news)) == multiset(cs) + multiset(news)
  {
    hide Inserted, Descending;
    if news != [] {
      var front, last := news[..|news| - 1], news[|news| - 1];
      RunsStaySorted(cs, front);
      InsertedHolds(AllInserted(cs, front), last);
      assert news == front + [last];
      assert multiset(news) == multiset(front) + multiset{last};
    } else {
      assert multiset(cs) + multiset(news) == multiset(cs);
    }
  }

  lemma MembersOf(after: seq<Log>, nodes: seq<Log>, part: seq<Log>)
    requires multiset(after) == multiset(nodes) + multiset(part)
    ensures forall k | 0 <= k < |after| :: after[k] in nodes || after[k] in part
  {
    forall k | 0 <= k < |after|
      ensures after[k] in nodes || after[k] in part
    {
      assert after[k] in multiset(after);
    }
  }

  /** The run itself, on the list with this head: the head node never changes. */
  method InsertAll(log: Log, news: seq<Log>, ghost nodes: seq<Log>) returns (ghost after: seq<Log>)
    requires List(nodes) && nodes[0] == log
    requires forall i | 0 <= i < |news| :: news[i] !in nodes && news[i].next == null
    requires forall i, j | 0 <= i < j < |news| :: news[i] != news[j]
    modifies nodes, news
    ensures List(after) && after[0] == log && multiset(after) == multiset(nodes) + multiset(news)
    ensures Contents(after) == AllInserted(old(Contents(nodes)), old(Contents(news)))
  {
    hide List, Contents, Inserted, AllInserted;
    ContentsAre(news);
    ghost var added := Contents(news);
    after := nodes;
    NotEmpty(nodes);
    RunStarts(Contents(nodes), added, news);
    for i := 0 to |news|
      invariant List(after) && after != [] && after[0] == log
      invariant multiset(after) == multiset(nodes) + multiset(news[..i])
      invariant Contents(after) == AllInserted(old(Contents(nodes)), added[..i])
      invariant forall k | i <= k < |news| :: news[k].content == added[k] && news[k].next == null
    {
      MembersOf(after, nodes, news[..i]);
      RunGoesOn(old(Contents(nodes)), added, news, i);
      after := Insert(log, news[i], after);
      NotEmpty(after);
    }
    assert news[..|news|] == news && added[..|news|] == added;
  }

  lemma ContentsAre(nodes: seq<Log>)
    ensures forall i | 0 <= i < |nodes| :: Contents(nodes)[i] == nodes[i].content
  {
  }

  lemma RunStarts(cs: seq<Content>, added: seq<Content>, news: seq<Log>)
    ensures AllInserted(cs, added[..0]) == cs && multiset(news[..0]) == multiset{}
  {
  }

  lemma RunGoesOn(cs: seq<Content>, added: seq<Content>, news: seq<Log>, i: nat)
    requires i < |news| == |added|
    ensures AllInserted(cs, added[..i + 1]) == Inserted(AllInserted(cs, added[..i]), added[i])
    ensures multiset(news[..i + 1]) == multiset(news[..i]) + multiset{news[i]}
  {
    hide Inserted;
    assert added[..i + 1][..i] == added[..i];
    assert news[..i + 1] == news[..i] + [news[i]];
  }
}
