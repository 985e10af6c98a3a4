/**
 Macro nodes of senko-core/src/stream.rs one by one and in the ordered map, which is the sequence
 of its nodes by ascending key: appending, lookup, deletion and trimming in a node, and range
 queries across nodes in both directions.
 */
module StreamNodes {
  import opened Common
  import opened StreamLog

  // ----- one node -----

  function NewNode(id: Id, fields: Fields): Node {
    Node(id, [Entry(id, fields, false)], 1, 0, id, id)
  }

  function Append(node: Node, id: Id, fields: Fields): Node {
    node.(entries := node.entries + [Entry(id, fields, false)],
          count := node.count + 1,
          firstId := if Lt(id, node.firstId) then id else node.firstId,
          lastId := if Lt(node.lastId, id) then id else node.lastId)
  }

  lemma {:induction false} AppendOk(node: Node, id: Id, fields: Fields)
    requires Ok(node) && Above(id, node.entries) && Ascending(node.entries)
    ensures Ok(Append(node, id, fields))
  {
    LiveCountConcat(node.entries, [Entry(id, fields, false)]);
    LiveCountOne(Entry(id, fields, false));
    assert Le(node.entries[0].id, node.entries[|node.entries| - 1].id);
  }

  lemma {:induction false} NewNodeOk(id: Id, fields: Fields)
    ensures Ok(NewNode(id, fields))
  {
    LiveCountOne(Entry(id, fields, false));
  }

  /** Insertion into the ordered map. */
  function PutNode(nodes: seq<Node>, node: Node): seq<Node> {
    if nodes == [] then [node]
    else if node.key == nodes[0].key then [node] + nodes[1..]
    else if Lt(node.key, nodes[0].key) then [node] + nodes
    else [nodes[0]] + PutNode(nodes[1..], node)
  }

  lemma {:induction false} PutLast(nodes: seq<Node>, node: Node)
    requires forall k | 0 <= k < |nodes| :: Lt(nodes[k].key, node.key)
    ensures PutNode(nodes, node) == nodes + [node]
    decreases |nodes|
  {
    if nodes != [] {
      PutLast(nodes[1..], node);
      assert nodes + [node] == [nodes[0]] + (nodes[1..] + [node]);
    }
  }

  /** Search in one node. */
  method NodeGet(node: Node, id: Id) returns (r: Option<Fields>)
    ensures r == Lookup(node.entries, id)
  {
    for i := 0 to |node.entries|
      invariant Lookup(node.entries, id) == Lookup(node.entries[i..], id)
    {
      assert node.entries[i..][1..] == node.entries[i + 1..];
      if node.entries[i].id == id && !node.entries[i].deleted {
        return Some(node.entries[i].fields);
      }
    }
    r := None;
  }

  /** Every id of a node lies between its bounds, in whatever order. */
  ghost predicate InBounds(node: Node) {
    forall i | 0 <= i < |node.entries| :: Le(node.firstId, node.entries[i].id) && Le(node.entries[i].id, node.lastId)
  }

  ghost predicate Bounded(nodes: seq<Node>) {
    forall k | 0 <= k < |nodes| :: InBounds(nodes[k])
  }

  lemma {:induction false} OkInBounds(node: Node)
    requires Ok(node) && Ascending(node.entries)
    ensures InBounds(node)
  {
    var n := |node.entries| - 1;
    forall i | 0 <= i <= n ensures Le(node.firstId, node.entries[i].id) && Le(node.entries[i].id, node.lastId) {
      assert i > 0 ==> Lt(node.entries[0].id, node.entries[i].id);
      assert i < n ==> Lt(node.entries[i].id, node.entries[n].id);
    }
  }

  lemma {:induction false} AppendInBounds(node: Node, id: Id, fields: Fields)
    requires InBounds(node)
    ensures InBounds(Append(node, id, fields))
  {
  }

  lemma {:induction false} SetBounded(nodes: seq<Node>, k: nat, updated: Node)
    requires k < |nodes| && (InBounds(nodes[k]) ==> InBounds(updated))
    ensures Bounded(nodes) ==> Bounded(nodes[k := updated])
  {
  }

  lemma {:induction false} PutBounded(nodes: seq<Node>, node: Node)
    requires Bounded(nodes) && InBounds(node)
    ensures Bounded(PutNode(nodes, node))
    decreases |nodes|
  {
    if nodes != [] {
      PutBounded(nodes[1..], node);
    }
  }

  lemma {:induction false} OutOfBounds(node: Node, id: Id)
    requires InBounds(node) && (Lt(id, node.firstId) || Lt(node.lastId, id))
    ensures Lookup(node.entries, id) == None
  {
    LookupOutside(node.entries, id);
  }

  /** The index of the first entry with this id, or the number of entries. */
  function FirstWith(log: Log, id: Id): (i: nat)
    ensures i <= |log| && (FirstIsLive(log, id) <==> i < |log| && log[i].id == id && !log[i].deleted)
  {
    if log == [] || log[0].id == id then 0 else 1 + FirstWith(log[1..], id)
  }

  function Marked(node: Node, i: nat): Node
    requires i < |node.entries|
  {
    var entries := node.entries[i := node.entries[i].(deleted := true)];
    node.(entries := entries, deleted := node.deleted + 1, count := if node.count == 0 then 0 else node.count - 1)
  }

  lemma {:induction false} MarkedOk(node: Node, i: nat)
    requires i < |node.entries| && !node.entries[i].deleted
    ensures Ok(node) && Ascending(node.entries) ==>
              && Ok(Marked(node, i)) && Marked(node, i).entries == Tombstone(node.entries, node.entries[i].id)
              && Marked(node, i).count + 1 == node.count
  {
    MarkOne(node.entries, i);
  }

  /** `soft_delete`: mark the first entry with this id, unless it is marked already. */
  method SoftDelete(node: Node, id: Id) returns (updated: Node, done: bool)
    ensures done == FirstIsLive(node.entries, id)
    ensures updated == if done then Marked(node, FirstWith(node.entries, id)) else node
    ensures updated.key == node.key && updated.firstId == node.firstId && updated.lastId == node.lastId
    ensures InBounds(node) ==> InBounds(updated)
    ensures done && Ok(node) && Ascending(node.entries) ==>
              Ok(updated) && updated.entries == Tombstone(node.entries, id) && updated.count + 1 == node.count
  {
    for i := 0 to |node.entries|
      invariant FirstWith(node.entries, id) == i + FirstWith(node.entries[i..], id)
      invariant FirstIsLive(node.entries, id) == FirstIsLive(node.entries[i..], id)
    {
      assert node.entries[i..][1..] == node.entries[i + 1..];
      if node.entries[i].id == id {
        if node.entries[i].deleted {
          return node, false;
        }
        MarkedOk(node, i);
        return Marked(node, i), true;
      }
    }
    return node, false;
  }

  lemma {:induction false} MarkOne(log: Log, i: nat)
    requires i < |log| && !log[i].deleted
    ensures var marked := log[i := log[i].(deleted := true)];
            && LiveCount(marked) + 1 == LiveCount(log)
            && (Ascending(log) ==> marked == Tombstone(log, log[i].id))
  {
    var e, d := log[i], log[i].(deleted := true);
    assert log == log[..i] + ([e] + log[i + 1..]);
    assert log[i := d] == log[..i] + ([d] + log[i + 1..]);
    LiveCountConcat(log[..i], [e] + log[i + 1..]);
    LiveCountConcat(log[..i], [d] + log[i + 1..]);
    LiveCountConcat([e], log[i + 1..]);
    LiveCountConcat([d], log[i + 1..]);
    LiveCountOne(e);
    LiveCountOne(d);
  }

  /** `hard_trim_oldest_entries` */
  method HardTrimOldest(node: Node, toRemove: nat) returns (updated: Node, removed: nat)
    requires Ok(node)
    ensures removed == if toRemove < |node.entries| then toRemove else |node.entries|
    ensures updated.entries == node.entries[removed..] && updated.key == node.key
    ensures Ascending(node.entries) && updated.entries != [] ==> Ok(updated)
  {
    removed := 0;
    updated := node;
    while removed < toRemove && updated.entries != []
      invariant removed <= toRemove && removed <= |node.entries|
      invariant Dropped(node, updated, removed)
    {
      updated := DropFirst(updated);
      DroppedNext(node, removed);
      removed := removed + 1;
    }
    BoundsOfDropped(node, updated, removed);
    updated := Rebound(updated);
  }

  ghost predicate AllFrom(log: Log, minId: Id) {
    forall i | 0 <= i < |log| :: Le(minId, log[i].id)
  }

  ghost predicate AllBelow(log: Log, minId: Id) {
    forall i | 0 <= i < |log| :: Lt(log[i].id, minId)
  }

  /** `hard_trim_while_id_lt` */
  method HardTrimBelow(node: Node, threshold: Id, room: Option<nat>) returns (updated: Node, removed: nat)
    requires Ok(node)
    ensures removed <= |node.entries| && (room.Some? ==> removed <= room.value)
    ensures updated.entries == node.entries[removed..] && updated.key == node.key
    ensures Ascending(node.entries) && updated.entries != [] ==> Ok(updated)
    ensures AllBelow(node.entries[..removed], threshold)
    ensures updated.entries == [] || Le(threshold, updated.entries[0].id) || (room.Some? && removed == room.value)
  {
    removed := 0;
    updated := node;
    while updated.entries != []
      invariant removed <= |node.entries| && (room.Some? ==> removed <= room.value)
      invariant Dropped(node, updated, removed)
      invariant forall i | 0 <= i < removed :: Lt(node.entries[i].id, threshold)
      decreases |node.entries| - removed
    {
      if room.Some? && removed >= room.value {
        break;
      }
      if Le(threshold, updated.entries[0].id) {
        break;
      }
      updated := DropFirst(updated);
      DroppedNext(node, removed);
      removed := removed + 1;
    }
    BoundsOfDropped(node, updated, removed);
    if removed > 0 {
      updated := Rebound(updated);
    }
  }

  function DropFirst(node: Node): Node
    requires node.entries != []
  {
    var rest := node.(entries := node.entries[1..]);
    if node.entries[0].deleted then rest.(deleted := if node.deleted == 0 then 0 else node.deleted - 1)
    else rest.(count := if node.count == 0 then 0 else node.count - 1)
  }

  /** `recompute_bounds` */
  function Rebound(node: Node): Node {
    if node.entries == [] then node.(firstId := ZERO, lastId := ZERO)
    else node.(firstId := node.entries[0].id, lastId := node.entries[|node.entries| - 1].id)
  }

  /** `updated` is `node` without its first `n` entries; the bounds are not brought up to date. */
  ghost predicate Dropped(node: Node, updated: Node, n: nat) {
    && n <= |node.entries| && updated.entries == node.entries[n..] && updated.key == node.key
    && updated.count == LiveCount(updated.entries) && updated.count + updated.deleted == |updated.entries|
    && updated.firstId == node.firstId && updated.lastId == node.lastId
  }

  lemma {:induction false} DroppedNext(node: Node, n: nat)
    requires n < |node.entries|
    ensures node.entries[n..][1..] == node.entries[n + 1..]
    ensures LiveCount(node.entries[n..]) ==
            (if node.entries[n].deleted then 0 else 1) + LiveCount(node.entries[n + 1..])
    ensures LiveCount(node.entries[n + 1..]) <= |node.entries| - n - 1
  {
    assert node.entries[n..][1..] == node.entries[n + 1..];
    LiveCountBound(node.entries[n + 1..]);
  }

  lemma {:induction false} BoundsOfDropped(node: Node, updated: Node, n: nat)
    requires Ok(node) && Dropped(node, updated, n)
    ensures Ascending(node.entries) && updated.entries != [] ==> Ok(Rebound(updated)) && (n == 0 ==> Ok(updated))
  {
    if Ascending(node.entries) && updated.entries != [] {
      assert n > 0 ==> Lt(node.entries[0].id, node.entries[n].id);
    }
  }

  // ----- range queries -----

  predicate Full(items: seq<Item>, count: Option<nat>) {
    count.Some? && |items| >= count.value
  }

  /** Within a node the limit is looked at only after an item has been taken: a limit of zero lets one through. */
  function Limited(items: seq<Item>, count: Option<nat>): seq<Item> {
    if count.None? then items
    else
      var most := if count.value == 0 then 1 else count.value;
      if |items| <= most then items else items[..most]
  }

  predicate Skipped(node: Node, start: Id, end: Id) {
    Lt(node.lastId, start) || Lt(end, node.firstId)
  }

  /** The entries of all nodes that a range does not skip. */
  function Entered(nodes: seq<Node>, start: Id, end: Id): Log {
    if nodes == [] then []
    else (if Skipped(nodes[0], start, end) then [] else nodes[0].entries) + Entered(nodes[1..], start, end)
  }

  lemma {:induction false} EnteredConcat(a: seq<Node>, b: seq<Node>, start: Id, end: Id)
    ensures Entered(a + b, start, end) == Entered(a, start, end) + Entered(b, start, end)
    decreases |a|
  {
    if a == [] {
      assert a + b == b;
    } else {
      assert (a + b)[1..] == a[1..] + b;
      EnteredConcat(a[1..], b, start, end);
      Assoc(if Skipped(a[0], start, end) then [] else a[0].entries, Entered(a[1..], start, end), Entered(b, start, end));
    }
  }

  lemma {:induction false} EnteredOne(node: Node, start: Id, end: Id)
    ensures Entered([node], start, end) == if Skipped(node, start, end) then [] else node.entries
  {
    assert [node][1..] == [];
  }

  /** The entries of the first node that a range does not skip. */
  function Opening(nodes: seq<Node>, start: Id, end: Id): Log {
    if nodes == [] then []
    else if Skipped(nodes[0], start, end) then Opening(nodes[1..], start, end)
    else nodes[0].entries
  }

  /** The entries of the last node that a range does not skip. */
  function Closing(nodes: seq<Node>, start: Id, end: Id): Log {
    if nodes == [] then []
    else if Skipped(nodes[|nodes| - 1], start, end) then Closing(nodes[..|nodes| - 1], start, end)
    else nodes[|nodes| - 1].entries
  }

  /** What a limited range of a log is: the first so many items, but for a limit of zero one item of the node looked at. */
  function Answer(items: seq<Item>, looked: seq<Item>, count: Option<nat>): seq<Item> {
    Limited(if count == Some(0) then looked else items, count)
  }

  /** Without a count everything, with a positive one that many; with zero at most one item of the node looked at. */
  lemma {:induction false} AnswerMeaning(items: seq<Item>, looked: seq<Item>, count: Option<nat>)
    ensures count.None? ==> Answer(items, looked, count) == items
    ensures count.Some? && count.value > 0 ==>
              Answer(items, looked, count) == if |items| <= count.value then items else items[..count.value]
    ensures count == Some(0) ==> Answer(items, looked, count) == if looked == [] then [] else [looked[0]]
  {
    if count == Some(0) && |looked| > 1 {
      assert looked[..1] == [looked[0]];
    }
  }

  /**
   A range in either direction keeps to its limit exactly when that is positive or the one node
   looked at shows nothing; a positive limit is used up as far as there are items.
   */
  lemma {:induction false} LimitKeptIff(nodes: seq<Node>, start: Id, end: Id, count: nat)
    ensures var items, looked := Visible(Entered(nodes, start, end), start, end), Visible(Opening(nodes, start, end), start, end);
            && (|Answer(items, looked, Some(count))| <= count <==> count > 0 || looked == [])
            && (count > 0 ==> |Answer(items, looked, Some(count))| == if |items| < count then |items| else count)
    ensures var items, looked := Visible(Entered(nodes, start, end), start, end), Visible(Closing(nodes, start, end), start, end);
            && (|Answer(Reversed(items), Reversed(looked), Some(count))| <= count <==> count > 0 || looked == [])
            && (count > 0 ==> |Answer(Reversed(items), Reversed(looked), Some(count))| == if |items| < count then |items| else count)
  {
    ReversedLength(Visible(Entered(nodes, start, end), start, end));
    ReversedLength(Visible(Closing(nodes, start, end), start, end));
  }

  lemma {:induction false} ReversedLength<T>(s: seq<T>)
    ensures |Reversed(s)| == |s|
    decreases |s|
  {
    if s != [] {
      ReversedLength(s[1..]);
    }
  }

  /** A limit of zero lets an entry through, unless tombstones fill the node in front. */
  lemma {:induction false} ZeroLimitGivesOne(fields: Fields)
    ensures var live, dead := Entry(Id(2, 0), fields, false), Entry(Id(1, 0), fields, true);
            var one, two := Node(Id(2, 0), [live], 1, 0, Id(2, 0), Id(2, 0)), Node(Id(1, 0), [dead], 0, 1, Id(1, 0), Id(1, 0));
            && Ordered([one]) && Ordered([two, one])
            && Visible(Opening([one], ZERO, Id(9, 0)), ZERO, Id(9, 0)) == [(Id(2, 0), fields)]
            && Visible(Opening([two, one], ZERO, Id(9, 0)), ZERO, Id(9, 0)) == []
            && Visible(Closing([two, one], ZERO, Id(9, 0)), ZERO, Id(9, 0)) == [(Id(2, 0), fields)]
  {
    var live, dead := Entry(Id(2, 0), fields, false), Entry(Id(1, 0), fields, true);
    var one, two := Node(Id(2, 0), [live], 1, 0, Id(2, 0), Id(2, 0)), Node(Id(1, 0), [dead], 0, 1, Id(1, 0), Id(1, 0));
    LiveCountOne(live);
    LiveCountOne(dead);
    LogOfOne(one);
    assert [two, one][1..] == [one];
    assert LogOf([two, one]) == [dead, live];
    VisibleOne(live, ZERO, Id(9, 0));
    VisibleOne(dead, ZERO, Id(9, 0));
  }

  function Reversed<T>(s: seq<T>): seq<T> {
    if s == [] then [] else Reversed(s[1..]) + [s[0]]
  }

  lemma {:induction false} ReversedConcat<T>(a: seq<T>, b: seq<T>)
    ensures Reversed(a + b) == Reversed(b) + Reversed(a)
    decreases |a|
  {
    if a == [] {
      assert a + b == b;
    } else {
      assert (a + b)[1..] == a[1..] + b;
      ReversedConcat(a[1..], b);
      Assoc(Reversed(b), Reversed(a[1..]), [a[0]]);
    }
  }

  /** Looking through the reversed log shows the same items, last first. */
  lemma {:induction false} VisibleReversed(log: Log, start: Id, end: Id)
    ensures Visible(Reversed(log), start, end) == Reversed(Visible(log, start, end))
    decreases |log|
  {
    if log != [] {
      VisibleReversed(log[1..], start, end);
      VisibleConcat(Reversed(log[1..]), [log[0]], start, end);
      VisibleOne(log[0], start, end);
      var first := if Shown(log[0], start, end) then [(log[0].id, log[0].fields)] else [];
      ReversedConcat(first, Visible(log[1..], start, end));
      assert Reversed(first) == first;
    }
  }

  /** Collect from one run of entries behind what has been collected; stop when there is enough. */
  method Collect(taken: seq<Item>, entries: Log, start: Id, end: Id, count: Option<nat>)
    returns (items: seq<Item>)
    requires taken == [] || !Full(taken, count)
    ensures items == Limited(taken + Visible(entries, start, end), count)
  {
    items := taken;
    ghost var all := taken + Visible(entries, start, end);
    for i := 0 to |entries|
      invariant items == [] || !Full(items, count)
      invariant all == items + Visible(entries[i..], start, end)
    {
      assert entries[i..][1..] == entries[i + 1..];
      var e := entries[i];
      if e.deleted || Lt(e.id, start) || Lt(end, e.id) {
        assert [] + Visible(entries[i + 1..], start, end) == Visible(entries[i + 1..], start, end);
        continue;
      }
      Assoc(items, [(e.id, e.fields)], Visible(entries[i + 1..], start, end));
      items := items + [(e.id, e.fields)];
      if Full(items, count) {
        return;
      }
    }
    assert items + [] == items;
  }

  /** A node that is skipped for its bounds has nothing to show. */
  lemma {:induction false} SkippedNode(node: Node, start: Id, end: Id)
    requires InBounds(node) && Skipped(node, start, end)
    ensures Visible(node.entries, start, end) == []
  {
    NothingVisible(node.entries, start, end);
  }

  /** Once there is enough, what follows makes no difference. */
  lemma {:induction false} LimitedStays(items: seq<Item>, more: seq<Item>, count: Option<nat>)
    requires items != [] && Full(items, count)
    ensures Limited(items + more, count) == Limited(items, count)
  {
  }

  // ----- the tree -----

  ghost predicate KeysAscend(nodes: seq<Node>) {
    forall i, j | 0 <= i < j < |nodes| :: Lt(nodes[i].key, nodes[j].key)
  }

  /** The nodes are in order, and so are the entries across them. */
  ghost predicate Ordered(nodes: seq<Node>) {
    AllOk(nodes) && KeysAscend(nodes) && Ascending(LogOf(nodes))
  }

  /** What stands before, in and behind one node. */
  lemma {:induction false} NodeInLog(nodes: seq<Node>, k: nat) returns (pre: Log, post: Log)
    requires Ordered(nodes) && k < |nodes|
    ensures pre == LogOf(nodes[..k]) && post == LogOf(nodes[k + 1..])
    ensures LogOf(nodes) == pre + (nodes[k].entries + post)
    ensures LogOf(nodes[..k + 1]) == pre + nodes[k].entries
    ensures Ok(nodes[k]) && Ascending(nodes[k].entries)
    ensures forall i | 0 <= i < |pre| :: Lt(pre[i].id, nodes[k].firstId)
    ensures forall i | 0 <= i < |post| :: Lt(nodes[k].lastId, post[i].id)
  {
    pre, post := LogOf(nodes[..k]), LogOf(nodes[k + 1..]);
    LogAround(nodes, k, nodes[k]);
    AscendingParts(pre, nodes[k].entries, post);
  }

  /** The counters say how many entries are live and how many are stored. */
  ghost predicate Tracks(nodes: seq<Node>, len: nat, totalLen: nat) {
    Ordered(nodes) && len == LiveCount(LogOf(nodes)) && totalLen == |LogOf(nodes)|
  }

  ghost predicate LiveUpTo(log: Log, lastId: Id) {
    forall i | 0 <= i < |log| && !log[i].deleted :: Le(log[i].id, lastId)
  }

  /** The node whose bounds hold an id decides about it. */
  lemma {:induction false} NodeDecides(nodes: seq<Node>, k: nat, id: Id)
    requires Ordered(nodes) && k < |nodes| && Le(nodes[k].firstId, id) && Le(id, nodes[k].lastId)
    ensures Lookup(LogOf(nodes), id) == Lookup(nodes[k].entries, id)
    ensures Ok(nodes[k]) && Ascending(nodes[k].entries)
  {
    var pre, post := NodeInLog(nodes, k);
    LookupConcat(pre, nodes[k].entries + post, id);
    LookupConcat(nodes[k].entries, post, id);
    LookupOutside(pre, id);
    LookupOutside(post, id);
  }

  lemma {:induction false} DeleteTracks(nodes: seq<Node>, k: nat, updated: Node, id: Id, lastId: Id)
    requires Ordered(nodes) && k < |nodes| && Le(nodes[k].firstId, id) && Le(id, nodes[k].lastId)
    requires Ok(updated) && updated.key == nodes[k].key && updated.entries == Tombstone(nodes[k].entries, id)
    requires LiveUpTo(LogOf(nodes), lastId) && Lookup(LogOf(nodes), id).Some?
    ensures var log := LogOf(nodes[k := updated]);
            && log == Tombstone(LogOf(nodes), id) && Ordered(nodes[k := updated])
            && LiveCount(log) + 1 == LiveCount(LogOf(nodes)) && |log| == |LogOf(nodes)| && LiveUpTo(log, lastId)
  {
    DeleteInNode(nodes, k, updated, id);
    TombstoneCounts(LogOf(nodes), id);
  }

  lemma {:induction false} OrderedIsBounded(nodes: seq<Node>)
    requires Ordered(nodes)
    ensures Bounded(nodes)
  {
    forall k | 0 <= k < |nodes| ensures InBounds(nodes[k]) {
      var pre, post := NodeInLog(nodes, k);
      OkInBounds(nodes[k]);
    }
  }

  /** With right bounds nothing of the range lies in a node that is skipped. */
  lemma {:induction false} EnteredShowsAll(nodes: seq<Node>, start: Id, end: Id)
    requires Bounded(nodes)
    ensures Visible(Entered(nodes, start, end), start, end) == Visible(LogOf(nodes), start, end)
    decreases |nodes|
  {
    if nodes != [] {
      EnteredShowsAll(nodes[1..], start, end);
      VisibleConcat(nodes[0].entries, LogOf(nodes[1..]), start, end);
      VisibleConcat(nodes[0].entries, Entered(nodes[1..], start, end), start, end);
      if Skipped(nodes[0], start, end) {
        SkippedNode(nodes[0], start, end);
        assert [] + Entered(nodes[1..], start, end) == Entered(nodes[1..], start, end);
      }
    }
  }

  lemma {:induction false} BoundedShowsAll(nodes: seq<Node>, start: Id, end: Id)
    ensures Bounded(nodes) ==> Visible(Entered(nodes, start, end), start, end) == Visible(LogOf(nodes), start, end)
  {
    if Bounded(nodes) {
      EnteredShowsAll(nodes, start, end);
    }
  }

  lemma {:induction false} ForwardSplit(nodes: seq<Node>, k: nat, start: Id, end: Id)
    requires k < |nodes|
    ensures Visible(Entered(nodes[..k + 1], start, end), start, end) ==
            Visible(Entered(nodes[..k], start, end), start, end) + Visible(Entered([nodes[k]], start, end), start, end)
    ensures Visible(Entered(nodes, start, end), start, end) ==
            Visible(Entered(nodes[..k + 1], start, end), start, end) + Visible(Entered(nodes[k + 1..], start, end), start, end)
  {
    assert nodes[..k + 1] == nodes[..k] + [nodes[k]] && nodes == nodes[..k + 1] + nodes[k + 1..];
    EnteredConcat(nodes[..k], [nodes[k]], start, end);
    VisibleConcat(Entered(nodes[..k], start, end), Entered([nodes[k]], start, end), start, end);
    EnteredConcat(nodes[..k + 1], nodes[k + 1..], start, end);
    VisibleConcat(Entered(nodes[..k + 1], start, end), Entered(nodes[k + 1..], start, end), start, end);
  }

  lemma {:induction false} BackwardSplit(nodes: seq<Node>, k: nat, start: Id, end: Id)
    requires k < |nodes|
    ensures Visible(Reversed(Entered(nodes[k..], start, end)), start, end) ==
            Visible(Reversed(Entered(nodes[k + 1..], start, end)), start, end) +
            Visible(Reversed(Entered([nodes[k]], start, end)), start, end)
    ensures Visible(Reversed(Entered(nodes, start, end)), start, end) ==
            Visible(Reversed(Entered(nodes[k..], start, end)), start, end) +
            Visible(Reversed(Entered(nodes[..k], start, end)), start, end)
  {
    assert nodes[k..] == [nodes[k]] + nodes[k + 1..] && nodes == nodes[..k] + nodes[k..];
    BothReversed([nodes[k]], nodes[k + 1..], start, end);
    BothReversed(nodes[..k], nodes[k..], start, end);
  }

  lemma {:induction false} BothReversed(a: seq<Node>, b: seq<Node>, start: Id, end: Id)
    ensures Visible(Reversed(Entered(a + b, start, end)), start, end) ==
            Visible(Reversed(Entered(b, start, end)), start, end) + Visible(Reversed(Entered(a, start, end)), start, end)
  {
    EnteredConcat(a, b, start, end);
    ReversedConcat(Entered(a, start, end), Entered(b, start, end));
    VisibleConcat(Reversed(Entered(b, start, end)), Reversed(Entered(a, start, end)), start, end);
  }

  /** The items of one more node: either there is enough, whatever the rest, or all of them are taken. */
  lemma {:induction false} TakeMore(items: seq<Item>, more: seq<Item>, rest: seq<Item>, looked: seq<Item>, count: Option<nat>)
    requires items == [] || !Full(items, count)
    requires count == Some(0) ==> items == [] && looked == more
    ensures var got, all := Limited(items + more, count), (items + more) + rest;
            if Full(got, count) then got <= all && got == Answer(all, looked, count)
            else got == items + more && (got == [] || !Full(got, count)) && (count == Some(0) ==> got == [])
  {
    if count == Some(0) {
      assert [] + more == more;
    } else if Full(Limited(items + more, count), count) {
      LimitedStays(items + more, rest, count);
    }
  }

  /** A forward query before it looks at the nodes from `k` on. */
  ghost predicate ReadOn(nodes: seq<Node>, k: nat, items: seq<Item>, start: Id, end: Id, count: Option<nat>) {
    && k <= |nodes| && items == Visible(Entered(nodes[..k], start, end), start, end) && (items == [] || !Full(items, count))
    && (count == Some(0) ==> items == [] && Opening(nodes, start, end) == Opening(nodes[k..], start, end))
  }

  lemma {:induction false} SkipOn(nodes: seq<Node>, k: nat, items: seq<Item>, start: Id, end: Id, count: Option<nat>)
    requires k < |nodes| && ReadOn(nodes, k, items, start, end, count) && Skipped(nodes[k], start, end)
    ensures ReadOn(nodes, k + 1, items, start, end, count)
  {
    ForwardSplit(nodes, k, start, end);
    EnteredOne(nodes[k], start, end);
    assert items + [] == items;
    assert nodes[k..][0] == nodes[k] && nodes[k..][1..] == nodes[k + 1..];
  }

  lemma {:induction false} TakeOn(nodes: seq<Node>, k: nat, items: seq<Item>, start: Id, end: Id, count: Option<nat>)
    requires k < |nodes| && ReadOn(nodes, k, items, start, end, count) && !Skipped(nodes[k], start, end)
    ensures var got, all := Limited(items + Visible(nodes[k].entries, start, end), count), Visible(Entered(nodes, start, end), start, end);
            if Full(got, count) then got <= all && got == Answer(all, Visible(Opening(nodes, start, end), start, end), count)
            else ReadOn(nodes, k + 1, got, start, end, count)
  {
    ForwardSplit(nodes, k, start, end);
    EnteredOne(nodes[k], start, end);
    assert nodes[k..][0] == nodes[k] && nodes[k..][1..] == nodes[k + 1..];
    TakeMore(items, Visible(nodes[k].entries, start, end), Visible(Entered(nodes[k + 1..], start, end), start, end),
             Visible(Opening(nodes, start, end), start, end), count);
  }

  /** A backward query before it looks at the nodes below `k`. */
  ghost predicate ReadBack(nodes: seq<Node>, k: nat, items: seq<Item>, start: Id, end: Id, count: Option<nat>) {
    && k <= |nodes| && items == Visible(Reversed(Entered(nodes[k..], start, end)), start, end)
    && (items == [] || !Full(items, count))
    && (count == Some(0) ==> items == [] && Closing(nodes, start, end) == Closing(nodes[..k], start, end))
  }

  lemma {:induction false} SkipBack(nodes: seq<Node>, k: nat, items: seq<Item>, start: Id, end: Id, count: Option<nat>)
    requires k < |nodes| && ReadBack(nodes, k + 1, items, start, end, count) && Skipped(nodes[k], start, end)
    ensures ReadBack(nodes, k, items, start, end, count)
  {
    BackwardSplit(nodes, k, start, end);
    EnteredOne(nodes[k], start, end);
    assert items + [] == items;
    assert nodes[..k + 1][k] == nodes[k] && nodes[..k + 1][..k] == nodes[..k];
  }

  lemma {:induction false} TakeBack(nodes: seq<Node>, k: nat, items: seq<Item>, start: Id, end: Id, count: Option<nat>)
    requires k < |nodes| && ReadBack(nodes, k + 1, items, start, end, count) && !Skipped(nodes[k], start, end)
    ensures var got := Limited(items + Visible(Reversed(nodes[k].entries), start, end), count);
            var all := Visible(Reversed(Entered(nodes, start, end)), start, end);
            if Full(got, count) then got <= all && got == Answer(all, Visible(Reversed(Closing(nodes, start, end)), start, end), count)
            else ReadBack(nodes, k, got, start, end, count)
  {
    BackwardSplit(nodes, k, start, end);
    EnteredOne(nodes[k], start, end);
    assert nodes[..k + 1][k] == nodes[k] && nodes[..k + 1][..k] == nodes[..k];
    TakeMore(items, Visible(Reversed(nodes[k].entries), start, end), Visible(Reversed(Entered(nodes[..k], start, end)), start, end),
             Visible(Reversed(Closing(nodes, start, end)), start, end), count);
  }

  lemma {:induction false} AppendAscends(log: Log, e: Entry)
    ensures Ascending(log + [e]) <==> Ascending(log) && Above(e.id, log)
  {
    var all := log + [e];
    if Ascending(all) {
      forall i, j | 0 <= i < j < |log| ensures Lt(log[i].id, log[j].id) {
        assert all[i] == log[i] && all[j] == log[j];
      }
      forall i | 0 <= i < |log| ensures Lt(log[i].id, e.id) {
        assert all[i] == log[i] && all[|log|] == e;
      }
    }
  }

  lemma {:induction false} AppendToLast(nodes: seq<Node>, id: Id, fields: Fields)
    requires Ordered(nodes) && nodes != []
    ensures var nodes' := nodes[|nodes| - 1 := Append(nodes[|nodes| - 1], id, fields)];
            && LogOf(nodes') == LogOf(nodes) + [Entry(id, fields, false)]
            && (Above(id, LogOf(nodes)) ==> Ordered(nodes'))
  {
    var n, e := |nodes| - 1, Entry(id, fields, false);
    var last := Append(nodes[n], id, fields);
    var pre, post := NodeInLog(nodes, n);
    LogAround(nodes, n, last);
    assert post == [] by {
      assert nodes[n + 1..] == [];
    }
    assert LogOf(nodes[n := last]) == LogOf(nodes) + [e];
    if Above(id, LogOf(nodes)) {
      AppendAscends(LogOf(nodes), e);
      assert Above(id, nodes[n].entries) by {
        forall i | 0 <= i < |nodes[n].entries| ensures Lt(nodes[n].entries[i].id, id) {
          assert LogOf(nodes)[|pre| + i] == nodes[n].entries[i];
        }
      }
      AppendOk(nodes[n], id, fields);
    }
  }

  lemma {:induction false} KeysBelow(nodes: seq<Node>, id: Id)
    requires Ordered(nodes) && Above(id, LogOf(nodes))
    ensures forall k | 0 <= k < |nodes| :: Lt(nodes[k].key, id)
  {
    forall k | 0 <= k < |nodes| ensures Lt(nodes[k].key, id) {
      var pre, post := NodeInLog(nodes, k);
      assert LogOf(nodes)[|pre|] == nodes[k].entries[0];
    }
  }

  lemma {:induction false} AddNode(nodes: seq<Node>, node: Node)
    requires Ordered(nodes) && Ok(node) && Ascending(LogOf(nodes) + node.entries)
    requires forall k | 0 <= k < |nodes| :: Lt(nodes[k].key, node.key)
    ensures Ordered(nodes + [node]) && LogOf(nodes + [node]) == LogOf(nodes) + node.entries
  {
    LogConcat(nodes, [node]);
    LogOfOne(node);
    OneMoreOk(nodes, node);
  }

  lemma {:induction false} OneMoreOk(nodes: seq<Node>, node: Node)
    requires AllOk(nodes) && KeysAscend(nodes) && Ok(node)
    requires forall k | 0 <= k < |nodes| :: Lt(nodes[k].key, node.key)
    ensures AllOk(nodes + [node]) && KeysAscend(nodes + [node])
  {
  }

  lemma {:induction false} AppendNode(nodes: seq<Node>, id: Id, fields: Fields)
    requires Ordered(nodes)
    ensures Above(id, LogOf(nodes)) ==>
              && LogOf(PutNode(nodes, NewNode(id, fields))) == LogOf(nodes) + [Entry(id, fields, false)]
              && Ordered(PutNode(nodes, NewNode(id, fields)))
  {
    if Above(id, LogOf(nodes)) {
      KeysBelow(nodes, id);
      PutLast(nodes, NewNode(id, fields));
      NewNodeOk(id, fields);
      AppendAscends(LogOf(nodes), Entry(id, fields, false));
      AddNode(nodes, NewNode(id, fields));
    }
  }

  lemma {:induction false} DeleteInNode(nodes: seq<Node>, k: nat, updated: Node, id: Id)
    requires Ordered(nodes) && k < |nodes| && Le(nodes[k].firstId, id) && Le(id, nodes[k].lastId)
    requires Ok(updated) && updated.key == nodes[k].key && updated.entries == Tombstone(nodes[k].entries, id)
    ensures LogOf(nodes[k := updated]) == Tombstone(LogOf(nodes), id)
    ensures Ordered(nodes[k := updated])
  {
    var pre, post := NodeInLog(nodes, k);
    LogAround(nodes, k, updated);
    TombstoneConcat(pre, nodes[k].entries + post, id);
    TombstoneConcat(nodes[k].entries, post, id);
    TombstoneAbsent(pre, id);
    TombstoneAbsent(post, id);
    TombstoneAscends(LogOf(nodes), id);
  }

  lemma {:induction false} AscendingSuffix(log: Log, n: nat)
    requires Ascending(log) && n <= |log|
    ensures Ascending(log[n..])
  {
  }

  lemma {:induction false} WithoutFirst(nodes: seq<Node>)
    requires Ordered(nodes) && nodes != []
    ensures Ok(nodes[0]) && Ordered(nodes[1..])
    ensures |nodes[0].entries| <= |LogOf(nodes)| && LogOf(nodes[1..]) == LogOf(nodes)[|nodes[0].entries|..]
    ensures LiveCount(LogOf(nodes)) == nodes[0].count + LiveCount(LogOf(nodes[1..]))
  {
    AscendingSuffix(LogOf(nodes), |nodes[0].entries|);
    LiveCountConcat(nodes[0].entries, LogOf(nodes[1..]));
  }

  lemma {:induction false} FirstAscends(nodes: seq<Node>)
    requires Ordered(nodes) && nodes != []
    ensures Ascending(nodes[0].entries)
  {
    var pre, post := NodeInLog(nodes, 0);
  }
}
