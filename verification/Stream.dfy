/**
 The stream of senko-core/src/stream.rs: macro nodes in an ordered map, with insert, delete,
 lookup, range queries in both directions, and trimming by length and by id.  The simple view
 is one ascending log with tombstones (StreamLog).  Whether a node is full is left open.
 */
module Stream {
  import opened Common
  import opened StreamLog
  import opened StreamNodes
  import opened StreamInsert
  import opened StreamTrim

  lemma {:induction false} EdgeIsBound(log: Log)
    requires Ascending(log)
    ensures LiveUpTo(log, LastLiveId(log))
  {
    LastLiveIsLast(log);
  }

  /** First or last live entry of one node. */
  method EdgeOf(entries: Log, first: bool) returns (item: Option<Item>)
    ensures item == if first then FirstLive(entries) else LastLive(entries)
  {
    item := None;
    for i := 0 to |entries|
      invariant item == if first then FirstLive(entries[..i]) else LastLive(entries[..i])
    {
      assert entries[..i + 1] == entries[..i] + [entries[i]];
      FirstLiveConcat(entries[..i], [entries[i]]);
      LastLiveConcat(entries[..i], [entries[i]]);
      if !entries[i].deleted && !(first && item.Some?) {
        item := Some((entries[i].id, entries[i].fields));
      }
    }
    assert entries[..|entries|] == entries;
  }

  class StreamTree {
    var nodes: seq<Node>
    var len: nat
    var totalLen: nat
    var lastId: Id
    var firstEntryId: Id

    ghost function Contents(): Log
      reads this
    {
      LogOf(nodes)
    }

    ghost predicate Valid()
      reads this
    {
      Tracks(nodes, len, totalLen) && LiveUpTo(Contents(), lastId)
    }

    constructor ()
      ensures Valid() && Bounded(nodes) && Contents() == []
    {
      nodes, len, totalLen, lastId, firstEntryId := [], 0, 0, ZERO, ZERO;
    }

    /** The lookup goes on through all nodes whose bounds hold the id. */
    method Get(id: Id) returns (r: Option<Fields>)
      ensures r == Found(nodes, id)
      ensures Bounded(nodes) ==> r == Lookup(Contents(), id)
    {
      if Bounded(nodes) {
        FoundInLog(nodes, id);
      }
      for k := 0 to |nodes|
        invariant Found(nodes, id) == Found(nodes[k..], id)
      {
        assert nodes[k..][0] == nodes[k] && nodes[k..][1..] == nodes[k + 1..];
        if !(Lt(id, nodes[k].firstId) || Lt(nodes[k].lastId, id)) {
          r := NodeGet(nodes[k], id);
          if r.Some? {
            return;
          }
        }
      }
      r := None;
    }

    /** The live entries of the range in nodes that are not skipped; with right bounds all those of the log. */
    method Range(start: Id, end: Id, count: Option<nat>) returns (items: seq<Item>)
      ensures var all := Visible(Entered(nodes, start, end), start, end);
              items <= all && items == Answer(all, Visible(Opening(nodes, start, end), start, end), count)
      ensures Bounded(nodes) ==> Visible(Entered(nodes, start, end), start, end) == Visible(Contents(), start, end)
      ensures Bounded(nodes) ==>
                var all := Visible(Contents(), start, end);
                && (count.None? ==> items == all)
                && (count.Some? && count.value > 0 ==> items == if |all| <= count.value then all else all[..count.value])
      ensures count == Some(0) ==>
                var looked := Visible(Opening(nodes, start, end), start, end);
                items == if looked == [] then [] else [looked[0]]
    {
      BoundedShowsAll(nodes, start, end);
      items := ReadForwards(start, end, count);
      AnswerMeaning(Visible(Entered(nodes, start, end), start, end), Visible(Opening(nodes, start, end), start, end), count);
    }

    method ReadForwards(start: Id, end: Id, count: Option<nat>) returns (items: seq<Item>)
      ensures var all := Visible(Entered(nodes, start, end), start, end);
              items <= all && items == Answer(all, Visible(Opening(nodes, start, end), start, end), count)
    {
      items := [];
      assert nodes[..0] == [] && nodes[0..] == nodes;
      for k := 0 to |nodes|
        invariant ReadOn(nodes, k, items, start, end, count)
      {
        if Lt(nodes[k].lastId, start) || Lt(end, nodes[k].firstId) {
          SkipOn(nodes, k, items, start, end, count);
          continue;
        }
        TakeOn(nodes, k, items, start, end, count);
        items := Collect(items, nodes[k].entries, start, end, count);
        if Full(items, count) {
          return;
        }
      }
      assert nodes[..|nodes|] == nodes && nodes[|nodes|..] == [];
    }

    method RangeRev(end: Id, start: Id, count: Option<nat>) returns (items: seq<Item>)
      ensures var all := Reversed(Visible(Entered(nodes, start, end), start, end));
              items <= all && items == Answer(all, Reversed(Visible(Closing(nodes, start, end), start, end)), count)
      ensures Bounded(nodes) ==> Visible(Entered(nodes, start, end), start, end) == Visible(Contents(), start, end)
      ensures Bounded(nodes) ==>
                var all := Reversed(Visible(Contents(), start, end));
                && (count.None? ==> items == all)
                && (count.Some? && count.value > 0 ==> items == if |all| <= count.value then all else all[..count.value])
      ensures count == Some(0) ==>
                var looked := Reversed(Visible(Closing(nodes, start, end), start, end));
                items == if looked == [] then [] else [looked[0]]
    {
      AnswerMeaning(Reversed(Visible(Entered(nodes, start, end), start, end)),
                    Reversed(Visible(Closing(nodes, start, end), start, end)), count);
      BoundedShowsAll(nodes, start, end);
      VisibleReversed(Entered(nodes, start, end), start, end);
      VisibleReversed(Closing(nodes, start, end), start, end);
      items := ReadBackwards(start, end, count);
    }

    method ReadBackwards(start: Id, end: Id, count: Option<nat>) returns (items: seq<Item>)
      ensures var all := Visible(Reversed(Entered(nodes, start, end)), start, end);
              items <= all && items == Answer(all, Visible(Reversed(Closing(nodes, start, end)), start, end), count)
    {
      items := [];
      assert nodes[|nodes|..] == [] && nodes[..|nodes|] == nodes;
      for k := |nodes| downto 0
        invariant ReadBack(nodes, k, items, start, end, count)
      {
        if Lt(nodes[k].lastId, start) || Lt(end, nodes[k].firstId) {
          SkipBack(nodes, k, items, start, end, count);
          continue;
        }
        TakeBack(nodes, k, items, start, end, count);
        items := Collect(items, Reversed(nodes[k].entries), start, end, count);
        if Full(items, count) {
          return;
        }
      }
      assert nodes[0..] == nodes && nodes[..0] == [];
    }

    /** Into the last node, or into a new one. */
    method Place(id: Id, fields: Fields, full: bool)
      modifies this`nodes
      ensures nodes == Inserted(old(nodes), id, fields, full)
    {
      if nodes != [] && !full {
        nodes := nodes[|nodes| - 1 := Append(nodes[|nodes| - 1], id, fields)];
      } else {
        nodes := PutNode(nodes, NewNode(id, fields));
      }
    }

    /** Whether the last node counts as full is for `full` to say. */
    method Insert(id: Id, fields: Fields, full: bool) returns (ok: bool)
      modifies this
      ensures ok == Found(old(nodes), id).None?
      ensures !ok ==> unchanged(this)
      ensures ok ==> nodes == Inserted(old(nodes), id, fields, full) && (old(Bounded(nodes)) ==> Found(nodes, id) == Some(fields))
      ensures ok ==> len == old(len) + 1 && totalLen == old(totalLen) + 1
      ensures ok ==> lastId == if Lt(old(lastId), id) then id else old(lastId)
      ensures ok ==> firstEntryId == if old(firstEntryId) == ZERO || Lt(id, old(firstEntryId)) then id else old(firstEntryId)
      ensures old(Valid()) ==> old(Bounded(nodes))
      ensures old(Bounded(nodes)) ==> Bounded(nodes) && ok == Lookup(old(Contents()), id).None?
      ensures old(Valid()) && ok ==> (Valid() <==> Fits(old(nodes), id, full))
      ensures old(Valid()) && ok && Valid() ==>
                multiset(Contents()) == multiset(old(Contents())) + multiset{Entry(id, fields, false)}
      ensures old(Valid()) && ok && Above(id, old(Contents())) ==>
                Valid() && Contents() == old(Contents()) + [Entry(id, fields, false)]
    {
      if Valid() {
        OrderedIsBounded(nodes);
      }
      var found := Get(id);
      if found.Some? {
        return false;
      }
      InsertNew(id, fields, full);
      return true;
    }

    /** Insert an id that is not live. */
    method InsertNew(id: Id, fields: Fields, full: bool)
      requires Found(nodes, id).None? && (Valid() ==> Bounded(nodes))
      modifies this
      ensures nodes == Inserted(old(nodes), id, fields, full)
      ensures old(Bounded(nodes)) ==> Bounded(nodes) && Found(nodes, id) == Some(fields)
      ensures len == old(len) + 1 && totalLen == old(totalLen) + 1
      ensures lastId == if Lt(old(lastId), id) then id else old(lastId)
      ensures firstEntryId == if old(firstEntryId) == ZERO || Lt(id, old(firstEntryId)) then id else old(firstEntryId)
      ensures old(Valid()) ==> (Valid() <==> Fits(old(nodes), id, full))
      ensures old(Valid()) && Valid() ==>
                multiset(Contents()) == multiset(old(Contents())) + multiset{Entry(id, fields, false)}
      ensures old(Valid()) && Above(id, old(Contents())) ==>
                Valid() && Contents() == old(Contents()) + [Entry(id, fields, false)]
    {
      if Bounded(nodes) {
        FoundInLog(nodes, id);
        InsertedBounded(nodes, id, fields, full);
        InsertedIsFound(nodes, id, fields, full);
      }
      if Valid() {
        InsertOutcome(nodes, id, fields, full, len, totalLen, lastId);
      }
      Place(id, fields, full);
      len, totalLen := len + 1, totalLen + 1;
      NoteEdges(id);
    }

    method NoteEdges(id: Id)
      modifies this`lastId, this`firstEntryId
      ensures lastId == if Lt(old(lastId), id) then id else old(lastId)
      ensures firstEntryId == if old(firstEntryId) == ZERO || Lt(id, old(firstEntryId)) then id else old(firstEntryId)
    {
      if Lt(lastId, id) {
        lastId := id;
      }
      if firstEntryId == ZERO || Lt(id, firstEntryId) {
        firstEntryId := id;
      }
    }

    /** The first node whose bounds hold the id. */
    method FindNode(id: Id) returns (at: nat)
      ensures at == FirstCovering(nodes, id)
    {
      at := 0;
      while at < |nodes| && !(Le(nodes[at].firstId, id) && Le(id, nodes[at].lastId))
        invariant at <= |nodes| && FirstCovering(nodes, id) == at + FirstCovering(nodes[at..], id)
      {
        assert nodes[at..][0] == nodes[at] && nodes[at..][1..] == nodes[at + 1..];
        at := at + 1;
      }
    }

    method Delete(id: Id) returns (done: bool)
      modifies this`nodes, this`len
      ensures done == Deletable(old(nodes), id)
      ensures nodes == (if done then Deleted(old(nodes), id) else old(nodes))
      ensures len == old(len) - if done && old(len) > 0 then 1 else 0
      ensures old(Bounded(nodes)) ==> Bounded(nodes)
      ensures old(Valid()) ==> Valid() && done == Lookup(old(Contents()), id).Some?
      ensures old(Valid()) ==> Contents() == if done then Tombstone(old(Contents()), id) else old(Contents())
    {
      if Valid() {
        DeleteOutcome(nodes, id, len, totalLen, lastId);
      }
      done := MarkFirst(id);
    }

    /** Mark the entry in the first node whose bounds hold the id. */
    method MarkFirst(id: Id) returns (done: bool)
      modifies this`nodes, this`len
      ensures done == Deletable(old(nodes), id)
      ensures nodes == (if done then Deleted(old(nodes), id) else old(nodes))
      ensures len == old(len) - if done && old(len) > 0 then 1 else 0
      ensures old(Bounded(nodes)) ==> Bounded(nodes)
    {
      var k := FindNode(id);
      if k == |nodes| {
        return false;
      }
      var updated;
      updated, done := SoftDelete(nodes[k], id);
      if done {
        SetBounded(nodes, k, updated);
        nodes, len := nodes[k := updated], if len == 0 then 0 else len - 1;
      }
    }

    /** `remove_whole_node` of the first node. */
    method RemoveFirstNode() returns (removed: nat)
      requires Tracks(nodes, len, totalLen) && nodes != []
      modifies this`nodes, this`len, this`totalLen
      ensures Tracks(nodes, len, totalLen) && nodes == old(nodes)[1..]
      ensures removed == |old(nodes[0].entries)| > 0 && removed <= |old(Contents())|
      ensures Contents() == old(Contents())[removed..]
    {
      WithoutFirst(nodes);
      removed := |nodes[0].entries|;
      totalLen, len := totalLen - removed, len - nodes[0].count;
      nodes := nodes[1..];
    }

    method RecomputeLen() returns (live: nat)
      requires AllOk(nodes)
      ensures live == LiveCount(Contents())
    {
      live := 0;
      for k := 0 to |nodes|
        invariant live == LiveCount(LogOf(nodes[..k]))
      {
        LogAround(nodes, k, nodes[k]);
        LiveCountConcat(LogOf(nodes[..k]), nodes[k].entries);
        assert Ok(nodes[k]);
        live := live + nodes[k].count;
      }
      assert nodes[..|nodes|] == nodes;
    }

    /** Put a shortened first node back; an empty one goes. */
    method ReplaceFirstNode(updated: Node, removed: nat)
      requires Tracks(nodes, len, totalLen) && nodes != []
      requires removed <= |nodes[0].entries| && updated.entries == nodes[0].entries[removed..]
      requires updated.key == nodes[0].key && (updated.entries != [] ==> Ok(updated))
      modifies this`nodes, this`len, this`totalLen
      ensures Tracks(nodes, len, totalLen) && removed <= |old(Contents())|
      ensures Contents() == old(Contents())[removed..]
      ensures nodes == if updated.entries == [] then old(nodes)[1..] else old(nodes)[0 := updated]
    {
      WithShorterFirst(nodes, updated, removed);
      if updated.entries == [] {
        nodes := nodes[1..];
      } else {
        nodes := nodes[0 := updated];
      }
      totalLen := totalLen - removed;
      len := RecomputeLen();
    }

    /** `first_entry` and `last_entry` */
    method RefreshEdgeIds()
      modifies this`firstEntryId, this`lastId
      ensures firstEntryId == FirstLiveId(Contents()) && lastId == LastLiveId(Contents())
    {
      var first := FirstEntry();
      var last := LastEntry();
      firstEntryId, lastId := IdOf(first), IdOf(last);
    }

    method FirstEntry() returns (item: Option<Item>)
      ensures item == FirstLive(Contents())
    {
      item := None;
      for k := 0 to |nodes|
        invariant item == None && FirstLive(Contents()) == FirstLive(LogOf(nodes[k..]))
      {
        assert nodes[k..][1..] == nodes[k + 1..];
        FirstLiveConcat(nodes[k].entries, LogOf(nodes[k + 1..]));
        item := EdgeOf(nodes[k].entries, true);
        if item.Some? {
          return;
        }
      }
    }

    method LastEntry() returns (item: Option<Item>)
      ensures item == LastLive(Contents())
    {
      item := None;
      assert nodes[..|nodes|] == nodes;
      for k := |nodes| downto 0
        invariant item == None && LastLive(Contents()) == LastLive(LogOf(nodes[..k]))
      {
        LogAround(nodes, k, nodes[k]);
        LastLiveConcat(LogOf(nodes[..k]), nodes[k].entries);
        item := EdgeOf(nodes[k].entries, false);
        if item.Some? {
          return;
        }
      }
    }

    method TrimByMaxlen(maxlen: nat, approx: bool, limit: nat)
      requires Valid()
      modifies this
      ensures Valid() && firstEntryId == FirstLiveId(Contents()) && lastId == LastLiveId(Contents())
      ensures TrimmedTo(old(nodes), nodes, maxlen, approx, limit) && KeepsLength(old(nodes), nodes, maxlen, approx, limit)
    {
      EvictToMaxlen(maxlen, approx, limit);
      EndTrim();
      TrimmedToMeaning(old(nodes), nodes, maxlen, approx, limit);
    }

    method EvictToMaxlen(maxlen: nat, approx: bool, limit: nat)
      requires Tracks(nodes, len, totalLen)
      modifies this`nodes, this`len, this`totalLen
      ensures Tracks(nodes, len, totalLen)
      ensures TrimmedTo(old(nodes), nodes, maxlen, approx, limit)
    {
      var evicted: nat := 0;
      ghost var k: nat, partly := 0, false;
      assert nodes[0..] == nodes;
      while totalLen > maxlen
        invariant Tracks(nodes, len, totalLen)
        invariant OnTheWay(old(nodes), nodes, maxlen, approx, limit, evicted, k, partly)
        decreases totalLen
      {
        var removed;
        removed, k, partly := EvictRound(maxlen, approx, limit, evicted, old(nodes), k, partly);
        if removed == 0 {
          break;
        }
        evicted := evicted + removed;
      }
      if totalLen <= maxlen {
        OverAt(old(nodes), nodes, maxlen, approx, limit, evicted, k, partly);
      }
      RoundsEnd(old(nodes), nodes, maxlen, approx, limit, evicted, k, partly);
    }

    /** One turn of the loop; no progress means its end. */
    method EvictRound(maxlen: nat, approx: bool, limit: nat, evicted: nat, ghost before: seq<Node>, ghost k: nat, ghost partly: bool)
      returns (removed: nat, ghost k': nat, ghost partly': bool)
      requires Tracks(nodes, len, totalLen) && totalLen > maxlen && AllOk(before)
      requires OnTheWay(before, nodes, maxlen, approx, limit, evicted, k, partly)
      modifies this`nodes, this`len, this`totalLen
      ensures Tracks(nodes, len, totalLen) && totalLen == old(totalLen) - removed
      ensures OnTheWay(before, nodes, maxlen, approx, limit, evicted + removed, k', partly')
      ensures removed == 0 ==> Over(before, nodes, maxlen, approx, limit, evicted)
    {
      removed, k', partly' := 0, k, partly;
      if limit > 0 && evicted >= limit {
        OverAt(before, nodes, maxlen, approx, limit, evicted, k, partly);
        return;
      }
      if nodes == [] {
        return;
      }
      removed := EvictSome(maxlen, approx, limit, evicted);
      k', partly' := RoundOutcome(before, old(nodes), nodes, maxlen, approx, limit, evicted, k, partly, removed);
    }

    /** One round of the loop: nothing is removed where the source leaves it. */
    method EvictSome(maxlen: nat, approx: bool, limit: nat, evicted: nat) returns (removed: nat)
      requires Tracks(nodes, len, totalLen) && nodes != [] && totalLen > maxlen && (limit > 0 ==> evicted < limit)
      modifies this`nodes, this`len, this`totalLen
      ensures Tracks(nodes, len, totalLen) && totalLen == old(totalLen) - removed
      ensures Round(old(nodes), nodes, old(totalLen) - maxlen, approx, limit, evicted, removed)
    {
      WithoutFirst(nodes);
      var nodeTotal := |nodes[0].entries|;
      var excess := totalLen - maxlen;
      if approx || nodeTotal <= excess {
        if totalLen - nodeTotal < maxlen || (limit > 0 && nodeTotal > limit - evicted) {
          return 0;
        }
        removed := RemoveFirstNode();
      } else {
        removed := TrimOldestOfFirst(if limit > 0 && limit - evicted < excess then limit - evicted else excess);
      }
    }

    /** `trim_from_oldest_node` of the first node. */
    method TrimOldestOfFirst(toTrim: nat) returns (removed: nat)
      requires Tracks(nodes, len, totalLen) && nodes != [] && 0 < toTrim < |nodes[0].entries|
      modifies this`nodes, this`len, this`totalLen
      ensures Tracks(nodes, len, totalLen) && removed == toTrim <= |old(Contents())|
      ensures Contents() == old(Contents())[removed..]
    {
      ghost var pre, post := NodeInLog(nodes, 0);
      var updated;
      updated, removed := HardTrimOldest(nodes[0], toTrim);
      ReplaceFirstNode(updated, removed);
    }

    method TrimByMinid(minId: Id, approx: bool, limit: nat)
      requires Valid()
      modifies this
      ensures Valid() && firstEntryId == FirstLiveId(Contents()) && lastId == LastLiveId(Contents())
      ensures TrimmedBelow(old(nodes), nodes, minId, approx, limit) && KeepsFrom(old(nodes), nodes, minId, approx, limit)
    {
      EvictBelow(minId, approx, limit);
      EndTrim();
      TrimmedBelowMeaning(old(nodes), nodes, minId, approx, limit);
    }

    method EndTrim()
      requires Tracks(nodes, len, totalLen)
      modifies this`firstEntryId, this`lastId
      ensures Valid() && firstEntryId == FirstLiveId(Contents()) && lastId == LastLiveId(Contents())
    {
      RefreshEdgeIds();
      EdgeIsBound(Contents());
    }

    method EvictBelow(minId: Id, approx: bool, limit: nat)
      requires Tracks(nodes, len, totalLen)
      modifies this`nodes, this`len, this`totalLen
      ensures Tracks(nodes, len, totalLen) && TrimmedBelow(old(nodes), nodes, minId, approx, limit)
    {
      var evicted := EvictNodesBelow(minId, limit);
      if !approx && nodes != [] && (limit == 0 || evicted < limit) {
        EvictEntriesBelow(minId, limit, evicted, old(nodes));
      }
    }

    /** Whole nodes that end below the bound. */
    method EvictNodesBelow(minId: Id, limit: nat) returns (evicted: nat)
      requires Tracks(nodes, len, totalLen)
      modifies this`nodes, this`len, this`totalLen
      ensures Tracks(nodes, len, totalLen) && evicted == |old(Contents())| - totalLen
      ensures Evicting(old(nodes), nodes, minId, limit) && IsSuffix(nodes, old(nodes))
      ensures NodesStop(old(nodes), nodes, minId, limit)
    {
      evicted := 0;
      SuffixOfItself(nodes);
      while true
        invariant Tracks(nodes, len, totalLen) && evicted == |LogOf(old(nodes))| - totalLen
        invariant Evicting(old(nodes), nodes, minId, limit) && IsSuffix(nodes, old(nodes))
        decreases totalLen
      {
        if (limit > 0 && evicted >= limit) || nodes == [] || Le(minId, nodes[0].lastId) {
          break;
        }
        if limit > 0 && |nodes[0].entries| > limit - evicted {
          break;
        }
        ghost var here := nodes;
        NodeBelow(nodes, minId);
        var removed := RemoveFirstNode();
        EvictingOn(old(nodes), here, nodes, removed, minId, limit);
        SuffixOn(old(nodes), here, 1);
        evicted := evicted + removed;
      }
    }

    /** `trim_id_lt_from_node` of the first node. */
    method EvictEntriesBelow(minId: Id, limit: nat, evicted: nat, ghost before: seq<Node>)
      requires Tracks(nodes, len, totalLen) && nodes != [] && (limit == 0 || evicted < limit)
      requires evicted == |LogOf(before)| - totalLen && Evicting(before, nodes, minId, limit)
      requires NodesStop(before, nodes, minId, limit)
      modifies this`nodes, this`len, this`totalLen
      ensures Tracks(nodes, len, totalLen) && Evicting(before, nodes, minId, limit)
      ensures AllFrom(Contents(), minId) || (limit > 0 && |LogOf(before)| - totalLen == limit)
    {
      ghost var here := nodes;
      WithoutFirst(nodes);
      FirstAscends(nodes);
      var updated, removed := HardTrimBelow(nodes[0], minId, if limit == 0 then None else Some(limit - evicted));
      ReplaceFirstNode(updated, removed);
      EntriesBelow(here, removed, minId);
      EvictingOn(before, here, nodes, removed, minId, limit);
    }
  }
}
