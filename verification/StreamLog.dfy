/**
 Stream ids, entries and macro nodes of senko-core/src/stream.rs, and the flat log that a
 sequence of macro nodes stands for.  A deleted entry stays in the log as a tombstone.
 */
module StreamLog {
  import opened Common

  // ----- ids -----

  datatype Id = Id(ms: nat, sub: nat)

  const ZERO: Id := Id(0, 0)

  /** The order of ids: milliseconds first, then sequence number. */
  predicate Lt(a: Id, b: Id) {
    a.ms < b.ms || (a.ms == b.ms && a.sub < b.sub)
  }

  predicate Le(a: Id, b: Id) {
    !Lt(b, a)
  }

  /** `auto_generate`; the sequence number saturates. */
  function AutoGenerate(last: Id, now: nat): Id {
    if now > last.ms then Id(now, 0)
    else Id(last.ms, if last.sub + 1 < U64 then last.sub + 1 else U64 - 1)
  }

  /** A generated id is new unless the clock stands still on an exhausted sequence number. */
  lemma {:induction false} AutoGenerateIsNew(last: Id, now: nat)
    requires last.sub < U64
    ensures Lt(last, AutoGenerate(last, now)) <==> now > last.ms || last.sub + 1 < U64
    ensures Le(last, AutoGenerate(last, now)) && now <= AutoGenerate(last, now).ms
    ensures now > last.ms ==> AutoGenerate(last, now) == Id(now, 0)
    ensures now <= last.ms && last.sub < 0xffff_ffff_ffff_ffff ==> AutoGenerate(last, now) == Id(last.ms, last.sub + 1)
    ensures now <= last.ms && last.sub == 0xffff_ffff_ffff_ffff ==> AutoGenerate(last, now) == last
  {
  }

  // ----- the log -----

  type Fields = seq<(Bytes, Bytes)>

  datatype Entry = Entry(id: Id, fields: Fields, deleted: bool)

  type Log = seq<Entry>

  type Item = (Id, Fields)

  ghost predicate Ascending(log: Log) {
    forall i, j | 0 <= i < j < |log| :: Lt(log[i].id, log[j].id)
  }

  /** `id` is above everything stored, tombstones included. */
  ghost predicate Above(id: Id, log: Log) {
    forall i | 0 <= i < |log| :: Lt(log[i].id, id)
  }

  function LiveCount(log: Log): nat {
    if log == [] then 0 else (if log[0].deleted then 0 else 1) + LiveCount(log[1..])
  }

  lemma {:induction false} LiveCountConcat(a: Log, b: Log)
    ensures LiveCount(a + b) == LiveCount(a) + LiveCount(b)
    decreases |a|
  {
    if a == [] {
      assert a + b == b;
    } else {
      assert (a + b)[1..] == a[1..] + b;
      LiveCountConcat(a[1..], b);
    }
  }

  lemma {:induction false} LiveCountOne(e: Entry)
    ensures LiveCount([e]) == if e.deleted then 0 else 1
  {
    assert [e][1..] == [];
  }

  lemma {:induction false} LiveCountBound(log: Log)
    ensures LiveCount(log) <= |log|
    decreases |log|
  {
    if log != [] {
      LiveCountBound(log[1..]);
    }
  }

  predicate Shown(e: Entry, start: Id, end: Id) {
    !e.deleted && Le(start, e.id) && Le(e.id, end)
  }

  /** The live entries between two ids, in log order: what a range query is to return. */
  function Visible(log: Log, start: Id, end: Id): seq<Item> {
    if log == [] then []
    else (if Shown(log[0], start, end) then [(log[0].id, log[0].fields)] else []) + Visible(log[1..], start, end)
  }

  lemma {:induction false} VisibleConcat(a: Log, b: Log, start: Id, end: Id)
    ensures Visible(a + b, start, end) == Visible(a, start, end) + Visible(b, start, end)
    decreases |a|
  {
    if a == [] {
      assert a + b == b;
    } else {
      assert (a + b)[1..] == a[1..] + b;
      VisibleConcat(a[1..], b, start, end);
      Assoc(if Shown(a[0], start, end) then [(a[0].id, a[0].fields)] else [],
            Visible(a[1..], start, end), Visible(b, start, end));
    }
  }

  lemma {:induction false} VisibleOne(e: Entry, start: Id, end: Id)
    ensures Visible([e], start, end) == if Shown(e, start, end) then [(e.id, e.fields)] else []
  {
    assert [e][1..] == [];
  }

  /**
   What a range shows, told by milliseconds and sequence numbers: of one entry that entry, if it is
   live and neither before the start nor behind the end; of two logs one after the other both.
   */
  lemma {:induction false} VisibleByNumbers(e: Entry, a: Log, b: Log, start: Id, end: Id)
    ensures Visible([], start, end) == []
    ensures var (ms, sub) := (e.id.ms, e.id.sub);
            var shown := && !e.deleted && (start.ms < ms || (start.ms == ms && start.sub <= sub))
                         && (ms < end.ms || (ms == end.ms && sub <= end.sub));
            Visible([e], start, end) == if shown then [(e.id, e.fields)] else []
    ensures Visible(a + b, start, end) == Visible(a, start, end) + Visible(b, start, end)
  {
    VisibleOne(e, start, end);
    VisibleConcat(a, b, start, end);
  }

  /** The live count is the number of entries that are no tombstones. */
  lemma {:induction false} LiveCountMeaning(log: Log)
    ensures LiveCount(log) == |set i | 0 <= i < |log| && !log[i].deleted|
    decreases |log|
  {
    var all := set i | 0 <= i < |log| && !log[i].deleted;
    if log == [] {
      assert all == {};
    } else {
      var n := |log| - 1;
      var front := log[..n];
      LiveCountMeaning(front);
      assert log == front + [log[n]];
      LiveCountConcat(front, [log[n]]);
      LiveCountOne(log[n]);
      var before := set i | 0 <= i < |front| && !front[i].deleted;
      assert all == before + if log[n].deleted then {} else {n};
    }
  }

  /** Nothing more and nothing less than the live entries of the range. */
  lemma {:induction false} VisibleMeaning(log: Log, start: Id, end: Id, item: Item)
    ensures item in Visible(log, start, end) <==>
            exists e | e in log :: Shown(e, start, end) && item == (e.id, e.fields)
    decreases |log|
  {
    if log != [] {
      VisibleMeaning(log[1..], start, end, item);
      assert log == [log[0]] + log[1..];
      assert forall e :: e in log <==> e == log[0] || e in log[1..];
    }
  }

  /** A range comes back in strictly ascending order. */
  lemma {:induction false} VisibleAscends(log: Log, start: Id, end: Id)
    requires Ascending(log)
    ensures forall i, j | 0 <= i < j < |Visible(log, start, end)| ::
              Lt(Visible(log, start, end)[i].0, Visible(log, start, end)[j].0)
    decreases |log|
  {
    if log != [] {
      var rest := Visible(log[1..], start, end);
      VisibleAscends(log[1..], start, end);
      forall k | 0 <= k < |rest| ensures Lt(log[0].id, rest[k].0) {
        VisibleMeaning(log[1..], start, end, rest[k]);
      }
    }
  }

  /** A log that lies outside a range shows nothing. */
  lemma {:induction false} NothingVisible(log: Log, start: Id, end: Id)
    requires forall i | 0 <= i < |log| :: Lt(log[i].id, start) || Lt(end, log[i].id)
    ensures Visible(log, start, end) == []
    decreases |log|
  {
    if log != [] {
      assert Lt(log[0].id, start) || Lt(end, log[0].id);
      NothingVisible(log[1..], start, end);
    }
  }

  /** The fields of the first live entry with this id. */
  function Lookup(log: Log, id: Id): Option<Fields> {
    if log == [] then None
    else if log[0].id == id && !log[0].deleted then Some(log[0].fields)
    else Lookup(log[1..], id)
  }

  lemma {:induction false} LookupConcat(a: Log, b: Log, id: Id)
    ensures Lookup(a + b, id) == if Lookup(a, id).Some? then Lookup(a, id) else Lookup(b, id)
    decreases |a|
  {
    if a == [] {
      assert a + b == b;
    } else {
      assert (a + b)[1..] == a[1..] + b;
      LookupConcat(a[1..], b, id);
    }
  }

  lemma {:induction false} LookupMeaning(log: Log, id: Id, fields: Fields)
    requires Ascending(log)
    ensures Lookup(log, id) == Some(fields) <==> Entry(id, fields, false) in log
    decreases |log|
  {
    if log != [] {
      LookupMeaning(log[1..], id, fields);
      assert log == [log[0]] + log[1..];
    }
  }

  lemma {:induction false} LookupOutside(log: Log, id: Id)
    requires forall i | 0 <= i < |log| :: log[i].id != id || log[i].deleted
    ensures Lookup(log, id) == None
    decreases |log|
  {
    if log != [] {
      LookupOutside(log[1..], id);
    }
  }

  /** Whether the first entry with this id, which is the one a deletion looks at, is live. */
  predicate FirstIsLive(log: Log, id: Id) {
    log != [] && if log[0].id == id then !log[0].deleted else FirstIsLive(log[1..], id)
  }

  lemma {:induction false} FirstIsOnly(log: Log, id: Id)
    requires Ascending(log)
    ensures FirstIsLive(log, id) == Lookup(log, id).Some?
    decreases |log|
  {
    if log != [] {
      FirstIsOnly(log[1..], id);
      if log[0].id == id {
        LookupOutside(log[1..], id);
      }
    }
  }

  lemma {:induction false} FirstIsLiveConcat(log: Log, e: Entry)
    requires Lookup(log, e.id) == None
    ensures FirstIsLive(log + [e], e.id) <==> !e.deleted && forall i | 0 <= i < |log| :: log[i].id != e.id
    decreases |log|
  {
    if log == [] {
      assert log + [e] == [e];
    } else {
      assert (log + [e])[1..] == log[1..] + [e];
      FirstIsLiveConcat(log[1..], e);
    }
  }

  /** The log with the entry of this id marked deleted. */
  function Tombstone(log: Log, id: Id): Log {
    seq(|log|, i requires 0 <= i < |log| => if log[i].id == id then log[i].(deleted := true) else log[i])
  }

  lemma {:induction false} TombstoneConcat(a: Log, b: Log, id: Id)
    ensures Tombstone(a + b, id) == Tombstone(a, id) + Tombstone(b, id)
  {
  }

  lemma {:induction false} TombstoneAbsent(log: Log, id: Id)
    requires forall i | 0 <= i < |log| :: log[i].id != id
    ensures Tombstone(log, id) == log
  {
  }

  lemma {:induction false} TombstoneCounts(log: Log, id: Id)
    requires Ascending(log)
    ensures LiveCount(Tombstone(log, id)) + (if Lookup(log, id).Some? then 1 else 0) == LiveCount(log)
    decreases |log|
  {
    if log != [] {
      assert Tombstone(log, id)[1..] == Tombstone(log[1..], id);
      TombstoneCounts(log[1..], id);
      if log[0].id == id {
        LookupOutside(log[1..], id);
      }
    }
  }

  /** Deleting hides one entry from every query and touches no other. */
  lemma {:induction false} TombstoneHides(log: Log, id: Id, other: Id)
    ensures Lookup(Tombstone(log, id), other) == if other == id then None else Lookup(log, other)
    decreases |log|
  {
    if log != [] {
      assert Tombstone(log, id)[1..] == Tombstone(log[1..], id);
      TombstoneHides(log[1..], id, other);
    }
  }

  lemma {:induction false} TombstoneAscends(log: Log, id: Id)
    requires Ascending(log)
    ensures Ascending(Tombstone(log, id))
  {
  }

  function FirstLive(log: Log): Option<Item> {
    if log == [] then None else if log[0].deleted then FirstLive(log[1..]) else Some((log[0].id, log[0].fields))
  }

  function LastLive(log: Log): Option<Item> {
    if log == [] then None
    else
      var e := log[|log| - 1];
      if e.deleted then LastLive(log[..|log| - 1]) else Some((e.id, e.fields))
  }

  function IdOf(item: Option<Item>): Id {
    if item.Some? then item.value.0 else ZERO
  }

  function FirstLiveId(log: Log): Id {
    IdOf(FirstLive(log))
  }

  function LastLiveId(log: Log): Id {
    IdOf(LastLive(log))
  }

  lemma {:induction false} FirstLiveConcat(a: Log, b: Log)
    ensures FirstLive(a + b) == if FirstLive(a).Some? then FirstLive(a) else FirstLive(b)
    decreases |a|
  {
    if a == [] {
      assert a + b == b;
    } else {
      assert (a + b)[1..] == a[1..] + b;
      FirstLiveConcat(a[1..], b);
    }
  }

  lemma {:induction false} LastLiveConcat(a: Log, b: Log)
    ensures LastLive(a + b) == if LastLive(b).Some? then LastLive(b) else LastLive(a)
    decreases |b|
  {
    if b == [] {
      assert a + b == a;
    } else {
      var n := |b| - 1;
      assert (a + b)[..|a| + n] == a + b[..n];
      LastLiveConcat(a, b[..n]);
    }
  }

  /** Every id of the log lies in the range. */
  ghost predicate InRange(log: Log, start: Id, end: Id) {
    forall i | 0 <= i < |log| :: Le(start, log[i].id) && Le(log[i].id, end)
  }

  lemma {:induction false} FirstIsVisible(log: Log, start: Id, end: Id)
    requires InRange(log, start, end)
    ensures var items := Visible(log, start, end); FirstLive(log) == if items == [] then None else Some(items[0])
    decreases |log|
  {
    if log != [] {
      FirstIsVisible(log[1..], start, end);
    }
  }

  lemma {:induction false} LastIsVisible(log: Log, start: Id, end: Id)
    requires InRange(log, start, end)
    ensures var items := Visible(log, start, end); LastLive(log) == if items == [] then None else Some(items[|items| - 1])
    decreases |log|
  {
    if log != [] {
      var n := |log| - 1;
      LastIsVisible(log[..n], start, end);
      VisibleAtEnd(log, start, end);
    }
  }

  lemma {:induction false} VisibleAtEnd(log: Log, start: Id, end: Id)
    requires log != []
    ensures var n := |log| - 1;
            Visible(log, start, end) ==
            Visible(log[..n], start, end) + if Shown(log[n], start, end) then [(log[n].id, log[n].fields)] else []
  {
    var n := |log| - 1;
    assert log == log[..n] + [log[n]];
    VisibleConcat(log[..n], [log[n]], start, end);
    VisibleOne(log[n], start, end);
  }

  /** The first live entry is the first thing a query over everything shows, the last live one the last. */
  lemma {:induction false} EdgesAreVisible(log: Log, start: Id, end: Id)
    requires InRange(log, start, end)
    ensures var items := Visible(log, start, end);
            && FirstLive(log) == (if items == [] then None else Some(items[0]))
            && LastLive(log) == if items == [] then None else Some(items[|items| - 1])
  {
    FirstIsVisible(log, start, end);
    LastIsVisible(log, start, end);
  }

  lemma {:induction false} LastLiveIsLast(log: Log)
    requires Ascending(log)
    ensures forall i | 0 <= i < |log| && !log[i].deleted :: Le(log[i].id, LastLiveId(log))
    ensures log != [] ==> Le(LastLiveId(log), log[|log| - 1].id)
    decreases |log|
  {
    if log != [] && log[|log| - 1].deleted {
      LastLiveIsLast(log[..|log| - 1]);
      assert LastLiveId(log) == LastLiveId(log[..|log| - 1]);
      assert |log| > 1 ==> Lt(log[|log| - 2].id, log[|log| - 1].id);
    }
  }

  /**
   After a trim the recorded last id is the last live one.  It still bounds everything stored,
   so that a larger id is safe to insert, exactly when the log does not end in a tombstone.
   */
  lemma {:induction false} LastIdBoundsLog(log: Log)
    requires Ascending(log)
    ensures (forall i | 0 <= i < |log| :: Le(log[i].id, LastLiveId(log))) <==>
            (log == [] || !log[|log| - 1].deleted || log[|log| - 1].id == ZERO)
  {
    if log != [] {
      var n := |log| - 1;
      LastLiveIsLast(log[..n]);
      assert log[n].deleted ==> LastLiveId(log) == LastLiveId(log[..n]);
      assert n > 0 ==> Lt(log[n - 1].id, log[n].id);
      assert Le(log[n].id, LastLiveId(log)) <==> !log[n].deleted || log[n].id == ZERO;
    }
  }

  // ----- macro nodes -----

  /** A macro node under the key it was created with. */
  datatype Node = Node(key: Id, entries: Log, count: nat, deleted: nat, firstId: Id, lastId: Id)

  /** A stored node is not empty; its counters and bounds describe its entries. */
  ghost predicate Ok(node: Node) {
    && node.entries != []
    && node.count == LiveCount(node.entries) && node.count + node.deleted == |node.entries|
    && node.firstId == node.entries[0].id && node.lastId == node.entries[|node.entries| - 1].id
    && Le(node.key, node.firstId)
  }

  function LogOf(nodes: seq<Node>): Log {
    if nodes == [] then [] else nodes[0].entries + LogOf(nodes[1..])
  }

  lemma {:induction false} LogConcat(a: seq<Node>, b: seq<Node>)
    ensures LogOf(a + b) == LogOf(a) + LogOf(b)
    decreases |a|
  {
    if a == [] {
      assert a + b == b;
    } else {
      assert (a + b)[1..] == a[1..] + b;
      LogConcat(a[1..], b);
      Assoc(a[0].entries, LogOf(a[1..]), LogOf(b));
    }
  }

  lemma {:induction false} LogOfOne(node: Node)
    ensures LogOf([node]) == node.entries
  {
    assert [node][1..] == [];
  }

  /** The log around one node. */
  lemma {:induction false} LogAround(nodes: seq<Node>, k: nat, node: Node)
    requires k < |nodes|
    ensures LogOf(nodes) == LogOf(nodes[..k]) + (nodes[k].entries + LogOf(nodes[k + 1..]))
    ensures LogOf(nodes[k := node]) == LogOf(nodes[..k]) + (node.entries + LogOf(nodes[k + 1..]))
    ensures LogOf(nodes[..k + 1]) == LogOf(nodes[..k]) + nodes[k].entries
  {
    assert nodes == nodes[..k] + ([nodes[k]] + nodes[k + 1..]);
    assert nodes[k := node] == nodes[..k] + ([node] + nodes[k + 1..]);
    assert nodes[..k + 1] == nodes[..k] + [nodes[k]];
    LogConcat(nodes[..k], [nodes[k]] + nodes[k + 1..]);
    LogConcat(nodes[..k], [node] + nodes[k + 1..]);
    LogConcat([nodes[k]], nodes[k + 1..]);
    LogConcat([node], nodes[k + 1..]);
    LogConcat(nodes[..k], [nodes[k]]);
    LogOfOne(nodes[k]);
    LogOfOne(node);
  }

  ghost predicate AllOk(nodes: seq<Node>) {
    forall k | 0 <= k < |nodes| :: Ok(nodes[k])
  }

  /** Part of an ascending log: itself ascending, and apart from the rest. */
  lemma {:induction false} AscendingParts(pre: Log, mid: Log, post: Log)
    requires Ascending(pre + (mid + post))
    ensures Ascending(pre) && Ascending(mid) && Ascending(post) && Ascending(mid + post)
    ensures forall i, j | 0 <= i < |pre| && 0 <= j < |mid| :: Lt(pre[i].id, mid[j].id)
    ensures forall i, j | 0 <= i < |mid| && 0 <= j < |post| :: Lt(mid[i].id, post[j].id)
  {
    var all := pre + (mid + post);
    assert forall i | 0 <= i < |pre| :: all[i] == pre[i];
    assert forall i | 0 <= i < |mid| :: all[|pre| + i] == mid[i];
    assert forall i | 0 <= i < |post| :: all[|pre| + |mid| + i] == post[i];
    forall i, j | 0 <= i < j < |mid| ensures Lt(mid[i].id, mid[j].id) {
      assert Lt(all[|pre| + i].id, all[|pre| + j].id);
    }
    forall i, j | 0 <= i < j < |post| ensures Lt(post[i].id, post[j].id) {
      assert Lt(all[|pre| + |mid| + i].id, all[|pre| + |mid| + j].id);
    }
    forall i, j | 0 <= i < |mid| && 0 <= j < |post| ensures Lt(mid[i].id, post[j].id) {
      assert Lt(all[|pre| + i].id, all[|pre| + |mid| + j].id);
    }
  }

  lemma {:induction false} NodeStands(nodes: seq<Node>, k: nat) returns (at: nat)
    requires k < |nodes| && nodes[k].entries != []
    ensures at < |LogOf(nodes)| && LogOf(nodes)[at] == nodes[k].entries[0]
  {
    LogAround(nodes, k, nodes[k]);
    at := |LogOf(nodes[..k])|;
  }

  lemma {:induction false} BoundsAscend(node: Node)
    requires Ok(node) && Ascending(node.entries)
    ensures Le(node.firstId, node.lastId)
  {
    var n := |node.entries| - 1;
    assert n > 0 ==> Lt(node.entries[0].id, node.entries[n].id);
  }

  /** The macro nodes hold disjoint ascending ranges. */
  lemma {:induction false} NodesAreDisjoint(nodes: seq<Node>, a: nat, b: nat)
    requires AllOk(nodes) && Ascending(LogOf(nodes)) && a < b < |nodes|
    ensures Le(nodes[a].firstId, nodes[a].lastId) && Lt(nodes[a].lastId, nodes[b].firstId)
  {
    assert Ok(nodes[a]) && Ok(nodes[b]);
    var node, post := nodes[a], nodes[a + 1..];
    LogAround(nodes, a, node);
    AscendingParts(LogOf(nodes[..a]), node.entries, LogOf(post));
    BoundsAscend(node);
    var at := NodeStands(post, b - a - 1);
    assert Lt(node.entries[|node.entries| - 1].id, LogOf(post)[at].id);
  }
}
