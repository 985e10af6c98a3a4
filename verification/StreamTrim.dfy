/**
 What trimming a stream by length and by id evicts, for exact and approximate trimming, with and
 without a limit.
 */
module StreamTrim {
  import opened Common
  import opened StreamLog
  import opened StreamNodes

  lemma {:induction false} WithShorterFirst(nodes: seq<Node>, updated: Node, removed: nat)
    requires Ordered(nodes) && nodes != []
    requires removed <= |nodes[0].entries| && updated.entries == nodes[0].entries[removed..]
    requires updated.key == nodes[0].key && (updated.entries != [] ==> Ok(updated))
    ensures var nodes' := if updated.entries == [] then nodes[1..] else nodes[0 := updated];
            removed <= |LogOf(nodes)| && Ordered(nodes') && LogOf(nodes') == LogOf(nodes)[removed..]
  {
    ShorterLog(nodes, updated, removed);
    AscendingSuffix(LogOf(nodes), removed);
  }

  lemma {:induction false} ShorterLog(nodes: seq<Node>, updated: Node, removed: nat)
    requires nodes != [] && removed <= |nodes[0].entries| && updated.entries == nodes[0].entries[removed..]
    ensures removed <= |LogOf(nodes)|
    ensures updated.entries == [] ==> LogOf(nodes[1..]) == LogOf(nodes)[removed..]
    ensures LogOf(nodes[0 := updated]) == LogOf(nodes)[removed..]
  {
    assert nodes[0 := updated][1..] == nodes[1..];
  }

  ghost predicate IsSuffix<T(!new)>(s: seq<T>, all: seq<T>) {
    |s| <= |all| && s == all[|all| - |s|..]
  }

  /** How many whole nodes fit into so many entries. */
  function WholeNodes(nodes: seq<Node>, room: nat): (k: nat)
    ensures k <= |nodes|
  {
    if nodes == [] || |nodes[0].entries| > room then 0 else 1 + WholeNodes(nodes[1..], room - |nodes[0].entries|)
  }

  function Excess(nodes: seq<Node>, maxlen: nat): nat {
    if |LogOf(nodes)| > maxlen then |LogOf(nodes)| - maxlen else 0
  }

  /** The excess, as far as a limit lets it go. */
  function Most(nodes: seq<Node>, maxlen: nat, limit: nat): nat {
    if 0 < limit < Excess(nodes, maxlen) then limit else Excess(nodes, maxlen)
  }

  /**
   How many entries trimming to a length evicts: whole nodes only, if approximate; else all that
   may go, unless the next node fits into the excess but not into the limit: then that node stays whole.
   */
  function Evicts(nodes: seq<Node>, maxlen: nat, approx: bool, limit: nat): nat {
    var k := WholeNodes(nodes, Most(nodes, maxlen, limit));
    var whole := |LogOf(nodes[..k])|;
    if approx || (k < |nodes| && whole + |nodes[k].entries| <= Excess(nodes, maxlen)) then whole
    else Most(nodes, maxlen, limit)
  }

  ghost predicate TrimmedTo(before: seq<Node>, after: seq<Node>, maxlen: nat, approx: bool, limit: nat) {
    && IsSuffix(LogOf(after), LogOf(before))
    && |LogOf(before)| - |LogOf(after)| == Evicts(before, maxlen, approx, limit)
    && (approx ==> IsSuffix(after, before))
  }

  lemma {:induction false} WholeNodesFit(nodes: seq<Node>, room: nat)
    ensures var k := WholeNodes(nodes, room);
            && |LogOf(nodes[..k])| <= room
            && (k < |nodes| ==> |LogOf(nodes[..k])| + |nodes[k].entries| > room)
    decreases |nodes|
  {
    if nodes != [] && |nodes[0].entries| <= room {
      var k := WholeNodes(nodes, room);
      WholeNodesFit(nodes[1..], room - |nodes[0].entries|);
      assert nodes[..k][1..] == nodes[1..][..k - 1];
    }
  }

  lemma {:induction false} WholeNodesAre(nodes: seq<Node>, room: nat, k: nat)
    requires k <= |nodes| && |LogOf(nodes[..k])| <= room
    requires k < |nodes| ==> |LogOf(nodes[..k])| + |nodes[k].entries| > room
    ensures WholeNodes(nodes, room) == k
    decreases |nodes|
  {
    if k > 0 {
      assert nodes[..k][1..] == nodes[1..][..k - 1];
      WholeNodesAre(nodes[1..], room - |nodes[0].entries|, k - 1);
    }
  }

  /**
   What a trim to a length promises.  The log never gets shorter than `maxlen` allows and a limit is
   never exceeded.  Without limit an exact trim evicts all of the excess.  An approximate one evicts
   whole nodes until the next would be too much.  An exact one stops short of the limit only before a
   node that lies wholly in the excess.
   */
  lemma {:induction false} EvictsMeaning(nodes: seq<Node>, maxlen: nat, approx: bool, limit: nat)
    ensures var n, excess, most := Evicts(nodes, maxlen, approx, limit), Excess(nodes, maxlen), Most(nodes, maxlen, limit);
            && n <= most <= excess && (limit > 0 ==> n <= limit)
            && (!approx && limit == 0 ==> n == excess)
            && (n < most ==> exists k | 0 <= k < |nodes| ::
                  && n == |LogOf(nodes[..k])| && n + |nodes[k].entries| > most
                  && (!approx ==> n + |nodes[k].entries| <= excess))
  {
    var most := Most(nodes, maxlen, limit);
    var k := WholeNodes(nodes, most);
    WholeNodesFit(nodes, most);
    if k == |nodes| {
      assert nodes[..k] == nodes;
    } else {
      assert |LogOf(nodes[..k])| + |nodes[k].entries| > most;
    }
  }

  /** After `n` entries, all of them whole nodes, comes a node too large for what may go; an exact trim spares it only if it lies wholly in the excess. */
  ghost predicate StopsBefore(nodes: seq<Node>, n: nat, most: nat, excess: nat, approx: bool) {
    exists k | 0 <= k < |nodes| ::
      && n == |LogOf(nodes[..k])| && n + |nodes[k].entries| > most
      && (!approx ==> n + |nodes[k].entries| <= excess)
  }

  /** What a trim to a length leaves and evicts. */
  ghost predicate KeepsLength(before: seq<Node>, after: seq<Node>, maxlen: nat, approx: bool, limit: nat) {
    var log, rest := LogOf(before), LogOf(after);
    var n := |log| - |rest|;
    var excess := if |log| > maxlen then |log| - maxlen else 0;
    var most := if 0 < limit < excess then limit else excess;
    && 0 <= n <= most && rest == log[n..]
    && (!approx && limit == 0 ==> n == excess)
    && (approx ==> |after| <= |before| && after == before[|before| - |after|..])
    && (n < most ==> StopsBefore(before, n, most, excess, approx))
  }

  lemma {:induction false} TrimmedToMeaning(before: seq<Node>, after: seq<Node>, maxlen: nat, approx: bool, limit: nat)
    requires TrimmedTo(before, after, maxlen, approx, limit)
    ensures KeepsLength(before, after, maxlen, approx, limit)
  {
    EvictsMeaning(before, maxlen, approx, limit);
  }

  lemma {:induction false} SuffixOfItself(nodes: seq<Node>)
    ensures IsSuffix(nodes, nodes) && IsSuffix(LogOf(nodes), LogOf(nodes))
  {
  }

  lemma {:induction false} SuffixOn<T(!new)>(all: seq<T>, s: seq<T>, n: nat)
    requires IsSuffix(s, all) && n <= |s|
    ensures IsSuffix(s[n..], all)
  {
  }

  /** A whole first node, or part of it, leaves the log. */
  lemma {:induction false} RestOfLog(nodes: seq<Node>, k: nat)
    requires k <= |nodes|
    ensures |LogOf(nodes[k..])| == |LogOf(nodes)| - |LogOf(nodes[..k])| && IsSuffix(LogOf(nodes[k..]), LogOf(nodes))
    ensures k < |nodes| ==> |LogOf(nodes[..k + 1])| == |LogOf(nodes[..k])| + |nodes[k].entries|
  {
    assert nodes == nodes[..k] + nodes[k..];
    LogConcat(nodes[..k], nodes[k..]);
    if k < |nodes| {
      LogAround(nodes, k, nodes[k]);
    }
  }

  /** The loop of a trim: `k` whole nodes have gone, and `partly` then the front of the next one. */
  ghost predicate OnTheWay(before: seq<Node>, nodes: seq<Node>, maxlen: nat, approx: bool, limit: nat,
                           evicted: nat, k: nat, partly: bool) {
    && evicted == |LogOf(before)| - |LogOf(nodes)| && evicted <= Most(before, maxlen, limit)
    && IsSuffix(LogOf(nodes), LogOf(before))
    && k <= |before| && |LogOf(before[..k])| <= evicted
    && if partly then
         && !approx && k < |before| && evicted == Most(before, maxlen, limit)
         && |LogOf(before[..k])| + |before[k].entries| > Excess(before, maxlen)
       else nodes == before[k..]
  }

  /** A round of the loop that removes nothing: the first node is too large for the excess, or for what a limit leaves. */
  ghost predicate Refused(nodes: seq<Node>, excess: nat, approx: bool, limit: nat, evicted: nat)
    requires nodes != []
  {
    var size := |nodes[0].entries|;
    if size > excess then approx else 0 < limit < evicted + size
  }

  /** A round of the loop: the first node goes, or, if larger than the excess, a part of it. */
  ghost predicate Round(before: seq<Node>, after: seq<Node>, excess: nat, approx: bool, limit: nat, evicted: nat, removed: nat)
    requires before != []
  {
    var size := |before[0].entries|;
    if removed == 0 then after == before && Refused(before, excess, approx, limit, evicted)
    else if size <= excess then after == before[1..] && removed == size && (limit > 0 ==> evicted + size <= limit)
    else
      && !approx && removed <= |LogOf(before)| && LogOf(after) == LogOf(before)[removed..]
      && removed == if 0 < limit < evicted + excess then limit - evicted else excess
  }

  lemma {:induction false} RoundOn(before: seq<Node>, nodes: seq<Node>, after: seq<Node>, maxlen: nat, approx: bool, limit: nat,
                                   evicted: nat, k: nat, removed: nat)
    requires OnTheWay(before, nodes, maxlen, approx, limit, evicted, k, false) && AllOk(before)
    requires nodes != [] && |LogOf(nodes)| > maxlen && (limit > 0 ==> evicted < limit) && removed > 0
    requires Round(nodes, after, |LogOf(nodes)| - maxlen, approx, limit, evicted, removed)
    ensures var whole := |nodes[0].entries| <= |LogOf(nodes)| - maxlen;
            OnTheWay(before, after, maxlen, approx, limit, evicted + removed, if whole then k + 1 else k, !whole)
  {
    RestOfLog(before, k);
    assert nodes[0] == before[k];
    if |nodes[0].entries| <= |LogOf(nodes)| - maxlen {
      assert before[k..][1..] == before[k + 1..];
      RestOfLog(before, k + 1);
    } else {
      SuffixOn(LogOf(before), LogOf(nodes), removed);
    }
  }

  /** Nothing more can go. */
  ghost predicate Over(before: seq<Node>, nodes: seq<Node>, maxlen: nat, approx: bool, limit: nat, evicted: nat) {
    || nodes == [] || evicted == Most(before, maxlen, limit)
    || (|LogOf(nodes)| > maxlen && Refused(nodes, |LogOf(nodes)| - maxlen, approx, limit, evicted))
  }

  lemma {:induction false} OverAt(before: seq<Node>, nodes: seq<Node>, maxlen: nat, approx: bool, limit: nat, evicted: nat,
                                  k: nat, partly: bool)
    requires OnTheWay(before, nodes, maxlen, approx, limit, evicted, k, partly)
    requires |LogOf(nodes)| <= maxlen || (limit > 0 && evicted >= limit)
    ensures Over(before, nodes, maxlen, approx, limit, evicted)
  {
  }

  /** What a turn of the loop comes to. */
  lemma {:induction false} RoundOutcome(before: seq<Node>, nodes: seq<Node>, after: seq<Node>, maxlen: nat, approx: bool, limit: nat,
                                        evicted: nat, k: nat, partly: bool, removed: nat) returns (k': nat, partly': bool)
    requires OnTheWay(before, nodes, maxlen, approx, limit, evicted, k, partly) && AllOk(before)
    requires nodes != [] && |LogOf(nodes)| > maxlen && (limit > 0 ==> evicted < limit)
    requires Round(nodes, after, |LogOf(nodes)| - maxlen, approx, limit, evicted, removed)
    ensures OnTheWay(before, after, maxlen, approx, limit, evicted + removed, k', partly')
    ensures removed == 0 ==> Over(before, after, maxlen, approx, limit, evicted)
  {
    if removed == 0 {
      return k, partly;
    }
    assert !partly;
    RoundOn(before, nodes, after, maxlen, approx, limit, evicted, k, removed);
    partly' := |nodes[0].entries| > |LogOf(nodes)| - maxlen;
    k' := if partly' then k else k + 1;
  }

  lemma {:induction false} RoundsEnd(before: seq<Node>, nodes: seq<Node>, maxlen: nat, approx: bool, limit: nat,
                                     evicted: nat, k: nat, partly: bool)
    requires OnTheWay(before, nodes, maxlen, approx, limit, evicted, k, partly) && AllOk(before)
    requires partly || Over(before, nodes, maxlen, approx, limit, evicted)
    ensures TrimmedTo(before, nodes, maxlen, approx, limit)
  {
    RestOfLog(before, k);
    if k < |before| {
      assert Ok(before[k]);
      assert !partly ==> nodes[0] == before[k];
    } else {
      assert before[k..] == [] && before[..k] == before;
    }
    WholeNodesAre(before, Most(before, maxlen, limit), k);
  }

  /** Only ids below the bound go, and never more than a limit. */
  ghost predicate Evicting(before: seq<Node>, after: seq<Node>, minId: Id, limit: nat) {
    var log, log' := LogOf(before), LogOf(after);
    && IsSuffix(log', log)
    && AllBelow(log[..|log| - |log'|], minId)
    && (limit > 0 ==> |log| - |log'| <= limit)
  }

  /**
   Exact trimming stops at the bound or at the limit; approximate trimming stops before a node that
   reaches the bound or is too large for the limit.
   */
  ghost predicate TrimmedBelow(before: seq<Node>, after: seq<Node>, minId: Id, approx: bool, limit: nat) {
    && Evicting(before, after, minId, limit)
    && (!approx ==> AllFrom(LogOf(after), minId) || (limit > 0 && |LogOf(before)| - |LogOf(after)| == limit))
    && (approx ==> IsSuffix(after, before) && NodesStop(before, after, minId, limit))
  }

  ghost predicate NodesStop(before: seq<Node>, after: seq<Node>, minId: Id, limit: nat) {
    || after == [] || Le(minId, after[0].lastId)
    || (limit > 0 && |LogOf(before)| - |LogOf(after)| + |after[0].entries| > limit)
  }

  /** What a trim by id leaves and evicts. */
  ghost predicate KeepsFrom(before: seq<Node>, after: seq<Node>, minId: Id, approx: bool, limit: nat) {
    var log, rest := LogOf(before), LogOf(after);
    var n := |log| - |rest|;
    && 0 <= n && rest == log[n..] && (limit > 0 ==> n <= limit)
    && (forall i | 0 <= i < n :: Lt(log[i].id, minId))
    && (!approx ==> (limit > 0 && n == limit) || forall i | 0 <= i < |rest| :: !Lt(rest[i].id, minId))
    && (approx ==> |after| <= |before| && after == before[|before| - |after|..])
    && (approx && after != [] && Lt(after[0].lastId, minId) ==> limit > 0 && n + |after[0].entries| > limit)
  }

  lemma {:induction false} TrimmedBelowMeaning(before: seq<Node>, after: seq<Node>, minId: Id, approx: bool, limit: nat)
    requires TrimmedBelow(before, after, minId, approx, limit)
    ensures KeepsFrom(before, after, minId, approx, limit)
  {
    var log, n := LogOf(before), |LogOf(before)| - |LogOf(after)|;
    forall i | 0 <= i < n ensures Lt(log[i].id, minId) {
      assert log[..n][i] == log[i];
    }
  }

  lemma {:induction false} EvictingOn(before: seq<Node>, nodes: seq<Node>, after: seq<Node>, n: nat, minId: Id, limit: nat)
    requires Evicting(before, nodes, minId, limit)
    requires n <= |LogOf(nodes)| && LogOf(after) == LogOf(nodes)[n..] && AllBelow(LogOf(nodes)[..n], minId)
    requires limit > 0 ==> |LogOf(before)| - |LogOf(nodes)| + n <= limit
    ensures Evicting(before, after, minId, limit)
  {
    var log, mid := LogOf(before), LogOf(nodes);
    SuffixOn(log, mid, n);
    var d := |log| - |mid|;
    forall i | 0 <= i < d + n ensures Lt(log[i].id, minId) {
      if i < d {
        assert log[..d][i] == log[i];
      } else {
        assert mid[..n][i - d] == mid[i - d] == log[i];
      }
    }
  }

  lemma {:induction false} NodeBelow(nodes: seq<Node>, minId: Id)
    requires Ordered(nodes) && nodes != [] && Lt(nodes[0].lastId, minId)
    ensures |nodes[0].entries| <= |LogOf(nodes)| && AllBelow(LogOf(nodes)[..|nodes[0].entries|], minId)
  {
    var pre, post := NodeInLog(nodes, 0);
    var entries := nodes[0].entries;
    assert LogOf(nodes)[..|entries|] == entries;
    forall i | 0 <= i < |entries| ensures Lt(entries[i].id, minId) {
      assert i < |entries| - 1 ==> Lt(entries[i].id, entries[|entries| - 1].id);
    }
  }

  /** Dropping the entries of the first node that lie below the bound, as far as they go. */
  lemma {:induction false} EntriesBelow(nodes: seq<Node>, n: nat, minId: Id)
    requires Ordered(nodes) && nodes != [] && n <= |nodes[0].entries|
    requires AllBelow(nodes[0].entries[..n], minId)
    ensures n <= |LogOf(nodes)| && AllBelow(LogOf(nodes)[..n], minId)
    ensures n < |nodes[0].entries| && Le(minId, nodes[0].entries[n].id) ==> AllFrom(LogOf(nodes)[n..], minId)
    ensures n == |nodes[0].entries| ==> Lt(nodes[0].lastId, minId)
  {
    var entries, rest := nodes[0].entries, LogOf(nodes[1..]);
    assert LogOf(nodes) == entries + rest;
    assert LogOf(nodes)[..n] == entries[..n];
    assert Ok(nodes[0]);
    if n < |entries| {
      if Le(minId, entries[n].id) {
        FirstFromBound(LogOf(nodes), n, minId);
      }
    } else {
      assert entries[..n][n - 1] == entries[n - 1];
    }
  }

  /** In an ascending log one id at the bound brings all later ones above it. */
  lemma {:induction false} FirstFromBound(log: Log, n: nat, minId: Id)
    requires Ascending(log) && n < |log| && Le(minId, log[n].id)
    ensures AllFrom(log[n..], minId)
  {
  }
}
