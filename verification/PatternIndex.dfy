/**
 The pattern subscriptions of senko-pubsub/src/pattern.rs and the literal index that
 narrows down which patterns a channel can match.  A subscriber's ring is represented by
 the queue of messages pending in it (module Slot proves that this is what the ring is).
 */
module PatternIndex {
  import opened Common
  import opened Glob
  import opened GlobFast
  import opened GlobExact
  import Slot

  const AHO_THRESHOLD: nat := 32

  // ----- literals of a pattern -----

  method LiteralPrefix(p: Bytes) returns (bytes: Bytes)
    ensures bytes == LeadingLiterals(ScanTokens(p, 0))
  {
    bytes := [];
    var index := 0;
    while index < |p| && p[index] != STAR && p[index] != QUESTION && p[index] != OPEN
      invariant 0 <= index <= |p|
      invariant LeadingLiterals(ScanTokens(p, 0)) == bytes + LeadingLiterals(ScanTokens(p, index))
      decreases |p| - index
    {
      ghost var (token, next) := ScanTokenAt(p, index);
      assert ScanTokens(p, index)[1..] == ScanTokens(p, next);
      Assoc(bytes, [token.b], LeadingLiterals(ScanTokens(p, next)));
      if p[index] == BACKSLASH && index + 1 < |p| {
        bytes := bytes + [p[index + 1]];
        index := index + 2;
      } else {
        bytes := bytes + [p[index]];
        index := index + 1;
      }
    }
  }

  method LiteralSegments(p: Bytes) returns (segments: seq<Bytes>)
    ensures segments == Runs(ScanTokens(p, 0), [])
  {
    segments := [];
    var current: Bytes := [];
    var index := 0;
    while index < |p|
      invariant 0 <= index <= |p|
      invariant Runs(ScanTokens(p, 0), []) == segments + Runs(ScanTokens(p, index), current)
      decreases |p| - index
    {
      ghost var (token, next) := ScanTokenAt(p, index);
      assert ScanTokens(p, index)[1..] == ScanTokens(p, next);
      Assoc(segments, NonEmpty(current), Runs(ScanTokens(p, next), []));
      if p[index] == STAR || p[index] == QUESTION || p[index] == OPEN {
        if current != [] {
          segments := segments + [current];
          current := [];
        }
        index := PastWildcard(p, index);
      } else if p[index] == BACKSLASH && index + 1 < |p| {
        current := current + [p[index + 1]];
        index := index + 2;
      } else {
        current := current + [p[index]];
        index := index + 1;
      }
    }
    if current != [] {
      segments := segments + [current];
    }
  }

  ghost predicate Occurs(text: Bytes, literal: Bytes) {
    exists at: nat :: StandsAt(text, at, literal)
  }

  /** What the index promises to look at. */
  ghost predicate IsCandidate(p: Bytes, channel: Bytes) {
    var tokens := ScanTokens(p, 0);
    var runs := Runs(tokens, []);
    || runs == []
    || (LeadingLiterals(tokens) != [] && LeadingLiterals(tokens) <= channel)
    || exists k :: 0 <= k < |runs| && Occurs(channel, runs[k])
  }

  /** A publish on `channel` reaches pattern `p` of an index holding `many` patterns or few. */
  ghost predicate Reaches(p: Bytes, many: bool, channel: Bytes) {
    FastMatches(p, channel) && (many ==> IsCandidate(p, channel))
  }

  /** The index never misses a matching pattern. */
  lemma {:induction false} CandidatesComplete(p: Bytes, channel: Bytes)
    requires PruneKeeps(p) && GlobMatches(p, channel)
    ensures IsCandidate(p, channel)
  {
    var runs := Runs(ScanTokens(p, 0), []);
    PruneIsSound(p, channel);
    if runs != [] {
      var at: nat :| StandsAt(channel, at, runs[0]);
      assert Occurs(channel, runs[0]);
    }
  }

  /** So a publish reaches exactly the patterns a full scan with the scalar matcher would. */
  lemma {:induction false} ReachIsExact(p: Bytes, many: bool, channel: Bytes)
    requires FastFits(p)
    ensures Reaches(p, many, channel) <==> GlobMatches(p, channel)
  {
    FastIsExact(p, channel);
    if GlobMatches(p, channel) {
      CandidatesComplete(p, channel);
    }
  }

  /** With or without the index, exactly the patterns that fit are reached as a full scan would. */
  lemma {:induction false} ReachIsExactIff(p: Bytes, many: bool)
    ensures (forall channel: Bytes :: Reaches(p, many, channel) <==> GlobMatches(p, channel)) <==> FastFits(p)
  {
    if FastFits(p) {
      forall channel: Bytes ensures Reaches(p, many, channel) <==> GlobMatches(p, channel) {
        ReachIsExact(p, many, channel);
      }
    } else {
      MatchIsMissed(p);
      var channel: Bytes :| GlobMatches(p, channel) && !FastMatches(p, channel);
      assert !Reaches(p, many, channel);
    }
  }

  // ----- subscriptions -----

  datatype Subscriber<M> = Subscriber(connId: nat, queue: seq<M>)
  datatype Subscription<M> = Subscription(pattern: Bytes, slots: seq<Subscriber<M>>, count: nat)

  ghost predicate WellFormed<M>(subs: seq<Subscription<M>>) {
    && (forall i, j | 0 <= i < j < |subs| :: subs[i].pattern != subs[j].pattern)
    && (forall i | 0 <= i < |subs| :: subs[i].slots != [] && subs[i].count == |subs[i].slots|)
    && (forall i | 0 <= i < |subs| :: DistinctIds(subs[i].slots))
  }

  ghost predicate DistinctIds<M>(slots: seq<Subscriber<M>>) {
    forall i, j | 0 <= i < j < |slots| :: slots[i].connId != slots[j].connId
  }

  function TotalCount<M>(subs: seq<Subscription<M>>): nat {
    if subs == [] then 0 else TotalCount(subs[..|subs| - 1]) + subs[|subs| - 1].count
  }

  type Entry<M> = (Bytes, nat, seq<M>)

  ghost function Row<M>(sub: Subscription<M>): set<Entry<M>> {
    set j | 0 <= j < |sub.slots| :: (sub.pattern, sub.slots[j].connId, sub.slots[j].queue)
  }

  /** Who is subscribed to what, with the messages pending for each. */
  ghost function Everyone<M>(subs: seq<Subscription<M>>): set<Entry<M>> {
    set i, e | 0 <= i < |subs| && e in Row(subs[i]) :: e
  }

  function Lead(p: Bytes): Bytes {
    LeadingLiterals(ScanTokens(p, 0))
  }

  function Segments(p: Bytes): seq<Bytes> {
    Runs(ScanTokens(p, 0), [])
  }

  /** The tables of the index, describing the first `n` subscriptions. */
  datatype Tables = Tables(prefixes: seq<(Bytes, nat)>, literals: seq<(Bytes, nat)>, literalless: seq<nat>)

  ghost predicate Describes<M>(t: Tables, subs: seq<Subscription<M>>, n: nat)
    requires n <= |subs|
  {
    && (forall e :: e in t.prefixes <==> e.1 < n && e.0 != [] && e.0 == Lead(subs[e.1].pattern))
    && (forall e :: e in t.literals <==> e.1 < n && e.0 in Segments(subs[e.1].pattern))
    && (forall i: nat :: i in t.literalless <==> i < n && Segments(subs[i].pattern) == [])
  }

  const NoTables := Tables([], [], [])

  lemma {:induction false} DescribesOneMore<M>(t: Tables, subs: seq<Subscription<M>>, n: nat, t': Tables)
    requires n < |subs| && Describes(t, subs, n)
    requires var p := subs[n].pattern;
             && t'.prefixes == t.prefixes + (if Lead(p) != [] then [(Lead(p), n)] else [])
             && t'.literalless == t.literalless + (if Segments(p) == [] then [n] else [])
             && t'.literals == t.literals + Tagged(Segments(p), n)
    ensures Describes(t', subs, n + 1)
  {
    var p := subs[n].pattern;
    forall e ensures e in t'.literals <==> e.1 < n + 1 && e.0 in Segments(subs[e.1].pattern) {
      TaggedMember(Segments(p), n, e);
    }
  }

  function Tagged(segments: seq<Bytes>, owner: nat): seq<(Bytes, nat)> {
    if segments == [] then [] else Tagged(segments[..|segments| - 1], owner) + [(segments[|segments| - 1], owner)]
  }

  lemma {:induction false} TaggedMember(segments: seq<Bytes>, owner: nat, e: (Bytes, nat))
    ensures e in Tagged(segments, owner) <==> e.1 == owner && e.0 in segments
  {
    if segments != [] {
      var front := segments[..|segments| - 1];
      TaggedMember(front, owner, e);
      assert segments == front + [segments[|segments| - 1]];
    }
  }

  method TagAll(segments: seq<Bytes>, index: nat) returns (tagged: seq<(Bytes, nat)>)
    ensures tagged == Tagged(segments, index)
  {
    tagged := [];
    for k := 0 to |segments|
      invariant tagged == Tagged(segments[..k], index)
    {
      assert segments[..k + 1][..k] == segments[..k];
      tagged := tagged + [(segments[k], index)];
    }
    assert segments[..|segments|] == segments;
  }

  /** `rebuild`: recompute every table from the subscriptions. */
  method Rebuild<M>(subs: seq<Subscription<M>>) returns (t: Tables)
    ensures |subs| <= 32 ==> t == NoTables
    ensures |subs| > 32 ==> Describes(t, subs, |subs|)
  {
    t := NoTables;
    if |subs| <= AHO_THRESHOLD {
      return;
    }
    for index := 0 to |subs|
      invariant Describes(t, subs, index)
    {
      ghost var before := t;
      var p := subs[index].pattern;
      var prefix := LiteralPrefix(p);
      if prefix != [] {
        t := t.(prefixes := t.prefixes + [(prefix, index)]);
      }
      var segments := LiteralSegments(p);
      if segments == [] {
        t := t.(literalless := t.literalless + [index]);
      } else {
        var tagged := TagAll(segments, index);
        t := t.(literals := t.literals + tagged);
      }
      DescribesOneMore(before, subs, index, t);
    }
  }

  /** `sort_unstable` and `dedup` on indexes below `bound`. */
  method SortDedup(indexes: seq<nat>, bound: nat) returns (sorted: seq<nat>)
    requires forall i | i in indexes :: i < bound
    ensures forall i :: i in sorted <==> i in indexes
    ensures forall a, b | 0 <= a < b < |sorted| :: sorted[a] < sorted[b]
  {
    sorted := [];
    for i := 0 to bound
      invariant forall x :: x in sorted <==> x in indexes && x < i
      invariant forall a, b | 0 <= a < b < |sorted| :: sorted[a] < sorted[b]
    {
      if i in indexes {
        assert forall a | 0 <= a < |sorted| :: sorted[a] in sorted;
        sorted := sorted + [i];
      }
    }
  }

  /** `candidate_pattern_indexes`: every candidate once, in ascending order. */
  method Candidates<M>(subs: seq<Subscription<M>>, t: Tables, channel: Bytes) returns (indexes: seq<nat>)
    requires |subs| > AHO_THRESHOLD ==> Describes(t, subs, |subs|)
    ensures forall i: nat :: i in indexes <==>
              i < |subs| && (|subs| > AHO_THRESHOLD ==> IsCandidate(subs[i].pattern, channel))
    ensures forall a, b | 0 <= a < b < |indexes| :: indexes[a] < indexes[b]
  {
    if |subs| <= AHO_THRESHOLD {
      indexes := seq(|subs|, i => i);
      forall i: nat | i < |subs| ensures i in indexes { assert indexes[i] == i; }
      return;
    }
    var found := t.literalless;
    for k := 0 to |t.prefixes|
      invariant forall i :: i in found <==>
                  i in t.literalless || exists j :: 0 <= j < k && t.prefixes[j].1 == i && t.prefixes[j].0 <= channel
    {
      if t.prefixes[k].0 != [] && t.prefixes[k].0 <= channel {
        found := found + [t.prefixes[k].1];
      }
    }
    ghost var byPrefix := found;
    for k := 0 to |t.literals|
      invariant forall i :: i in found <==>
                  i in byPrefix || exists j :: 0 <= j < k && t.literals[j].1 == i && Occurs(channel, t.literals[j].0)
    {
      var at := FindFrom(channel, t.literals[k].0, 0);
      if at.Some? {
        assert Occurs(channel, t.literals[k].0);
        found := found + [t.literals[k].1];
      }
    }
    FoundIsCandidate(subs, t, channel, byPrefix, found);
    indexes := SortDedup(found, |subs|);
  }

  lemma {:induction false} FoundIsCandidate<M>(subs: seq<Subscription<M>>, t: Tables, channel: Bytes, byPrefix: seq<nat>, found: seq<nat>)
    requires Describes(t, subs, |subs|)
    requires forall i :: i in byPrefix <==>
               i in t.literalless ||
               exists j :: 0 <= j < |t.prefixes| && t.prefixes[j].1 == i && t.prefixes[j].0 <= channel
    requires forall i :: i in found <==>
               i in byPrefix ||
               exists j :: 0 <= j < |t.literals| && t.literals[j].1 == i && Occurs(channel, t.literals[j].0)
    ensures forall i: nat :: i in found <==> i < |subs| && IsCandidate(subs[i].pattern, channel)
  {
    forall i: nat | i in found ensures i < |subs| && IsCandidate(subs[i].pattern, channel) {
      if i !in t.literalless {
        if i in byPrefix {
          var j :| 0 <= j < |t.prefixes| && t.prefixes[j].1 == i && t.prefixes[j].0 <= channel;
          assert t.prefixes[j] in t.prefixes;
        } else {
          var j :| 0 <= j < |t.literals| && t.literals[j].1 == i && Occurs(channel, t.literals[j].0);
          assert t.literals[j] in t.literals;
          var k :| 0 <= k < |Segments(subs[i].pattern)| && Segments(subs[i].pattern)[k] == t.literals[j].0;
        }
      }
    }
    forall i: nat | i < |subs| && IsCandidate(subs[i].pattern, channel) ensures i in found {
      var p := subs[i].pattern;
      if Segments(p) == [] {
        assert i in t.literalless;
      } else if Lead(p) != [] && Lead(p) <= channel {
        assert (Lead(p), i) in t.prefixes;
        var j :| 0 <= j < |t.prefixes| && t.prefixes[j] == (Lead(p), i);
      } else {
        var k :| 0 <= k < |Segments(p)| && Occurs(channel, Segments(p)[k]);
        assert (Segments(p)[k], i) in t.literals;
        var j :| 0 <= j < |t.literals| && t.literals[j] == (Segments(p)[k], i);
      }
    }
  }

  // ----- the registry -----

  function SwapRemove<T>(s: seq<T>, i: nat): seq<T>
    requires i < |s|
  {
    if i == |s| - 1 then s[..i] else s[..|s| - 1][i := s[|s| - 1]]
  }

  lemma {:induction false} EveryonePush<M>(subs: seq<Subscription<M>>, sub: Subscription<M>)
    ensures Everyone(subs + [sub]) == Everyone(subs) + Row(sub)
  {
    var more := subs + [sub];
    forall e | e in Everyone(subs) + Row(sub) ensures e in Everyone(more) {
      if e in Row(sub) {
        assert e in Row(more[|subs|]);
      } else {
        var i :| 0 <= i < |subs| && e in Row(subs[i]);
        assert e in Row(more[i]);
      }
    }
  }

  lemma {:induction false} EveryoneUpdate<M>(subs: seq<Subscription<M>>, i: nat, sub: Subscription<M>)
    requires WellFormed(subs) && i < |subs| && sub.pattern == subs[i].pattern
    ensures Everyone(subs[i := sub]) == Everyone(subs) - Row(subs[i]) + Row(sub)
  {
    var after := subs[i := sub];
    forall e | e in Everyone(subs) - Row(subs[i]) + Row(sub) ensures e in Everyone(after) {
      if e in Row(sub) {
        assert e in Row(after[i]);
      } else {
        var k :| 0 <= k < |subs| && e in Row(subs[k]);
        assert e in Row(after[k]);
      }
    }
    forall e | e in Everyone(after) ensures e in Everyone(subs) - Row(subs[i]) + Row(sub) {
      var k :| 0 <= k < |after| && e in Row(after[k]);
      if k != i {
        assert e in Row(subs[k]) && e.0 == subs[k].pattern;
      }
    }
  }

  lemma {:induction false} EveryoneSwapRemove<M>(subs: seq<Subscription<M>>, i: nat)
    requires WellFormed(subs) && i < |subs|
    ensures WellFormed(SwapRemove(subs, i))
    ensures Everyone(SwapRemove(subs, i)) == Everyone(subs) - Row(subs[i])
  {
    var after := SwapRemove(subs, i);
    forall e | e in Everyone(subs) - Row(subs[i]) ensures e in Everyone(after) {
      var k :| 0 <= k < |subs| && e in Row(subs[k]);
      assert e in Row(after[if k == |subs| - 1 then i else k]);
    }
    forall e | e in Everyone(after) ensures e in Everyone(subs) - Row(subs[i]) {
      var k :| 0 <= k < |after| && e in Row(after[k]);
      var k' := if k == i then |subs| - 1 else k;
      assert e in Row(subs[k']) && e.0 == subs[k'].pattern && k' != i;
    }
  }

  lemma {:induction false} RowPush<M>(sub: Subscription<M>, slot: Subscriber<M>, count: nat)
    ensures Row(sub.(slots := sub.slots + [slot], count := count)) ==
            Row(sub) + {(sub.pattern, slot.connId, slot.queue)}
  {
    var after := sub.(slots := sub.slots + [slot], count := count);
    forall e | e in Row(sub) + {(sub.pattern, slot.connId, slot.queue)} ensures e in Row(after) {
      if e in Row(sub) {
        var j :| 0 <= j < |sub.slots| && e == (sub.pattern, sub.slots[j].connId, sub.slots[j].queue);
        assert after.slots[j] == sub.slots[j];
      } else {
        assert after.slots[|sub.slots|] == slot;
      }
    }
  }

  lemma {:induction false} NewSubscriber<M>(subs: seq<Subscription<M>>, i: nat, connId: nat)
    requires WellFormed(subs) && i < |subs|
    requires forall j | 0 <= j < |subs[i].slots| :: subs[i].slots[j].connId != connId
    ensures var sub := subs[i];
            var after := subs[i := sub.(slots := sub.slots + [Subscriber(connId, [])], count := |sub.slots| + 1)];
            && WellFormed(after)
            && Everyone(after) == Everyone(subs) + {(sub.pattern, connId, [])}
            && forall q :: (sub.pattern, connId, q) !in Everyone(subs)
  {
    var sub := subs[i];
    RowPush(sub, Subscriber(connId, []), |sub.slots| + 1);
    EveryoneUpdate(subs, i, sub.(slots := sub.slots + [Subscriber(connId, [])], count := |sub.slots| + 1));
    NobodyElse(subs, i);
  }

  lemma {:induction false} NewPattern<M>(subs: seq<Subscription<M>>, pattern: Bytes, connId: nat)
    requires WellFormed(subs)
    requires forall i | 0 <= i < |subs| :: subs[i].pattern != pattern
    ensures var after := subs + [Subscription(pattern, [Subscriber(connId, [])], 1)];
            && WellFormed(after)
            && Everyone(after) == Everyone(subs) + {(pattern, connId, [])}
            && forall q :: (pattern, connId, q) !in Everyone(subs)
  {
    var slot: Subscriber<M> := Subscriber(connId, []);
    assert [] + [slot] == [slot];
    RowPush(Subscription(pattern, [], 0), slot, 1);
    EveryonePush(subs, Subscription(pattern, [slot], 1));
  }

  /** The subscriptions without slot `j` of subscription `i`, and without `i` once it is empty. */
  function Without<M>(subs: seq<Subscription<M>>, i: nat, j: nat): seq<Subscription<M>>
    requires i < |subs| && j < |subs[i].slots|
  {
    var slots := SwapRemove(subs[i].slots, j);
    if slots == [] then SwapRemove(subs, i) else subs[i := subs[i].(slots := slots, count := |slots|)]
  }

  lemma {:induction false} EveryoneWithout<M>(subs: seq<Subscription<M>>, i: nat, j: nat)
    requires WellFormed(subs) && i < |subs| && j < |subs[i].slots|
    ensures WellFormed(Without(subs, i, j))
    ensures Everyone(Without(subs, i, j)) ==
            set e | e in Everyone(subs) && !(e.0 == subs[i].pattern && e.1 == subs[i].slots[j].connId)
  {
    var sub := subs[i];
    var slots := SwapRemove(sub.slots, j);
    RowSwapRemove(sub, j);
    NobodyElse(subs, i);
    if slots == [] {
      EveryoneSwapRemove(subs, i);
      assert Row(sub.(slots := [])) == {};
    } else {
      var sub' := sub.(slots := slots, count := |slots|);
      EveryoneUpdate(subs, i, sub');
      assert Row(sub') == Row(sub.(slots := slots));
    }
  }

  lemma {:induction false} RowSwapRemove<M>(sub: Subscription<M>, j: nat)
    requires DistinctIds(sub.slots) && j < |sub.slots|
    ensures var after := sub.(slots := SwapRemove(sub.slots, j));
            && DistinctIds(after.slots)
            && Row(after) == set e | e in Row(sub) && e.1 != sub.slots[j].connId
  {
    var after := sub.(slots := SwapRemove(sub.slots, j));
    forall e | e in Row(sub) && e.1 != sub.slots[j].connId ensures e in Row(after) {
      var k :| 0 <= k < |sub.slots| && e == (sub.pattern, sub.slots[k].connId, sub.slots[k].queue);
      assert after.slots[if k == |sub.slots| - 1 then j else k] == sub.slots[k];
    }
    forall e | e in Row(after) ensures e in Row(sub) && e.1 != sub.slots[j].connId {
      var k :| 0 <= k < |after.slots| && e == (after.pattern, after.slots[k].connId, after.slots[k].queue);
      assert after.slots[k] == sub.slots[if k == j then |sub.slots| - 1 else k];
    }
  }

  lemma {:induction false} TotalCountPrefix<M>(subs: seq<Subscription<M>>, k: nat)
    requires k < |subs|
    ensures TotalCount(subs[..k + 1]) == TotalCount(subs[..k]) + subs[k].count
  {
    assert subs[..k + 1][..k] == subs[..k];
  }

  method SumCounts<M>(subs: seq<Subscription<M>>) returns (total: nat)
    ensures total == TotalCount(subs)
  {
    total := 0;
    for k := 0 to |subs|
      invariant total == TotalCount(subs[..k])
    {
      TotalCountPrefix(subs, k);
      total := total + subs[k].count;
    }
    assert subs[..|subs|] == subs;
  }

  method FindPattern<M>(subs: seq<Subscription<M>>, pattern: Bytes) returns (index: Option<nat>)
    ensures index.Some? ==> index.value < |subs| && subs[index.value].pattern == pattern
    ensures index.None? ==> forall i | 0 <= i < |subs| :: subs[i].pattern != pattern
  {
    for i := 0 to |subs|
      invariant forall k | 0 <= k < i :: subs[k].pattern != pattern
    {
      if subs[i].pattern == pattern { return Some(i); }
    }
    return None;
  }

  method FindConn<M>(slots: seq<Subscriber<M>>, connId: nat) returns (index: Option<nat>)
    ensures index.Some? ==> index.value < |slots| && slots[index.value].connId == connId
    ensures index.None? ==> forall i | 0 <= i < |slots| :: slots[i].connId != connId
  {
    for i := 0 to |slots|
      invariant forall k | 0 <= k < i :: slots[k].connId != connId
    {
      if slots[i].connId == connId { return Some(i); }
    }
    return None;
  }

  // ----- delivery -----

  predicate Full<M>(slot: Subscriber<M>) {
    |slot.queue| >= Slot.RING_SIZE
  }

  function Deliver<M>(slot: Subscriber<M>, msg: M): Subscriber<M> {
    if Full(slot) then slot else slot.(queue := slot.queue + [msg])
  }

  ghost predicate FullConn<M>(slots: seq<Subscriber<M>>, connId: nat) {
    exists j :: 0 <= j < |slots| && slots[j].connId == connId && Full(slots[j])
  }

  function NonFull<M>(slots: seq<Subscriber<M>>): nat {
    if slots == [] then 0
    else NonFull(slots[..|slots| - 1]) + if Full(slots[|slots| - 1]) then 0 else 1
  }

  /** What the subscribers of a pattern are sent: the message, marked with the pattern. */
  type Message<M> = Bytes -> M

  function DeliverRow<M>(sub: Subscription<M>, msg: Message<M>): Subscription<M> {
    sub.(slots := seq(|sub.slots|, j requires 0 <= j < |sub.slots| => Deliver(sub.slots[j], msg(sub.pattern))))
  }

  /** Publish to every slot of one subscription; the full ones are reported. */
  method DeliverAll<M>(sub: Subscription<M>, msg: Message<M>) returns (slots: seq<Subscriber<M>>, delivered: nat, lagged: seq<nat>)
    ensures slots == DeliverRow(sub, msg).slots
    ensures delivered == NonFull(sub.slots)
    ensures forall c :: c in lagged <==> FullConn(sub.slots, c)
  {
    slots, delivered, lagged := [], 0, [];
    for j := 0 to |sub.slots|
      invariant slots == DeliverRow(sub, msg).slots[..j]
      invariant delivered == NonFull(sub.slots[..j])
      invariant forall c :: c in lagged <==> exists k :: 0 <= k < j && sub.slots[k].connId == c && Full(sub.slots[k])
    {
      assert sub.slots[..j + 1][..j] == sub.slots[..j];
      if Full(sub.slots[j]) {
        lagged := lagged + [sub.slots[j].connId];
      } else {
        delivered := delivered + 1;
      }
      slots := slots + [Deliver(sub.slots[j], msg(sub.pattern))];
    }
    assert sub.slots[..|sub.slots|] == sub.slots;
  }

  ghost function ReachedCount<M>(subs: seq<Subscription<M>>, n: nat, many: bool, channel: Bytes): nat
    requires n <= |subs|
  {
    if n == 0 then 0
    else ReachedCount(subs, n - 1, many, channel) +
         if Reaches(subs[n - 1].pattern, many, channel) then NonFull(subs[n - 1].slots) else 0
  }

  lemma {:induction false} ReachedCountSkips<M>(subs: seq<Subscription<M>>, a: nat, b: nat, many: bool, channel: Bytes)
    requires a <= b <= |subs|
    requires forall i | a <= i < b :: !Reaches(subs[i].pattern, many, channel)
    ensures ReachedCount(subs, b, many, channel) == ReachedCount(subs, a, many, channel)
    decreases b
  {
    if a < b { ReachedCountSkips(subs, a, b - 1, many, channel); }
  }

  /** The subscriptions once a message went to the reached ones among the first `n`. */
  ghost predicate DeliveredUpTo<M>(before: seq<Subscription<M>>, after: seq<Subscription<M>>, n: nat,
                                   many: bool, channel: Bytes, msg: Message<M>)
  {
    && |after| == |before| && n <= |before|
    && (forall i | 0 <= i < |before| ::
          after[i] == if i < n && Reaches(before[i].pattern, many, channel) then DeliverRow(before[i], msg)
                      else before[i])
  }

  /** Entry `e` has its pattern reached and its ring full. */
  ghost predicate Lags<M>(e: Entry<M>, many: bool, channel: Bytes) {
    Reaches(e.0, many, channel) && |e.2| >= Slot.RING_SIZE
  }

  /** All but the listed subscriptions. */
  ghost function Others<M>(entries: set<Entry<M>>, lagged: seq<(Bytes, nat)>): set<Entry<M>> {
    set e | e in entries && (e.0, e.1) !in lagged
  }

  lemma {:induction false} OthersNext<M>(entries: set<Entry<M>>, lagged: seq<(Bytes, nat)>, k: nat)
    requires k < |lagged|
    ensures Others(entries, lagged[..k + 1]) ==
            set e | e in Others(entries, lagged[..k]) && !(e.0 == lagged[k].0 && e.1 == lagged[k].1)
  {
    assert lagged[..k + 1] == lagged[..k] + [lagged[k]];
  }

  /** What a publish makes of all entries: those that lag are gone. */
  ghost function Published<M>(entries: set<Entry<M>>, many: bool, channel: Bytes, msg: Message<M>): set<Entry<M>> {
    set e | e in entries && !Lags(e, many, channel) :: AfterPublish(e, many, channel, msg)
  }

  /** What a publish makes of an entry that does not lag. */
  ghost function AfterPublish<M>(e: Entry<M>, many: bool, channel: Bytes, msg: Message<M>): Entry<M> {
    if Reaches(e.0, many, channel) && |e.2| < Slot.RING_SIZE then (e.0, e.1, e.2 + [msg(e.0)]) else e
  }

  lemma {:induction false} DeliveredEveryone<M>(before: seq<Subscription<M>>, after: seq<Subscription<M>>, many: bool, channel: Bytes, msg: Message<M>)
    requires WellFormed(before) && DeliveredUpTo(before, after, |before|, many, channel, msg)
    ensures WellFormed(after)
    ensures Everyone(after) == set e | e in Everyone(before) :: AfterPublish(e, many, channel, msg)
  {
    forall i | 0 <= i < |before|
      ensures Row(after[i]) == set e | e in Row(before[i]) :: AfterPublish(e, many, channel, msg)
      ensures after[i].pattern == before[i].pattern && after[i].slots != [] && after[i].count == |after[i].slots|
      ensures DistinctIds(after[i].slots)
    {
      RowDelivered(before[i], after[i], many, channel, msg);
    }
    RowsDelivered(before, after, many, channel, msg);
  }

  ghost function EntryAt<M>(sub: Subscription<M>, j: nat): Entry<M>
    requires j < |sub.slots|
  {
    (sub.pattern, sub.slots[j].connId, sub.slots[j].queue)
  }

  lemma {:induction false} RowDelivered<M>(sub: Subscription<M>, after: Subscription<M>, many: bool, channel: Bytes, msg: Message<M>)
    requires after == if Reaches(sub.pattern, many, channel) then DeliverRow(sub, msg) else sub
    requires sub.slots != [] && sub.count == |sub.slots| && DistinctIds(sub.slots)
    ensures Row(after) == set e | e in Row(sub) :: AfterPublish(e, many, channel, msg)
    ensures after.pattern == sub.pattern && after.slots != [] && after.count == |after.slots| && DistinctIds(after.slots)
  {
    forall j | 0 <= j < |sub.slots| ensures EntryAt(after, j) == AfterPublish(EntryAt(sub, j), many, channel, msg) {
    }
    RowMapped(sub, after, many, channel, msg);
  }

  lemma {:induction false} RowMapped<M>(sub: Subscription<M>, after: Subscription<M>, many: bool, channel: Bytes, msg: Message<M>)
    requires |after.slots| == |sub.slots|
    requires forall j | 0 <= j < |sub.slots| :: EntryAt(after, j) == AfterPublish(EntryAt(sub, j), many, channel, msg)
    ensures Row(after) == set e | e in Row(sub) :: AfterPublish(e, many, channel, msg)
  {
    forall e | e in Row(sub) ensures AfterPublish(e, many, channel, msg) in Row(after) {
      var j :| 0 <= j < |sub.slots| && e == (sub.pattern, sub.slots[j].connId, sub.slots[j].queue);
      assert e == EntryAt(sub, j);
      assert EntryAt(after, j) in Row(after);
    }
    forall f | f in Row(after) ensures exists e :: e in Row(sub) && f == AfterPublish(e, many, channel, msg) {
      var j :| 0 <= j < |after.slots| && f == (after.pattern, after.slots[j].connId, after.slots[j].queue);
      assert f == EntryAt(after, j) && EntryAt(sub, j) in Row(sub);
    }
  }

  lemma {:induction false} RowsDelivered<M>(before: seq<Subscription<M>>, after: seq<Subscription<M>>, many: bool, channel: Bytes, msg: Message<M>)
    requires |before| == |after|
    requires forall i | 0 <= i < |before| :: Row(after[i]) == set e | e in Row(before[i]) :: AfterPublish(e, many, channel, msg)
    ensures Everyone(after) == set e | e in Everyone(before) :: AfterPublish(e, many, channel, msg)
  {
    forall e | e in Everyone(before) ensures AfterPublish(e, many, channel, msg) in Everyone(after) {
      var i :| 0 <= i < |before| && e in Row(before[i]);
      assert AfterPublish(e, many, channel, msg) in Row(after[i]);
    }
    forall f | f in Everyone(after) ensures exists e :: e in Everyone(before) && f == AfterPublish(e, many, channel, msg) {
      var i :| 0 <= i < |after| && f in Row(after[i]);
      var e :| e in Row(before[i]) && f == AfterPublish(e, many, channel, msg);
      assert e in Everyone(before);
    }
  }

  /** Strictly ascending, and exactly the candidates. */
  ghost predicate CandidateList<M>(subs: seq<Subscription<M>>, indexes: seq<nat>, many: bool, channel: Bytes) {
    && (forall i: nat :: i in indexes <==> i < |subs| && (many ==> IsCandidate(subs[i].pattern, channel)))
    && (forall a, b | 0 <= a < b < |indexes| :: indexes[a] < indexes[b])
  }

  ghost function Upto<M>(subs: seq<Subscription<M>>, indexes: seq<nat>, k: nat): nat {
    if k < |indexes| then indexes[k] else |subs|
  }

  /** Between two neighbouring candidates nothing is reached. */
  lemma {:induction false} GapNotReached<M>(subs: seq<Subscription<M>>, indexes: seq<nat>, k: nat, many: bool, channel: Bytes)
    requires CandidateList(subs, indexes, many, channel) && k <= |indexes|
    ensures var lo := if k == 0 then 0 else indexes[k - 1] + 1;
            && lo <= Upto(subs, indexes, k) <= |subs|
            && forall i | lo <= i < Upto(subs, indexes, k) :: !Reaches(subs[i].pattern, many, channel)
  {
    var lo := if k == 0 then 0 else indexes[k - 1] + 1;
    assert k < |indexes| ==> indexes[k] in indexes;
    assert k > 0 ==> indexes[k - 1] in indexes;
    forall i | lo <= i < Upto(subs, indexes, k) ensures !Reaches(subs[i].pattern, many, channel) {
      forall a | 0 <= a < |indexes| ensures indexes[a] != i {
        assert k > 0 && a < k - 1 ==> indexes[a] < indexes[k - 1];
        assert k < |indexes| && k < a ==> indexes[k] < indexes[a];
      }
    }
  }

  /** The (pattern, connection) pairs found full among the reached subscriptions below `n`. */
  ghost predicate LaggedBelow<M>(subs: seq<Subscription<M>>, n: nat, lagged: seq<(Bytes, nat)>, many: bool, channel: Bytes)
    requires n <= |subs|
  {
    forall x :: x in lagged <==>
      exists i, j :: 0 <= i < n && 0 <= j < |subs[i].slots| && Reaches(subs[i].pattern, many, channel) &&
        Full(subs[i].slots[j]) && x == (subs[i].pattern, subs[i].slots[j].connId)
  }

  lemma {:induction false} LaggedIsLags<M>(subs: seq<Subscription<M>>, lagged: seq<(Bytes, nat)>, many: bool, channel: Bytes, e: Entry<M>)
    requires WellFormed(subs) && LaggedBelow(subs, |subs|, lagged, many, channel) && e in Everyone(subs)
    ensures (e.0, e.1) in lagged <==> Lags(e, many, channel)
  {
    var i :| 0 <= i < |subs| && e in Row(subs[i]);
    var j :| 0 <= j < |subs[i].slots| && e == (subs[i].pattern, subs[i].slots[j].connId, subs[i].slots[j].queue);
    if (e.0, e.1) in lagged {
      var i', j' :| 0 <= i' < |subs| && 0 <= j' < |subs[i'].slots| && Reaches(subs[i'].pattern, many, channel) &&
        Full(subs[i'].slots[j']) && (e.0, e.1) == (subs[i'].pattern, subs[i'].slots[j'].connId);
      assert i' == i && j' == j;
    }
  }

  /** Pairing a pattern with connections. */
  method Pairs(pattern: Bytes, conns: seq<nat>) returns (pairs: seq<(Bytes, nat)>)
    ensures forall x :: x in pairs <==> x.0 == pattern && x.1 in conns
  {
    pairs := [];
    for k := 0 to |conns|
      invariant forall x :: x in pairs <==> x.0 == pattern && x.1 in conns[..k]
    {
      pairs := pairs + [(pattern, conns[k])];
    }
  }

  lemma {:induction false} LaggedGrows<M>(subs: seq<Subscription<M>>, n: nat, lagged: seq<(Bytes, nat)>, more: seq<(Bytes, nat)>,
                       many: bool, channel: Bytes)
    requires n < |subs| && LaggedBelow(subs, n, lagged, many, channel)
    requires if Reaches(subs[n].pattern, many, channel) then
               forall x :: x in more <==> (x.0 == subs[n].pattern && FullConn(subs[n].slots, x.1))
             else more == []
    ensures LaggedBelow(subs, n + 1, lagged + more, many, channel)
  {
    forall x | x in lagged + more
      ensures exists i, j :: 0 <= i < n + 1 && 0 <= j < |subs[i].slots| && Reaches(subs[i].pattern, many, channel) &&
                Full(subs[i].slots[j]) && x == (subs[i].pattern, subs[i].slots[j].connId)
    {
      if x in more {
        var j :| 0 <= j < |subs[n].slots| && subs[n].slots[j].connId == x.1 && Full(subs[n].slots[j]);
        assert x == (subs[n].pattern, subs[n].slots[j].connId);
      }
    }
  }

  lemma {:induction false} LaggedSkips<M>(subs: seq<Subscription<M>>, a: nat, b: nat, lagged: seq<(Bytes, nat)>, many: bool, channel: Bytes)
    requires a <= b <= |subs| && LaggedBelow(subs, a, lagged, many, channel)
    requires forall i | a <= i < b :: !Reaches(subs[i].pattern, many, channel)
    ensures LaggedBelow(subs, b, lagged, many, channel)
  {
  }

  lemma {:induction false} CountStep<M>(subs: seq<Subscription<M>>, indexes: seq<nat>, k: nat, many: bool, channel: Bytes)
    requires CandidateList(subs, indexes, many, channel) && k < |indexes| && indexes[k] < |subs|
    ensures Upto(subs, indexes, k + 1) <= |subs|
    ensures ReachedCount(subs, Upto(subs, indexes, k + 1), many, channel) ==
            ReachedCount(subs, indexes[k], many, channel) +
            if Reaches(subs[indexes[k]].pattern, many, channel) then NonFull(subs[indexes[k]].slots) else 0
  {
    GapNotReached(subs, indexes, k + 1, many, channel);
    ReachedCountSkips(subs, indexes[k] + 1, Upto(subs, indexes, k + 1), many, channel);
  }

  lemma {:induction false} DeliverStep<M>(before: seq<Subscription<M>>, now: seq<Subscription<M>>, indexes: seq<nat>, k: nat,
                       many: bool, channel: Bytes, msg: Message<M>)
    requires CandidateList(before, indexes, many, channel) && k < |indexes| && indexes[k] < |before|
    requires DeliveredUpTo(before, now, indexes[k], many, channel, msg)
    ensures Upto(before, indexes, k + 1) <= |before|
    ensures DeliveredUpTo(before, if Reaches(before[indexes[k]].pattern, many, channel)
                                  then now[indexes[k] := DeliverRow(before[indexes[k]], msg)] else now,
                          Upto(before, indexes, k + 1), many, channel, msg)
  {
    GapNotReached(before, indexes, k + 1, many, channel);
    DeliveredGrows(before, now, indexes[k], Upto(before, indexes, k + 1), many, channel, msg);
  }

  lemma {:induction false} CandidateReached<M>(subs: seq<Subscription<M>>, indexes: seq<nat>, k: nat, many: bool, channel: Bytes)
    requires CandidateList(subs, indexes, many, channel) && k < |indexes|
    ensures indexes[k] < |subs|
    ensures FastMatches(subs[indexes[k]].pattern, channel) == Reaches(subs[indexes[k]].pattern, many, channel)
  {
    assert indexes[k] in indexes;
  }

  lemma {:induction false} DeliveredGrows<M>(before: seq<Subscription<M>>, now: seq<Subscription<M>>, index: nat, upto: nat,
                          many: bool, channel: Bytes, msg: Message<M>)
    requires index < upto <= |before| && DeliveredUpTo(before, now, index, many, channel, msg)
    requires forall i | index + 1 <= i < upto :: !Reaches(before[i].pattern, many, channel)
    ensures DeliveredUpTo(before, if Reaches(before[index].pattern, many, channel)
                                  then now[index := DeliverRow(before[index], msg)] else now,
                          upto, many, channel, msg)
  {
  }

  lemma {:induction false} LaggedStep<M>(before: seq<Subscription<M>>, indexes: seq<nat>, k: nat, lagged: seq<(Bytes, nat)>,
                      more: seq<(Bytes, nat)>, many: bool, channel: Bytes)
    requires CandidateList(before, indexes, many, channel) && k < |indexes| && indexes[k] < |before|
    requires LaggedBelow(before, indexes[k], lagged, many, channel)
    requires if Reaches(before[indexes[k]].pattern, many, channel) then
               forall x :: x in more <==> (x.0 == before[indexes[k]].pattern && FullConn(before[indexes[k]].slots, x.1))
             else more == []
    ensures Upto(before, indexes, k + 1) <= |before|
    ensures LaggedBelow(before, Upto(before, indexes, k + 1), lagged + more, many, channel)
  {
    LaggedGrows(before, indexes[k], lagged, more, many, channel);
    GapNotReached(before, indexes, k + 1, many, channel);
    LaggedSkips(before, indexes[k] + 1, Upto(before, indexes, k + 1), lagged + more, many, channel);
  }

  class PatternIndex<M> {
    var subscriptions: seq<Subscription<M>>
    var tables: Tables
    var totalSubscriberCount: nat

    ghost predicate Valid()
      reads this
    {
      && WellFormed(subscriptions)
      && (if |subscriptions| <= AHO_THRESHOLD then tables == NoTables
          else Describes(tables, subscriptions, |subscriptions|))
      && totalSubscriberCount == TotalCount(subscriptions)
    }

    ghost function View(): set<Entry<M>>
      reads this
    {
      Everyone(subscriptions)
    }

    constructor ()
      ensures Valid() && View() == {}
    {
      subscriptions, tables, totalSubscriberCount := [], NoTables, 0;
    }

    method Subscribe(pattern: Bytes, connId: nat) returns (slot: Subscriber<M>)
      requires Valid()
      modifies this
      ensures Valid()
      ensures slot.connId == connId && (pattern, connId, slot.queue) in View()
      ensures if exists q :: (pattern, connId, q) in old(View()) then View() == old(View())
              else View() == old(View()) + {(pattern, connId, [])}
    {
      var index := FindPattern(subscriptions, pattern);
      if index.Some? {
        slot := SubscribeTo(index.value, connId);
      } else {
        slot := Subscriber(connId, []);
        NewPattern(subscriptions, pattern, connId);
        subscriptions := subscriptions + [Subscription(pattern, [slot], 1)];
      }
      Refresh();
    }

    /** `PatternSubscription::subscribe` of a pattern that is known already. */
    method SubscribeTo(index: nat, connId: nat) returns (slot: Subscriber<M>)
      requires WellFormed(subscriptions) && index < |subscriptions|
      modifies this`subscriptions
      ensures WellFormed(subscriptions)
      ensures var pattern := old(subscriptions)[index].pattern;
              && slot.connId == connId && (pattern, connId, slot.queue) in View()
              && if exists q :: (pattern, connId, q) in old(View()) then View() == old(View())
                 else View() == old(View()) + {(pattern, connId, [])}
    {
      var sub := subscriptions[index];
      var at := FindConn(sub.slots, connId);
      if at.Some? {
        slot := sub.slots[at.value];
        assert (sub.pattern, connId, slot.queue) in Row(sub);
      } else {
        slot := Subscriber(connId, []);
        NewSubscriber(subscriptions, index, connId);
        subscriptions := subscriptions[index := sub.(slots := sub.slots + [slot], count := |sub.slots| + 1)];
      }
    }

    /** Recount the subscribers and rebuild the index. */
    method Refresh()
      requires WellFormed(subscriptions)
      modifies this`totalSubscriberCount, this`tables
      ensures Valid()
    {
      totalSubscriberCount := SumCounts(subscriptions);
      tables := Rebuild(subscriptions);
    }

    method Unsubscribe(pattern: Bytes, connId: nat) returns (slot: Option<Subscriber<M>>)
      requires Valid()
      modifies this
      ensures Valid()
      ensures View() == set e | e in old(View()) && !(e.0 == pattern && e.1 == connId)
      ensures slot.Some? ==> (pattern, connId, slot.value.queue) in old(View())
      ensures slot.None? ==> View() == old(View())
    {
      var index := FindPattern(subscriptions, pattern);
      if index.None? {
        return None;
      }
      var sub := subscriptions[index.value];
      var at := FindConn(sub.slots, connId);
      NobodyElse(subscriptions, index.value);
      if at.None? {
        return None;
      }
      slot := Some(sub.slots[at.value]);
      assert (pattern, connId, slot.value.queue) in Row(sub);
      EveryoneWithout(subscriptions, index.value, at.value);
      var slots := SwapRemove(sub.slots, at.value);
      if slots == [] {
        subscriptions := SwapRemove(subscriptions, index.value);
      } else {
        subscriptions := subscriptions[index.value := sub.(slots := slots, count := |slots|)];
      }
      Refresh();
    }

    /** Drop the subscriptions of the connections that lag. */
    method UnsubscribeAll(lagged: seq<(Bytes, nat)>)
      requires Valid()
      modifies this
      ensures Valid()
      ensures View() == Others(old(View()), lagged)
    {
      assert View() == Others(old(View()), []);
      for k := 0 to |lagged|
        invariant Valid()
        invariant View() == Others(old(View()), lagged[..k])
      {
        OthersNext(old(View()), lagged, k);
        var _ := Unsubscribe(lagged[k].0, lagged[k].1);
      }
      assert lagged[..|lagged|] == lagged;
    }

    method DeliverToCandidates(channel: Bytes, msg: Message<M>, indexes: seq<nat>, ghost many: bool)
      returns (delivered: nat, lagged: seq<(Bytes, nat)>)
      requires CandidateList(subscriptions, indexes, many, channel)
      modifies this`subscriptions
      ensures DeliveredUpTo(old(subscriptions), subscriptions, |old(subscriptions)|, many, channel, msg)
      ensures delivered == ReachedCount(old(subscriptions), |old(subscriptions)|, many, channel)
      ensures LaggedBelow(old(subscriptions), |old(subscriptions)|, lagged, many, channel)
    {
      ghost var before := subscriptions;
      delivered, lagged := 0, [];
      GapNotReached(before, indexes, 0, many, channel);
      ReachedCountSkips(before, 0, Upto(before, indexes, 0), many, channel);
      LaggedSkips(before, 0, Upto(before, indexes, 0), lagged, many, channel);
      for k := 0 to |indexes|
        invariant Upto(before, indexes, k) <= |before|
        invariant DeliveredUpTo(before, subscriptions, Upto(before, indexes, k), many, channel, msg)
        invariant delivered == ReachedCount(before, Upto(before, indexes, k), many, channel)
        invariant LaggedBelow(before, Upto(before, indexes, k), lagged, many, channel)
      {
        var index := indexes[k];
        assert index in indexes;
        var subscription := subscriptions[index];
        assert subscription == before[index];
        var matched := GlobMatchSimd(subscription.pattern, channel);
        CandidateReached(before, indexes, k, many, channel);
        CountStep(before, indexes, k, many, channel);
        DeliverStep(before, subscriptions, indexes, k, many, channel, msg);
        var more: seq<(Bytes, nat)> := [];
        if matched {
          var slots, count, conns := DeliverAll(subscription, msg);
          subscriptions := subscriptions[index := subscription.(slots := slots)];
          delivered := delivered + count;
          more := Pairs(subscription.pattern, conns);
        }
        LaggedStep(before, indexes, k, lagged, more, many, channel);
        lagged := lagged + more;
      }
    }

    /**
     Every subscriber of a reached pattern gets the message if it has room and loses its
     subscription otherwise; nobody else is touched.
     */
    method PublishToPatterns(channel: Bytes, msg: Message<M>) returns (delivered: nat)
      requires Valid()
      modifies this
      ensures Valid()
      ensures var many := |old(subscriptions)| > 32;
              && delivered == ReachedCount(old(subscriptions), |old(subscriptions)|, many, channel)
              && View() == Published(old(View()), many, channel, msg)
    {
      ghost var before := subscriptions;
      ghost var many := |before| > AHO_THRESHOLD;
      var indexes := Candidates(subscriptions, tables, channel);
      var lagged: seq<(Bytes, nat)>;
      delivered, lagged := DeliverToCandidates(channel, msg, indexes, many);
      PublishOutcome(before, subscriptions, tables, lagged, many, channel, msg);
      UnsubscribeAll(lagged);
    }
  }

  lemma {:induction false} PublishOutcome<M>(before: seq<Subscription<M>>, after: seq<Subscription<M>>, t: Tables, lagged: seq<(Bytes, nat)>,
                                             many: bool, channel: Bytes, msg: Message<M>)
    requires WellFormed(before) && DeliveredUpTo(before, after, |before|, many, channel, msg)
    requires LaggedBelow(before, |before|, lagged, many, channel)
    ensures WellFormed(after) && |after| == |before| && TotalCount(after) == TotalCount(before)
    ensures Describes(t, before, |before|) ==> Describes(t, after, |after|)
    ensures Others(Everyone(after), lagged) == Published(Everyone(before), many, channel, msg)
  {
    DeliveredEveryone(before, after, many, channel, msg);
    OnlyQueuesChanged(before, after, t);
    LaggedLeave(before, Everyone(after), lagged, many, channel, msg);
  }

  lemma {:induction false} LaggedLeave<M>(before: seq<Subscription<M>>, reached: set<Entry<M>>, lagged: seq<(Bytes, nat)>, many: bool,
                       channel: Bytes, msg: Message<M>)
    requires WellFormed(before) && LaggedBelow(before, |before|, lagged, many, channel)
    requires reached == set e | e in Everyone(before) :: AfterPublish(e, many, channel, msg)
    ensures Others(reached, lagged) == Published(Everyone(before), many, channel, msg)
  {
    forall e | e in Everyone(before) ensures (e.0, e.1) in lagged <==> Lags(e, many, channel) {
      LaggedIsLags(before, lagged, many, channel, e);
    }
    LaggedDrop(Everyone(before), lagged, many, channel, msg);
  }

  lemma {:induction false} LaggedDrop<M>(entries: set<Entry<M>>, lagged: seq<(Bytes, nat)>, many: bool, channel: Bytes, msg: Message<M>)
    requires forall e | e in entries :: (e.0, e.1) in lagged <==> Lags(e, many, channel)
    ensures Others(set e | e in entries :: AfterPublish(e, many, channel, msg), lagged) == Published(entries, many, channel, msg)
  {
  }

  /** The index and the count depend on patterns and numbers of slots alone. */
  lemma {:induction false} OnlyQueuesChanged<M>(before: seq<Subscription<M>>, after: seq<Subscription<M>>, t: Tables)
    requires |before| == |after|
    requires forall i | 0 <= i < |before| :: before[i].pattern == after[i].pattern && before[i].count == after[i].count
    ensures Describes(t, before, |before|) ==> Describes(t, after, |after|)
    ensures TotalCount(before) == TotalCount(after)
  {
    SameTotal(before, after);
  }

  lemma {:induction false} SameTotal<M>(before: seq<Subscription<M>>, after: seq<Subscription<M>>)
    requires |before| == |after|
    requires forall i | 0 <= i < |before| :: before[i].count == after[i].count
    ensures TotalCount(before) == TotalCount(after)
  {
    if before != [] {
      SameTotal(before[..|before| - 1], after[..|after| - 1]);
    }
  }

  /**
   With patterns that fit, a publish does to every subscriber what a full scan with the
   declarative glob meaning would, however many patterns the index holds.
   */
  lemma {:induction false} PublishIsFullScan<M>(entries: set<Entry<M>>, many: bool, channel: Bytes, msg: Message<M>)
    requires forall e | e in entries :: FastFits(e.0)
    ensures Published(entries, many, channel, msg) ==
            (set e | e in entries && !(GlobMatches(e.0, channel) && |e.2| >= 256) ::
               if GlobMatches(e.0, channel) then (e.0, e.1, e.2 + [msg(e.0)]) else e)
  {
    forall e | e in entries ensures Reaches(e.0, many, channel) <==> GlobMatches(e.0, channel) {
      ReachIsExact(e.0, many, channel);
    }
  }

  /** Within one index a pattern's subscribers are those of its only row. */
  lemma {:induction false} NobodyElse<M>(subs: seq<Subscription<M>>, i: nat)
    requires WellFormed(subs) && i < |subs|
    ensures forall e | e in Everyone(subs) && e.0 == subs[i].pattern :: e in Row(subs[i])
  {
    forall e | e in Everyone(subs) && e.0 == subs[i].pattern ensures e in Row(subs[i]) {
      var k :| 0 <= k < |subs| && e in Row(subs[k]);
    }
  }

  /** The subscribers of reached patterns that have room. */
  ghost function Takers<M>(entries: set<Entry<M>>, many: bool, channel: Bytes): set<Entry<M>> {
    set e | e in entries && Reaches(e.0, many, channel) && |e.2| < Slot.RING_SIZE
  }

  /** The entries of the first `n` slots that have room. */
  ghost function RoomyBelow<M>(sub: Subscription<M>, n: nat): set<Entry<M>>
    requires n <= |sub.slots|
  {
    set j | 0 <= j < n && !Full(sub.slots[j]) :: (sub.pattern, sub.slots[j].connId, sub.slots[j].queue)
  }

  lemma {:induction false} RoomyNext<M>(sub: Subscription<M>, n: nat)
    requires DistinctIds(sub.slots) && n < |sub.slots|
    ensures var slot, less := sub.slots[n], RoomyBelow(sub, n);
            RoomyBelow(sub, n + 1) == (if Full(slot) then less else less + {(sub.pattern, slot.connId, slot.queue)})
            && (sub.pattern, slot.connId, slot.queue) !in less
  {
  }

  lemma {:induction false} RowTakers<M>(sub: Subscription<M>, n: nat)
    requires DistinctIds(sub.slots) && n <= |sub.slots|
    ensures |RoomyBelow(sub, n)| == NonFull(sub.slots[..n])
    decreases n
  {
    if n > 0 {
      RowTakers(sub, n - 1);
      RoomyNext(sub, n - 1);
      assert sub.slots[..n][..n - 1] == sub.slots[..n - 1];
    }
  }

  lemma {:induction false} TakersOfRow<M>(sub: Subscription<M>, many: bool, channel: Bytes)
    requires DistinctIds(sub.slots)
    ensures |Takers(Row(sub), many, channel)| == if Reaches(sub.pattern, many, channel) then NonFull(sub.slots) else 0
  {
    if Reaches(sub.pattern, many, channel) {
      RowTakers(sub, |sub.slots|);
      assert sub.slots[..|sub.slots|] == sub.slots;
      assert Takers(Row(sub), many, channel) == RoomyBelow(sub, |sub.slots|);
    } else {
      assert Takers(Row(sub), many, channel) == {};
    }
  }

  /** What a publish returns is the number of subscribers that took the message. */
  lemma {:induction false} ReachedCountIsTakers<M>(subs: seq<Subscription<M>>, n: nat, many: bool, channel: Bytes)
    requires WellFormed(subs) && n <= |subs|
    ensures ReachedCount(subs, n, many, channel) == |Takers(Everyone(subs[..n]), many, channel)|
    decreases n
  {
    if n == 0 {
      NoTakers(subs, many, channel);
    } else {
      ReachedCountIsTakers(subs, n - 1, many, channel);
      TakersNext(subs, n - 1, many, channel);
    }
  }

  lemma {:induction false} TakersNext<M>(subs: seq<Subscription<M>>, n: nat, many: bool, channel: Bytes)
    requires WellFormed(subs) && n < |subs|
    ensures |Takers(Everyone(subs[..n + 1]), many, channel)| == |Takers(Everyone(subs[..n]), many, channel)| +
            if Reaches(subs[n].pattern, many, channel) then NonFull(subs[n].slots) else 0
  {
    TakersOfRow(subs[n], many, channel);
    EveryoneBelow(subs, n);
    TakersApart(Everyone(subs[..n]), Row(subs[n]), many, channel);
  }

  lemma {:induction false} NoTakers<M>(subs: seq<Subscription<M>>, many: bool, channel: Bytes)
    ensures Takers(Everyone(subs[..0]), many, channel) == {}
  {
    assert Everyone(subs[..0]) == {};
  }

  lemma {:induction false} TakersApart<M>(a: set<Entry<M>>, b: set<Entry<M>>, many: bool, channel: Bytes)
    requires a !! b
    ensures |Takers(a + b, many, channel)| == |Takers(a, many, channel)| + |Takers(b, many, channel)|
  {
    assert Takers(a + b, many, channel) == Takers(a, many, channel) + Takers(b, many, channel);
    assert Takers(a, many, channel) !! Takers(b, many, channel);
  }

  lemma {:induction false} EveryoneBelow<M>(subs: seq<Subscription<M>>, n: nat)
    requires WellFormed(subs) && n < |subs|
    ensures Everyone(subs[..n + 1]) == Everyone(subs[..n]) + Row(subs[n]) && Everyone(subs[..n]) !! Row(subs[n])
  {
    var less, more := subs[..n], subs[..n + 1];
    assert more == less + [subs[n]];
    EveryonePush(less, subs[n]);
    forall e | e in Everyone(less) ensures e !in Row(subs[n]) {
      var i :| 0 <= i < |less| && e in Row(less[i]);
      assert less[i].pattern != subs[n].pattern;
    }
  }

  /** With patterns that fit it is the number of subscribers with room whose pattern matches. */
  lemma {:induction false} PublishCountIsFullScan<M>(subs: seq<Subscription<M>>, many: bool, channel: Bytes)
    requires WellFormed(subs) && forall i | 0 <= i < |subs| :: FastFits(subs[i].pattern)
    ensures ReachedCount(subs, |subs|, many, channel) ==
            |set e | e in Everyone(subs) && GlobMatches(e.0, channel) && |e.2| < 256|
  {
    ReachedCountIsTakers(subs, |subs|, many, channel);
    assert subs[..|subs|] == subs;
    forall e | e in Everyone(subs) ensures Reaches(e.0, many, channel) <==> GlobMatches(e.0, channel) {
      ReachIsExact(e.0, many, channel);
    }
    assert Takers(Everyone(subs), many, channel) ==
           set e | e in Everyone(subs) && GlobMatches(e.0, channel) && |e.2| < Slot.RING_SIZE;
  }
}
