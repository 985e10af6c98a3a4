/**
 Insertion and deletion of any id in a tree of macro nodes: which ids keep the tree in order, and
 which entries can be deleted again.  After a trim the last id may lie below a tombstone, so that
 ids come in that do not keep the order.
 */
module StreamInsert {
  import opened Common
  import opened StreamLog
  import opened StreamNodes

  // ----- inserting and deleting any id -----

  predicate Covers(node: Node, id: Id) {
    Le(node.firstId, id) && Le(id, node.lastId)
  }

  /** The first node whose bounds hold the id, or the number of nodes. */
  function FirstCovering(nodes: seq<Node>, id: Id): (k: nat)
    ensures k <= |nodes| && (k < |nodes| ==> Covers(nodes[k], id))
    ensures forall j | 0 <= j < k :: !Covers(nodes[j], id)
  {
    if nodes == [] || Covers(nodes[0], id) then 0 else 1 + FirstCovering(nodes[1..], id)
  }

  /** Whether a deletion succeeds: it looks into one node only, and there at one entry. */
  predicate Deletable(nodes: seq<Node>, id: Id) {
    var k := FirstCovering(nodes, id);
    k < |nodes| && FirstIsLive(nodes[k].entries, id)
  }

  function Deleted(nodes: seq<Node>, id: Id): seq<Node>
    requires Deletable(nodes, id)
  {
    var k := FirstCovering(nodes, id);
    nodes[k := Marked(nodes[k], FirstWith(nodes[k].entries, id))]
  }

  /** What a lookup finds: it looks into every node whose bounds hold the id. */
  function Found(nodes: seq<Node>, id: Id): Option<Fields> {
    if nodes == [] then None
    else if Covers(nodes[0], id) && Lookup(nodes[0].entries, id).Some? then Lookup(nodes[0].entries, id)
    else Found(nodes[1..], id)
  }

  lemma {:induction false} FoundInLog(nodes: seq<Node>, id: Id)
    requires Bounded(nodes)
    ensures Found(nodes, id) == Lookup(LogOf(nodes), id)
    decreases |nodes|
  {
    if nodes != [] {
      FoundInLog(nodes[1..], id);
      LookupConcat(nodes[0].entries, LogOf(nodes[1..]), id);
      if !Covers(nodes[0], id) {
        OutOfBounds(nodes[0], id);
      }
    }
  }

  lemma {:induction false} FoundAt(nodes: seq<Node>, id: Id, k: nat)
    requires k < |nodes| && Covers(nodes[k], id) && Lookup(nodes[k].entries, id).Some?
    requires forall j | 0 <= j < k :: Lookup(nodes[j].entries, id).None?
    ensures Found(nodes, id) == Lookup(nodes[k].entries, id)
    decreases |nodes|
  {
    if k > 0 {
      FoundAt(nodes[1..], id, k - 1);
    }
  }

  /** In an ordered tree the entries found are the ones that can be deleted. */
  lemma {:induction false} DeletableInLog(nodes: seq<Node>, id: Id)
    requires Ordered(nodes)
    ensures Deletable(nodes, id) <==> Lookup(LogOf(nodes), id).Some?
  {
    var k := FirstCovering(nodes, id);
    if k < |nodes| {
      NodeDecides(nodes, k, id);
      FirstIsOnly(nodes[k].entries, id);
    } else {
      NowhereFound(nodes, id);
      OrderedIsBounded(nodes);
      FoundInLog(nodes, id);
    }
  }

  /** What a deletion does to a stream in order. */
  lemma {:induction false} DeleteOutcome(nodes: seq<Node>, id: Id, len: nat, totalLen: nat, lastId: Id)
    requires Tracks(nodes, len, totalLen) && LiveUpTo(LogOf(nodes), lastId)
    ensures Deletable(nodes, id) <==> Lookup(LogOf(nodes), id).Some?
    ensures Deletable(nodes, id) ==>
              && len > 0 && LogOf(Deleted(nodes, id)) == Tombstone(LogOf(nodes), id)
              && Tracks(Deleted(nodes, id), len - 1, totalLen) && LiveUpTo(LogOf(Deleted(nodes, id)), lastId)
  {
    DeletableInLog(nodes, id);
    if Deletable(nodes, id) {
      var k := FirstCovering(nodes, id);
      var i := FirstWith(nodes[k].entries, id);
      NodeDecides(nodes, k, id);
      MarkedOk(nodes[k], i);
      DeleteTracks(nodes, k, Marked(nodes[k], i), id, lastId);
    }
  }

  lemma {:induction false} NowhereFound(nodes: seq<Node>, id: Id)
    requires forall j | 0 <= j < |nodes| :: !Covers(nodes[j], id)
    ensures Found(nodes, id) == None
    decreases |nodes|
  {
    if nodes != [] {
      NowhereFound(nodes[1..], id);
    }
  }

  /** The nodes after an insertion: the last one takes the entry, or a new one goes into the ordered map. */
  function Inserted(nodes: seq<Node>, id: Id, fields: Fields, full: bool): seq<Node> {
    if nodes != [] && !full then nodes[|nodes| - 1 := Append(nodes[|nodes| - 1], id, fields)]
    else PutNode(nodes, NewNode(id, fields))
  }

  /** Whatever the id, an insertion keeps the bounds right. */
  lemma {:induction false} InsertedBounded(nodes: seq<Node>, id: Id, fields: Fields, full: bool)
    requires Bounded(nodes)
    ensures Bounded(Inserted(nodes, id, fields, full))
  {
    if nodes != [] && !full {
      AppendInBounds(nodes[|nodes| - 1], id, fields);
    } else {
      PutBounded(nodes, NewNode(id, fields));
    }
  }

  /** The node that takes the entry, or whose place the new node takes. */
  predicate Takes(nodes: seq<Node>, j: nat, id: Id, full: bool)
    requires j < |nodes|
  {
    if full then nodes[j].key == id else j == |nodes| - 1
  }

  /** The number of nodes with smaller keys: where the ordered map puts a new one. */
  function Rank(nodes: seq<Node>, id: Id): (p: nat)
    ensures p <= |nodes| && forall j | 0 <= j < p :: Lt(nodes[j].key, id)
    ensures p < |nodes| ==> !Lt(nodes[p].key, id)
  {
    if nodes == [] || !Lt(nodes[0].key, id) then 0 else 1 + Rank(nodes[1..], id)
  }

  predicate Replaces(nodes: seq<Node>, id: Id) {
    Rank(nodes, id) < |nodes| && nodes[Rank(nodes, id)].key == id
  }

  lemma {:induction false} PutBehind(nodes: seq<Node>, p: nat, q: nat, node: Node)
    requires nodes != [] && p <= q < |nodes|
    ensures [nodes[0]] + (nodes[1..][..p] + ([node] + nodes[1..][q..])) == nodes[..p + 1] + ([node] + nodes[q + 1..])
  {
    assert nodes[..p + 1] == [nodes[0]] + nodes[1..][..p];
    assert nodes[1..][q..] == nodes[q + 1..];
  }

  lemma {:induction false} PutAt(nodes: seq<Node>, node: Node)
    ensures var p := Rank(nodes, node.key);
            PutNode(nodes, node) ==
            nodes[..p] + ([node] + nodes[if Replaces(nodes, node.key) then p + 1 else p..])
    decreases |nodes|
  {
    if nodes != [] {
      if Lt(nodes[0].key, node.key) {
        PutAt(nodes[1..], node);
        var p := Rank(nodes[1..], node.key);
        PutBehind(nodes, p, if Replaces(nodes[1..], node.key) then p + 1 else p, node);
      } else {
        assert nodes[..0] + ([node] + nodes) == [node] + nodes;
        assert nodes[..0] + ([node] + nodes[1..]) == [node] + nodes[1..];
      }
    }
  }

  /** Another node with larger key lies above the id, one with the same key is replaced. */
  lemma {:induction false} OthersCover(nodes: seq<Node>, id: Id, j: nat)
    requires Ordered(nodes) && j < |nodes|
    ensures Covers(nodes[j], id) ==> j < Rank(nodes, id) || (j == Rank(nodes, id) && nodes[j].key == id)
    ensures nodes[j].key == id <==> j == Rank(nodes, id) && Replaces(nodes, id)
  {
    var p := Rank(nodes, id);
    assert Ok(nodes[j]);
    if p < j {
      assert Lt(nodes[p].key, nodes[j].key);
    }
  }

  /** An inserted entry can be looked up at once, in whatever order the tree is. */
  lemma {:induction false} InsertedIsFound(nodes: seq<Node>, id: Id, fields: Fields, full: bool)
    requires Bounded(nodes) && Found(nodes, id) == None
    ensures Found(Inserted(nodes, id, fields, full), id) == Some(fields)
  {
    forall j | 0 <= j < |nodes| ensures Lookup(nodes[j].entries, id).None? {
      NotFoundInNode(nodes, id, j);
    }
    var e := Entry(id, fields, false);
    if nodes != [] && !full {
      var n := |nodes| - 1;
      LookupConcat(nodes[n].entries, [e], id);
      FoundAt(Inserted(nodes, id, fields, full), id, n);
    } else {
      PutAt(nodes, NewNode(id, fields));
      FoundAt(Inserted(nodes, id, fields, full), id, Rank(nodes, id));
    }
  }

  lemma {:induction false} NotFoundInNode(nodes: seq<Node>, id: Id, j: nat)
    requires Bounded(nodes) && Found(nodes, id) == None && j < |nodes|
    ensures Lookup(nodes[j].entries, id).None?
    decreases j
  {
    if j > 0 {
      NotFoundInNode(nodes[1..], id, j - 1);
    } else if !Covers(nodes[0], id) {
      OutOfBounds(nodes[0], id);
    }
  }

  lemma {:induction false} AbsentInNode(nodes: seq<Node>, id: Id, j: nat)
    requires Ordered(nodes) && Lookup(LogOf(nodes), id) == None && j < |nodes|
    ensures Lookup(nodes[j].entries, id).None?
  {
    var pre, post := NodeInLog(nodes, j);
    LookupConcat(pre, nodes[j].entries + post, id);
    LookupConcat(nodes[j].entries, post, id);
  }

  lemma {:induction false} FirstAndLast(nodes: seq<Node>, k: nat)
    requires Ordered(nodes) && k < |nodes|
    ensures Le(nodes[k].firstId, nodes[k].lastId)
  {
    var pre, post := NodeInLog(nodes, k);
    var entries := nodes[k].entries;
    assert |entries| > 1 ==> Lt(entries[0].id, entries[|entries| - 1].id);
  }

  lemma {:induction false} LiveIsFound(log: Log, id: Id)
    ensures FirstIsLive(log, id) ==> Lookup(log, id).Some?
    decreases |log|
  {
    if log != [] {
      LiveIsFound(log[1..], id);
    }
  }

  /** A node list whose first node covering the id is `k` deletes exactly by that node. */
  lemma {:induction false} CoveredFirst(nodes: seq<Node>, id: Id, k: nat)
    requires k < |nodes| && Covers(nodes[k], id)
    requires forall j | 0 <= j < k :: Lookup(nodes[j].entries, id).None?
    ensures Deletable(nodes, id) <==> (forall j | 0 <= j < k :: !Covers(nodes[j], id)) && FirstIsLive(nodes[k].entries, id)
  {
    var f := FirstCovering(nodes, id);
    assert f <= k;
    LiveIsFound(nodes[f].entries, id);
  }

  ghost predicate Lacks(log: Log, id: Id) {
    forall i | 0 <= i < |log| :: log[i].id != id
  }

  lemma {:induction false} AppendedDeletableIff(nodes: seq<Node>, id: Id, fields: Fields)
    requires Ordered(nodes) && nodes != [] && forall j | 0 <= j < |nodes| :: Lookup(nodes[j].entries, id).None?
    ensures var n := |nodes| - 1;
            Deletable(Inserted(nodes, id, fields, false), id) <==>
            (forall j | 0 <= j < n :: !Covers(nodes[j], id)) && Lacks(nodes[n].entries, id)
  {
    var n, after := |nodes| - 1, Inserted(nodes, id, fields, false);
    FirstAndLast(nodes, n);
    FirstIsLiveConcat(nodes[n].entries, Entry(id, fields, false));
    assert forall j | 0 <= j < n :: after[j] == nodes[j];
    CoveredFirst(after, id, n);
  }

  lemma {:induction false} PutDeletableIff(nodes: seq<Node>, id: Id, fields: Fields)
    requires Ordered(nodes) && forall j | 0 <= j < |nodes| :: Lookup(nodes[j].entries, id).None?
    ensures Deletable(PutNode(nodes, NewNode(id, fields)), id) <==>
            forall j | 0 <= j < Rank(nodes, id) :: !Covers(nodes[j], id)
  {
    var p, after := Rank(nodes, id), PutNode(nodes, NewNode(id, fields));
    PutAt(nodes, NewNode(id, fields));
    assert after[p] == NewNode(id, fields) && forall j | 0 <= j < p :: after[j] == nodes[j];
    CoveredFirst(after, id, p);
  }

  /**
   An entry inserted under an id that is not live can be deleted exactly when no node other than
   the one that takes it holds the id between its bounds, and that one has no tombstone of the id.
   */
  lemma {:induction false} ReinsertedDeletableIff(nodes: seq<Node>, id: Id, fields: Fields, full: bool)
    requires Ordered(nodes) && Lookup(LogOf(nodes), id) == None
    ensures Deletable(Inserted(nodes, id, fields, full), id) <==>
            && (forall j | 0 <= j < |nodes| && !Takes(nodes, j, id, full) :: !Covers(nodes[j], id))
            && (full || nodes == [] || Lacks(nodes[|nodes| - 1].entries, id))
  {
    forall j | 0 <= j < |nodes| ensures Lookup(nodes[j].entries, id).None? {
      AbsentInNode(nodes, id, j);
    }
    if nodes != [] && !full {
      AppendedDeletableIff(nodes, id, fields);
    } else {
      PutDeletableIff(nodes, id, fields);
      forall j | 0 <= j < |nodes| ensures Covers(nodes[j], id) && nodes[j].key != id ==> j < Rank(nodes, id) {
        OthersCover(nodes, id, j);
      }
    }
  }

  /** The ids that may come: for the last node those above everything, for a new node those that no node reaches across. */
  ghost predicate Fits(nodes: seq<Node>, id: Id, full: bool) {
    if nodes != [] && !full then Above(id, LogOf(nodes))
    else forall k | 0 <= k < |nodes| :: Lt(id, nodes[k].key) || Lt(nodes[k].lastId, id)
  }

  lemma {:induction false} InsertedLog(nodes: seq<Node>, id: Id, fields: Fields)
    ensures var p := Rank(nodes, id);
            LogOf(PutNode(nodes, NewNode(id, fields))) ==
            LogOf(nodes[..p]) + ([Entry(id, fields, false)] + LogOf(nodes[if Replaces(nodes, id) then p + 1 else p..]))
  {
    var p, node := Rank(nodes, id), NewNode(id, fields);
    var post := nodes[if Replaces(nodes, id) then p + 1 else p..];
    PutAt(nodes, node);
    LogConcat(nodes[..p], [node] + post);
    LogConcat([node], post);
    LogOfOne(node);
  }

  /** An insertion adds one entry, but a new node under a key in use costs all entries of the old one. */
  lemma {:induction false} InsertedCount(nodes: seq<Node>, id: Id, fields: Fields, full: bool)
    requires Ordered(nodes)
    ensures |LogOf(Inserted(nodes, id, fields, full))| + (if full && Replaces(nodes, id) then |nodes[Rank(nodes, id)].entries| else 0)
            == |LogOf(nodes)| + 1
  {
    if nodes != [] && !full {
      AppendToLast(nodes, id, fields);
    } else {
      PutCount(nodes, id, fields);
    }
  }

  lemma {:induction false} PutCount(nodes: seq<Node>, id: Id, fields: Fields)
    ensures |LogOf(PutNode(nodes, NewNode(id, fields)))| + (if Replaces(nodes, id) then |nodes[Rank(nodes, id)].entries| else 0)
            == |LogOf(nodes)| + 1
  {
    var p := Rank(nodes, id);
    var rest := LogOf(nodes[if Replaces(nodes, id) then p + 1 else p..]);
    assert |LogOf(PutNode(nodes, NewNode(id, fields)))| == |LogOf(nodes[..p])| + 1 + |rest| by {
      InsertedLog(nodes, id, fields);
    }
    if Replaces(nodes, id) {
      LogAround(nodes, p, nodes[p]);
    } else {
      assert nodes == nodes[..p] + nodes[p..];
      LogConcat(nodes[..p], nodes[p..]);
    }
  }

  lemma {:induction false} AscendingInsert(a: Log, e: Entry, b: Log)
    requires Ascending(a + b)
    requires (a == [] || Lt(a[|a| - 1].id, e.id)) && (b == [] || Lt(e.id, b[0].id))
    ensures Ascending(a + ([e] + b))
  {
    var all, old_ := a + ([e] + b), a + b;
    assert forall i | 0 <= i < |a| :: all[i] == a[i] == old_[i];
    assert all[|a|] == e;
    assert forall i | |a| < i < |all| :: all[i] == old_[i - 1];
    forall i | 0 <= i < |a| ensures Lt(a[i].id, e.id) {
      assert i < |a| - 1 ==> Lt(old_[i].id, old_[|a| - 1].id);
    }
    forall i | |a| < i < |all| ensures Lt(e.id, all[i].id) {
      assert old_[|a|] == b[0];
      assert i > |a| + 1 ==> Lt(old_[|a|].id, old_[i - 1].id);
    }
  }

  /** The two parts of the log before and from a node on: where one ends and the other begins. */
  lemma {:induction false} LogSplits(nodes: seq<Node>, p: nat)
    requires AllOk(nodes) && p <= |nodes|
    ensures LogOf(nodes) == LogOf(nodes[..p]) + LogOf(nodes[p..])
    ensures var pre, post := LogOf(nodes[..p]), LogOf(nodes[p..]);
            && (p == 0 ==> pre == []) && (p > 0 ==> pre != [] && pre[|pre| - 1].id == nodes[p - 1].lastId)
            && (p == |nodes| ==> post == []) && (p < |nodes| ==> post != [] && post[0].id == nodes[p].firstId)
  {
    assert nodes == nodes[..p] + nodes[p..];
    LogConcat(nodes[..p], nodes[p..]);
    if p > 0 {
      assert Ok(nodes[p - 1]);
      LogAround(nodes, p - 1, nodes[p - 1]);
    }
    if p < |nodes| {
      assert Ok(nodes[p]) && nodes[p..][0] == nodes[p];
    }
  }

  lemma {:induction false} FittingPlace(nodes: seq<Node>, id: Id, fields: Fields)
    requires Ordered(nodes) && Fits(nodes, id, true)
    ensures !Replaces(nodes, id)
    ensures var p := Rank(nodes, id);
            Ascending(LogOf(nodes[..p]) + ([Entry(id, fields, false)] + LogOf(nodes[p..])))
  {
    var p := Rank(nodes, id);
    if p < |nodes| {
      FirstAndLast(nodes, p);
    }
    LogSplits(nodes, p);
    AscendingInsert(LogOf(nodes[..p]), Entry(id, fields, false), LogOf(nodes[p..]));
  }

  lemma {:induction false} FittingKeys(nodes: seq<Node>, id: Id, fields: Fields)
    requires Ordered(nodes) && Fits(nodes, id, true) && !Replaces(nodes, id)
    ensures AllOk(PutNode(nodes, NewNode(id, fields))) && KeysAscend(PutNode(nodes, NewNode(id, fields)))
  {
    var p, node := Rank(nodes, id), NewNode(id, fields);
    PutAt(nodes, node);
    NewNodeOk(id, fields);
    forall j | p <= j < |nodes| ensures Lt(id, nodes[j].key) {
      assert p < j ==> Lt(nodes[p].key, nodes[j].key);
    }
    KeysAround(nodes, p, node);
  }

  lemma {:induction false} KeysAround(nodes: seq<Node>, p: nat, node: Node)
    requires AllOk(nodes) && KeysAscend(nodes) && Ok(node) && p <= |nodes|
    requires forall j | 0 <= j < p :: Lt(nodes[j].key, node.key)
    requires forall j | p <= j < |nodes| :: Lt(node.key, nodes[j].key)
    ensures AllOk(nodes[..p] + ([node] + nodes[p..])) && KeysAscend(nodes[..p] + ([node] + nodes[p..]))
  {
    var after := nodes[..p] + ([node] + nodes[p..]);
    forall j | 0 <= j < |after|
      ensures after[j] == if j < p then nodes[j] else if j == p then node else nodes[j - 1]
    {
    }
    forall i, j | 0 <= i < j < |after| ensures Lt(after[i].key, after[j].key) {
      if i == p || j == p {
      } else {
        var i', j' := if i < p then i else i - 1, if j < p then j else j - 1;
        assert Lt(nodes[i'].key, nodes[j'].key);
      }
    }
  }

  lemma {:induction false} FittingIsOrdered(nodes: seq<Node>, id: Id, fields: Fields)
    requires Ordered(nodes) && Fits(nodes, id, true)
    ensures Ordered(PutNode(nodes, NewNode(id, fields)))
  {
    FittingPlace(nodes, id, fields);
    FittingKeys(nodes, id, fields);
    InsertedLog(nodes, id, fields);
  }

  lemma {:induction false} PutEntries(nodes: seq<Node>, id: Id, fields: Fields)
    requires !Replaces(nodes, id)
    ensures multiset(LogOf(PutNode(nodes, NewNode(id, fields)))) == multiset(LogOf(nodes)) + multiset{Entry(id, fields, false)}
  {
    var p := Rank(nodes, id);
    InsertedLog(nodes, id, fields);
    assert nodes == nodes[..p] + nodes[p..];
    LogConcat(nodes[..p], nodes[p..]);
  }

  lemma {:induction false} OrderedFits(nodes: seq<Node>, id: Id, fields: Fields)
    requires Ordered(nodes) && Ordered(PutNode(nodes, NewNode(id, fields)))
    requires |LogOf(PutNode(nodes, NewNode(id, fields)))| == |LogOf(nodes)| + 1
    ensures Fits(nodes, id, true)
  {
    InsertedCount(nodes, id, fields, true);
    assert !Replaces(nodes, id);
    var p, after := Rank(nodes, id), PutNode(nodes, NewNode(id, fields));
    PutAt(nodes, NewNode(id, fields));
    assert after[p] == NewNode(id, fields);
    forall k | 0 <= k < |nodes| ensures Lt(id, nodes[k].key) || Lt(nodes[k].lastId, id) {
      if k < p {
        assert after[k] == nodes[k];
        NodesAreDisjoint(after, k, p);
      } else {
        assert p < k ==> Lt(nodes[p].key, nodes[k].key);
      }
    }
  }

  /** An insertion keeps the tree in order and its counters right exactly for the ids that fit. */
  lemma {:induction false} InsertTracksIff(nodes: seq<Node>, id: Id, fields: Fields, full: bool, len: nat, totalLen: nat)
    requires Tracks(nodes, len, totalLen)
    ensures var after := Inserted(nodes, id, fields, full);
            && (Tracks(after, len + 1, totalLen + 1) <==> Fits(nodes, id, full))
            && (Fits(nodes, id, full) ==>
                  multiset(LogOf(after)) == multiset(LogOf(nodes)) + multiset{Entry(id, fields, false)})
  {
    var e, after := Entry(id, fields, false), Inserted(nodes, id, fields, full);
    InsertedCount(nodes, id, fields, full);
    if nodes != [] && !full {
      AppendToLast(nodes, id, fields);
      AppendAscends(LogOf(nodes), e);
      LiveCountConcat(LogOf(nodes), [e]);
      LiveCountOne(e);
    } else if Fits(nodes, id, full) {
      FittingIsOrdered(nodes, id, fields);
      FittingPlace(nodes, id, fields);
      PutEntries(nodes, id, fields);
      FittingCount(nodes, id, fields);
    } else if Tracks(after, len + 1, totalLen + 1) {
      OrderedFits(nodes, id, fields);
      assert false;
    }
  }

  lemma {:induction false} FittingCount(nodes: seq<Node>, id: Id, fields: Fields)
    requires !Replaces(nodes, id)
    ensures LiveCount(LogOf(PutNode(nodes, NewNode(id, fields)))) == LiveCount(LogOf(nodes)) + 1
  {
    var p, e := Rank(nodes, id), Entry(id, fields, false);
    InsertedLog(nodes, id, fields);
    var pre, post := LogOf(nodes[..p]), LogOf(nodes[p..]);
    LiveCountConcat(pre, [e] + post);
    LiveCountConcat([e], post);
    LiveCountOne(e);
    assert nodes == nodes[..p] + nodes[p..];
    LogConcat(nodes[..p], nodes[p..]);
    LiveCountConcat(pre, post);
  }

  lemma {:induction false} FitsAbove(nodes: seq<Node>, id: Id, full: bool)
    requires Ordered(nodes) && Above(id, LogOf(nodes))
    ensures Fits(nodes, id, full)
  {
    forall k | 0 <= k < |nodes| ensures Lt(nodes[k].lastId, id) {
      NodeEndsBelow(nodes, id, k);
    }
  }

  lemma {:induction false} NodeEndsBelow(nodes: seq<Node>, id: Id, k: nat)
    requires Ordered(nodes) && Above(id, LogOf(nodes)) && k < |nodes|
    ensures Lt(nodes[k].lastId, id)
  {
    var pre, post := NodeInLog(nodes, k);
    var n := |nodes[k].entries| - 1;
    assert LogOf(nodes)[|pre| + n] == nodes[k].entries[n];
  }

  lemma {:induction false} AppendedLog(nodes: seq<Node>, id: Id, fields: Fields, full: bool)
    requires Ordered(nodes) && Above(id, LogOf(nodes))
    ensures LogOf(Inserted(nodes, id, fields, full)) == LogOf(nodes) + [Entry(id, fields, false)]
  {
    if nodes != [] && !full {
      AppendToLast(nodes, id, fields);
    } else {
      AppendNode(nodes, id, fields);
    }
  }

  lemma {:induction false} LiveUpToMore(before: Log, after: Log, e: Entry, lastId: Id)
    requires LiveUpTo(before, lastId) && multiset(after) == multiset(before) + multiset{e}
    ensures LiveUpTo(after, if Lt(lastId, e.id) then e.id else lastId)
  {
    forall i | 0 <= i < |after| ensures after[i] == e || after[i] in before {
      assert after[i] in multiset(after);
    }
  }

  // After a trim the last id is that of the last live entry.  These trees, with such an id, let
  // through ids that do not fit.

  /** A tombstone of the same id stands in front: found, but not deletable. */
  lemma {:induction false} TombstoneComesBack(fields: Fields)
    ensures var nodes := [Node(Id(1, 0), [Entry(Id(1, 0), fields, false), Entry(Id(2, 0), fields, true)], 1, 1, Id(1, 0), Id(2, 0))];
            var after := Inserted(nodes, Id(2, 0), fields, false);
            && Ordered(nodes) && Lt(LastLiveId(LogOf(nodes)), Id(2, 0)) && Lookup(LogOf(nodes), Id(2, 0)) == None
            && Found(after, Id(2, 0)) == Some(fields) && !Deletable(after, Id(2, 0))
  {
    var a, b := Entry(Id(1, 0), fields, false), Entry(Id(2, 0), fields, true);
    var node := Node(Id(1, 0), [a, b], 1, 1, Id(1, 0), Id(2, 0));
    TwoEntries(node, a, b);
    LookupOutside([a, b], Id(2, 0));
    InsertedIsFound([node], Id(2, 0), fields, false);
    ReinsertedDeletableIff([node], Id(2, 0), fields, false);
    assert [node][0].entries[1].id == Id(2, 0);
  }

  /** No tombstone of that id at all, but another node reaches across it: found, but not deletable. */
  lemma {:induction false} OtherNodeInTheWay(fields: Fields)
    ensures var nodes := [Node(Id(1, 0), [Entry(Id(1, 0), fields, false), Entry(Id(5, 0), fields, true)], 1, 1, Id(1, 0), Id(5, 0))];
            var after := Inserted(nodes, Id(3, 0), fields, true);
            && Ordered(nodes) && Lt(LastLiveId(LogOf(nodes)), Id(3, 0)) && Lookup(LogOf(nodes), Id(3, 0)) == None
            && Found(after, Id(3, 0)) == Some(fields) && !Deletable(after, Id(3, 0))
  {
    var a, b := Entry(Id(1, 0), fields, false), Entry(Id(5, 0), fields, true);
    var node := Node(Id(1, 0), [a, b], 1, 1, Id(1, 0), Id(5, 0));
    TwoEntries(node, a, b);
    LookupOutside([a, b], Id(3, 0));
    InsertedIsFound([node], Id(3, 0), fields, true);
    ReinsertedDeletableIff([node], Id(3, 0), fields, true);
    assert !Takes([node], 0, Id(3, 0), true) && Covers([node][0], Id(3, 0));
  }

  lemma {:induction false} TwoEntries(node: Node, a: Entry, b: Entry)
    requires node.entries == [a, b] && !a.deleted && b.deleted && Lt(a.id, b.id)
    requires node.count == 1 && node.deleted == 1 && node.firstId == node.key == a.id && node.lastId == b.id
    ensures Ordered([node]) && LogOf([node]) == [a, b] && LastLiveId([a, b]) == a.id
  {
    LogOfOne(node);
    LiveCountConcat([a], [b]);
    LiveCountOne(a);
    LiveCountOne(b);
    assert [a] + [b] == [a, b];
    LastLiveConcat([a], [b]);
    assert [b][..0] == [] && LastLive([b]) == None;
  }

  /** A node under the same key is replaced: its tombstones are lost, and the counter is two too high. */
  lemma {:induction false} ReplacedNodeIsLost(fields: Fields)
    ensures var one := Node(Id(1, 0), [Entry(Id(1, 0), fields, false)], 1, 0, Id(1, 0), Id(1, 0));
            var two := Node(Id(5, 0), [Entry(Id(5, 0), fields, true), Entry(Id(6, 0), fields, true)], 0, 2, Id(5, 0), Id(6, 0));
            var after := Inserted([one, two], Id(5, 0), fields, true);
            && Tracks([one, two], 1, 3) && Lt(LastLiveId(LogOf([one, two])), Id(5, 0))
            && LogOf(after) == [Entry(Id(1, 0), fields, false), Entry(Id(5, 0), fields, false)]
            && Deletable(after, Id(5, 0)) && !Tracks(after, 2, 4)
  {
    var a, b, c := Entry(Id(1, 0), fields, false), Entry(Id(5, 0), fields, true), Entry(Id(6, 0), fields, true);
    var one := Node(Id(1, 0), [a], 1, 0, Id(1, 0), Id(1, 0));
    var two := Node(Id(5, 0), [b, c], 0, 2, Id(5, 0), Id(6, 0));
    var nodes := [one, two];
    assert nodes[1..] == [two];
    LogOfOne(two);
    assert LogOf(nodes) == [a, b, c];
    LiveCountOne(a);
    DeadPair(b, c);
    LiveCountConcat([a], [b, c]);
    assert [a] + [b, c] == [a, b, c];
    LastLiveConcat([a], [b, c]);
    assert Ok(one) && Ok(two);
    LookupOutside([a, b, c], Id(5, 0));
    ReinsertedDeletableIff(nodes, Id(5, 0), fields, true);
    var new_ := NewNode(Id(5, 0), fields);
    assert PutNode([two], new_) == [new_] + [two][1..] == [new_];
    assert PutNode(nodes, new_) == [one, new_];
    LogOfOne(new_);
    assert [one, new_][1..] == [new_];
  }

  lemma {:induction false} DeadPair(b: Entry, c: Entry)
    requires b.deleted && c.deleted
    ensures LiveCount([b, c]) == 0 && LastLive([b, c]) == None
  {
    LiveCountOne(b);
    LiveCountOne(c);
    LiveCountConcat([b], [c]);
    LastLiveConcat([b], [c]);
    assert [b] + [c] == [b, c] && [b][..0] == [] && [c][..0] == [];
    assert LastLive([b]) == None && LastLive([c]) == None;
  }

  /** What an insertion of any id that is not live does to a stream in order. */
  lemma {:induction false} InsertOutcome(nodes: seq<Node>, id: Id, fields: Fields, full: bool, len: nat, totalLen: nat, lastId: Id)
    requires Tracks(nodes, len, totalLen) && LiveUpTo(LogOf(nodes), lastId) && Lookup(LogOf(nodes), id) == None
    ensures var after, e := Inserted(nodes, id, fields, full), Entry(id, fields, false);
            var tracks := Tracks(after, len + 1, totalLen + 1) && LiveUpTo(LogOf(after), if Lt(lastId, id) then id else lastId);
            && Found(after, id) == Some(fields)
            && (tracks <==> Fits(nodes, id, full))
            && (tracks ==> multiset(LogOf(after)) == multiset(LogOf(nodes)) + multiset{e})
            && (Above(id, LogOf(nodes)) ==> tracks && LogOf(after) == LogOf(nodes) + [e])
  {
    OrderedIsBounded(nodes);
    FoundInLog(nodes, id);
    InsertedIsFound(nodes, id, fields, full);
    InsertTracksIff(nodes, id, fields, full, len, totalLen);
    if Fits(nodes, id, full) {
      LiveUpToMore(LogOf(nodes), LogOf(Inserted(nodes, id, fields, full)), Entry(id, fields, false), lastId);
    }
    if Above(id, LogOf(nodes)) {
      FitsAbove(nodes, id, full);
      AppendedLog(nodes, id, fields, full);
    }
  }
}
