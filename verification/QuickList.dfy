/**
 The quicklist of senko-core/src/list.rs: push, pop, index, set_index and trim over a chain of
 listpack nodes that split when they outgrow `fill` and merge when they run low.  `spine` and
 `parts` are ghost: the addresses in list order and the entries each node holds.  Every
 operation refines the same operation on the flat sequence of elements, follows only live
 addresses, and leaves no node behind.
 */
module QuickList {
  import opened Common
  import opened Listpack
  import opened NodeChain

  class QuickList {
    var memory: Memory
    var head: Pointer
    var tail: Pointer
    var nodeCount: nat
    var len: nat
    const fill: nat
    ghost var spine: seq<Pointer>
    ghost var parts: seq<seq<Bytes>>

    ghost predicate Shape()
      reads this
    {
      && 1 <= fill < U16 - 1
      && Shaped(memory, head, tail, spine, parts)
      && nodeCount == |spine|
    }

    ghost predicate Valid()
      reads this
    {
      Shape() && SizedExcept(parts, -1, fill) && len == |Contents()|
    }

    ghost function Contents(): seq<Bytes>
      reads this
    {
      Flatten(parts)
    }

    constructor (requested: int)
      requires requested < U16 - 1
      ensures Valid() && Contents() == []
      ensures fill == if requested < 1 then 1 else requested
    {
      memory, head, tail, nodeCount, len := map[], NULL, NULL, 0, 0;
      fill := if requested < 1 then 1 else requested;
      spine, parts := [], [];
    }

    /** `decode_all_entries` of the node at `i`. */
    method Decode(node: Pointer, ghost i: nat) returns (all: seq<Bytes>)
      requires Shape() && i < |spine| && spine[i] == node
      ensures all == parts[i] && Elements(all) && |all| < U16
      ensures node in memory && memory[node].count == |all|
    {
      LinksStay(memory, spine, i);
      assert StoredAt(memory, spine, parts, i);
      DecodesPart(memory[node], parts[i]);
      all := DecodeAll(memory[node]);
    }

    /** `encode_node_entries` into the node at `i`; the count is cut to sixteen bits. */
    method Encode(node: Pointer, all: seq<Bytes>, ghost i: nat)
      requires Shape() && i < |spine| && spine[i] == node
      requires Elements(all) && |all| < U16
      modifies this`memory, this`parts
      ensures Shape() && parts == old(parts)[i := all]
    {
      LinksStay(memory, spine, i);
      var data := EncodeNodeEntries(all);
      var updated := memory[node].(data := data, count := |all| % U16);
      RewriteKeeps(memory, spine, parts, i, updated, all);
      memory := memory[node := updated];
      parts := parts[i := all];
    }

    /** Link a new node that holds `all` behind the node at `i`. */
    method AddBehind(node: Pointer, all: seq<Bytes>, ghost i: nat)
      requires Shape() && i < |spine| && spine[i] == node
      requires Elements(all) && |all| < U16
      modifies this`memory, this`tail, this`nodeCount, this`spine, this`parts
      ensures Shape() && parts == Splice(old(parts), i + 1, i + 1, [all])
    {
      ghost var free := FreshExists(memory.Keys);
      var added: Pointer :| added != NULL && added !in memory;
      var data := EncodeNodeEntries(all);
      var fresh' := Node(data, |all| % U16, NULL, NULL);
      LinkBehindShape(memory, head, tail, spine, parts, i, added, fresh', all);
      if memory[node].next == NULL {
        tail := added;
      }
      memory := LinkBehind(memory, node, added, fresh');
      nodeCount := nodeCount + 1;
      spine, parts := Splice(spine, i + 1, i + 1, [added]), Splice(parts, i + 1, i + 1, [all]);
    }

    method UnlinkNode(node: Pointer, ghost i: nat)
      requires Shape() && i < |spine| && spine[i] == node
      modifies this`memory, this`head, this`tail, this`nodeCount, this`spine, this`parts
      ensures Shape()
      ensures spine == Splice(old(spine), i, i + 1, []) && parts == Splice(old(parts), i, i + 1, [])
    {
      UnlinkShape(memory, head, tail, spine, parts, i);
      var prev, next := memory[node].prev, memory[node].next;
      if prev == NULL {
        head := next;
      }
      if next == NULL {
        tail := prev;
      }
      memory := Unlink(memory, node);
      nodeCount := nodeCount - 1;
      if nodeCount == 0 {
        head, tail := NULL, NULL;
      }
      spine, parts := Splice(spine, i, i + 1, []), Splice(parts, i, i + 1, []);
    }

    /** Cut a node that has outgrown `fill` into two halves. */
    method SplitIfNeeded(node: Pointer, ghost i: nat)
      requires Shape() && i < |spine| && spine[i] == node
      requires 1 <= |parts[i]| <= fill + 1 && SizedExcept(parts, i, fill)
      modifies this`memory, this`tail, this`nodeCount, this`spine, this`parts
      ensures Shape() && SizedExcept(parts, -1, fill) && Contents() == old(Contents())
      ensures |old(parts[i])| <= fill ==> spine == old(spine) && parts == old(parts)
      ensures |old(parts[i])| > fill ==>
                parts == old(parts)[..i] + [old(parts[i])[..|old(parts[i])| / 2], old(parts[i])[|old(parts[i])| / 2..]] + old(parts)[i + 1..]
    {
      assert StoredAt(memory, spine, parts, i);
      if memory[node].count <= fill {
        return;
      }
      var entries := Decode(node, i);
      var midpoint := |entries| / 2;
      var left, right := entries[..midpoint], entries[midpoint..];
      Encode(node, left, i);
      AddBehind(node, right, i);
      HalvesFlatten(old(parts), i, left, right, fill);
    }

    /** Pull the next node's entries into this one when both together fill at most half a node. */
    method TryMergeWithNext(node: Pointer, ghost i: nat)
      requires Shape() && i < |spine| && spine[i] == node
      requires SizedExcept(parts, -1, fill)
      modifies this`memory, this`head, this`tail, this`nodeCount, this`spine, this`parts
      ensures Shape() && SizedExcept(parts, -1, fill) && Contents() == old(Contents())
      ensures |spine| > i && spine[..i + 1] == old(spine)[..i + 1]
      ensures i + 1 < |old(parts)| && |old(parts[i])| + |old(parts[i + 1])| <= fill / 2 ==>
                parts == old(parts)[..i] + [old(parts[i]) + old(parts[i + 1])] + old(parts)[i + 2..]
      ensures i + 1 == |old(parts)| || |old(parts[i])| + |old(parts[i + 1])| > fill / 2 ==> parts == old(parts)
    {
      LinksStay(memory, spine, i);
      var next := memory[node].next;
      if next == NULL {
        return;
      }
      assert StoredAt(memory, spine, parts, i) && StoredAt(memory, spine, parts, i + 1);
      if memory[node].count + memory[next].count > fill / 2 {
        return;
      }
      MergedFlatten(parts, i, fill);
      Absorb(node, next, i);
    }

    /** Append the next node's entries to this one's and free the next node. */
    method Absorb(node: Pointer, next: Pointer, ghost i: nat)
      requires Shape() && i + 1 < |spine| && spine[i] == node && spine[i + 1] == next
      requires |parts[i]| + |parts[i + 1]| < U16
      modifies this`memory, this`head, this`tail, this`nodeCount, this`spine, this`parts
      ensures Shape() && spine == old(spine)[..i + 1] + old(spine)[i + 2..]
      ensures parts == old(parts)[..i] + [old(parts[i]) + old(parts[i + 1])] + old(parts)[i + 2..]
    {
      var entries := Decode(node, i);
      var others := Decode(next, i + 1);
      Encode(node, entries + others, i);
      UnlinkNode(next, i + 1);
    }

    method CleanupAfterMutation(node: Pointer, ghost i: nat)
      requires Shape() && i < |spine| && spine[i] == node
      requires |parts[i]| <= fill && SizedExcept(parts, i, fill)
      modifies this`memory, this`head, this`tail, this`nodeCount, this`spine, this`parts
      ensures Shape() && SizedExcept(parts, -1, fill) && Contents() == old(Contents())
      ensures parts == CleanedUp(old(parts), i, fill)
    {
      assert StoredAt(memory, spine, parts, i);
      if memory[node].count == 0 {
        UnlinkNode(node, i);
        EmptyFlatten(old(parts), i, fill);
      } else {
        MergeAround(node, i);
      }
    }

    /** Merge with the next node and with the previous one, where they are small enough. */
    method MergeAround(node: Pointer, ghost i: nat)
      requires Shape() && i < |spine| && spine[i] == node && parts[i] != []
      requires |parts[i]| <= fill && SizedExcept(parts, i, fill)
      modifies this`memory, this`head, this`tail, this`nodeCount, this`spine, this`parts
      ensures Shape() && SizedExcept(parts, -1, fill) && Contents() == old(Contents())
      ensures parts == MergedAround(old(parts), i, fill)
    {
      TryMergeWithNext(node, i);
      ghost var merged := parts;
      assert merged == MergedAt(old(parts), i, fill);
      LinksStay(memory, spine, i);
      var prev := memory[node].prev;
      if prev != NULL {
        TryMergeWithNext(prev, i - 1);
        assert parts == MergedAt(merged, i - 1, fill);
      }
    }

    /** A first node for an empty list. */
    method Start()
      requires Valid() && spine == []
      modifies this
      ensures Shape() && len == old(len) && |spine| == 1 && parts == [[]] && Contents() == old(Contents())
    {
      ghost var free := FreshExists(memory.Keys);
      var added: Pointer :| added != NULL && added !in memory;
      memory := memory[added := Node([], 0, NULL, NULL)];
      head, tail, nodeCount := added, added, 1;
      spine, parts := [added], [[]];
      FlattenOne([]);
      assert LinkedAt(memory, spine, 0) && StoredAt(memory, spine, parts, 0);
      assert Addresses(spine) == {added} by {
        assert spine[0] in Addresses(spine);
      }
    }

    method PushFront(element: Bytes)
      requires Valid() && Element(element)
      modifies this
      ensures Valid() && Contents() == [element] + old(Contents())
      ensures old(parts) == [] ==> parts == [[element]]
      ensures old(parts) != [] ==> parts == SplitAt(old(parts)[0 := [element] + old(parts[0])], 0, fill)
    {
      if head == NULL {
        EmptyWhenNull(memory, spine);
        Start();
        assert [element] + [] == [element];
      } else {
        EndsAreNodes(memory, spine);
        assert Sized(parts[0], fill);
      }
      AddToFirst(element);
    }

    /** Into the first node, which splits if it outgrows `fill`. */
    method AddToFirst(element: Bytes)
      requires Shape() && spine != [] && |parts[0]| <= fill && SizedExcept(parts, 0, fill) && len == |Contents()| && Element(element)
      modifies this
      ensures Valid() && Contents() == [element] + old(Contents())
      ensures parts == SplitAt(old(parts)[0 := [element] + old(parts[0])], 0, fill)
    {
      EndsAreNodes(memory, spine);
      var entries := Decode(head, 0);
      FlattenPushFront(parts, element);
      Encode(head, [element] + entries, 0);
      len := len + 1;
      SplitIfNeeded(head, 0);
    }

    method PushBack(element: Bytes)
      requires Valid() && Element(element)
      modifies this
      ensures Valid() && Contents() == old(Contents()) + [element]
      ensures old(parts) == [] ==> parts == [[element]]
      ensures old(parts) != [] ==>
                var n := |old(parts)| - 1; parts == SplitAt(old(parts)[n := old(parts)[n] + [element]], n, fill)
    {
      if tail == NULL {
        EmptyWhenNull(memory, spine);
        Start();
        assert [] + [element] == [element];
      } else {
        EndsAreNodes(memory, spine);
        assert Sized(parts[|parts| - 1], fill);
      }
      AddToLast(element);
    }

    /** Into the last node, which splits if it outgrows `fill`. */
    method AddToLast(element: Bytes)
      requires Shape() && spine != [] && len == |Contents()| && Element(element)
      requires |parts[|parts| - 1]| <= fill && SizedExcept(parts, |parts| - 1, fill)
      modifies this
      ensures Valid() && Contents() == old(Contents()) + [element]
      ensures var n := |old(parts)| - 1; parts == SplitAt(old(parts)[n := old(parts)[n] + [element]], n, fill)
    {
      EndsAreNodes(memory, spine);
      var entries := Decode(tail, |spine| - 1);
      FlattenPushBack(parts, element);
      Encode(tail, entries + [element], |spine| - 1);
      len := len + 1;
      SplitIfNeeded(tail, |spine| - 1);
    }

    method PopFront() returns (value: Option<Bytes>)
      requires Valid()
      modifies this
      ensures Valid()
      ensures old(Contents()) == [] ==> value == None && Contents() == []
      ensures old(Contents()) != [] ==> value == Some(old(Contents())[0]) && Contents() == old(Contents())[1..]
      ensures old(Contents()) != [] ==> |old(parts)| > 0 && |old(parts)[0]| > 0
      ensures old(Contents()) != [] ==> parts == CleanedUp(old(parts)[0 := old(parts)[0][1..]], 0, fill)
    {
      if head == NULL {
        EmptyWhenNull(memory, spine);
        return None;
      }
      EndsAreNodes(memory, spine);
      var entries := Decode(head, 0);
      assert Sized(parts[0], fill);
      FlattenPopFront(parts);
      Encode(head, entries[1..], 0);
      value := Some(entries[0]);
      len := len - 1;
      CleanupAfterMutation(head, 0);
    }

    method PopBack() returns (value: Option<Bytes>)
      requires Valid()
      modifies this
      ensures Valid()
      ensures old(Contents()) == [] ==> value == None && Contents() == []
      ensures old(Contents()) != [] ==>
                && value == Some(old(Contents())[|old(Contents())| - 1])
                && Contents() == old(Contents())[..|old(Contents())| - 1]
      ensures old(Contents()) != [] ==> |old(parts)| > 0 && |old(parts)[|old(parts)| - 1]| > 0
      ensures old(Contents()) != [] ==>
                var n, last := |old(parts)| - 1, old(parts)[|old(parts)| - 1];
                parts == CleanedUp(old(parts)[n := last[..|last| - 1]], n, fill)
    {
      if tail == NULL {
        EmptyWhenNull(memory, spine);
        return None;
      }
      EndsAreNodes(memory, spine);
      var entries := Decode(tail, |spine| - 1);
      assert Sized(parts[|parts| - 1], fill);
      FlattenPopBack(parts, entries);
      Encode(tail, entries[..|entries| - 1], |spine| - 1);
      value := Some(entries[|entries| - 1]);
      len := len - 1;
      CleanupAfterMutation(tail, |spine| - 1);
    }

    /** The count and an entry of the node at `k`. */
    method Get(node: Pointer, index: nat, ghost k: nat) returns (r: Option<Bytes>)
      requires Shape() && k < |spine| && spine[k] == node
      ensures r == Nth(parts[k], index)
    {
      LinksStay(memory, spine, k);
      assert StoredAt(memory, spine, parts, k);
      DecodesPart(memory[node], parts[k]);
      r := LpGet(memory[node].data, memory[node].count, index);
    }

    method WalkForward(normalized: nat) returns (r: Option<Bytes>)
      requires Valid()
      ensures r == Nth(Contents(), normalized)
    {
      var traversed: nat, node := 0, head;
      ghost var k: nat := 0;
      while node != NULL
        invariant k <= |spine| && node == Behind(spine, k - 1)
        invariant traversed == StartOf(parts, k) <= normalized
        decreases |spine| - k
      {
        EndReached(memory, spine, k, node);
        LinksStay(memory, spine, k);
        assert StoredAt(memory, spine, parts, k);
        var count := memory[node].count;
        NthInPart(parts, k, normalized);
        if normalized < traversed + count {
          r := Get(node, normalized - traversed, k);
          return;
        }
        traversed, node, k := traversed + count, memory[node].next, k + 1;
      }
      EndReached(memory, spine, k, node);
      assert parts[..k] == parts;
      r := None;
    }

    method WalkBackward(normalized: nat) returns (r: Option<Bytes>)
      requires Valid()
      ensures r == Nth(Contents(), normalized)
    {
      var traversed: nat, node := len, tail;
      ghost var k: nat := |spine|;
      assert parts[..k] == parts;
      while node != NULL
        invariant k <= |spine| && node == Before(spine, k)
        invariant traversed == StartOf(parts, k) && (k == |spine| || normalized < traversed)
        decreases k
      {
        StartReached(memory, spine, k, node);
        k := k - 1;
        LinksStay(memory, spine, k);
        assert StoredAt(memory, spine, parts, k);
        NthInPart(parts, k, normalized);
        traversed := traversed - memory[node].count;
        if normalized >= traversed {
          r := Get(node, normalized - traversed, k);
          return;
        }
        node := memory[node].prev;
      }
      StartReached(memory, spine, k, node);
      r := None;
    }

    /** From the nearer end. */
    method Index(index: int) returns (r: Option<Bytes>)
      requires Valid()
      ensures 0 <= index < |Contents()| ==> r == Some(Contents()[index])
      ensures -|Contents()| <= index < 0 ==> r == Some(Contents()[|Contents()| + index])
      ensures index < -|Contents()| || |Contents()| <= index ==> r == None
    {
      var normalized := Normalize(len, index);
      if normalized.None? {
        return None;
      }
      if normalized.value < len / 2 {
        r := WalkForward(normalized.value);
      } else {
        r := WalkBackward(normalized.value);
      }
    }

    /** `lp_set` in the node at `k`, and what follows every change of a node. */
    method SetIn(node: Pointer, index: nat, element: Bytes, ghost k: nat)
      requires Valid() && k < |spine| && spine[k] == node && index < |parts[k]| && Element(element)
      modifies this
      ensures Valid() && StartOf(old(parts), k) + index < |old(Contents())|
      ensures Contents() == old(Contents())[StartOf(old(parts), k) + index := element]
      ensures parts == MergedAround(old(parts)[k := old(parts)[k][index := element]], k, fill)
    {
      var entries := Decode(node, k);
      FlattenSet(parts, k, index, element);
      assert Sized(parts[k], fill);
      Encode(node, entries[index := element], k);
      SplitIfNeeded(node, k);
      CleanupAfterMutation(node, k);
    }

    /** The node that holds a position, and the number of elements before it; no node past the end. */
    method Locate(normalized: nat) returns (node: Pointer, traversed: nat, ghost k: nat)
      requires Valid()
      ensures node == NULL <==> normalized >= |Contents()|
      ensures node != NULL ==> k < |spine| && spine[k] == node
      ensures node != NULL ==> traversed == StartOf(parts, k) <= normalized < traversed + |parts[k]|
    {
      traversed, node, k := 0, head, 0;
      while node != NULL
        invariant k <= |spine| && node == Behind(spine, k - 1)
        invariant traversed == StartOf(parts, k) <= normalized
        decreases |spine| - k
      {
        EndReached(memory, spine, k, node);
        LinksStay(memory, spine, k);
        assert StoredAt(memory, spine, parts, k);
        NthInPart(parts, k, normalized);
        var count := memory[node].count;
        if normalized < traversed + count {
          StartOfNext(parts, k);
          return;
        }
        traversed, node, k := traversed + count, memory[node].next, k + 1;
      }
      EndReached(memory, spine, k, node);
      assert parts[..k] == parts;
    }

    /** Replace the element at a position; false when there is none. */
    method SetAt(normalized: nat, element: Bytes) returns (done: bool)
      requires Valid() && Element(element)
      modifies this
      ensures Valid() && done == (normalized < |old(Contents())|)
      ensures Contents() == if done then old(Contents())[normalized := element] else old(Contents())
    {
      var node, traversed; ghost var k;
      node, traversed, k := Locate(normalized);
      if node == NULL {
        return false;
      }
      SetIn(node, normalized - traversed, element, k);
      return true;
    }

    method SetIndex(index: int, element: Bytes) returns (done: bool)
      requires Valid() && Element(element)
      modifies this
      ensures Valid()
      ensures done <==> -|old(Contents())| <= index < |old(Contents())|
      ensures done ==> Contents() == old(Contents())[if index < 0 then |old(Contents())| + index else index := element]
      ensures !done ==> Contents() == old(Contents())
    {
      var normalized := Normalize(len, index);
      if normalized.None? {
        return false;
      }
      done := SetAt(normalized.value, element);
    }

    /** Free every node. */
    method Clear()
      requires Valid()
      modifies this
      ensures Valid() && Contents() == []
    {
      var node := head;
      ghost var k: nat := 0;
      while node != NULL
        invariant k <= |spine| && node == Behind(spine, k - 1)
        invariant spine == old(spine) && len == old(len)
        invariant Released(old(memory), memory, spine, k)
        decreases |spine| - k
      {
        EndReached(old(memory), spine, k, node);
        ReleasedNext(old(memory), memory, spine, k);
        var next := memory[node].next;
        memory := memory - {node};
        node, k := next, k + 1;
      }
      EndReached(old(memory), spine, k, node);
      AllReleased(old(memory), memory, spine);
      head, tail, nodeCount, len := NULL, NULL, 0, 0;
      spine, parts := [], [];
    }

    method Collect(first: nat, last: nat) returns (kept: seq<Bytes>)
      requires Valid() && first <= last < |Contents()|
      ensures kept == Contents()[first..last + 1]
    {
      kept := [];
      for i := first to last + 1
        invariant kept == Contents()[first..i]
      {
        var value := Index(i);
        if value.Some? {
          kept := kept + [value.value];
        }
      }
    }

    /** Keep only the elements of a range. */
    method Trim(start: int, stop: int) returns (ghost from: nat, ghost upto: nat)
      requires Valid()
      modifies this
      ensures Valid()
      ensures from <= upto <= |old(Contents())| && Contents() == old(Contents())[from..upto]
      ensures forall i: nat | i < |old(Contents())| :: AskedFor(|old(Contents())|, start, stop, i) <==> from <= i < upto
    {
      var range := NormalizeRange(len, start, stop);
      from, upto := if range.None? then 0 else range.value.0, if range.None? then 0 else range.value.1 + 1;
      forall i: nat | i < len ensures AskedFor(len, start, stop, i) <==> from <= i < upto {
        RangeMeaning(len, start, stop, i);
      }
      if range.None? {
        Clear();
        return;
      }
      var (first, last) := range.value;
      ElementsOfParts(memory, spine, parts);
      var kept := Collect(first, last);
      Clear();
      for i := 0 to |kept|
        invariant Valid() && Contents() == kept[..i]
      {
        assert kept[..i + 1] == kept[..i] + [kept[i]];
        PushBack(kept[i]);
      }
    }
  }
}
