/**
 The nodes of a quicklist (senko-core/src/list.rs): the bytes of one node, the flat sequence
 that a list of nodes stands for, and the memory in which the nodes are linked.  The source
 links nodes by raw pointers and frees them by hand, so memory is a map from addresses to
 nodes here, and a chain says which addresses are allocated.
 */
module NodeChain {
  import opened Common
  import opened Listpack

  /** Elements that a node can hold (Listpack.EntryBoundIff). */
  predicate Element(e: Bytes) {
    |e| <= 249
  }

  predicate Elements(entries: seq<Bytes>) {
    forall i | 0 <= i < |entries| :: Element(entries[i])
  }

  // ----- one node's bytes -----

  method EncodeNodeEntries(entries: seq<Bytes>) returns (data: Bytes)
    ensures data == EncodeEntries(entries, 0)
  {
    data := [];
    var prevLen := 0;
    for k := 0 to |entries|
      invariant prevLen >= 0
      invariant EncodeEntries(entries, 0) == data + EncodeEntries(entries[k..], prevLen)
    {
      var encoded := EncodeEntry(entries[k], prevLen);
      assert entries[k..][1..] == entries[k + 1..];
      Assoc(data, encoded, EncodeEntries(entries[k + 1..], |encoded|));
      prevLen := |encoded|;
      data := data + encoded;
    }
  }

  /** Names a pair of positions: a quantifier over `Pair` is used only where it is asked for. */
  ghost predicate Pair(i: int, j: int) {
    true
  }

  function Nth(s: seq<Bytes>, i: nat): Option<Bytes> {
    if i < |s| then Some(s[i]) else None
  }

  /** What a decoder finds from `offset` on. */
  function Entries(decode: nat -> Option<(Bytes, nat)>, offset: nat, count: nat): seq<Bytes>
    decreases count
  {
    if count == 0 then []
    else
      match decode(offset)
      case None => []
      case Some((payload, next)) => [payload] + Entries(decode, next, count - 1)
  }

  ghost predicate ReadsFrom(decode: nat -> Option<(Bytes, nat)>, data: Bytes) {
    forall o: nat {:trigger Pair(o, o)} :: decode(o) == DecodeEntryAt(data, o)
  }

  lemma {:induction false} EntriesStep(decode: nat -> Option<(Bytes, nat)>, data: Bytes, offset: nat, count: nat, d: Option<(Bytes, nat)>)
    requires count > 0 && decode(offset) == d == DecodeEntryAt(data, offset)
    requires d.Some? ==> Entries(decode, d.value.1, count - 1) == DecodeEntries(data, d.value.1, count - 1)
    ensures Entries(decode, offset, count) == DecodeEntries(data, offset, count)
  {
  }

  lemma {:induction false} EntriesOfData(decode: nat -> Option<(Bytes, nat)>, data: Bytes, offset: nat, count: nat)
    requires ReadsFrom(decode, data)
    ensures Entries(decode, offset, count) == DecodeEntries(data, offset, count)
    decreases count
  {
    if count > 0 {
      var d := decode(offset);
      assert Pair(offset, offset);
      if d.Some? {
        EntriesOfData(decode, data, d.value.1, count - 1);
      }
      EntriesStep(decode, data, offset, count, d);
    }
  }

  /** The loop of `lp_get`: entry by entry to the one at `index`. */
  method Walk(decode: nat -> Option<(Bytes, nat)>, count: nat, index: nat) returns (r: Option<Bytes>)
    ensures r == Nth(Entries(decode, 0, count), index)
  {
    var offset: nat, current: nat := 0, 0;
    while current < count
      invariant current <= count && current <= index
      invariant Nth(Entries(decode, 0, count), index) == Nth(Entries(decode, offset, count - current), index - current)
      decreases count - current
    {
      var decoded := decode(offset);
      if decoded.None? {
        return None;
      }
      if current == index {
        return Some(decoded.value.0);
      }
      offset, current := decoded.value.1, current + 1;
    }
    return None;
  }

  method LpGet(data: Bytes, count: nat, index: nat) returns (r: Option<Bytes>)
    ensures r == Nth(DecodeEntries(data, 0, count), index)
  {
    var decode := (o: nat) => DecodeEntryAt(data, o);
    EntriesOfData(decode, data, 0, count);
    r := Walk(decode, count, index);
  }

  /** A node as it lies in memory; the links are addresses. */
  datatype Node = Node(data: Bytes, count: nat, prev: Pointer, next: Pointer)

  type Pointer = nat

  const NULL: Pointer := 0

  /** The nodes that are allocated. */
  type Memory = map<Pointer, Node>

  /** The bytes and the sixteen-bit count describe `part`. */
  ghost predicate Describes(node: Node, part: seq<Bytes>) {
    Elements(part) && |part| < U16 && node.data == EncodeEntries(part, 0) && node.count == |part|
  }

  function DecodeAll(node: Node): seq<Bytes> {
    DecodeEntries(node.data, 0, node.count)
  }

  lemma {:induction false} DecodesPart(node: Node, part: seq<Bytes>)
    requires Describes(node, part)
    ensures DecodeAll(node) == part
  {
    NodeRoundTrip(part);
  }

  // ----- flat sequences -----

  function Flatten(parts: seq<seq<Bytes>>): seq<Bytes> {
    if parts == [] then [] else parts[0] + Flatten(parts[1..])
  }

  lemma {:induction false} FlattenConcat(a: seq<seq<Bytes>>, b: seq<seq<Bytes>>)
    ensures Flatten(a + b) == Flatten(a) + Flatten(b)
    decreases |a|
  {
    if a == [] {
      assert a + b == b;
    } else {
      assert (a + b)[1..] == a[1..] + b;
      FlattenConcat(a[1..], b);
      Assoc(a[0], Flatten(a[1..]), Flatten(b));
    }
  }

  /** What a run of parts flattens to, whatever stands around it. */
  lemma {:induction false} FlattenReplace(parts: seq<seq<Bytes>>, i: nat, j: nat, middle: seq<seq<Bytes>>)
    requires i <= j <= |parts|
    ensures Flatten(parts) == Flatten(parts[..i]) + (Flatten(parts[i..j]) + Flatten(parts[j..]))
    ensures Flatten(parts[..i] + middle + parts[j..]) == Flatten(parts[..i]) + (Flatten(middle) + Flatten(parts[j..]))
  {
    assert parts == parts[..i] + (parts[i..j] + parts[j..]);
    FlattenConcat(parts[..i], parts[i..j] + parts[j..]);
    FlattenConcat(parts[i..j], parts[j..]);
    assert parts[..i] + middle + parts[j..] == parts[..i] + (middle + parts[j..]);
    FlattenConcat(parts[..i], middle + parts[j..]);
    FlattenConcat(middle, parts[j..]);
  }

  lemma {:induction false} FlattenOne(part: seq<Bytes>)
    ensures Flatten([part]) == part
  {
    assert [part][1..] == [];
  }

  lemma {:induction false} FlattenTwo(a: seq<Bytes>, b: seq<Bytes>)
    ensures Flatten([a, b]) == a + b
  {
    assert [a, b][1..] == [b];
    FlattenOne(b);
  }

  /** Where the elements of part `k` start. */
  function StartOf(parts: seq<seq<Bytes>>, k: nat): nat
    requires k <= |parts|
  {
    |Flatten(parts[..k])|
  }

  lemma {:induction false} StartOfNext(parts: seq<seq<Bytes>>, k: nat)
    requires k < |parts|
    ensures StartOf(parts, k + 1) == StartOf(parts, k) + |parts[k]|
    ensures StartOf(parts, k + 1) <= |Flatten(parts)|
    ensures forall j | 0 <= j < |parts[k]| :: Flatten(parts)[StartOf(parts, k) + j] == parts[k][j]
  {
    FlattenReplace(parts, k, k + 1, []);
    assert parts[k..k + 1] == [parts[k]];
    FlattenOne(parts[k]);
    assert parts[..k + 1] == parts[..k] + [parts[k]];
    FlattenConcat(parts[..k], [parts[k]]);
  }

  lemma {:induction false} NthInPart(parts: seq<seq<Bytes>>, k: nat, index: nat)
    requires k < |parts|
    ensures StartOf(parts, k + 1) == StartOf(parts, k) + |parts[k]|
    ensures StartOf(parts, k) <= index < StartOf(parts, k + 1) ==>
              Nth(Flatten(parts), index) == Nth(parts[k], index - StartOf(parts, k))
    ensures k + 1 == |parts| && index >= StartOf(parts, k) ==>
              Nth(Flatten(parts), index) == Nth(parts[k], index - StartOf(parts, k))
  {
    StartOfNext(parts, k);
    if StartOf(parts, k) <= index < StartOf(parts, k + 1) {
      assert Flatten(parts)[StartOf(parts, k) + (index - StartOf(parts, k))] == parts[k][index - StartOf(parts, k)];
    }
    if k + 1 == |parts| {
      assert parts[..k + 1] == parts;
    }
  }

  /** Negative positions count from the end. */
  function Resolve(len: nat, index: int): int {
    if index < 0 then len + index else index
  }

  /** `normalize_index` */
  function Normalize(len: nat, index: int): (r: Option<nat>)
    ensures forall n: nat :: r == Some(n) <==> n < len && (index == n || index == n - len)
  {
    var i := Resolve(len, index);
    if 0 <= i < len then Some(i) else None
  }

  /** `normalize_range`: first and last position that are left after clamping. */
  function NormalizeRange(len: nat, start: int, stop: int): (r: Option<(nat, nat)>)
    ensures r.Some? ==> r.value.0 <= r.value.1 < len
  {
    if len == 0 then None
    else
      var a := Resolve(len, start);
      var b := Resolve(len, stop);
      var a' := if a < 0 then 0 else a;
      var b' := if b >= len then len - 1 else b;
      if a' > b' || a' >= len then None else Some((a', b'))
  }

  /** The range holds exactly the positions between the two ends, however they are given. */
  lemma {:induction false} RangeMeaning(len: nat, start: int, stop: int, n: nat)
    requires n < len
    ensures var r := NormalizeRange(len, start, stop);
            Resolve(len, start) <= n <= Resolve(len, stop) <==> r.Some? && r.value.0 <= n <= r.value.1
  {
  }

  /** Position `i` lies between the two ends, each counted from behind when negative. */
  ghost predicate AskedFor(len: nat, start: int, stop: int, i: nat) {
    (if start < 0 then len + start else start) <= i <= if stop < 0 then len + stop else stop
  }

  // ----- the list -----

  ghost predicate Sized(part: seq<Bytes>, fill: nat) {
    1 <= |part| <= fill
  }

  /** Every node but perhaps the one at `i` holds between one and `fill` entries. */
  ghost predicate SizedExcept(parts: seq<seq<Bytes>>, i: int, fill: nat) {
    forall k | 0 <= k < |parts| && k != i :: Sized(parts[k], fill)
  }

  /** `s` with the items from `i` up to `j` replaced by `middle`. */
  function Splice<T>(s: seq<T>, i: nat, j: nat, middle: seq<T>): seq<T>
    requires i <= j <= |s|
  {
    s[..i] + middle + s[j..]
  }

  /** The nodes after node `i` took in the next one, which it does when both together are at most half full. */
  ghost function MergedAt(parts: seq<seq<Bytes>>, i: nat, fill: nat): seq<seq<Bytes>> {
    if i + 1 < |parts| && |parts[i]| + |parts[i + 1]| <= fill / 2
    then parts[..i] + [parts[i] + parts[i + 1]] + parts[i + 2..] else parts
  }

  /** First the node takes in the next one, then the one before it takes in the node. */
  ghost function MergedAround(parts: seq<seq<Bytes>>, i: nat, fill: nat): seq<seq<Bytes>> {
    var merged := MergedAt(parts, i, fill);
    if i > 0 then MergedAt(merged, i - 1, fill) else merged
  }

  /** The nodes after a change of node `i`: an empty node is gone, any other is merged with its neighbours. */
  ghost function CleanedUp(parts: seq<seq<Bytes>>, i: nat, fill: nat): seq<seq<Bytes>>
    requires i < |parts|
  {
    if parts[i] == [] then parts[..i] + parts[i + 1..] else MergedAround(parts, i, fill)
  }

  /** The nodes after node `i` was cut in half, which it is when it has outgrown `fill`. */
  ghost function SplitAt(parts: seq<seq<Bytes>>, i: nat, fill: nat): seq<seq<Bytes>>
    requires i < |parts|
  {
    var half := |parts[i]| / 2;
    if |parts[i]| <= fill then parts else parts[..i] + [parts[i][..half], parts[i][half..]] + parts[i + 1..]
  }

  lemma {:induction false} SpliceFlattens(parts: seq<seq<Bytes>>, i: nat, j: nat, middle: seq<seq<Bytes>>)
    requires i <= j <= |parts| && Flatten(middle) == Flatten(parts[i..j])
    ensures Flatten(Splice(parts, i, j, middle)) == Flatten(parts)
  {
    FlattenReplace(parts, i, j, middle);
  }

  /** Exchange one part: what stands before and behind it stays. */
  lemma {:induction false} Around(parts: seq<seq<Bytes>>, i: nat, part: seq<Bytes>) returns (pre: seq<Bytes>, post: seq<Bytes>)
    requires i < |parts|
    ensures Flatten(parts) == pre + (parts[i] + post) && |pre| == StartOf(parts, i)
    ensures Flatten(parts[i := part]) == pre + (part + post)
    ensures (i == 0 ==> pre == []) && (i == |parts| - 1 ==> post == [])
  {
    pre, post := Flatten(parts[..i]), Flatten(parts[i + 1..]);
    FlattenReplace(parts, i, i + 1, [part]);
    assert parts[i..i + 1] == [parts[i]];
    FlattenOne(parts[i]);
    FlattenOne(part);
    assert parts[i := part] == parts[..i] + [part] + parts[i + 1..];
  }

  lemma {:induction false} FlattenPushBack(parts: seq<seq<Bytes>>, e: Bytes)
    requires parts != []
    ensures Flatten(parts[|parts| - 1 := parts[|parts| - 1] + [e]]) == Flatten(parts) + [e]
  {
    var pre, post := Around(parts, |parts| - 1, parts[|parts| - 1] + [e]);
  }

  lemma {:induction false} FlattenPushFront(parts: seq<seq<Bytes>>, e: Bytes)
    requires parts != []
    ensures Flatten(parts[0 := [e] + parts[0]]) == [e] + Flatten(parts)
  {
    var pre, post := Around(parts, 0, [e] + parts[0]);
  }

  lemma {:induction false} FlattenPopFront(parts: seq<seq<Bytes>>)
    requires parts != [] && parts[0] != []
    ensures Flatten(parts) == [parts[0][0]] + Flatten(parts[0 := parts[0][1..]])
  {
    var pre, post := Around(parts, 0, parts[0][1..]);
  }

  lemma {:induction false} FlattenPopBack(parts: seq<seq<Bytes>>, last: seq<Bytes>)
    requires parts != [] && last == parts[|parts| - 1] && last != []
    ensures Flatten(parts) == Flatten(parts[|parts| - 1 := last[..|last| - 1]]) + [last[|last| - 1]]
  {
    var pre, post := Around(parts, |parts| - 1, last[..|last| - 1]);
  }

  lemma {:induction false} FlattenSet(parts: seq<seq<Bytes>>, i: nat, j: nat, e: Bytes)
    requires i < |parts| && j < |parts[i]|
    ensures StartOf(parts, i) + j < |Flatten(parts)|
    ensures Flatten(parts[i := parts[i][j := e]]) == Flatten(parts)[StartOf(parts, i) + j := e]
  {
    var pre, post := Around(parts, i, parts[i][j := e]);
  }

  lemma {:induction false} HalvesFlatten(parts: seq<seq<Bytes>>, i: nat, left: seq<Bytes>, right: seq<Bytes>, fill: nat)
    requires i < |parts| && parts[i] == left + right && Sized(left, fill) && Sized(right, fill)
    requires SizedExcept(parts, i, fill)
    ensures var cut := Splice(parts[i := left], i + 1, i + 1, [right]);
            Flatten(cut) == Flatten(parts) && SizedExcept(cut, -1, fill)
  {
    var cut := Splice(parts[i := left], i + 1, i + 1, [right]);
    assert cut == Splice(parts, i, i + 1, [left, right]);
    FlattenTwo(left, right);
    FlattenOne(parts[i]);
    assert parts[i..i + 1] == [parts[i]];
    SpliceFlattens(parts, i, i + 1, [left, right]);
    SizedSplice(parts, i, i + 1, [left, right], fill);
  }

  lemma {:induction false} MergedFlatten(parts: seq<seq<Bytes>>, i: nat, fill: nat)
    requires i + 1 < |parts| && |parts[i] + parts[i + 1]| <= fill && SizedExcept(parts, -1, fill)
    ensures var merged := parts[..i] + [parts[i] + parts[i + 1]] + parts[i + 2..];
            Flatten(merged) == Flatten(parts) && SizedExcept(merged, -1, fill)
  {
    var one := parts[i] + parts[i + 1];
    FlattenTwo(parts[i], parts[i + 1]);
    FlattenOne(one);
    assert parts[i..i + 2] == [parts[i], parts[i + 1]];
    SpliceFlattens(parts, i, i + 2, [one]);
    assert Sized(parts[i], fill);
    SizedSplice(parts, i, i + 2, [one], fill);
  }

  lemma {:induction false} EmptyFlatten(parts: seq<seq<Bytes>>, i: nat, fill: nat)
    requires i < |parts| && parts[i] == [] && SizedExcept(parts, i, fill)
    ensures var rest := Splice(parts, i, i + 1, []);
            Flatten(rest) == Flatten(parts) && SizedExcept(rest, -1, fill)
  {
    assert parts[i..i + 1] == [parts[i]];
    FlattenOne(parts[i]);
    SpliceFlattens(parts, i, i + 1, []);
    SizedSplice(parts, i, i + 1, [], fill);
  }

  lemma {:induction false} SizedSplice(parts: seq<seq<Bytes>>, i: nat, j: nat, middle: seq<seq<Bytes>>, fill: nat)
    requires i <= j <= |parts|
    requires forall k | 0 <= k < |parts| && !(i <= k < j) :: Sized(parts[k], fill)
    requires forall k | 0 <= k < |middle| :: Sized(middle[k], fill)
    ensures SizedExcept(Splice(parts, i, j, middle), -1, fill)
  {
    var all := Splice(parts, i, j, middle);
    forall k | 0 <= k < |all| ensures Sized(all[k], fill) {
      if k >= i + |middle| {
        assert all[k] == parts[k - |middle| - i + j];
      }
    }
  }

  // ----- the chain of nodes -----

  ghost predicate Distinct(s: seq<Pointer>) {
    forall i, j {:trigger Pair(i, j)} | 0 <= i < j < |s| :: s[i] != s[j]
  }

  lemma {:induction false} Apart(s: seq<Pointer>, i: nat, j: nat)
    requires Distinct(s) && i < |s| && j < |s| && i != j
    ensures s[i] != s[j]
  {
    assert Pair(i, j) && Pair(j, i);
  }

  ghost function Before(spine: seq<Pointer>, i: int): Pointer {
    if 0 < i <= |spine| then spine[i - 1] else NULL
  }

  ghost function Behind(spine: seq<Pointer>, i: int): Pointer {
    if 0 <= i + 1 < |spine| then spine[i + 1] else NULL
  }

  ghost predicate LinkedAt(memory: Memory, spine: seq<Pointer>, k: nat)
    requires k < |spine|
  {
    && spine[k] != NULL && spine[k] in memory
    && memory[spine[k]].prev == Before(spine, k) && memory[spine[k]].next == Behind(spine, k)
  }

  /** The allocated nodes are those of the spine, linked in its order. */
  ghost predicate Chain(memory: Memory, spine: seq<Pointer>) {
    && Distinct(spine)
    && (forall k: nat | k < |spine| :: LinkedAt(memory, spine, k))
    && memory.Keys == Addresses(spine)
  }

  ghost function Addresses(spine: seq<Pointer>): set<Pointer> {
    set k | 0 <= k < |spine| :: spine[k]
  }

  lemma {:induction false} LinksStay(memory: Memory, spine: seq<Pointer>, i: nat)
    requires Chain(memory, spine) && i < |spine|
    ensures spine[i] in memory && spine[i] != NULL
    ensures memory[spine[i]].next == Behind(spine, i) && memory[spine[i]].prev == Before(spine, i)
    ensures Behind(spine, i) == NULL || Behind(spine, i) in memory
    ensures Before(spine, i) == NULL || Before(spine, i) in memory
    ensures i + 1 < |spine| ==> Behind(spine, i) != NULL
    ensures i > 0 ==> Before(spine, i) != NULL
  {
    assert LinkedAt(memory, spine, i);
    if i + 1 < |spine| {
      assert LinkedAt(memory, spine, i + 1);
    }
    if i > 0 {
      assert LinkedAt(memory, spine, i - 1);
    }
  }

  /** The new node's links, then the neighbour's and the anchor's. */
  function LinkBehind(memory: Memory, anchor: Pointer, p: Pointer, node: Node): Memory
    requires anchor in memory && p !in memory
    requires memory[anchor].next == NULL || memory[anchor].next in memory
  {
    var next := memory[anchor].next;
    var m := memory[p := node.(prev := anchor, next := next)];
    var m' := if next != NULL then m[next := m[next].(prev := p)] else m;
    m'[anchor := m'[anchor].(next := p)]
  }

  lemma {:induction false} LinkBehindAt(memory: Memory, spine: seq<Pointer>, i: nat, p: Pointer, node: Node, k: nat)
    requires Chain(memory, spine) && i < |spine| && p !in memory && p != NULL && k <= |spine|
    ensures spine[i] in memory && (memory[spine[i]].next == NULL || memory[spine[i]].next in memory)
    ensures LinkedAt(LinkBehind(memory, spine[i], p, node), Splice(spine, i + 1, i + 1, [p]), k)
  {
    LinksStay(memory, spine, i);
    if k != i + 1 {
      var o := if k <= i then k else k - 1;
      LinksStay(memory, spine, o);
      if o != i {
        Apart(spine, o, i);
      }
      if o != i + 1 && i + 1 < |spine| {
        Apart(spine, o, i + 1);
      }
    }
  }

  lemma {:induction false} DistinctInsert(s: seq<Pointer>, i: nat, x: Pointer)
    requires Distinct(s) && i <= |s| && x !in s
    ensures Distinct(Splice(s, i, i, [x]))
  {
    var t := Splice(s, i, i, [x]);
    forall a, b | 0 <= a < b < |t| ensures t[a] != t[b] {
      if a != i && b != i {
        Apart(s, if a < i then a else a - 1, if b < i then b else b - 1);
      }
    }
  }

  lemma {:induction false} LinkBehindChains(memory: Memory, spine: seq<Pointer>, i: nat, p: Pointer, node: Node)
    requires Chain(memory, spine) && i < |spine| && p !in memory && p != NULL
    ensures spine[i] in memory && (memory[spine[i]].next == NULL || memory[spine[i]].next in memory)
    ensures Chain(LinkBehind(memory, spine[i], p, node), Splice(spine, i + 1, i + 1, [p]))
  {
    LinksStay(memory, spine, i);
    var spine' := Splice(spine, i + 1, i + 1, [p]);
    forall k: nat | k < |spine'| ensures LinkedAt(LinkBehind(memory, spine[i], p, node), spine', k) {
      LinkBehindAt(memory, spine, i, p, node, k);
    }
    DistinctInsert(spine, i + 1, p);
    AddressesInsert(spine, i + 1, p);
  }

  lemma {:induction false} AddressesInsert(spine: seq<Pointer>, i: nat, p: Pointer)
    requires i <= |spine|
    ensures Addresses(Splice(spine, i, i, [p])) == Addresses(spine) + {p}
  {
    var t := Splice(spine, i, i, [p]);
    assert t[i] == p;
    forall k | 0 <= k < |spine| ensures spine[k] in Addresses(t) {
      assert t[if k < i then k else k + 1] == spine[k];
    }
  }

  /** Past the node on both sides; the node itself is freed. */
  function Unlink(memory: Memory, node: Pointer): Memory
    requires node in memory
    requires memory[node].next == NULL || memory[node].next in memory
    requires memory[node].prev == NULL || memory[node].prev in memory
  {
    var prev, next := memory[node].prev, memory[node].next;
    var m := if prev != NULL then memory[prev := memory[prev].(next := next)] else memory;
    var m' := if next != NULL then m[next := m[next].(prev := prev)] else m;
    m' - {node}
  }

  lemma {:induction false} UnlinkAt(memory: Memory, spine: seq<Pointer>, i: nat, k: nat)
    requires Chain(memory, spine) && i < |spine| && k < |spine| - 1
    ensures spine[i] in memory && Unlink.requires(memory, spine[i])
    ensures LinkedAt(Unlink(memory, spine[i]), Splice(spine, i, i + 1, []), k)
  {
    LinksStay(memory, spine, i);
    var o := if k < i then k else k + 1;
    LinksStay(memory, spine, o);
    Apart(spine, o, i);
    if o != i + 1 && i + 1 < |spine| {
      Apart(spine, o, i + 1);
    }
    if i > 0 && o != i - 1 {
      Apart(spine, o, i - 1);
    }
  }

  lemma {:induction false} DistinctRemove(s: seq<Pointer>, i: nat)
    requires Distinct(s) && i < |s|
    ensures Distinct(Splice(s, i, i + 1, [])) && s[i] !in Splice(s, i, i + 1, [])
  {
    var t := Splice(s, i, i + 1, []);
    forall a, b | 0 <= a < b < |t| ensures t[a] != t[b] {
      Apart(s, if a < i then a else a + 1, if b < i then b else b + 1);
    }
    forall a | 0 <= a < |t| ensures t[a] != s[i] {
      Apart(s, if a < i then a else a + 1, i);
    }
  }

  lemma {:induction false} AddressesRemove(spine: seq<Pointer>, i: nat)
    requires Distinct(spine) && i < |spine|
    ensures Addresses(Splice(spine, i, i + 1, [])) == Addresses(spine) - {spine[i]}
  {
    var t := Splice(spine, i, i + 1, []);
    DistinctRemove(spine, i);
    forall k | 0 <= k < |spine| && k != i ensures spine[k] in Addresses(t) {
      assert t[if k < i then k else k - 1] == spine[k];
    }
    forall k | 0 <= k < |t| ensures t[k] in Addresses(spine) {
      assert t[k] == spine[if k < i then k else k + 1];
    }
  }

  lemma {:induction false} UnlinkChains(memory: Memory, spine: seq<Pointer>, i: nat)
    requires Chain(memory, spine) && i < |spine|
    ensures spine[i] in memory && Unlink.requires(memory, spine[i])
    ensures Chain(Unlink(memory, spine[i]), Splice(spine, i, i + 1, []))
  {
    LinksStay(memory, spine, i);
    var spine' := Splice(spine, i, i + 1, []);
    forall k: nat | k < |spine'| ensures LinkedAt(Unlink(memory, spine[i]), spine', k) {
      UnlinkAt(memory, spine, i, k);
    }
    DistinctRemove(spine, i);
    AddressesRemove(spine, i);
  }

  // ----- what the nodes hold -----

  ghost predicate StoredAt(memory: Memory, spine: seq<Pointer>, parts: seq<seq<Bytes>>, k: nat)
    requires k < |spine| == |parts|
  {
    spine[k] in memory && Describes(memory[spine[k]], parts[k])
  }

  ghost predicate Stored(memory: Memory, spine: seq<Pointer>, parts: seq<seq<Bytes>>) {
    |spine| == |parts| && forall k: nat | k < |spine| :: StoredAt(memory, spine, parts, k)
  }

  lemma {:induction false} RewriteKeeps(memory: Memory, spine: seq<Pointer>, parts: seq<seq<Bytes>>, i: nat, node: Node, part: seq<Bytes>)
    requires Chain(memory, spine) && Stored(memory, spine, parts) && i < |spine| && Describes(node, part)
    requires spine[i] in memory && node.prev == memory[spine[i]].prev && node.next == memory[spine[i]].next
    ensures Chain(memory[spine[i] := node], spine)
    ensures Stored(memory[spine[i] := node], spine, parts[i := part])
  {
    var memory' := memory[spine[i] := node];
    forall k: nat | k < |spine| ensures LinkedAt(memory', spine, k) {
      assert LinkedAt(memory, spine, k);
    }
    var parts' := parts[i := part];
    forall k: nat | k < |spine| ensures StoredAt(memory', spine, parts', k) {
      assert StoredAt(memory, spine, parts, k);
      if k != i {
        Apart(spine, i, k);
      }
    }
    assert memory'.Keys == memory.Keys;
  }

  lemma {:induction false} LinkBehindData(memory: Memory, anchor: Pointer, p: Pointer, node: Node, part: seq<Bytes>, q: Pointer)
    requires LinkBehind.requires(memory, anchor, p, node)
    ensures Describes(node, part) ==> Describes(LinkBehind(memory, anchor, p, node)[p], part)
    ensures q in memory && Describes(memory[q], part) ==> Describes(LinkBehind(memory, anchor, p, node)[q], part)
  {
  }

  lemma {:induction false} LinkBehindStores(memory: Memory, spine: seq<Pointer>, parts: seq<seq<Bytes>>, i: nat,
                         p: Pointer, node: Node, part: seq<Bytes>)
    requires Stored(memory, spine, parts) && i < |spine|
    requires LinkBehind.requires(memory, spine[i], p, node) && Describes(node, part)
    ensures Stored(LinkBehind(memory, spine[i], p, node),
                   Splice(spine, i + 1, i + 1, [p]), Splice(parts, i + 1, i + 1, [part]))
  {
    var memory' := LinkBehind(memory, spine[i], p, node);
    var spine', parts' := Splice(spine, i + 1, i + 1, [p]), Splice(parts, i + 1, i + 1, [part]);
    forall k: nat | k < |spine'| ensures StoredAt(memory', spine', parts', k) {
      SplicedAt(spine, i, p, k);
      SplicedAt(parts, i, part, k);
      if k == i + 1 {
        LinkBehindData(memory, spine[i], p, node, part, p);
      } else {
        var o := if k <= i then k else k - 1;
        assert StoredAt(memory, spine, parts, o);
        LinkBehindData(memory, spine[i], p, node, parts[o], spine[o]);
      }
    }
  }

  lemma {:induction false} SplicedAt<T>(s: seq<T>, i: nat, x: T, k: nat)
    requires i < |s| && k <= |s|
    ensures |Splice(s, i + 1, i + 1, [x])| == |s| + 1
    ensures Splice(s, i + 1, i + 1, [x])[k] == if k <= i then s[k] else if k == i + 1 then x else s[k - 1]
  {
  }

  lemma {:induction false} UnlinkData(memory: Memory, node: Pointer, part: seq<Bytes>, q: Pointer)
    requires node in memory && Unlink.requires(memory, node)
    ensures q in memory && q != node && Describes(memory[q], part) ==>
            q in Unlink(memory, node) && Describes(Unlink(memory, node)[q], part)
  {
  }

  lemma {:induction false} UnlinkStores(memory: Memory, spine: seq<Pointer>, parts: seq<seq<Bytes>>, i: nat)
    requires Chain(memory, spine) && Stored(memory, spine, parts) && i < |spine|
    requires spine[i] in memory && Unlink.requires(memory, spine[i])
    ensures Stored(Unlink(memory, spine[i]), Splice(spine, i, i + 1, []), Splice(parts, i, i + 1, []))
  {
    var memory' := Unlink(memory, spine[i]);
    var spine', parts' := Splice(spine, i, i + 1, []), Splice(parts, i, i + 1, []);
    forall k: nat | k < |spine'| ensures StoredAt(memory', spine', parts', k) {
      var o := if k < i then k else k + 1;
      Apart(spine, o, i);
      assert StoredAt(memory, spine, parts, o);
      UnlinkData(memory, spine[i], parts[o], spine[o]);
    }
  }

  /** Ends, links, contents and allocation all follow spine and parts. */
  ghost predicate Shaped(memory: Memory, head: Pointer, tail: Pointer, spine: seq<Pointer>, parts: seq<seq<Bytes>>) {
    && Chain(memory, spine) && Stored(memory, spine, parts)
    && head == Behind(spine, -1) && tail == Before(spine, |spine|)
  }

  lemma {:induction false} LinkBehindShape(memory: Memory, head: Pointer, tail: Pointer, spine: seq<Pointer>, parts: seq<seq<Bytes>>,
                        i: nat, p: Pointer, node: Node, part: seq<Bytes>)
    requires Shaped(memory, head, tail, spine, parts)
    requires i < |spine| && p !in memory && p != NULL && Describes(node, part)
    ensures LinkBehind.requires(memory, spine[i], p, node)
    ensures Shaped(LinkBehind(memory, spine[i], p, node),
                   head, if memory[spine[i]].next == NULL then p else tail,
                   Splice(spine, i + 1, i + 1, [p]), Splice(parts, i + 1, i + 1, [part]))
  {
    LinkBehindChains(memory, spine, i, p, node);
    LinkBehindStores(memory, spine, parts, i, p, node, part);
    LinksStay(memory, spine, i);
  }

  lemma {:induction false} UnlinkShape(memory: Memory, head: Pointer, tail: Pointer, spine: seq<Pointer>, parts: seq<seq<Bytes>>, i: nat)
    requires Shaped(memory, head, tail, spine, parts) && i < |spine|
    ensures spine[i] in memory && Unlink.requires(memory, spine[i])
    ensures Shaped(Unlink(memory, spine[i]),
                   if memory[spine[i]].prev == NULL then memory[spine[i]].next else head,
                   if memory[spine[i]].next == NULL then memory[spine[i]].prev else tail,
                   Splice(spine, i, i + 1, []), Splice(parts, i, i + 1, []))
    ensures |spine| == 1 ==> memory[spine[i]].prev == memory[spine[i]].next == NULL
  {
    UnlinkChains(memory, spine, i);
    UnlinkStores(memory, spine, parts, i);
    LinksStay(memory, spine, i);
  }

  // ----- the list -----

  lemma {:induction false} FreshExists(taken: set<Pointer>) returns (p: Pointer)
    ensures p != NULL && p !in taken
  {
    var rest, top: Pointer := taken, 0;
    while rest != {}
      invariant rest <= taken && forall q | q in taken && q !in rest :: q <= top
      decreases rest
    {
      var q :| q in rest;
      rest, top := rest - {q}, if q > top then q else top;
    }
    p := top + 1;
  }

  lemma {:induction false} EmptyWhenNull(memory: Memory, spine: seq<Pointer>)
    requires Chain(memory, spine) && (Behind(spine, -1) == NULL || Before(spine, |spine|) == NULL)
    ensures spine == []
  {
    if spine != [] {
      LinksStay(memory, spine, 0);
      LinksStay(memory, spine, |spine| - 1);
    }
  }

  lemma {:induction false} EndsAreNodes(memory: Memory, spine: seq<Pointer>)
    requires Chain(memory, spine) && spine != []
    ensures Behind(spine, -1) == spine[0] && Before(spine, |spine|) == spine[|spine| - 1]
  {
  }

  /** Walking forward ends exactly behind the last node. */
  lemma {:induction false} EndReached(memory: Memory, spine: seq<Pointer>, k: nat, node: Pointer)
    requires Chain(memory, spine) && k <= |spine| && node == Behind(spine, k - 1)
    ensures node == NULL <==> k == |spine|
    ensures node != NULL ==> spine[k] == node
  {
    if k < |spine| {
      LinksStay(memory, spine, k);
    }
  }

  lemma {:induction false} StartReached(memory: Memory, spine: seq<Pointer>, k: nat, node: Pointer)
    requires Chain(memory, spine) && k <= |spine| && node == Before(spine, k)
    ensures node == NULL <==> k == 0
    ensures node != NULL ==> spine[k - 1] == node
  {
    if k > 0 {
      LinksStay(memory, spine, k - 1);
    }
  }

  /** The first `k` nodes are gone and the others as they were. */
  ghost predicate Released(before: Memory, memory: Memory, spine: seq<Pointer>, k: nat) {
    && k <= |spine| && memory.Keys == Addresses(spine[k..])
    && forall p | p in memory :: p in before && memory[p] == before[p]
  }

  lemma {:induction false} ReleasedNext(before: Memory, memory: Memory, spine: seq<Pointer>, k: nat)
    requires Chain(before, spine) && Released(before, memory, spine, k) && k < |spine|
    ensures spine[k] in memory && memory[spine[k]].next == Behind(spine, k)
    ensures Released(before, memory - {spine[k]}, spine, k + 1)
  {
    LinksStay(before, spine, k);
    SuffixAddresses(spine, k);
  }

  lemma {:induction false} SuffixAddresses(spine: seq<Pointer>, k: nat)
    requires Distinct(spine) && k < |spine|
    ensures spine[k] in Addresses(spine[k..])
    ensures Addresses(spine[k + 1..]) == Addresses(spine[k..]) - {spine[k]}
  {
    var rest := spine[k..];
    assert rest[0] == spine[k] && rest[0] in Addresses(rest);
    DistinctSuffix(spine, k);
    AddressesRemove(rest, 0);
    assert Splice(rest, 0, 1, []) == spine[k + 1..];
  }

  lemma {:induction false} DistinctSuffix(s: seq<Pointer>, k: nat)
    requires Distinct(s) && k <= |s|
    ensures Distinct(s[k..])
  {
    var rest := s[k..];
    forall a, b | 0 <= a < b < |rest| ensures rest[a] != rest[b] {
      Apart(s, a + k, b + k);
    }
  }

  lemma {:induction false} AllReleased(before: Memory, memory: Memory, spine: seq<Pointer>)
    requires Released(before, memory, spine, |spine|)
    ensures memory == map[]
  {
    assert spine[|spine|..] == [];
  }

  lemma {:induction false} FlattenElements(parts: seq<seq<Bytes>>)
    requires forall k | 0 <= k < |parts| :: Elements(parts[k])
    ensures Elements(Flatten(parts))
    decreases |parts|
  {
    if parts != [] {
      FlattenElements(parts[1..]);
    }
  }

  lemma {:induction false} ElementsOfParts(memory: Memory, spine: seq<Pointer>, parts: seq<seq<Bytes>>)
    requires Stored(memory, spine, parts)
    ensures Elements(Flatten(parts))
  {
    forall k | 0 <= k < |parts| ensures Elements(parts[k]) {
      assert StoredAt(memory, spine, parts, k);
    }
    FlattenElements(parts);
  }
}
