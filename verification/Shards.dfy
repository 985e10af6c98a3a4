/**
 Multi-key commands over shards (senko-net/src/connection.rs): the arguments are grouped by the
 home shard of their keys, each shard runs the command on its own group, and the replies are put
 together.  What a shard does with its group is the store's own command on a map
 (senko-store/src/commands/multi.rs and generic/keys.rs).  The simple view is one flat map.
 */
module Shards {
  import opened Common

  type Key = Bytes

  datatype Value = Str(bytes: Bytes) | Other(kind: nat)

  type Store = map<Key, Value>

  // ----- the commands of one store -----

  ghost predicate AllStrings(m: Store, keys: seq<Key>) {
    forall i | 0 <= i < |keys| && keys[i] in m :: m[keys[i]].Str?
  }

  function Answer(m: Store, key: Key): Option<Value> {
    if key in m then Some(m[key]) else None
  }

  /** `mget`: one answer per key, or an error when there is no key or a value is not a string. */
  method StoreMget(m: Store, keys: seq<Key>) returns (r: Option<seq<Option<Value>>>)
    ensures r.Some? <==> keys != [] && AllStrings(m, keys)
    ensures r.Some? ==> |r.value| == |keys| && forall i | 0 <= i < |keys| :: r.value[i] == Answer(m, keys[i])
  {
    if keys == [] {
      return None;
    }
    var out: seq<Option<Value>> := [];
    for i := 0 to |keys|
      invariant |out| == i && AllStrings(m, keys[..i])
      invariant forall j | 0 <= j < i :: out[j] == Answer(m, keys[j])
    {
      if keys[i] in m && m[keys[i]].Other? {
        return None;
      }
      out := out + [Answer(m, keys[i])];
    }
    assert keys[..|keys|] == keys;
    return Some(out);
  }

  /** Pair by pair, later ones over earlier ones. */
  function Assign(m: Store, args: seq<Bytes>): Store
    decreases |args|
  {
    if |args| < 2 then m else Assign(m[args[0] := Str(args[1])], args[2..])
  }

  /** `mset`: none when there is no argument or an odd number of them. */
  method StoreMset(m: Store, args: seq<Bytes>) returns (r: Option<Store>)
    ensures r == if args == [] || |args| % 2 != 0 then None else Some(Assign(m, args))
  {
    if args == [] || |args| % 2 != 0 {
      return None;
    }
    var store := m;
    var index := 0;
    while index < |args|
      invariant index <= |args| && index % 2 == 0
      invariant Assign(m, args) == Assign(store, args[index..])
    {
      assert args[index..][2..] == args[index + 2..];
      store := store[args[index] := Str(args[index + 1])];
      index := index + 2;
    }
    return Some(store);
  }

  /** What the last pair for a key assigns. */
  function LastFor(args: seq<Bytes>, key: Key): Option<Bytes>
    decreases |args|
  {
    if |args| < 2 then None
    else if LastFor(args[2..], key).Some? then LastFor(args[2..], key)
    else if args[0] == key then Some(args[1]) else None
  }

  /** The last write wins. */
  lemma {:induction false} AssignedValue(m: Store, args: seq<Bytes>, key: Key)
    ensures Answer(Assign(m, args), key) ==
            if LastFor(args, key).Some? then Some(Str(LastFor(args, key).value)) else Answer(m, key)
    decreases |args|
  {
    if |args| >= 2 {
      AssignedValue(m[args[0] := Str(args[1])], args[2..], key);
    }
  }

  /** Pair `j` of the arguments assigns `value` to the key. */
  ghost predicate Pair(args: seq<Bytes>, j: nat, key: Key, value: Bytes) {
    2 * j + 1 < |args| && args[2 * j] == key && args[2 * j + 1] == value
  }

  ghost predicate Named(args: seq<Bytes>, j: nat, key: Key) {
    2 * j + 1 < |args| && args[2 * j] == key
  }

  /** By positions: the value of the last pair for the key, if there is a pair for it. */
  lemma {:induction false} LastByPositions(args: seq<Bytes>, key: Key)
    ensures LastFor(args, key).None? <==> forall j: nat :: !Named(args, j, key)
    ensures LastFor(args, key).Some? ==>
              exists j: nat :: Pair(args, j, key, LastFor(args, key).value) && forall l: nat | j < l :: !Named(args, l, key)
    decreases |args|
  {
    if |args| >= 2 {
      var rest := args[2..];
      LastByPositions(rest, key);
      forall j: nat ensures Named(rest, j, key) <==> Named(args, j + 1, key) {
        assert 2 * j + 1 < |rest| ==> rest[2 * j] == args[2 * (j + 1)];
      }
      assert forall l: nat | 0 < l :: Named(args, l, key) <==> Named(rest, l - 1, key);
      assert Named(args, 0, key) <==> args[0] == key;
      if LastFor(rest, key).Some? {
        var j: nat :| Pair(rest, j, key, LastFor(rest, key).value) && forall l: nat | j < l :: !Named(rest, l, key);
        assert Pair(args, j + 1, key, LastFor(args, key).value);
        assert Named(args, j + 1, key);
      } else if args[0] == key {
        assert Pair(args, 0, key, args[1]);
      }
    }
  }

  /** Every key holds the value of the last pair that names it, and without such a pair what it held. */
  ghost predicate AssignsLast(before: Store, after: Store, args: seq<Bytes>) {
    && (forall j: nat, key: Key, value: Bytes | Pair(args, j, key, value) && (forall l: nat | j < l :: !Named(args, l, key)) ::
          key in after && after[key] == Str(value))
    && (forall key: Key | forall j: nat :: !Named(args, j, key) ::
          (key in after <==> key in before) && (key in after ==> after[key] == before[key]))
  }

  lemma {:induction false} LastAssigned(m: Store, args: seq<Bytes>)
    ensures AssignsLast(m, Assign(m, args), args)
  {
    forall j: nat, key: Key, value: Bytes | Pair(args, j, key, value) && (forall l: nat | j < l :: !Named(args, l, key))
      ensures key in Assign(m, args) && Assign(m, args)[key] == Str(value)
    {
      AssignedValue(m, args, key);
      LastByPositions(args, key);
      assert Named(args, j, key);
      var i: nat :| Pair(args, i, key, LastFor(args, key).value) && forall l: nat | i < l :: !Named(args, l, key);
      assert Named(args, i, key);
      assert i == j;
    }
    forall key: Key | forall j: nat :: !Named(args, j, key)
      ensures (key in Assign(m, args) <==> key in m) && (key in m ==> Assign(m, args)[key] == m[key])
    {
      AssignedValue(m, args, key);
      LastByPositions(args, key);
    }
  }

  function KeySet(keys: seq<Key>): set<Key> {
    set k | k in keys
  }

  lemma {:induction false} KeySetNext(keys: seq<Key>, i: nat)
    requires i < |keys|
    ensures KeySet(keys[..i + 1]) == KeySet(keys[..i]) + {keys[i]}
  {
    assert keys[..i + 1] == keys[..i] + [keys[i]];
  }

  /** How many arguments name a key that is there and was not named before. */
  function Removed(m: Store, keys: seq<Key>): nat {
    if keys == [] then 0
    else
      var last := keys[|keys| - 1];
      Removed(m, keys[..|keys| - 1]) + if last in m && last !in keys[..|keys| - 1] then 1 else 0
  }

  lemma {:induction false} RemovedCounts(m: Store, keys: seq<Key>)
    ensures Removed(m, keys) == |m.Keys * KeySet(keys)|
    decreases |keys|
  {
    if keys == [] {
      assert m.Keys * KeySet(keys) == {};
    } else {
      var n := |keys| - 1;
      RemovedCounts(m, keys[..n]);
      KeySetNext(keys, n);
      assert keys[..n + 1] == keys;
      OneHit(m, KeySet(keys[..n]), keys[n]);
    }
  }

  lemma {:induction false} DistinctStored(m: Store, keys: seq<Key>)
    ensures Removed(m, keys) == |set k | k in keys && k in m|
    ensures forall k: Key :: k in m - KeySet(keys) <==> k in m && k !in keys
  {
    RemovedCounts(m, keys);
    assert m.Keys * KeySet(keys) == set k | k in keys && k in m;
  }

  lemma {:induction false} OneHit(m: Store, named: set<Key>, k: Key)
    ensures |m.Keys * (named + {k})| == |m.Keys * named| + if k in m && k !in named then 1 else 0
  {
    if k in m && k !in named {
      assert m.Keys * (named + {k}) == (m.Keys * named) + {k};
    } else {
      assert m.Keys * (named + {k}) == m.Keys * named;
    }
  }

  /** `del` */
  method StoreDel(m: Store, keys: seq<Key>) returns (m': Store, count: nat)
    ensures m' == m - KeySet(keys) && count == Removed(m, keys)
  {
    m', count := m, 0;
    for i := 0 to |keys|
      invariant m' == m - KeySet(keys[..i]) && count == Removed(m, keys[..i])
    {
      KeySetNext(keys, i);
      assert keys[..i + 1][..i] == keys[..i];
      if keys[i] in m' {
        count := count + 1;
      }
      m' := m' - {keys[i]};
    }
    assert keys[..|keys|] == keys;
  }

  /** How many of the arguments name a key that is there; a repeated key counts each time. */
  function Present(m: Store, keys: seq<Key>): nat {
    if keys == [] then 0
    else Present(m, keys[..|keys| - 1]) + if keys[|keys| - 1] in m then 1 else 0
  }

  ghost function StoredAt(m: Store, keys: seq<Key>): set<nat> {
    set i: nat | i < |keys| && keys[i] in m
  }

  lemma {:induction false} PresentPositions(m: Store, keys: seq<Key>)
    ensures Present(m, keys) == |set i: nat | i < |keys| && keys[i] in m|
    decreases |keys|
  {
    if keys == [] {
      assert StoredAt(m, keys) == {};
    } else {
      var n := |keys| - 1;
      PresentPositions(m, keys[..n]);
      assert StoredAt(m, keys) == StoredAt(m, keys[..n]) + if keys[n] in m then {n} else {};
    }
  }

  method StoreExists(m: Store, keys: seq<Key>) returns (count: nat)
    ensures count == Present(m, keys)
  {
    count := 0;
    for i := 0 to |keys|
      invariant count == Present(m, keys[..i])
    {
      assert keys[..i + 1][..i] == keys[..i];
      if keys[i] in m {
        count := count + 1;
      }
    }
    assert keys[..|keys|] == keys;
  }

  // ----- shards and the flat map -----

  type Home = Key -> nat

  /** Every key lives only on its home shard. */
  ghost predicate AtHome(shards: seq<Store>, home: Home) {
    && (forall k: Key :: home(k) < |shards|)
    && (forall s, k | 0 <= s < |shards| && k in shards[s] :: home(k) == s)
  }

  ghost function AllKeys(shards: seq<Store>): set<Key> {
    set s, k | 0 <= s < |shards| && k in shards[s] :: k
  }

  /** The map that the shards stand for. */
  ghost function Flat(shards: seq<Store>, home: Home): Store
    requires AtHome(shards, home)
  {
    map k | k in AllKeys(shards) :: shards[home(k)][k]
  }

  lemma {:induction false} FlatAnswer(shards: seq<Store>, home: Home, k: Key)
    requires AtHome(shards, home)
    ensures Answer(Flat(shards, home), k) == Answer(shards[home(k)], k)
    ensures k in Flat(shards, home) <==> exists s: nat :: s < |shards| && k in shards[s]
    ensures forall s: nat | s < |shards| && k in shards[s] :: Flat(shards, home)[k] == shards[s][k]
  {
    if k in shards[home(k)] {
      assert k in AllKeys(shards);
    }
  }

  /** Two maps that answer alike are the same. */
  lemma {:induction false} SameAnswers(a: Store, b: Store)
    requires forall k: Key :: Answer(a, k) == Answer(b, k)
    ensures a == b
  {
    forall k: Key ensures k in a <==> k in b {
      assert Answer(a, k) == Answer(b, k);
    }
    assert a.Keys == b.Keys;
    forall k | k in a ensures a[k] == b[k] {
      assert Answer(a, k) == Answer(b, k);
    }
  }

  // ----- grouping -----

  /** An argument and its position. */
  datatype Slot = Slot(index: nat, key: Key)

  /** The arguments whose home is shard `s`, with their positions, among the first `n`. */
  function Group(keys: seq<Key>, home: Home, s: nat, n: nat): seq<Slot>
    requires n <= |keys|
  {
    if n == 0 then []
    else Group(keys, home, s, n - 1) + if home(keys[n - 1]) == s then [Slot(n - 1, keys[n - 1])] else []
  }

  function GroupKeys(group: seq<Slot>): seq<Key> {
    seq(|group|, i requires 0 <= i < |group| => group[i].key)
  }

  /** The group holds exactly the positions of the shard's keys. */
  lemma {:induction false} GroupMeaning(keys: seq<Key>, home: Home, s: nat, n: nat)
    requires n <= |keys|
    ensures forall j | 0 <= j < |Group(keys, home, s, n)| ::
              var e := Group(keys, home, s, n)[j]; e.index < n && keys[e.index] == e.key && home(e.key) == s
    ensures forall i | 0 <= i < n && home(keys[i]) == s :: Slot(i, keys[i]) in Group(keys, home, s, n)
    decreases n
  {
    if n > 0 {
      GroupMeaning(keys, home, s, n - 1);
      var before, after := Group(keys, home, s, n - 1), Group(keys, home, s, n);
      assert after == before + if home(keys[n - 1]) == s then [Slot(n - 1, keys[n - 1])] else [];
      forall i | 0 <= i < n && home(keys[i]) == s ensures Slot(i, keys[i]) in after {
        assert i < n - 1 ==> Slot(i, keys[i]) in before;
      }
    }
  }

  function Bucket<T>(grouped: map<nat, seq<T>>, s: nat): seq<T> {
    if s in grouped then grouped[s] else []
  }

  /** Each shard's bucket is its group of the first `n` arguments. */
  ghost predicate KeyBuckets(grouped: map<nat, seq<Slot>>, keys: seq<Key>, home: Home, n: nat)
    requires n <= |keys|
  {
    && (forall s: nat :: Bucket(grouped, s) == Group(keys, home, s, n))
    && (forall s | s in grouped :: grouped[s] != [])
  }

  lemma {:induction false} GroupNext(grouped: map<nat, seq<Slot>>, keys: seq<Key>, home: Home, i: nat)
    requires i < |keys| && KeyBuckets(grouped, keys, home, i)
    ensures var s := home(keys[i]);
            KeyBuckets(grouped[s := Bucket(grouped, s) + [Slot(i, keys[i])]], keys, home, i + 1)
  {
    var s := home(keys[i]);
    var after := grouped[s := Bucket(grouped, s) + [Slot(i, keys[i])]];
    forall t: nat ensures Bucket(after, t) == Group(keys, home, t, i + 1) {
      assert Bucket(grouped, t) == Group(keys, home, t, i);
    }
  }

  /** `group_key_args` */
  method GroupKeyArgs(keys: seq<Key>, home: Home) returns (grouped: map<nat, seq<Slot>>)
    ensures KeyBuckets(grouped, keys, home, |keys|)
  {
    grouped := map[];
    for i := 0 to |keys|
      invariant KeyBuckets(grouped, keys, home, i)
    {
      GroupNext(grouped, keys, home, i);
      var s := home(keys[i]);
      grouped := grouped[s := Bucket(grouped, s) + [Slot(i, keys[i])]];
    }
  }

  /** The pairs whose key's home is shard `s`; a key without a value goes along. */
  function GroupArgs(args: seq<Bytes>, home: Home, s: nat): seq<Bytes>
    decreases |args|
  {
    if args == [] then []
    else if |args| == 1 then if home(args[0]) == s then args else []
    else (if home(args[0]) == s then [args[0], args[1]] else []) + GroupArgs(args[2..], home, s)
  }

  /** A shard's pairs assign to its keys what all the pairs together do. */
  lemma {:induction false} GroupedLast(args: seq<Bytes>, home: Home, s: nat, key: Key)
    ensures LastFor(GroupArgs(args, home, s), key) == if home(key) == s then LastFor(args, key) else None
    decreases |args|
  {
    if |args| >= 2 {
      GroupedLast(args[2..], home, s, key);
      var rest := GroupArgs(args[2..], home, s);
      if home(args[0]) == s {
        assert GroupArgs(args, home, s)[2..] == rest;
      } else {
        assert [] + rest == rest;
      }
    }
  }

  /** A shard's group is odd exactly when the key without a value is the shard's. */
  lemma {:induction false} GroupedOdd(args: seq<Bytes>, home: Home, s: nat)
    ensures |GroupArgs(args, home, s)| % 2 != 0 <==> |args| % 2 != 0 && home(args[|args| - 1]) == s
    decreases |args|
  {
    if |args| >= 2 {
      GroupedOdd(args[2..], home, s);
      assert |args| > 2 ==> args[2..][|args| - 3] == args[|args| - 1];
    }
  }

  /** `group_mset_pairs` */
  method GroupMsetPairs(args: seq<Bytes>, home: Home) returns (grouped: map<nat, seq<Bytes>>)
    ensures forall s: nat :: Bucket(grouped, s) == GroupArgs(args, home, s)
    ensures forall s | s in grouped :: grouped[s] != []
  {
    grouped := map[];
    var rest := args;
    while rest != []
      invariant forall s: nat :: GroupArgs(args, home, s) == Bucket(grouped, s) + GroupArgs(rest, home, s)
      invariant forall s | s in grouped :: grouped[s] != []
      decreases |rest|
    {
      var chunk := if |rest| == 1 then rest else rest[..2];
      var s := home(chunk[0]);
      ghost var before := grouped;
      grouped := grouped[s := Bucket(grouped, s) + chunk];
      ChunkGrouped(args, home, before, grouped, rest, s);
      rest := if |rest| == 1 then [] else rest[2..];
    }
    forall s: nat ensures Bucket(grouped, s) == GroupArgs(args, home, s) {
      assert Bucket(grouped, s) + [] == Bucket(grouped, s);
    }
  }

  lemma {:induction false} ChunkGrouped(args: seq<Bytes>, home: Home, before: map<nat, seq<Bytes>>, after: map<nat, seq<Bytes>>, rest: seq<Bytes>, s: nat)
    requires rest != [] && s == home(rest[0])
    requires after == before[s := Bucket(before, s) + if |rest| == 1 then rest else rest[..2]]
    requires forall t: nat :: GroupArgs(args, home, t) == Bucket(before, t) + GroupArgs(rest, home, t)
    ensures var rest' := if |rest| == 1 then [] else rest[2..];
            forall t: nat :: GroupArgs(args, home, t) == Bucket(after, t) + GroupArgs(rest', home, t)
  {
    var rest' := if |rest| == 1 then [] else rest[2..];
    var chunk := if |rest| == 1 then rest else rest[..2];
    forall t: nat ensures GroupArgs(args, home, t) == Bucket(after, t) + GroupArgs(rest', home, t) {
      assert GroupArgs(args, home, t) == Bucket(before, t) + GroupArgs(rest, home, t);
      if t == s {
        assert |rest| > 1 ==> chunk == [rest[0], rest[1]];
        Assoc(Bucket(before, t), chunk, GroupArgs(rest', home, t));
      } else {
        assert [] + GroupArgs(rest', home, t) == GroupArgs(rest', home, t);
      }
    }
  }

  // ----- putting replies together -----

  /** Write a shard's answers to the positions of its keys. */
  method Fill(merged: seq<Option<Value>>, group: seq<Slot>, values: seq<Option<Value>>) returns (merged': seq<Option<Value>>)
    requires |values| == |group| && forall j | 0 <= j < |group| :: group[j].index < |merged|
    requires forall i, j | 0 <= i < j < |group| :: group[i].index != group[j].index
    ensures |merged'| == |merged|
    ensures forall j | 0 <= j < |group| :: merged'[group[j].index] == values[j]
    ensures forall i: nat | i < |merged| && (forall j | 0 <= j < |group| :: group[j].index != i) :: merged'[i] == merged[i]
  {
    merged' := merged;
    for j := 0 to |group|
      invariant |merged'| == |merged|
      invariant forall l | 0 <= l < j :: merged'[group[l].index] == values[l]
      invariant forall i: nat | i < |merged| && (forall l | 0 <= l < j :: group[l].index != i) :: merged'[i] == merged[i]
    {
      merged' := merged'[group[j].index := values[j]];
    }
  }

  lemma {:induction false} GroupPositions(keys: seq<Key>, home: Home, s: nat, n: nat)
    requires n <= |keys|
    ensures forall i, j | 0 <= i < j < |Group(keys, home, s, n)| ::
              Group(keys, home, s, n)[i].index < Group(keys, home, s, n)[j].index
    ensures forall j | 0 <= j < |Group(keys, home, s, n)| :: Group(keys, home, s, n)[j].index < n
    decreases n
  {
    if n > 0 {
      GroupPositions(keys, home, s, n - 1);
    }
  }

  ghost function KeysAt(keys: seq<Key>, home: Home, s: nat): set<Key> {
    set k | k in keys && home(k) == s
  }

  lemma {:induction false} GroupKeySet(keys: seq<Key>, home: Home, s: nat)
    ensures KeySet(GroupKeys(Group(keys, home, s, |keys|))) == KeysAt(keys, home, s)
  {
    var group := Group(keys, home, s, |keys|);
    GroupMeaning(keys, home, s, |keys|);
    forall k | k in keys && home(k) == s ensures k in GroupKeys(group) {
      var i :| 0 <= i < |keys| && keys[i] == k;
      var j :| 0 <= j < |group| && group[j] == Slot(i, keys[i]);
      assert GroupKeys(group)[j] == k;
    }
  }

  ghost predicate MergedBelow(merged: seq<Option<Value>>, shards: seq<Store>, home: Home, keys: seq<Key>, s: nat)
    requires AtHome(shards, home)
  {
    && |merged| == |keys|
    && forall i | 0 <= i < |keys| && home(keys[i]) < s ::
         merged[i] == Answer(shards[home(keys[i])], keys[i]) && (merged[i].Some? ==> merged[i].value.Str?)
  }

  lemma {:induction false} MergedNext(merged: seq<Option<Value>>, merged': seq<Option<Value>>, shards: seq<Store>, home: Home, keys: seq<Key>,
                   s: nat, group: seq<Slot>, values: seq<Option<Value>>)
    requires AtHome(shards, home) && s < |shards| && MergedBelow(merged, shards, home, keys, s)
    requires group == Group(keys, home, s, |keys|) && |values| == |group| && |merged'| == |merged|
    requires AllStrings(shards[s], GroupKeys(group))
    requires forall j | 0 <= j < |group| :: values[j] == Answer(shards[s], group[j].key)
    requires forall j | 0 <= j < |group| :: group[j].index < |merged| && merged'[group[j].index] == values[j]
    requires forall i: nat | i < |merged| && (forall j | 0 <= j < |group| :: group[j].index != i) :: merged'[i] == merged[i]
    ensures MergedBelow(merged', shards, home, keys, s + 1)
  {
    GroupMeaning(keys, home, s, |keys|);
    forall i | 0 <= i < |keys| && home(keys[i]) < s + 1
      ensures merged'[i] == Answer(shards[home(keys[i])], keys[i]) && (merged'[i].Some? ==> merged'[i].value.Str?)
    {
      if home(keys[i]) == s {
        var j :| 0 <= j < |group| && group[j] == Slot(i, keys[i]);
        assert GroupKeys(group)[j] == keys[i];
      }
    }
  }

  lemma {:induction false} EmptyGroup(merged: seq<Option<Value>>, shards: seq<Store>, home: Home, keys: seq<Key>, s: nat)
    requires AtHome(shards, home) && s < |shards| && MergedBelow(merged, shards, home, keys, s)
    requires Group(keys, home, s, |keys|) == []
    ensures MergedBelow(merged, shards, home, keys, s + 1)
  {
    GroupMeaning(keys, home, s, |keys|);
  }

  /** One shard's refusal is the flat map's. */
  lemma {:induction false} ShardRefuses(shards: seq<Store>, home: Home, keys: seq<Key>, s: nat)
    requires AtHome(shards, home) && s < |shards| && !AllStrings(shards[s], GroupKeys(Group(keys, home, s, |keys|)))
    ensures !AllStrings(Flat(shards, home), keys)
  {
    var group := Group(keys, home, s, |keys|);
    GroupMeaning(keys, home, s, |keys|);
    var j :| 0 <= j < |group| && GroupKeys(group)[j] in shards[s] && !shards[s][GroupKeys(group)[j]].Str?;
    var i := group[j].index;
    assert keys[i] == group[j].key;
    FlatAnswer(shards, home, keys[i]);
  }

  lemma {:induction false} MergedAll(merged: seq<Option<Value>>, shards: seq<Store>, home: Home, keys: seq<Key>)
    requires AtHome(shards, home) && MergedBelow(merged, shards, home, keys, |shards|)
    ensures AllStrings(Flat(shards, home), keys)
    ensures forall i | 0 <= i < |keys| :: merged[i] == Answer(Flat(shards, home), keys[i])
  {
    forall i | 0 <= i < |keys|
      ensures merged[i] == Answer(Flat(shards, home), keys[i]) && (merged[i].Some? ==> merged[i].value.Str?)
    {
      FlatAnswer(shards, home, keys[i]);
    }
  }

  /** Shards below `s` have run their part of the assignments, the others not yet. */
  ghost predicate AssignedBelow(before: seq<Store>, after: seq<Store>, home: Home, args: seq<Bytes>, s: nat) {
    && |after| == |before|
    && forall t: nat | t < |before| ::
         after[t] == if t < s then Assign(before[t], GroupArgs(args, home, t)) else before[t]
  }

  lemma {:induction false} AssignedNext(before: seq<Store>, after: seq<Store>, home: Home, args: seq<Bytes>, s: nat)
    requires s < |before| && AssignedBelow(before, after, home, args, s)
    ensures AssignedBelow(before, after[s := Assign(after[s], GroupArgs(args, home, s))], home, args, s + 1)
    ensures GroupArgs(args, home, s) == [] ==> AssignedBelow(before, after, home, args, s + 1)
  {
  }

  lemma {:induction false} PartlyAssigned(before: seq<Store>, after: seq<Store>, home: Home, args: seq<Bytes>, s: nat)
    requires AtHome(before, home) && AssignedBelow(before, after, home, args, s)
    ensures AtHome(after, home)
    ensures forall k: Key :: Answer(Flat(after, home), k) ==
              if home(k) < s then Answer(Assign(Flat(before, home), args), k) else Answer(Flat(before, home), k)
  {
    forall t, k | 0 <= t < |after| && k in after[t] ensures home(k) == t {
      AssignedValue(before[t], GroupArgs(args, home, t), k);
      GroupedLast(args, home, t, k);
      assert Answer(after[t], k).Some?;
    }
    forall k: Key ensures Answer(Flat(after, home), k) ==
        if home(k) < s then Answer(Assign(Flat(before, home), args), k) else Answer(Flat(before, home), k)
    {
      FlatAnswer(before, home, k);
      FlatAnswer(after, home, k);
      AssignedValue(before[home(k)], GroupArgs(args, home, home(k)), k);
      GroupedLast(args, home, home(k), k);
      AssignedValue(Flat(before, home), args, k);
    }
  }

  lemma {:induction false} FullyAssigned(before: seq<Store>, after: seq<Store>, home: Home, args: seq<Bytes>)
    requires AtHome(before, home) && AtHome(after, home) && |after| == |before|
    requires forall k: Key :: Answer(Flat(after, home), k) ==
               if home(k) < |before| then Answer(Assign(Flat(before, home), args), k) else Answer(Flat(before, home), k)
    ensures Flat(after, home) == Assign(Flat(before, home), args)
  {
    SameAnswers(Flat(after, home), Assign(Flat(before, home), args));
  }

  ghost predicate DeletedBelow(before: seq<Store>, after: seq<Store>, home: Home, keys: seq<Key>, s: nat) {
    && |after| == |before|
    && forall t: nat | t < |before| ::
         after[t] == if t < s then before[t] - KeysAt(keys, home, t) else before[t]
  }

  lemma {:induction false} DeletedNext(before: seq<Store>, after: seq<Store>, home: Home, keys: seq<Key>, s: nat)
    requires s < |before| && DeletedBelow(before, after, home, keys, s)
    ensures DeletedBelow(before, after[s := after[s] - KeysAt(keys, home, s)], home, keys, s + 1)
    ensures KeysAt(keys, home, s) == {} ==> DeletedBelow(before, after, home, keys, s + 1)
  {
    assert KeysAt(keys, home, s) == {} ==> after[s] - KeysAt(keys, home, s) == after[s];
  }

  lemma {:induction false} NoKeysHere(keys: seq<Key>, home: Home, s: nat)
    requires Group(keys, home, s, |keys|) == []
    ensures KeysAt(keys, home, s) == {}
  {
    GroupMeaning(keys, home, s, |keys|);
    forall k | k in keys ensures home(k) != s {
      var i :| 0 <= i < |keys| && keys[i] == k;
    }
  }

  lemma {:induction false} AllDeleted(before: seq<Store>, after: seq<Store>, home: Home, keys: seq<Key>)
    requires AtHome(before, home) && DeletedBelow(before, after, home, keys, |before|)
    ensures AtHome(after, home) && Flat(after, home) == Flat(before, home) - KeySet(keys)
  {
    forall k: Key ensures Answer(Flat(after, home), k) == Answer(Flat(before, home) - KeySet(keys), k) {
      FlatAnswer(before, home, k);
      FlatAnswer(after, home, k);
    }
    SameAnswers(Flat(after, home), Flat(before, home) - KeySet(keys));
  }

  /** First namings of keys that stand on a shard below `s`. */
  ghost function RemovedBelow(shards: seq<Store>, home: Home, keys: seq<Key>, s: nat): nat
    requires AtHome(shards, home)
  {
    if keys == [] then 0
    else
      var n := |keys| - 1;
      RemovedBelow(shards, home, keys[..n], s)
      + if home(keys[n]) < s && keys[n] in shards[home(keys[n])] && keys[n] !in keys[..n] then 1 else 0
  }

  lemma {:induction false} NoneRemovedBelow(shards: seq<Store>, home: Home, keys: seq<Key>)
    requires AtHome(shards, home)
    ensures RemovedBelow(shards, home, keys, 0) == 0
    decreases |keys|
  {
    if keys != [] {
      NoneRemovedBelow(shards, home, keys[..|keys| - 1]);
    }
  }

  lemma {:induction false} RemovedNext(shards: seq<Store>, home: Home, keys: seq<Key>, s: nat)
    requires AtHome(shards, home) && s < |shards|
    ensures RemovedBelow(shards, home, keys, s + 1) ==
            RemovedBelow(shards, home, keys, s) + Removed(shards[s], GroupKeys(Group(keys, home, s, |keys|)))
    decreases |keys|
  {
    if keys != [] {
      var n := |keys| - 1;
      RemovedNext(shards, home, keys[..n], s);
      GroupOfPrefix(keys, home, s, n);
      GroupKeysNext(keys, home, s, n);
      if home(keys[n]) == s {
        NamedBefore(keys, home, s, n);
      }
      RemovedSnoc(shards[s], GroupKeys(Group(keys, home, s, n)), keys[n]);
    }
  }

  lemma {:induction false} NamedBefore(keys: seq<Key>, home: Home, s: nat, n: nat)
    requires n < |keys| && home(keys[n]) == s
    ensures keys[n] in GroupKeys(Group(keys, home, s, n)) <==> keys[n] in keys[..n]
  {
    var group := Group(keys, home, s, n);
    GroupMeaning(keys, home, s, n);
    if keys[n] in keys[..n] {
      var i :| 0 <= i < n && keys[i] == keys[n];
      var j :| 0 <= j < |group| && group[j] == Slot(i, keys[i]);
      assert GroupKeys(group)[j] == keys[n];
    }
    if keys[n] in GroupKeys(group) {
      var j :| 0 <= j < |group| && group[j].key == keys[n];
      assert keys[..n][group[j].index] == keys[n];
    }
  }

  lemma {:induction false} RemovedSnoc(m: Store, keys: seq<Key>, k: Key)
    ensures Removed(m, keys + [k]) == Removed(m, keys) + if k in m && k !in keys then 1 else 0
  {
    assert (keys + [k])[..|keys|] == keys;
  }

  lemma {:induction false} AllRemoved(shards: seq<Store>, home: Home, keys: seq<Key>)
    requires AtHome(shards, home)
    ensures RemovedBelow(shards, home, keys, |shards|) == Removed(Flat(shards, home), keys)
    decreases |keys|
  {
    if keys != [] {
      AllRemoved(shards, home, keys[..|keys| - 1]);
      FlatAnswer(shards, home, keys[|keys| - 1]);
    }
  }

  /** Arguments whose key stands on a shard below `s`, with repetitions. */
  ghost function PresentBelow(shards: seq<Store>, home: Home, keys: seq<Key>, s: nat): nat
    requires AtHome(shards, home)
  {
    if keys == [] then 0
    else
      var last := keys[|keys| - 1];
      PresentBelow(shards, home, keys[..|keys| - 1], s) + if home(last) < s && last in shards[home(last)] then 1 else 0
  }

  lemma {:induction false} NonePresentBelow(shards: seq<Store>, home: Home, keys: seq<Key>)
    requires AtHome(shards, home)
    ensures PresentBelow(shards, home, keys, 0) == 0
    decreases |keys|
  {
    if keys != [] {
      NonePresentBelow(shards, home, keys[..|keys| - 1]);
    }
  }

  lemma {:induction false} GroupOfPrefix(keys: seq<Key>, home: Home, s: nat, n: nat)
    requires n < |keys|
    ensures Group(keys[..|keys| - 1], home, s, n) == Group(keys, home, s, n)
    decreases n
  {
    if n > 0 {
      GroupOfPrefix(keys, home, s, n - 1);
    }
  }

  lemma {:induction false} PresentNext(shards: seq<Store>, home: Home, keys: seq<Key>, s: nat)
    requires AtHome(shards, home) && s < |shards|
    ensures PresentBelow(shards, home, keys, s + 1) ==
            PresentBelow(shards, home, keys, s) + Present(shards[s], GroupKeys(Group(keys, home, s, |keys|)))
    decreases |keys|
  {
    if keys != [] {
      var n := |keys| - 1;
      PresentNext(shards, home, keys[..n], s);
      GroupOfPrefix(keys, home, s, n);
      GroupKeysNext(keys, home, s, n);
      PresentSnoc(shards[s], GroupKeys(Group(keys, home, s, n)), keys[n]);
    }
  }

  lemma {:induction false} GroupKeysNext(keys: seq<Key>, home: Home, s: nat, n: nat)
    requires n < |keys|
    ensures GroupKeys(Group(keys, home, s, n + 1)) ==
            if home(keys[n]) == s then GroupKeys(Group(keys, home, s, n)) + [keys[n]] else GroupKeys(Group(keys, home, s, n))
  {
    if home(keys[n]) != s {
      assert Group(keys, home, s, n) + [] == Group(keys, home, s, n);
    }
  }

  lemma {:induction false} PresentSnoc(m: Store, keys: seq<Key>, k: Key)
    ensures Present(m, keys + [k]) == Present(m, keys) + if k in m then 1 else 0
  {
    assert (keys + [k])[..|keys|] == keys;
  }

  lemma {:induction false} AllPresent(shards: seq<Store>, home: Home, keys: seq<Key>)
    requires AtHome(shards, home)
    ensures PresentBelow(shards, home, keys, |shards|) == Present(Flat(shards, home), keys)
    decreases |keys|
  {
    if keys != [] {
      AllPresent(shards, home, keys[..|keys| - 1]);
      FlatAnswer(shards, home, keys[|keys| - 1]);
    }
  }

  // ----- the cluster -----

  /** The pairs were assigned on the shards below `s` and nowhere else. */
  ghost predicate WrittenBelow(before: Store, after: Store, home: Home, args: seq<Bytes>, s: nat) {
    forall k: Key :: Answer(after, k) == Answer(if home(k) < s then Assign(before, args) else before, k)
  }

  /** A refused assignment leaves everything as it was exactly when its pairs on lower shards assign what is there already. */
  lemma {:induction false} RefusedUnchangedIff(before: Store, after: Store, home: Home, args: seq<Bytes>, s: nat)
    requires WrittenBelow(before, after, home, args, s)
    ensures (forall k: Key :: Answer(after, k) == Answer(before, k)) <==>
            forall k: Key | home(k) < s && LastFor(args, k).Some? :: Answer(before, k) == Some(Str(LastFor(args, k).value))
  {
    forall k: Key
      ensures Answer(after, k) == if home(k) < s && LastFor(args, k).Some? then Some(Str(LastFor(args, k).value)) else Answer(before, k)
    {
      AssignedValue(before, args, k);
    }
  }

  /**
   `MSET a v b`, where `a` lives on a lower shard than `b`, is refused, but has written `a`.  With two
   shards such are the keys "b" and "a", whose slots are 3300 and 15495.
   */
  lemma {:induction false} RefusedButWritten(a: Key, v: Bytes, b: Key, home: Home, before: Store, after: Store)
    requires home(a) < home(b) && WrittenBelow(before, after, home, [a, v, b], home(b))
    ensures Answer(after, a) == Some(Str(v)) && Answer(after, b) == Answer(before, b)
    ensures Answer(before, a) != Some(Str(v)) ==> exists k: Key :: Answer(after, k) != Answer(before, k)
  {
    var args: seq<Bytes> := [a, v, b];
    assert args[2..] == [b] && LastFor(args[2..], a) == None;
    AssignedValue(before, args, a);
  }

  class Cluster {
    var shards: seq<Store>
    const home: Home

    ghost predicate Valid()
      reads this
    {
      AtHome(shards, home)
    }

    constructor (count: nat, home: Home)
      requires forall k: Key :: home(k) < if count == 0 then 1 else count
      ensures Valid() && Flat(shards, this.home) == map[] && this.home == home
    {
      this.home := home;
      shards := seq(if count == 0 then 1 else count, _ => map[]);
    }

    /** What the flat map answers, in the order of the arguments. */
    method Mget(keys: seq<Key>) returns (r: Option<seq<Option<Value>>>)
      requires Valid() && keys != []
      ensures r.Some? <==> AllStrings(Flat(shards, home), keys)
      ensures r.Some? <==> forall i | 0 <= i < |keys| && keys[i] in Flat(shards, home) :: Flat(shards, home)[keys[i]].Str?
      ensures r.Some? ==> |r.value| == |keys|
      ensures r.Some? ==> forall i | 0 <= i < |keys| ::
                r.value[i] == if keys[i] in Flat(shards, home) then Some(Flat(shards, home)[keys[i]]) else None
    {
      var grouped := GroupKeyArgs(keys, home);
      var merged: seq<Option<Value>> := seq(|keys|, _ => None);
      for s := 0 to |shards|
        invariant MergedBelow(merged, shards, home, keys, s)
      {
        ghost var group := Group(keys, home, s, |keys|);
        assert Bucket(grouped, s) == group;
        if s in grouped {
          var values := StoreMget(shards[s], GroupKeys(grouped[s]));
          if values.None? {
            ShardRefuses(shards, home, keys, s);
            return None;
          }
          GroupPositions(keys, home, s, |keys|);
          var merged' := Fill(merged, grouped[s], values.value);
          MergedNext(merged, merged', shards, home, keys, s, group, values.value);
          merged := merged';
        } else {
          EmptyGroup(merged, shards, home, keys, s);
        }
      }
      MergedAll(merged, shards, home, keys);
      return Some(merged);
    }

    /** The last write wins, as on the flat map; a key without a value stops at its shard. */
    method Mset(args: seq<Bytes>) returns (ok: bool)
      requires Valid() && args != []
      modifies this
      ensures Valid() && (ok <==> |args| % 2 == 0)
      ensures ok ==> Flat(shards, home) == Assign(old(Flat(shards, home)), args)
      ensures ok ==> AssignsLast(old(Flat(shards, home)), Flat(shards, home), args)
      ensures !ok ==> WrittenBelow(old(Flat(shards, home)), Flat(shards, home), home, args, home(args[|args| - 1]))
    {
      var grouped := GroupMsetPairs(args, home);
      ok := MsetEach(args, grouped);
      if !ok {
        PartlyAssigned(old(shards), shards, home, args, home(args[|args| - 1]));
        return;
      }
      PartlyAssigned(old(shards), shards, home, args, |shards|);
      FullyAssigned(old(shards), shards, home, args);
      LastAssigned(old(Flat(shards, home)), args);
    }

    /** Shard after shard assigns its group, up to one whose group is odd. */
    method MsetEach(ghost args: seq<Bytes>, grouped: map<nat, seq<Bytes>>) returns (ok: bool)
      requires Valid() && args != [] && forall s | s in grouped :: grouped[s] != []
      requires forall s: nat :: Bucket(grouped, s) == GroupArgs(args, home, s)
      modifies this
      ensures ok <==> |args| % 2 == 0
      ensures AssignedBelow(old(shards), shards, home, args, if ok then |old(shards)| else home(args[|args| - 1]))
    {
      for s := 0 to |shards|
        invariant AssignedBelow(old(shards), shards, home, args, s)
        invariant |args| % 2 != 0 ==> s <= home(args[|args| - 1])
      {
        assert Bucket(grouped, s) == GroupArgs(args, home, s);
        GroupedOdd(args, home, s);
        AssignedNext(old(shards), shards, home, args, s);
        if s in grouped {
          var result := StoreMset(shards[s], grouped[s]);
          if result.None? {
            return false;
          }
          shards := shards[s := result.value];
        }
      }
      return true;
    }

    /** Each key goes; one that was there counts once, however often it is named. */
    method Del(keys: seq<Key>) returns (total: nat)
      requires Valid() && keys != []
      modifies this
      ensures Valid() && Flat(shards, home) == old(Flat(shards, home)) - KeySet(keys)
      ensures forall k: Key :: k in Flat(shards, home) <==> k in old(Flat(shards, home)) && k !in keys
      ensures total == |set k | k in keys && k in old(Flat(shards, home))|
    {
      var grouped := GroupKeyArgs(keys, home);
      total := DelEach(keys, grouped);
      AllDeleted(old(shards), shards, home, keys);
      AllRemoved(old(shards), home, keys);
      DistinctStored(old(Flat(shards, home)), keys);
    }

    method DelEach(ghost keys: seq<Key>, grouped: map<nat, seq<Slot>>) returns (total: nat)
      requires Valid() && KeyBuckets(grouped, keys, home, |keys|)
      modifies this
      ensures DeletedBelow(old(shards), shards, home, keys, |shards|)
      ensures total == RemovedBelow(old(shards), home, keys, |shards|)
    {
      total := 0;
      NoneRemovedBelow(shards, home, keys);
      for s := 0 to |shards|
        invariant DeletedBelow(old(shards), shards, home, keys, s)
        invariant total == RemovedBelow(old(shards), home, keys, s)
      {
        assert Bucket(grouped, s) == Group(keys, home, s, |keys|);
        RemovedNext(old(shards), home, keys, s);
        if s in grouped {
          var count := DelOn(s, grouped[s], keys, old(shards));
          total := total + count;
        } else {
          DeletedNext(old(shards), shards, home, keys, s);
          NoKeysHere(keys, home, s);
        }
      }
    }

    /** One shard deletes its group. */
    method DelOn(s: nat, group: seq<Slot>, ghost keys: seq<Key>, ghost before: seq<Store>) returns (count: nat)
      requires s < |before| && DeletedBelow(before, shards, home, keys, s) && group == Group(keys, home, s, |keys|)
      modifies this
      ensures DeletedBelow(before, shards, home, keys, s + 1)
      ensures count == Removed(before[s], GroupKeys(group))
    {
      GroupKeySet(keys, home, s);
      DeletedNext(before, shards, home, keys, s);
      var m;
      m, count := StoreDel(shards[s], GroupKeys(group));
      shards := shards[s := m];
    }

    method Exists(keys: seq<Key>) returns (total: nat)
      requires Valid() && keys != []
      ensures total == |set i: nat | i < |keys| && keys[i] in Flat(shards, home)|
    {
      var grouped := GroupKeyArgs(keys, home);
      total := 0;
      NonePresentBelow(shards, home, keys);
      for s := 0 to |shards|
        invariant total == PresentBelow(shards, home, keys, s)
      {
        assert Bucket(grouped, s) == Group(keys, home, s, |keys|);
        PresentNext(shards, home, keys, s);
        if s in grouped {
          var count := StoreExists(shards[s], GroupKeys(grouped[s]));
          total := total + count;
        }
      }
      AllPresent(shards, home, keys);
      PresentPositions(Flat(shards, home), keys);
    }
  }
}
