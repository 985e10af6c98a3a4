/**
 The set of senko-core/src/set.rs: a sorted vector of integers, a listpack node or a hash
 table, upgraded one way as members come in.  The simple view is a set of byte strings.  The
 lossy conversion to text that the hash table applies is a function parameter.
 */
module SetObject {
  import opened Common
  import opened Decimal
  import opened Listpack
  import opened NodeChain

  const INTSET_MAX_ENTRIES: nat := 512
  const LISTPACK_MAX_ENTRIES: nat := 128
  const LISTPACK_MAX_VALUE_SIZE: nat := 64

  datatype Encoding = Intset(data: seq<int>) | Table(table: set<Bytes>) | Packed(node: Node)

  // ----- integers -----

  ghost predicate Increasing(data: seq<int>) {
    forall i, j | 0 <= i < j < |data| :: data[i] < data[j]
  }

  ghost predicate AllI64(data: seq<int>) {
    forall i | 0 <= i < |data| :: 0 - I64 <= data[i] < I64
  }

  function PrintAll(data: seq<int>): seq<Bytes> {
    seq(|data|, i requires 0 <= i < |data| => Print(data[i]))
  }

  /** `binary_search`: where the value is, or where it belongs. */
  method BinarySearch(data: seq<int>, value: int) returns (found: bool, at: nat)
    requires Increasing(data)
    ensures at <= |data| && (found <==> value in data) && (found ==> at < |data| && data[at] == value)
    ensures forall i | 0 <= i < at :: data[i] < value
    ensures forall i | at <= i < |data| :: value <= data[i]
  {
    var lo: nat, hi: nat := 0, |data|;
    while lo < hi
      invariant lo <= hi <= |data|
      invariant forall i | 0 <= i < lo :: data[i] < value
      invariant forall i | hi <= i < |data| :: value <= data[i]
    {
      var mid := (lo + hi) / 2;
      if data[mid] < value {
        lo := mid + 1;
      } else {
        hi := mid;
      }
    }
    return lo < |data| && data[lo] == value, lo;
  }

  method LinearSearch(data: seq<int>, value: int) returns (found: bool)
    ensures found <==> value in data
  {
    for i := 0 to |data|
      invariant value !in data[..i]
    {
      if data[i] == value {
        return true;
      }
    }
    assert data[..|data|] == data;
    return false;
  }

  method IntsetContains(data: seq<int>, value: int) returns (found: bool)
    requires Increasing(data)
    ensures found <==> value in data
  {
    if |data| <= 128 {
      found := LinearSearch(data, value);
    } else {
      var at;
      found, at := BinarySearch(data, value);
    }
  }

  method IntsetInsert(data: seq<int>, value: int) returns (data': seq<int>, inserted: bool)
    requires Increasing(data)
    ensures Increasing(data') && inserted == (value !in data)
    ensures |data'| == |data| + if inserted then 1 else 0
    ensures forall x :: x in data' <==> x in data || x == value
  {
    var found, at := BinarySearch(data, value);
    if found {
      return data, false;
    }
    data' := data[..at] + [value] + data[at..];
    assert forall x :: x in data <==> x in data[..at] || x in data[at..] by {
      assert data == data[..at] + data[at..];
    }
    return data', true;
  }

  method IntsetRemove(data: seq<int>, value: int) returns (data': seq<int>, removed: bool)
    requires Increasing(data)
    ensures Increasing(data') && removed == (value in data) && |data'| <= |data|
    ensures forall x :: x in data' <==> x in data && x != value
  {
    var found, at := BinarySearch(data, value);
    if !found {
      return data, false;
    }
    RemovedAt(data, at);
    return data[..at] + data[at + 1..], true;
  }

  lemma {:induction false} RemovedAt(data: seq<int>, at: nat)
    requires Increasing(data) && at < |data|
    ensures Increasing(data[..at] + data[at + 1..])
    ensures forall x :: x in data[..at] + data[at + 1..] <==> x in data && x != data[at]
  {
    var rest := data[..at] + data[at + 1..];
    forall i | 0 <= i < |rest| ensures rest[i] in data && rest[i] != data[at] {
      assert rest[i] == data[if i < at then i else i + 1];
    }
    forall x | x in data && x != data[at] ensures x in rest {
      var i :| 0 <= i < |data| && data[i] == x;
      assert rest[if i < at then i else i - 1] == x;
    }
  }

  // ----- listpack members -----

  /** The decoder finds exactly these entries from `offset` on, and ends at `end`. */
  ghost predicate Walks(decode: nat -> Option<(Bytes, nat)>, end: nat, offset: nat, entries: seq<Bytes>)
    decreases |entries|
  {
    if entries == [] then offset == end
    else
      && offset < end && decode(offset).Some? && decode(offset).value.0 == entries[0]
      && Walks(decode, end, decode(offset).value.1, entries[1..])
  }

  lemma {:induction false} SmallEntry(e: Bytes, prevLen: nat)
    requires |e| <= 249 && prevLen < 16384
    ensures |EncodeEntry(e, prevLen)| == BackLen(e, prevLen) <= 255
  {
    assert |Varint(prevLen)| <= 2;
  }

  lemma {:induction false} StandsInside(data: Bytes, offset: nat, entries: seq<Bytes>, prevLen: nat)
    requires entries != [] && offset + |EncodeEntries(entries, prevLen)| == |data|
    ensures offset < |data|
    ensures var len := |EncodeEntry(entries[0], prevLen)|;
            offset + len + |EncodeEntries(entries[1..], len)| == |data|
  {
  }

  lemma {:induction false} EncodedWalks(decode: nat -> Option<(Bytes, nat)>, data: Bytes, offset: nat,
                                        entries: seq<Bytes>, prevLen: nat)
    requires ReadsFrom(decode, data) && AtMost(entries, 249) && prevLen < 16384
    requires StandsAt(data, offset, EncodeEntries(entries, prevLen)) && offset + |EncodeEntries(entries, prevLen)| == |data|
    ensures Walks(decode, |data|, offset, entries)
    decreases |entries|
  {
    if entries != [] {
      var next, len := EncodedStep(data, offset, entries, prevLen);
      EncodedWalks(decode, data, next, entries[1..], len);
      assert Pair(offset, offset);
      WalksOn(decode, |data|, offset, entries, next);
    }
  }

  lemma {:induction false} WalksOn(decode: nat -> Option<(Bytes, nat)>, end: nat, offset: nat, entries: seq<Bytes>, next: nat)
    requires entries != [] && offset < end && decode(offset) == Some((entries[0], next)) && Walks(decode, end, next, entries[1..])
    ensures Walks(decode, end, offset, entries)
  {
  }

  lemma {:induction false} EncodedStep(data: Bytes, offset: nat, entries: seq<Bytes>, prevLen: nat) returns (next: nat, len: nat)
    requires entries != [] && |entries[0]| <= 249 && prevLen < 16384
    requires StandsAt(data, offset, EncodeEntries(entries, prevLen)) && offset + |EncodeEntries(entries, prevLen)| == |data|
    ensures next == offset + len && len < 16384 && offset < |data| && DecodeEntryAt(data, offset) == Some((entries[0], next))
    ensures StandsAt(data, next, EncodeEntries(entries[1..], len)) && next + |EncodeEntries(entries[1..], len)| == |data|
  {
    len := |EncodeEntry(entries[0], prevLen)|;
    next := offset + len;
    StandsInside(data, offset, entries, prevLen);
    SmallEntry(entries[0], prevLen);
    FirstWalks(data, offset, entries[0], prevLen, EncodeEntries(entries[1..], len));
  }

  lemma {:induction false} FirstWalks(data: Bytes, offset: nat, e: Bytes, prevLen: nat, rest: Bytes)
    requires |e| <= 249 && prevLen < 16384 && StandsAt(data, offset, EncodeEntry(e, prevLen) + rest)
    ensures DecodeEntryAt(data, offset) == Some((e, offset + |EncodeEntry(e, prevLen)|))
    ensures StandsAt(data, offset + |EncodeEntry(e, prevLen)|, rest)
  {
    SmallEntry(e, prevLen);
    StandsSplit(data, offset, EncodeEntry(e, prevLen), rest);
    EntryDecodes(data, offset, e, prevLen);
  }

  /** The loop of `lp_set_contains`. */
  method SearchEntries(decode: nat -> Option<(Bytes, nat)>, end: nat, member: Bytes, ghost entries: seq<Bytes>)
    returns (found: bool)
    requires Walks(decode, end, 0, entries)
    ensures found <==> member in entries
  {
    var cursor: nat := 0;
    ghost var rest := entries;
    while cursor < end
      invariant Walks(decode, end, cursor, rest)
      invariant member in entries <==> member in rest
      decreases |rest|
    {
      var decoded := decode(cursor);
      assert rest != [];
      if decoded.None? {
        return false;
      }
      if decoded.value.0 == member {
        return true;
      }
      assert member in rest <==> member in rest[1..] by {
        assert rest == [rest[0]] + rest[1..];
      }
      cursor, rest := decoded.value.1, rest[1..];
    }
    assert rest == [];
    return false;
  }

  // ----- spelling of integers -----

  /** The spelling that printing gives: no plus sign, no leading zero, no minus zero. */
  predicate Canonical(m: Bytes) {
    m == [48] || (m != [] && 49 <= m[0] <= 57) || (|m| > 1 && m[0] == MINUS && 49 <= m[1] <= 57)
  }

  lemma {:induction false} LeadingDigit(n: nat)
    ensures n == 0 ==> Digits(n) == [48]
    ensures n > 0 ==> 49 <= Digits(n)[0] <= 57
    decreases n
  {
    if n >= 10 {
      LeadingDigit(n / 10);
    }
  }

  lemma {:induction false} DigitsOfValue(s: Bytes)
    requires s != [] && AllDigits(s) && (s[0] != 48 || |s| == 1)
    ensures Digits(Value(s)) == s && (s[0] != 48 ==> Value(s) > 0)
    decreases |s|
  {
    var n := |s| - 1;
    if n > 0 {
      var start := s[..n];
      DigitsOfValue(start);
      DigitsExtend(Value(start), s[n] - 48);
      assert s == start + [s[n]];
    } else {
      assert s[..0] == [] && s == [s[0]];
    }
  }

  lemma {:induction false} CanonicalPrints(m: Bytes)
    requires ParseI64(m).Some? && Canonical(m)
    ensures Print(ParseI64(m).value) == m
  {
    if m[0] == MINUS {
      DigitsOfValue(m[1..]);
      assert m == [MINUS] + m[1..];
    } else {
      DigitsOfValue(m);
    }
  }

  lemma {:induction false} PrintedCanonical(v: int)
    ensures Canonical(Print(v))
  {
    LeadingDigit(if v < 0 then 0 - v else v);
  }

  /** An integer prints back the way it was spelled exactly when the spelling is canonical. */
  lemma {:induction false} SpellingIff(m: Bytes)
    requires ParseI64(m).Some?
    ensures Print(ParseI64(m).value) == m <==> Canonical(m)
  {
    if Canonical(m) {
      CanonicalPrints(m);
    } else {
      PrintedCanonical(ParseI64(m).value);
    }
  }

  /** "05" is stored as "5". */
  lemma {:induction false} LeadingZeroCollapses()
    ensures var m: Bytes := [48, 53]; ParseI64(m) == Some(5) && !Canonical(m) && Print(5) == [53]
  {
    var m: Bytes := [48, 53];
    assert m[..1] == [48] && m[..1][..0] == [];
    assert Value(m[..1]) == 0;
    assert Value(m) == 5;
  }

  lemma {:induction false} DigitsShort(n: nat, k: nat, bound: nat)
    requires n < bound && bound == Tens(k) && k >= 1
    ensures |Digits(n)| <= k
    decreases k
  {
    if n >= 10 {
      DigitsShort(n / 10, k - 1, Tens(k - 1));
    }
  }

  function Tens(k: nat): nat {
    if k == 0 then 1 else 10 * Tens(k - 1)
  }

  lemma {:induction false} PrintShort(v: int)
    requires 0 - I64 <= v < I64
    ensures |Print(v)| <= 20
  {
    var n := if v < 0 then 0 - v else v;
    assert Tens(5) == 100000;
    assert Tens(10) == 100000 * Tens(5);
    assert Tens(15) == 100000 * Tens(10);
    assert Tens(19) == 10000 * Tens(15);
    DigitsShort(n, 19, Tens(19));
  }

  // ----- members -----

  ghost function Printed(data: seq<int>): set<Bytes> {
    set v | v in data :: Print(v)
  }

  lemma {:induction false} InPrinted(data: seq<int>, v: int)
    ensures Print(v) in Printed(data) <==> v in data
  {
    if Print(v) in Printed(data) {
      var w :| w in data && Print(w) == Print(v);
      PrintInjective(v, w);
    }
  }

  lemma {:induction false} PrintedParses(data: seq<int>, m: Bytes)
    requires AllI64(data) && m in Printed(data)
    ensures ParseI64(m).Some? && m == Print(ParseI64(m).value) && ParseI64(m).value in data
  {
    var v :| v in data && Print(v) == m;
    ParsePrinted(v, I64 - 1);
  }

  lemma {:induction false} PrintedInsert(data: seq<int>, data': seq<int>, v: int)
    requires forall x :: x in data' <==> x in data || x == v
    ensures Printed(data') == Printed(data) + {Print(v)}
  {
    assert Print(v) in Printed(data') by {
      assert v in data';
    }
  }

  lemma {:induction false} PrintedRemove(data: seq<int>, data': seq<int>, v: int)
    requires forall x :: x in data' <==> x in data && x != v
    ensures Printed(data') == Printed(data) - {Print(v)}
  {
    InPrinted(data', v);
    forall m | m in Printed(data) && m != Print(v) ensures m in Printed(data') {
      var w :| w in data && Print(w) == m;
      assert w in data';
    }
  }

  ghost function SetOf(entries: seq<Bytes>): set<Bytes> {
    set e | e in entries
  }

  ghost predicate NoRepeats(entries: seq<Bytes>) {
    forall i, j | 0 <= i < j < |entries| :: entries[i] != entries[j]
  }

  lemma {:induction false} EntryRemoved(entries: seq<Bytes>, at: nat)
    requires NoRepeats(entries) && at < |entries|
    ensures NoRepeats(entries[..at] + entries[at + 1..])
    ensures SetOf(entries[..at] + entries[at + 1..]) == SetOf(entries) - {entries[at]}
  {
    var rest := entries[..at] + entries[at + 1..];
    forall i | 0 <= i < |rest| ensures rest[i] in SetOf(entries) && rest[i] != entries[at] {
      assert rest[i] == entries[if i < at then i else i + 1];
    }
    forall e | e in entries && e != entries[at] ensures e in rest {
      var i :| 0 <= i < |entries| && entries[i] == e;
      assert rest[if i < at then i else i - 1] == e;
    }
  }

  lemma {:induction false} EntryAdded(entries: seq<Bytes>, m: Bytes)
    requires Packable(entries) && m !in entries && |entries| < LISTPACK_MAX_ENTRIES && |m| <= LISTPACK_MAX_VALUE_SIZE
    ensures Packable(entries + [m]) && SetOf(entries + [m]) == SetOf(entries) + {m}
  {
  }

  lemma {:induction false} OneMore(s: set<Bytes>, m: Bytes)
    ensures |s + {m}| == |s| + if m in s then 0 else 1
  {
    if m in s {
      assert s + {m} == s;
    }
  }

  lemma {:induction false} OneLess(s: set<Bytes>, m: Bytes)
    ensures |s - {m}| == |s| - if m in s then 1 else 0
  {
    if m !in s {
      assert s - {m} == s;
    }
  }

  /** What a packed set may hold: few and short entries, well within the codec's bound. */
  ghost predicate Packable(entries: seq<Bytes>) {
    |entries| <= LISTPACK_MAX_ENTRIES && AtMost(entries, LISTPACK_MAX_VALUE_SIZE) && NoRepeats(entries)
  }

  // ----- the set -----

  /** What is really added: an integer set keeps the number, the other encodings the bytes. */
  function Effective(inner: Encoding, m: Bytes): Bytes {
    if inner.Intset? && ParseI64(m).Some? && (ParseI64(m).value in inner.data || |inner.data| < INTSET_MAX_ENTRIES)
    then Print(ParseI64(m).value) else m
  }

  /** What is looked for. */
  function Target(inner: Encoding, m: Bytes): Bytes {
    if inner.Intset? && ParseI64(m).Some? then Print(ParseI64(m).value) else m
  }

  /** For a member that is no integer, or a canonical one, both are the member itself. */
  lemma {:induction false} CanonicalIsItself(inner: Encoding, m: Bytes)
    requires ParseI64(m).Some? ==> Canonical(m)
    ensures Effective(inner, m) == m && Target(inner, m) == m
  {
    if ParseI64(m).Some? {
      SpellingIff(m);
    }
  }

  /** In an integer set with room, adding an integer adds those very bytes exactly for a canonical spelling. */
  lemma {:induction false} EffectiveIff(data: seq<int>, m: Bytes)
    requires ParseI64(m).Some? && |data| < INTSET_MAX_ENTRIES
    ensures Effective(Intset(data), m) == m <==> Canonical(m)
  {
    SpellingIff(m);
  }

  /** Which encoding an insert leaves, and that a set keeps the one it has while the member fits. */
  ghost predicate Upgrades(before: Encoding, entries: seq<Bytes>, m: Bytes, after: Encoding) {
    match before
    case Intset(data) =>
      if ParseI64(m).Some? then
        if ParseI64(m).value in data || |data| < 512 then after.Intset? else after.Table?
      else
        if |data| < 128 && |m| <= 64 then after.Packed? else after.Table?
    case Packed(_) =>
      if m in entries || (|entries| < 128 && |m| <= 64) then after.Packed? else after.Table?
    case Table(_) => after.Table?
  }

  /** `upgrade_intset_to_hashtable` */
  method PrintedTable(data: seq<int>) returns (table: set<Bytes>)
    ensures table == Printed(data)
  {
    table := {};
    for i := 0 to |data|
      invariant table == Printed(data[..i])
    {
      assert data[..i + 1] == data[..i] + [data[i]];
      PrintedInsert(data[..i], data[..i + 1], data[i]);
      table := table + {Print(data[i])};
    }
    assert data[..|data|] == data;
  }

  lemma {:induction false} PackedFits(data: seq<int>)
    requires Increasing(data) && AllI64(data) && |data| < LISTPACK_MAX_ENTRIES
    ensures Packable(PrintAll(data)) && SetOf(PrintAll(data)) == Printed(data)
  {
    var all := PrintAll(data);
    forall i | 0 <= i < |all| ensures |all[i]| <= LISTPACK_MAX_VALUE_SIZE && all[i] in Printed(data) {
      PrintShort(data[i]);
      assert data[i] in data;
    }
    forall i, j | 0 <= i < j < |all| ensures all[i] != all[j] {
      if all[i] == all[j] {
        PrintInjective(data[i], data[j]);
      }
    }
    forall m | m in Printed(data) ensures m in all {
      var v :| v in data && Print(v) == m;
      var i :| 0 <= i < |data| && data[i] == v;
      assert all[i] == m;
    }
  }

  /** `upgrade_intset_to_listpack`: one entry after the other is pushed. */
  method PackIntegers(data: seq<int>) returns (node: Node)
    requires AllI64(data) && |data| < LISTPACK_MAX_ENTRIES
    ensures Describes(node, PrintAll(data))
  {
    node := Node([], 0, NULL, NULL);
    for i := 0 to |data|
      invariant Describes(node, PrintAll(data[..i]))
    {
      PrintShort(data[i]);
      assert PrintAll(data[..i + 1]) == PrintAll(data[..i]) + [Print(data[i])];
      node := PushBack(node, Print(data[i]), PrintAll(data[..i]));
    }
    assert data[..|data|] == data;
  }

  /** `lp_push_back` */
  method PushBack(node: Node, e: Bytes, ghost entries: seq<Bytes>) returns (node': Node)
    requires Describes(node, entries) && |entries| + 1 < U16 && |e| <= 249
    ensures Describes(node', entries + [e])
  {
    var all := DecodeNode(node, entries);
    node' := EncodeNode(all + [e]);
  }

  method DecodeNode(node: Node, ghost entries: seq<Bytes>) returns (all: seq<Bytes>)
    requires Describes(node, entries)
    ensures all == entries
  {
    DecodesPart(node, entries);
    all := DecodeAll(node);
  }

  method EncodeNode(all: seq<Bytes>) returns (node: Node)
    requires Elements(all) && |all| < U16
    ensures Describes(node, all)
  {
    var data := EncodeNodeEntries(all);
    node := Node(data, |all| % U16, NULL, NULL);
  }

  method Position(all: seq<Bytes>, m: Bytes) returns (at: Option<nat>)
    ensures at.None? <==> m !in all
    ensures at.Some? ==> at.value < |all| && all[at.value] == m
  {
    for i := 0 to |all|
      invariant m !in all[..i]
    {
      if all[i] == m {
        return Some(i);
      }
    }
    assert all[..|all|] == all;
    return None;
  }

  class SetObject {
    var inner: Encoding
    var len: nat
    const lossy: Bytes -> Bytes
    ghost var members: set<Bytes>
    ghost var entries: seq<Bytes>

    ghost predicate Holds()
      reads this
    {
      match inner
      case Intset(data) => Increasing(data) && AllI64(data) && |data| <= INTSET_MAX_ENTRIES && members == Printed(data)
      case Packed(node) => Describes(node, entries) && Packable(entries) && members == SetOf(entries)
      case Table(table) => members == table
    }

    /** No member is changed by the conversion to text. */
    ghost predicate Textual()
      reads this
    {
      (forall v: int :: lossy(Print(v)) == Print(v)) && (forall m | m in members :: lossy(m) == m)
    }

    ghost predicate Valid()
      reads this
    {
      Holds() && len == |members| && Textual()
    }

    /** The encoding that is there now has room for the member. */
    ghost predicate HasRoom(m: Bytes)
      reads this
    {
      match inner
      case Intset(data) => ParseI64(m).Some? && (ParseI64(m).value in data || |data| < INTSET_MAX_ENTRIES)
      case Packed(_) => m in entries || (|entries| < LISTPACK_MAX_ENTRIES && |m| <= LISTPACK_MAX_VALUE_SIZE)
      case Table(_) => true
    }

    constructor (lossy: Bytes -> Bytes)
      requires forall v: int :: lossy(Print(v)) == Print(v)
      ensures Valid() && members == {} && this.lossy == lossy && inner == Intset([])
    {
      inner, len := Intset([]), 0;
      this.lossy := lossy;
      members, entries := {}, [];
    }

    method Contains(m: Bytes) returns (found: bool)
      requires Valid() && lossy(m) == m
      ensures found <==> Target(inner, m) in members
      ensures (ParseI64(m).Some? ==> Canonical(m)) ==> (found <==> m in members)
    {
      if ParseI64(m).Some? ==> Canonical(m) {
        CanonicalIsItself(inner, m);
      }
      match inner
      case Intset(data) =>
        var value := ParseI64(m);
        if value.None? {
          NoSuchInteger(data, m);
          return false;
        }
        InPrinted(data, value.value);
        found := IntsetContains(data, value.value);
      case Packed(node) =>
        found := PackedContains(node, m);
      case Table(table) =>
        found := lossy(m) in table;
    }

    method PackedContains(node: Node, m: Bytes) returns (found: bool)
      requires Describes(node, entries) && Packable(entries)
      ensures found <==> m in entries
    {
      if m == [] {
        var all := DecodeNode(node, entries);
        return m in all;
      }
      var decode := (o: nat) => DecodeEntryAt(node.data, o);
      NodeWalks(decode, node, entries);
      found := SearchEntries(decode, |node.data|, m, entries);
    }

    /** `ensure_encoding_for_insert`: upgrade first if the member will not fit. */
    method EnsureEncoding(m: Bytes)
      requires Valid()
      modifies this`inner, this`entries
      ensures Valid() && HasRoom(m) && Target(inner, m) == Effective(old(inner), m)
      ensures Upgrades(old(inner), old(entries), m, inner)
    {
      match inner
      case Intset(data) =>
        var value := ParseI64(m);
        var present := false;
        if value.Some? {
          present := IntsetContains(data, value.value);
        }
        if present {
          return;
        }
        var newLen := |data| + 1;
        if (value.None? && (newLen > LISTPACK_MAX_ENTRIES || |m| > LISTPACK_MAX_VALUE_SIZE)) || newLen > INTSET_MAX_ENTRIES {
          var table := PrintedTable(data);
          inner := Table(table);
        } else if value.None? {
          PackedFits(data);
          var node := PackIntegers(data);
          inner, entries := Packed(node), PrintAll(data);
        }
      case Packed(node) =>
        var present := PackedContains(node, m);
        if present {
          return;
        }
        if node.count + 1 > LISTPACK_MAX_ENTRIES || |m| > LISTPACK_MAX_VALUE_SIZE {
          var all := DecodeNode(node, entries);
          var table := TableOf(all);
          inner := Table(table);
        }
      case Table(_) =>
    }

    /** `upgrade_listpack_to_hashtable` */
    method TableOf(all: seq<Bytes>) returns (table: set<Bytes>)
      requires forall e | e in all :: lossy(e) == e
      ensures table == SetOf(all)
    {
      table := {};
      for i := 0 to |all|
        invariant table == SetOf(all[..i])
      {
        assert all[i] in all && all[..i + 1] == all[..i] + [all[i]];
        table := table + {lossy(all[i])};
      }
      assert all[..|all|] == all;
    }

    method Add(m: Bytes) returns (inserted: bool)
      requires Valid() && lossy(m) == m
      modifies this
      ensures Valid() && members == old(members) + {Effective(old(inner), m)}
      ensures inserted <==> Effective(old(inner), m) !in old(members)
      ensures Upgrades(old(inner), old(entries), m, inner)
      ensures (ParseI64(m).Some? ==> Canonical(m)) ==>
                members == old(members) + {m} && (inserted <==> m !in old(members))
    {
      if ParseI64(m).Some? ==> Canonical(m) {
        CanonicalIsItself(inner, m);
      }
      inserted := AddSpelled(m);
    }

    method AddSpelled(m: Bytes) returns (inserted: bool)
      requires Valid() && lossy(m) == m
      modifies this
      ensures Valid() && members == old(members) + {Effective(old(inner), m)}
      ensures inserted <==> Effective(old(inner), m) !in old(members)
      ensures Upgrades(old(inner), old(entries), m, inner)
    {
      EnsureEncoding(m);
      inserted := AddHere(m);
      if inserted {
        len := len + 1;
      }
    }

    /** Into the encoding that is there now. */
    method AddHere(m: Bytes) returns (inserted: bool)
      requires Valid() && lossy(m) == m && HasRoom(m)
      modifies this`inner, this`members, this`entries
      ensures Holds() && Textual() && members == old(members) + {Target(old(inner), m)}
      ensures (old(inner).Intset? <==> inner.Intset?) && (old(inner).Packed? <==> inner.Packed?)
      ensures inserted <==> Target(old(inner), m) !in old(members)
      ensures |members| == len + if inserted then 1 else 0
    {
      OneMore(members, Target(inner, m));
      match inner
      case Intset(data) =>
        inserted := AddInteger(data, ParseI64(m).value);
      case Packed(node) =>
        inserted := AddPacked(node, m);
      case Table(table) =>
        inserted := lossy(m) !in table;
        inner := Table(table + {lossy(m)});
        members := members + {m};
    }

    method Remove(m: Bytes) returns (removed: bool)
      requires Valid() && lossy(m) == m
      modifies this
      ensures Valid() && members == old(members) - {Target(old(inner), m)}
      ensures (old(inner).Intset? <==> inner.Intset?) && (old(inner).Packed? <==> inner.Packed?)
      ensures removed <==> Target(old(inner), m) in old(members)
      ensures (ParseI64(m).Some? ==> Canonical(m)) ==>
                members == old(members) - {m} && (removed <==> m in old(members))
    {
      if ParseI64(m).Some? ==> Canonical(m) {
        CanonicalIsItself(inner, m);
      }
      removed := RemoveHere(m);
      if removed {
        len := len - 1;
      }
    }

    method RemoveHere(m: Bytes) returns (removed: bool)
      requires Valid() && lossy(m) == m
      modifies this`inner, this`members, this`entries
      ensures Holds() && Textual() && members == old(members) - {Target(old(inner), m)}
      ensures (old(inner).Intset? <==> inner.Intset?) && (old(inner).Packed? <==> inner.Packed?)
      ensures removed <==> Target(old(inner), m) in old(members)
      ensures |members| == len - if removed then 1 else 0
    {
      OneLess(members, Target(inner, m));
      match inner
      case Intset(data) =>
        removed := RemoveSpelled(data, m);
      case Packed(node) =>
        removed := RemovePacked(node, m);
      case Table(table) =>
        removed := lossy(m) in table;
        inner := Table(table - {lossy(m)});
        members := members - {m};
    }

    method RemoveSpelled(data: seq<int>, m: Bytes) returns (removed: bool)
      requires inner == Intset(data) && Holds()
      modifies this`inner, this`members
      ensures inner.Intset? && Holds() && members == old(members) - {Target(old(inner), m)}
      ensures removed <==> Target(old(inner), m) in old(members)
    {
      var value := ParseI64(m);
      if value.None? {
        NoSuchInteger(data, m);
        return false;
      }
      removed := RemoveInteger(data, value.value);
    }

    method RemoveInteger(data: seq<int>, value: int) returns (removed: bool)
      requires inner == Intset(data) && Holds()
      modifies this`inner, this`members
      ensures inner.Intset? && Holds() && members == old(members) - {Print(value)}
      ensures removed <==> Print(value) in old(members)
    {
      InPrinted(data, value);
      var data';
      data', removed := IntsetRemove(data, value);
      PrintedRemove(data, data', value);
      forall i | 0 <= i < |data'| ensures 0 - I64 <= data'[i] < I64 {
        assert data'[i] in data';
      }
      inner := Intset(data');
      members := Printed(data');
    }

    /** `lp_set_remove` */
    method RemovePacked(node: Node, m: Bytes) returns (removed: bool)
      requires inner == Packed(node) && Holds()
      modifies this`inner, this`members, this`entries
      ensures inner.Packed? && Holds() && members == old(members) - {m}
      ensures removed <==> m in old(members)
    {
      var all := DecodeNode(node, entries);
      var at := Position(all, m);
      if at.None? {
        return false;
      }
      EntryRemoved(all, at.value);
      var rest := all[..at.value] + all[at.value + 1..];
      var node' := EncodeNode(rest);
      inner, entries := Packed(node'), rest;
      members := members - {m};
      return true;
    }

    method AddInteger(data: seq<int>, value: int) returns (inserted: bool)
      requires inner == Intset(data) && Holds() && 0 - I64 <= value < I64
      requires value in data || |data| < INTSET_MAX_ENTRIES
      modifies this`inner, this`members
      ensures inner.Intset? && Holds() && members == old(members) + {Print(value)}
      ensures inserted <==> Print(value) !in old(members)
    {
      InPrinted(data, value);
      var data';
      data', inserted := IntsetInsert(data, value);
      PrintedInsert(data, data', value);
      forall i | 0 <= i < |data'| ensures 0 - I64 <= data'[i] < I64 {
        assert data'[i] in data';
      }
      inner := Intset(data');
      members := Printed(data');
    }

    /** `lp_set_insert` */
    method AddPacked(node: Node, m: Bytes) returns (inserted: bool)
      requires inner == Packed(node) && Holds()
      requires m in entries || (|entries| < LISTPACK_MAX_ENTRIES && |m| <= LISTPACK_MAX_VALUE_SIZE)
      modifies this`inner, this`members, this`entries
      ensures inner.Packed? && Holds() && members == old(members) + {m}
      ensures inserted <==> m !in old(members)
    {
      var present := PackedContains(node, m);
      if present {
        return false;
      }
      EntryAdded(entries, m);
      var node' := PushBack(node, m, entries);
      inner, entries := Packed(node'), entries + [m];
      members := members + {m};
      return true;
    }
  }

  lemma {:induction false} NoSuchInteger(data: seq<int>, m: Bytes)
    requires AllI64(data) && ParseI64(m).None?
    ensures m !in Printed(data)
  {
    if m in Printed(data) {
      PrintedParses(data, m);
    }
  }

  lemma {:induction false} NodeWalks(decode: nat -> Option<(Bytes, nat)>, node: Node, entries: seq<Bytes>)
    requires ReadsFrom(decode, node.data) && Describes(node, entries) && Packable(entries)
    ensures Walks(decode, |node.data|, 0, entries)
  {
    EncodedWalks(decode, node.data, 0, entries, 0);
  }
}
