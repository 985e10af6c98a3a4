/**
 The hash of senko-core/src/hash.rs: a table of fields and, while it stays small, a packed
 copy of it.  The packed copy is a header of four bytes and then, for each field, its length,
 its bytes, the value's length and the value's bytes.  The order in which the table lists its
 fields is left open.
 */
module HashObject {
  import opened Common
  import opened Listpack

  const LISTPACK_MAX_ENTRIES: nat := 128
  const LISTPACK_MAX_ELEM_SIZE: nat := 64
  const HEADER: nat := 4

  type Pair = (Bytes, Bytes)

  datatype Field = Field(value: Bytes, expiresAt: Option<nat>)

  // ----- the packed form -----

  function EncodePair(p: Pair): Bytes {
    ([|p.0| % 256] + p.0) + ([|p.1| % 256] + p.1)
  }

  function EncodePairs(pairs: seq<Pair>): Bytes {
    if pairs == [] then [] else EncodePair(pairs[0]) + EncodePairs(pairs[1..])
  }

  ghost predicate Short(pairs: seq<Pair>) {
    forall k | 0 <= k < |pairs| :: |pairs[k].0| <= 255 && |pairs[k].1| <= 255
  }

  /** One length-prefixed piece at `idx`, and where it ends. */
  function Piece(bytes: Bytes, idx: nat): (r: Option<(Bytes, nat)>)
    ensures r.Some? ==> idx < r.value.1 <= |bytes|
  {
    if idx >= |bytes| || idx + 1 + bytes[idx] > |bytes| then None
    else Some((bytes[idx + 1..idx + 1 + bytes[idx]], idx + 1 + bytes[idx]))
  }

  /** `decode_listpack_entries` from `idx` on. */
  function DecodePairs(bytes: Bytes, idx: nat): seq<Pair>
    decreases |bytes| - idx
  {
    match Piece(bytes, idx)
    case None => []
    case Some((field, middle)) =>
      match Piece(bytes, middle)
      case None => []
      case Some((value, end)) => [(field, value)] + DecodePairs(bytes, end)
  }

  method DecodeListpack(bytes: Bytes) returns (pairs: seq<Pair>)
    ensures pairs == DecodePairs(bytes, HEADER)
  {
    pairs := [];
    var idx: nat := HEADER;
    while idx < |bytes|
      invariant DecodePairs(bytes, HEADER) == pairs + DecodePairs(bytes, idx)
      decreases |bytes| - idx
    {
      var first := Piece(bytes, idx);
      if first.None? {
        return;
      }
      var second := Piece(bytes, first.value.1);
      if second.None? {
        return;
      }
      Assoc(pairs, [(first.value.0, second.value.0)], DecodePairs(bytes, second.value.1));
      pairs := pairs + [(first.value.0, second.value.0)];
      idx := second.value.1;
    }
  }

  /** `bytes` from `idx` on is exactly the encoding of these pairs. */
  ghost predicate EndsWith(bytes: Bytes, idx: nat, pairs: seq<Pair>) {
    idx <= |bytes| && bytes[idx..] == EncodePairs(pairs) && Short(pairs)
  }

  lemma {:induction false} PieceReads(bytes: Bytes, idx: nat, piece: Bytes)
    requires |piece| <= 255 && StandsAt(bytes, idx, [|piece| % 256] + piece)
    ensures Piece(bytes, idx) == Some((piece, idx + 1 + |piece|))
  {
    StandsFirst(bytes, idx, |piece| % 256, piece);
  }

  lemma {:induction false} PairReads(bytes: Bytes, idx: nat, pairs: seq<Pair>) returns (middle: nat, end: nat)
    requires pairs != [] && EndsWith(bytes, idx, pairs)
    ensures Piece(bytes, idx) == Some((pairs[0].0, middle)) && Piece(bytes, middle) == Some((pairs[0].1, end))
    ensures middle == idx + 1 + |pairs[0].0| && end == middle + 1 + |pairs[0].1|
    ensures EndsWith(bytes, end, pairs[1..])
  {
    var (field, value) := pairs[0];
    var a, b := [|field| % 256] + field, [|value| % 256] + value;
    middle, end := idx + |a|, idx + |a| + |b|;
    var rest := EncodePairs(pairs[1..]);
    assert bytes[idx..] == (a + b) + rest;
    assert bytes[idx..idx + |a + b|] == bytes[idx..][..|a + b|] == a + b;
    assert bytes[end..] == bytes[idx..][|a + b|..] == rest;
    StandsSplit(bytes, idx, a, b);
    PieceReads(bytes, idx, field);
    PieceReads(bytes, middle, value);
  }

  lemma {:induction false} DecodeEncoded(bytes: Bytes, idx: nat, pairs: seq<Pair>)
    requires EndsWith(bytes, idx, pairs)
    ensures DecodePairs(bytes, idx) == pairs
    decreases |pairs|
  {
    if pairs != [] {
      var middle, end := PairReads(bytes, idx, pairs);
      DecodeEncoded(bytes, end, pairs[1..]);
      assert pairs == [pairs[0]] + pairs[1..];
    }
  }

  lemma {:induction false} FourBytes(n: nat)
    requires n < U32
    ensures n == n % 256 + 256 * (n / 256 % 256) + 65536 * (n / 65536 % 256) + 16777216 * (n / 16777216 % 256)
  {
    var a := n / 256;
    var b := a / 256;
    assert b == n / 65536 && b / 256 == n / 16777216;
  }

  /** A pair is stored as the length and the bytes of its field and then those of its value. */
  lemma {:induction false} PairLayout(field: Bytes, value: Bytes, rest: seq<Pair>)
    requires |field| <= 255 && |value| <= 255
    ensures EncodePairs([]) == []
    ensures EncodePairs([(field, value)] + rest) == [|field|] + field + [|value|] + value + EncodePairs(rest)
  {
    assert ([(field, value)] + rest)[1..] == rest;
  }

  lemma {:induction false} PairsOn(body: Bytes, pairs: seq<Pair>, k: nat)
    requires k < |pairs| && EncodePairs(pairs) == body + EncodePairs(pairs[k..])
    ensures EncodePairs(pairs) == body + EncodePair(pairs[k]) + EncodePairs(pairs[k + 1..])
  {
    assert pairs[k..][0] == pairs[k] && pairs[k..][1..] == pairs[k + 1..];
    Assoc(body, EncodePair(pairs[k]), EncodePairs(pairs[k + 1..]));
  }

  /** `encode_listpack_entries`: none when a length does not fit a byte; the header holds the total length. */
  method EncodeListpack(pairs: seq<Pair>) returns (bytes: Option<Bytes>)
    ensures bytes.Some? <==> Short(pairs)
    ensures bytes.Some? ==> EndsWith(bytes.value, HEADER, pairs)
    ensures bytes.Some? && |bytes.value| < U32 ==>
              var b := bytes.value;
              |b| == b[0] + 256 * (b[1] as int) + 65536 * (b[2] as int) + 16777216 * (b[3] as int)
  {
    var body: Bytes := [];
    for k := 0 to |pairs|
      invariant EncodePairs(pairs) == body + EncodePairs(pairs[k..])
      invariant Short(pairs[..k])
    {
      if |pairs[k].0| > 255 || |pairs[k].1| > 255 {
        return None;
      }
      PairsOn(body, pairs, k);
      body := body + EncodePair(pairs[k]);
    }
    assert pairs[..|pairs|] == pairs;
    var total: nat := HEADER + |body|;
    var all: Bytes := [total % 256, total / 256 % 256, total / 65536 % 256, total / 16777216 % 256] + body;
    assert all[HEADER..] == body;
    if total < U32 {
      FourBytes(total);
    }
    return Some(all);
  }

  // ----- searching the packed form -----

  /** The offsets at which the entries start, and at the end the length of the whole. */
  ghost predicate Layout(bytes: Bytes, starts: seq<nat>) {
    && starts != [] && starts[0] == HEADER && starts[|starts| - 1] == |bytes|
    && forall k | 0 <= k < |starts| - 1 :: Follows(bytes, starts[k], starts[k + 1])
  }

  ghost predicate Follows(bytes: Bytes, idx: nat, next: nat) {
    && idx < |bytes|
    && var middle := idx + 1 + bytes[idx];
       middle < |bytes| && next == middle + 1 + bytes[middle]
  }

  /** The loop of `listpack_entry_starts_at`. */
  method WalkTo(bytes: Bytes, target: nat, ghost starts: seq<nat>) returns (ok: bool, ghost at: nat)
    requires Layout(bytes, starts)
    ensures ok ==> at < |starts| - 1 && starts[at] == target
    ensures !ok ==> forall k | 0 <= k < |starts| - 1 :: starts[k] != target
  {
    var idx: nat := HEADER;
    at := 0;
    while idx < |bytes|
      invariant at < |starts| && idx == starts[at]
      invariant forall k | 0 <= k < at :: starts[k] != target
      decreases |starts| - at
    {
      if idx == target {
        return true, at;
      }
      assert Follows(bytes, starts[at], starts[at + 1]);
      idx := idx + 1 + bytes[idx];
      idx := idx + 1 + bytes[idx];
      at := at + 1;
    }
    assert at < |starts| - 1 ==> Follows(bytes, starts[at], starts[at + 1]);
    return false, at;
  }

  /** `listpack_entry_starts_at` */
  method EntryStartsAt(bytes: Bytes, target: nat, ghost pairs: seq<Pair>) returns (ok: bool, ghost at: nat)
    requires EndsWith(bytes, HEADER, pairs)
    ensures ok ==> at < |pairs| && EndsWith(bytes, target, pairs[at..])
    ensures !ok ==> forall k | 0 <= k < |pairs| :: !EndsWith(bytes, target, pairs[k..])
  {
    ghost var starts := StartsOf(bytes, HEADER, pairs);
    ok, at := WalkTo(bytes, target, starts);
    if !ok {
      StartsElsewhere(bytes, target, pairs, starts);
    }
  }

  ghost predicate StartsAt(bytes: Bytes, pairs: seq<Pair>, starts: seq<nat>) {
    |starts| == |pairs| + 1 && forall k | 0 <= k <= |pairs| :: EndsWith(bytes, starts[k], pairs[k..])
  }

  lemma {:induction false} StartsOf(bytes: Bytes, idx: nat, pairs: seq<Pair>) returns (starts: seq<nat>)
    requires EndsWith(bytes, idx, pairs)
    ensures StartsAt(bytes, pairs, starts) && starts[0] == idx && starts[|pairs|] == |bytes|
    ensures forall k | 0 <= k < |pairs| :: Follows(bytes, starts[k], starts[k + 1])
    decreases |pairs|
  {
    if pairs == [] {
      starts := [idx];
    } else {
      var middle, end := PairReads(bytes, idx, pairs);
      var later := StartsOf(bytes, end, pairs[1..]);
      starts := [idx] + later;
      ConsEnds((i: nat, ps: seq<Pair>) => EndsWith(bytes, i, ps), idx, pairs, later);
      ConsFollows(bytes, idx, later);
    }
  }

  lemma {:induction false} ConsEnds(ends: (nat, seq<Pair>) -> bool, idx: nat, pairs: seq<Pair>, later: seq<nat>)
    requires pairs != [] && |later| == |pairs| && ends(idx, pairs)
    requires forall k | 0 <= k < |pairs| :: ends(later[k], pairs[1..][k..])
    ensures forall k | 0 <= k <= |pairs| :: ends(([idx] + later)[k], pairs[k..])
  {
    forall k | 0 <= k <= |pairs| ensures ends(([idx] + later)[k], pairs[k..]) {
      if k > 0 {
        assert ends(later[k - 1], pairs[1..][k - 1..]) && pairs[1..][k - 1..] == pairs[k..];
      } else {
        assert pairs[0..] == pairs;
      }
    }
  }

  lemma {:induction false} ConsFollows(bytes: Bytes, idx: nat, later: seq<nat>)
    requires later != [] && Follows(bytes, idx, later[0])
    requires forall k | 0 <= k < |later| - 1 :: Follows(bytes, later[k], later[k + 1])
    ensures forall k | 0 <= k < |later| :: Follows(bytes, ([idx] + later)[k], ([idx] + later)[k + 1])
  {
    forall k | 0 <= k < |later| ensures Follows(bytes, ([idx] + later)[k], ([idx] + later)[k + 1]) {
      assert k > 0 ==> Follows(bytes, later[k - 1], later[k]);
    }
  }

  lemma {:induction false} StartsElsewhere(bytes: Bytes, target: nat, pairs: seq<Pair>, starts: seq<nat>)
    requires StartsAt(bytes, pairs, starts)
    requires forall k | 0 <= k < |pairs| :: starts[k] != target
    ensures forall k | 0 <= k < |pairs| :: !EndsWith(bytes, target, pairs[k..])
  {
    forall k | 0 <= k < |pairs| ensures !EndsWith(bytes, target, pairs[k..]) {
      OneStart(bytes, starts[k], target, pairs[k..]);
    }
  }

  /** The encoding of the same pairs starts at one place only. */
  lemma {:induction false} OneStart(bytes: Bytes, idx: nat, target: nat, rest: seq<Pair>)
    requires EndsWith(bytes, idx, rest) && idx != target
    ensures !EndsWith(bytes, target, rest)
  {
    assert |bytes[idx..]| == |bytes| - idx;
  }

  lemma {:induction false} StartExists(bytes: Bytes, idx: nat, pairs: seq<Pair>, k: nat) returns (t: nat)
    requires EndsWith(bytes, idx, pairs) && k < |pairs|
    ensures idx <= t && EndsWith(bytes, t, pairs[k..])
    decreases k
  {
    if k == 0 {
      assert pairs[0..] == pairs;
      t := idx;
    } else {
      var middle, end := PairReads(bytes, idx, pairs);
      t := StartExists(bytes, end, pairs[1..], k - 1);
      assert pairs[1..][k - 1..] == pairs[k..];
    }
  }

  /** Every entry of the field still lies ahead. */
  ghost predicate Ahead(bytes: Bytes, cursor: nat, field: Bytes, pairs: seq<Pair>) {
    forall k, t: nat | 0 <= k < |pairs| && pairs[k].0 == field && EndsWith(bytes, t, pairs[k..]) :: cursor <= t + 1
  }

  lemma {:induction false} AllAhead(bytes: Bytes, field: Bytes, pairs: seq<Pair>)
    requires EndsWith(bytes, HEADER, pairs)
    ensures Ahead(bytes, HEADER, field, pairs)
  {
    forall k, t: nat | 0 <= k < |pairs| && pairs[k].0 == field && EndsWith(bytes, t, pairs[k..]) ensures HEADER <= t + 1 {
      var t' := StartExists(bytes, HEADER, pairs, k);
      if t != t' {
        OneStart(bytes, t', t, pairs[k..]);
      }
    }
  }

  lemma {:induction false} EntryStands(bytes: Bytes, t: nat, rest: seq<Pair>)
    requires rest != [] && EndsWith(bytes, t, rest)
    ensures t < |bytes| && bytes[t] == |rest[0].0| && StandsAt(bytes, t + 1, rest[0].0)
  {
    var middle, end := PairReads(bytes, t, rest);
  }

  /** A place that is passed over was not the start of the field's entry. */
  lemma {:induction false} AheadOn(bytes: Bytes, cursor: nat, at: nat, field: Bytes, pairs: seq<Pair>)
    requires Ahead(bytes, cursor, field, pairs) && cursor <= at && at >= 1
    requires forall i | cursor <= i < at :: !StandsAt(bytes, i, field)
    requires forall k | 0 <= k < |pairs| && pairs[k].0 == field :: !EndsWith(bytes, at - 1, pairs[k..])
    ensures Ahead(bytes, at + 1, field, pairs)
  {
    forall k, t: nat | 0 <= k < |pairs| && pairs[k].0 == field && EndsWith(bytes, t, pairs[k..]) ensures at + 1 <= t + 1 {
      EntryStands(bytes, t, pairs[k..]);
      assert cursor <= t + 1;
    }
  }

  lemma {:induction false} NotHere(bytes: Bytes, at: nat, field: Bytes, pairs: seq<Pair>)
    requires 1 <= at <= |bytes| && bytes[at - 1] != |field|
    ensures forall k | 0 <= k < |pairs| && pairs[k].0 == field :: !EndsWith(bytes, at - 1, pairs[k..])
  {
    forall k | 0 <= k < |pairs| && pairs[k].0 == field && EndsWith(bytes, at - 1, pairs[k..]) ensures false {
      EntryStands(bytes, at - 1, pairs[k..]);
    }
  }

  lemma {:induction false} NowhereAhead(bytes: Bytes, cursor: nat, field: Bytes, pairs: seq<Pair>)
    requires EndsWith(bytes, HEADER, pairs) && Ahead(bytes, cursor, field, pairs)
    requires forall i | cursor <= i :: !StandsAt(bytes, i, field)
    ensures forall k | 0 <= k < |pairs| :: pairs[k].0 != field
  {
    forall k | 0 <= k < |pairs| ensures pairs[k].0 != field {
      var t := StartExists(bytes, HEADER, pairs, k);
      EntryStands(bytes, t, pairs[k..]);
    }
  }

  /** The value of a field that is not empty; an empty field is never looked for. */
  method SearchListpack(bytes: Bytes, field: Bytes, ghost pairs: seq<Pair>) returns (r: Option<Bytes>)
    requires EndsWith(bytes, HEADER, pairs)
    ensures field == [] ==> r == None
    ensures field != [] && r.Some? ==> (field, r.value) in pairs
    ensures field != [] && r.None? ==> forall k | 0 <= k < |pairs| :: pairs[k].0 != field
  {
    if field == [] || |field| > 255 {
      return None;
    }
    var cursor: nat := HEADER;
    AllAhead(bytes, field, pairs);
    while true
      invariant HEADER <= cursor && Ahead(bytes, cursor, field, pairs)
      decreases |bytes| - cursor
    {
      var found := FindFrom(bytes, field, cursor);
      if found.None? {
        NowhereAhead(bytes, cursor, field, pairs);
        return None;
      }
      var at := found.value;
      r := ValueBehind(bytes, at, field, pairs);
      if r.Some? {
        return;
      }
      AheadOn(bytes, cursor, at, field, pairs);
      cursor := at + 1;
    }
  }

  /** The value behind the field that stands at `at`, when an entry starts there. */
  method ValueBehind(bytes: Bytes, at: nat, field: Bytes, ghost pairs: seq<Pair>) returns (r: Option<Bytes>)
    requires EndsWith(bytes, HEADER, pairs) && at >= 1 && StandsAt(bytes, at, field)
    ensures r.Some? ==> (field, r.value) in pairs
    ensures r.None? ==> forall k | 0 <= k < |pairs| && pairs[k].0 == field :: !EndsWith(bytes, at - 1, pairs[k..])
  {
    if bytes[at - 1] != |field| {
      NotHere(bytes, at, field, pairs);
      return None;
    }
    ghost var k;
    var start;
    start, k := EntryStartsAt(bytes, at - 1, pairs);
    if !start {
      return None;
    }
    ValueHere(bytes, at, field, pairs, k);
    var idx := at + |field|;
    return Some(bytes[idx + 1..idx + 1 + bytes[idx]]);
  }

  lemma {:induction false} ValueHere(bytes: Bytes, at: nat, field: Bytes, pairs: seq<Pair>, k: nat)
    requires k < |pairs| && at >= 1 && EndsWith(bytes, at - 1, pairs[k..]) && bytes[at - 1] == |field|
    requires StandsAt(bytes, at, field)
    ensures pairs[k].0 == field && Piece(bytes, at + |field|).Some?
    ensures (field, Piece(bytes, at + |field|).value.0) in pairs
  {
    var middle, end := PairReads(bytes, at - 1, pairs[k..]);
    EntryStands(bytes, at - 1, pairs[k..]);
    assert pairs[k] == (field, Piece(bytes, at + |field|).value.0);
  }

  // ----- table and mirror -----

  /** The pairs list each field of the table once, with its value. */
  ghost predicate Mirrors(pairs: seq<Pair>, fields: map<Bytes, Field>) {
    && (forall i, j | 0 <= i < j < |pairs| :: pairs[i].0 != pairs[j].0)
    && (forall i | 0 <= i < |pairs| :: pairs[i].0 in fields && fields[pairs[i].0].value == pairs[i].1)
    && (forall f | f in fields :: (f, fields[f].value) in pairs)
  }

  predicate Expired(field: Field, now: nat) {
    field.expiresAt.Some? && field.expiresAt.value <= now
  }

  ghost function Live(fields: map<Bytes, Field>, now: nat): set<Bytes> {
    set f | f in fields && !Expired(fields[f], now)
  }

  predicate Small(fields: map<Bytes, Field>) {
    forall f | f in fields :: |f| <= LISTPACK_MAX_ELEM_SIZE && |fields[f].value| <= LISTPACK_MAX_ELEM_SIZE
  }

  predicate AnyExpiry(fields: map<Bytes, Field>) {
    exists f | f in fields :: fields[f].expiresAt.Some?
  }

  /** List a table in some order. */
  method ListPairs(fields: map<Bytes, Field>) returns (pairs: seq<Pair>)
    ensures Mirrors(pairs, fields)
  {
    pairs := [];
    var rest := fields.Keys;
    while rest != {}
      invariant rest <= fields.Keys
      invariant forall i | 0 <= i < |pairs| :: pairs[i].0 in fields && pairs[i].0 !in rest && fields[pairs[i].0].value == pairs[i].1
      invariant forall i, j | 0 <= i < j < |pairs| :: pairs[i].0 != pairs[j].0
      invariant forall f | f in fields && f !in rest :: (f, fields[f].value) in pairs
      decreases rest
    {
      var f :| f in rest;
      pairs := pairs + [(f, fields[f].value)];
      rest := rest - {f};
    }
  }

  lemma {:induction false} NoneExpired(fields: map<Bytes, Field>, now: nat)
    requires !AnyExpiry(fields)
    ensures fields.Keys - Live(fields, now) == {} && fields == fields - {}
  {
  }

  /** The live fields are those without a deadline and those whose deadline is still to come. */
  lemma {:induction false} LiveIsUnexpired(fields: map<Bytes, Field>, now: nat)
    ensures Live(fields, now) == set f | f in fields && (fields[f].expiresAt.None? || fields[f].expiresAt.value > now)
  {
  }

  lemma {:induction false} EachListed(pairs: seq<Pair>, fields: map<Bytes, Field>)
    requires Mirrors(pairs, fields)
    ensures forall f | f in fields :: exists k | 0 <= k < |pairs| :: pairs[k].0 == f
  {
    forall f | f in fields ensures exists k | 0 <= k < |pairs| :: pairs[k].0 == f {
      var k :| 0 <= k < |pairs| && pairs[k] == (f, fields[f].value);
      assert pairs[k].0 == f;
    }
  }

  lemma {:induction false} LongFieldAbsent(bytes: Bytes, pairs: seq<Pair>, fields: map<Bytes, Field>, field: Bytes)
    requires EndsWith(bytes, HEADER, pairs) && Mirrors(pairs, fields) && |field| > 255
    ensures field !in fields
  {
    EachListed(pairs, fields);
  }

  lemma {:induction false} FoundInTable(pairs: seq<Pair>, fields: map<Bytes, Field>, field: Bytes, r: Option<Bytes>)
    requires Mirrors(pairs, fields)
    requires r.Some? ==> (field, r.value) in pairs
    requires r.None? ==> forall k | 0 <= k < |pairs| :: pairs[k].0 != field
    ensures r == if field in fields then Some(fields[field].value) else None
  {
    EachListed(pairs, fields);
    if r.Some? {
      var k :| 0 <= k < |pairs| && pairs[k] == (field, r.value);
    }
  }

  /** The table without those of `expired` that are no longer in `rest`. */
  ghost function Without(fields: map<Bytes, Field>, expired: set<Bytes>, rest: set<Bytes>): map<Bytes, Field> {
    fields - (expired - rest)
  }

  lemma {:induction false} OneFewer(fields: map<Bytes, Field>, expired: set<Bytes>, rest: set<Bytes>, f: Bytes)
    requires rest <= expired && f in rest
    ensures Without(fields, expired, rest) - {f} == Without(fields, expired, rest - {f})
  {
    assert expired - (rest - {f}) == (expired - rest) + {f};
  }

  lemma {:induction false} AllFewer(fields: map<Bytes, Field>, expired: set<Bytes>)
    requires expired <= fields.Keys
    ensures |fields - expired| == |fields| - |expired|
  {
    assert (fields - expired).Keys == fields.Keys - expired;
    assert fields.Keys * expired == expired;
  }

  class HashObject {
    var fields: map<Bytes, Field>
    var fieldCount: nat
    var hasFieldExpiry: bool
    var listpack: Option<Bytes>
    ghost var pairs: seq<Pair>

    ghost predicate Counts()
      reads this
    {
      fieldCount == |fields| && (AnyExpiry(fields) ==> hasFieldExpiry)
    }

    /** A packed copy that is there decodes to exactly the table. */
    ghost predicate Valid()
      reads this
    {
      && Counts()
      && (listpack.Some? ==> EndsWith(listpack.value, HEADER, pairs) && Mirrors(pairs, fields))
    }

    constructor ()
      ensures Valid() && fields == map[] && listpack == Some([4, 0, 0, 0]) && !hasFieldExpiry
    {
      fields, fieldCount, hasFieldExpiry, pairs := map[], 0, false, [];
      listpack := Some([4, 0, 0, 0]);
    }

    /** No field may expire, and there are at most 128 of them, none with more than 64 bytes in it. */
    ghost predicate Packs()
      reads this
    {
      && !hasFieldExpiry && |fields| <= 128
      && forall f | f in fields :: |f| <= 64 && |fields[f].value| <= 64
    }

    method RefreshEncoding()
      requires Counts()
      modifies this`listpack, this`pairs
      ensures Valid() && (listpack.Some? <==> Packs())
    {
      if hasFieldExpiry || fieldCount > LISTPACK_MAX_ENTRIES || !Small(fields) {
        listpack := None;
        return;
      }
      var listed := ListPairs(fields);
      listpack := EncodeListpack(listed);
      pairs := listed;
    }

    method Set(field: Bytes, value: Bytes, expiresAt: Option<nat>) returns (added: bool)
      requires Valid()
      modifies this
      ensures Valid() && fields == old(fields)[field := Field(value, expiresAt)]
      ensures added <==> field !in old(fields)
      ensures hasFieldExpiry == (old(hasFieldExpiry) || expiresAt.Some?) && (listpack.Some? <==> Packs())
    {
      added := field !in fields;
      if added {
        fieldCount := fieldCount + 1;
      } else {
        assert fields[field := Field(value, expiresAt)].Keys == fields.Keys;
      }
      fields := fields[field := Field(value, expiresAt)];
      hasFieldExpiry := hasFieldExpiry || expiresAt.Some?;
      RefreshEncoding();
    }

    method Delete(field: Bytes) returns (removed: bool)
      requires Valid()
      modifies this
      ensures Valid() && fields == old(fields) - {field}
      ensures removed <==> field in old(fields)
      ensures !removed ==> unchanged(this)
      ensures removed ==> (listpack.Some? <==> Packs())
      ensures removed && old(fields)[field].expiresAt.None? ==> hasFieldExpiry == old(hasFieldExpiry)
      ensures removed && old(fields)[field].expiresAt.Some? ==> (hasFieldExpiry <==> exists f | f in fields :: fields[f].expiresAt.Some?)
    {
      if field !in fields {
        assert fields - {field} == fields;
        return false;
      }
      var gone := fields[field];
      fields := fields - {field};
      assert fields.Keys == old(fields).Keys - {field};
      fieldCount := fieldCount - 1;
      if gone.expiresAt.Some? {
        hasFieldExpiry := AnyExpiry(fields);
      }
      RefreshEncoding();
      return true;
    }

    method DrainExpired(now: nat) returns (count: nat)
      requires Valid()
      modifies this
      ensures Valid()
      ensures fields == old(fields) - (old(fields).Keys - Live(old(fields), now))
      ensures forall f | f in fields :: f in old(fields) && fields[f] == old(fields)[f]
      ensures forall f | f in old(fields) ::
                f in fields <==> old(fields)[f].expiresAt.None? || old(fields)[f].expiresAt.value > now
      ensures count == |old(fields)| - |fields|
      ensures old(hasFieldExpiry) ==> (hasFieldExpiry <==> exists f | f in fields :: fields[f].expiresAt.Some?)
    {
      LiveIsUnexpired(fields, now);
      if !hasFieldExpiry {
        NoneExpired(fields, now);
        return 0;
      }
      var expired := set f | f in fields && Expired(fields[f], now);
      assert expired == fields.Keys - Live(fields, now);
      DeleteAll(expired);
      hasFieldExpiry := AnyExpiry(fields);
      count := |expired|;
    }

    method DeleteOne(f: Bytes, ghost expired: set<Bytes>, ghost rest: set<Bytes>, ghost before: map<Bytes, Field>)
      requires Valid() && rest <= expired && f in rest && fields == Without(before, expired, rest)
      modifies this
      ensures Valid() && fields == Without(before, expired, rest - {f})
    {
      OneFewer(before, expired, rest, f);
      var removed := Delete(f);
    }

    method DeleteAll(expired: set<Bytes>)
      requires Valid() && expired <= fields.Keys
      modifies this
      ensures Valid() && fields == old(fields) - expired && |fields| == |old(fields)| - |expired|
    {
      AllFewer(fields, expired);
      var rest := expired;
      assert Without(fields, expired, expired) == fields;
      while rest != {}
        invariant Valid() && rest <= expired
        invariant fields == Without(old(fields), expired, rest)
        decreases rest
      {
        var f :| f in rest;
        DeleteOne(f, expired, rest, old(fields));
        rest := rest - {f};
      }
      assert expired - {} == expired;
    }

    /** Exactly the table's value for every field that is not empty, while there is a packed copy. */
    method ListpackGet(field: Bytes) returns (r: Option<Bytes>)
      requires Valid()
      ensures listpack.None? || field == [] ==> r == None
      ensures listpack.Some? && field != [] ==> r == if field in fields then Some(fields[field].value) else None
    {
      if field == [] || |field| > 255 || listpack.None? {
        if listpack.Some? && field != [] {
          LongFieldAbsent(listpack.value, pairs, fields, field);
        }
        return None;
      }
      r := SearchListpack(listpack.value, field, pairs);
      FoundInTable(pairs, fields, field, r);
    }

    /** `decode_listpack_entries` of the packed copy lists the table. */
    method DecodeMirror() returns (all: seq<Pair>)
      requires Valid() && listpack.Some?
      ensures Mirrors(all, fields)
    {
      DecodeEncoded(listpack.value, HEADER, pairs);
      all := DecodeListpack(listpack.value);
    }

    /** How many fields are live; counted one by one only when some field may expire. */
    method Len(now: nat) returns (n: nat)
      requires Valid()
      ensures n == |set f | f in fields && (fields[f].expiresAt.None? || fields[f].expiresAt.value > now)|
    {
      LiveIsUnexpired(fields, now);
      if !hasFieldExpiry {
        NoneExpired(fields, now);
        assert Live(fields, now) == fields.Keys;
        return fieldCount;
      }
      var live := set f | f in fields && !Expired(fields[f], now);
      return |live|;
    }
  }
}
