/**
 The listpack byte codec of senko-core/src/list.rs: an entry is the previous entry's length
 as a variable-length integer, a string header, the payload, and one byte that is meant to
 say how long the entry is.
 */
module Listpack {
  import opened Common

  // ----- variable-length integers -----

  function Varint(v: nat): (s: Bytes)
    ensures s != []
  {
    if v < 128 then [v] else [128 + v % 128] + Varint(v / 128)
  }

  /** Seven bits shifted into a u64: what goes over the top is lost. */
  function Shifted(bits: nat, scale: nat): nat {
    (bits * scale) % U64
  }

  /**
   `read_varint` from `offset`, with `value` read so far; `scale` is two to the power of the
   shift, so that a shift above 63 is a scale of at least 2^64.
   */
  function ReadVarintFrom(data: Bytes, offset: nat, value: nat, scale: nat): (r: Option<(nat, nat)>)
    ensures r.Some? ==> offset < r.value.1 <= |data|
    decreases |data| - offset
  {
    if offset >= |data| then None
    else
      var b := data[offset];
      var next := value + Shifted(b % 128, scale);
      if b < 128 then Some((next, offset + 1))
      else if scale * 128 >= U64 then None
      else ReadVarintFrom(data, offset + 1, next, scale * 128)
  }

  function ReadVarint(data: Bytes, offset: nat): Option<(nat, nat)> {
    ReadVarintFrom(data, offset, 0, 1)
  }

  method WriteVarint(value: nat) returns (out: Bytes)
    ensures out == Varint(value)
  {
    out := [];
    var rest := value;
    while rest >= 128
      invariant Varint(value) == out + Varint(rest)
    {
      Assoc(out, [128 + rest % 128], Varint(rest / 128));
      out := out + [128 + rest % 128];
      rest := rest / 128;
    }
    out := out + [rest];
  }

  method ReadVarintLoop(data: Bytes, start: nat) returns (r: Option<(nat, nat)>)
    ensures r == ReadVarint(data, start)
  {
    var value: nat, scale: nat, offset: nat := 0, 1, start;
    while offset < |data|
      invariant ReadVarint(data, start) == ReadVarintFrom(data, offset, value, scale)
      decreases |data| - offset
    {
      var b := data[offset];
      value := value + Shifted(b % 128, scale);
      offset := offset + 1;
      if b < 128 {
        return Some((value, offset));
      }
      scale := scale * 128;
      if scale >= U64 {
        return None;
      }
    }
    return None;
  }

  lemma {:induction false} ShiftedExact(bits: nat, scale: nat)
    requires bits * scale < U64
    ensures Shifted(bits, scale) == bits * scale
  {
  }

  lemma {:induction false} ScaledSplit(v: nat, scale: nat)
    ensures (v / 128) * (scale * 128) + (v % 128) * scale == v * scale
    ensures (v / 128) * (scale * 128) <= v * scale && (v % 128) * scale <= v * scale
  {
    var q, r := v / 128, v % 128;
    assert v == 128 * q + r;
    assert v * scale == (128 * q) * scale + r * scale;
    assert (128 * q) * scale == q * (scale * 128);
    assert q * (scale * 128) >= 0 && r * scale >= 0;
  }

  lemma {:induction false} ScaleFits(v: nat, scale: nat)
    requires v >= 128 && v * scale < U64
    ensures scale * 128 < U64
  {
    assert v * scale >= 128 * scale;
  }

  lemma {:induction false} StandsSplit(data: Bytes, offset: nat, a: Bytes, b: Bytes)
    requires StandsAt(data, offset, a + b)
    ensures StandsAt(data, offset, a) && StandsAt(data, offset + |a|, b)
  {
    var whole := data[offset..offset + |a + b|];
    assert data[offset..offset + |a|] == whole[..|a|] == a;
    assert data[offset + |a|..offset + |a| + |b|] == whole[|a|..] == b;
  }

  lemma {:induction false} StandsFirst(data: Bytes, offset: nat, first: byte, rest: Bytes)
    requires StandsAt(data, offset, [first] + rest)
    ensures offset < |data| && data[offset] == first && StandsAt(data, offset + 1, rest)
  {
    StandsSplit(data, offset, [first], rest);
    assert data[offset] == data[offset..offset + 1][0];
  }

  /** One byte of a number that goes on. */
  lemma {:induction false} ReadsOn(data: Bytes, offset: nat, low: nat, value: nat, scale: nat)
    requires offset < |data| && low < 128 && data[offset] == 128 + low && scale * 128 < U64
    ensures ReadVarintFrom(data, offset, value, scale) ==
            ReadVarintFrom(data, offset + 1, value + Shifted(low, scale), scale * 128)
  {
    assert data[offset] >= 128 && data[offset] % 128 == low;
  }

  lemma {:induction false} VarintReadsFrom(data: Bytes, offset: nat, v: nat, value: nat, scale: nat)
    requires v * scale < U64 && StandsAt(data, offset, Varint(v))
    ensures ReadVarintFrom(data, offset, value, scale) == Some((value + v * scale, offset + |Varint(v)|))
    decreases v
  {
    if v < 128 {
      assert data[offset] == data[offset..offset + 1][0] == v;
      ShiftedExact(v, scale);
    } else {
      StandsFirst(data, offset, 128 + v % 128, Varint(v / 128));
      ScaleFits(v, scale);
      ScaledSplit(v, scale);
      ShiftedExact(v % 128, scale);
      ReadsOn(data, offset, v % 128, value, scale);
      VarintReadsFrom(data, offset + 1, v / 128, value + (v % 128) * scale, scale * 128);
    }
  }

  /** Every u64 reads back from its variable-length form, wherever it stands. */
  lemma {:induction false} VarintRoundTrip(data: Bytes, offset: nat, v: nat)
    requires v < U64 && StandsAt(data, offset, Varint(v))
    ensures ReadVarint(data, offset) == Some((v, offset + |Varint(v)|))
  {
    VarintReadsFrom(data, offset, v, 0, 1);
  }

  // ----- string headers -----

  function StringHeader(len: nat): (s: Bytes)
    ensures s != []
  {
    if len <= 63 then [128 + len]
    else if len < U16 then [224] + LittleBytes(len, 2)
    else [240] + LittleBytes(len, 4)
  }

  /** `to_le_bytes` of `count` bytes; what does not fit is lost. */
  function LittleBytes(n: nat, count: nat): (s: Bytes)
    ensures |s| == count
  {
    if count == 0 then [] else [n % 256] + LittleBytes(n / 256, count - 1)
  }

  /** `from_le_bytes`. */
  function LittleEndian(s: Bytes): nat {
    if s == [] then 0 else s[0] + 256 * LittleEndian(s[1..])
  }

  /** Payload length and header length of the header at `at`. */
  function ReadStringHeader(data: Bytes, at: nat): (r: Option<(nat, nat)>)
    ensures r.Some? ==> at + r.value.1 <= |data|
  {
    if at >= |data| then None
    else
      var first := data[at];
      if 128 <= first < 192 then Some((first % 64, 1))
      else if first == 224 then
        if at + 3 <= |data| then Some((LittleEndian(data[at + 1..at + 3]), 3)) else None
      else if first == 240 then
        if at + 5 <= |data|
        then Some((LittleEndian(data[at + 1..at + 5]), 5)) else None
      else None
  }

  function Power256(k: nat): nat {
    if k == 0 then 1 else 256 * Power256(k - 1)
  }

  lemma {:induction false} LittleRoundTrip(n: nat, count: nat)
    requires n < Power256(count)
    ensures LittleEndian(LittleBytes(n, count)) == n
    decreases count
  {
    if count > 0 {
      LittleRoundTrip(n / 256, count - 1);
      var s := LittleBytes(n, count);
      assert s[0] == n % 256 && s[1..] == LittleBytes(n / 256, count - 1);
    }
  }

  lemma {:induction false} HeaderReads(data: Bytes, at: nat, len: nat)
    requires len < U32 && StandsAt(data, at, StringHeader(len))
    ensures ReadStringHeader(data, at) == Some((len, |StringHeader(len)|))
  {
    if len > 63 {
      var count := if len < U16 then 2 else 4;
      StandsFirst(data, at, if len < U16 then 224 else 240, LittleBytes(len, count));
      assert Power256(2) == 256 * Power256(1) == U16;
      assert Power256(4) == 256 * Power256(3) == U16 * Power256(2);
      LittleRoundTrip(len, count);
    } else {
      assert [128 + len] + [] == [128 + len];
      StandsFirst(data, at, 128 + len, []);
    }
  }

  // ----- entries -----

  function EntryBody(e: Bytes, prevLen: nat): Bytes {
    Varint(prevLen) + StringHeader(|e|) + e
  }

  /** The length byte; an entry longer than it can say is cut to 255. */
  function BackLen(e: Bytes, prevLen: nat): byte {
    var len := |EntryBody(e, prevLen)| + 1;
    if len <= 255 then len else 255
  }

  function EncodeEntry(e: Bytes, prevLen: nat): Bytes {
    EntryBody(e, prevLen) + [BackLen(e, prevLen)]
  }

  /** `decode_entry_at`: the payload, and where the length byte says the next entry starts. */
  function DecodeEntryAt(data: Bytes, offset: nat): Option<(Bytes, nat)> {
    match ReadVarint(data, offset)
    case None => None
    case Some((_, cursor)) =>
      match ReadStringHeader(data, cursor)
      case None => None
      case Some((len, header)) =>
        var start := cursor + header;
        if start + len >= |data| then None
        else Some((data[start..start + len], offset + data[start + len]))
  }

  lemma {:induction false} DecodesFrom(data: Bytes, offset: nat, cursor: nat, header: nat, e: Bytes, back: byte, prev: nat)
    requires ReadVarint(data, offset) == Some((prev, cursor)) && ReadStringHeader(data, cursor) == Some((|e|, header))
    requires StandsAt(data, cursor + header, e) && cursor + header + |e| < |data|
    requires data[cursor + header + |e|] == back
    ensures DecodeEntryAt(data, offset) == Some((e, offset + back))
  {
  }

  lemma {:induction false} HeadReads(data: Bytes, offset: nat, v: Bytes, h: Bytes, prevLen: nat, len: nat)
    requires prevLen < U64 && len < U32 && v == Varint(prevLen) && h == StringHeader(len)
    requires StandsAt(data, offset, v) && StandsAt(data, offset + |v|, h)
    ensures ReadVarint(data, offset) == Some((prevLen, offset + |v|))
    ensures ReadStringHeader(data, offset + |v|) == Some((len, |h|))
  {
    VarintRoundTrip(data, offset, prevLen);
    HeaderReads(data, offset + |v|, len);
  }

  lemma {:induction false} PartsDecode(data: Bytes, offset: nat, v: Bytes, h: Bytes, e: Bytes, back: byte, prevLen: nat)
    requires StandsAt(data, offset, v + h + e + [back])
    requires StandsAt(data, offset, v) && StandsAt(data, offset + |v|, h) ==>
               && ReadVarint(data, offset) == Some((prevLen, offset + |v|))
               && ReadStringHeader(data, offset + |v|) == Some((|e|, |h|))
    ensures DecodeEntryAt(data, offset) == Some((e, offset + back))
  {
    EntryParts(data, offset, v, h, e, back);
    DecodesFrom(data, offset, offset + |v|, |h|, e, back, prevLen);
  }

  lemma {:induction false} EntryDecodes(data: Bytes, offset: nat, e: Bytes, prevLen: nat)
    requires prevLen < U64 && |e| < U32 && StandsAt(data, offset, EncodeEntry(e, prevLen))
    ensures DecodeEntryAt(data, offset) == Some((e, offset + BackLen(e, prevLen)))
  {
    var v, h := Varint(prevLen), StringHeader(|e|);
    if StandsAt(data, offset, v) && StandsAt(data, offset + |v|, h) {
      HeadReads(data, offset, v, h, prevLen, |e|);
    }
    PartsDecode(data, offset, v, h, e, BackLen(e, prevLen), prevLen);
  }

  lemma {:induction false} EntryParts(data: Bytes, offset: nat, v: Bytes, h: Bytes, e: Bytes, back: byte)
    requires StandsAt(data, offset, v + h + e + [back])
    ensures StandsAt(data, offset, v) && StandsAt(data, offset + |v|, h) && StandsAt(data, offset + |v| + |h|, e)
    ensures offset + |v| + |h| + |e| < |data| && data[offset + |v| + |h| + |e|] == back
  {
    StandsSplit(data, offset, v + h + e, [back]);
    assert [back] + [] == [back];
    StandsFirst(data, offset + |v + h + e|, back, []);
    StandsSplit(data, offset, v + h, e);
    StandsSplit(data, offset, v, h);
  }

  // ----- the bytes -----

  /** Seven bits a byte, the low ones first; all bytes but the last are marked by 128. */
  lemma {:induction false} VarintLayout(v: nat)
    ensures v < 128 ==> Varint(v) == [v]
    ensures 128 <= v < 16384 ==> Varint(v) == [128 + v % 128, v / 128]
    ensures 16384 <= v < 2097152 ==> Varint(v) == [128 + v % 128, 128 + v / 128 % 128, v / 16384]
    ensures v >= 128 ==> Varint(v)[0] == 128 + v % 128 && Varint(v)[1..] == Varint(v / 128)
  {
    if 16384 <= v < 2097152 {
      assert v / 128 / 128 == v / 16384;
      assert Varint(v / 128) == [128 + v / 128 % 128] + Varint(v / 16384);
    }
  }

  /** One, three or five bytes, the length behind the first of them low byte first. */
  lemma {:induction false} HeaderLayout(len: nat)
    ensures len <= 63 ==> StringHeader(len) == [128 + len]
    ensures 64 <= len < 65536 ==> StringHeader(len) == [224, len % 256, len / 256]
    ensures 65536 <= len < 0x1_0000_0000 ==>
              StringHeader(len) == [240, len % 256, len / 256 % 256, len / 65536 % 256, len / 16777216]
  {
    var a, b, c := len / 256, len / 65536, len / 16777216;
    assert a / 256 == b && b / 256 == c;
    assert LittleBytes(len, 2) == [len % 256] + LittleBytes(a, 1) && LittleBytes(a, 1) == [a % 256] + [];
    assert LittleBytes(len, 4) == [len % 256] + LittleBytes(a, 3) && LittleBytes(a, 3) == [a % 256] + LittleBytes(b, 2);
    assert LittleBytes(b, 2) == [b % 256] + LittleBytes(c, 1) && LittleBytes(c, 1) == [c % 256] + [];
  }

  /** The previous length, the header, the payload, and the length of it all in a byte, or 255. */
  lemma {:induction false} EntryLayout(e: Bytes, prevLen: nat)
    ensures var x := EncodeEntry(e, prevLen);
            && x == Varint(prevLen) + StringHeader(|e|) + e + [if |x| < 255 then |x| else 255]
            && (prevLen < 128 && |e| <= 63 ==> x == [prevLen, 128 + |e|] + e + [|e| + 3])
  {
    VarintLayout(prevLen);
    HeaderLayout(|e|);
    assert prevLen < 128 && |e| <= 63 ==> Varint(prevLen) + StringHeader(|e|) == [prevLen, 128 + |e|];
  }

  /** What the decoder takes from the first byte of a header. */
  lemma {:induction false} HeaderBytes(data: Bytes, at: nat)
    requires at < |data|
    ensures 128 <= data[at] <= 191 ==> ReadStringHeader(data, at) == Some((data[at] - 128, 1))
    ensures data[at] == 224 ==>
              ReadStringHeader(data, at) == if at + 3 <= |data| then Some((data[at + 1] as nat + 256 * data[at + 2] as nat, 3)) else None
    ensures data[at] == 240 ==>
              ReadStringHeader(data, at) ==
              if at + 5 <= |data|
              then Some((data[at + 1] as nat + 256 * data[at + 2] as nat + 65536 * data[at + 3] as nat + 16777216 * data[at + 4] as nat, 5)) else None
    ensures data[at] < 128 || (data[at] > 191 && data[at] != 224 && data[at] != 240) ==> ReadStringHeader(data, at) == None
  {
    if data[at] == 224 && at + 3 <= |data| {
      LittleOfTwo(data[at + 1..at + 3]);
    }
    if data[at] == 240 && at + 5 <= |data| {
      var s := data[at + 1..at + 5];
      LittleOfTwo(s[1..][1..]);
      assert LittleEndian(s[1..]) == s[1] as nat + 256 * LittleEndian(s[1..][1..]);
    }
  }

  lemma {:induction false} LittleOfTwo(s: Bytes)
    requires |s| == 2
    ensures LittleEndian(s) == s[0] as nat + 256 * s[1] as nat
  {
    assert s[1..] == [s[1]];
    assert LittleEndian([s[1]]) == s[1];
  }

  // ----- nodes -----

  function EncodeEntries(entries: seq<Bytes>, prevLen: nat): Bytes {
    if entries == [] then []
    else
      var first := EncodeEntry(entries[0], prevLen);
      first + EncodeEntries(entries[1..], |first|)
  }

  /** `lp_iter`: up to `count` entries from `offset`, stopping where none decodes. */
  function DecodeEntries(data: Bytes, offset: nat, count: nat): seq<Bytes>
    decreases count
  {
    if count == 0 then []
    else
      match DecodeEntryAt(data, offset)
      case None => []
      case Some((payload, next)) => [payload] + DecodeEntries(data, next, count - 1)
  }

  /** Every entry but the last is no longer than its length byte can say. */
  predicate Fits(entries: seq<Bytes>, prevLen: nat) {
    if entries == [] then true
    else
      && |entries[0]| < U32
      && (|entries| > 1 ==> |EncodeEntry(entries[0], prevLen)| <= 255)
      && Fits(entries[1..], |EncodeEntry(entries[0], prevLen)|)
  }

  lemma {:induction false} DecodeStep(data: Bytes, offset: nat, count: nat, e: Bytes, next: nat)
    requires count > 0 && DecodeEntryAt(data, offset) == Some((e, next))
    ensures DecodeEntries(data, offset, count) == [e] + DecodeEntries(data, next, count - 1)
  {
  }

  lemma {:induction false} FitsStep(entries: seq<Bytes>, prevLen: nat)
    requires Fits(entries, prevLen) && entries != []
    ensures var first := EncodeEntry(entries[0], prevLen);
            && EncodeEntries(entries, prevLen) == first + EncodeEntries(entries[1..], |first|)
            && |entries[0]| < U32 && Fits(entries[1..], |first|)
            && (|entries| > 1 ==> |first| == BackLen(entries[0], prevLen))
  {
  }

  lemma {:induction false} VarintIsShort(v: nat)
    requires v < U64
    ensures |Varint(v)| <= 10
  {
    VarintLength(v, U64 / 128, 9);
  }

  lemma {:induction false} VarintLength(v: nat, bound: nat, more: nat)
    requires bound > 0 && v < bound * 128
    requires more == 0 ==> bound == 1
    requires bound <= Power128(more)
    ensures |Varint(v)| <= more + 1
    decreases more
  {
    if v >= 128 && more > 0 {
      VarintLength(v / 128, Power128(more - 1), more - 1);
    }
  }

  function Power128(n: nat): nat {
    if n == 0 then 1 else 128 * Power128(n - 1)
  }

  lemma {:induction false} EntryIsShort(e: Bytes, prevLen: nat)
    requires prevLen < U64 && |e| < U32
    ensures |EncodeEntry(e, prevLen)| < U64
  {
    VarintIsShort(prevLen);
  }

  /** The bytes hold these entries from `offset` on, and all can be read. */
  ghost predicate Placed(data: Bytes, offset: nat, entries: seq<Bytes>, prevLen: nat) {
    Fits(entries, prevLen) && prevLen < U64 && StandsAt(data, offset, EncodeEntries(entries, prevLen))
  }

  lemma {:induction false} FirstDecodes(data: Bytes, offset: nat, entries: seq<Bytes>, prevLen: nat) returns (len: nat, back: nat)
    requires Placed(data, offset, entries, prevLen) && entries != []
    ensures DecodeEntryAt(data, offset) == Some((entries[0], offset + back))
    ensures Placed(data, offset + len, entries[1..], len) && (|entries| > 1 ==> len == back)
  {
    back := BackLen(entries[0], prevLen);
    len := FirstStands(data, offset, entries, prevLen);
    EntryIsShort(entries[0], prevLen);
    EntryDecodes(data, offset, entries[0], prevLen);
  }

  lemma {:induction false} FirstStands(data: Bytes, offset: nat, entries: seq<Bytes>, prevLen: nat) returns (len: nat)
    requires Fits(entries, prevLen) && entries != [] && StandsAt(data, offset, EncodeEntries(entries, prevLen))
    ensures len == |EncodeEntry(entries[0], prevLen)| && StandsAt(data, offset, EncodeEntry(entries[0], prevLen))
    ensures StandsAt(data, offset + len, EncodeEntries(entries[1..], len)) && Fits(entries[1..], len)
    ensures |entries[0]| < U32 && (|entries| > 1 ==> len == BackLen(entries[0], prevLen))
  {
    var first := EncodeEntry(entries[0], prevLen);
    len := |first|;
    FitsStep(entries, prevLen);
    StandsSplit(data, offset, first, EncodeEntries(entries[1..], len));
  }

  /** Where `placed` holds of some entries, the first decodes and the others are placed where it ends. */
  ghost predicate Steps(data: Bytes, placed: (nat, seq<Bytes>, nat) -> bool) {
    forall offset: nat, entries: seq<Bytes>, prevLen: nat |
      placed(offset, entries, prevLen) && entries != [] :: FirstOf(data, placed, offset, entries)
  }

  ghost predicate FirstOf(data: Bytes, placed: (nat, seq<Bytes>, nat) -> bool, offset: nat, entries: seq<Bytes>)
    requires entries != []
  {
    && DecodeEntryAt(data, offset).Some? && DecodeEntryAt(data, offset).value.0 == entries[0]
    && (|entries| > 1 ==> exists len: nat :: placed(DecodeEntryAt(data, offset).value.1, entries[1..], len))
  }

  lemma {:induction false} StepsDecode(data: Bytes, placed: (nat, seq<Bytes>, nat) -> bool, offset: nat, entries: seq<Bytes>, prevLen: nat)
    requires Steps(data, placed) && placed(offset, entries, prevLen)
    ensures DecodeEntries(data, offset, |entries|) == entries
    decreases |entries|
  {
    if entries != [] {
      assert FirstOf(data, placed, offset, entries);
      var next := DecodeEntryAt(data, offset).value.1;
      if |entries| > 1 {
        var len: nat :| placed(next, entries[1..], len);
        StepsDecode(data, placed, next, entries[1..], len);
      }
      DecodeMore(data, offset, entries, next);
    }
  }

  lemma {:induction false} DecodeMore(data: Bytes, offset: nat, entries: seq<Bytes>, next: nat)
    requires entries != [] && DecodeEntryAt(data, offset) == Some((entries[0], next))
    requires |entries| > 1 ==> DecodeEntries(data, next, |entries| - 1) == entries[1..]
    ensures DecodeEntries(data, offset, |entries|) == entries
  {
    DecodeStep(data, offset, |entries|, entries[0], next);
    assert entries == [entries[0]] + entries[1..];
  }

  lemma {:induction false} PlacedStep(data: Bytes, placed: (nat, seq<Bytes>, nat) -> bool, offset: nat, entries: seq<Bytes>,
                                      prevLen: nat)
    requires forall o: nat, es: seq<Bytes>, len: nat :: placed(o, es, len) <==> Placed(data, o, es, len)
    requires Placed(data, offset, entries, prevLen) && entries != []
    ensures FirstOf(data, placed, offset, entries)
  {
    var len, back := FirstDecodes(data, offset, entries, prevLen);
    assert |entries| > 1 ==> placed(offset + back, entries[1..], len);
  }

  lemma {:induction false} PlacedSteps(data: Bytes, placed: (nat, seq<Bytes>, nat) -> bool)
    requires forall o: nat, es: seq<Bytes>, len: nat :: placed(o, es, len) <==> Placed(data, o, es, len)
    ensures Steps(data, placed)
  {
    forall offset: nat, entries: seq<Bytes>, prevLen: nat | placed(offset, entries, prevLen) && entries != []
      ensures FirstOf(data, placed, offset, entries)
    {
      PlacedStep(data, placed, offset, entries, prevLen);
    }
  }

  lemma {:induction false} EntriesDecode(data: Bytes, offset: nat, entries: seq<Bytes>, prevLen: nat)
    requires Placed(data, offset, entries, prevLen)
    ensures DecodeEntries(data, offset, |entries|) == entries
  {
    var placed := (o: nat, es: seq<Bytes>, len: nat) => Placed(data, o, es, len);
    PlacedSteps(data, placed);
    StepsDecode(data, placed, offset, entries, prevLen);
  }

  predicate AtMost(entries: seq<Bytes>, bound: nat) {
    forall i | 0 <= i < |entries| :: |entries[i]| <= bound
  }

  lemma {:induction false} SmallEntriesFit(entries: seq<Bytes>, prevLen: nat)
    requires AtMost(entries, 249) && prevLen < 16384
    ensures Fits(entries, prevLen)
    decreases |entries|
  {
    if entries != [] {
      assert |Varint(prevLen)| <= 2;
      assert |EncodeEntry(entries[0], prevLen)| <= 255;
      SmallEntriesFit(entries[1..], |EncodeEntry(entries[0], prevLen)|);
    }
  }

  /** A node of entries of at most 249 bytes decodes to the entries it was made of. */
  lemma {:induction false} NodeRoundTrip(entries: seq<Bytes>)
    requires AtMost(entries, 249)
    ensures DecodeEntries(EncodeEntries(entries, 0), 0, |entries|) == entries
  {
    SmallEntriesFit(entries, 0);
    EntriesDecode(EncodeEntries(entries, 0), 0, entries, 0);
  }

  // ----- where 249 comes from -----

  const Zeros250: Bytes := seq(250, _ => 0)

  /** Two entries of 250 bytes and two short ones. */
  const Overlong: seq<Bytes> := [Zeros250, Zeros250, [120], [121]]

  /** What the four encode to, with the previous lengths `p1` and `p2` that the long ones carry. */
  ghost predicate OverlongParts(z: Bytes, p1: nat, p2: nat, e1: Bytes, e2: Bytes, data: Bytes) {
    && p1 < U64 && p2 < U64 && |z| == 250 && e1 == EncodeEntry(z, p1) && e2 == EncodeEntry(z, p2)
    && |e1| == 255 && |e2| == 256 && BackLen(z, p1) == 255 && BackLen(z, p2) == 255
    && data == e1 + e2 + [128, 2, 129, 120, 5] + [5, 129, 121, 4]
  }

  lemma {:induction false} OverlongShort()
    ensures EncodeEntry([120], 256) == [128, 2, 129, 120, 5] && EncodeEntry([121], 5) == [5, 129, 121, 4]
  {
    assert Varint(256) == [128] + Varint(2) == [128, 2];
    assert Varint(5) == [5];
  }

  lemma {:induction false} OverlongLong()
    ensures |EncodeEntry(Zeros250, 0)| == 255 && |EncodeEntry(Zeros250, 255)| == 256
    ensures BackLen(Zeros250, 0) == 255 && BackLen(Zeros250, 255) == 255
  {
    assert Varint(0) == [0];
    assert Varint(255) == [255] + Varint(1) == [255, 1];
    assert |StringHeader(250)| == 3;
  }

  lemma {:induction false} OverlongTail(l2: seq<Bytes>)
    requires |l2| == 2 && l2[0] == [120] && l2[1] == [121]
    ensures EncodeEntries(l2, 256) == [128, 2, 129, 120, 5] + [5, 129, 121, 4]
  {
    OverlongShort();
    var l3: seq<Bytes> := l2[1..];
    assert l3[0] == [121] && l3[1..] == [];
    assert EncodeEntries(l3, 5) == [5, 129, 121, 4] + EncodeEntries(l3[1..], 4) == [5, 129, 121, 4];
  }

  lemma {:induction false} OverlongPieces() returns (p1: nat, p2: nat, e1: Bytes, e2: Bytes)
    ensures OverlongParts(Zeros250, p1, p2, e1, e2, EncodeEntries(Overlong, 0))
  {
    p1, p2 := 0, 255;
    e1, e2 := EncodeEntry(Zeros250, p1), EncodeEntry(Zeros250, p2);
    OverlongLong();
    var l1: seq<Bytes> := Overlong[1..];
    assert l1[0] == Zeros250 && l1[1..][0] == [120] && l1[1..][1] == [121];
    OverlongTail(l1[1..]);
    assert EncodeEntries(l1, 255) == e2 + ([128, 2, 129, 120, 5] + [5, 129, 121, 4]);
    assert EncodeEntries(Overlong, 0) == e1 + (e2 + ([128, 2, 129, 120, 5] + [5, 129, 121, 4]));
  }

  lemma {:induction false} OverlongBytes(e1: Bytes, e2: Bytes, data: Bytes)
    requires |e1| == 255 && |e2| == 256 && e2[255] == 255
    requires data == e1 + e2 + [128, 2, 129, 120, 5] + [5, 129, 121, 4]
    ensures |data| == 520 && StandsAt(data, 0, e1) && StandsAt(data, 255, e2)
    ensures data[510..517] == [255, 128, 2, 129, 120, 5, 5]
  {
    assert data[0..255] == e1 && data[255..511] == e2;
    assert data[510] == e2[255] && data[511] == 128 && data[512] == 2 && data[513] == 129 && data[514] == 120;
    assert data[515] == 5 && data[516] == 5;
  }

  /** The third entry is found one byte early, and what follows it not at all. */
  lemma {:induction false} OverlongDecodes(data: Bytes)
    requires |data| == 520 && data[510..517] == [255, 128, 2, 129, 120, 5, 5]
    ensures DecodeEntryAt(data, 510) == Some(([120], 515))
    ensures DecodeEntryAt(data, 515) == None
  {
    var w := data[510..517];
    assert data[510] == w[0] && data[511] == w[1] && data[512] == w[2] && data[513] == w[3] && data[514] == w[4]
        && data[515] == w[5] && data[516] == w[6];
    assert ReadVarintFrom(data, 512, 127, 16384).Some? && ReadVarintFrom(data, 512, 127, 16384).value.1 == 513;
    assert ReadVarintFrom(data, 511, 127, 128) == ReadVarintFrom(data, 512, 127, 16384);
    assert ReadVarint(data, 510) == ReadVarintFrom(data, 511, 127, 128);
    assert ReadStringHeader(data, 513) == Some((1, 1));
    assert data[514..515] == [120];
    assert ReadVarint(data, 515) == Some((5, 516));
  }

  lemma {:induction false} OverlongLosesOne(z: Bytes, p1: nat, p2: nat, e1: Bytes, e2: Bytes, data: Bytes)
    requires OverlongParts(z, p1, p2, e1, e2, data)
    ensures |DecodeEntries(data, 0, 4)| == 3
  {
    OverlongBytes(e1, e2, data);
    OverlongDecodes(data);
    EntryDecodes(data, 0, z, p1);
    EntryDecodes(data, 255, z, p2);
    ThreeOfFour(data, z);
  }

  lemma {:induction false} OverlongLoses()
    ensures DecodeEntries(EncodeEntries(Overlong, 0), 0, 4) != Overlong
  {
    var p1, p2, e1, e2 := OverlongPieces();
    OverlongLosesOne(Zeros250, p1, p2, e1, e2, EncodeEntries(Overlong, 0));
  }

  lemma {:induction false} ThreeOfFour(data: Bytes, z: Bytes)
    requires DecodeEntryAt(data, 0) == Some((z, 255)) && DecodeEntryAt(data, 255) == Some((z, 510))
    requires DecodeEntryAt(data, 510) == Some(([120], 515)) && DecodeEntryAt(data, 515) == None
    ensures |DecodeEntries(data, 0, 4)| == 3
  {
    DecodeStep(data, 0, 4, z, 255);
    DecodeStep(data, 255, 3, z, 510);
    DecodeStep(data, 510, 2, [120], 515);
    assert DecodeEntries(data, 515, 1) == [];
  }

  /** 249 is exactly the bound under which every list of entries survives. */
  lemma {:induction false} EntryBoundIff(bound: nat)
    ensures (forall entries: seq<Bytes> ::
               AtMost(entries, bound) ==> DecodeEntries(EncodeEntries(entries, 0), 0, |entries|) == entries)
            <==> bound <= 249
  {
    if bound <= 249 {
      forall entries: seq<Bytes> | AtMost(entries, bound)
        ensures DecodeEntries(EncodeEntries(entries, 0), 0, |entries|) == entries
      {
        NodeRoundTrip(entries);
      }
    } else {
      assert AtMost(Overlong, bound);
      OverlongLoses();
      assert |Overlong| == 4;
    }
  }
}
