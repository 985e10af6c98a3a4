/**
 Serializing frames (senko-proto/src/serializer.rs), parsing them back, and iterating the
 elements of an aggregate (senko-proto/src/frame.rs).  Doubles are left to the printer of
 floating-point numbers and are not serialized here.
 */
module RespCodec {
  import opened Common
  import opened Decimal
  import opened Resp
  import opened RespChunks

  function Header(prefix: byte, n: nat): Bytes {
    [prefix] + Digits(n) + Crlf
  }

  function PrefixOf(kind: AggregateKind): byte {
    match kind
    case ArrayKind => ARRAY
    case MapKind => MAP
    case SetKind => SET
    case PushKind => PUSH
  }

  function Block(prefix: byte, payload: Bytes): Bytes {
    Header(prefix, |payload|) + payload + Crlf
  }

  function SerializeAggregate(a: Aggregate): Bytes {
    if a.encoding.RespEncoding? then Header(PrefixOf(a.kind), a.len) + a.data else a.data + Crlf
  }

  function Serialize(f: Frame): Bytes
    requires !f.Double?
  {
    match f
    case SimpleString(v) => [SIMPLE] + v + Crlf
    case SimpleError(v) => [ERROR] + v + Crlf
    case Integer(n) => [INTEGER] + Print(n) + Crlf
    case BulkString(v) => Block(BULK, v)
    case Null => [NULL, CR, LF]
    case Boolean(flag) => if flag then [BOOL, TRUE, CR, LF] else [BOOL, FALSE, CR, LF]
    case BigNumber(v) => [BIG] + v + Crlf
    case BlobError(v) => Block(BLOB, v)
    case VerbatimString(format, data) => Block(VERBATIM, format + [COLON] + data)
    case Array(a) => SerializeAggregate(a)
    case Map(a) => SerializeAggregate(a)
    case Set(a) => SerializeAggregate(a)
    case Push(a) => SerializeAggregate(a)
  }

  /** The output buffer the writers append to. */
  class Output {
    var bytes: Bytes

    constructor ()
      ensures bytes == []
    {
      bytes := [];
    }

    method Put(more: Bytes)
      modifies this
      ensures bytes == old(bytes) + more
    {
      bytes := bytes + more;
    }

    method WriteLine(prefix: byte, line: Bytes)
      modifies this
      ensures bytes == old(bytes) + ([prefix] + line + Crlf)
    {
      Put([prefix]);
      Put(line);
      Put(Crlf);
    }

    method WriteBlock(prefix: byte, payload: Bytes)
      modifies this
      ensures bytes == old(bytes) + Block(prefix, payload)
    {
      WriteLine(prefix, Digits(|payload|));
      Put(payload);
      Put(Crlf);
    }

    method WriteAggregate(a: Aggregate)
      modifies this
      ensures bytes == old(bytes) + SerializeAggregate(a)
    {
      if a.encoding.RespEncoding? {
        WriteLine(PrefixOf(a.kind), Digits(a.len));
        Put(a.data);
      } else {
        Put(a.data);
        Put(Crlf);
      }
    }

    method WriteFrame(f: Frame)
      requires !f.Double?
      modifies this
      ensures bytes == old(bytes) + Serialize(f)
    {
      match f {
        case SimpleString(v) => WriteLine(SIMPLE, v);
        case SimpleError(v) => WriteLine(ERROR, v);
        case Integer(n) => WriteLine(INTEGER, Print(n));
        case BulkString(v) => WriteBlock(BULK, v);
        case Null => Put([NULL, CR, LF]);
        case Boolean(flag) => Put(if flag then [BOOL, TRUE, CR, LF] else [BOOL, FALSE, CR, LF]);
        case BigNumber(v) => WriteLine(BIG, v);
        case BlobError(v) => WriteBlock(BLOB, v);
        case VerbatimString(format, data) => WriteBlock(VERBATIM, format + [COLON] + data);
        case Array(a) => WriteAggregate(a);
        case Map(a) => WriteAggregate(a);
        case Set(a) => WriteAggregate(a);
        case Push(a) => WriteAggregate(a);
      }
    }
  }

  method IntegerWireLen(value: int) returns (len: nat)
    ensures len == |[INTEGER] + Print(value) + Crlf|
  {
    if value == -1 {
      assert Print(value) == [MINUS, 49];
      return 5;
    } else if value < 0 {
      var digits := DecimalLen(-value);
      return 1 + 1 + digits + 2;
    } else {
      var digits := DecimalLen(value);
      return 1 + digits + 2;
    }
  }

  method AggregateWireLen(a: Aggregate) returns (len: nat)
    ensures len == |SerializeAggregate(a)|
  {
    if a.encoding.RespEncoding? {
      var digits := DecimalLen(a.len);
      return 1 + digits + 2 + |a.data|;
    }
    return |a.data| + 2;
  }

  /** `encoded_len`: the buffer capacity asked for is exactly what gets written. */
  method EncodedLen(f: Frame) returns (len: nat)
    requires !f.Double?
    ensures len == |Serialize(f)|
  {
    match f {
      case SimpleString(v) => return 1 + |v| + 2;
      case SimpleError(v) => return 1 + |v| + 2;
      case BigNumber(v) => return 1 + |v| + 2;
      case Integer(n) => len := IntegerWireLen(n);
      case BulkString(v) => var digits := DecimalLen(|v|); return 1 + digits + 2 + |v| + 2;
      case BlobError(v) => var digits := DecimalLen(|v|); return 1 + digits + 2 + |v| + 2;
      case Null => return 3;
      case Boolean(_) => return 4;
      case VerbatimString(format, data) =>
        var payload := |format| + 1 + |data|;
        var digits := DecimalLen(payload);
        return 1 + digits + 2 + payload + 2;
      case Array(a) => len := AggregateWireLen(a);
      case Map(a) => len := AggregateWireLen(a);
      case Set(a) => len := AggregateWireLen(a);
      case Push(a) => len := AggregateWireLen(a);
    }
  }

  // ----- which frames survive -----

  /** The size of a length-prefixed frame of `n` payload bytes. */
  function BlockSize(n: nat): nat {
    1 + |Digits(n)| + 2 + n + 2
  }

  /** The data of an aggregate is exactly its elements. */
  predicate Holds(a: Aggregate) {
    a.len < I64 && Many(ElementParser, a.data, Expected(a.kind, a.len)) == Parsed(|a.data|)
  }

  predicate StartsInline(s: Bytes) {
    s != [] && !IsAggregatePrefix(s[0]) &&
    s[0] !in {SIMPLE, ERROR, INTEGER, BULK, NULL, BOOL, DOUBLE, BIG, BLOB, VERBATIM, CR, LF}
  }

  predicate HoldsInline(a: Aggregate) {
    StartsInline(a.data) && CR !in a.data && Trim(a.data) == a.data && a.len == |Words(a.data)|
  }

  /** No carriage return in a line, three bytes of format, and aggregates that hold what they say. */
  predicate WellFormed(f: Frame) {
    match f
    case SimpleString(v) => CR !in v
    case SimpleError(v) => CR !in v
    case BigNumber(v) => CR !in v
    case Integer(n) => 0 - I64 <= n < I64
    case BulkString(v) => |v| < I64
    case BlobError(v) => BlockSize(|v|) < U64
    case VerbatimString(format, data) => |format| == 3 && BlockSize(4 + |data|) < U64
    case Null => true
    case Boolean(_) => true
    case Double(_) => false
    case Array(a) => a.kind.ArrayKind? && if a.encoding.RespEncoding? then Holds(a) else HoldsInline(a)
    case Map(a) => a.kind.MapKind? && a.encoding.RespEncoding? && Holds(a)
    case Set(a) => a.kind.SetKind? && a.encoding.RespEncoding? && Holds(a)
    case Push(a) => a.kind.PushKind? && a.encoding.RespEncoding? && Holds(a)
  }

  predicate IsInline(f: Frame) {
    f.Array? && f.aggregate.encoding.InlineEncoding?
  }

  // ----- lines and headers parse back -----

  lemma {:induction false} FindCrHere(input: Bytes, start: nat, end: nat)
    requires start <= end < |input| && input[end] == CR && CR !in input[start..end]
    ensures FindCr(input, start) == Some(end)
    decreases end - start
  {
    if start < end {
      assert input[start] == input[start..end][0];
      assert input[start + 1..end] == input[start..end][1..];
      FindCrHere(input, start + 1, end);
    }
  }

  lemma {:induction false} LineParses(prefix: Bytes, line: Bytes, rest: Bytes)
    requires CR !in line
    ensures FindCrlf(prefix + line + Crlf + rest, |prefix|) == Some((line, |prefix| + |line| + 2))
  {
    var input := prefix + line + Crlf + rest;
    assert input[|prefix|..|prefix| + |line|] == line;
    FindCrHere(input, |prefix|, |prefix| + |line|);
  }

  lemma {:induction false} DigitsAreNoCr(n: nat)
    ensures CR !in Digits(n)
  {
    assert AllDigits(Digits(n));
  }

  lemma {:induction false} HeaderParses(prefix: byte, n: nat, rest: Bytes)
    ensures FindCrlf(Header(prefix, n) + rest, 1) == Some((Digits(n), |Header(prefix, n)|))
  {
    DigitsAreNoCr(n);
    LineParses([prefix], Digits(n), rest);
  }

  lemma {:induction false} PrintIsNoCr(n: int)
    ensures CR !in Print(n)
  {
    DigitsAreNoCr(if n < 0 then -n else n);
  }

  /** A printed number takes at most a tenth of its value in digits. */
  lemma {:induction false} DigitsAreFew(n: nat)
    ensures |Digits(n)| <= 1 + n / 10
    decreases n
  {
    if n >= 10 { DigitsAreFew(n / 10); }
  }

  lemma {:induction false} BlockSlices(prefix: byte, payload: Bytes, rest: Bytes)
    ensures var input := Block(prefix, payload) + rest;
            var header := |Header(prefix, |payload|)|;
            var total := header + |payload| + 2;
            && total == |Block(prefix, payload)| == BlockSize(|payload|)
            && input[header..total - 2] == payload
            && input[total - 2..total] == Crlf
            && FindCrlf(input, 1) == Some((Digits(|payload|), header))
  {
    HeaderParses(prefix, |payload|, payload + Crlf + rest);
    assert Block(prefix, payload) + rest == Header(prefix, |payload|) + (payload + Crlf + rest);
  }

  /** A header line that says `len`, and that many bytes and a line break behind it. */
  ghost predicate BlockAt(input: Bytes, line: Bytes, header: nat, payload: Bytes) {
    var total := header + |payload| + 2;
    && total < U64 && total <= |input| && FindCrlf(input, 1) == Some((line, header))
    && input[header..total - 2] == payload && input[total - 2..total] == Crlf
  }

  lemma {:induction false} BulkAt(input: Bytes, line: Bytes, header: nat, payload: Bytes)
    requires BlockAt(input, line, header, payload) && ParseI64(line) == Some(|payload|)
    ensures ParseBulk(input) == Complete(BulkString(payload), header + |payload| + 2)
  {
  }

  lemma {:induction false} BlobErrorAt(input: Bytes, line: Bytes, header: nat, payload: Bytes)
    requires BlockAt(input, line, header, payload) && ParseUnsigned(line, U64 - 1) == Some(|payload|)
    ensures ParseBlobError(input) == Complete(BlobError(payload), header + |payload| + 2)
  {
  }

  lemma {:induction false} VerbatimAt(input: Bytes, line: Bytes, header: nat, format: Bytes, data: Bytes)
    requires BlockAt(input, line, header, format + [COLON] + data) && |format| == 3
    requires ParseUnsigned(line, U64 - 1) == Some(4 + |data|)
    ensures ParseVerbatim(input) == Complete(VerbatimString(format, data), header + 4 + |data| + 2)
  {
    var payload := format + [COLON] + data;
    assert payload[..3] == format && payload[4..] == data && payload[3] == COLON;
  }

  lemma {:induction false} BulkRoundTrip(v: Bytes, rest: Bytes)
    requires |v| < I64
    ensures ParseBulk(Block(BULK, v) + rest) == Complete(BulkString(v), |Block(BULK, v)|)
  {
    BlockSlices(BULK, v, rest);
    ParsePrinted(|v|, I64 - 1);
    DigitsAreFew(|v|);
    BulkAt(Block(BULK, v) + rest, Digits(|v|), |Header(BULK, |v|)|, v);
  }

  lemma {:induction false} BlobErrorRoundTrip(v: Bytes, rest: Bytes)
    requires BlockSize(|v|) < U64
    ensures ParseBlobError(Block(BLOB, v) + rest) == Complete(BlobError(v), |Block(BLOB, v)|)
  {
    BlockSlices(BLOB, v, rest);
    ParsePrintedUnsigned(|v|, U64 - 1);
    BlobErrorAt(Block(BLOB, v) + rest, Digits(|v|), |Header(BLOB, |v|)|, v);
  }

  lemma {:induction false} VerbatimRoundTrip(format: Bytes, data: Bytes, rest: Bytes)
    requires |format| == 3 && BlockSize(4 + |data|) < U64
    ensures var payload := format + [COLON] + data;
            ParseVerbatim(Block(VERBATIM, payload) + rest)
            == Complete(VerbatimString(format, data), |Block(VERBATIM, payload)|)
  {
    var payload := format + [COLON] + data;
    BlockSlices(VERBATIM, payload, rest);
    ParsePrintedUnsigned(|payload|, U64 - 1);
    VerbatimAt(Block(VERBATIM, payload) + rest, Digits(|payload|), |Header(VERBATIM, |payload|)|, format, data);
  }

  lemma {:induction false} HeaderSays(prefix: byte, n: nat, rest: Bytes)
    requires n < I64
    ensures HeaderOf(Header(prefix, n) + rest) == Some((Some(n), |Header(prefix, n)|))
  {
    HeaderParses(prefix, n, rest);
    ParsePrinted(n, I64 - 1);
  }

  lemma {:induction false} AggregateRoundTrip(p: Parser, a: Aggregate, rest: Bytes)
    requires a.encoding.RespEncoding? && a.len < I64 && StableUpTo(p, |a.data|)
    requires Many(p, a.data, Expected(a.kind, a.len)) == Parsed(|a.data|)
    ensures ParseAggregate(p, SerializeAggregate(a) + rest, a.kind)
            == Complete(AggregateFrame(a), |SerializeAggregate(a)|)
  {
    var head := Header(PrefixOf(a.kind), a.len);
    HeaderSays(PrefixOf(a.kind), a.len, a.data + rest);
    Assoc(head, a.data, rest);
    ManyExtends(p, a.data, rest, Expected(a.kind, a.len));
    AfterHeader(head, a.data, rest);
    HeaderThenElements(p, head + (a.data + rest), a.kind, |head|, a.len, |a.data|);
  }

  lemma {:induction false} HeaderThenElements(p: Parser, input: Bytes, kind: AggregateKind, header: nat, len: nat, total: nat)
    requires 1 <= header && header + total <= |input| && Many(p, input[header..], Expected(kind, len)) == Parsed(total)
    ensures ByHeader(p, input, kind, Some((Some(len), header))) ==
            Complete(AggregateFrame(Aggregate(kind, len, input[header..header + total], RespEncoding)), header + total)
  {
  }

  lemma {:induction false} AfterHeader(head: Bytes, data: Bytes, rest: Bytes)
    ensures var input := head + (data + rest);
            input[|head|..] == data + rest && input[|head|..|head| + |data|] == data
  {
  }

  lemma {:induction false} InlineRoundTrip(a: Aggregate, rest: Bytes)
    requires a.kind.ArrayKind? && a.encoding.InlineEncoding? && HoldsInline(a)
    ensures ParseInline(a.data + Crlf + rest) == Complete(Array(a), |a.data| + 2)
  {
    LineParses([], a.data, rest);
    assert [] + a.data + Crlf + rest == a.data + Crlf + rest;
  }

  lemma {:induction false} DispatchBlocks(input: Bytes, inline: bool)
    requires input != []
    ensures input[0] == BULK ==> ParseFrame(input, inline) == ParseBulk(input)
    ensures input[0] == BLOB ==> ParseFrame(input, inline) == ParseBlobError(input)
    ensures input[0] == VERBATIM ==> ParseFrame(input, inline) == ParseVerbatim(input)
    ensures input[0] == INTEGER ==> ParseFrame(input, inline) == ParseInteger(input)
    ensures input[0] == NULL ==> ParseFrame(input, inline) == ParseNull(input)
    ensures input[0] == BOOL ==> ParseFrame(input, inline) == ParseBoolean(input)
    ensures StartsInline(input) && inline ==> ParseFrame(input, inline) == ParseInline(input)
    ensures StartsInline(input) && !inline ==> ParseFrame(input, inline) == Failed(UnsupportedPrefix)
  {
  }

  lemma {:induction false} LineFrameRoundTrip(f: Frame, rest: Bytes, inline: bool)
    requires (f.SimpleString? || f.SimpleError? || f.BigNumber?) && CR !in f.value
    ensures ParseFrame(Serialize(f) + rest, inline) == Complete(f, |Serialize(f)|)
  {
    var prefix := Serialize(f)[0];
    LineParses([prefix], f.value, rest);
  }

  lemma {:induction false} IntegerRoundTrip(n: int, rest: Bytes)
    requires 0 - I64 <= n < I64
    ensures ParseInteger(Serialize(Integer(n)) + rest) == Complete(Integer(n), |Serialize(Integer(n))|)
  {
    PrintIsNoCr(n);
    LineParses([INTEGER], Print(n), rest);
    ParsePrinted(n, I64 - 1);
  }

  lemma {:induction false} FixedRoundTrip(f: Frame, rest: Bytes)
    requires f.Null? || f.Boolean?
    ensures f.Null? ==> ParseNull(Serialize(f) + rest) == Complete(f, 3)
    ensures f.Boolean? ==> ParseBoolean(Serialize(f) + rest) == Complete(f, 4)
  {
    var bytes := Serialize(f);
    assert (bytes + rest)[..|bytes|] == bytes;
  }

  lemma {:induction false} ScalarRoundTrip(f: Frame, rest: Bytes, inline: bool)
    requires WellFormed(f) && !f.Array? && !f.Map? && !f.Set? && !f.Push?
    ensures ParseFrame(Serialize(f) + rest, inline) == Complete(f, |Serialize(f)|)
  {
    DispatchBlocks(Serialize(f) + rest, inline);
    match f
    case SimpleString(_) => LineFrameRoundTrip(f, rest, inline);
    case SimpleError(_) => LineFrameRoundTrip(f, rest, inline);
    case BigNumber(_) => LineFrameRoundTrip(f, rest, inline);
    case Integer(n) => IntegerRoundTrip(n, rest);
    case BulkString(v) => BulkRoundTrip(v, rest);
    case BlobError(v) => BlobErrorRoundTrip(v, rest);
    case VerbatimString(format, data) => VerbatimRoundTrip(format, data, rest);
    case Null => FixedRoundTrip(f, rest);
    case Boolean(_) => FixedRoundTrip(f, rest);
  }

  lemma {:induction false} FirstByte(a: Aggregate, rest: Bytes)
    requires a.encoding.RespEncoding?
    ensures SerializeAggregate(a) + rest != [] && (SerializeAggregate(a) + rest)[0] == PrefixOf(a.kind)
  {
  }

  lemma {:induction false} AggregateAtTop(input: Bytes, kind: AggregateKind, inline: bool)
    requires input != [] && input[0] == PrefixOf(kind)
    ensures ParseFrame(input, inline) == ParseAggregate(ElementParser, input, kind)
  {
    FrameOfAggregate(input, inline);
  }

  lemma {:induction false} HeldRoundTrip(a: Aggregate, rest: Bytes, inline: bool)
    requires a.encoding.RespEncoding? && Holds(a)
    ensures ParseFrame(SerializeAggregate(a) + rest, inline) == Complete(AggregateFrame(a), |SerializeAggregate(a)|)
  {
    FirstByte(a, rest);
    ElementsAreSound(|a.data|);
    AggregateRoundTrip(ElementParser, a, rest);
    AggregateAtTop(SerializeAggregate(a) + rest, a.kind, inline);
  }

  lemma {:induction false} InlineFrameRoundTrip(a: Aggregate, rest: Bytes)
    requires a.kind.ArrayKind? && a.encoding.InlineEncoding? && HoldsInline(a)
    ensures Parse(SerializeAggregate(a) + rest) == Complete(Array(a), |SerializeAggregate(a)|)
  {
    DispatchBlocks(SerializeAggregate(a) + rest, true);
    InlineRoundTrip(a, rest);
  }

  /** Parsing what was serialized, with anything after it, gives the frame and its length back. */
  lemma {:induction false} RoundTrip(f: Frame, rest: Bytes, inline: bool)
    requires WellFormed(f) && (IsInline(f) ==> inline)
    ensures ParseFrame(Serialize(f) + rest, inline) == Complete(f, |Serialize(f)|)
  {
    if IsInline(f) {
      InlineFrameRoundTrip(f.aggregate, rest);
    } else if f.Array? || f.Map? || f.Set? || f.Push? {
      HeldRoundTrip(f.aggregate, rest, inline);
    } else {
      ScalarRoundTrip(f, rest, inline);
    }
  }

  // ----- and only those -----

  lemma {:induction false} DigitsAreShortest(s: Bytes)
    requires s != [] && AllDigits(s)
    ensures |Digits(Value(s))| <= |s|
  {
    var front := s[..|s| - 1];
    if front != [] { DigitsAreShortest(front); }
    assert Value(s) / 10 == Value(front);
  }

  lemma {:induction false} BlockWasSmall(line: Bytes, len: nat)
    requires ParseUnsigned(line, U64 - 1) == Some(len)
    ensures |Digits(len)| <= |line|
  {
    DigitsAreShortest(if line[0] == PLUS then line[1..] else line);
  }

  lemma {:induction false} TrimIsTrimmed(s: Bytes)
    ensures Trim(Trim(s)) == Trim(s)
    ensures CR !in s ==> CR !in Trim(s)
    ensures forall b | b in Trim(s) :: b in s
  {
    TrimLeftShrinks(s);
    TrimRightShape(TrimLeft(s));
  }

  lemma {:induction false} TrimRightShape(s: Bytes)
    ensures TrimRight(s) <= s
    ensures TrimRight(TrimRight(s)) == TrimRight(s)
    ensures s != [] && !IsBlank(s[0]) ==> TrimRight(s) != [] && TrimRight(s)[0] == s[0]
  {
    if s != [] && IsBlank(s[|s| - 1]) { TrimRightShape(s[..|s| - 1]); }
  }

  lemma {:induction false} LinesAreWellFormed(input: Bytes)
    requires FindCrlf(input, 1).Some?
    ensures WellFormed(ParseLine(input, v => SimpleString(v)).frame)
    ensures WellFormed(ParseLine(input, v => SimpleError(v)).frame)
    ensures WellFormed(ParseLine(input, v => BigNumber(v)).frame)
    ensures ParseInteger(input).Complete? ==> WellFormed(ParseInteger(input).frame)
  {
    LineHasNoCr(input, 1);
  }

  lemma {:induction false} BulkIsWellFormed(input: Bytes)
    requires ParseBulk(input).Complete?
    ensures WellFormed(ParseBulk(input).frame)
  {
  }

  lemma {:induction false} BlobErrorIsWellFormed(input: Bytes)
    requires ParseBlobError(input).Complete?
    ensures WellFormed(ParseBlobError(input).frame)
  {
    var (line, header) := FindCrlf(input, 1).value;
    BlockWasSmall(line, ParseUnsigned(line, U64 - 1).value);
  }

  lemma {:induction false} VerbatimIsWellFormed(input: Bytes)
    requires ParseVerbatim(input).Complete?
    ensures WellFormed(ParseVerbatim(input).frame)
  {
    var (line, header) := FindCrlf(input, 1).value;
    BlockWasSmall(line, ParseUnsigned(line, U64 - 1).value);
  }

  lemma {:induction false} ScalarIsWellFormed(input: Bytes, inline: bool)
    requires input != [] && !IsAggregatePrefix(input[0]) && ParseScalar(input, inline).Complete?
    ensures var f := ParseScalar(input, inline).frame; !f.Double? && !IsInline(f) ==> WellFormed(f)
  {
    if input[0] in {SIMPLE, ERROR, BIG, INTEGER} {
      LinesAreWellFormed(input);
    } else if input[0] == BULK {
      BulkIsWellFormed(input);
    } else if input[0] == BLOB {
      BlobErrorIsWellFormed(input);
    } else if input[0] == VERBATIM {
      VerbatimIsWellFormed(input);
    }
  }

  lemma {:induction false} HoldsIsWellFormed(a: Aggregate)
    requires a.encoding.RespEncoding? && Holds(a)
    ensures var f := AggregateFrame(a); WellFormed(f) && !f.Double? && !IsInline(f)
  {
  }

  /** A null, or the aggregate of the elements behind the header. */
  lemma {:induction false} ByHeaderShape(p: Parser, input: Bytes, kind: AggregateKind, h: HeaderLine) returns (a: Aggregate)
    requires h.Some? && 1 <= h.value.1 <= |input| && (h.value.0.Some? ==> h.value.0.value < I64)
    requires ByHeader(p, input, kind, h).Complete? && StableUpTo(p, |input| - h.value.1) && ClosedUpTo(p, |input| - h.value.1)
    ensures ByHeader(p, input, kind, h).frame == Null || ByHeader(p, input, kind, h).frame == AggregateFrame(a)
    ensures a.encoding.RespEncoding? && a.len < I64
    ensures Many(p, a.data, Expected(a.kind, a.len)) == Parsed(|a.data|)
  {
    var header, len := h.value.1, h.value.0.value;
    if len < 0 {
      return Aggregate(ArrayKind, 0, [], RespEncoding);
    }
    var total := Many(p, input[header..], Expected(kind, len)).total;
    HeaderThenElements(p, input, kind, header, len, total);
    a := Aggregate(kind, len, input[header..header + total], RespEncoding);
    TailSlice(input, header, total);
    ManyTruncates(p, input[header..], Expected(kind, len));
  }

  lemma {:induction false} TailSlice(input: Bytes, from: nat, count: nat)
    requires from + count <= |input|
    ensures input[from..][..count] == input[from..from + count]
  {
  }

  /** The aggregate a header and its elements make holds exactly those elements. */
  lemma {:induction false} AggregateShape(p: Parser, input: Bytes, kind: AggregateKind) returns (a: Aggregate)
    requires ParseAggregate(p, input, kind).Complete?
    requires StableUpTo(p, |input|) && ClosedUpTo(p, |input|)
    ensures ParseAggregate(p, input, kind).frame in {Null, AggregateFrame(a)}
    ensures a.encoding.RespEncoding? && a.len < I64
    ensures Many(p, a.data, Expected(a.kind, a.len)) == Parsed(|a.data|)
  {
    FewerBytes(p, |input|, |input| - HeaderOf(input).value.1);
    a := ByHeaderShape(p, input, kind, HeaderOf(input));
  }

  /** Whatever the parser returns is well formed (an inline command aside, see below). */
  lemma {:induction false} ParsedIsWellFormed(input: Bytes, inline: bool)
    requires ParseFrame(input, inline).Complete?
    ensures var f := ParseFrame(input, inline).frame; !f.Double? && !IsInline(f) ==> WellFormed(f)
    ensures IsAggregatePrefix(input[0]) ==> !IsInline(ParseFrame(input, inline).frame)
  {
    if IsAggregatePrefix(input[0]) {
      FrameOfAggregate(input, inline);
      ElementsAreSound(|input|);
      var a := AggregateShape(ElementParser, input, KindOf(input[0]));
      HoldsIsWellFormed(a);
    } else {
      ScalarIsWellFormed(input, inline);
    }
  }

  lemma {:induction false} InlineComesFromInline(input: Bytes)
    requires Parse(input).Complete? && IsInline(Parse(input).frame)
    ensures StartsInline(input) && Parse(input) == ParseInline(input)
  {
    ParsedIsWellFormed(input, true);
    DispatchBlocks(input, true);
  }

  /** An inline command reads back as itself only if it looks like one. */
  lemma {:induction false} InlineReadsBack(f: Frame)
    requires IsInline(f) && Parse(Serialize(f)) == Complete(f, |Serialize(f)|)
    ensures WellFormed(f)
  {
    var data := f.aggregate.data;
    var input := data + Crlf;
    InlineComesFromInline(input);
    LineHasNoCr(input, 0);
    assert input[0..|data|] == data;
    assert data != [] ==> input[0] == data[0];
    assert data == [] ==> input == Crlf;
  }

  /** Exactly the well-formed frames survive being serialized and parsed. */
  lemma {:induction false} RoundTripIff(f: Frame)
    requires !f.Double?
    ensures (forall rest: Bytes :: Parse(Serialize(f) + rest) == Complete(f, |Serialize(f)|)) <==> WellFormed(f)
  {
    if WellFormed(f) {
      forall rest: Bytes ensures Parse(Serialize(f) + rest) == Complete(f, |Serialize(f)|) {
        RoundTrip(f, rest, true);
      }
    } else if Parse(Serialize(f) + []) == Complete(f, |Serialize(f)|) {
      assert Serialize(f) + [] == Serialize(f);
      if IsInline(f) {
        InlineReadsBack(f);
      } else {
        ParsedIsWellFormed(Serialize(f), true);
      }
    }
  }

  /** A parsed inline command survives being serialized exactly when its line, trimmed, still starts like one. */
  lemma {:induction false} InlineSurvivesIff(input: Bytes)
    requires Parse(input).Complete? && IsInline(Parse(input).frame)
    ensures FindCrlf(input, 0).Some?
    ensures var f, line := Parse(input).frame, FindCrlf(input, 0).value.0;
            (forall rest: Bytes :: Parse(Serialize(f) + rest) == Complete(f, |Serialize(f)|)) <==> StartsInline(Trim(line))
  {
    InlineComesFromInline(input);
    LineHasNoCr(input, 0);
    TrimIsTrimmed(FindCrlf(input, 0).value.0);
    RoundTripIff(Parse(input).frame);
  }

  lemma {:induction false} BlankPlusX(line: Bytes)
    requires line == [SPACE, SIMPLE, 120]
    ensures Trim(line) == [SIMPLE, 120] && CR !in line
  {
    assert line[1..] == [SIMPLE, 120];
    assert TrimLeft(line) == TrimLeft([SIMPLE, 120]) == [SIMPLE, 120];
  }

  lemma {:induction false} InlineOf(line: Bytes, trimmed: Bytes)
    requires StartsInline(line) && CR !in line && Trim(line) == trimmed != []
    ensures Parse(line + Crlf) == Complete(Array(Aggregate(ArrayKind, |Words(trimmed)|, trimmed, InlineEncoding)), |line| + 2)
  {
    assert [] + line + Crlf + [] == line + Crlf;
    LineParses([], line, []);
    DispatchBlocks(line + Crlf, true);
  }

  /** A command word with a leading blank can turn into another frame: ` +x` is inline, `+x` is not. */
  lemma {:induction false} InlineCanChangeMeaning()
    ensures var input: Bytes := [SPACE, SIMPLE, 120, CR, LF];
            && Parse(input).Complete?
            && var f := Parse(input).frame;
               IsInline(f) && Parse(Serialize(f)) == Complete(SimpleString([120]), 4)
  {
    var line: Bytes, input: Bytes := [SPACE, SIMPLE, 120], [SPACE, SIMPLE, 120, CR, LF];
    BlankPlusX(line);
    InlineOf(line, [SIMPLE, 120]);
    assert line + Crlf == input;
    var f := Parse(input).frame;
    assert Serialize(f) == [SIMPLE, 120] + Crlf == Serialize(SimpleString([120])) + [];
    LineFrameRoundTrip(SimpleString([120]), [], true);
  }
}
