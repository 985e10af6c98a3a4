/**
 The RESP wire format: frames (senko-proto/src/frame.rs) and the incremental parser
 (senko-proto/src/parser.rs).  Numbers that do not parse are one error here, whatever the
 Rust error kind.  A length whose frame would end past 2^64 is the error `LengthOverflow`; the
 source has no such error and adds in machine words, which panics or wraps.
 */
module Resp {
  import opened Common
  import opened Decimal

  const TAB: byte := 9
  const LF: byte := 10
  const CR: byte := 13
  const SPACE: byte := 32
  const BLOB: byte := 33       // !
  const BOOL: byte := 35       // #
  const BULK: byte := 36       // $
  const MAP: byte := 37        // %
  const BIG: byte := 40        // (
  const ARRAY: byte := 42      // *
  const SIMPLE: byte := 43     // +
  const DOUBLE: byte := 44     // ,
  const ERROR: byte := 45      // -
  const INTEGER: byte := 58    // :
  const COLON: byte := 58
  const VERBATIM: byte := 61   // =
  const PUSH: byte := 62       // >
  const NULL: byte := 95       // _
  const SET: byte := 126       // ~
  const TRUE: byte := 116
  const FALSE: byte := 102
  const Crlf: Bytes := [CR, LF]

  datatype AggregateKind = ArrayKind | MapKind | SetKind | PushKind
  datatype AggregateEncoding = RespEncoding | InlineEncoding
  datatype Aggregate = Aggregate(kind: AggregateKind, len: nat, data: Bytes, encoding: AggregateEncoding)

  /** A frame; a double is represented by the text it was parsed from. */
  datatype Frame =
    | SimpleString(value: Bytes)
    | SimpleError(value: Bytes)
    | Integer(number: int)
    | BulkString(value: Bytes)
    | Array(aggregate: Aggregate)
    | Null
    | Boolean(flag: bool)
    | Double(text: Bytes)
    | BigNumber(value: Bytes)
    | BlobError(value: Bytes)
    | VerbatimString(format: Bytes, data: Bytes)
    | Map(aggregate: Aggregate)
    | Set(aggregate: Aggregate)
    | Push(aggregate: Aggregate)

  datatype Error =
    | UnexpectedLineBreak
    | UnsupportedPrefix
    | InvalidNull
    | InvalidBoolean
    | InvalidNumber
    | MissingTrailingCrlf
    | VerbatimTooShort
    | VerbatimMissingSeparator
    | EmptyInline
    | LengthOverflow

  datatype Status = Complete(frame: Frame, used: nat) | Incomplete(needed: nat) | Failed(error: Error)

  /** What a run of frames came to. */
  datatype Run = Parsed(total: nat) | Short(wanted: nat) | Bad(error: Error)

  // ----- lines -----

  /** The first carriage return at or after `start`. */
  function FindCr(input: Bytes, start: nat): (r: Option<nat>)
    ensures r.Some? ==> start <= r.value < |input|
    decreases |input| - start
  {
    if start >= |input| then None
    else if input[start] == CR then Some(start)
    else FindCr(input, start + 1)
  }

  /** `find_crlf`: the line from `start`, and the index past its line break. */
  function FindCrlf(input: Bytes, start: nat): (r: Option<(Bytes, nat)>)
    ensures r.Some? ==> start + 2 <= r.value.1 <= |input| && r.value.0 == input[start..r.value.1 - 2]
  {
    match FindCr(input, start)
    case None => None
    case Some(pos) =>
      if pos + 1 < |input| && input[pos + 1] == LF then Some((input[start..pos], pos + 2)) else None
  }

  lemma {:induction false} NoCrBefore(input: Bytes, start: nat)
    requires FindCr(input, start).Some?
    ensures CR !in input[start..FindCr(input, start).value]
    decreases |input| - start
  {
    var end := FindCr(input, start).value;
    if start < end {
      NoCrBefore(input, start + 1);
      assert input[start..end] == [input[start]] + input[start + 1..end];
    }
  }

  /** A line holds no carriage return. */
  lemma {:induction false} LineHasNoCr(input: Bytes, start: nat)
    requires FindCrlf(input, start).Some?
    ensures CR !in FindCrlf(input, start).value.0
  {
    NoCrBefore(input, start);
  }

  predicate IsBlank(b: byte) {
    b == SPACE || b == TAB
  }

  function TrimLeft(s: Bytes): Bytes {
    if s != [] && IsBlank(s[0]) then TrimLeft(s[1..]) else s
  }

  function TrimRight(s: Bytes): Bytes {
    if s != [] && IsBlank(s[|s| - 1]) then TrimRight(s[..|s| - 1]) else s
  }

  function Trim(s: Bytes): Bytes {
    TrimRight(TrimLeft(s))
  }

  /** The blank-separated words of an inline command. */
  function Words(s: Bytes): seq<Bytes>
    decreases |s|
  {
    var t := TrimLeft(s);
    TrimLeftShrinks(s);
    if t == [] then []
    else [t[..WordEnd(t)]] + Words(t[WordEnd(t)..])
  }

  /** The index of the first blank, or the end. */
  function WordEnd(s: Bytes): (n: nat)
    ensures n <= |s|
    ensures s != [] && !IsBlank(s[0]) ==> n > 0
  {
    if s == [] || IsBlank(s[0]) then 0 else 1 + WordEnd(s[1..])
  }

  lemma {:induction false} TrimLeftShrinks(s: Bytes)
    ensures |TrimLeft(s)| <= |s|
    ensures TrimLeft(s) == s[|s| - |TrimLeft(s)|..]
    ensures TrimLeft(s) != [] ==> !IsBlank(TrimLeft(s)[0])
  {
    if s != [] && IsBlank(s[0]) { TrimLeftShrinks(s[1..]); }
  }

  // ----- the text of a double -----

  function DigitRun(s: Bytes, i: nat): (end: nat)
    requires i <= |s|
    ensures i <= end <= |s|
    decreases |s| - i
  {
    if i < |s| && IsDigit(s[i]) then DigitRun(s, i + 1) else i
  }

  function Lower(b: byte): byte {
    if 65 <= b <= 90 then b + 32 else b
  }

  function LowerAll(s: Bytes): Bytes {
    seq(|s|, i requires 0 <= i < |s| => Lower(s[i]))
  }

  function SkipSign(s: Bytes): Bytes {
    if s != [] && (s[0] == PLUS || s[0] == MINUS) then s[1..] else s
  }

  predicate IsExponent(s: Bytes) {
    && s != [] && Lower(s[0]) == 101
    && var digits := SkipSign(s[1..]); digits != [] && AllDigits(digits)
  }

  /** The texts `str::parse::<f64>` accepts. */
  predicate IsDouble(s: Bytes) {
    var body := SkipSign(s);
    var whole := DigitRun(body, 0);
    var end := if whole < |body| && body[whole] == 46 then DigitRun(body, whole + 1) else whole;
    || LowerAll(body) in {[105, 110, 102], [105, 110, 102, 105, 110, 105, 116, 121], [110, 97, 110]}
    || ((whole > 0 || end > whole + 1) && (end == |body| || IsExponent(body[end..])))
  }

  // ----- frames without elements -----

  function ParseLine(input: Bytes, build: Bytes -> Frame): Status {
    match FindCrlf(input, 1)
    case None => Incomplete(|input| + 2)
    case Some((line, used)) => Complete(build(line), used)
  }

  function ParseInteger(input: Bytes): Status {
    match FindCrlf(input, 1)
    case None => Incomplete(|input| + 2)
    case Some((line, used)) =>
      match ParseI64(line)
      case None => Failed(InvalidNumber)
      case Some(v) => Complete(Integer(v), used)
  }

  function ParseNull(input: Bytes): Status {
    if |input| < 3 then Incomplete(3)
    else if input[..3] != [NULL, CR, LF] then Failed(InvalidNull)
    else Complete(Null, 3)
  }

  function ParseBoolean(input: Bytes): Status {
    if |input| < 4 then Incomplete(4)
    else if input[..4] == [BOOL, TRUE, CR, LF] then Complete(Boolean(true), 4)
    else if input[..4] == [BOOL, FALSE, CR, LF] then Complete(Boolean(false), 4)
    else Failed(InvalidBoolean)
  }

  function ParseDouble(input: Bytes): Status {
    match FindCrlf(input, 1)
    case None => Incomplete(|input| + 2)
    case Some((line, used)) => if IsDouble(line) then Complete(Double(line), used) else Failed(InvalidNumber)
  }

  function ParseBulk(input: Bytes): Status {
    match FindCrlf(input, 1)
    case None => Incomplete(|input| + 2)
    case Some((line, header)) =>
      match ParseI64(line)
      case None => Failed(InvalidNumber)
      case Some(len) =>
        if len < 0 then Complete(Null, header)
        else
          var total := header + len + 2;
          if total >= U64 then Failed(LengthOverflow)
          else if |input| < total then Incomplete(total)
          else if input[total - 2..total] != Crlf then Failed(MissingTrailingCrlf)
          else Complete(BulkString(input[header..total - 2]), total)
  }

  function ParseBlobError(input: Bytes): Status {
    match FindCrlf(input, 1)
    case None => Incomplete(|input| + 2)
    case Some((line, header)) =>
      match ParseUnsigned(line, U64 - 1)
      case None => Failed(InvalidNumber)
      case Some(len) =>
        var total := header + len + 2;
        if total >= U64 then Failed(LengthOverflow)
        else if |input| < total then Incomplete(total)
        else if input[total - 2..total] != Crlf then Failed(MissingTrailingCrlf)
        else Complete(BlobError(input[header..total - 2]), total)
  }

  function ParseVerbatim(input: Bytes): Status {
    match FindCrlf(input, 1)
    case None => Incomplete(|input| + 2)
    case Some((line, header)) =>
      match ParseUnsigned(line, U64 - 1)
      case None => Failed(InvalidNumber)
      case Some(len) =>
        var total := header + len + 2;
        if total >= U64 then Failed(LengthOverflow)
        else if |input| < total then Incomplete(total)
        else if len < 4 then Failed(VerbatimTooShort)
        else if input[total - 2..total] != Crlf then Failed(MissingTrailingCrlf)
        else
          var payload := input[header..total - 2];
          if payload[3] != COLON then Failed(VerbatimMissingSeparator)
          else Complete(VerbatimString(payload[..3], payload[4..]), total)
  }

  function ParseInline(input: Bytes): Status {
    match FindCrlf(input, 0)
    case None => Incomplete(|input| + 2)
    case Some((line, used)) =>
      var trimmed := Trim(line);
      if trimmed == [] then Failed(EmptyInline)
      else Complete(Array(Aggregate(ArrayKind, |Words(trimmed)|, trimmed, InlineEncoding)), used)
  }

  predicate IsAggregatePrefix(b: byte) {
    b == ARRAY || b == MAP || b == SET || b == PUSH
  }

  function KindOf(b: byte): AggregateKind {
    if b == MAP then MapKind else if b == SET then SetKind else if b == PUSH then PushKind else ArrayKind
  }

  function ParseScalar(input: Bytes, inline: bool): (s: Status)
    requires input != [] && !IsAggregatePrefix(input[0])
    ensures s.Complete? ==> 1 <= s.used <= |input|
    ensures s.Incomplete? ==> s.needed > |input|
  {
    var prefix := input[0];
    if prefix == SIMPLE then ParseLine(input, v => SimpleString(v))
    else if prefix == ERROR then ParseLine(input, v => SimpleError(v))
    else if prefix == INTEGER then ParseInteger(input)
    else if prefix == BULK then ParseBulk(input)
    else if prefix == NULL then ParseNull(input)
    else if prefix == BOOL then ParseBoolean(input)
    else if prefix == DOUBLE then ParseDouble(input)
    else if prefix == BIG then ParseLine(input, v => BigNumber(v))
    else if prefix == BLOB then ParseBlobError(input)
    else if prefix == VERBATIM then ParseVerbatim(input)
    else if prefix == CR || prefix == LF then Failed(UnexpectedLineBreak)
    else if inline then ParseInline(input)
    else Failed(UnsupportedPrefix)
  }

  // ----- aggregates -----

  /** How many frames an aggregate of `len` holds; the doubling saturates. */
  function Expected(kind: AggregateKind, len: nat): nat {
    if kind.MapKind? then (if 2 * len >= U64 then U64 - 1 else 2 * len) else len
  }

  function AggregateFrame(aggregate: Aggregate): Frame {
    match aggregate.kind
    case ArrayKind => Array(aggregate)
    case MapKind => Map(aggregate)
    case SetKind => Set(aggregate)
    case PushKind => Push(aggregate)
  }

  /**
   A frame parser: a complete answer consumes at least one byte and at most all, an
   incomplete one asks for more bytes than there are.
   */
  type Parser = p: Bytes -> Status |
      forall x :: (p(x).Complete? ==> 1 <= p(x).used <= |x|) && (p(x).Incomplete? ==> p(x).needed > |x|)
    witness (x => Incomplete(|x| + 1))

  /** `count` frames in a row. */
  function Many(p: Parser, input: Bytes, count: nat): (r: Run)
    ensures r.Parsed? ==> r.total <= |input|
    ensures r.Short? ==> r.wanted > |input|
    decreases count
  {
    if count == 0 then Parsed(0)
    else
      match p(input)
      case Incomplete(needed) => Short(needed)
      case Failed(error) => Bad(error)
      case Complete(_, used) => After(used, Many(p, input[used..], count - 1))
  }

  function After(used: nat, rest: Run): Run {
    match rest
    case Short(wanted) => Short(used + wanted)
    case Bad(error) => Bad(error)
    case Parsed(total) => Parsed(used + total)
  }

  /** The aggregate frame whose elements came to `elements`. */
  function Assemble(input: Bytes, kind: AggregateKind, header: nat, len: nat, elements: Run): Status
    requires header <= |input| && (elements.Parsed? ==> header + elements.total <= |input|)
  {
    match elements
    case Short(wanted) => Incomplete(header + wanted)
    case Bad(error) => Failed(error)
    case Parsed(total) =>
      Complete(AggregateFrame(Aggregate(kind, len, input[header..header + total], RespEncoding)), header + total)
  }

  /** The number a header line says, if it is one, and the index past the line. */
  type HeaderLine = Option<(Option<int>, nat)>

  function HeaderOf(input: Bytes): (h: HeaderLine)
    ensures h.Some? ==> 3 <= h.value.1 <= |input|
  {
    match FindCrlf(input, 1)
    case None => None
    case Some((line, header)) => Some((ParseI64(line), header))
  }

  /** What a header line and the bytes behind it make. */
  function ByHeader(p: Parser, input: Bytes, kind: AggregateKind, h: HeaderLine): (s: Status)
    requires h.Some? ==> 1 <= h.value.1 <= |input|
    ensures s.Complete? ==> 1 <= s.used <= |input|
    ensures s.Incomplete? ==> s.needed > |input|
  {
    match h
    case None => Incomplete(|input| + 2)
    case Some((number, header)) =>
      match number
      case None => Failed(InvalidNumber)
      case Some(len) =>
        if len < 0 then Complete(Null, header)
        else Assemble(input, kind, header, len, Many(p, input[header..], Expected(kind, len)))
  }

  /** `parse_aggregate`, with `p` for the elements. */
  function ParseAggregate(p: Parser, input: Bytes, kind: AggregateKind): (s: Status)
    ensures s.Complete? ==> 1 <= s.used <= |input|
    ensures s.Incomplete? ==> s.needed > |input|
  {
    ByHeader(p, input, kind, HeaderOf(input))
  }

  /** `parse_frame`: elements are shorter than their aggregate, and never inline commands. */
  function ParseFrame(input: Bytes, inline: bool): (s: Status)
    ensures s.Complete? ==> 1 <= s.used <= |input|
    ensures s.Incomplete? ==> s.needed > |input|
    decreases |input|
  {
    if input == [] then Incomplete(1)
    else if IsAggregatePrefix(input[0]) then
      var element: Parser := (x: Bytes) => if |x| < |input| then ParseFrame(x, false) else Incomplete(|x| + 1);
      ParseAggregate(element, input, KindOf(input[0]))
    else ParseScalar(input, inline)
  }

  const ElementParser: Parser := (x: Bytes) => ParseFrame(x, false)

  const RespParser: Parser := (x: Bytes) => ParseFrame(x, true)

  function Parse(input: Bytes): Status {
    ParseFrame(input, true)
  }

  /** Parsers that agree on what is no longer than the input agree on a run of frames. */
  lemma {:induction false} ManyAgrees(p: Parser, q: Parser, input: Bytes, count: nat)
    requires forall x: Bytes | |x| <= |input| :: p(x) == q(x)
    ensures Many(p, input, count) == Many(q, input, count)
    decreases count
  {
    if count > 0 && p(input).Complete? {
      ManyAgrees(p, q, input[p(input).used..], count - 1);
    }
  }

  lemma {:induction false} AggregateAgrees(p: Parser, q: Parser, input: Bytes, kind: AggregateKind)
    requires forall x: Bytes | |x| < |input| :: p(x) == q(x)
    ensures ParseAggregate(p, input, kind) == ParseAggregate(q, input, kind)
  {
    if FindCrlf(input, 1).Some? {
      var (line, header) := FindCrlf(input, 1).value;
      var len := ParseI64(line);
      if len.Some? && len.value >= 0 {
        ManyAgrees(p, q, input[header..], Expected(kind, len.value));
      }
    }
  }

  /** On an aggregate the parser is the aggregate parser applied to itself. */
  lemma {:induction false} FrameOfAggregate(input: Bytes, inline: bool)
    requires input != [] && IsAggregatePrefix(input[0])
    ensures ParseFrame(input, inline) == ParseAggregate(ElementParser, input, KindOf(input[0]))
  {
    var element: Parser := (x: Bytes) => if |x| < |input| then ParseFrame(x, false) else Incomplete(|x| + 1);
    AggregateAgrees(element, ElementParser, input, KindOf(input[0]));
  }
}
