/**
 Parsing does not depend on how the bytes arrive: a finished answer on a prefix is the
 answer on every extension, it depends on the consumed bytes alone, and so the parse
 buffer loop of a connection (senko-net/src/connection.rs) hands out the same frames
 however its input was split.
 */
module RespChunks {
  import opened Common
  import opened Decimal
  import opened Resp

  // ----- extension -----

  lemma {:induction false} FindCrExtends(a: Bytes, b: Bytes, start: nat)
    requires FindCr(a, start).Some?
    ensures FindCr(a + b, start) == FindCr(a, start)
    decreases |a| - start
  {
    if a[start] != CR { FindCrExtends(a, b, start + 1); }
  }

  lemma {:induction false} FindCrlfExtends(a: Bytes, b: Bytes, start: nat)
    requires FindCrlf(a, start).Some?
    ensures FindCrlf(a + b, start) == FindCrlf(a, start)
  {
    FindCrExtends(a, b, start);
    var pos := FindCr(a, start).value;
    assert (a + b)[start..pos] == a[start..pos];
  }

  lemma {:induction false} SliceExtends(a: Bytes, b: Bytes, i: nat, j: nat)
    requires i <= j <= |a|
    ensures (a + b)[i..j] == a[i..j] && (a + b)[..j] == a[..j]
  {
  }

  /** The bytes of a length-prefixed frame, if they are all there. */
  lemma {:induction false} BlockExtends(a: Bytes, b: Bytes, header: nat, len: nat)
    requires header + len + 2 <= |a|
    ensures var total := header + len + 2;
            (a + b)[total - 2..total] == a[total - 2..total] && (a + b)[header..total - 2] == a[header..total - 2]
  {
  }

  lemma {:induction false} LinesExtend(a: Bytes, b: Bytes)
    requires FindCrlf(a, 1).Some?
    ensures ParseLine(a + b, v => SimpleString(v)) == ParseLine(a, v => SimpleString(v))
    ensures ParseLine(a + b, v => SimpleError(v)) == ParseLine(a, v => SimpleError(v))
    ensures ParseLine(a + b, v => BigNumber(v)) == ParseLine(a, v => BigNumber(v))
    ensures ParseInteger(a + b) == ParseInteger(a)
    ensures ParseDouble(a + b) == ParseDouble(a)
  {
    FindCrlfExtends(a, b, 1);
  }

  lemma {:induction false} BulkExtends(a: Bytes, b: Bytes)
    requires !ParseBulk(a).Incomplete?
    ensures ParseBulk(a + b) == ParseBulk(a)
  {
    FindCrlfExtends(a, b, 1);
    var (line, header) := FindCrlf(a, 1).value;
    var len := ParseI64(line);
    if len.Some? && len.value >= 0 && header + len.value + 2 < U64 { BlockExtends(a, b, header, len.value); }
  }

  lemma {:induction false} BlobErrorExtends(a: Bytes, b: Bytes)
    requires !ParseBlobError(a).Incomplete?
    ensures ParseBlobError(a + b) == ParseBlobError(a)
  {
    FindCrlfExtends(a, b, 1);
    var (line, header) := FindCrlf(a, 1).value;
    var len := ParseUnsigned(line, U64 - 1);
    if len.Some? && header + len.value + 2 < U64 { BlockExtends(a, b, header, len.value); }
  }

  lemma {:induction false} VerbatimExtends(a: Bytes, b: Bytes)
    requires !ParseVerbatim(a).Incomplete?
    ensures ParseVerbatim(a + b) == ParseVerbatim(a)
  {
    FindCrlfExtends(a, b, 1);
    var (line, header) := FindCrlf(a, 1).value;
    var len := ParseUnsigned(line, U64 - 1);
    if len.Some? && header + len.value + 2 < U64 { BlockExtends(a, b, header, len.value); }
  }

  lemma {:induction false} InlineExtends(a: Bytes, b: Bytes)
    requires !ParseInline(a).Incomplete?
    ensures ParseInline(a + b) == ParseInline(a)
  {
    FindCrlfExtends(a, b, 0);
  }

  lemma {:induction false} FixedExtends(a: Bytes, b: Bytes)
    ensures !ParseNull(a).Incomplete? ==> ParseNull(a + b) == ParseNull(a)
    ensures !ParseBoolean(a).Incomplete? ==> ParseBoolean(a + b) == ParseBoolean(a)
  {
    if |a| >= 3 { SliceExtends(a, b, 0, 3); }
    if |a| >= 4 { SliceExtends(a, b, 0, 4); }
  }

  lemma {:induction false} ScalarExtends(a: Bytes, b: Bytes, inline: bool)
    requires a != [] && !IsAggregatePrefix(a[0]) && !ParseScalar(a, inline).Incomplete?
    ensures ParseScalar(a + b, inline) == ParseScalar(a, inline)
  {
    var prefix := a[0];
    assert (a + b)[0] == prefix;
    if prefix == BULK {
      BulkExtends(a, b);
    } else if prefix == BLOB {
      BlobErrorExtends(a, b);
    } else if prefix == VERBATIM {
      VerbatimExtends(a, b);
    } else if prefix == NULL || prefix == BOOL {
      FixedExtends(a, b);
    } else if prefix in {SIMPLE, ERROR, INTEGER, DOUBLE, BIG} {
      LinesExtend(a, b);
    } else if prefix != CR && prefix != LF && inline {
      InlineExtends(a, b);
    }
  }

  /** A finished answer on at most `n` bytes stays when more bytes follow. */
  ghost predicate StableUpTo(p: Parser, n: int) {
    forall x: Bytes, y: Bytes {:trigger p(x + y)} :: |x| <= n && !p(x).Incomplete? ==> p(x + y) == p(x)
  }

  lemma {:induction false} ManyExtends(p: Parser, a: Bytes, b: Bytes, count: nat)
    requires StableUpTo(p, |a|) && !Many(p, a, count).Short?
    ensures Many(p, a + b, count) == Many(p, a, count)
    decreases count
  {
    if count > 0 {
      assert p(a + b) == p(a);
      if p(a).Complete? {
        var used := p(a).used;
        assert (a + b)[used..] == a[used..] + b;
        ManyExtends(p, a[used..], b, count - 1);
      }
    }
  }

  lemma {:induction false} AssembleExtends(a: Bytes, b: Bytes, kind: AggregateKind, header: nat, len: nat, elements: Run)
    requires header <= |a| && (elements.Parsed? ==> header + elements.total <= |a|)
    ensures Assemble(a + b, kind, header, len, elements) == Assemble(a, kind, header, len, elements)
  {
    if elements.Parsed? { SliceExtends(a, b, header, header + elements.total); }
  }

  lemma {:induction false} HeaderExtends(a: Bytes, b: Bytes)
    requires HeaderOf(a).Some?
    ensures HeaderOf(a + b) == HeaderOf(a)
  {
    FindCrlfExtends(a, b, 1);
  }

  lemma {:induction false} FewerBytes(p: Parser, n: int, m: int)
    requires m <= n
    ensures StableUpTo(p, n) ==> StableUpTo(p, m)
    ensures ClosedUpTo(p, n) ==> ClosedUpTo(p, m)
  {
  }

  lemma {:induction false} ByHeaderExtends(p: Parser, a: Bytes, b: Bytes, kind: AggregateKind, h: HeaderLine)
    requires h.Some? && 1 <= h.value.1 <= |a| && StableUpTo(p, |a| - h.value.1) && !ByHeader(p, a, kind, h).Incomplete?
    ensures ByHeader(p, a + b, kind, h) == ByHeader(p, a, kind, h)
  {
    var (number, header) := h.value;
    if number.Some? && number.value >= 0 {
      var count := Expected(kind, number.value);
      ManyExtends(p, a[header..], b, count);
      assert (a + b)[header..] == a[header..] + b;
      AssembleExtends(a, b, kind, header, number.value, Many(p, a[header..], count));
    }
  }

  lemma {:induction false} AggregateExtends(p: Parser, a: Bytes, b: Bytes, kind: AggregateKind)
    requires StableUpTo(p, |a| - 1) && !ParseAggregate(p, a, kind).Incomplete?
    ensures ParseAggregate(p, a + b, kind) == ParseAggregate(p, a, kind)
  {
    HeaderExtends(a, b);
    FewerBytes(p, |a| - 1, |a| - HeaderOf(a).value.1);
    ByHeaderExtends(p, a, b, kind, HeaderOf(a));
  }

  /** A complete frame or an error stays what it is when more bytes follow. */
  lemma {:induction false} FrameExtends(a: Bytes, b: Bytes, inline: bool)
    requires !ParseFrame(a, inline).Incomplete?
    ensures ParseFrame(a + b, inline) == ParseFrame(a, inline)
    decreases |a|
  {
    assert (a + b)[0] == a[0];
    if IsAggregatePrefix(a[0]) {
      FrameOfAggregate(a, inline);
      FrameOfAggregate(a + b, inline);
      ElementsAreStable(a);
      AggregateExtends(ElementParser, a, b, KindOf(a[0]));
    } else {
      ScalarExtends(a, b, inline);
    }
  }

  lemma {:induction false} ElementsAreStable(a: Bytes)
    ensures StableUpTo(ElementParser, |a| - 1)
    decreases |a|, 0
  {
    forall x: Bytes, y: Bytes | |x| <= |a| - 1 && !ElementParser(x).Incomplete?
      ensures ElementParser(x + y) == ElementParser(x)
    {
      FrameExtends(x, y, false);
    }
  }

  // ----- truncation -----

  lemma {:induction false} FindCrTruncates(a: Bytes, start: nat, end: nat)
    requires FindCr(a, start).Some? && FindCr(a, start).value < end <= |a|
    ensures FindCr(a[..end], start) == FindCr(a, start)
    decreases |a| - start
  {
    if a[start] != CR { FindCrTruncates(a, start + 1, end); }
  }

  lemma {:induction false} FindCrlfTruncates(a: Bytes, start: nat, end: nat)
    requires FindCrlf(a, start).Some? && FindCrlf(a, start).value.1 <= end <= |a|
    ensures FindCrlf(a[..end], start) == FindCrlf(a, start)
  {
    FindCrTruncates(a, start, end);
    var pos := FindCr(a, start).value;
    assert a[..end][start..pos] == a[start..pos];
  }

  lemma {:induction false} LinesTruncate(a: Bytes)
    requires FindCrlf(a, 1).Some?
    ensures var used := FindCrlf(a, 1).value.1;
            && ParseLine(a[..used], v => SimpleString(v)) == ParseLine(a, v => SimpleString(v))
            && ParseLine(a[..used], v => SimpleError(v)) == ParseLine(a, v => SimpleError(v))
            && ParseLine(a[..used], v => BigNumber(v)) == ParseLine(a, v => BigNumber(v))
            && ParseInteger(a[..used]) == ParseInteger(a)
            && ParseDouble(a[..used]) == ParseDouble(a)
  {
    FindCrlfTruncates(a, 1, FindCrlf(a, 1).value.1);
  }

  lemma {:induction false} BlockTruncates(a: Bytes, header: nat, len: nat)
    requires header + len + 2 <= |a|
    ensures var total := header + len + 2;
            && a[..total][total - 2..total] == a[total - 2..total]
            && a[..total][header..total - 2] == a[header..total - 2]
  {
  }

  lemma {:induction false} BulkTruncates(a: Bytes)
    requires ParseBulk(a).Complete?
    ensures ParseBulk(a[..ParseBulk(a).used]) == ParseBulk(a)
  {
    var used := ParseBulk(a).used;
    FindCrlfTruncates(a, 1, used);
    var (line, header) := FindCrlf(a, 1).value;
    var len := ParseI64(line).value;
    if len >= 0 { BlockTruncates(a, header, len); }
  }

  lemma {:induction false} BlobErrorTruncates(a: Bytes)
    requires ParseBlobError(a).Complete?
    ensures ParseBlobError(a[..ParseBlobError(a).used]) == ParseBlobError(a)
  {
    FindCrlfTruncates(a, 1, ParseBlobError(a).used);
    var (line, header) := FindCrlf(a, 1).value;
    BlockTruncates(a, header, ParseUnsigned(line, U64 - 1).value);
  }

  lemma {:induction false} VerbatimTruncates(a: Bytes)
    requires ParseVerbatim(a).Complete?
    ensures ParseVerbatim(a[..ParseVerbatim(a).used]) == ParseVerbatim(a)
  {
    FindCrlfTruncates(a, 1, ParseVerbatim(a).used);
    var (line, header) := FindCrlf(a, 1).value;
    BlockTruncates(a, header, ParseUnsigned(line, U64 - 1).value);
  }

  lemma {:induction false} ScalarTruncates(a: Bytes, inline: bool)
    requires a != [] && !IsAggregatePrefix(a[0]) && ParseScalar(a, inline).Complete?
    ensures var used := ParseScalar(a, inline).used; ParseScalar(a[..used], inline) == ParseScalar(a, inline)
  {
    var prefix := a[0];
    var used := ParseScalar(a, inline).used;
    assert a[..used][0] == prefix;
    if prefix == BULK {
      BulkTruncates(a);
    } else if prefix == BLOB {
      BlobErrorTruncates(a);
    } else if prefix == VERBATIM {
      VerbatimTruncates(a);
    } else if prefix == NULL || prefix == BOOL {
      assert a[..used][..used] == a[..used];
    } else if prefix in {SIMPLE, ERROR, INTEGER, DOUBLE, BIG} {
      LinesTruncate(a);
    } else {
      FindCrlfTruncates(a, 0, used);
    }
  }

  /** A complete answer on at most `n` bytes depends on the consumed bytes alone. */
  ghost predicate ClosedUpTo(p: Parser, n: int) {
    forall x: Bytes {:trigger p(x[..p(x).used])} :: |x| <= n && p(x).Complete? ==> p(x[..p(x).used]) == p(x)
  }

  lemma {:induction false} ManyTruncates(p: Parser, a: Bytes, count: nat)
    requires StableUpTo(p, |a|) && ClosedUpTo(p, |a|) && Many(p, a, count).Parsed?
    ensures Many(p, a[..Many(p, a, count).total], count) == Many(p, a, count)
    decreases count
  {
    if count > 0 {
      var used, total := p(a).used, Many(p, a, count).total;
      assert p(a[..p(a).used]) == p(a);
      assert a[..total] == a[..used] + a[used..total];
      assert p(a[..used] + a[used..total]) == p(a[..used]);
      assert a[..total][used..] == a[used..][..total - used];
      ManyTruncates(p, a[used..], count - 1);
    }
  }

  lemma {:induction false} AssembleTruncates(a: Bytes, kind: AggregateKind, header: nat, len: nat, elements: Run)
    requires header <= |a| && elements.Parsed? && header + elements.total <= |a|
    ensures Assemble(a[..header + elements.total], kind, header, len, elements) == Assemble(a, kind, header, len, elements)
  {
    var used := header + elements.total;
    assert a[..used][header..used] == a[header..used];
  }

  lemma {:induction false} HeaderTruncates(a: Bytes, end: nat)
    requires HeaderOf(a).Some? && HeaderOf(a).value.1 <= end <= |a|
    ensures HeaderOf(a[..end]) == HeaderOf(a)
  {
    FindCrlfTruncates(a, 1, end);
  }

  lemma {:induction false} ByHeaderTruncates(p: Parser, a: Bytes, kind: AggregateKind, h: HeaderLine)
    requires h.Some? && 1 <= h.value.1 <= |a| && ByHeader(p, a, kind, h).Complete?
    requires StableUpTo(p, |a| - h.value.1) && ClosedUpTo(p, |a| - h.value.1)
    ensures h.value.1 <= ByHeader(p, a, kind, h).used
    ensures ByHeader(p, a[..ByHeader(p, a, kind, h).used], kind, h) == ByHeader(p, a, kind, h)
  {
    var header, len := h.value.1, h.value.0.value;
    if len >= 0 {
      var elements := Many(p, a[header..], Expected(kind, len));
      ManyTruncates(p, a[header..], Expected(kind, len));
      assert a[..header + elements.total][header..] == a[header..][..elements.total];
      AssembleTruncates(a, kind, header, len, elements);
    }
  }

  lemma {:induction false} AggregateTruncates(p: Parser, a: Bytes, kind: AggregateKind)
    requires StableUpTo(p, |a| - 1) && ClosedUpTo(p, |a| - 1) && ParseAggregate(p, a, kind).Complete?
    ensures ParseAggregate(p, a[..ParseAggregate(p, a, kind).used], kind) == ParseAggregate(p, a, kind)
  {
    FewerBytes(p, |a| - 1, |a| - HeaderOf(a).value.1);
    ByHeaderTruncates(p, a, kind, HeaderOf(a));
    HeaderTruncates(a, ParseAggregate(p, a, kind).used);
  }

  /** A complete frame depends on the bytes it consumed and on no others. */
  lemma {:induction false} FrameTruncates(a: Bytes, inline: bool)
    requires ParseFrame(a, inline).Complete?
    ensures ParseFrame(a[..ParseFrame(a, inline).used], inline) == ParseFrame(a, inline)
    decreases |a|
  {
    var used := ParseFrame(a, inline).used;
    assert a[..used][0] == a[0];
    if IsAggregatePrefix(a[0]) {
      FrameOfAggregate(a, inline);
      FrameOfAggregate(a[..used], inline);
      ElementsAreStable(a);
      ElementsAreClosed(a);
      AggregateTruncates(ElementParser, a, KindOf(a[0]));
    } else {
      ScalarTruncates(a, inline);
    }
  }

  lemma {:induction false} ElementsAreClosed(a: Bytes)
    ensures ClosedUpTo(ElementParser, |a| - 1)
    decreases |a|, 0
  {
    forall x: Bytes | |x| <= |a| - 1 && ElementParser(x).Complete?
      ensures ElementParser(x[..ElementParser(x).used]) == ElementParser(x)
    {
      FrameTruncates(x, false);
    }
  }

  /** Without a bound: elements are stable and closed. */
  lemma {:induction false} ElementsAreSound(n: nat)
    ensures StableUpTo(ElementParser, n) && ClosedUpTo(ElementParser, n)
  {
    var longer: Bytes := seq(n + 1, _ => 0);
    ElementsAreStable(longer);
    ElementsAreClosed(longer);
  }

  // ----- the loop over the parse buffer -----

  /** A finished answer stays when more bytes follow. */
  ghost predicate Stable(p: Parser) {
    forall a, b :: !p(a).Incomplete? ==> p(a + b) == p(a)
  }

  lemma {:induction false} RespIsStable()
    ensures Stable(RespParser)
  {
    forall a: Bytes, b: Bytes | !RespParser(a).Incomplete? ensures RespParser(a + b) == RespParser(a) {
      FrameExtends(a, b, true);
    }
  }

  /** Frames handed out, what is left of the buffer, and the error that ended the connection. */
  datatype Drained = Drained(frames: seq<Frame>, rest: Bytes, error: Option<Error>)

  /** Parse frame after frame until one is incomplete. */
  function Drain(p: Parser, buffer: Bytes): (d: Drained)
    decreases |buffer|
  {
    match p(buffer)
    case Incomplete(_) => Drained([], buffer, None)
    case Failed(error) => Drained([], [], Some(error))
    case Complete(frame, used) => Prefixed([frame], Drain(p, buffer[used..]))
  }

  function Prefixed(frames: seq<Frame>, d: Drained): Drained {
    d.(frames := frames + d.frames)
  }

  /** One read: append the bytes, then drain, unless an error closed the connection. */
  function Receive(p: Parser, state: Drained, chunk: Bytes): Drained {
    if state.error.Some? then state else Prefixed(state.frames, Drain(p, state.rest + chunk))
  }

  function ReceiveAll(p: Parser, state: Drained, chunks: seq<Bytes>): Drained
    decreases |chunks|
  {
    if chunks == [] then state else ReceiveAll(p, Receive(p, state, chunks[0]), chunks[1..])
  }

  function Joined(chunks: seq<Bytes>): Bytes {
    if chunks == [] then [] else chunks[0] + Joined(chunks[1..])
  }

  const Opened := Drained([], [], None)

  lemma {:induction false} PrefixedTwice(first: seq<Frame>, second: seq<Frame>, d: Drained)
    ensures Prefixed(first, Prefixed(second, d)) == Prefixed(first + second, d)
    ensures Prefixed([], d) == d
  {
    Assoc(first, second, d.frames);
  }

  /** Draining in two goes is draining in one. */
  lemma {:induction false} DrainConcat(p: Parser, a: Bytes, b: Bytes)
    requires Stable(p)
    ensures Drain(p, a + b) == Receive(p, Drain(p, a), b)
    decreases |a|
  {
    match p(a)
    case Incomplete(_) => PrefixedTwice([], [], Drain(p, a + b));
    case Failed(_) =>
    case Complete(frame, used) =>
      assert p(a + b) == p(a);
      assert (a + b)[used..] == a[used..] + b;
      DrainConcat(p, a[used..], b);
      var rest := Drain(p, a[used..]);
      PrefixedTwice([frame], rest.frames, Drain(p, rest.rest + b));
  }

  lemma {:induction false} ReceiveAllFrom(p: Parser, a: Bytes, chunks: seq<Bytes>)
    requires Stable(p)
    ensures ReceiveAll(p, Drain(p, a), chunks) == Drain(p, a + Joined(chunks))
    decreases |chunks|
  {
    if chunks == [] {
      assert a + [] == a;
    } else {
      DrainConcat(p, a, chunks[0]);
      ReceiveAllFrom(p, a + chunks[0], chunks[1..]);
      Assoc(a, chunks[0], Joined(chunks[1..]));
    }
  }

  /** However the bytes are split, the connection hands out the frames of the whole stream. */
  lemma {:induction false} ChunkingDoesNotMatter(chunks: seq<Bytes>)
    ensures ReceiveAll(RespParser, Opened, chunks) == Drain(RespParser, Joined(chunks))
  {
    RespIsStable();
    assert Drain(RespParser, []) == Opened;
    assert [] + Joined(chunks) == Joined(chunks);
    ReceiveAllFrom(RespParser, [], chunks);
  }

  /** Two ways of splitting one stream end in the same state. */
  lemma {:induction false} AnyTwoSplitsAgree(first: seq<Bytes>, second: seq<Bytes>)
    requires Joined(first) == Joined(second)
    ensures ReceiveAll(RespParser, Opened, first) == ReceiveAll(RespParser, Opened, second)
  {
    ChunkingDoesNotMatter(first);
    ChunkingDoesNotMatter(second);
  }

  lemma {:induction false} DrainStep(p: Parser, frames: seq<Frame>, buffer: Bytes, offset: nat)
    requires offset <= |buffer|
    ensures Prefixed(frames, Drain(p, buffer[offset..])) ==
            match p(buffer[offset..])
            case Complete(frame, used) => Prefixed(frames + [frame], Drain(p, buffer[offset + used..]))
            case Incomplete(_) => Drained(frames, buffer[offset..], None)
            case Failed(error) => Drained(frames, [], Some(error))
  {
    match p(buffer[offset..])
    case Complete(frame, used) =>
      assert buffer[offset..][used..] == buffer[offset + used..];
      PrefixedTwice(frames, [frame], Drain(p, buffer[offset + used..]));
    case Incomplete(_) =>
    case Failed(_) =>
  }

  /** Frame `k` is what the parser finds at cut `k`, and it ends at the next cut. */
  ghost predicate CutAt(p: Parser, buffer: Bytes, cuts: seq<nat>, frames: seq<Frame>, k: nat)
    requires |cuts| == |frames| + 1 && k < |frames|
  {
    cuts[k] < cuts[k + 1] <= |buffer| && p(buffer[cuts[k]..]) == Complete(frames[k], cuts[k + 1] - cuts[k])
  }

  /** The buffer is cut into frames from its start; what is left at the end is no complete frame. */
  ghost predicate CutInto(p: Parser, buffer: Bytes, cuts: seq<nat>, d: Drained) {
    && |cuts| == |d.frames| + 1 && cuts[0] == 0
    && (forall k: nat | k < |d.frames| :: CutAt(p, buffer, cuts, d.frames, k))
    && cuts[|d.frames|] <= |buffer|
    && match p(buffer[cuts[|d.frames|]..])
       case Complete(_, _) => false
       case Incomplete(_) => d.rest == buffer[cuts[|d.frames|]..] && d.error == None
       case Failed(error) => d.rest == [] && d.error == Some(error)
  }

  lemma {:induction false} DrainedByCuts(p: Parser, buffer: Bytes) returns (cuts: seq<nat>)
    ensures CutInto(p, buffer, cuts, Drain(p, buffer))
    decreases |buffer|
  {
    cuts := [0];
    assert buffer[0..] == buffer;
    if p(buffer).Complete? {
      var used := p(buffer).used;
      var later := DrainedByCuts(p, buffer[used..]);
      cuts := [0] + seq(|later|, i requires 0 <= i < |later| => used + later[i]);
      CutsMove(p, buffer, used, later, cuts);
    }
  }

  lemma {:induction false} CutsMove(p: Parser, buffer: Bytes, used: nat, later: seq<nat>, cuts: seq<nat>)
    requires p(buffer).Complete? && p(buffer).used == used && CutInto(p, buffer[used..], later, Drain(p, buffer[used..]))
    requires |cuts| == |later| + 1 && cuts[0] == 0 && forall i | 0 <= i < |later| :: cuts[i + 1] == used + later[i]
    ensures CutInto(p, buffer, cuts, Drain(p, buffer))
  {
    var d, d' := Drain(p, buffer), Drain(p, buffer[used..]);
    assert d == Prefixed([p(buffer).frame], d');
    forall i | 0 <= i < |later| && later[i] <= |buffer[used..]| ensures buffer[cuts[i + 1]..] == buffer[used..][later[i]..] {
    }
    forall k: nat | k < |d.frames| ensures CutAt(p, buffer, cuts, d.frames, k) {
      if k == 0 {
        assert buffer[0..] == buffer && cuts[1] == used + later[0];
      } else {
        assert CutAt(p, buffer[used..], later, d'.frames, k - 1);
        assert cuts[k] == used + later[k - 1] && cuts[k + 1] == used + later[k];
      }
    }
    assert cuts[|d.frames|] == used + later[|d'.frames|];
  }

  lemma {:induction false} ReceivedByCuts(p: Parser, before: Drained, chunk: Bytes) returns (cuts: seq<nat>)
    requires before.error == None
    ensures var after := Receive(p, before, chunk);
            && before.frames <= after.frames
            && CutInto(p, before.rest + chunk, cuts, Drained(after.frames[|before.frames|..], after.rest, after.error))
  {
    cuts := DrainedByCuts(p, before.rest + chunk);
    var d := Drain(p, before.rest + chunk);
    assert (before.frames + d.frames)[|before.frames|..] == d.frames;
  }

  /** The connection's parse state, updated by each read. */
  class Connection {
    const parser: Parser
    var parseBuffer: Bytes
    var frames: seq<Frame>
    var closed: Option<Error>

    ghost function View(): Drained
      reads this
    {
      Drained(frames, parseBuffer, closed)
    }

    constructor (p: Parser)
      ensures parser == p && View() == Opened
    {
      parser, parseBuffer, frames, closed := p, [], [], None;
    }

    /** Append what was read and hand out the frames that are complete now. */
    method Read(chunk: Bytes) returns (ghost cuts: seq<nat>)
      modifies this
      ensures View() == Receive(parser, old(View()), chunk)
      ensures old(closed).Some? ==> frames == old(frames) && parseBuffer == old(parseBuffer) && closed == old(closed)
      ensures old(closed).None? ==>
                && old(frames) <= frames
                && CutInto(parser, old(parseBuffer) + chunk, cuts, Drained(frames[|old(frames)|..], parseBuffer, closed))
    {
      cuts := [];
      if closed.Some? {
        return;
      }
      cuts := ReceivedByCuts(parser, View(), chunk);
      parseBuffer := parseBuffer + chunk;
      HandOut();
    }

    /** Advance `offset` over complete frames, then cut the consumed bytes off the buffer. */
    method HandOut()
      requires closed == None
      modifies this
      ensures View() == Prefixed(old(frames), Drain(parser, old(parseBuffer)))
    {
      var buffer := parseBuffer;
      var offset := 0;
      assert buffer[0..] == buffer;
      while true
        invariant 0 <= offset <= |buffer| && closed == None
        invariant Prefixed(old(frames), Drain(parser, buffer)) == Prefixed(frames, Drain(parser, buffer[offset..]))
        decreases |buffer| - offset
      {
        DrainStep(parser, frames, buffer, offset);
        match parser(buffer[offset..]) {
          case Complete(frame, used) =>
            frames := frames + [frame];
            offset := offset + used;
          case Incomplete(_) =>
            break;
          case Failed(error) =>
            closed, parseBuffer := Some(error), [];
            return;
        }
      }
      parseBuffer := buffer[offset..];
    }
  }
}
