/**
 Nested values against the flat frames of the wire format: what a tree encodes to parses
 back to a frame whose iteration (`FrameIter` of senko-proto/src/frame.rs) yields the
 children.  The loops of the parser are here too, against the recursive definitions.
 */
module RespTree {
  import opened Common
  import opened Decimal
  import opened Resp
  import opened RespChunks
  import opened RespCodec

  // ----- the parser's loops -----

  /** With `left` elements to go from `consumed` on, the whole run comes to `goal`. */
  ghost predicate Remaining(p: Parser, input: Bytes, header: nat, consumed: nat, left: nat, goal: Run) {
    header <= consumed <= |input| && goal == After(consumed - header, Many(p, input[consumed..], left))
  }

  lemma {:induction false} ElementStep(p: Parser, input: Bytes, header: nat, consumed: nat, left: nat, goal: Run)
    requires left > 0 && Remaining(p, input, header, consumed, left, goal)
    ensures match p(input[consumed..])
            case Complete(_, used) => Remaining(p, input, header, consumed + used, left - 1, goal)
            case Incomplete(needed) => goal == Short(consumed + needed - header)
            case Failed(error) => goal == Bad(error)
  {
    var s := p(input[consumed..]);
    if s.Complete? {
      assert input[consumed..][s.used..] == input[consumed + s.used..];
    }
  }

  lemma {:induction false} FirstElement(p: Parser, input: Bytes, header: nat, expected: nat)
    requires header <= |input|
    ensures Remaining(p, input, header, header, expected, Many(p, input[header..], expected))
  {
  }

  lemma {:induction false} LastElement(p: Parser, input: Bytes, header: nat, consumed: nat, goal: Run)
    requires Remaining(p, input, header, consumed, 0, goal)
    ensures goal == Parsed(consumed - header)
  {
  }

  /** The element loop of `parse_aggregate`, advancing `consumed`. */
  method ParseElements(p: Parser, input: Bytes, header: nat, expected: nat) returns (result: Run)
    requires header <= |input|
    ensures result == Many(p, input[header..], expected)
  {
    var consumed: nat, parsed: nat := header, 0;
    ghost var goal := Many(p, input[header..], expected);
    FirstElement(p, input, header, expected);
    while parsed < expected
      invariant 0 <= parsed <= expected
      invariant Remaining(p, input, header, consumed, expected - parsed, goal)
      decreases expected - parsed
    {
      ElementStep(p, input, header, consumed, expected - parsed, goal);
      var status := p(input[consumed..]);
      match status {
        case Complete(_, used) =>
          consumed, parsed := consumed + used, parsed + 1;
        case Incomplete(needed) =>
          return Short(consumed + needed - header);
        case Failed(error) =>
          return Bad(error);
      }
    }
    LastElement(p, input, header, consumed, goal);
    return Parsed(consumed - header);
  }

  /** `parse_aggregate` as a whole. */
  method ParseAggregateLoop(p: Parser, input: Bytes, kind: AggregateKind) returns (s: Status)
    ensures s == ParseAggregate(p, input, kind)
  {
    var found := FindCrlf(input, 1);
    if found.None? {
      return Incomplete(|input| + 2);
    }
    var (line, header) := found.value;
    var len := ParseI64(line);
    if len.None? {
      return Failed(InvalidNumber);
    }
    if len.value < 0 {
      return Complete(Null, header);
    }
    var elements := ParseElements(p, input, header, Expected(kind, len.value));
    return Assemble(input, kind, header, len.value, elements);
  }

  method TrimAsciiWhitespace(input: Bytes) returns (trimmed: Bytes)
    ensures trimmed == Trim(input)
  {
    trimmed := input;
    while trimmed != [] && IsBlank(trimmed[0])
      invariant TrimLeft(trimmed) == TrimLeft(input)
      decreases |trimmed|
    {
      trimmed := trimmed[1..];
    }
    while trimmed != [] && IsBlank(trimmed[|trimmed| - 1])
      invariant TrimRight(trimmed) == Trim(input)
      decreases |trimmed|
    {
      trimmed := trimmed[..|trimmed| - 1];
    }
  }

  /** The words that still start in `s`, when it may begin in the middle of one. */
  ghost function WordsToCome(s: Bytes, inToken: bool): nat {
    if inToken then |Words(s[WordEnd(s)..])| else |Words(s)|
  }

  lemma {:induction false} BlankPassed(s: Bytes, inToken: bool)
    requires s != [] && IsBlank(s[0])
    ensures WordsToCome(s, inToken) == WordsToCome(s[1..], false)
  {
    assert s[0..] == s;
    assert TrimLeft(s) == TrimLeft(s[1..]);
  }

  lemma {:induction false} LetterPassed(s: Bytes, inToken: bool)
    requires s != [] && !IsBlank(s[0])
    ensures WordsToCome(s, inToken) == WordsToCome(s[1..], true) + if inToken then 0 else 1
  {
    assert s[WordEnd(s)..] == s[1..][WordEnd(s[1..])..];
    assert TrimLeft(s) == s;
  }

  lemma {:induction false} NoneToCome(inToken: bool)
    ensures WordsToCome([], inToken) == 0
  {
  }

  /** `count_inline_args`: a word starts wherever a non-blank follows a blank. */
  method CountInlineArgs(input: Bytes) returns (count: nat)
    ensures count == |Words(input)|
  {
    count := 0;
    var inToken := false;
    assert input[0..] == input;
    for i := 0 to |input|
      invariant |Words(input)| == count + WordsToCome(input[i..], inToken)
    {
      assert input[i..][1..] == input[i + 1..];
      if IsBlank(input[i]) {
        BlankPassed(input[i..], inToken);
        inToken := false;
      } else {
        LetterPassed(input[i..], inToken);
        if !inToken {
          inToken := true;
          count := count + 1;
        }
      }
    }
    assert input[|input|..] == [];
    NoneToCome(inToken);
  }

  // ----- iterating an aggregate -----

  /** The frames of `count` elements in a row. */
  ghost function FramesWith(p: Parser, data: Bytes, count: nat): (r: seq<Frame>)
    requires Many(p, data, count).Parsed?
    ensures |r| == count
    decreases count
  {
    if count == 0 then []
    else [p(data).frame] + FramesWith(p, data[p(data).used..], count - 1)
  }

  datatype Item = Ok(frame: Frame) | EndedMidFrame | Err(error: Error)

  /** Inline commands are an addition: what `element` completes, `top` completes alike. */
  ghost predicate Widens(top: Parser, element: Parser) {
    forall x :: element(x).Complete? ==> top(x) == element(x)
  }

  lemma {:induction false} TopLevelWidens()
    ensures Widens(RespParser, ElementParser)
  {
    forall x: Bytes | ElementParser(x).Complete? ensures RespParser(x) == ElementParser(x) {
      if IsAggregatePrefix(x[0]) {
        FrameOfAggregate(x, true);
        FrameOfAggregate(x, false);
      }
    }
  }

  /** One step of an iterator: what it yields and where it stands afterwards. */
  datatype Yield = Yield(item: Option<Item>, consumed: nat, emitted: nat)

  function NextYield(a: Aggregate, p: Parser, consumed: nat, emitted: nat): (y: Yield)
    requires consumed <= |a.data|
    ensures y.consumed <= |a.data|
  {
    var rest := a.data[consumed..];
    if emitted == a.len then Yield(None, consumed, emitted)
    else if a.encoding.RespEncoding? then
      match p(rest)
      case Complete(frame, used) => Yield(Some(Ok(frame)), consumed + used, emitted + 1)
      case Incomplete(_) => Yield(Some(EndedMidFrame), consumed, emitted)
      case Failed(error) => Yield(Some(Err(error)), consumed, emitted)
    else
      var left := TrimLeft(rest[WordEnd(rest)..]);
      TrimLeftShrinks(rest[WordEnd(rest)..]);
      Yield(Some(Ok(BulkString(rest[..WordEnd(rest)]))), |a.data| - |left|, emitted + 1)
  }

  method SkipBlanks(data: Bytes, start: nat) returns (end: nat)
    requires start <= |data|
    ensures start <= end <= |data| && data[end..] == TrimLeft(data[start..])
  {
    end := start;
    while end < |data| && IsBlank(data[end])
      invariant start <= end <= |data|
      invariant TrimLeft(data[end..]) == TrimLeft(data[start..])
    {
      assert data[end..][1..] == data[end + 1..];
      end := end + 1;
    }
  }

  /** The word at `start` and the index of the next one. */
  method TakeToken(data: Bytes, start: nat) returns (token: Bytes, end: nat)
    requires start <= |data|
    ensures var rest := data[start..];
            token == rest[..WordEnd(rest)] && end <= |data| && data[end..] == TrimLeft(rest[WordEnd(rest)..])
  {
    var rest := data[start..];
    var next := WordEnd(rest);
    token := rest[..next];
    assert data[start + next..] == rest[next..];
    end := SkipBlanks(data, start + next);
  }

  class FrameIter {
    const aggregate: Aggregate
    const parser: Parser
    var consumed: nat
    var emitted: nat

    ghost predicate Valid()
      reads this
    {
      consumed <= |aggregate.data|
    }

    constructor (a: Aggregate, p: Parser)
      ensures aggregate == a && parser == p && consumed == 0 && emitted == 0 && Valid()
    {
      aggregate, parser, consumed, emitted := a, p, 0, 0;
    }

    method Next() returns (item: Option<Item>)
      requires Valid()
      modifies this
      ensures Valid()
      ensures Yield(item, consumed, emitted) == NextYield(aggregate, parser, old(consumed), old(emitted))
      ensures old(emitted) == aggregate.len ==> item == None && consumed == old(consumed) && emitted == old(emitted)
      ensures old(emitted) != aggregate.len && aggregate.encoding.RespEncoding? ==>
                match parser(aggregate.data[old(consumed)..])
                case Complete(frame, used) =>
                  item == Some(Ok(frame)) && consumed == old(consumed) + used && emitted == old(emitted) + 1
                case Incomplete(_) => item == Some(EndedMidFrame) && consumed == old(consumed) && emitted == old(emitted)
                case Failed(error) => item == Some(Err(error)) && consumed == old(consumed) && emitted == old(emitted)
    {
      if emitted == aggregate.len {
        return None;
      }
      var data := aggregate.data;
      if aggregate.encoding.RespEncoding? {
        match parser(data[consumed..]) {
          case Complete(frame, used) =>
            consumed := consumed + used;
            emitted := emitted + 1;
            return Some(Ok(frame));
          case Incomplete(_) =>
            return Some(EndedMidFrame);
          case Failed(error) =>
            return Some(Err(error));
        }
      }
      ghost var _, _ := YieldsWord(aggregate, parser, consumed, emitted);
      var token;
      token, consumed := TakeToken(data, consumed);
      emitted := emitted + 1;
      return Some(Ok(BulkString(token)));
    }
  }

  lemma {:induction false} IterStep(p: Parser, data: Bytes, at: nat, left: nat)
    requires at <= |data| && left > 0 && Many(p, data[at..], left) == Parsed(|data| - at)
    ensures var first := p(data[at..]);
            && first.Complete?
            && Many(p, data[at + first.used..], left - 1) == Parsed(|data| - at - first.used)
            && FramesWith(p, data[at..], left) == [first.frame] + FramesWith(p, data[at + first.used..], left - 1)
  {
    var first := p(data[at..]);
    assert data[at..][first.used..] == data[at + first.used..];
  }

  /** `emitted` frames are out, and the rest of the elements fill the data from `consumed` on. */
  ghost predicate Emitted(p: Parser, data: Bytes, total: nat, consumed: nat, emitted: nat, frames: seq<Frame>) {
    && consumed <= |data| && emitted <= total
    && Many(p, data, total).Parsed?
    && Many(p, data[consumed..], total - emitted) == Parsed(|data| - consumed)
    && FramesWith(p, data, total) == frames + FramesWith(p, data[consumed..], total - emitted)
  }

  lemma {:induction false} EmitOne(a: Aggregate, top: Parser, p: Parser, total: nat, consumed: nat, emitted: nat, frames: seq<Frame>)
    requires a.encoding.RespEncoding? && Widens(top, p)
    requires Emitted(p, a.data, total, consumed, emitted, frames) && emitted < a.len <= total
    ensures var y := NextYield(a, top, consumed, emitted);
            && y.item.Some? && y.item.value.Ok? && y.emitted == emitted + 1
            && Emitted(p, a.data, total, y.consumed, y.emitted, frames + [y.item.value.frame])
  {
    EmittedOn(p, a.data, total, consumed, emitted, frames);
    assert top(a.data[consumed..]) == p(a.data[consumed..]);
  }

  lemma {:induction false} EmittedOn(p: Parser, data: Bytes, total: nat, consumed: nat, emitted: nat, frames: seq<Frame>)
    requires Emitted(p, data, total, consumed, emitted, frames) && emitted < total
    ensures var first := p(data[consumed..]);
            first.Complete? && Emitted(p, data, total, consumed + first.used, emitted + 1, frames + [first.frame])
  {
    IterStep(p, data, consumed, total - emitted);
    var first := p(data[consumed..]);
    EmittedNext(p, data, total, consumed, emitted, frames, first.frame, first.used);
  }

  lemma {:induction false} EmittedNext(p: Parser, data: Bytes, total: nat, consumed: nat, emitted: nat, frames: seq<Frame>, frame: Frame, used: nat)
    requires emitted < total && consumed + used <= |data| && Many(p, data, total).Parsed?
    requires Many(p, data[consumed + used..], total - emitted - 1) == Parsed(|data| - consumed - used)
    requires FramesWith(p, data, total) == frames + ([frame] + FramesWith(p, data[consumed + used..], total - emitted - 1))
    ensures Emitted(p, data, total, consumed + used, emitted + 1, frames + [frame])
  {
    Assoc(frames, [frame], FramesWith(p, data[consumed + used..], total - emitted - 1));
  }

  lemma {:induction false} EmitStops(p: Parser, data: Bytes, total: nat, consumed: nat, emitted: nat, frames: seq<Frame>)
    requires Emitted(p, data, total, consumed, emitted, frames)
    ensures consumed == |data| <==> emitted == total
  {
    if emitted < total {
      IterStep(p, data, consumed, total - emitted);
    }
  }

  /** Iterating elements yields the first `len` of them without an error. */
  method Iterate(a: Aggregate, top: Parser, ghost element: Parser, ghost total: nat)
    returns (frames: seq<Frame>, consumed: nat)
    requires a.encoding.RespEncoding? && Widens(top, element)
    requires a.len <= total && Many(element, a.data, total) == Parsed(|a.data|)
    ensures |frames| == a.len && frames <= FramesWith(element, a.data, total)
    ensures consumed == |a.data| <==> a.len == total
  {
    var iter := new FrameIter(a, top);
    frames := [];
    assert a.data[0..] == a.data;
    while iter.emitted < a.len
      invariant fresh(iter) && iter.Valid() && iter.aggregate == a && iter.parser == top
      invariant iter.emitted == |frames| <= a.len
      invariant Emitted(element, a.data, total, iter.consumed, iter.emitted, frames)
      decreases a.len - iter.emitted
    {
      EmitOne(a, top, element, total, iter.consumed, iter.emitted, frames);
      var item := iter.Next();
      frames := frames + [item.value.frame];
    }
    consumed := iter.consumed;
    EmitStops(element, a.data, total, consumed, iter.emitted, frames);
  }

  /** A map of one null to another: the iterator hands out the key, and then nothing. */
  lemma {:induction false} MapIsHalfRead()
    ensures var a := Aggregate(MapKind, 1, [NULL, CR, LF, NULL, CR, LF], RespEncoding);
            && Parse(Serialize(Map(a))) == Complete(Map(a), |Serialize(Map(a))|)
            && NextYield(a, RespParser, 0, 0) == Yield(Some(Ok(Null)), 3, 1)
            && NextYield(a, RespParser, 3, 1) == Yield(None, 3, 1)
  {
    var data: Bytes := [NULL, CR, LF, NULL, CR, LF];
    var a := Aggregate(MapKind, 1, data, RespEncoding);
    NullsParse(data);
    FirstYield(a, RespParser);
    assert Holds(a);
    RoundTrip(Map(a), [], true);
    assert Serialize(Map(a)) + [] == Serialize(Map(a));
  }

  lemma {:induction false} FirstYield(a: Aggregate, p: Parser)
    requires a.len == 1 && a.encoding.RespEncoding? && |a.data| == 6 && p(a.data) == Complete(Null, 3)
    ensures NextYield(a, p, 0, 0) == Yield(Some(Ok(Null)), 3, 1) && NextYield(a, p, 3, 1) == Yield(None, 3, 1)
  {
    assert a.data[0..] == a.data;
  }

  lemma {:induction false} NullsParse(data: Bytes)
    requires data == [NULL, CR, LF, NULL, CR, LF]
    ensures ParseFrame(data, true) == Complete(Null, 3) && Many(ElementParser, data, 2) == Parsed(6)
  {
    var rest := data[3..];
    assert data[..3] == [NULL, CR, LF] && rest[..3] == [NULL, CR, LF];
    assert ElementParser(data) == Complete(Null, 3) && ElementParser(rest) == Complete(Null, 3);
    assert Many(ElementParser, rest, 1) == After(3, Many(ElementParser, rest[3..], 0));
  }

  /**
   Iterating what the parser returned: an array, set or push yields exactly its `len` frames
   and uses up its data; a map yields only the first half and does so only when empty.
   */
  method IterateParsed(a: Aggregate) returns (frames: seq<Frame>, consumed: nat)
    requires a.encoding.RespEncoding? && Holds(a)
    ensures Many(ElementParser, a.data, Expected(a.kind, a.len)).Parsed?
    ensures |frames| == a.len
    ensures frames <= FramesWith(ElementParser, a.data, Expected(a.kind, a.len))
    ensures consumed == |a.data| <==> !a.kind.MapKind? || a.len == 0
  {
    TopLevelWidens();
    frames, consumed := Iterate(a, RespParser, ElementParser, Expected(a.kind, a.len));
  }

  /** `words` are out, and the words of `rest` are the others. */
  ghost predicate WordsLeft(all: seq<Bytes>, words: seq<Bytes>, rest: Bytes) {
    all == words + Words(rest) && TrimLeft(rest) == rest
  }

  ghost predicate WordsEmitted(all: seq<Bytes>, data: Bytes, consumed: nat, words: seq<Bytes>) {
    consumed <= |data| && WordsLeft(all, words, data[consumed..])
  }

  lemma {:induction false} TakeWord(all: seq<Bytes>, words: seq<Bytes>, rest: Bytes)
    requires WordsLeft(all, words, rest) && |words| < |all|
    ensures WordsLeft(all, words + [rest[..WordEnd(rest)]], TrimLeft(rest[WordEnd(rest)..]))
  {
    NextWord(rest);
    Assoc(words, [rest[..WordEnd(rest)]], Words(TrimLeft(rest[WordEnd(rest)..])));
  }

  lemma {:induction false} SuffixBySize(data: Bytes, consumed: nat, skip: nat, left: Bytes)
    requires consumed + skip <= |data| && |left| <= |data| - consumed - skip
    requires var after := data[consumed..][skip..]; left == after[|after| - |left|..]
    ensures data[|data| - |left|..] == left
  {
  }

  lemma {:induction false} RestAfterWord(data: Bytes, consumed: nat) returns (token: Bytes, left: Bytes)
    requires consumed <= |data|
    ensures var rest := data[consumed..];
            token == rest[..WordEnd(rest)] && left == TrimLeft(rest[WordEnd(rest)..])
    ensures |left| <= |data| && data[|data| - |left|..] == left
  {
    var rest := data[consumed..];
    token, left := rest[..WordEnd(rest)], TrimLeft(rest[WordEnd(rest)..]);
    TrimLeftShrinks(rest[WordEnd(rest)..]);
    SuffixBySize(data, consumed, WordEnd(rest), left);
  }

  lemma {:induction false} YieldsWord(a: Aggregate, p: Parser, consumed: nat, emitted: nat) returns (token: Bytes, left: Bytes)
    requires a.encoding.InlineEncoding? && consumed <= |a.data| && emitted != a.len
    ensures var rest := a.data[consumed..];
            token == rest[..WordEnd(rest)] && left == TrimLeft(rest[WordEnd(rest)..])
    ensures |left| <= |a.data| && a.data[|a.data| - |left|..] == left
    ensures NextYield(a, p, consumed, emitted) == Yield(Some(Ok(BulkString(token))), |a.data| - |left|, emitted + 1)
  {
    token, left := RestAfterWord(a.data, consumed);
  }

  lemma {:induction false} WordsBefore(all: seq<Bytes>, data: Bytes, consumed: nat, words: seq<Bytes>, left: Bytes)
    requires consumed <= |data| && data[consumed..] == left && WordsLeft(all, words, left)
    ensures WordsEmitted(all, data, consumed, words)
  {
  }

  lemma {:induction false} WordsRunOut(all: seq<Bytes>, data: Bytes, consumed: nat, words: seq<Bytes>)
    requires WordsEmitted(all, data, consumed, words) && |words| == |all|
    ensures words == all && consumed == |data|
  {
    assert Words(data[consumed..]) == [];
  }

  /** Iterating an inline command yields its words, as many as were counted, and uses up its data. */
  method IterateInline(a: Aggregate, p: Parser) returns (words: seq<Bytes>, consumed: nat)
    requires a.encoding.InlineEncoding? && TrimLeft(a.data) == a.data && a.len == |Words(a.data)|
    ensures words == Words(a.data)
    ensures consumed == |a.data|
  {
    var iter := new FrameIter(a, p);
    ghost var all := Words(a.data);
    words := [];
    assert a.data[0..] == a.data;
    while iter.emitted < a.len
      invariant fresh(iter) && iter.Valid() && iter.aggregate == a && iter.parser == p
      invariant iter.emitted == |words| <= a.len
      invariant WordsEmitted(all, a.data, iter.consumed, words)
      decreases a.len - iter.emitted
    {
      ghost var token, left := YieldsWord(a, p, iter.consumed, iter.emitted);
      TakeWord(all, words, a.data[iter.consumed..]);
      WordsBefore(all, a.data, |a.data| - |left|, words + [token], left);
      var item := iter.Next();
      words := words + [item.value.frame.value];
    }
    consumed := iter.consumed;
    WordsRunOut(all, a.data, consumed, words);
  }

  lemma {:induction false} NextWord(s: Bytes)
    requires TrimLeft(s) == s && Words(s) != []
    ensures var after := s[WordEnd(s)..];
            && Words(s) == [s[..WordEnd(s)]] + Words(TrimLeft(after))
            && TrimLeft(TrimLeft(after)) == TrimLeft(after)
  {
    var after := s[WordEnd(s)..];
    TrimLeftShrinks(s);
    TrimLeftShrinks(after);
    assert TrimLeft(TrimLeft(after)) == TrimLeft(after);
  }

  // ----- nested values -----

  datatype Value = Scalar(frame: Frame) | Node(kind: AggregateKind, children: seq<Value>)

  function LenOf(kind: AggregateKind, children: seq<Value>): nat {
    if kind.MapKind? then |children| / 2 else |children|
  }

  predicate ValidValue(v: Value) {
    match v
    case Scalar(f) => WellFormed(f) && !f.Array? && !f.Map? && !f.Set? && !f.Push?
    case Node(kind, children) =>
      && |children| < I64 && (kind.MapKind? ==> |children| % 2 == 0)
      && forall c | c in children :: ValidValue(c)
  }

  function Encode(v: Value): Bytes
    requires ValidValue(v)
    decreases v, 0
  {
    match v
    case Scalar(f) => Serialize(f)
    case Node(kind, children) => Header(PrefixOf(kind), LenOf(kind, children)) + EncodeAll(children)
  }

  function EncodeAll(vs: seq<Value>): Bytes
    requires forall c | c in vs :: ValidValue(c)
    decreases vs, 0
  {
    if vs == [] then [] else Encode(vs[0]) + EncodeAll(vs[1..])
  }

  /** The flat frame a value stands for on the wire. */
  function ToFrame(v: Value): Frame
    requires ValidValue(v)
  {
    match v
    case Scalar(f) => f
    case Node(kind, children) =>
      AggregateFrame(Aggregate(kind, LenOf(kind, children), EncodeAll(children), RespEncoding))
  }

  function ToFrames(vs: seq<Value>): seq<Frame>
    requires forall c | c in vs :: ValidValue(c)
  {
    if vs == [] then [] else [ToFrame(vs[0])] + ToFrames(vs[1..])
  }

  lemma {:induction false} AggregateIsSerialized(a: Aggregate)
    requires a.encoding.RespEncoding?
    ensures var f := AggregateFrame(a); !f.Double? && !IsInline(f) && Serialize(f) == SerializeAggregate(a)
  {
  }

  lemma {:induction false} EncodeIsSerialize(v: Value)
    requires ValidValue(v)
    ensures !ToFrame(v).Double? && !IsInline(ToFrame(v)) && Encode(v) == Serialize(ToFrame(v))
  {
    if v.Node? {
      AggregateIsSerialized(Aggregate(v.kind, LenOf(v.kind, v.children), EncodeAll(v.children), RespEncoding));
    }
  }

  lemma {:induction false} ValueWellFormed(v: Value)
    requires ValidValue(v)
    ensures WellFormed(ToFrame(v))
    decreases v, 0
  {
    if v.Node? {
      ChildrenParse(v.children);
      var a := Aggregate(v.kind, LenOf(v.kind, v.children), EncodeAll(v.children), RespEncoding);
      assert Expected(a.kind, a.len) == |v.children|;
      HoldsIsWellFormed(a);
    }
  }

  /** Encoded children parse, one frame each, to the frames of the children. */
  lemma {:induction false} ChildrenParse(vs: seq<Value>)
    requires forall c | c in vs :: ValidValue(c)
    ensures Many(ElementParser, EncodeAll(vs), |vs|) == Parsed(|EncodeAll(vs)|)
    ensures FramesWith(ElementParser, EncodeAll(vs), |vs|) == ToFrames(vs)
    decreases vs, 1
  {
    if vs != [] {
      ValueWellFormed(vs[0]);
      ChildrenParse(vs[1..]);
      FirstChildParses(vs[0], EncodeAll(vs[1..]));
      OneMore(ElementParser, Encode(vs[0]), EncodeAll(vs[1..]), ToFrame(vs[0]), |vs|);
    }
  }

  lemma {:induction false} FirstChildParses(v: Value, tail: Bytes)
    requires ValidValue(v) && WellFormed(ToFrame(v))
    ensures ElementParser(Encode(v) + tail) == Complete(ToFrame(v), |Encode(v)|)
  {
    EncodeIsSerialize(v);
    RoundTrip(ToFrame(v), tail, false);
  }

  lemma {:induction false} OneMore(p: Parser, head: Bytes, tail: Bytes, frame: Frame, count: nat)
    requires count > 0 && p(head + tail) == Complete(frame, |head|)
    requires Many(p, tail, count - 1) == Parsed(|tail|)
    ensures Many(p, head + tail, count) == Parsed(|head + tail|)
    ensures FramesWith(p, head + tail, count) == [frame] + FramesWith(p, tail, count - 1)
  {
    assert (head + tail)[|head|..] == tail;
  }

  /** A tree of any depth parses back to its frame, whatever bytes follow. */
  lemma {:induction false} TreeRoundTrip(v: Value, rest: Bytes)
    requires ValidValue(v)
    ensures Parse(Encode(v) + rest) == Complete(ToFrame(v), |Encode(v)|)
  {
    ValueWellFormed(v);
    EncodeIsSerialize(v);
    RoundTrip(ToFrame(v), rest, true);
  }

  /** Iterating the frame of an array, set or push gives back the frames of its children. */
  method IterateTree(v: Value) returns (frames: seq<Frame>)
    requires ValidValue(v) && v.Node? && !v.kind.MapKind?
    ensures frames == ToFrames(v.children)
  {
    ChildrenParse(v.children);
    TopLevelWidens();
    var a := Aggregate(v.kind, |v.children|, EncodeAll(v.children), RespEncoding);
    var consumed;
    frames, consumed := Iterate(a, RespParser, ElementParser, |v.children|);
  }
}
