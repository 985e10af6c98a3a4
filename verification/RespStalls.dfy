/**
 Inputs that never become a frame.  `find_crlf` (senko-proto/src/parser.rs) looks at the first
 carriage return only; if another byte than a line feed follows it, the line is incomplete
 whatever arrives afterwards.  Everything else that is incomplete can be finished.
 */
module RespStalls {
  import opened Common
  import opened Decimal
  import opened Resp
  import opened RespChunks

  // ----- lines -----

  /** The first carriage return from `start` on is followed by something else than a line feed. */
  predicate BareCr(a: Bytes, start: nat) {
    var cr := FindCr(a, start);
    cr.Some? && cr.value + 1 < |a| && a[cr.value + 1] != LF
  }

  lemma {:induction false} BareCrStays(a: Bytes, b: Bytes, start: nat)
    requires BareCr(a, start)
    ensures FindCrlf(a + b, start) == None
  {
    FindCrExtends(a, b, start);
  }

  lemma {:induction false} NoCrThenCrlf(a: Bytes, start: nat)
    requires start <= |a| && FindCr(a, start).None?
    ensures FindCr(a + Crlf, start) == Some(|a|)
    decreases |a| - start
  {
    if start < |a| {
      NoCrThenCrlf(a, start + 1);
    }
  }

  /** The end of a line without a bare carriage return. */
  lemma {:induction false} FinishLine(a: Bytes, start: nat) returns (b: Bytes)
    requires start <= |a| && !BareCr(a, start)
    ensures FindCrlf(a + b, start).Some?
    ensures if FindCrlf(a, start).Some? then b == [] else FindCrlf(a + b, start).value.1 == |a + b|
  {
    if FindCrlf(a, start).Some? {
      b := [];
      assert a + b == a;
    } else if FindCr(a, start).None? {
      b := Crlf;
      NoCrThenCrlf(a, start);
    } else {
      b := [LF];
      FindCrExtends(a, b, start);
    }
  }

  // ----- runs of frames, for any parser -----

  /** Whatever follows, the answer is not final. */
  ghost predicate Dead(p: Parser, a: Bytes) {
    forall b: Bytes :: p(a + b).Incomplete?
  }

  ghost predicate DeadRun(p: Parser, a: Bytes, count: nat) {
    forall b: Bytes :: Many(p, a + b, count).Short?
  }

  /** The first of `count` frames that is not complete stalls. */
  predicate OpenStalls(p: Parser, stalls: Bytes -> bool, a: Bytes, count: nat)
    decreases count
  {
    count > 0 && if p(a).Complete? then OpenStalls(p, stalls, a[p(a).used..], count - 1) else stalls(a)
  }

  /** Final answers stay, complete ones depend on what they consumed, and a line break alone is an error. */
  ghost predicate Sound(p: Parser) {
    && (forall x: Bytes, y: Bytes {:trigger p(x + y)} :: !p(x).Incomplete? ==> p(x + y) == p(x))
    && (forall x: Bytes {:trigger p(x[..p(x).used])} :: p(x).Complete? ==> p(x[..p(x).used]) == p(x))
    && p([CR]).Failed?
  }

  lemma {:induction false} PrefixDecides(p: Parser, a: Bytes, n: nat)
    requires Sound(p) && n <= |a| && !p(a[..n]).Incomplete?
    ensures !p(a).Incomplete?
  {
    assert a[..n] + a[n..] == a;
  }

  lemma {:induction false} EndsInside(p: Parser, a: Bytes, b: Bytes)
    requires Sound(p) && p(a).Incomplete? && p(a + b).Complete?
    ensures p(a + b).used > |a|
  {
    var used := p(a + b).used;
    assert p((a + b)[..used]) == p(a + b);
    if used <= |a| && (a + b)[..used] == a[..used] {
      PrefixDecides(p, a, used);
    }
  }

  /** A frame that is incomplete but finished by `b` ends inside `b`; cut off what is too much. */
  lemma {:induction false} CutOff(p: Parser, a: Bytes, b: Bytes) returns (c: Bytes)
    requires Sound(p) && p(a).Incomplete? && p(a + b).Complete?
    ensures p(a + c).Complete? && p(a + c).used == |a + c|
  {
    var used := p(a + b).used;
    assert p((a + b)[..used]) == p(a + b);
    EndsInside(p, a, b);
    c := b[..used - |a|];
    assert a + c == (a + b)[..used];
  }

  /** A frame that can be finished, and an error behind it. */
  lemma {:induction false} FinishedRun(p: Parser, a: Bytes, b: Bytes, count: nat)
    requires Sound(p) && p(a).Incomplete? && !p(a + b).Incomplete? && count > 0
    ensures !DeadRun(p, a, count)
  {
    if p(a + b).Failed? {
      assert !Many(p, a + b, count).Short?;
    } else {
      var c := CutOff(p, a, b);
      assert p((a + c) + [CR]) == p(a + c);
      assert ((a + c) + [CR])[|a + c|..] == [CR];
      Assoc(a, c, [CR]);
      assert !Many(p, a + (c + [CR]), count).Short?;
    }
  }

  lemma {:induction false} RunAfterFirst(p: Parser, a: Bytes, count: nat)
    requires Sound(p) && p(a).Complete? && count > 0
    ensures DeadRun(p, a, count) <==> DeadRun(p, a[p(a).used..], count - 1)
  {
    var rest := a[p(a).used..];
    forall b: Bytes ensures Many(p, a + b, count).Short? <==> Many(p, rest + b, count - 1).Short? {
      assert p(a + b) == p(a);
      assert (a + b)[p(a).used..] == rest + b;
    }
  }

  /** A run of frames stays short whatever follows exactly when its first open frame stalls. */
  lemma {:induction false} DeadRunIff(p: Parser, stalls: Bytes -> bool, a: Bytes, count: nat)
    requires Sound(p) && forall y: Bytes | |y| <= |a| :: Dead(p, y) <==> stalls(y)
    ensures DeadRun(p, a, count) <==> OpenStalls(p, stalls, a, count)
    decreases count
  {
    assert a + [] == a;
    if count == 0 {
      assert !Many(p, a + [], 0).Short?;
    } else if p(a).Complete? {
      RunAfterFirst(p, a, count);
      DeadRunIff(p, stalls, a[p(a).used..], count - 1);
    } else if p(a).Failed? {
      assert !Many(p, a + [], count).Short? && !p(a + []).Incomplete?;
    } else if Dead(p, a) {
      forall b: Bytes ensures Many(p, a + b, count).Short? {
        assert p(a + b).Incomplete?;
      }
    } else {
      var b: Bytes :| !p(a + b).Incomplete?;
      FinishedRun(p, a, b, count);
    }
  }

  /** An aggregate with a header is incomplete exactly when its elements are. */
  lemma {:induction false} AggregateByElements(p: Parser, a: Bytes, b: Bytes, kind: AggregateKind, line: Bytes, header: nat)
    requires FindCrlf(a, 1) == Some((line, header))
    ensures var len := ParseI64(line);
            ParseAggregate(p, a + b, kind).Incomplete? <==>
            len.Some? && len.value >= 0 && Many(p, a[header..] + b, Expected(kind, len.value)).Short?
  {
    FindCrlfExtends(a, b, 1);
    assert (a + b)[header..] == a[header..] + b;
  }

  /** An aggregate over its elements, whatever follows. */
  lemma {:induction false} DeadAggregateIff(p: Parser, a: Bytes, kind: AggregateKind, line: Bytes, header: nat)
    requires FindCrlf(a, 1) == Some((line, header))
    ensures var len := ParseI64(line);
            (forall b: Bytes :: ParseAggregate(p, a + b, kind).Incomplete?) <==>
            len.Some? && len.value >= 0 && DeadRun(p, a[header..], Expected(kind, len.value))
  {
    var len := ParseI64(line);
    forall b: Bytes
      ensures ParseAggregate(p, a + b, kind).Incomplete? <==>
              len.Some? && len.value >= 0 && Many(p, a[header..] + b, Expected(kind, len.value)).Short?
    {
      AggregateByElements(p, a, b, kind, line, header);
    }
    assert a + [] == a;
  }

  /** A header line with a bare carriage return, or elements that stall. */
  predicate AggregateStalls(p: Parser, stalls: Bytes -> bool, a: Bytes, kind: AggregateKind) {
    match FindCrlf(a, 1)
    case None => BareCr(a, 1)
    case Some((line, header)) =>
      var len := ParseI64(line);
      len.Some? && len.value >= 0 && OpenStalls(p, stalls, a[header..], Expected(kind, len.value))
  }

  lemma {:induction false} AggregateStallsIff(p: Parser, stalls: Bytes -> bool, a: Bytes, kind: AggregateKind)
    requires Sound(p) && a != [] && forall y: Bytes | |y| < |a| :: Dead(p, y) <==> stalls(y)
    requires !stalls([])
    ensures (forall b: Bytes :: ParseAggregate(p, a + b, kind).Incomplete?) <==> AggregateStalls(p, stalls, a, kind)
  {
    if FindCrlf(a, 1).Some? {
      var (line, header) := FindCrlf(a, 1).value;
      DeadAggregateIff(p, a, kind, line, header);
      if ParseI64(line).Some? && ParseI64(line).value >= 0 {
        DeadRunIff(p, stalls, a[header..], Expected(kind, ParseI64(line).value));
      }
    } else if BareCr(a, 1) {
      forall b: Bytes ensures ParseAggregate(p, a + b, kind).Incomplete? {
        BareCrStays(a, b, 1);
      }
    } else {
      OpenHeader(p, stalls, a, kind);
    }
  }

  lemma {:induction false} OpenHeader(p: Parser, stalls: Bytes -> bool, a: Bytes, kind: AggregateKind)
    requires Sound(p) && a != [] && FindCrlf(a, 1).None? && !BareCr(a, 1)
    requires (forall y: Bytes | |y| < |a| :: Dead(p, y) <==> stalls(y)) && !stalls([])
    ensures exists b: Bytes :: !ParseAggregate(p, a + b, kind).Incomplete?
  {
    var end := FinishLine(a, 1);
    var x := a + end;
    var (line, header) := FindCrlf(x, 1).value;
    assert x[header..] == [];
    if ParseI64(line).Some? && ParseI64(line).value >= 0 {
      DeadRunIff(p, stalls, x[header..], Expected(kind, ParseI64(line).value));
    }
    DeadAggregateIff(p, x, kind, line, header);
    var b: Bytes :| !ParseAggregate(p, x + b, kind).Incomplete?;
    Assoc(a, end, b);
    assert !ParseAggregate(p, a + (end + b), kind).Incomplete?;
  }

  // ----- frames -----

  predicate IsLinePrefix(b: byte) {
    b in {SIMPLE, ERROR, INTEGER, DOUBLE, BIG}
  }

  predicate IsBlockPrefix(b: byte) {
    b in {BULK, BLOB, VERBATIM}
  }

  /**
   A line, a header line or an inline command with a bare carriage return; or an aggregate whose
   first element that is not complete is such a frame.
   */
  predicate Stalls(a: Bytes, inline: bool)
    decreases |a|
  {
    && a != []
    && if IsAggregatePrefix(a[0]) then
         AggregateStalls(ElementParser, (x: Bytes) => |x| < |a| && Stalls(x, false), a, KindOf(a[0]))
       else ScalarStalls(a, inline)
  }

  predicate ScalarStalls(a: Bytes, inline: bool)
    requires a != []
  {
    if IsLinePrefix(a[0]) || IsBlockPrefix(a[0]) then BareCr(a, 1)
    else a[0] !in {NULL, BOOL, CR, LF} && inline && BareCr(a, 0)
  }

  const ElementStalls: Bytes -> bool := (x: Bytes) => Stalls(x, false)

  lemma {:induction false} OpenStallsAgrees(p: Parser, s: Bytes -> bool, t: Bytes -> bool, a: Bytes, count: nat)
    requires forall x: Bytes | |x| <= |a| :: s(x) == t(x)
    ensures OpenStalls(p, s, a, count) == OpenStalls(p, t, a, count)
    decreases count
  {
    if count > 0 && p(a).Complete? {
      OpenStallsAgrees(p, s, t, a[p(a).used..], count - 1);
    }
  }

  lemma {:induction false} AggregateStallsAgrees(p: Parser, s: Bytes -> bool, t: Bytes -> bool, a: Bytes, kind: AggregateKind)
    requires forall x: Bytes | |x| < |a| :: s(x) == t(x)
    ensures AggregateStalls(p, s, a, kind) == AggregateStalls(p, t, a, kind)
  {
    if FindCrlf(a, 1).Some? {
      var (line, header) := FindCrlf(a, 1).value;
      if ParseI64(line).Some? && ParseI64(line).value >= 0 {
        OpenStallsAgrees(p, s, t, a[header..], Expected(kind, ParseI64(line).value));
      }
    }
  }

  lemma {:induction false} StallsOfAggregate(a: Bytes, inline: bool)
    requires a != [] && IsAggregatePrefix(a[0])
    ensures Stalls(a, inline) == AggregateStalls(ElementParser, ElementStalls, a, KindOf(a[0]))
  {
    AggregateStallsAgrees(ElementParser, (x: Bytes) => |x| < |a| && Stalls(x, false), ElementStalls, a, KindOf(a[0]));
  }

  function Filler(n: nat): Bytes {
    seq(n, i => 0)
  }

  /** The payload of a block whose header is there, however long. */
  lemma {:induction false} FinishBlock(a: Bytes) returns (b: Bytes)
    requires FindCrlf(a, 1).Some?
    ensures !ParseBulk(a + b).Incomplete? && !ParseBlobError(a + b).Incomplete? && !ParseVerbatim(a + b).Incomplete?
  {
    b := Filler(U64);
    FindCrlfExtends(a, b, 1);
    assert |a + b| >= U64;
  }

  lemma {:induction false} LineDecides(x: Bytes, inline: bool)
    requires x != [] && IsLinePrefix(x[0]) && FindCrlf(x, 1).Some?
    ensures !ParseScalar(x, inline).Incomplete?
  {
  }

  lemma {:induction false} BlockDecides(x: Bytes, inline: bool)
    requires x != [] && IsBlockPrefix(x[0])
    requires !ParseBulk(x).Incomplete? && !ParseBlobError(x).Incomplete? && !ParseVerbatim(x).Incomplete?
    ensures !ParseScalar(x, inline).Incomplete?
  {
  }

  lemma {:induction false} FixedDecides(x: Bytes, inline: bool)
    requires |x| >= 4 && (x[0] == NULL || x[0] == BOOL)
    ensures !ParseScalar(x, inline).Incomplete?
  {
  }

  /** What is left: a line break alone, an inline command, or an unknown prefix. */
  lemma {:induction false} InlineDecides(x: Bytes, inline: bool)
    requires x != [] && !IsAggregatePrefix(x[0]) && !IsLinePrefix(x[0]) && !IsBlockPrefix(x[0])
    requires x[0] != NULL && x[0] != BOOL && (x[0] == CR || x[0] == LF || !inline || FindCrlf(x, 0).Some?)
    ensures !ParseScalar(x, inline).Incomplete?
  {
  }

  lemma {:induction false} FinishScalar(a: Bytes, inline: bool) returns (b: Bytes)
    requires a != [] && !IsAggregatePrefix(a[0]) && !ScalarStalls(a, inline)
    ensures !ParseScalar(a + b, inline).Incomplete?
  {
    if a[0] == NULL || a[0] == BOOL {
      b := Filler(4);
      FixedDecides(a + b, inline);
    } else if IsLinePrefix(a[0]) {
      b := FinishLine(a, 1);
      LineDecides(a + b, inline);
    } else if IsBlockPrefix(a[0]) {
      var line := FinishLine(a, 1);
      var block := FinishBlock(a + line);
      b := line + block;
      Assoc(a, line, block);
      BlockDecides(a + b, inline);
    } else if a[0] != CR && a[0] != LF && inline {
      b := FinishLine(a, 0);
      InlineDecides(a + b, inline);
    } else {
      b := [];
      InlineDecides(a + b, inline);
    }
  }

  lemma {:induction false} ScalarStays(a: Bytes, b: Bytes, inline: bool)
    requires a != [] && !IsAggregatePrefix(a[0]) && ScalarStalls(a, inline)
    ensures ParseScalar(a + b, inline).Incomplete?
  {
    BareCrStays(a, b, if IsLinePrefix(a[0]) || IsBlockPrefix(a[0]) then 1 else 0);
  }

  lemma {:induction false} ScalarStallsIff(a: Bytes, inline: bool)
    requires a != [] && !IsAggregatePrefix(a[0])
    ensures (forall b: Bytes :: ParseFrame(a + b, inline).Incomplete?) <==> Stalls(a, inline)
  {
    if ScalarStalls(a, inline) {
      forall b: Bytes ensures ParseFrame(a + b, inline).Incomplete? {
        assert (a + b)[0] == a[0];
        ScalarStays(a, b, inline);
      }
    } else {
      var b := FinishScalar(a, inline);
      assert (a + b)[0] == a[0];
      assert !ParseFrame(a + b, inline).Incomplete?;
    }
  }

  lemma {:induction false} ElementsSound()
    ensures Sound(ElementParser)
  {
    forall x: Bytes, y: Bytes | !ElementParser(x).Incomplete? ensures ElementParser(x + y) == ElementParser(x) {
      FrameExtends(x, y, false);
    }
    forall x: Bytes | ElementParser(x).Complete? ensures ElementParser(x[..ElementParser(x).used]) == ElementParser(x) {
      FrameTruncates(x, false);
    }
  }

  lemma {:induction false} NothingYet(inline: bool)
    ensures !ParseFrame([] + [CR], inline).Incomplete?
  {
    assert [] + [CR] == [CR];
  }

  /** An input stays incomplete whatever follows exactly when it stalls. */
  lemma {:induction false} StallsIff(a: Bytes, inline: bool)
    ensures (forall b: Bytes :: ParseFrame(a + b, inline).Incomplete?) <==> Stalls(a, inline)
    decreases |a|
  {
    if a == [] {
      NothingYet(inline);
    } else if !IsAggregatePrefix(a[0]) {
      ScalarStallsIff(a, inline);
    } else {
      forall y: Bytes | |y| < |a| ensures Dead(ElementParser, y) <==> ElementStalls(y) {
        StallsIff(y, false);
      }
      ElementsSound();
      AggregateFrames(a, inline);
      StallsOfAggregate(a, inline);
      AggregateStallsIff(ElementParser, ElementStalls, a, KindOf(a[0]));
    }
  }

  lemma {:induction false} AggregateFrames(a: Bytes, inline: bool)
    requires a != [] && IsAggregatePrefix(a[0])
    ensures (forall b: Bytes :: ParseFrame(a + b, inline).Incomplete?) <==>
            forall b: Bytes :: ParseAggregate(ElementParser, a + b, KindOf(a[0])).Incomplete?
  {
    forall b: Bytes ensures ParseFrame(a + b, inline) == ParseAggregate(ElementParser, a + b, KindOf(a[0])) {
      assert (a + b)[0] == a[0];
      FrameOfAggregate(a + b, inline);
    }
  }

  lemma {:induction false} Stalled(a: Bytes, b: Bytes)
    requires Stalls(a, true)
    ensures Parse(a + b).Incomplete?
  {
    StallsIff(a, true);
  }

  /** A simple string, an inline command and an array that never come to an end. */
  lemma {:induction false} BareCrInputs(b: Bytes)
    ensures Parse([SIMPLE, 97, CR, 98] + b).Incomplete?
    ensures Parse([97, CR, 98] + b).Incomplete?
    ensures Parse([ARRAY, 49, CR, LF, SIMPLE, 97, CR, 98] + b).Incomplete?
  {
    var simple: Bytes, plain: Bytes := [SIMPLE, 97, CR, 98], [97, CR, 98];
    assert FindCr(simple, 1) == Some(2) && FindCr(plain, 0) == Some(1);
    Stalled(simple, b);
    Stalled(plain, b);
    ArrayStalls();
    Stalled([ARRAY, 49, CR, LF, SIMPLE, 97, CR, 98], b);
  }

  lemma {:induction false} ArrayStalls()
    ensures Stalls([ARRAY, 49, CR, LF, SIMPLE, 97, CR, 98], true)
  {
    var a: Bytes := [ARRAY, 49, CR, LF, SIMPLE, 97, CR, 98];
    SimpleStalls();
    OneStalls(ElementParser, ElementStalls, [SIMPLE, 97, CR, 98]);
    OfOneStalls(ElementParser, ElementStalls, a);
    StallsOfAggregate(a, true);
  }

  lemma {:induction false} OfOneStalls(p: Parser, stalls: Bytes -> bool, a: Bytes)
    requires a == [ARRAY, 49, CR, LF, SIMPLE, 97, CR, 98] && OpenStalls(p, stalls, [SIMPLE, 97, CR, 98], 1)
    ensures AggregateStalls(p, stalls, a, ArrayKind)
  {
    assert FindCr(a, 1) == Some(2);
    assert a[1..2] == [49] && a[4..] == [SIMPLE, 97, CR, 98];
    ParsePrinted(1, I64 - 1);
  }

  lemma {:induction false} SimpleStalls()
    ensures var simple: Bytes := [SIMPLE, 97, CR, 98]; ElementStalls(simple) && ElementParser(simple).Incomplete?
  {
    var simple: Bytes := [SIMPLE, 97, CR, 98];
    assert FindCr(simple, 1) == Some(2);
  }

  lemma {:induction false} OneStalls(p: Parser, stalls: Bytes -> bool, a: Bytes)
    requires p(a).Incomplete? && stalls(a)
    ensures OpenStalls(p, stalls, a, 1)
  {
  }
}
