/**
 Glob patterns of senko-pubsub/src/pattern.rs: what a pattern means, and the scalar
 matcher that restarts at the last star.
 */
module Glob {
  import opened Common

  const BANG: byte := 33
  const STAR: byte := 42
  const DASH: byte := 45
  const QUESTION: byte := 63
  const OPEN: byte := 91
  const BACKSLASH: byte := 92
  const CLOSE: byte := 93
  const CARET: byte := 94

  datatype Range = Range(lo: byte, hi: byte)

  datatype Token =
    | AnyRun
    | AnyByte
    | Lit(b: byte)
    | Class(negated: bool, ranges: seq<Range>)
    | Unclosed

  /** The bytes a single-byte token stands for. */
  predicate Accepts(token: Token, b: byte) {
    match token
    case AnyRun => false
    case AnyByte => true
    case Lit(c) => c == b
    case Class(negated, ranges) => negated != InRanges(ranges, b)
    case Unclosed => false
  }

  predicate InRanges(ranges: seq<Range>, b: byte) {
    exists r :: r in ranges && r.lo <= b <= r.hi
  }

  /** A star is any run of bytes, every other token exactly one byte. */
  predicate Matches(tokens: seq<Token>, text: Bytes)
    decreases |tokens|
  {
    if tokens == [] then text == []
    else if tokens[0].AnyRun? then exists k :: 0 <= k <= |text| && Matches(tokens[1..], text[k..])
    else text != [] && Accepts(tokens[0], text[0]) && Matches(tokens[1..], text[1..])
  }

  datatype ClassEnd = Closed(ranges: seq<Range>, next: nat) | Open

  function Prepend(r: Range, end: ClassEnd): ClassEnd {
    if end.Closed? then end.(ranges := [r] + end.ranges) else Open
  }

  /** One member of a bracket expression: an escaped byte, a range or a plain byte. */
  function MemberAt(p: Bytes, i: nat): (r: (Range, nat))
    requires i < |p|
    ensures i < r.1 <= |p|
  {
    if p[i] == BACKSLASH && i + 1 < |p| then (Range(p[i + 1], p[i + 1]), i + 2)
    else if i + 2 < |p| && p[i + 1] == DASH && p[i + 2] != CLOSE then (Range(p[i], p[i + 2]), i + 3)
    else (Range(p[i], p[i]), i + 1)
  }

  /** The members of a bracket expression from index `i` on, up to its closing bracket. */
  function ClassMembers(p: Bytes, i: nat): (r: ClassEnd)
    ensures r.Closed? ==> i < r.next <= |p|
    decreases |p| - i
  {
    if i >= |p| then Open
    else if p[i] == CLOSE then Closed([], i + 1)
    else var (r, next) := MemberAt(p, i); Prepend(r, ClassMembers(p, next))
  }

  predicate Negated(p: Bytes, i: nat) {
    i + 1 < |p| && (p[i + 1] == CARET || p[i + 1] == BANG)
  }

  /** The token starting at `i`, and where the next one starts. */
  function TokenAt(p: Bytes, i: nat): (r: (Token, nat))
    requires i < |p|
    ensures i < r.1 <= |p|
  {
    if p[i] == STAR then (AnyRun, i + 1)
    else if p[i] == QUESTION then (AnyByte, i + 1)
    else if p[i] == OPEN then
      match ClassMembers(p, if Negated(p, i) then i + 2 else i + 1)
      case Closed(ranges, next) => (Class(Negated(p, i), ranges), next)
      case Open => (Unclosed, |p|)
    else if p[i] == BACKSLASH && i + 1 < |p| then (Lit(p[i + 1]), i + 2)
    else (Lit(p[i]), i + 1)
  }

  function Tokens(p: Bytes, i: nat): seq<Token>
    decreases |p| - i
  {
    if i >= |p| then [] else var (token, next) := TokenAt(p, i); [token] + Tokens(p, next)
  }

  /** What a pattern means. */
  predicate GlobMatches(p: Bytes, text: Bytes) {
    Matches(Tokens(p, 0), text)
  }

  // ----- the token matchers of the source -----

  method MatchCharClass(p: Bytes, start: nat, b: byte) returns (matched: bool, tokenLen: nat)
    requires start < |p| && p[start] == OPEN
    ensures start + tokenLen == TokenAt(p, start).1
    ensures matched == Accepts(TokenAt(p, start).0, b)
  {
    var index := start + 1;
    var negated := false;
    if index < |p| && (p[index] == CARET || p[index] == BANG) {
      negated := true;
      index := index + 1;
    }
    var hit := false;
    ghost var seen: seq<Range> := [];
    ghost var first := index;
    while index < |p|
      invariant start < index <= |p|
      invariant hit == InRanges(seen, b)
      invariant ClassMembers(p, first) == After(seen, ClassMembers(p, index))
      decreases |p| - index
    {
      if p[index] == CLOSE {
        return if negated then !hit else hit, index + 1 - start;
      }
      ghost var (r, next) := MemberAt(p, index);
      InRangesAppend(seen, r, b);
      AfterAppend(seen, r, ClassMembers(p, next));
      seen := seen + [r];
      if p[index] == BACKSLASH && index + 1 < |p| {
        hit := hit || p[index + 1] == b;
        index := index + 2;
      } else if index + 2 < |p| && p[index + 1] == DASH && p[index + 2] != CLOSE {
        hit := hit || p[index] <= b <= p[index + 2];
        index := index + 3;
      } else {
        hit := hit || p[index] == b;
        index := index + 1;
      }
    }
    return false, |p| - start;
  }

  ghost function After(seen: seq<Range>, end: ClassEnd): ClassEnd {
    if end.Closed? then end.(ranges := seen + end.ranges) else Open
  }

  lemma {:induction false} AfterAppend(seen: seq<Range>, r: Range, end: ClassEnd)
    ensures After(seen, Prepend(r, end)) == After(seen + [r], end)
  {
    if end.Closed? {
      assert seen + ([r] + end.ranges) == seen + [r] + end.ranges;
    }
  }

  lemma {:induction false} InRangesAppend(ranges: seq<Range>, r: Range, b: byte)
    ensures InRanges(ranges + [r], b) <==> InRanges(ranges, b) || r.lo <= b <= r.hi
  {
    if InRanges(ranges, b) {
      var x :| x in ranges && x.lo <= b <= x.hi;
      assert x in ranges + [r];
    }
    if r.lo <= b <= r.hi {
      assert r in ranges + [r];
    }
  }

  method MatchSingleToken(p: Bytes, index: nat, b: byte) returns (matched: bool, tokenLen: nat)
    requires index < |p| && p[index] != STAR
    ensures index + tokenLen == TokenAt(p, index).1
    ensures matched == Accepts(TokenAt(p, index).0, b)
  {
    if p[index] == QUESTION {
      return true, 1;
    } else if p[index] == OPEN {
      matched, tokenLen := MatchCharClass(p, index, b);
    } else if p[index] == BACKSLASH {
      if index + 1 < |p| {
        return p[index + 1] == b, 2;
      }
      return BACKSLASH == b, 1;
    } else {
      return p[index] == b, 1;
    }
  }

  // ----- the restart loop -----

  /** `seg` accepts the bytes of `text` from `from` on, one token a byte. */
  ghost predicate Consumes(seg: seq<Token>, text: Bytes, from: nat) {
    && from + |seg| <= |text|
    && (forall k | 0 <= k < |seg| :: !seg[k].AnyRun? && Accepts(seg[k], text[from + k]))
  }

  /** `tokens` matches what is left of `text` after some start at or after `from`. */
  ghost predicate MatchesLater(tokens: seq<Token>, text: Bytes, from: nat) {
    exists k :: from <= k <= |text| && Matches(tokens, text[k..])
  }

  /** Single-byte tokens in front of a pattern consume exactly their own number of bytes. */
  lemma {:induction false} SegmentSplits(seg: seq<Token>, rest: seq<Token>, text: Bytes, from: nat)
    requires forall k | 0 <= k < |seg| :: !seg[k].AnyRun?
    requires from <= |text|
    ensures Matches(seg + rest, text[from..]) <==>
            Consumes(seg, text, from) && Matches(rest, text[from + |seg|..])
    decreases |seg|
  {
    if seg == [] {
      assert seg + rest == rest;
    } else {
      assert (seg + rest)[1..] == seg[1..] + rest;
      if from < |text| {
        assert text[from..][1..] == text[from + 1..];
        SegmentSplits(seg[1..], rest, text, from + 1);
        if Consumes(seg[1..], text, from + 1) && Accepts(seg[0], text[from]) {
          forall k | 0 <= k < |seg| ensures !seg[k].AnyRun? && Accepts(seg[k], text[from + k]) {
            if k > 0 { assert seg[k] == seg[1..][k - 1]; }
          }
        }
        if Consumes(seg, text, from) {
          forall k | 0 <= k < |seg[1..]| ensures Accepts(seg[1..][k], text[from + 1 + k]) {
            assert seg[1..][k] == seg[k + 1];
          }
        }
      }
    }
  }

  lemma {:induction false} StarMatches(rest: seq<Token>, text: Bytes, from: nat)
    requires from <= |text|
    ensures Matches([AnyRun] + rest, text[from..]) <==> MatchesLater(rest, text, from)
  {
    assert ([AnyRun] + rest)[1..] == rest;
    if MatchesLater(rest, text, from) {
      var k :| from <= k <= |text| && Matches(rest, text[k..]);
      assert text[from..][k - from..] == text[k..];
    }
    if Matches([AnyRun] + rest, text[from..]) {
      var k :| 0 <= k <= |text[from..]| && Matches(rest, text[from..][k..]);
      assert text[from..][k..] == text[from + k..];
    }
  }

  /** A run of stars means the same as one star. */
  lemma {:induction false} StarTwice(rest: seq<Token>, text: Bytes, from: nat)
    requires from <= |text|
    ensures MatchesLater([AnyRun] + rest, text, from) <==> MatchesLater(rest, text, from)
  {
    if MatchesLater([AnyRun] + rest, text, from) {
      var k :| from <= k <= |text| && Matches([AnyRun] + rest, text[k..]);
      StarMatches(rest, text, k);
    }
    if MatchesLater(rest, text, from) {
      StarMatches(rest, text, from);
    }
  }

  lemma {:induction false} LaterThroughStar(seg: seq<Token>, rest: seq<Token>, text: Bytes, from: nat, k: nat)
    requires forall j | 0 <= j < |seg| :: !seg[j].AnyRun?
    requires from <= k <= |text| && Matches(seg + ([AnyRun] + rest), text[k..])
    ensures MatchesLater(rest, text, from + |seg|)
  {
    SegmentSplits(seg, [AnyRun] + rest, text, k);
    StarMatches(rest, text, k + |seg|);
    var m :| k + |seg| <= m <= |text| && Matches(rest, text[m..]);
  }

  lemma {:induction false} LaterBeforeStar(seg: seq<Token>, rest: seq<Token>, text: Bytes, from: nat)
    requires Consumes(seg, text, from) && MatchesLater(rest, text, from + |seg|)
    ensures MatchesLater(seg + ([AnyRun] + rest), text, from)
  {
    StarMatches(rest, text, from + |seg|);
    SegmentSplits(seg, [AnyRun] + rest, text, from);
    LaterHere(seg + ([AnyRun] + rest), text, from);
  }

  lemma {:induction false} LaterHere(tokens: seq<Token>, text: Bytes, from: nat)
    requires from <= |text| && Matches(tokens, text[from..])
    ensures MatchesLater(tokens, text, from)
  {
  }

  /**
   Why only the last star needs remembering: once the tokens since a star consumed text
   from `from`, and a second star follows, everything hinges on the second star.
   */
  lemma {:induction false} LastStarSuffices(seg: seq<Token>, rest: seq<Token>, text: Bytes, from: nat)
    requires Consumes(seg, text, from)
    ensures MatchesLater(seg + ([AnyRun] + rest), text, from) <==> MatchesLater(rest, text, from + |seg|)
  {
    var tokens := seg + ([AnyRun] + rest);
    if MatchesLater(tokens, text, from) {
      var k :| from <= k <= |text| && Matches(tokens, text[k..]);
      LaterThroughStar(seg, rest, text, from, k);
    }
    if MatchesLater(rest, text, from + |seg|) {
      LaterBeforeStar(seg, rest, text, from);
    }
  }

  lemma {:induction false} NextStart(tokens: seq<Token>, text: Bytes, from: nat)
    requires from <= |text| && !Matches(tokens, text[from..])
    ensures MatchesLater(tokens, text, from) <==> MatchesLater(tokens, text, from + 1)
  {
  }

  /**
   What the loop knows: since the last star (or the start) the tokens `seg` consumed the
   text from `starText` on, and the answer hinges on the tokens from there.
   */
  ghost predicate Progress(pattern: Bytes, text: Bytes, star: Option<nat>, starText: nat, seg: seq<Token>,
                           patternIndex: nat)
  {
    && patternIndex <= |pattern|
    && (star.Some? ==> star.value <= |pattern|)
    && Consumes(seg, text, starText)
    && Tokens(pattern, if star.Some? then star.value else 0) == seg + Tokens(pattern, patternIndex)
    && (if star.Some? then
          GlobMatches(pattern, text) <==> MatchesLater(Tokens(pattern, star.value), text, starText)
        else starText == 0)
  }

  lemma {:induction false} MeetStar(pattern: Bytes, text: Bytes, star: Option<nat>, starText: nat, seg: seq<Token>, patternIndex: nat)
    requires Progress(pattern, text, star, starText, seg, patternIndex)
    requires patternIndex < |pattern| && pattern[patternIndex] == STAR
    ensures GlobMatches(pattern, text) <==>
            MatchesLater(Tokens(pattern, patternIndex + 1), text, starText + |seg|)
  {
    var rest := Tokens(pattern, patternIndex + 1);
    assert Tokens(pattern, patternIndex) == [AnyRun] + rest;
    if star.None? {
      assert text[0..] == text;
      SegmentSplits(seg, [AnyRun] + rest, text, 0);
      StarMatches(rest, text, |seg|);
    } else {
      LastStarSuffices(seg, rest, text, starText);
    }
  }

  lemma {:induction false} MeetToken(pattern: Bytes, text: Bytes, star: Option<nat>, starText: nat, seg: seq<Token>, patternIndex: nat)
    requires Progress(pattern, text, star, starText, seg, patternIndex)
    requires patternIndex < |pattern| && pattern[patternIndex] != STAR && starText + |seg| < |text|
    requires Accepts(TokenAt(pattern, patternIndex).0, text[starText + |seg|])
    ensures var (token, next) := TokenAt(pattern, patternIndex);
            Progress(pattern, text, star, starText, seg + [token], next)
  {
    var (token, next) := TokenAt(pattern, patternIndex);
    assert seg + ([token] + Tokens(pattern, next)) == seg + [token] + Tokens(pattern, next);
  }

  /** The tokens met so far lead nowhere from `starText`. */
  lemma {:induction false} MeetMismatch(pattern: Bytes, text: Bytes, star: Option<nat>, starText: nat, seg: seq<Token>, patternIndex: nat)
    requires Progress(pattern, text, star, starText, seg, patternIndex)
    requires if patternIndex == |pattern| then starText + |seg| != |text| else pattern[patternIndex] != STAR
    requires patternIndex < |pattern| && starText + |seg| < |text| ==>
               !Accepts(TokenAt(pattern, patternIndex).0, text[starText + |seg|])
    ensures star.None? ==> !GlobMatches(pattern, text)
    ensures star.Some? && starText == |text| ==> !GlobMatches(pattern, text)
    ensures star.Some? && starText < |text| ==> Progress(pattern, text, star, starText + 1, [], star.value)
  {
    var from := Tokens(pattern, if star.Some? then star.value else 0);
    assert text[0..] == text;
    SegmentSplits(seg, Tokens(pattern, patternIndex), text, starText);
    assert !Matches(from, text[starText..]);
    if star.Some? {
      NextStart(from, text, starText);
      assert from == [] + from;
    }
  }

  lemma {:induction false} MeetEnd(pattern: Bytes, text: Bytes, star: Option<nat>, starText: nat, seg: seq<Token>)
    requires Progress(pattern, text, star, starText, seg, |pattern|)
    requires starText + |seg| == |text|
    ensures GlobMatches(pattern, text)
  {
    assert text[0..] == text;
    SegmentSplits(seg, Tokens(pattern, |pattern|), text, starText);
  }

  /** Skip the run of stars starting at `index`. */
  method SkipStars(pattern: Bytes, index: nat, ghost text: Bytes, ghost from: nat) returns (next: nat)
    requires index < |pattern| && pattern[index] == STAR && from <= |text|
    ensures index < next <= |pattern| && (next < |pattern| ==> pattern[next] != STAR)
    ensures MatchesLater(Tokens(pattern, index + 1), text, from) <==> MatchesLater(Tokens(pattern, next), text, from)
  {
    next := index + 1;
    while next < |pattern| && pattern[next] == STAR
      invariant index < next <= |pattern|
      invariant MatchesLater(Tokens(pattern, index + 1), text, from) <==> MatchesLater(Tokens(pattern, next), text, from)
    {
      StarTwice(Tokens(pattern, next + 1), text, from);
      next := next + 1;
    }
  }

  /**
   The matcher: walk pattern and text together, remember the last star, and on a mismatch
   resume just after it one byte further on.
   */
  method GlobMatchScalar(pattern: Bytes, text: Bytes) returns (result: bool)
    ensures result == GlobMatches(pattern, text)
  {
    var patternIndex: nat, textIndex: nat := 0, 0;
    var starPattern: Option<nat> := None;
    var starText: nat := 0;
    ghost var seg: seq<Token> := [];
    assert Tokens(pattern, 0) == seg + Tokens(pattern, 0);
    while true
      invariant Progress(pattern, text, starPattern, starText, seg, patternIndex)
      invariant textIndex == starText + |seg|
      decreases starPattern.None?, |text| - starText, |pattern| - patternIndex
    {
      if patternIndex < |pattern| && pattern[patternIndex] == STAR {
        MeetStar(pattern, text, starPattern, starText, seg, patternIndex);
        patternIndex := SkipStars(pattern, patternIndex, text, textIndex);
        if patternIndex == |pattern| {
          assert Matches(Tokens(pattern, patternIndex), text[|text|..]);
          return true;
        }
        starPattern, starText, seg := Some(patternIndex), textIndex, [];
        assert Tokens(pattern, patternIndex) == seg + Tokens(pattern, patternIndex);
        continue;
      }
      if patternIndex == |pattern| && textIndex == |text| {
        MeetEnd(pattern, text, starPattern, starText, seg);
        return true;
      }
      if patternIndex < |pattern| && textIndex < |text| {
        var matched, tokenLen := MatchSingleToken(pattern, patternIndex, text[textIndex]);
        if matched {
          MeetToken(pattern, text, starPattern, starText, seg, patternIndex);
          seg := seg + [TokenAt(pattern, patternIndex).0];
          patternIndex, textIndex := patternIndex + tokenLen, textIndex + 1;
          continue;
        }
      }
      MeetMismatch(pattern, text, starPattern, starText, seg, patternIndex);
      if starPattern.None? {
        return false;
      }
      starText := starText + 1;
      if starText > |text| {
        return false;
      }
      textIndex, patternIndex, seg := starText, starPattern.value, [];
    }
  }
}
