/**
 The fast glob matcher of senko-pubsub/src/pattern.rs: a literal test, a prefix test for a
 single trailing star, and pruning by the literal runs of the pattern before the scalar
 matcher is asked.  Its scanners split a pattern with their own, simpler rule for bracket
 expressions, so the two splittings are kept apart here and compared.
 */
module GlobFast {
  import opened Common
  import opened Glob

  // ----- substring search -----

  /** The literals occur in `text` one after the other without overlapping. */
  ghost predicate InOrder(literals: seq<Bytes>, text: Bytes)
    decreases |literals|
  {
    literals == [] ||
    exists at: nat :: StandsAt(text, at, literals[0]) && InOrder(literals[1..], text[at + |literals[0]|..])
  }

  lemma {:induction false} InOrderFrom(first: Bytes, later: seq<Bytes>, text: Bytes, at: nat)
    requires StandsAt(text, at, first) && InOrder(later, text[at + |first|..])
    ensures InOrder([first] + later, text)
  {
    var literals := [first] + later;
    assert literals[1..] == later;
    assert StandsAt(text, at, literals[0]) && InOrder(literals[1..], text[at + |literals[0]|..]);
  }

  lemma {:induction false} InOrderWider(literals: seq<Bytes>, text: Bytes, cut: nat)
    requires cut <= |text| && InOrder(literals, text[cut..])
    ensures InOrder(literals, text)
  {
    if literals != [] {
      var at: nat :| StandsAt(text[cut..], at, literals[0]) && InOrder(literals[1..], text[cut..][at + |literals[0]|..]);
      assert text[cut..][at..at + |literals[0]|] == text[cut + at..cut + at + |literals[0]|];
      assert text[cut..][at + |literals[0]|..] == text[cut + at + |literals[0]|..];
      assert StandsAt(text, cut + at, literals[0]);
    }
  }

  /** Taking the leftmost occurrence of the first literal loses nothing. */
  lemma {:induction false} LeftmostSuffices(literals: seq<Bytes>, text: Bytes)
    requires literals != []
    ensures var first := FindFrom(text, literals[0], 0);
            InOrder(literals, text) <==>
            first.Some? && InOrder(literals[1..], text[first.value + |literals[0]|..])
  {
    var first := FindFrom(text, literals[0], 0);
    if InOrder(literals, text) {
      var at: nat :| StandsAt(text, at, literals[0]) && InOrder(literals[1..], text[at + |literals[0]|..]);
      var rest := text[first.value + |literals[0]|..];
      assert rest[at - first.value..] == text[at + |literals[0]|..];
      InOrderWider(literals[1..], rest, at - first.value);
    }
  }

  // ----- how the scanners split a pattern -----

  /** `char_class_token_len`: one past the first closing bracket that no backslash precedes. */
  function ScanClassEnd(p: Bytes, i: nat): (r: nat)
    requires i <= |p|
    ensures i <= r <= |p|
    decreases |p| - i
  {
    if i >= |p| then |p|
    else if p[i] == BACKSLASH && i + 1 < |p| then ScanClassEnd(p, i + 2)
    else if p[i] == CLOSE then i + 1
    else ScanClassEnd(p, i + 1)
  }

  /** A scanner's token; a bracket expression is only known to stand for one byte. */
  function ScanTokenAt(p: Bytes, i: nat): (r: (Token, nat))
    requires i < |p|
    ensures i < r.1 <= |p|
  {
    if p[i] == STAR then (AnyRun, i + 1)
    else if p[i] == QUESTION then (AnyByte, i + 1)
    else if p[i] == OPEN then (AnyByte, ScanClassEnd(p, i + 1))
    else if p[i] == BACKSLASH && i + 1 < |p| then (Lit(p[i + 1]), i + 2)
    else (Lit(p[i]), i + 1)
  }

  function ScanTokens(p: Bytes, i: nat): seq<Token>
    decreases |p| - i
  {
    if i >= |p| then [] else var (token, next) := ScanTokenAt(p, i); [token] + ScanTokens(p, next)
  }

  /** A token as a scanner sees it. */
  function Shape(token: Token): Token {
    if token.AnyRun? || token.Lit? then token else AnyByte
  }

  function Shapes(tokens: seq<Token>): seq<Token> {
    seq(|tokens|, k requires 0 <= k < |tokens| => Shape(tokens[k]))
  }

  /** The scanners and the matcher split the pattern at the same places. */
  predicate ScannersAgree(p: Bytes) {
    ScanTokens(p, 0) == Shapes(Tokens(p, 0))
  }

  lemma {:induction false} SameClassEnd(p: Bytes, i: nat)
    requires i <= |p| && BACKSLASH !in p
    ensures match ClassMembers(p, i)
            case Closed(_, next) => ScanClassEnd(p, i) == next
            case Open => ScanClassEnd(p, i) == |p|
    decreases |p| - i
  {
    if i < |p| && p[i] != CLOSE {
      var next := MemberAt(p, i).1;
      SameClassEnd(p, next);
      if next == i + 3 {
        assert p[i + 2] != CLOSE && p[i + 1] != CLOSE;
        assert ScanClassEnd(p, i + 1) == ScanClassEnd(p, i + 2) == ScanClassEnd(p, i + 3);
      }
    }
  }

  lemma {:induction false} SameSplit(p: Bytes, i: nat)
    requires BACKSLASH !in p
    ensures ScanTokens(p, i) == Shapes(Tokens(p, i))
    decreases |p| - i
  {
    if i < |p| {
      if p[i] == OPEN {
        SameClassEnd(p, i + 1);
        if Negated(p, i) { SameClassEnd(p, i + 2); }
      }
      var (token, next) := TokenAt(p, i);
      SameSplit(p, next);
      assert Shapes([token] + Tokens(p, next)) == [Shape(token)] + Shapes(Tokens(p, next));
    }
  }

  /** Without a backslash the two splittings never differ. */
  lemma {:induction false} PlainPatternsAgree(p: Bytes)
    requires BACKSLASH !in p
    ensures ScannersAgree(p)
  {
    SameSplit(p, 0);
  }

  // ----- literal bytes of a pattern -----

  function Unescape(s: Bytes): Bytes
    decreases |s|
  {
    if s == [] then []
    else if s[0] == BACKSLASH && |s| > 1 then [s[1]] + Unescape(s[2..])
    else [s[0]] + Unescape(s[1..])
  }

  /** No escape is cut off at the end of `s`. */
  predicate Complete(s: Bytes)
    decreases |s|
  {
    if s == [] then true
    else if s[0] == BACKSLASH then |s| > 1 && Complete(s[2..])
    else Complete(s[1..])
  }

  lemma {:induction false} UnescapeConcat(s: Bytes, t: Bytes)
    requires Complete(s)
    ensures Unescape(s + t) == Unescape(s) + Unescape(t)
    ensures Complete(s + t) <==> Complete(t)
    decreases |s|
  {
    if s == [] {
      assert s + t == t;
    } else if s[0] == BACKSLASH {
      assert (s + t)[2..] == s[2..] + t;
      UnescapeConcat(s[2..], t);
    } else {
      assert (s + t)[1..] == s[1..] + t;
      UnescapeConcat(s[1..], t);
    }
  }

  function UnescapeAll(segments: seq<Bytes>): seq<Bytes> {
    seq(|segments|, k requires 0 <= k < |segments| => Unescape(segments[k]))
  }

  function NonEmpty(s: Bytes): seq<Bytes> {
    if s == [] then [] else [s]
  }

  /** The maximal runs of literal tokens, `open` being the run already begun. */
  function Runs(tokens: seq<Token>, open: Bytes): seq<Bytes>
    decreases |tokens|
  {
    if tokens == [] then NonEmpty(open)
    else if tokens[0].Lit? then Runs(tokens[1..], open + [tokens[0].b])
    else NonEmpty(open) + Runs(tokens[1..], [])
  }

  predicate AllLiteral(tokens: seq<Token>) {
    forall k | 0 <= k < |tokens| :: tokens[k].Lit?
  }

  function LitBytes(tokens: seq<Token>): (r: Bytes)
    requires AllLiteral(tokens)
    ensures |r| == |tokens| && forall k | 0 <= k < |r| :: r[k] == tokens[k].b
  {
    if tokens == [] then [] else [tokens[0].b] + LitBytes(tokens[1..])
  }

  /** A text that matches contains the pattern's literal runs, in order. */
  lemma {:induction false} MatchContainsRuns(tokens: seq<Token>, text: Bytes, open: Bytes)
    requires Matches(tokens, text)
    ensures InOrder(Runs(tokens, open), open + text)
    decreases |tokens|
  {
    if tokens == [] {
      if open != [] {
        assert (open + text)[0..|open|] == open;
        InOrderFrom(open, [], open + text, 0);
        assert Runs(tokens, open) == [open] + [];
      }
    } else if tokens[0].Lit? {
      assert open + text == (open + [tokens[0].b]) + text[1..];
      MatchContainsRuns(tokens[1..], text[1..], open + [tokens[0].b]);
    } else {
      var k: nat :| k <= |text| && Matches(tokens[1..], text[k..]);
      MatchContainsRuns(tokens[1..], text[k..], []);
      assert [] + text[k..] == text[k..];
      InOrderWider(Runs(tokens[1..], []), text, k);
      RunFirst(open, Runs(tokens[1..], []), text);
    }
  }

  lemma {:induction false} RunFirst(open: Bytes, later: seq<Bytes>, text: Bytes)
    requires InOrder(later, text)
    ensures InOrder(NonEmpty(open) + later, open + text)
  {
    if open == [] {
      assert NonEmpty(open) + later == later && open + text == text;
    } else {
      assert (open + text)[0..|open|] == open && (open + text)[|open|..] == text;
      InOrderFrom(open, later, open + text, 0);
    }
  }

  lemma {:induction false} RunsOfShapes(tokens: seq<Token>, open: Bytes)
    ensures Runs(Shapes(tokens), open) == Runs(tokens, open)
    decreases |tokens|
  {
    if tokens != [] {
      assert Shapes(tokens)[1..] == Shapes(tokens[1..]);
      RunsOfShapes(tokens[1..], if tokens[0].Lit? then open + [tokens[0].b] else []);
    }
  }

  lemma {:induction false} LiteralMatch(tokens: seq<Token>, rest: seq<Token>, text: Bytes)
    requires AllLiteral(tokens)
    ensures Matches(tokens + rest, text) <==>
            LitBytes(tokens) <= text && Matches(rest, text[|tokens|..])
  {
    assert text[0..] == text;
    SegmentSplits(tokens, rest, text, 0);
    if LitBytes(tokens) <= text {
      forall k | 0 <= k < |tokens| ensures Accepts(tokens[k], text[k]) {
        assert text[k] == LitBytes(tokens)[k];
      }
      assert Consumes(tokens, text, 0);
    }
    if Consumes(tokens, text, 0) {
      assert text[..|tokens|] == LitBytes(tokens);
    }
  }

  // ----- the scanners -----

  method CharClassTokenLen(p: Bytes, start: nat) returns (len: nat)
    requires start < |p|
    ensures start + len == ScanClassEnd(p, start + 1)
  {
    var index := start + 1;
    while index < |p|
      invariant start < index <= |p|
      invariant ScanClassEnd(p, index) == ScanClassEnd(p, start + 1)
    {
      if p[index] == BACKSLASH && index + 1 < |p| {
        index := index + 2;
      } else if p[index] == CLOSE {
        return index - start + 1;
      } else {
        index := index + 1;
      }
    }
    return |p| - start;
  }

  function Wildcards(tokens: seq<Token>): (n: nat)
    ensures n == 0 <==> AllLiteral(tokens)
  {
    if tokens == [] then 0
    else
      var before := tokens[..|tokens| - 1];
      var last := tokens[|tokens| - 1];
      assert tokens == before + [last];
      Wildcards(before) + if last.Lit? then 0 else 1
  }

  /** The only wildcard is a star, and it comes last. */
  predicate TrailingStar(tokens: seq<Token>) {
    tokens != [] && tokens[|tokens| - 1].AnyRun? && AllLiteral(tokens[..|tokens| - 1])
  }

  lemma {:induction false} ScanOn(p: Bytes, done: seq<Token>, index: nat, token: Token, next: nat)
    requires index < |p| && (token, next) == ScanTokenAt(p, index)
    ensures done + ScanTokens(p, index) == (done + [token]) + ScanTokens(p, next)
    ensures Wildcards(done + [token]) == Wildcards(done) + if token.Lit? then 0 else 1
  {
    Assoc(done, [token], ScanTokens(p, next));
    assert (done + [token])[..|done|] == done;
  }

  /** Whether the token at `index` is a wildcard, and where the next one starts. */
  method ScanOne(p: Bytes, index: nat) returns (wild: bool, next: nat)
    requires index < |p|
    ensures next == ScanTokenAt(p, index).1 && wild == !ScanTokenAt(p, index).0.Lit?
  {
    if p[index] == BACKSLASH {
      return false, if index + 1 < |p| then index + 2 else index + 1;
    } else if p[index] == STAR || p[index] == QUESTION {
      return true, index + 1;
    } else if p[index] == OPEN {
      var len := CharClassTokenLen(p, index);
      return true, index + len;
    }
    return false, index + 1;
  }

  method ScanPattern(p: Bytes) returns (hasWildcards: bool, prefixLen: Option<nat>)
    ensures hasWildcards == !AllLiteral(ScanTokens(p, 0))
    ensures prefixLen.Some? <==> TrailingStar(ScanTokens(p, 0))
    ensures prefixLen.Some? ==> prefixLen.value == |p| - 1
  {
    hasWildcards := false;
    var wildcardCount, starAtEnd, lastStar, index := 0, false, |p|, 0;
    ghost var done: seq<Token> := [];
    while index < |p|
      invariant 0 <= index <= |p|
      invariant ScanTokens(p, 0) == done + ScanTokens(p, index)
      invariant wildcardCount == Wildcards(done) && hasWildcards == (wildcardCount > 0)
      invariant starAtEnd <==> index == |p| && done != [] && done[|done| - 1].AnyRun?
      invariant starAtEnd ==> lastStar == |p| - 1
      decreases |p| - index
    {
      ghost var (token, next) := ScanTokenAt(p, index);
      ScanOn(p, done, index, token, next);
      done := done + [token];
      var wild, end := ScanOne(p, index);
      if wild {
        hasWildcards, wildcardCount := true, wildcardCount + 1;
      }
      if p[index] == STAR {
        starAtEnd, lastStar := end == |p|, index;
      }
      index := end;
    }
    assert ScanTokens(p, 0) == done;
    prefixLen := if wildcardCount == 1 && starAtEnd then Some(lastStar) else None;
    LoneStar(done);
  }

  lemma {:induction false} LoneStar(tokens: seq<Token>)
    ensures Wildcards(tokens) == 0 <==> AllLiteral(tokens)
    ensures tokens != [] && tokens[|tokens| - 1].AnyRun? ==> (Wildcards(tokens) == 1 <==> TrailingStar(tokens))
  {
    if tokens != [] {
      assert Wildcards(tokens[..|tokens| - 1]) == 0 <==> AllLiteral(tokens[..|tokens| - 1]);
    }
  }

  lemma {:induction false} UnescapeStep(done: Bytes, s: Bytes, i: nat)
    requires i < |s|
    ensures var two := s[i] == BACKSLASH && i + 1 < |s|;
            done + Unescape(s[i..]) ==
            if two then (done + [s[i + 1]]) + Unescape(s[i + 2..]) else (done + [s[i]]) + Unescape(s[i + 1..])
  {
    if s[i] == BACKSLASH && i + 1 < |s| {
      assert s[i..][2..] == s[i + 2..];
    } else {
      assert s[i..][1..] == s[i + 1..];
    }
  }

  method UnescapeSegment(s: Bytes) returns (literal: Bytes)
    ensures literal == Unescape(s)
  {
    literal := [];
    var index := 0;
    assert s[0..] == s;
    while index < |s|
      invariant 0 <= index <= |s|
      invariant Unescape(s) == literal + Unescape(s[index..])
      decreases |s| - index
    {
      UnescapeStep(literal, s, index);
      if s[index] == BACKSLASH && index + 1 < |s| {
        literal := literal + [s[index + 1]];
        index := index + 2;
      } else {
        literal := literal + [s[index]];
        index := index + 1;
      }
    }
    assert s[index..] == [];
  }

  method PatternEqLiteral(p: Bytes, text: Bytes) returns (equal: bool)
    ensures equal == (Unescape(p) == text)
  {
    if BACKSLASH !in p {
      UnescapePlain(p);
      return p == text;
    }
    var literal := UnescapeSegment(p);
    return literal == text;
  }

  lemma {:induction false} UnescapePlain(s: Bytes)
    requires BACKSLASH !in s
    ensures Unescape(s) == s
    decreases |s|
  {
    if s != [] {
      UnescapePlain(s[1..]);
    }
  }

  /** One more literal token extends the segment from `start`. */
  lemma {:induction false} SegmentGrows(p: Bytes, start: nat, index: nat)
    requires start <= index < |p| && ScanTokenAt(p, index).0.Lit?
    requires Complete(p[start..index])
    ensures var (token, next) := ScanTokenAt(p, index);
            && Unescape(p[start..next]) == Unescape(p[start..index]) + [token.b]
            && (next < |p| ==> Complete(p[start..next]))
  {
    var (token, next) := ScanTokenAt(p, index);
    var piece := p[index..next];
    assert p[start..next] == p[start..index] + piece;
    UnescapeConcat(p[start..index], piece);
    assert piece[1..] == [] || piece[2..] == [];
    assert Unescape(piece) == [token.b];
  }

  /** Where a scan for literal runs stands: `segments` are closed, one may be open from `start`. */
  ghost predicate RunScan(p: Bytes, index: nat, segments: seq<Bytes>, start: Option<nat>) {
    && index <= |p|
    && (start.Some? ==> start.value < index && (index < |p| ==> Complete(p[start.value..index])))
    && Runs(ScanTokens(p, 0), []) == UnescapeAll(segments) + Runs(ScanTokens(p, index), OpenRun(p, index, start))
  }

  ghost function OpenRun(p: Bytes, index: nat, start: Option<nat>): Bytes
    requires index <= |p| && (start.Some? ==> start.value < index)
  {
    if start.Some? then Unescape(p[start.value..index]) else []
  }

  lemma {:induction false} RunCloses(p: Bytes, index: nat, segments: seq<Bytes>, start: Option<nat>)
    requires RunScan(p, index, segments, start) && index < |p| && !ScanTokenAt(p, index).0.Lit?
    ensures RunScan(p, ScanTokenAt(p, index).1,
                    if start.Some? then segments + [p[start.value..index]] else segments, None)
  {
    var next := ScanTokenAt(p, index).1;
    var rest := Runs(ScanTokens(p, next), []);
    assert ScanTokens(p, index)[1..] == ScanTokens(p, next);
    if start.Some? {
      var open := OpenRun(p, index, start);
      UnescapeAllAppend(segments, p[start.value..index]);
      Assoc(UnescapeAll(segments), [open], rest);
    } else {
      assert [] + rest == rest;
    }
  }

  lemma {:induction false} RunGrows(p: Bytes, index: nat, segments: seq<Bytes>, start: Option<nat>)
    requires RunScan(p, index, segments, start) && index < |p| && ScanTokenAt(p, index).0.Lit?
    ensures RunScan(p, ScanTokenAt(p, index).1, segments, if start.Some? then start else Some(index))
  {
    var (token, next) := ScanTokenAt(p, index);
    assert ScanTokens(p, index)[1..] == ScanTokens(p, next);
    var from := if start.Some? then start.value else index;
    assert start.None? ==> p[from..index] == [];
    SegmentGrows(p, from, index);
  }

  lemma {:induction false} RunEnds(p: Bytes, segments: seq<Bytes>, start: Option<nat>)
    requires RunScan(p, |p|, segments, start)
    ensures Runs(ScanTokens(p, 0), []) ==
            UnescapeAll(if start.Some? then segments + [p[start.value..]] else segments)
  {
    if start.Some? {
      assert p[start.value..] == p[start.value..|p|];
      UnescapeAllAppend(segments, p[start.value..]);
    }
  }

  method PastWildcard(p: Bytes, index: nat) returns (next: nat)
    requires index < |p| && (p[index] == STAR || p[index] == QUESTION || p[index] == OPEN)
    ensures next == ScanTokenAt(p, index).1
  {
    if p[index] == OPEN {
      var len := CharClassTokenLen(p, index);
      return index + len;
    }
    return index + 1;
  }

  /** The raw literal runs of a pattern, each still escaped. */
  method LiteralSegmentsForPrune(p: Bytes) returns (segments: seq<Bytes>)
    ensures UnescapeAll(segments) == Runs(ScanTokens(p, 0), [])
  {
    segments := [];
    var start: Option<nat> := None;
    var index: nat := 0;
    while index < |p|
      invariant RunScan(p, index, segments, start)
      decreases |p| - index
    {
      if p[index] == STAR || p[index] == QUESTION || p[index] == OPEN {
        RunCloses(p, index, segments, start);
        if start.Some? && index > start.value {
          segments := segments + [p[start.value..index]];
        }
        start := None;
        index := PastWildcard(p, index);
      } else {
        RunGrows(p, index, segments, start);
        if start.None? {
          start := Some(index);
        }
        index := if p[index] == BACKSLASH && index + 1 < |p| then index + 2 else index + 1;
      }
    }
    RunEnds(p, segments, start);
    if start.Some? {
      segments := segments + [p[start.value..]];
    }
  }

  lemma {:induction false} UnescapeAllAppend(segments: seq<Bytes>, s: Bytes)
    ensures UnescapeAll(segments + [s]) == UnescapeAll(segments) + [Unescape(s)]
  {
  }

  method SegmentsMatchInOrder(segments: seq<Bytes>, text: Bytes) returns (result: bool)
    ensures result == InOrder(UnescapeAll(segments), text)
  {
    var remaining := text;
    for k := 0 to |segments|
      invariant InOrder(UnescapeAll(segments), text) == InOrder(UnescapeAll(segments)[k..], remaining)
    {
      var literal := UnescapeSegment(segments[k]);
      LeftmostSuffices(UnescapeAll(segments)[k..], remaining);
      assert UnescapeAll(segments)[k..][1..] == UnescapeAll(segments)[k + 1..];
      var position := FindFrom(remaining, literal, 0);
      if position.None? {
        return false;
      }
      remaining := remaining[position.value + |literal|..];
    }
    return true;
  }

  /** What the fast matcher answers, in terms of its own splitting of the pattern. */
  ghost predicate FastMatches(p: Bytes, text: Bytes) {
    var tokens := ScanTokens(p, 0);
    if AllLiteral(tokens) then Unescape(p) == text
    else if TrailingStar(tokens) then p[..|p| - 1] <= text
    else InOrder(Runs(tokens, []), text) && GlobMatches(p, text)
  }

  method GlobMatchSimd(p: Bytes, text: Bytes) returns (result: bool)
    ensures result == FastMatches(p, text)
  {
    if p == [STAR] {
      assert ScanTokens(p, 0) == [AnyRun] + ScanTokens(p, 1);
      assert ScanTokens(p, 0)[0].AnyRun?;
      assert p[..|p| - 1] == [];
      return true;
    }
    var hasWildcards, prefixLen := ScanPattern(p);
    if !hasWildcards {
      result := PatternEqLiteral(p, text);
      return;
    }
    if prefixLen.Some? {
      return p[..prefixLen.value] <= text;
    }
    var segments := LiteralSegmentsForPrune(p);
    if segments != [] {
      var pruned := SegmentsMatchInOrder(segments, text);
      if !pruned {
        return false;
      }
    }
    result := GlobMatchScalar(p, text);
  }

  // ----- fast against scalar -----

  lemma {:induction false} UnescapeIsLiterals(p: Bytes, i: nat)
    requires i <= |p| && AllLiteral(ScanTokens(p, i))
    ensures Unescape(p[i..]) == LitBytes(ScanTokens(p, i))
    decreases |p| - i
  {
    if i < |p| {
      var (token, next) := ScanTokenAt(p, i);
      assert ScanTokens(p, i)[0] == token && ScanTokens(p, i)[1..] == ScanTokens(p, next);
      UnescapeIsLiterals(p, next);
      assert p[i..][next - i..] == p[next..];
    }
  }

  /** Up to a trailing star the tokens are the unescaped prefix. */
  lemma {:induction false} UnescapeIsPrefix(p: Bytes, i: nat)
    requires i <= |p| && TrailingStar(ScanTokens(p, i))
    ensures i < |p| && Unescape(p[i..|p| - 1]) == LitBytes(ScanTokens(p, i)[..|ScanTokens(p, i)| - 1])
    decreases |p| - i
  {
    var tokens := ScanTokens(p, i);
    var (token, next) := ScanTokenAt(p, i);
    assert tokens[0] == token && tokens[1..] == ScanTokens(p, next);
    if |tokens| == 1 {
      assert next == |p|;
      assert p[i..|p| - 1] == [];
    } else {
      assert tokens[1..][..|tokens| - 2] == tokens[..|tokens| - 1][1..];
      assert tokens[..|tokens| - 1][0].Lit?;
      UnescapeIsPrefix(p, next);
      assert p[i..|p| - 1][next - i..] == p[next..|p| - 1];
    }
  }

  lemma {:induction false} UnescapeShrinks(s: Bytes)
    ensures |Unescape(s)| <= |s|
    ensures Complete(s) && BACKSLASH in s ==> |Unescape(s)| < |s|
    decreases |s|
  {
    if s != [] {
      if s[0] == BACKSLASH && |s| > 1 {
        UnescapeShrinks(s[2..]);
      } else {
        UnescapeShrinks(s[1..]);
      }
    }
  }

  /** Nothing but a whole escape can stand before a trailing star. */
  lemma {:induction false} PrefixComplete(p: Bytes, i: nat)
    requires i <= |p| && TrailingStar(ScanTokens(p, i))
    ensures i < |p| && Complete(p[i..|p| - 1])
    decreases |p| - i
  {
    var tokens := ScanTokens(p, i);
    var (token, next) := ScanTokenAt(p, i);
    assert tokens[0] == token && tokens[1..] == ScanTokens(p, next);
    if |tokens| == 1 {
      assert p[i..|p| - 1] == [];
    } else {
      assert tokens[1..][..|tokens| - 2] == tokens[..|tokens| - 1][1..];
      assert tokens[..|tokens| - 1][0].Lit?;
      PrefixComplete(p, next);
      assert p[i..|p| - 1][next - i..] == p[next..|p| - 1];
    }
  }

  lemma {:induction false} LiteralsThenStar(front: seq<Token>, text: Bytes)
    requires AllLiteral(front)
    ensures Matches(front + [AnyRun], text) <==> LitBytes(front) <= text
  {
    LiteralMatch(front, [AnyRun], text);
    if LitBytes(front) <= text {
      var rest := text[|front|..];
      assert [AnyRun][1..] == [] && rest[|rest|..] == [];
      assert Matches([AnyRun][1..], rest[|rest|..]);
    }
  }

  lemma {:induction false} TrailingStarTokens(tokens: seq<Token>, text: Bytes)
    requires TrailingStar(tokens)
    ensures Matches(tokens, text) <==> LitBytes(tokens[..|tokens| - 1]) <= text
  {
    var front := tokens[..|tokens| - 1];
    assert tokens == front + [AnyRun];
    LiteralsThenStar(front, text);
  }

  /** With a lone trailing star the glob meaning is a prefix test on the unescaped prefix. */
  lemma {:induction false} TrailingStarMeaning(p: Bytes, text: Bytes)
    requires TrailingStar(ScanTokens(p, 0))
    ensures p != [] && (GlobMatches(p, text) <==> Unescape(p[..|p| - 1]) <= text)
  {
    NoBracket(ScanTokens(p, 0));
    ScannedIsMeant(p, 0);
    TrailingStarTokens(ScanTokens(p, 0), text);
    UnescapeIsPrefix(p, 0);
    assert p[0..|p| - 1] == p[..|p| - 1];
  }

  /** A scanner that sees no bracket expression sees what the matcher sees. */
  lemma {:induction false} ScannedIsMeant(p: Bytes, i: nat)
    requires forall k | 0 <= k < |ScanTokens(p, i)| :: !ScanTokens(p, i)[k].AnyByte?
    ensures Tokens(p, i) == ScanTokens(p, i)
    decreases |p| - i
  {
    if i < |p| {
      var (token, next) := ScanTokenAt(p, i);
      var tokens := ScanTokens(p, i);
      assert tokens[0] == token && tokens[1..] == ScanTokens(p, next);
      forall k | 0 <= k < |ScanTokens(p, next)| ensures !ScanTokens(p, next)[k].AnyByte? {
        assert tokens[k + 1] == ScanTokens(p, next)[k];
      }
      assert !tokens[0].AnyByte?;
      ScannedIsMeant(p, next);
    }
  }

  lemma {:induction false} NoBracket(tokens: seq<Token>)
    requires AllLiteral(tokens) || TrailingStar(tokens)
    ensures forall k | 0 <= k < |tokens| :: !tokens[k].AnyByte?
  {
    forall k | 0 <= k < |tokens| ensures !tokens[k].AnyByte? {
      if TrailingStar(tokens) && k < |tokens| - 1 {
        assert tokens[..|tokens| - 1][k].Lit?;
      }
    }
  }

  lemma {:induction false} LiteralMeaning(p: Bytes, text: Bytes)
    requires AllLiteral(ScanTokens(p, 0))
    ensures GlobMatches(p, text) <==> Unescape(p) == text
  {
    var tokens := Tokens(p, 0);
    NoBracket(ScanTokens(p, 0));
    ScannedIsMeant(p, 0);
    UnescapeIsLiterals(p, 0);
    assert p[0..] == p && tokens + [] == tokens;
    LiteralMatch(tokens, [], text);
  }
}
