/**
 What glob patterns mean, byte by byte and without the tokens of the model: the pattern language of
 senko-pubsub/src/pattern.rs in its own characters.
 42 is `*`, 63 `?`, 91 `[`, 93 `]`, 92 the backslash, 45 the dash, 33 `!` and 94 `^`.
 */
module GlobLaws {
  import opened Common
  import opened Glob

  // ----- a pattern is read from front to back -----

  ghost function Moved(end: ClassEnd, n: nat): ClassEnd {
    if end.Closed? then end.(next := end.next + n) else Open
  }

  lemma {:induction false} ClassMoves(x: Bytes, p: Bytes, i: nat)
    requires i <= |p|
    ensures ClassMembers(x + p, |x| + i) == Moved(ClassMembers(p, i), |x|)
    decreases |p| - i
  {
    if i < |p| && p[i] != CLOSE {
      MemberMoves(x, p, i);
      ClassMoves(x, p, MemberAt(p, i).1);
    }
  }

  lemma {:induction false} MemberMoves(x: Bytes, p: Bytes, i: nat)
    requires i < |p|
    ensures MemberAt(x + p, |x| + i) == (MemberAt(p, i).0, |x| + MemberAt(p, i).1)
  {
    assert (x + p)[|x| + i] == p[i];
    assert i + 1 < |p| ==> (x + p)[|x| + i + 1] == p[i + 1];
    assert i + 2 < |p| ==> (x + p)[|x| + i + 2] == p[i + 2];
  }

  lemma {:induction false} TokenMoves(x: Bytes, p: Bytes, i: nat)
    requires i < |p|
    ensures TokenAt(x + p, |x| + i) == (TokenAt(p, i).0, |x| + TokenAt(p, i).1)
  {
    assert (x + p)[|x| + i] == p[i];
    assert i + 1 < |p| ==> (x + p)[|x| + i + 1] == p[i + 1];
    if p[i] == OPEN {
      ClassMoves(x, p, if Negated(p, i) then i + 2 else i + 1);
    }
  }

  lemma {:induction false} TokensMove(x: Bytes, p: Bytes, i: nat)
    ensures Tokens(x + p, |x| + i) == Tokens(p, i)
    decreases |p| - i
  {
    if i < |p| {
      TokenMoves(x, p, i);
      TokensMove(x, p, TokenAt(p, i).1);
    }
  }

  /** The first token and what is left. */
  lemma {:induction false} FirstToken(token: Token, x: Bytes, rest: Bytes, text: Bytes)
    requires x != [] && TokenAt(x + rest, 0) == (token, |x|)
    ensures !token.AnyRun? ==>
              (GlobMatches(x + rest, text) <==> text != [] && Accepts(token, text[0]) && GlobMatches(rest, text[1..]))
    ensures token.AnyRun? ==>
              (GlobMatches(x + rest, text) <==> exists k :: 0 <= k <= |text| && GlobMatches(rest, text[k..]))
  {
    TokensMove(x, rest, 0);
    var tokens := Tokens(x + rest, 0);
    assert tokens == [token] + Tokens(rest, 0) && tokens[1..] == Tokens(rest, 0);
    if token.AnyRun? {
      assert forall k | 0 <= k <= |text| :: GlobMatches(rest, text[k..]) == Matches(tokens[1..], text[k..]);
    }
  }

  // ----- one byte after the other -----

  /** The empty pattern, a star, a question mark, an escaped byte, a lone backslash and a plain byte. */
  lemma {:induction false} EmptyPattern(text: Bytes)
    ensures GlobMatches([], text) <==> text == []
  {
  }

  lemma {:induction false} Star(rest: Bytes, text: Bytes)
    ensures GlobMatches([42] + rest, text) <==> exists k :: 0 <= k <= |text| && GlobMatches(rest, text[k..])
  {
    FirstToken(AnyRun, [42], rest, text);
  }

  lemma {:induction false} QuestionMark(rest: Bytes, text: Bytes)
    ensures GlobMatches([63] + rest, text) <==> text != [] && GlobMatches(rest, text[1..])
  {
    FirstToken(AnyByte, [63], rest, text);
  }

  lemma {:induction false} EscapedByte(c: byte, rest: Bytes, text: Bytes)
    ensures GlobMatches([92, c] + rest, text) <==> text != [] && text[0] == c && GlobMatches(rest, text[1..])
    ensures GlobMatches([92], text) <==> text == [92]
  {
    FirstToken(Lit(c), [92, c], rest, text);
    assert [92] + [] == [92];
    FirstToken(Lit(92), [92], [], text);
    EmptyPattern(text[if text == [] then 0 else 1..]);
  }

  lemma {:induction false} PlainByte(c: byte, rest: Bytes, text: Bytes)
    requires c !in {42, 63, 91, 92}
    ensures GlobMatches([c] + rest, text) <==> text != [] && text[0] == c && GlobMatches(rest, text[1..])
  {
    FirstToken(Lit(c), [c], rest, text);
  }

  // ----- brackets -----

  /** A run of members: bytes, escaped bytes and ranges, with no closing bracket among them. */
  predicate Body(s: Bytes) {
    || s == []
    || (s[0] == 92 && |s| > 1 && Body(s[2..]))
    || (s[0] != 92 && s[0] != 93 && if |s| > 2 && s[1] == 45 && s[2] != 93 then Body(s[3..]) else Body(s[1..]))
  }

  /** It does not start with a mark of negation. */
  predicate Unmarked(s: Bytes) {
    s == [] || (s[0] != 33 && s[0] != 94)
  }

  ghost function RangesOf(s: Bytes): seq<Range>
    requires Body(s)
  {
    if s == [] then []
    else if s[0] == 92 then [Range(s[1], s[1])] + RangesOf(s[2..])
    else if |s| > 2 && s[1] == 45 && s[2] != 93 then [Range(s[0], s[2])] + RangesOf(s[3..])
    else [Range(s[0], s[0])] + RangesOf(s[1..])
  }

  lemma {:induction false} BodyCloses(s: Bytes, rest: Bytes)
    requires Body(s)
    ensures ClassMembers(s + ([93] + rest), 0) == Closed(RangesOf(s), |s| + 1)
    decreases |s|
  {
    var p := s + ([93] + rest);
    if s != [] {
      var n := if s[0] == 92 then 2 else if |s| > 2 && s[1] == 45 && s[2] != 93 then 3 else 1;
      assert |s| > 1 ==> p[1] == s[1];
      assert |s| == 1 ==> p[1] == 93;
      assert |s| > 2 ==> p[2] == s[2];
      assert |s| == 2 ==> p[2] == 93;
      assert MemberAt(p, 0) == (RangesOf(s)[0], n);
      BodyCloses(s[n..], rest);
      assert p == s[..n] + (s[n..] + ([93] + rest));
      ClassMoves(s[..n], s[n..] + ([93] + rest), 0);
    }
  }

  /** A bracket expression with or without mark. */
  lemma {:induction false} Bracket(mark: Bytes, s: Bytes, rest: Bytes, text: Bytes)
    requires Body(s) && ((mark == [] && Unmarked(s)) || mark == [33] || mark == [94])
    ensures GlobMatches([91] + mark + s + [93] + rest, text) <==>
            text != [] && (mark != []) != InRanges(RangesOf(s), text[0]) && GlobMatches(rest, text[1..])
  {
    var head, tail := [91] + mark, s + ([93] + rest);
    var x := [91] + mark + s + [93];
    assert x + rest == head + tail;
    BodyCloses(s, rest);
    ClassMoves(head, tail, 0);
    assert (x + rest)[0] == 91;
    assert tail[0] == if s == [] then 93 else s[0];
    assert (x + rest)[1] == if mark == [] then tail[0] else mark[0];
    assert Negated(x + rest, 0) <==> mark != [];
    FirstToken(Class(mark != [], RangesOf(s)), x, rest, text);
  }

  lemma {:induction false} OneByteText(mark: Bytes, s: Bytes, b: byte)
    requires Body(s) && ((mark == [] && Unmarked(s)) || mark == [33] || mark == [94])
    ensures GlobMatches([91] + mark + s + [93], [b]) <==> (mark != []) != InRanges(RangesOf(s), b)
  {
    Bracket(mark, s, [], [b]);
    assert [91] + mark + s + [93] + [] == [91] + mark + s + [93];
    assert [b][1..] == [];
    EmptyPattern([]);
  }

  /** A bracket expression takes one byte, whatever follows; a mark takes exactly the others. */
  lemma {:induction false} BracketTakesOne(body: Bytes, rest: Bytes, text: Bytes)
    requires Body(body) && Unmarked(body)
    ensures GlobMatches([91] + body + [93] + rest, text) <==>
            text != [] && GlobMatches([91] + body + [93], [text[0]]) && GlobMatches(rest, text[1..])
    ensures forall mark | mark == 33 || mark == 94 ::
              GlobMatches([91, mark] + body + [93] + rest, text) <==>
              text != [] && !GlobMatches([91] + body + [93], [text[0]]) && GlobMatches(rest, text[1..])
  {
    assert [91] + [] == [91];
    Bracket([], body, rest, text);
    if text != [] {
      OneByteText([], body, text[0]);
    }
    forall mark | mark == 33 || mark == 94
      ensures GlobMatches([91, mark] + body + [93] + rest, text) <==>
              text != [] && !GlobMatches([91] + body + [93], [text[0]]) && GlobMatches(rest, text[1..])
    {
      assert [91] + [mark] == [91, mark];
      Bracket([mark], body, rest, text);
    }
  }

  /** A mark takes exactly the bytes that the same plain members without it do not. */
  lemma {:induction false} MarkNegates(mark: byte, body: Bytes, b: byte)
    requires (mark == 33 || mark == 94) && 92 !in body && 93 !in body && (body == [] || (body[0] != 33 && body[0] != 94))
    ensures GlobMatches([91, mark] + body + [93], [b]) <==> !GlobMatches([91] + body + [93], [b])
  {
    PlainBody(body);
    assert [91] + [] == [91] && [91] + [mark] == [91, mark];
    OneByteText([], body, b);
    OneByteText([mark], body, b);
  }

  /** Plain bytes make a body. */
  lemma {:induction false} PlainBody(s: Bytes)
    requires 92 !in s && 93 !in s
    ensures Body(s)
    decreases |s|
  {
    if s != [] {
      PlainBody(s[if |s| > 2 && s[1] == 45 then 3 else 1..]);
    }
  }

  /** So do an escaped byte, a range and a byte in front of one. */
  lemma {:induction false} LongerBodies(s: Bytes, c: byte, lo: byte, hi: byte)
    requires Body(s)
    ensures Body([92, c] + s)
    ensures lo !in {92, 93} && hi != 93 ==> Body([lo, 45, hi] + s)
    ensures lo !in {92, 93} && (s == [] || s[0] != 45) ==> Body([lo] + s)
  {
    assert ([92, c] + s)[2..] == s && ([lo, 45, hi] + s)[3..] == s && ([lo] + s)[1..] == s;
  }

  lemma {:induction false} OneMember(a: byte)
    requires a !in {92, 93}
    ensures Body([a]) && RangesOf([a]) == [Range(a, a)]
    ensures forall b: byte :: InRanges(RangesOf([a]), b) <==> b == a
  {
    var s: Bytes := [a];
    assert s[1..] == [];
    assert RangesOf(s) == [Range(a, a)] + RangesOf(s[1..]);
  }

  lemma {:induction false} FirstRange(r: Range, ranges: seq<Range>, b: byte)
    ensures InRanges([r] + ranges, b) <==> r.lo <= b <= r.hi || InRanges(ranges, b)
  {
    assert r in [r] + ranges;
    if InRanges(ranges, b) {
      var x :| x in ranges && x.lo <= b <= x.hi;
      assert x in [r] + ranges;
    }
  }

  /** Nothing is in an empty bracket expression; a byte, a range and an escaped byte are added one by one. */
  lemma {:induction false} NoMember(b: byte)
    ensures !GlobMatches([91, 93], [b])
  {
    assert [91] + [] + [] + [93] == [91, 93];
    OneByteText([], [], b);
  }

  lemma {:induction false} ByteMember(a: byte, body: Bytes, b: byte)
    requires Body(body) && Unmarked(body) && a !in {33, 92, 93, 94} && (body == [] || body[0] != 45)
    ensures GlobMatches([91, a] + body + [93], [b]) <==> b == a || GlobMatches([91] + body + [93], [b])
  {
    var m: Bytes := [a];
    assert (m + body)[1..] == body && [91, a] == [91] + m;
    AddMember(m, body, b, Range(a, a));
  }

  lemma {:induction false} RangeMember(lo: byte, hi: byte, body: Bytes, b: byte)
    requires Body(body) && Unmarked(body) && lo !in {33, 92, 93, 94} && hi != 93
    ensures GlobMatches([91, lo, 45, hi] + body + [93], [b]) <==> lo <= b <= hi || GlobMatches([91] + body + [93], [b])
  {
    var m: Bytes := [lo, 45, hi];
    assert (m + body)[3..] == body && [91, lo, 45, hi] == [91] + m;
    AddMember(m, body, b, Range(lo, hi));
  }

  lemma {:induction false} EscapedMember(c: byte, body: Bytes, b: byte)
    requires Body(body) && Unmarked(body)
    ensures GlobMatches([91, 92, c] + body + [93], [b]) <==> b == c || GlobMatches([91] + body + [93], [b])
  {
    var m: Bytes := [92, c];
    assert (m + body)[2..] == body && [91, 92, c] == [91] + m;
    AddMember(m, body, b, Range(c, c));
  }

  lemma {:induction false} AddMember(m: Bytes, body: Bytes, b: byte, r: Range)
    requires Body(body) && Unmarked(body) && m != [] && Unmarked(m) && Body(m + body)
    requires RangesOf(m + body) == [r] + RangesOf(body)
    ensures GlobMatches([91] + m + body + [93], [b]) <==> r.lo <= b <= r.hi || GlobMatches([91] + body + [93], [b])
  {
    assert [91] + [] == [91];
    assert [91] + (m + body) + [93] == [91] + m + body + [93];
    OneByteText([], m + body, b);
    OneByteText([], body, b);
    FirstRange(r, RangesOf(body), b);
  }

  /** Two kinds of mark; `[!a]` and `[^a]` take every byte but `a`, `[x-y]` the bytes from `x` to `y`. */
  lemma {:induction false} SmallBrackets(a: byte, b: byte, hi: byte)
    requires a !in {92, 93}
    ensures GlobMatches([91, 33, a, 93], [b]) <==> b != a
    ensures GlobMatches([91, 94, a, 93], [b]) <==> b != a
    ensures a !in {33, 94} ==> (GlobMatches([91, a, 93], [b]) <==> b == a)
    ensures a !in {33, 94} && hi != 93 ==> (GlobMatches([91, a, 45, hi, 93], [b]) <==> a <= b <= hi)
    ensures a !in {33, 94} ==> (GlobMatches([91, a, 45, 93], [b]) <==> b == a || b == 45)
    ensures a !in {33, 94} ==> forall mark | mark == 33 || mark == 94 :: GlobMatches([91, a, mark, 93], [b]) <==> b == a || b == mark
  {
    OneMember(a);
    assert [91] + [33] + [a] + [93] == [91, 33, a, 93] && [91] + [94] + [a] + [93] == [91, 94, a, 93];
    OneByteText([33], [a], b);
    OneByteText([94], [a], b);
    if a !in {33, 94} {
      assert [91] + [] + [a] + [93] == [91, a, 93];
      OneByteText([], [a], b);
      forall c: byte | c == 33 || c == 94 || c == 45
        ensures GlobMatches([91, a, c, 93], [b]) <==> b == a || b == c
      {
        TwoBytes(a, c, b);
      }
      if hi != 93 {
        NoMember(b);
        assert [91, a, 45, hi] + [] + [93] == [91, a, 45, hi, 93] && [91] + [] + [93] == [91, 93];
        RangeMember(a, hi, [], b);
      }
    }
  }

  lemma {:induction false} TwoBytes(a: byte, c: byte, b: byte)
    requires a !in {33, 92, 93, 94} && c !in {92, 93}
    ensures GlobMatches([91, a, c, 93], [b]) <==> b == a || b == c
  {
    var s: Bytes := [a, c];
    OneMember(c);
    assert s[1..] == [c];
    assert Body(s) && RangesOf(s) == [Range(a, a)] + RangesOf([c]);
    FirstRange(Range(a, a), RangesOf([c]), b);
    assert [91] + [] + s + [93] == [91, a, c, 93];
    OneByteText([], s, b);
  }

  /** Without a closing bracket nothing matches. */
  lemma {:induction false} UnclosedBracket(s: Bytes, text: Bytes)
    requires 93 !in s
    ensures !GlobMatches([91] + s, text)
  {
    var p := [91] + s;
    NeverCloses(p, 1);
    NeverCloses(p, 2);
    assert p + [] == p;
    assert TokenAt(p, 0) == (Unclosed, |p|);
    FirstToken(Unclosed, p, [], text);
  }

  lemma {:induction false} NeverCloses(p: Bytes, i: nat)
    requires 93 !in p
    ensures ClassMembers(p, i) == Open
    decreases |p| - i
  {
    if i < |p| {
      assert p[i] in p;
      NeverCloses(p, MemberAt(p, i).1);
    }
  }
}
