/**
 When the fast matcher of senko-pubsub/src/pattern.rs gives the answer of the scalar one: for every
 pattern, an exact condition that can be worked out from the pattern alone.
 */
module GlobExact {
  import opened Common
  import opened Glob
  import opened GlobFast

  /** The literals `r` stand one after the other inside the literals `s`. */
  ghost predicate Embedded(r: seq<Bytes>, s: seq<Bytes>)
    decreases |r| + |s|
  {
    || r == []
    || (s != [] && (|| Embedded(r, s[1..])
                    || exists at: nat :: StandsAt(s[0], at, r[0]) && Embedded(r[1..], [s[0][at + |r[0]|..]] + s[1..])))
  }

  /** The literals that pruning looks for lie inside those the matcher asks for. */
  ghost predicate PruneFits(p: Bytes) {
    Embedded(Runs(ScanTokens(p, 0), []), Runs(Tokens(p, 0), []))
  }

  lemma {:induction false} EmbeddedSelf(s: seq<Bytes>)
    ensures Embedded(s, s)
    decreases |s|
  {
    if s != [] {
      EmbeddedSelf(s[1..]);
      var left := [s[0][0 + |s[0]|..]] + s[1..];
      assert left[1..] == s[1..];
      assert Embedded(s[1..], left);
      assert StandsAt(s[0], 0, s[0]);
    }
  }

  lemma {:induction false} EmbeddedInOrder(r: seq<Bytes>, s: seq<Bytes>, text: Bytes)
    requires Embedded(r, s) && InOrder(s, text)
    ensures InOrder(r, text)
    decreases |r| + |s|
  {
    if r != [] {
      var k: nat :| StandsAt(text, k, s[0]) && InOrder(s[1..], text[k + |s[0]|..]);
      if Embedded(r, s[1..]) {
        EmbeddedInOrder(r, s[1..], text[k + |s[0]|..]);
        InOrderWider(r, text, k + |s[0]|);
      } else {
        var at: nat :| StandsAt(s[0], at, r[0]) && Embedded(r[1..], [s[0][at + |r[0]|..]] + s[1..]);
        EmbeddedFirst(r, s, text, k, at);
      }
    }
  }

  lemma {:induction false} SliceOfSlice(text: Bytes, k: nat, m: nat, i: nat, j: nat)
    requires k + m <= |text| && i <= j <= m
    ensures text[k..k + m][i..j] == text[k + i..k + j] && text[k..k + m][j..] == text[k + j..][..m - j]
  {
    var s := text[k..k + m];
    forall x | 0 <= x < j - i ensures s[i..j][x] == text[k + i..k + j][x] {
      assert s[i + x] == text[k + i + x];
    }
    forall x | 0 <= x < m - j ensures s[j..][x] == text[k + j..][..m - j][x] {
      assert s[j + x] == text[k + j + x];
    }
  }

  lemma {:induction false} EmbeddedFirst(r: seq<Bytes>, s: seq<Bytes>, text: Bytes, k: nat, at: nat)
    requires r != [] && s != [] && StandsAt(text, k, s[0]) && InOrder(s[1..], text[k + |s[0]|..])
    requires StandsAt(s[0], at, r[0]) && Embedded(r[1..], [s[0][at + |r[0]|..]] + s[1..])
    ensures InOrder(r, text)
    decreases |r| + |s|, 0
  {
    var n := at + |r[0]|;
    var left, rest := s[0][n..], text[k + n..];
    SliceOfSlice(text, k, |s[0]|, at, n);
    assert rest[|left|..] == text[k + |s[0]|..];
    InOrderFrom(left, s[1..], rest, 0);
    EmbeddedInOrder(r[1..], [left] + s[1..], rest);
    InOrderFrom(r[0], r[1..], text, k + at);
    assert [r[0]] + r[1..] == r;
  }

  lemma {:induction false} AgreeingScannersFit(p: Bytes)
    requires ScannersAgree(p)
    ensures PruneFits(p)
  {
    RunsOfShapes(Tokens(p, 0), []);
    EmbeddedSelf(Runs(Tokens(p, 0), []));
  }

  // ----- texts that match and escape the pruning -----

  predicate NonEmptyAll(q: seq<Bytes>) {
    forall k | 0 <= k < |q| :: q[k] != []
  }

  lemma {:induction false} RunsNonEmpty(tokens: seq<Token>, open: Bytes)
    ensures NonEmptyAll(Runs(tokens, open))
    decreases |tokens|
  {
    if tokens != [] {
      RunsNonEmpty(tokens[1..], if tokens[0].Lit? then open + [tokens[0].b] else []);
    }
  }

  predicate EndsIn(w: Bytes, s: Bytes) {
    |s| <= |w| && w[|w| - |s|..] == s
  }

  /**
   Whether some text of these tokens, put behind `open`, does not hold the literals `q` in order.  Each
   single-byte token is tried with every byte it accepts, looking for the first literal to come; a star
   can always break off what has begun.
   */
  predicate CanAvoid(q: seq<Bytes>, open: Bytes, tokens: seq<Token>)
    decreases |tokens|
  {
    && q != []
    && (|| tokens == []
        || if tokens[0].AnyRun? then CanAvoid(q, [], tokens[1..])
           else exists b | 0 <= b < 256 :: Accepts(tokens[0], b) && AvoidsWith(q, open + [b], tokens))
  }

  predicate AvoidsWith(q: seq<Bytes>, w: Bytes, tokens: seq<Token>)
    requires q != [] && tokens != []
    decreases |tokens|, 0
  {
    if EndsIn(w, q[0]) then CanAvoid(q[1..], [], tokens[1..]) else CanAvoid(q, w, tokens[1..])
  }

  /** The first literal to come does not stand in what has been read. */
  ghost predicate Clear(q: seq<Bytes>, open: Bytes) {
    NonEmptyAll(q) && (q != [] ==> forall at: nat :: !StandsAt(open, at, q[0]))
  }

  /** A text that matches, behind which the literals are not in order. */
  ghost predicate Avoids(q: seq<Bytes>, open: Bytes, tokens: seq<Token>) {
    exists text: Bytes :: Escapes(q, open, tokens, text)
  }

  ghost predicate Escapes(q: seq<Bytes>, open: Bytes, tokens: seq<Token>, text: Bytes) {
    Matches(tokens, text) && !InOrder(q, open + text)
  }

  lemma {:induction false} StandsBehind(a: Bytes, b: Bytes, at: nat, s: Bytes)
    requires StandsAt(a + b, at, s) && |a| <= at
    ensures StandsAt(b, at - |a|, s) && (a + b)[at + |s|..] == b[at - |a| + |s|..]
  {
    assert (a + b)[at..at + |s|] == b[at - |a|..at - |a| + |s|];
  }

  lemma {:induction false} StandsInFront(a: Bytes, b: Bytes, at: nat, s: Bytes)
    requires at + |s| <= |a|
    ensures StandsAt(a + b, at, s) <==> StandsAt(a, at, s)
  {
    assert (a + b)[at..at + |s|] == a[at..at + |s|];
  }

  lemma {:induction false} StandsByte(data: Bytes, at: nat, s: Bytes, k: nat)
    requires k < |s|
    ensures StandsAt(data, at, s) ==> data[at + k] == s[k]
  {
    if StandsAt(data, at, s) {
      assert data[at..at + |s|][k] == data[at + k];
    }
  }

  /** Bytes in front in which the first literal neither stands nor begins make no difference. */
  lemma {:induction false} FrontIsDead(q: seq<Bytes>, front: Bytes, text: Bytes)
    requires q != [] && forall at: nat | at < |front| :: !StandsAt(front + text, at, q[0])
    ensures InOrder(q, front + text) <==> InOrder(q, text)
  {
    if InOrder(q, front + text) {
      var at: nat :| StandsAt(front + text, at, q[0]) && InOrder(q[1..], (front + text)[at + |q[0]|..]);
      StandsBehind(front, text, at, q[0]);
      InOrderFrom(q[0], q[1..], text, at - |front|);
      assert [q[0]] + q[1..] == q;
    }
    if InOrder(q, text) {
      assert (front + text)[|front|..] == text;
      InOrderWider(q, front + text, |front|);
    }
  }

  // ----- a star breaks off -----

  function Pad(c: byte, n: nat): Bytes {
    seq(n, i => c)
  }

  /** A literal cannot end or begin among bytes that are neither its last nor its first, nor reach across as many as it has. */
  lemma {:induction false} PadIsDead(s: Bytes, open: Bytes, c: byte, text: Bytes, at: nat)
    requires s != [] && c != s[0] && c != s[|s| - 1] && at < |open| + |s|
    requires forall k: nat :: !StandsAt(open, k, s)
    ensures !StandsAt(open + Pad(c, |s|) + text, at, s)
  {
    var all := open + Pad(c, |s|) + text;
    if at >= |open| {
      StandsByte(all, at, s, 0);
    } else if at + |s| > |open| {
      StandsByte(all, at, s, |s| - 1);
    } else {
      Assoc(open, Pad(c, |s|), text);
      StandsInFront(open, Pad(c, |s|) + text, at, s);
    }
  }

  function OtherByte(a: byte, b: byte): (c: byte)
    ensures c != a && c != b
  {
    if a != 0 && b != 0 then 0 else if a != 1 && b != 1 then 1 else 2
  }

  lemma {:induction false} StarBreaksOff(q: seq<Bytes>, open: Bytes, text: Bytes) returns (pad: Bytes)
    requires q != [] && Clear(q, open)
    ensures InOrder(q, open + (pad + text)) <==> InOrder(q, text)
  {
    var s := q[0];
    var c := OtherByte(s[0], s[|s| - 1]);
    pad := Pad(c, |s|);
    forall at: nat | at < |open + pad| ensures !StandsAt((open + pad) + text, at, s) {
      PadIsDead(s, open, c, text, at);
    }
    FrontIsDead(q, open + pad, text);
    Assoc(open, pad, text);
  }

  lemma {:induction false} AvoidsStar(q: seq<Bytes>, open: Bytes, tokens: seq<Token>)
    requires q != [] && Clear(q, open) && tokens != [] && tokens[0].AnyRun?
    ensures Avoids(q, open, tokens) <==> Avoids(q, [], tokens[1..])
  {
    if Avoids(q, open, tokens) {
      var text: Bytes :| Escapes(q, open, tokens, text);
      var k: nat :| k <= |text| && Matches(tokens[1..], text[k..]);
      assert (open + text)[|open| + k..] == text[k..] && [] + text[k..] == text[k..];
      if InOrder(q, text[k..]) {
        InOrderWider(q, open + text, |open| + k);
      }
      assert Escapes(q, [], tokens[1..], text[k..]);
    }
    if Avoids(q, [], tokens[1..]) {
      var text: Bytes :| Escapes(q, [], tokens[1..], text);
      assert [] + text == text;
      var pad := StarBreaksOff(q, open, text);
      assert (pad + text)[|pad|..] == text;
      assert Matches(tokens, pad + text);
      assert Escapes(q, open, tokens, pad + text);
    }
  }

  // ----- a single byte -----

  /** Behind the first place where the literal ends, the next one is looked for. */
  lemma {:induction false} FoundAtEnd(q: seq<Bytes>, w: Bytes, text: Bytes)
    requires q != [] && EndsIn(w, q[0]) && forall at: nat | at + |q[0]| < |w| :: !StandsAt(w, at, q[0])
    ensures InOrder(q, w + text) <==> InOrder(q[1..], text)
  {
    var at := |w| - |q[0]|;
    StandsInFront(w, text, at, q[0]);
    forall j: nat | j < at ensures !StandsAt(w + text, j, q[0]) {
      StandsInFront(w, text, j, q[0]);
    }
    var first := FindFrom(w + text, q[0], 0);
    assert first == Some(at);
    LeftmostSuffices(q, w + text);
    assert (w + text)[|w|..] == text;
  }

  lemma {:induction false} OneMoreByte(q: seq<Bytes>, open: Bytes, b: byte)
    requires q != [] && Clear(q, open)
    ensures forall at: nat | at + |q[0]| < |open + [b]| :: !StandsAt(open + [b], at, q[0])
    ensures !EndsIn(open + [b], q[0]) ==> Clear(q, open + [b])
  {
    var w := open + [b];
    forall at: nat | at + |q[0]| < |w| ensures !StandsAt(w, at, q[0]) {
      StandsInFront(open, [b], at, q[0]);
    }
  }

  lemma {:induction false} EscapesByte(q: seq<Bytes>, open: Bytes, tokens: seq<Token>, b: byte, text: Bytes)
    requires q != [] && Clear(q, open) && tokens != [] && !tokens[0].AnyRun?
    ensures Escapes(q, open, tokens, [b] + text) <==>
            Accepts(tokens[0], b) && if EndsIn(open + [b], q[0]) then Escapes(q[1..], [], tokens[1..], text)
                                     else Escapes(q, open + [b], tokens[1..], text)
  {
    assert ([b] + text)[1..] == text && [] + text == text;
    Assoc(open, [b], text);
    if EndsIn(open + [b], q[0]) {
      OneMoreByte(q, open, b);
      FoundAtEnd(q, open + [b], text);
    }
  }

  lemma {:induction false} AvoidsByte(q: seq<Bytes>, open: Bytes, tokens: seq<Token>)
    requires q != [] && Clear(q, open) && tokens != [] && !tokens[0].AnyRun?
    ensures Avoids(q, open, tokens) <==>
            exists b | 0 <= b < 256 :: Accepts(tokens[0], b) &&
                       if EndsIn(open + [b], q[0]) then Avoids(q[1..], [], tokens[1..]) else Avoids(q, open + [b], tokens[1..])
  {
    if Avoids(q, open, tokens) {
      var text: Bytes :| Escapes(q, open, tokens, text);
      assert text == [text[0]] + text[1..];
      EscapesByte(q, open, tokens, text[0], text[1..]);
    }
    forall b: byte | Accepts(tokens[0], b) &&
                     if EndsIn(open + [b], q[0]) then Avoids(q[1..], [], tokens[1..]) else Avoids(q, open + [b], tokens[1..])
      ensures Avoids(q, open, tokens)
    {
      var text: Bytes :| if EndsIn(open + [b], q[0]) then Escapes(q[1..], [], tokens[1..], text)
                         else Escapes(q, open + [b], tokens[1..], text);
      EscapesByte(q, open, tokens, b, text);
    }
  }

  /** The trial decides whether there is such a text. */
  lemma {:induction false} CanAvoidIff(q: seq<Bytes>, open: Bytes, tokens: seq<Token>)
    requires Clear(q, open)
    ensures CanAvoid(q, open, tokens) <==> Avoids(q, open, tokens)
    decreases |tokens|
  {
    if q != [] {
      if tokens == [] {
        assert open + [] == open;
        assert Escapes(q, open, tokens, []);
      } else if tokens[0].AnyRun? {
        CanAvoidIff(q, [], tokens[1..]);
        AvoidsStar(q, open, tokens);
      } else {
        forall b: byte
          ensures AvoidsWith(q, open + [b], tokens) <==>
                  if EndsIn(open + [b], q[0]) then Avoids(q[1..], [], tokens[1..]) else Avoids(q, open + [b], tokens[1..])
        {
          OneMoreByte(q, open, b);
          CanAvoidIff(if EndsIn(open + [b], q[0]) then q[1..] else q, if EndsIn(open + [b], q[0]) then [] else open + [b], tokens[1..]);
        }
        AvoidsByte(q, open, tokens);
      }
    }
  }

  // ----- exactness -----

  /** Pruning never asks for what a match can do without. */
  predicate PruneKeeps(p: Bytes) {
    !CanAvoid(Runs(ScanTokens(p, 0), []), [], Tokens(p, 0))
  }

  /** When the fast matcher is right: pruning keeps all matches, and no escape stands before a lone trailing star. */
  predicate FastFits(p: Bytes) {
    PruneKeeps(p) && (TrailingStar(ScanTokens(p, 0)) ==> BACKSLASH !in p[..|p| - 1])
  }

  lemma {:induction false} PruneKeepsIff(p: Bytes)
    ensures PruneKeeps(p) <==> forall text: Bytes | GlobMatches(p, text) :: InOrder(Runs(ScanTokens(p, 0), []), text)
  {
    var q := Runs(ScanTokens(p, 0), []);
    RunsNonEmpty(ScanTokens(p, 0), []);
    CanAvoidIff(q, [], Tokens(p, 0));
    forall text: Bytes ensures Escapes(q, [], Tokens(p, 0), text) <==> GlobMatches(p, text) && !InOrder(q, text) {
      assert [] + text == text;
    }
  }

  lemma {:induction false} PruneIsSound(p: Bytes, text: Bytes)
    requires PruneKeeps(p) && GlobMatches(p, text)
    ensures InOrder(Runs(ScanTokens(p, 0), []), text)
  {
    PruneKeepsIff(p);
  }

  /** Literals that lie inside those the matcher asks for are always kept. */
  lemma {:induction false} EmbeddedIsKept(p: Bytes)
    requires PruneFits(p)
    ensures PruneKeeps(p)
  {
    forall text: Bytes | GlobMatches(p, text) ensures InOrder(Runs(ScanTokens(p, 0), []), text) {
      MatchContainsRuns(Tokens(p, 0), text, []);
      assert [] + text == text;
      EmbeddedInOrder(Runs(ScanTokens(p, 0), []), Runs(Tokens(p, 0), []), text);
    }
    PruneKeepsIff(p);
  }

  lemma {:induction false} FastIsExact(p: Bytes, text: Bytes)
    requires FastFits(p)
    ensures FastMatches(p, text) == GlobMatches(p, text)
  {
    if AllLiteral(ScanTokens(p, 0)) {
      LiteralMeaning(p, text);
    } else if TrailingStar(ScanTokens(p, 0)) {
      TrailingStarMeaning(p, text);
      UnescapePlain(p[..|p| - 1]);
    } else if GlobMatches(p, text) {
      PruneIsSound(p, text);
    }
  }

  /** An escape before a lone trailing star: the text that it means is not found. */
  lemma {:induction false} EscapeIsMissed(p: Bytes)
    requires TrailingStar(ScanTokens(p, 0)) && BACKSLASH in p[..|p| - 1]
    ensures exists text: Bytes :: GlobMatches(p, text) && !FastMatches(p, text)
  {
    var text := Unescape(p[..|p| - 1]);
    TrailingStarMeaning(p, text);
    PrefixComplete(p, 0);
    assert p[0..|p| - 1] == p[..|p| - 1];
    UnescapeShrinks(p[..|p| - 1]);
    var tokens := ScanTokens(p, 0);
    assert !tokens[|tokens| - 1].Lit?;
    assert GlobMatches(p, text) && !FastMatches(p, text);
  }

  /** Without brackets the scanners see the matcher's literals, and nothing is lost. */
  lemma {:induction false} SimpleIsKept(p: Bytes)
    requires AllLiteral(ScanTokens(p, 0)) || TrailingStar(ScanTokens(p, 0))
    ensures PruneKeeps(p)
  {
    NoBracket(ScanTokens(p, 0));
    ScannedIsMeant(p, 0);
    EmbeddedSelf(Runs(Tokens(p, 0), []));
    EmbeddedIsKept(p);
  }

  /** A pattern that does not fit misses a match. */
  lemma {:induction false} MatchIsMissed(p: Bytes)
    requires !FastFits(p)
    ensures exists text: Bytes :: GlobMatches(p, text) && !FastMatches(p, text)
  {
    if PruneKeeps(p) {
      EscapeIsMissed(p);
    } else {
      PruneKeepsIff(p);
      var text: Bytes :| GlobMatches(p, text) && !InOrder(Runs(ScanTokens(p, 0), []), text);
      if AllLiteral(ScanTokens(p, 0)) || TrailingStar(ScanTokens(p, 0)) {
        SimpleIsKept(p);
      }
      assert !FastMatches(p, text);
    }
  }

  /** For every pattern: no text tells the two matchers apart if and only if the pattern fits. */
  lemma {:induction false} FastIsExactIff(p: Bytes)
    ensures (forall text: Bytes :: FastMatches(p, text) == GlobMatches(p, text)) <==> FastFits(p)
  {
    if FastFits(p) {
      forall text: Bytes ensures FastMatches(p, text) == GlobMatches(p, text) {
        FastIsExact(p, text);
      }
    } else {
      MatchIsMissed(p);
    }
  }

  // ----- where every wildcard has a byte to spare -----

  ghost predicate Spare(token: Token, q: seq<Bytes>, x: byte) {
    Accepts(token, x) && forall k | 0 <= k < |q| :: x !in q[k]
  }

  /** Every bracket expression and question mark accepts a byte that none of the literals has. */
  ghost predicate Fillable(tokens: seq<Token>, q: seq<Bytes>) {
    forall k | 0 <= k < |tokens| && !tokens[k].Lit? && !tokens[k].AnyRun? :: exists x: byte :: Spare(tokens[k], q, x)
  }

  /** A byte that the first literal does not have breaks off what has begun. */
  lemma {:induction false} SpareBreaksOff(q: seq<Bytes>, open: Bytes, x: byte, tokens: seq<Token>)
    requires q != [] && Clear(q, open) && x !in q[0] && CanAvoid(q, [], tokens)
    ensures !EndsIn(open + [x], q[0]) && CanAvoid(q, open + [x], tokens)
  {
    var w := open + [x];
    assert w[|w| - 1] == x;
    OneMoreByte(q, open, x);
    CanAvoidIff(q, [], tokens);
    var text: Bytes :| Escapes(q, [], tokens, text);
    assert [] + text == text;
    forall at: nat | at < |w| ensures !StandsAt(w + text, at, q[0]) {
      if at + |q[0]| <= |w| {
        StandsInFront(w, text, at, q[0]);
      } else {
        StandsByte(w + text, at, q[0], |w| - 1 - at);
      }
    }
    FrontIsDead(q, w, text);
    assert Escapes(q, w, tokens, text);
    CanAvoidIff(q, w, tokens);
  }

  /** The literal bytes in front of the first wildcard. */
  function LeadingLiterals(tokens: seq<Token>): Bytes {
    if tokens != [] && tokens[0].Lit? then [tokens[0].b] + LeadingLiterals(tokens[1..]) else []
  }

  /** The runs behind the first wildcard. */
  function LaterRuns(tokens: seq<Token>): seq<Bytes> {
    if tokens == [] then [] else if tokens[0].Lit? then LaterRuns(tokens[1..]) else Runs(tokens[1..], [])
  }

  lemma {:induction false} RunsSplit(tokens: seq<Token>, w: Bytes)
    ensures Runs(tokens, w) == NonEmpty(w + LeadingLiterals(tokens)) + LaterRuns(tokens)
    decreases |tokens|
  {
    assert w + [] == w;
    if tokens != [] && tokens[0].Lit? {
      RunsSplit(tokens[1..], w + [tokens[0].b]);
      Assoc(w, [tokens[0].b], LeadingLiterals(tokens[1..]));
    }
  }

  lemma {:induction false} EmbeddedLater(q: seq<Bytes>, open: Bytes, s: seq<Bytes>)
    requires Embedded(q, s)
    ensures Embedded(q, NonEmpty(open) + s) && Embedded(q, [open] + s)
  {
    assert ([open] + s)[1..] == s && NonEmpty([]) + s == s;
  }

  /** A literal that ends an open run leaves the rest of the run to the next ones. */
  lemma {:induction false} EmbeddedFound(q: seq<Bytes>, w: Bytes, tokens: seq<Token>)
    requires q != [] && q[0] != [] && EndsIn(w, q[0]) && Embedded(q[1..], Runs(tokens, []))
    ensures Embedded(q, Runs(tokens, w))
  {
    var ahead, later := LeadingLiterals(tokens), LaterRuns(tokens);
    RunsSplit(tokens, w);
    RunsSplit(tokens, []);
    assert [] + ahead == ahead;
    if ahead == [] {
      assert NonEmpty(ahead) + later == later;
      EmbeddedLater(q[1..], ahead, later);
    }
    var runs, at := [w + ahead] + later, |w| - |q[0]|;
    StandsInFront(w, ahead, at, q[0]);
    assert runs[0][at + |q[0]|..] == ahead && runs[1..] == later;
    assert StandsAt(runs[0], at, q[0]) && Embedded(q[1..], [runs[0][at + |q[0]|..]] + runs[1..]);
  }

  lemma {:induction false} FillableRest(q: seq<Bytes>, tokens: seq<Token>)
    requires tokens != [] && Fillable(tokens, q)
    ensures Fillable(tokens[1..], q) && (q != [] ==> Fillable(tokens[1..], q[1..]))
  {
    forall k | 0 <= k < |tokens[1..]| && !tokens[1..][k].Lit? && !tokens[1..][k].AnyRun?
      ensures exists x: byte :: Spare(tokens[1..][k], q, x) && (q != [] ==> Spare(tokens[1..][k], q[1..], x))
    {
      var x: byte :| Spare(tokens[k + 1], q, x);
      assert Spare(tokens[1..][k], q, x);
      if q != [] {
        forall j | 0 <= j < |q[1..]| ensures x !in q[1..][j] {
          assert q[1..][j] == q[j + 1];
        }
      }
    }
  }

  /** With a byte to spare everywhere, literals that do not lie inside the matcher's can be avoided. */
  lemma {:induction false} FillableAvoids(q: seq<Bytes>, open: Bytes, tokens: seq<Token>)
    requires Clear(q, open) && Fillable(tokens, q) && !Embedded(q, Runs(tokens, open))
    ensures CanAvoid(q, open, tokens)
    decreases |tokens|
  {
    if tokens != [] {
      FillableRest(q, tokens);
      if tokens[0].Lit? {
        var w := open + [tokens[0].b];
        OneMoreByte(q, open, tokens[0].b);
        if EndsIn(w, q[0]) {
          if Embedded(q[1..], Runs(tokens[1..], [])) {
            EmbeddedFound(q, w, tokens[1..]);
          }
          FillableAvoids(q[1..], [], tokens[1..]);
        } else {
          FillableAvoids(q, w, tokens[1..]);
        }
        assert AvoidsWith(q, w, tokens);
      } else {
        if Embedded(q, Runs(tokens[1..], [])) {
          EmbeddedLater(q, open, Runs(tokens[1..], []));
        }
        FillableAvoids(q, [], tokens[1..]);
        if !tokens[0].AnyRun? {
          var x: byte :| Spare(tokens[0], q, x);
          SpareBreaksOff(q, open, x, tokens[1..]);
          assert AvoidsWith(q, open + [x], tokens);
        }
      }
    }
  }

  /** Then the condition is a comparison of literals: what pruning asks for lies inside what the matcher asks for. */
  lemma {:induction false} FillableKeepsIff(p: Bytes)
    requires Fillable(Tokens(p, 0), Runs(ScanTokens(p, 0), []))
    ensures PruneKeeps(p) <==> PruneFits(p)
  {
    if PruneFits(p) {
      EmbeddedIsKept(p);
    } else {
      RunsNonEmpty(ScanTokens(p, 0), []);
      FillableAvoids(Runs(ScanTokens(p, 0), []), [], Tokens(p, 0));
    }
  }

  /** `\\a*` means every text that starts with `a`, but the fast matcher looks for a backslash. */
  lemma {:induction false} EscapedPrefixFails()
    ensures var p: Bytes := [BACKSLASH, 97, STAR]; GlobMatches(p, [97]) && !FastMatches(p, [97])
  {
    var p: Bytes := [BACKSLASH, 97, STAR];
    assert ScanTokens(p, 2) == [AnyRun] + ScanTokens(p, 3);
    var tokens := ScanTokens(p, 0);
    assert tokens == [Lit(97), AnyRun];
    assert tokens[..1] == [Lit(97)] && TrailingStar(tokens) && tokens[1].AnyRun?;
    TrailingStarMeaning(p, [97]);
    assert p[..2] == [BACKSLASH, 97] && [BACKSLASH, 97][2..] == [];
    assert Unescape(p[..2]) == [97];
  }

  lemma {:induction false} PlainFits(p: Bytes)
    requires BACKSLASH !in p
    ensures FastFits(p)
  {
    PlainPatternsAgree(p);
    AgreeingScannersFit(p);
    EmbeddedIsKept(p);
  }

  /** For a pattern without backslashes no condition is left. */
  lemma {:induction false} FastIsExactPlain(p: Bytes, text: Bytes)
    requires BACKSLASH !in p
    ensures FastMatches(p, text) == GlobMatches(p, text)
  {
    PlainFits(p);
    FastIsExact(p, text);
  }

  /** `[A-\\\\]z]`: to the matcher one bracket expression, whose range ends in a backslash. */
  const LOSING: Bytes := [OPEN, 65, DASH, BACKSLASH, BACKSLASH, CLOSE, 122, CLOSE]

  lemma {:induction false} LosingMembers()
    ensures ClassMembers(LOSING, 1) == Closed([Range(65, BACKSLASH), Range(CLOSE, CLOSE), Range(122, 122)], 8)
  {
    assert ClassMembers(LOSING, 7) == Closed([], 8);
    assert ClassMembers(LOSING, 6) == Closed([Range(122, 122)], 8);
    assert ClassMembers(LOSING, 4) == Closed([Range(CLOSE, CLOSE), Range(122, 122)], 8);
  }

  lemma {:induction false} LosingTokens()
    ensures Tokens(LOSING, 0) == [Class(false, [Range(65, BACKSLASH), Range(CLOSE, CLOSE), Range(122, 122)])]
  {
    LosingMembers();
    assert Tokens(LOSING, 0) == [TokenAt(LOSING, 0).0] + Tokens(LOSING, 8);
  }

  lemma {:induction false} LosingMatches()
    ensures GlobMatches(LOSING, [65]) && Accepts(Tokens(LOSING, 0)[0], 65)
  {
    LosingTokens();
    var token := Tokens(LOSING, 0)[0];
    assert token.ranges[0] in token.ranges && InRanges(token.ranges, 65);
    assert Tokens(LOSING, 0)[1..] == [] && [65][1..] == [];
  }

  /** To the scanners it is a bracket expression and the literals `z]`. */
  lemma {:induction false} LosingScan()
    ensures ScanTokens(LOSING, 0) == [AnyByte, Lit(122), Lit(CLOSE)]
  {
    assert ScanClassEnd(LOSING, 5) == 6 && ScanClassEnd(LOSING, 3) == 6 && ScanClassEnd(LOSING, 1) == 6;
    assert ScanTokens(LOSING, 7) == [Lit(CLOSE)] + ScanTokens(LOSING, 8);
    assert ScanTokens(LOSING, 6) == [Lit(122), Lit(CLOSE)];
  }

  lemma {:induction false} LosingRuns()
    ensures Runs(ScanTokens(LOSING, 0), []) == [[122, CLOSE]]
  {
    LosingScan();
    var tokens := [AnyByte, Lit(122), Lit(CLOSE)];
    assert tokens[1..] == [Lit(122), Lit(CLOSE)] && tokens[1..][1..] == [Lit(CLOSE)] && tokens[1..][1..][1..] == [];
    assert [] + [122] == [122] && [122] + [CLOSE] == [122, CLOSE];
    assert Runs(tokens[1..][1..], [122]) == Runs(tokens[1..][1..][1..], [122, CLOSE]);
    assert NonEmpty([]) + Runs(tokens[1..], []) == Runs(tokens[1..], []);
  }

  /** A match is lost, and every wildcard of the pattern has a byte to spare. */
  lemma {:induction false} PruningCanLoseMatches()
    ensures GlobMatches(LOSING, [65]) && !FastMatches(LOSING, [65])
    ensures !ScannersAgree(LOSING) && Fillable(Tokens(LOSING, 0), Runs(ScanTokens(LOSING, 0), []))
  {
    LosingMatches();
    LosingTokens();
    LosingScan();
    LosingRuns();
    var scan := ScanTokens(LOSING, 0);
    assert scan[0].AnyByte? && !scan[2].AnyRun?;
    assert forall at: nat :: !StandsAt([65], at, [122, CLOSE]);
    assert Spare(Tokens(LOSING, 0)[0], [[122, CLOSE]], 65);
    assert |scan| == 3 && |Tokens(LOSING, 0)| == 1;
  }

  /** `[A-\\]x` is cut differently, a range and the literal `x` or one open bracket, but nothing is pruned. */
  lemma {:induction false} DifferentCutsCanFit()
    ensures var p: Bytes := [OPEN, 65, DASH, BACKSLASH, CLOSE, 120]; !ScannersAgree(p) && PruneFits(p)
  {
    var p: Bytes := [OPEN, 65, DASH, BACKSLASH, CLOSE, 120];
    assert ScanClassEnd(p, 5) == 6 && ScanClassEnd(p, 3) == 6 && ScanClassEnd(p, 1) == 6;
    assert ScanTokens(p, 0) == [AnyByte] + ScanTokens(p, 6);
    assert Runs([AnyByte], []) == [] by {
      assert [AnyByte][1..] == [];
    }
    assert ClassMembers(p, 4) == Closed([], 5);
    assert ClassMembers(p, 1) == Closed([Range(65, BACKSLASH)], 5);
    assert Tokens(p, 0) == [TokenAt(p, 0).0] + Tokens(p, 5) && |Tokens(p, 5)| > 0;
  }
}
