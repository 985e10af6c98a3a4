/**
 The texts of doubles that senko-proto/src/parser.rs accepts: the decimal notation that `str::parse`
 reads as a floating-point number.
 */
module RespDoubles {
  import opened Common
  import opened Decimal
  import opened Resp

  predicate Ten(s: Bytes) {
    forall i | 0 <= i < |s| :: 48 <= s[i] <= 57
  }

  predicate Signed(s: Bytes) {
    s == [] || s == [43] || s == [45]
  }

  /** `e` or `E`, a sign or none, and digits. */
  predicate RaisedBy(s: Bytes, e: byte, sign: Bytes, digits: Bytes) {
    (e == 101 || e == 69) && Signed(sign) && digits != [] && Ten(digits) && s == [e] + sign + digits
  }

  ghost predicate Exponent(s: Bytes) {
    s == [] || exists e: byte, sign: Bytes, digits: Bytes :: RaisedBy(s, e, sign, digits)
  }

  /** Digits, then a point and digits or nothing, then an exponent or nothing; one digit at least before the exponent. */
  ghost predicate Spelled(whole: Bytes, point: Bytes, fraction: Bytes, exponent: Bytes) {
    && Ten(whole) && Ten(fraction) && whole + fraction != [] && Exponent(exponent)
    && (point == [46] || (point == [] && fraction == []))
  }

  /** `inf`, `infinity` and `nan` in any case. */
  predicate Named(s: Bytes) {
    || (|s| == 3 && s[0] in {105, 73} && s[1] in {110, 78} && s[2] in {102, 70})
    || (|s| == 3 && s[0] in {110, 78} && s[1] in {97, 65} && s[2] in {110, 78})
    || (|s| == 8 && s[0] in {105, 73} && s[1] in {110, 78} && s[2] in {102, 70} && s[3] in {105, 73}
        && s[4] in {110, 78} && s[5] in {105, 73} && s[6] in {116, 84} && s[7] in {121, 89})
  }

  lemma {:induction false} RunOfDigits(s: Bytes, i: nat)
    requires i <= |s|
    ensures var end := DigitRun(s, i); Ten(s[i..end]) && (end < |s| ==> !(48 <= s[end] <= 57))
    decreases |s| - i
  {
    if i < |s| && IsDigit(s[i]) {
      RunOfDigits(s, i + 1);
      var end := DigitRun(s, i);
      assert s[i..end] == [s[i]] + s[i + 1..end];
    }
  }

  lemma {:induction false} RunEndsAt(s: Bytes, i: nat, end: nat)
    requires i <= end <= |s| && Ten(s[i..end]) && (end < |s| ==> !(48 <= s[end] <= 57))
    ensures DigitRun(s, i) == end
    decreases end - i
  {
    if i < end {
      assert s[i] == s[i..end][0] && s[i + 1..end] == s[i..end][1..];
      RunEndsAt(s, i + 1, end);
    }
  }

  lemma {:induction false} SkippedSign(s: Bytes, sign: Bytes, digits: Bytes)
    requires Signed(sign) && digits != [] && Ten(digits) && s == sign + digits
    ensures SkipSign(s) == digits
  {
    if sign == [] {
      assert s == digits;
    } else {
      assert s[0] == sign[0] && s[1..] == digits;
    }
  }

  lemma {:induction false} SignInFront(s: Bytes)
    ensures |SkipSign(s)| <= |s| && Signed(s[..|s| - |SkipSign(s)|]) && s == s[..|s| - |SkipSign(s)|] + SkipSign(s)
  {
    if s != [] && (s[0] == PLUS || s[0] == MINUS) {
      assert s[..1] == [s[0]];
    } else {
      assert s[..0] == [];
    }
  }

  lemma {:induction false} ExponentSpelled(s: Bytes)
    requires IsExponent(s)
    ensures Exponent(s)
  {
    var tail := s[1..];
    var digits := SkipSign(tail);
    SignInFront(tail);
    var sign := tail[..|tail| - |digits|];
    assert s == [s[0]] + tail;
    Assoc([s[0]], sign, digits);
    assert RaisedBy(s, s[0], sign, digits);
  }

  lemma {:induction false} ExponentRead(s: Bytes, e: byte, sign: Bytes, digits: Bytes)
    requires RaisedBy(s, e, sign, digits)
    ensures IsExponent(s)
  {
    assert s == [e] + (sign + digits);
    assert s[1..] == sign + digits;
    SkippedSign(s[1..], sign, digits);
  }

  lemma {:induction false} ExponentIff(s: Bytes)
    requires s != []
    ensures IsExponent(s) <==> Exponent(s)
  {
    if IsExponent(s) {
      ExponentSpelled(s);
    } else if Exponent(s) {
      var e: byte, sign: Bytes, digits: Bytes :| RaisedBy(s, e, sign, digits);
      ExponentRead(s, e, sign, digits);
    }
  }

  lemma {:induction false} NamedIff(s: Bytes)
    ensures Named(s) <==> LowerAll(s) in {[105, 110, 102], [105, 110, 102, 105, 110, 105, 116, 121], [110, 97, 110]}
  {
    var l := LowerAll(s);
    assert |l| == |s| && forall i | 0 <= i < |s| :: l[i] == Lower(s[i]);
    if Named(s) {
      if |s| == 8 {
        assert l == [105, 110, 102, 105, 110, 105, 116, 121];
      } else if s[0] in {105, 73} {
        assert l == [105, 110, 102];
      } else {
        assert l == [110, 97, 110];
      }
    }
  }

  /** The unsigned part of a double. */
  ghost predicate Plain(s: Bytes) {
    exists whole: Bytes, point: Bytes, fraction: Bytes, exponent: Bytes ::
      Spelled(whole, point, fraction, exponent) && s == whole + point + fraction + exponent
  }

  /** Where the digits before the point end, and those behind it. */
  ghost predicate Counted(body: Bytes, whole: nat, end: nat) {
    whole == DigitRun(body, 0) && end == if whole < |body| && body[whole] == 46 then DigitRun(body, whole + 1) else whole
  }

  lemma {:induction false} PlainOf(body: Bytes, whole: nat, end: nat)
    requires Counted(body, whole, end)
    requires (whole > 0 || end > whole + 1) && (end == |body| || Exponent(body[end..]))
    ensures Plain(body)
  {
    var dotted := whole < |body| && body[whole] == 46;
    RunOfDigits(body, 0);
    if dotted {
      RunOfDigits(body, whole + 1);
    }
    var w, point: Bytes, fraction: Bytes := body[0..whole], if dotted then [46] else [], if dotted then body[whole + 1..end] else [];
    Pieces(body, whole, end, dotted);
    assert Spelled(w, point, fraction, body[end..]);
  }

  lemma {:induction false} Pieces(body: Bytes, whole: nat, end: nat, dotted: bool)
    requires if dotted then whole < end <= |body| && body[whole] == 46 else whole == end <= |body|
    ensures body == body[0..whole] + (if dotted then [46] else []) + (if dotted then body[whole + 1..end] else []) + body[end..]
    ensures |body[0..whole]| == whole && (dotted ==> |body[whole + 1..end]| == end - whole - 1) && (end == |body| ==> body[end..] == [])
  {
  }

  lemma {:induction false} PlainIff(body: Bytes, whole: nat, end: nat)
    requires Counted(body, whole, end)
    ensures (whole > 0 || end > whole + 1) && (end == |body| || IsExponent(body[end..])) <==> Plain(body)
  {
    if end < |body| {
      ExponentIff(body[end..]);
    }
    if (whole > 0 || end > whole + 1) && (end == |body| || IsExponent(body[end..])) {
      PlainOf(body, whole, end);
    }
    if Plain(body) {
      var w: Bytes, point: Bytes, fraction: Bytes, exponent: Bytes :|
        Spelled(w, point, fraction, exponent) && body == w + point + fraction + exponent;
      Measured(body, w, point, fraction, exponent, whole, end);
    }
  }

  lemma {:induction false} Measured(body: Bytes, w: Bytes, point: Bytes, fraction: Bytes, exponent: Bytes, whole: nat, end: nat)
    requires Spelled(w, point, fraction, exponent) && body == w + point + fraction + exponent && Counted(body, whole, end)
    ensures (whole > 0 || end > whole + 1) && (end == |body| || IsExponent(body[end..]))
  {
    var n, m := |w|, |w| + |point| + |fraction|;
    Located(body, w, point, fraction, exponent);
    if exponent != [] {
      ExponentIff(exponent);
    }
    MeasuredAt(body, n, m, point == [46], whole, end);
  }

  lemma {:induction false} Located(body: Bytes, w: Bytes, point: Bytes, fraction: Bytes, exponent: Bytes)
    requires body == w + point + fraction + exponent
    ensures var n, m := |w|, |w| + |point| + |fraction|;
            && m + |exponent| == |body| && body[0..n] == w && body[m..] == exponent && body[n + |point|..m] == fraction
            && (point != [] ==> body[n] == point[0])
  {
  }

  lemma {:induction false} MeasuredAt(body: Bytes, n: nat, m: nat, dotted: bool, whole: nat, end: nat)
    requires Counted(body, whole, end) && (if dotted then n < m else n == m) && m <= |body| && Ten(body[0..n])
    requires dotted ==> body[n] == 46 && Ten(body[n + 1..m])
    requires m < |body| ==> IsExponent(body[m..])
    ensures whole == n && end == m
  {
    assert m < |body| ==> body[m] == body[m..][0];
    RunEndsAt(body, 0, n);
    if dotted {
      RunEndsAt(body, n + 1, m);
    }
  }

  ghost predicate SignThen(s: Bytes, sign: Bytes, body: Bytes) {
    Signed(sign) && s == sign + body && (Named(body) || Plain(body))
  }

  lemma {:induction false} UnsignedPart(s: Bytes, sign: Bytes, body: Bytes)
    requires SignThen(s, sign, body)
    ensures SkipSign(s) == body
  {
    StartsUnsigned(body);
    if sign == [] {
      assert s == body;
    } else {
      assert s[0] == sign[0] && s[1..] == body;
    }
  }

  lemma {:induction false} UnsignedDouble(s: Bytes)
    ensures IsDouble(s) <==> Named(SkipSign(s)) || Plain(SkipSign(s))
  {
    var body := SkipSign(s);
    NamedIff(body);
    var whole := DigitRun(body, 0);
    PlainIff(body, whole, if whole < |body| && body[whole] == 46 then DigitRun(body, whole + 1) else whole);
  }

  /** A double is a name or a number in decimal notation, with or without a sign. */
  lemma {:induction false} DoubleIff(s: Bytes)
    ensures IsDouble(s) <==> exists sign: Bytes, body: Bytes :: SignThen(s, sign, body)
  {
    UnsignedDouble(s);
    if IsDouble(s) {
      SignInFront(s);
      assert SignThen(s, s[..|s| - |SkipSign(s)|], SkipSign(s));
    } else if exists sign: Bytes, body: Bytes :: SignThen(s, sign, body) {
      var sign: Bytes, body: Bytes :| SignThen(s, sign, body);
      UnsignedPart(s, sign, body);
    }
  }

  lemma {:induction false} StartsUnsigned(body: Bytes)
    requires Named(body) || Plain(body)
    ensures body != [] && body[0] != 43 && body[0] != 45
  {
    if Plain(body) {
      var w: Bytes, point: Bytes, fraction: Bytes, exponent: Bytes :|
        Spelled(w, point, fraction, exponent) && body == w + point + fraction + exponent;
      assert body[0] == if w != [] then w[0] else point[0];
    }
  }
}
