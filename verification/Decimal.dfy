/**
 Decimal integers as Rust prints and parses them: `itoa`/`to_string` on one side,
 `str::parse` for `i64`, `isize` and `usize` on the other.
 */
module Decimal {
  import opened Common

  const PLUS: byte := 43
  const MINUS: byte := 45
  const ZERO: byte := 48

  predicate IsDigit(b: byte) {
    48 <= b <= 57
  }

  predicate AllDigits(s: Bytes) {
    forall i | 0 <= i < |s| :: IsDigit(s[i])
  }

  function Digits(n: nat): (s: Bytes)
    ensures s != [] && AllDigits(s)
    decreases n
  {
    if n < 10 then [48 + n] else Digits(n / 10) + [48 + n % 10]
  }

  function Print(v: int): (s: Bytes)
    ensures s != []
  {
    if v < 0 then [MINUS] + Digits(-v) else Digits(v)
  }

  function Value(s: Bytes): nat
    requires AllDigits(s)
  {
    if s == [] then 0 else Value(s[..|s| - 1]) * 10 + (s[|s| - 1] - 48)
  }

  /** `str::parse` for an unsigned type holding values up to `max`. */
  function ParseUnsigned(s: Bytes, max: nat): (r: Option<nat>)
    ensures r.Some? ==> r.value <= max
  {
    var digits := if s != [] && s[0] == PLUS then s[1..] else s;
    if digits == [] || !AllDigits(digits) || Value(digits) > max then None else Some(Value(digits))
  }

  /** `str::parse` for a signed type holding values from `-max - 1` to `max`. */
  function ParseSigned(s: Bytes, max: nat): (r: Option<int>)
    ensures r.Some? ==> 0 - max - 1 <= r.value <= max
  {
    if s != [] && s[0] == MINUS then
      var digits := s[1..];
      if digits == [] || !AllDigits(digits) || Value(digits) > max + 1 then None else Some(0 - Value(digits))
    else
      match ParseUnsigned(s, max)
      case Some(v) => Some(v)
      case None => None
  }

  function ParseI64(s: Bytes): (r: Option<int>)
    ensures r.Some? ==> 0 - I64 <= r.value < I64
  {
    ParseSigned(s, I64 - 1)
  }

  lemma {:induction false} ValueOfDigits(n: nat)
    ensures Value(Digits(n)) == n
    decreases n
  {
    if n >= 10 {
      ValueOfDigits(n / 10);
      var s := Digits(n);
      assert s[..|s| - 1] == Digits(n / 10);
    } else {
      assert Digits(n)[..0] == [];
    }
  }

  /** Parsing what was printed gives the number back. */
  lemma {:induction false} ParsePrinted(v: int, max: nat)
    requires 0 - max - 1 <= v <= max
    ensures ParseSigned(Print(v), max) == Some(v)
  {
    if v < 0 {
      ValueOfDigits(-v);
      assert Print(v)[1..] == Digits(-v);
    } else {
      ParsePrintedUnsigned(v, max);
      assert IsDigit(Digits(v)[0]);
    }
  }

  lemma {:induction false} ParsePrintedUnsigned(v: nat, max: nat)
    requires v <= max
    ensures ParseUnsigned(Digits(v), max) == Some(v)
  {
    ValueOfDigits(v);
    assert IsDigit(Digits(v)[0]);
  }

  /** Distinct numbers print differently. */
  lemma {:induction false} PrintInjective(a: int, b: int)
    requires Print(a) == Print(b)
    ensures a == b
  {
    var max := if a < 0 then -a else a;
    var max' := if b < 0 then -b else b;
    ParsePrinted(a, max + max');
    ParsePrinted(b, max + max');
  }

  // ----- numbers digit by digit -----

  lemma {:induction false} DigitsExtend(n: nat, d: nat)
    requires n > 0 && d < 10
    ensures Digits(n * 10 + d) == Digits(n) + [48 + d]
  {
    assert (n * 10 + d) / 10 == n && (n * 10 + d) % 10 == d;
  }

  /** A number is printed in base ten, highest digit first and without leading zeros, a negative one behind a dash. */
  lemma {:induction false} PrintedByDigits(n: nat, d: nat)
    requires d < 10
    ensures Print(d) == [48 + d]
    ensures n > 0 ==> Print(n * 10 + d) == Print(n) + [48 + d]
    ensures n > 0 ==> Print(0 - n) == [45] + Print(n)
  {
    if n > 0 {
      DigitsExtend(n, d);
    }
  }

  /** What a run of digits denotes. */
  lemma {:induction false} ValueByDigits(s: Bytes, d: nat)
    requires AllDigits(s) && d < 10
    ensures Value([]) == 0 && AllDigits(s + [48 + d]) && Value(s + [48 + d]) == Value(s) * 10 + d
  {
    var all := s + [48 + d];
    assert all[..|all| - 1] == s;
  }

  /** Digits, with or without a sign in front, are read as what they denote, if it fits 64 bits. */
  lemma {:induction false} NumberRead(s: Bytes)
    requires s != [] && forall i | 0 <= i < |s| :: 48 <= s[i] <= 57
    ensures AllDigits(s)
    ensures ParseI64(s) == ParseI64([43] + s) == if Value(s) < 0x8000_0000_0000_0000 then Some(Value(s)) else None
    ensures ParseI64([45] + s) == if Value(s) <= 0x8000_0000_0000_0000 then Some(0 - Value(s)) else None
    ensures forall max: nat :: ParseUnsigned(s, max) == ParseUnsigned([43] + s, max) == if Value(s) <= max then Some(Value(s)) else None
  {
    assert ([43] + s)[1..] == s && ([45] + s)[1..] == s;
  }

  /** And nothing else is read. */
  lemma {:induction false} OnlyNumbersRead(s: Bytes, max: nat)
    ensures ParseI64(s).Some? ==>
              var digits := if s != [] && (s[0] == 43 || s[0] == 45) then s[1..] else s;
              digits != [] && forall i | 0 <= i < |digits| :: 48 <= digits[i] <= 57
    ensures ParseUnsigned(s, max).Some? ==>
              var digits := if s != [] && s[0] == 43 then s[1..] else s;
              digits != [] && forall i | 0 <= i < |digits| :: 48 <= digits[i] <= 57
  {
  }

  function DecimalLenOf(n: nat): nat
    decreases n
  {
    if n < 10 then 1 else 1 + DecimalLenOf(n / 10)
  }

  lemma {:induction false} DigitsLength(n: nat)
    ensures |Digits(n)| == DecimalLenOf(n)
    decreases n
  {
    if n >= 10 { DigitsLength(n / 10); }
  }

  /** `decimal_len` of the serializer: divide until one digit is left. */
  method DecimalLen(value: nat) returns (digits: nat)
    ensures digits == |Digits(value)|
  {
    DigitsLength(value);
    var rest := value;
    digits := 1;
    while rest >= 10
      invariant digits - 1 + DecimalLenOf(rest) == DecimalLenOf(value)
    {
      rest := rest / 10;
      digits := digits + 1;
    }
  }
}
