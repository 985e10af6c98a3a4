/**
 The RESP wire format in its own bytes: what every input that starts with a given byte parses to, and
 what every frame is written as (senko-proto/src/parser.rs and serializer.rs).  13 and 10 end a line.
 */
module RespLaws {
  import opened Common
  import opened Decimal
  import opened Resp
  import opened RespChunks
  import opened RespCodec
  import opened RespTree

  // ----- lines -----

  /** The line behind the first byte. */
  lemma {:induction false} FirstLine(prefix: byte, line: Bytes, rest: Bytes)
    requires 13 !in line
    ensures var x := [prefix] + line + [13, 10] + rest;
            && FindCrlf(x, 1) == Some((line, |line| + 3)) && x != [] && x[0] == prefix
            && x[|line| + 3..] == rest && |x| == |line| + 3 + |rest|
  {
    LineParses([prefix], line, rest);
  }

  lemma {:induction false} Simple(line: Bytes, rest: Bytes, inline: bool)
    requires 13 !in line
    ensures ParseFrame([43] + line + [13, 10] + rest, inline) == Complete(SimpleString(line), |line| + 3)
    ensures ParseFrame([45] + line + [13, 10] + rest, inline) == Complete(SimpleError(line), |line| + 3)
    ensures ParseFrame([40] + line + [13, 10] + rest, inline) == Complete(BigNumber(line), |line| + 3)
  {
    FirstLine(43, line, rest);
    FirstLine(45, line, rest);
    FirstLine(40, line, rest);
  }

  lemma {:induction false} Integers(line: Bytes, rest: Bytes, inline: bool)
    requires 13 !in line
    ensures ParseFrame([58] + line + [13, 10] + rest, inline) ==
            if ParseI64(line).Some? then Complete(Integer(ParseI64(line).value), |line| + 3) else Failed(InvalidNumber)
  {
    FirstLine(58, line, rest);
  }

  lemma {:induction false} Doubles(line: Bytes, rest: Bytes, inline: bool)
    requires 13 !in line
    ensures ParseFrame([44] + line + [13, 10] + rest, inline) ==
            if IsDouble(line) then Complete(Double(line), |line| + 3) else Failed(InvalidNumber)
  {
    FirstLine(44, line, rest);
  }

  /** A null, the two booleans, and what is none of them. */
  lemma {:induction false} Fixed(x: Bytes, rest: Bytes, inline: bool)
    ensures ParseFrame([95, 13, 10] + rest, inline) == Complete(Null, 3)
    ensures ParseFrame([35, 116, 13, 10] + rest, inline) == Complete(Boolean(true), 4)
    ensures ParseFrame([35, 102, 13, 10] + rest, inline) == Complete(Boolean(false), 4)
    ensures |x| >= 2 && x[..2] != [13, 10] ==> ParseFrame([95] + x, inline) == Failed(InvalidNull)
    ensures |x| >= 3 && x[..3] != [116, 13, 10] && x[..3] != [102, 13, 10] ==>
              ParseFrame([35] + x, inline) == Failed(InvalidBoolean)
  {
    assert ([95, 13, 10] + rest)[..3] == [95, 13, 10];
    assert ([35, 116, 13, 10] + rest)[..4] == [35, 116, 13, 10] && ([35, 102, 13, 10] + rest)[..4] == [35, 102, 13, 10];
    if |x| >= 2 && x[..2] != [13, 10] {
      assert ([95] + x)[..3] == [95] + x[..2];
      assert ([95] + x)[..3][1..] == x[..2] && [95, 13, 10][1..] == [13, 10];
    }
    if |x| >= 3 && x[..3] != [116, 13, 10] && x[..3] != [102, 13, 10] {
      assert ([35] + x)[..4] == [35] + x[..3];
      assert ([35] + x)[..4][1..] == x[..3] && [35, 116, 13, 10][1..] == [116, 13, 10] && [35, 102, 13, 10][1..] == [102, 13, 10];
    }
  }

  // ----- lengths and payloads -----

  /** A bulk string: a negative length is a null, any other the number of bytes before the closing line break. */
  lemma {:induction false} Bulk(line: Bytes, rest: Bytes, inline: bool)
    requires 13 !in line
    ensures var x, len := [36] + line + [13, 10] + rest, ParseI64(line);
            && (len.None? ==> ParseFrame(x, inline) == Failed(InvalidNumber))
            && (len.Some? && len.value < 0 ==> ParseFrame(x, inline) == Complete(Null, |line| + 3))
            && (len.Some? && len.value >= 0 && |line| + len.value + 5 < 0x1_0000_0000_0000_0000 ==>
                  var total := |line| + len.value + 5;
                  if |x| < total then ParseFrame(x, inline) == Incomplete(total)
                  else if rest[len.value..len.value + 2] != [13, 10] then ParseFrame(x, inline) == Failed(MissingTrailingCrlf)
                  else ParseFrame(x, inline) == Complete(BulkString(rest[..len.value]), total))
  {
    var x := [36] + line + [13, 10] + rest;
    FirstLine(36, line, rest);
    DispatchBlocks(x, inline);
    BulkBehind(x, line, |line| + 3, rest);
  }

  lemma {:induction false} BulkBehind(x: Bytes, line: Bytes, header: nat, rest: Bytes)
    requires FindCrlf(x, 1) == Some((line, header)) && x[header..] == rest
    ensures var len := ParseI64(line);
            && (len.None? ==> ParseBulk(x) == Failed(InvalidNumber))
            && (len.Some? && len.value < 0 ==> ParseBulk(x) == Complete(Null, header))
            && (len.Some? && len.value >= 0 && header + len.value + 2 < 0x1_0000_0000_0000_0000 ==>
                  var total := header + len.value + 2;
                  if |x| < total then ParseBulk(x) == Incomplete(total)
                  else if rest[len.value..len.value + 2] != [13, 10] then ParseBulk(x) == Failed(MissingTrailingCrlf)
                  else ParseBulk(x) == Complete(BulkString(rest[..len.value]), total))
  {
    var len := ParseI64(line);
    if len.Some? && len.value >= 0 {
      Payload(x, header, len.value, rest);
    }
  }

  lemma {:induction false} Payload(x: Bytes, header: nat, len: nat, rest: Bytes)
    requires header <= |x| && x[header..] == rest
    ensures header + len + 2 <= |x| ==> len + 2 <= |rest| && x[header..header + len] == rest[..len] && x[header + len..header + len + 2] == rest[len..len + 2]
  {
    if header + len + 2 <= |x| {
      assert x[header..][..len] == x[header..header + len] && x[header..][len..len + 2] == x[header + len..header + len + 2];
    }
  }

  /** A blob error: as a bulk string, but its length has no sign. */
  lemma {:induction false} Blob(line: Bytes, rest: Bytes, inline: bool)
    requires 13 !in line
    ensures var x, len := [33] + line + [13, 10] + rest, ParseUnsigned(line, 0xffff_ffff_ffff_ffff);
            && (len.None? ==> ParseFrame(x, inline) == Failed(InvalidNumber))
            && (len.Some? && |line| + len.value + 5 < 0x1_0000_0000_0000_0000 ==>
                  var total := |line| + len.value + 5;
                  if |x| < total then ParseFrame(x, inline) == Incomplete(total)
                  else if rest[len.value..len.value + 2] != [13, 10] then ParseFrame(x, inline) == Failed(MissingTrailingCrlf)
                  else ParseFrame(x, inline) == Complete(BlobError(rest[..len.value]), total))
  {
    var x := [33] + line + [13, 10] + rest;
    FirstLine(33, line, rest);
    DispatchBlocks(x, inline);
    BlobBehind(x, line, |line| + 3, rest);
  }

  lemma {:induction false} BlobBehind(x: Bytes, line: Bytes, header: nat, rest: Bytes)
    requires FindCrlf(x, 1) == Some((line, header)) && x[header..] == rest
    ensures var len := ParseUnsigned(line, 0xffff_ffff_ffff_ffff);
            && (len.None? ==> ParseBlobError(x) == Failed(InvalidNumber))
            && (len.Some? && header + len.value + 2 < 0x1_0000_0000_0000_0000 ==>
                  var total := header + len.value + 2;
                  if |x| < total then ParseBlobError(x) == Incomplete(total)
                  else if rest[len.value..len.value + 2] != [13, 10] then ParseBlobError(x) == Failed(MissingTrailingCrlf)
                  else ParseBlobError(x) == Complete(BlobError(rest[..len.value]), total))
  {
    var len := ParseUnsigned(line, 0xffff_ffff_ffff_ffff);
    if len.Some? {
      Payload(x, header, len.value, rest);
    }
  }

  /** A verbatim string: three bytes of format, a colon, and the text. */
  lemma {:induction false} Verbatim(line: Bytes, rest: Bytes, inline: bool)
    requires 13 !in line
    ensures var x, len := [61] + line + [13, 10] + rest, ParseUnsigned(line, 0xffff_ffff_ffff_ffff);
            && (len.None? ==> ParseFrame(x, inline) == Failed(InvalidNumber))
            && (len.Some? && |line| + len.value + 5 < 0x1_0000_0000_0000_0000 ==>
                  var total := |line| + len.value + 5;
                  if |x| < total then ParseFrame(x, inline) == Incomplete(total)
                  else if len.value < 4 then ParseFrame(x, inline) == Failed(VerbatimTooShort)
                  else if rest[len.value..len.value + 2] != [13, 10] then ParseFrame(x, inline) == Failed(MissingTrailingCrlf)
                  else if rest[3] != 58 then ParseFrame(x, inline) == Failed(VerbatimMissingSeparator)
                  else ParseFrame(x, inline) == Complete(VerbatimString(rest[..3], rest[4..len.value]), total))
  {
    var x := [61] + line + [13, 10] + rest;
    FirstLine(61, line, rest);
    DispatchBlocks(x, inline);
    VerbatimBehind(x, line, |line| + 3, rest);
  }

  lemma {:induction false} VerbatimBehind(x: Bytes, line: Bytes, header: nat, rest: Bytes)
    requires FindCrlf(x, 1) == Some((line, header)) && x[header..] == rest
    ensures var len := ParseUnsigned(line, 0xffff_ffff_ffff_ffff);
            && (len.None? ==> ParseVerbatim(x) == Failed(InvalidNumber))
            && (len.Some? && header + len.value + 2 < 0x1_0000_0000_0000_0000 ==>
                  var total := header + len.value + 2;
                  if |x| < total then ParseVerbatim(x) == Incomplete(total)
                  else if len.value < 4 then ParseVerbatim(x) == Failed(VerbatimTooShort)
                  else if rest[len.value..len.value + 2] != [13, 10] then ParseVerbatim(x) == Failed(MissingTrailingCrlf)
                  else if rest[3] != 58 then ParseVerbatim(x) == Failed(VerbatimMissingSeparator)
                  else ParseVerbatim(x) == Complete(VerbatimString(rest[..3], rest[4..len.value]), total))
  {
    var len := ParseUnsigned(line, 0xffff_ffff_ffff_ffff);
    if len.Some? {
      Payload(x, header, len.value, rest);
      if 4 <= len.value && len.value + 2 <= |rest| {
        Format(rest, len.value);
      }
    }
  }

  lemma {:induction false} Format(rest: Bytes, len: nat)
    requires 4 <= len <= |rest|
    ensures rest[..len][3] == rest[3] && rest[..len][..3] == rest[..3] && rest[..len][4..] == rest[4..len]
  {
  }

  // ----- aggregates -----

  /** Arrays, maps, sets and pushes: a negative length is a null, any other the number of frames to come, for maps of pairs. */
  lemma {:induction false} Aggregates(prefix: byte, line: Bytes, rest: Bytes, inline: bool)
    requires prefix in {42, 37, 126, 62} && 13 !in line
    ensures var x, len := [prefix] + line + [13, 10] + rest, ParseI64(line);
            && (len.None? ==> ParseFrame(x, inline) == Failed(InvalidNumber))
            && (len.Some? && len.value < 0 ==> ParseFrame(x, inline) == Complete(Null, |line| + 3))
            && (len.Some? && len.value >= 0 ==>
                  match Many(ElementParser, rest, if prefix == 37 then 2 * len.value else len.value)
                  case Parsed(total) =>
                    ParseFrame(x, inline) == Complete(
                      if prefix == 42 then Array(Aggregate(ArrayKind, len.value, rest[..total], RespEncoding))
                      else if prefix == 37 then Map(Aggregate(MapKind, len.value, rest[..total], RespEncoding))
                      else if prefix == 126 then Set(Aggregate(SetKind, len.value, rest[..total], RespEncoding))
                      else Push(Aggregate(PushKind, len.value, rest[..total], RespEncoding)), |line| + 3 + total)
                  case Short(wanted) => ParseFrame(x, inline) == Incomplete(|line| + 3 + wanted)
                  case Bad(error) => ParseFrame(x, inline) == Failed(error))
  {
    var x := [prefix] + line + [13, 10] + rest;
    FirstLine(prefix, line, rest);
    FrameOfAggregate(x, inline);
    AggregateBehind(ElementParser, prefix, x, line, |line| + 3, rest);
  }

  lemma {:induction false} AggregateBehind(p: Parser, prefix: byte, x: Bytes, line: Bytes, header: nat, rest: Bytes)
    requires prefix in {42, 37, 126, 62} && FindCrlf(x, 1) == Some((line, header)) && x[header..] == rest
    ensures var s, len := ParseAggregate(p, x, KindOf(prefix)), ParseI64(line);
            && (len.None? ==> s == Failed(InvalidNumber))
            && (len.Some? && len.value < 0 ==> s == Complete(Null, header))
            && (len.Some? && len.value >= 0 ==>
                  match Many(p, rest, if prefix == 37 then 2 * len.value else len.value)
                  case Parsed(total) =>
                    s == Complete(
                      if prefix == 42 then Array(Aggregate(ArrayKind, len.value, rest[..total], RespEncoding))
                      else if prefix == 37 then Map(Aggregate(MapKind, len.value, rest[..total], RespEncoding))
                      else if prefix == 126 then Set(Aggregate(SetKind, len.value, rest[..total], RespEncoding))
                      else Push(Aggregate(PushKind, len.value, rest[..total], RespEncoding)), header + total)
                  case Short(wanted) => s == Incomplete(header + wanted)
                  case Bad(error) => s == Failed(error))
  {
    var len := ParseI64(line);
    if len.Some? && len.value >= 0 {
      assert Expected(KindOf(prefix), len.value) == if prefix == 37 then 2 * len.value else len.value;
      ElementsBehind(p, x, header, KindOf(prefix), len.value, rest);
    }
  }

  lemma {:induction false} ElementsBehind(p: Parser, x: Bytes, header: nat, kind: AggregateKind, len: nat, rest: Bytes)
    requires 1 <= header <= |x| && x[header..] == rest
    ensures ByHeader(p, x, kind, Some((Some(len), header))) ==
            match Many(p, rest, Expected(kind, len))
            case Parsed(total) => Complete(AggregateFrame(Aggregate(kind, len, rest[..total], RespEncoding)), header + total)
            case Short(wanted) => Incomplete(header + wanted)
            case Bad(error) => Failed(error)
  {
    var run := Many(p, rest, Expected(kind, len));
    if run.Parsed? {
      TailSlice(x, header, run.total);
    }
  }

  /** So many frames in a row, none of them an inline command. */
  lemma {:induction false} FramesInARow(x: Bytes, count: nat)
    ensures Many(ElementParser, x, 0) == Parsed(0)
    ensures match ParseFrame(x, false)
            case Incomplete(needed) => Many(ElementParser, x, count + 1) == Short(needed)
            case Failed(error) => Many(ElementParser, x, count + 1) == Bad(error)
            case Complete(_, used) =>
              Many(ElementParser, x, count + 1) ==
              match Many(ElementParser, x[used..], count)
              case Parsed(total) => Parsed(used + total)
              case Short(wanted) => Short(used + wanted)
              case Bad(error) => Bad(error)
  {
    assert ElementParser(x) == ParseFrame(x, false);
  }

  /** A negative length is a null for bulk strings and all aggregates. */
  lemma {:induction false} NullByLength(prefix: byte, v: int, rest: Bytes, inline: bool)
    requires prefix in {36, 42, 37, 126, 62} && -0x8000_0000_0000_0000 <= v < 0
    ensures ParseFrame([prefix] + Print(v) + [13, 10] + rest, inline) == Complete(Null, 3 + |Print(v)|)
  {
    PrintIsNoCr(v);
    ParsePrinted(v, I64 - 1);
    if prefix == 36 {
      Bulk(Print(v), rest, inline);
    } else {
      Aggregates(prefix, Print(v), rest, inline);
    }
  }

  // ----- what is left -----

  /** Nothing, a line break alone, and bytes that start no frame. */
  lemma {:induction false} Others(b: byte, x: Bytes, inline: bool)
    requires b !in {33, 35, 36, 37, 40, 42, 43, 44, 45, 58, 61, 62, 95, 126}
    ensures ParseFrame([], inline) == Incomplete(1)
    ensures b == 13 || b == 10 ==> ParseFrame([b] + x, inline) == Failed(UnexpectedLineBreak)
    ensures b != 13 && b != 10 ==> ParseFrame([b] + x, false) == Failed(UnsupportedPrefix)
    ensures b != 13 && b != 10 ==> ParseFrame([b] + x, true) == ParseInline([b] + x)
  {
  }

  /** An inline command: the line without the blanks around it, and how many words it has. */
  lemma {:induction false} Inline(line: Bytes, rest: Bytes)
    requires line != [] && 13 !in line && line[0] !in {10, 33, 35, 36, 37, 40, 42, 43, 44, 45, 58, 61, 62, 95, 126}
    ensures Parse(line + [13, 10] + rest) ==
            if Trim(line) == [] then Failed(EmptyInline)
            else Complete(Array(Aggregate(ArrayKind, |Words(Trim(line))|, Trim(line), InlineEncoding)), |line| + 2)
  {
    var x := line + [13, 10] + rest;
    assert x == [line[0]] + (line[1..] + [13, 10] + rest);
    Others(line[0], line[1..] + [13, 10] + rest, true);
    assert [] + line + Crlf + rest == x;
    LineParses([], line, rest);
  }

  /** As long as the line is open, two more bytes are asked for; a short null or boolean asks for its size. */
  lemma {:induction false} OpenLines(x: Bytes, inline: bool)
    requires x != []
    ensures x[0] in {33, 36, 37, 40, 42, 43, 44, 45, 58, 61, 62, 126} && 13 !in x[1..] ==> ParseFrame(x, inline) == Incomplete(|x| + 2)
    ensures x[0] == 95 && |x| < 3 ==> ParseFrame(x, inline) == Incomplete(3)
    ensures x[0] == 35 && |x| < 4 ==> ParseFrame(x, inline) == Incomplete(4)
  {
    if 13 !in x[1..] {
      NoCrFound(x, 1);
      if x[0] in {37, 42, 62, 126} {
        FrameOfAggregate(x, inline);
      }
    }
  }

  lemma {:induction false} NoCrFound(x: Bytes, start: nat)
    requires start <= |x| && 13 !in x[start..]
    ensures FindCr(x, start) == None
    decreases |x| - start
  {
    if start < |x| {
      assert x[start] == x[start..][0] && x[start + 1..] == x[start..][1..];
      NoCrFound(x, start + 1);
    }
  }

  // ----- words -----

  predicate Blanks(s: Bytes) {
    forall i | 0 <= i < |s| :: s[i] == 32 || s[i] == 9
  }

  predicate NoBlank(s: Bytes) {
    forall i | 0 <= i < |s| :: s[i] != 32 && s[i] != 9
  }

  /** Blanks at both ends go, and no others. */
  lemma {:induction false} Trimmed(left: Bytes, core: Bytes, right: Bytes)
    requires Blanks(left) && Blanks(right)
    requires core == [] || (NoBlank([core[0]]) && NoBlank([core[|core| - 1]]))
    ensures Trim(left + core + right) == core
  {
    assert left + core + right == left + (core + right);
    LeftBlanks(left, core + right);
    if core == [] {
      assert core + right == right && right + [] == right;
      LeftBlanks(right, []);
      LeftBlanks(left, right);
    } else {
      assert [core[0]][0] == core[0] && [core[|core| - 1]][0] == core[|core| - 1];
      assert (core + right)[0] == core[0];
      RightBlanks(core, right);
    }
  }

  lemma {:induction false} LeftBlanks(left: Bytes, s: Bytes)
    requires Blanks(left)
    ensures TrimLeft(left + s) == TrimLeft(s)
    decreases |left|
  {
    if left == [] {
      assert left + s == s;
    } else {
      assert (left + s)[1..] == left[1..] + s;
      LeftBlanks(left[1..], s);
    }
  }

  lemma {:induction false} RightBlanks(core: Bytes, right: Bytes)
    requires Blanks(right) && (core == [] || !IsBlank(core[|core| - 1]))
    ensures TrimRight(core + right) == core
    decreases |right|
  {
    var s := core + right;
    if right == [] {
      assert s == core;
    } else {
      assert s[..|s| - 1] == core + right[..|right| - 1] && s[|s| - 1] == right[|right| - 1];
      RightBlanks(core, right[..|right| - 1]);
    }
  }

  /** Words are what stands between blanks. */
  lemma {:induction false} WordByWord(b: byte, word: Bytes, s: Bytes)
    requires (b == 32 || b == 9) && word != [] && NoBlank(word)
    ensures Words([]) == [] && Words(word) == [word]
    ensures Words([b] + s) == Words(s) && Words(word + [b] + s) == [word] + Words(s)
  {
    assert ([b] + s)[1..] == s;
    BlankFirst(b, s);
    WordFirst(word, []);
    assert word + [] == word;
    var tail := [b] + s;
    assert word + [b] + s == word + tail;
    WordFirst(word, tail);
  }

  lemma {:induction false} BlankFirst(b: byte, s: Bytes)
    requires b == 32 || b == 9
    ensures TrimLeft([b] + s) == TrimLeft(s) && Words([b] + s) == Words(s)
  {
    assert ([b] + s)[1..] == s;
  }

  lemma {:induction false} WordFirst(word: Bytes, tail: Bytes)
    requires word != [] && NoBlank(word) && (tail == [] || tail[0] == 32 || tail[0] == 9)
    ensures Words(word + tail) == [word] + Words(tail)
  {
    var s := word + tail;
    EndOfWord(word, tail);
    assert s[0] == word[0] && TrimLeft(s) == s;
    assert s[..|word|] == word && s[|word|..] == tail;
  }

  lemma {:induction false} EndOfWord(word: Bytes, tail: Bytes)
    requires NoBlank(word) && (tail == [] || tail[0] == 32 || tail[0] == 9)
    ensures WordEnd(word + tail) == |word|
    decreases |word|
  {
    var s := word + tail;
    if word == [] {
      assert s == tail;
    } else {
      assert s[1..] == word[1..] + tail;
      EndOfWord(word[1..], tail);
    }
  }

  // ----- what is written -----

  /** Every frame in its bytes. */
  lemma {:induction false} Written(v: Bytes, w: Bytes, n: int, flag: bool)
    ensures Serialize(SimpleString(v)) == [43] + v + [13, 10]
    ensures Serialize(SimpleError(v)) == [45] + v + [13, 10]
    ensures Serialize(BigNumber(v)) == [40] + v + [13, 10]
    ensures Serialize(Integer(n)) == [58] + Print(n) + [13, 10]
    ensures Serialize(Null) == [95, 13, 10]
    ensures Serialize(Boolean(flag)) == [35, if flag then 116 else 102, 13, 10]
    ensures Serialize(BulkString(v)) == [36] + Print(|v|) + [13, 10] + v + [13, 10]
    ensures Serialize(BlobError(v)) == [33] + Print(|v|) + [13, 10] + v + [13, 10]
    ensures var payload := v + [58] + w;
            Serialize(VerbatimString(v, w)) == [61] + Print(|payload|) + [13, 10] + payload + [13, 10]
  {
  }

  lemma {:induction false} WrittenAggregate(len: nat, data: Bytes)
    ensures Serialize(Array(Aggregate(ArrayKind, len, data, RespEncoding))) == [42] + Print(len) + [13, 10] + data
    ensures Serialize(Map(Aggregate(MapKind, len, data, RespEncoding))) == [37] + Print(len) + [13, 10] + data
    ensures Serialize(Set(Aggregate(SetKind, len, data, RespEncoding))) == [126] + Print(len) + [13, 10] + data
    ensures Serialize(Push(Aggregate(PushKind, len, data, RespEncoding))) == [62] + Print(len) + [13, 10] + data
    ensures Serialize(Array(Aggregate(ArrayKind, len, data, InlineEncoding))) == data + [13, 10]
  {
  }

  /** Nested values in their bytes: children one after the other behind the header of their parent. */
  lemma {:induction false} EncodedChildren(first: Value, others: seq<Value>)
    requires ValidValue(first) && forall c | c in others :: ValidValue(c)
    ensures EncodeAll([]) == [] && EncodeAll([first] + others) == Encode(first) + EncodeAll(others)
  {
    assert ([first] + others)[1..] == others;
  }

  lemma {:induction false} EncodedNode(kind: AggregateKind, children: seq<Value>)
    requires ValidValue(Node(kind, children))
    ensures kind.ArrayKind? ==> Encode(Node(kind, children)) == [42] + Print(|children|) + [13, 10] + EncodeAll(children)
    ensures kind.SetKind? ==> Encode(Node(kind, children)) == [126] + Print(|children|) + [13, 10] + EncodeAll(children)
    ensures kind.PushKind? ==> Encode(Node(kind, children)) == [62] + Print(|children|) + [13, 10] + EncodeAll(children)
    ensures kind.MapKind? ==> Encode(Node(kind, children)) == [37] + Print(|children| / 2) + [13, 10] + EncodeAll(children)
  {
  }

  // ----- iterators -----

  /** An iterator over an inline command gives the next word and stands behind the blanks that follow it. */
  lemma {:induction false} NextWord(a: Aggregate, p: Parser, consumed: nat, emitted: nat, word: Bytes, blanks: Bytes, rest: Bytes)
    requires a.encoding.InlineEncoding? && consumed <= |a.data| && emitted != a.len
    requires a.data[consumed..] == word + (blanks + rest) && NoBlank(word) && Blanks(blanks)
    requires rest == [] || (blanks != [] && rest[0] != 32 && rest[0] != 9)
    ensures NextYield(a, p, consumed, emitted) == Yield(Some(Ok(BulkString(word))), consumed + |word| + |blanks|, emitted + 1)
  {
    var x := a.data[consumed..];
    EndOfWord(word, blanks + rest);
    assert x[..|word|] == word && x[|word|..] == blanks + rest;
    LeftBlanks(blanks, rest);
    assert TrimLeft(rest) == rest;
    assert |a.data| == consumed + |word| + |blanks| + |rest|;
  }

  // ----- connections -----

  lemma {:induction false} PiecesDrained(p: Parser, frames: seq<Frame>, pieces: seq<Bytes>, tail: Bytes)
    requires |pieces| == |frames|
    requires forall i, rest: Bytes | 0 <= i < |frames| :: p(pieces[i] + rest) == Complete(frames[i], |pieces[i]|)
    ensures Drain(p, Joined(pieces) + tail) == Prefixed(frames, Drain(p, tail))
    decreases |frames|
  {
    if frames == [] {
      assert [] + tail == tail;
      PrefixedTwice([], [], Drain(p, tail));
    } else {
      var first, later := pieces[0], frames[1..];
      PiecesDrained(p, later, pieces[1..], tail);
      Assoc(first, Joined(pieces[1..]), tail);
      OneDrained(p, frames[0], first, Joined(pieces[1..]) + tail);
      PrefixedTwice([frames[0]], later, Drain(p, tail));
      assert [frames[0]] + later == frames;
    }
  }

  lemma {:induction false} OneDrained(p: Parser, f: Frame, bytes: Bytes, rest: Bytes)
    requires p(bytes + rest) == Complete(f, |bytes|)
    ensures Drain(p, bytes + rest) == Prefixed([f], Drain(p, rest))
  {
    assert (bytes + rest)[|bytes|..] == rest;
  }

  /** Well-formed frames written one after the other come out in that order, however the bytes arrive. */
  lemma {:induction false} PipelinedFrames(frames: seq<Frame>, pieces: seq<Bytes>, chunks: seq<Bytes>)
    requires |pieces| == |frames| && Joined(chunks) == Joined(pieces)
    requires forall i | 0 <= i < |frames| :: WellFormed(frames[i]) && pieces[i] == Serialize(frames[i])
    ensures ReceiveAll(RespParser, Opened, chunks) == Drained(frames, [], None)
  {
    forall i, rest: Bytes | 0 <= i < |frames| ensures RespParser(pieces[i] + rest) == Complete(frames[i], |pieces[i]|) {
      RoundTrip(frames[i], rest, true);
    }
    PiecesDrained(RespParser, frames, pieces, []);
    assert Joined(pieces) + [] == Joined(pieces) && Drain(RespParser, []) == Opened;
    ChunkingDoesNotMatter(chunks);
  }
}
