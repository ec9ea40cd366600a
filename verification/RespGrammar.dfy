/** Theory of decoding: the grammar it recognises, and how it behaves on prefixes and extensions. */
module RespGrammar {
  import opened Numbers
  import opened RespValue
  import opened RespParsing

  /** d is the text of a number that a Go `int` holds. */
  predicate IsNumeral(d: Bytes, n: int) {
    NoCRLF(d) && Atoi(d) == Number(n, true)
  }

  /** b is a frame of v in the protocol's grammar ("Simple strings", "Bulk strings" and "Arrays" of RESP2). */
  ghost predicate IsFrame(b: Bytes, v: Value)
    decreases v, 1
  {
    match v
    case SimpleString(text) => NoCRLF(text) && b == [SIMPLE_MARK] + text + CRLF
    case ErrorString(text) => NoCRLF(text) && b == [ERROR_MARK] + text + CRLF
    case Integer(n) => exists d :: IsNumeral(d, n) && b == [INTEGER_MARK] + d + CRLF
    case BulkString(content) =>
      exists d :: IsNumeral(d, |content|) && b == [BULK_MARK] + d + CRLF + content + CRLF
    case Array(items) =>
      exists d, body :: IsNumeral(d, |items|) && IsFrames(body, items) && b == [ARRAY_MARK] + d + CRLF + body
    case Nil => exists d :: IsNumeral(d, -1) && b == [BULK_MARK] + d + CRLF
    case NilArray => exists d :: IsNumeral(d, -1) && b == [ARRAY_MARK] + d + CRLF
  }

  ghost predicate IsFrames(b: Bytes, vs: seq<Value>)
    decreases vs, 0
  {
    if vs == [] then b == [] else
    exists k: nat :: k <= |b| && IsFrame(b[..k], vs[0]) && IsFrames(b[k..], vs[1..])
  }

  // ----- the decoder accepts only frames -----

  /** What the line after a mark was cut from. */
  lemma LineAt(s: Bytes, p: nat)
    requires p < |s| && ParseLine(s, p + 1).Done?
    ensures var (text, q) := ParseLine(s, p + 1).value; NoCRLF(text) && s[p..q] == [s[p]] + text + CRLF
  {
    FindIsFirst(s, p + 1);
    var q := ParseLine(s, p + 1).value.1;
    assert s[p..q] == [s[p]] + s[p + 1..q];
  }

  lemma {:induction false} ParsedIsFrame(s: Bytes, p: nat)
    requires p <= |s| && ParseValue(s, p).Done?
    ensures var (v, q) := ParseValue(s, p).value; IsFrame(s[p..q], v)
    decreases |s| - p, 0
  {
    var (v, q) := ParseValue(s, p).value;
    LineAt(s, p);
    var (d, m) := ParseLine(s, p + 1).value;
    assert s[p..q] == s[p..m] + s[m..q];
    match v
    case BulkString(content) => ParsedBulkIsFrame(s, p);
    case Array(items) =>
      ParsedAreFrames(s, m, |items|);
      assert IsNumeral(d, |items|) && IsFrames(s[m..q], items);
    case SimpleString(_) =>
    case ErrorString(_) =>
    case Integer(n) => assert IsNumeral(d, n);
    case Nil => assert IsNumeral(d, -1);
    case NilArray => assert IsNumeral(d, -1);
  }

  lemma ParsedBulkIsFrame(s: Bytes, p: nat)
    requires p <= |s| && ParseValue(s, p).Done? && ParseValue(s, p).value.0.BulkString?
    ensures var (v, q) := ParseValue(s, p).value; IsFrame(s[p..q], v)
  {
    var (v, q) := ParseValue(s, p).value;
    LineAt(s, p);
    var (d, m) := ParseLine(s, p + 1).value;
    assert s[m..q] == v.content + CRLF;
    assert IsNumeral(d, |v.content|);
    assert s[p..q] == s[p..m] + s[m..q];
    assert s[p..q] == [BULK_MARK] + d + CRLF + v.content + CRLF;
  }

  lemma FramesCons(b: Bytes, k: nat, v: Value, vs: seq<Value>)
    requires k <= |b| && IsFrame(b[..k], v) && IsFrames(b[k..], vs)
    ensures IsFrames(b, [v] + vs)
  {
    assert ([v] + vs)[1..] == vs;
  }

  lemma {:induction false} ParsedAreFrames(s: Bytes, p: nat, n: nat)
    requires p <= |s| && ParseValues(s, p, n).Done?
    ensures var (vs, q) := ParseValues(s, p, n).value; IsFrames(s[p..q], vs)
    decreases |s| - p, 1
  {
    hide ParseValue, IsFrame;
    if n > 0 {
      var (first, m) := ParseValue(s, p).value;
      var (rest, q) := ParseValues(s, m, n - 1).value;
      ParsedIsFrame(s, p);
      ParsedAreFrames(s, m, n - 1);
      SliceOfSlice(s, p, q, m - p);
      FramesCons(s[p..q], m - p, first, rest);
    }
  }

  // ----- the decoder accepts every frame, wherever it stands -----

  /** A frame starts with its mark and a line; the line is read as it was written. */
  lemma MarkedLine(s: Bytes, p: nat, q: nat, mark: byte, d: Bytes, rest: Bytes)
    requires NoCRLF(d)
    requires p <= q <= |s| && s[p..q] == [mark] + d + CRLF + rest
    ensures p + |d| + 3 <= q && s[p] == mark
    ensures ParseLine(s, p + 1) == Done((d, p + |d| + 3))
    ensures s[p + |d| + 3..q] == rest
  {
    var b := s[p..q];
    var line := d + CRLF;
    assert b == [mark] + line + rest;
    assert s[p] == b[0];
    assert b[1..|line| + 1] == line && b[|line| + 1..] == rest;
    assert forall i :: 0 <= i < |b| ==> b[i] == s[p + i];
    assert s[p + 1..p + 1 + |d| + 2] == line && s[p + |d| + 3..q] == rest;
    FindAt(s, p + 1, d);
    assert s[p + 1..p + 1 + |d|] == line[..|d|] == d;
  }

  lemma ContentAt(s: Bytes, p: nat, q: nat, content: Bytes)
    requires p <= q <= |s| && s[p..q] == content + CRLF
    ensures ParseContent(s, p, |content|) == Done((content, q))
  {
    var w := s[p..q];
    assert w[|content|] == s[q - 2] && w[|content| + 1] == s[q - 1];
    assert s[p..q - 2] == w[..|content|] == content;
  }

  lemma {:induction false} FrameIsParsed(s: Bytes, p: nat, q: nat, v: Value)
    requires p <= q <= |s| && IsFrame(s[p..q], v)
    ensures ParseValue(s, p) == Done((v, q))
    decreases v, 1
  {
    match v
    case SimpleString(text) => MarkedLine(s, p, q, SIMPLE_MARK, text, []);
    case ErrorString(text) => MarkedLine(s, p, q, ERROR_MARK, text, []);
    case Integer(n) => NumberIsParsed(s, p, q, INTEGER_MARK, n);
    case Nil => NumberIsParsed(s, p, q, BULK_MARK, -1);
    case NilArray => NumberIsParsed(s, p, q, ARRAY_MARK, -1);
    case BulkString(content) => BulkIsParsed(s, p, q, content);
    case Array(items) => ArrayIsParsed(s, p, q, items);
  }

  lemma NumberIsParsed(s: Bytes, p: nat, q: nat, mark: byte, n: int)
    requires p <= q <= |s| && exists d :: IsNumeral(d, n) && s[p..q] == [mark] + d + CRLF
    ensures p < q && s[p] == mark && ParseNumber(s, p + 1) == Done((n, q))
  {
    var d :| IsNumeral(d, n) && s[p..q] == [mark] + d + CRLF;
    MarkedLine(s, p, q, mark, d, []);
  }

  lemma MarkedLength(s: Bytes, p: nat, q: nat, mark: byte, d: Bytes, n: int, rest: Bytes)
    requires IsNumeral(d, n) && p <= q <= |s| && s[p..q] == [mark] + d + CRLF + rest
    ensures p + |d| + 3 <= q && s[p] == mark && s[p + |d| + 3..q] == rest
    ensures ParseNumber(s, p + 1) == Done((n, p + |d| + 3))
  {
    MarkedLine(s, p, q, mark, d, rest);
  }

  lemma {:induction false} ArrayIsParsed(s: Bytes, p: nat, q: nat, items: seq<Value>)
    requires p <= q <= |s| && IsFrame(s[p..q], Array(items))
    ensures ParseValue(s, p) == Done((Array(items), q))
    decreases items, 1
  {
    var d, body := ArrayParts(s[p..q], items);
    MarkedLength(s, p, q, ARRAY_MARK, d, |items|, body);
    hide IsFrame, IsFrames, ParseBulk, ParseNumber, IsNumeral;
    FramesAreParsed(s, p + |d| + 3, q, items);
  }

  lemma ArrayParts(b: Bytes, items: seq<Value>) returns (d: Bytes, body: Bytes)
    requires IsFrame(b, Array(items))
    ensures IsNumeral(d, |items|) && IsFrames(body, items) && b == [ARRAY_MARK] + d + CRLF + body
  {
    d, body :| IsNumeral(d, |items|) && IsFrames(body, items) && b == [ARRAY_MARK] + d + CRLF + body;
  }

  lemma BulkIsParsed(s: Bytes, p: nat, q: nat, content: Bytes)
    requires p <= q <= |s| && IsFrame(s[p..q], BulkString(content))
    ensures ParseValue(s, p) == Done((BulkString(content), q))
  {
    var d :| IsNumeral(d, |content|) && s[p..q] == [BULK_MARK] + d + CRLF + content + CRLF;
    assert s[p..q] == [BULK_MARK] + d + CRLF + (content + CRLF);
    MarkedLength(s, p, q, BULK_MARK, d, |content|, content + CRLF);
    hide IsFrame, ParseArray, ParseNumber, IsNumeral;
    ContentAt(s, p + |d| + 3, q, content);
  }

  lemma {:induction false} FramesAreParsed(s: Bytes, p: nat, q: nat, vs: seq<Value>)
    requires p <= q <= |s| && IsFrames(s[p..q], vs)
    ensures ParseValues(s, p, |vs|) == Done((vs, q))
    decreases vs, 0
  {
    hide ParseValue, IsFrame;
    if vs != [] {
      var b := s[p..q];
      var k: nat :| k <= |b| && IsFrame(b[..k], vs[0]) && IsFrames(b[k..], vs[1..]);
      SliceOfSlice(s, p, q, k);
      FrameIsParsed(s, p, p + k, vs[0]);
      FramesAreParsed(s, p + k, q, vs[1..]);
      assert [vs[0]] + vs[1..] == vs;
    }
  }

  /** The decoder recognises exactly the grammar, and its byte count is the length of the frame. */
  lemma DecodesExactlyFrames(s: Bytes, v: Value, k: nat)
    ensures ParseValue(s, 0) == Done((v, k)) <==> k <= |s| && IsFrame(s[..k], v)
  {
    if ParseValue(s, 0) == Done((v, k)) {
      ParsedIsFrame(s, 0);
      assert s[0..k] == s[..k];
    }
    if k <= |s| && IsFrame(s[..k], v) {
      assert s[0..k] == s[..k];
      FrameIsParsed(s, 0, k, v);
    }
  }

  // ----- more bytes never change an answer -----

  lemma {:induction false} FindStable(s: Bytes, t: Bytes, p: nat)
    requires p <= |s| && FindCRLF(s, p).Some?
    ensures FindCRLF(s + t, p) == FindCRLF(s, p)
    decreases |s| - p
  {
    if !(s[p] == CR && s[p + 1] == LF) {
      FindStable(s, t, p + 1);
    }
  }

  lemma NumberStable(s: Bytes, t: Bytes, p: nat)
    requires p <= |s| && !ParseNumber(s, p).Incomplete?
    ensures ParseNumber(s + t, p) == ParseNumber(s, p)
  {
    LineStable(s, t, p);
  }

  lemma LineStable(s: Bytes, t: Bytes, p: nat)
    requires p <= |s| && !ParseLine(s, p).Incomplete?
    ensures ParseLine(s + t, p) == ParseLine(s, p)
  {
    FindStable(s, t, p);
    var e := FindCRLF(s, p).value;
    assert (s + t)[p..e] == s[p..e];
  }

  lemma BulkStable(s: Bytes, t: Bytes, p: nat)
    requires p <= |s| && !ParseBulk(s, p).Incomplete?
    ensures ParseBulk(s + t, p) == ParseBulk(s, p)
  {
    hide ParseNumber;
    NumberStable(s, t, p);
    if ParseNumber(s, p).Done? {
      var (length, q) := ParseNumber(s, p).value;
      if length >= 0 && q + length <= |s| {
        assert (s + t)[q..q + length] == s[q..q + length];
      }
    }
  }

  lemma {:induction false} ArrayStable(s: Bytes, t: Bytes, p: nat)
    requires p <= |s| && !ParseArray(s, p).Incomplete?
    ensures ParseArray(s + t, p) == ParseArray(s, p)
    decreases |s| - p, 2
  {
    hide ParseNumber;
    NumberStable(s, t, p);
    if ParseNumber(s, p).Done? {
      var (length, q) := ParseNumber(s, p).value;
      if length >= 0 {
        ValuesStable(s, t, q, length);
      }
    }
  }

  lemma {:induction false} ValueStable(s: Bytes, t: Bytes, p: nat)
    requires p <= |s| && !ParseValue(s, p).Incomplete?
    ensures ParseValue(s + t, p) == ParseValue(s, p)
    decreases |s| - p, 0
  {
    hide ParseLine, ParseNumber, ParseBulk, ParseArray;
    assert (s + t)[p] == s[p];
    if s[p] == SIMPLE_MARK || s[p] == ERROR_MARK {
      LineStable(s, t, p + 1);
    } else if s[p] == INTEGER_MARK {
      NumberStable(s, t, p + 1);
    } else if s[p] == BULK_MARK {
      BulkStable(s, t, p + 1);
    } else if s[p] == ARRAY_MARK {
      ArrayStable(s, t, p + 1);
    }
  }

  lemma {:induction false} ValuesStable(s: Bytes, t: Bytes, p: nat, n: nat)
    requires p <= |s| && !ParseValues(s, p, n).Incomplete?
    ensures ParseValues(s + t, p, n) == ParseValues(s, p, n)
    decreases |s| - p, 1
  {
    if n > 0 {
      ValueStable(s, t, p);
      if ParseValue(s, p).Done? {
        ValuesStable(s, t, ParseValue(s, p).value.1, n - 1);
      }
    }
  }

  /** A value (with its byte count) or a rejection is unchanged by whatever arrives later. */
  lemma DecodeStable(s: Bytes, t: Bytes)
    requires !ParseValue(s, 0).Incomplete?
    ensures ParseValue(s + t, 0) == ParseValue(s, 0)
  {
    ValueStable(s, t, 0);
  }

  /** A proper prefix of a frame is incomplete: neither a value nor a rejection. */
  lemma ProperPrefixIsIncomplete(b: Bytes, v: Value, k: nat)
    requires IsFrame(b, v) && k < |b|
    ensures ParseValue(b[..k], 0) == Incomplete
  {
    assert b[..|b|] == b;
    DecodesExactlyFrames(b, v, |b|);
    assert b[..k] + b[k..] == b;
    if !ParseValue(b[..k], 0).Incomplete? {
      DecodeStable(b[..k], b[k..]);
    }
  }

  /** Frames are prefix-free: a frame that begins another one is that one, and of the same value. */
  lemma FramesArePrefixFree(b: Bytes, v: Value, c: Bytes, w: Value)
    requires IsFrame(b, v) && IsFrame(c, w) && b <= c
    ensures b == c && v == w
  {
    hide IsFrame, ParseValue;
    assert c[..|b|] == b && c[..|c|] == c;
    DecodesExactlyFrames(c, v, |b|);
    DecodesExactlyFrames(c, w, |c|);
  }

  // ----- printing and decoding -----

  /** The printed form of a clean value is a frame of it. `|b| <= MAX_INT`: a Go slice is no longer than that. */
  lemma {:induction false} EncodingIsFrame(v: Value)
    requires IntegerFree(v) && Clean(v) && |Encoding(v)| <= MAX_INT
    ensures IsFrame(Encoding(v), v)
    decreases v, 1
  {
    match v
    case SimpleString(_) =>
    case ErrorString(_) =>
    case BulkString(content) => NumeralOfLength(|content|);
    case Array(items) =>
      NumeralOfLength(|items|);
      EncodingsAreFrames(items);
    case Nil => MinusOne();
    case NilArray => MinusOne();
  }

  lemma {:induction false} EncodingsAreFrames(vs: seq<Value>)
    requires forall v :: v in vs ==> IntegerFree(v) && Clean(v)
    requires |EncodingAll(vs)| <= MAX_INT
    ensures IsFrames(EncodingAll(vs), vs)
    decreases vs, 0
  {
    if vs != [] {
      var first := Encoding(vs[0]);
      var b := EncodingAll(vs);
      EncodingIsFrame(vs[0]);
      EncodingsAreFrames(vs[1..]);
      assert b[..|first|] == first && b[|first|..] == EncodingAll(vs[1..]);
    }
  }

  lemma NumeralOfLength(n: nat)
    requires n <= MAX_INT
    ensures IsNumeral(Itoa(n), n)
  {
    AtoiItoa(n);
    assert forall i :: 0 <= i < |Itoa(n)| ==> IsDigit(Itoa(n)[i]);
  }

  lemma MinusOne()
    ensures IsNumeral(MINUS_ONE, -1)
  {
    assert MINUS_ONE[1..] == Itoa(1);
    ScanItoa(1);
  }

  /** A decoded simple string or error contains no `\r\n`, however deep it lies. */
  lemma {:induction false} FrameIsClean(b: Bytes, v: Value)
    requires IsFrame(b, v)
    ensures Clean(v)
    decreases v, 1
  {
    if v.Array? {
      var d, body :| IsNumeral(d, |v.items|) && IsFrames(body, v.items) && b == [ARRAY_MARK] + d + CRLF + body;
      FramesAreClean(body, v.items);
    }
  }

  lemma {:induction false} FramesAreClean(b: Bytes, vs: seq<Value>)
    requires IsFrames(b, vs)
    ensures forall v :: v in vs ==> Clean(v)
    decreases vs, 0
  {
    if vs != [] {
      var k: nat :| k <= |b| && IsFrame(b[..k], vs[0]) && IsFrames(b[k..], vs[1..]);
      FrameIsClean(b[..k], vs[0]);
      FramesAreClean(b[k..], vs[1..]);
      assert forall v :: v in vs ==> v == vs[0] || v in vs[1..];
    }
  }

  /** Decoding what was printed, with anything after it, gives back the value and its exact length
      just when no simple string or error in it contains `\r\n`. */
  lemma RoundTrip(v: Value, rest: Bytes)
    requires IntegerFree(v) && |Encoding(v)| <= MAX_INT
    ensures ParseValue(Encoding(v) + rest, 0) == Done((v, |Encoding(v)|)) <==> Clean(v)
  {
    var b := Encoding(v);
    assert (b + rest)[..|b|] == b;
    DecodesExactlyFrames(b + rest, v, |b|);
    if Clean(v) {
      EncodingIsFrame(v);
    }
    if IsFrame(b, v) {
      FrameIsClean(b, v);
    }
  }

  // ----- what is rejected -----

  /** What no value begins with: another mark; a line after an integer, string or array mark that is no number; a
      negative length other than -1; and content that is not followed by `\r\n`. */
  ghost predicate IsBad(b: Bytes) {
    || (b != [] && b[0] !in {SIMPLE_MARK, ERROR_MARK, INTEGER_MARK, BULK_MARK, ARRAY_MARK})
    || (exists mark: byte, d :: mark in {INTEGER_MARK, BULK_MARK, ARRAY_MARK} && NoCRLF(d) && !Atoi(d).ok
                               && [mark] + d + CRLF <= b)
    || (exists mark: byte, d, n :: mark in {BULK_MARK, ARRAY_MARK} && IsNumeral(d, n) && n < -1
                                   && [mark] + d + CRLF <= b)
    || (exists d, content: Bytes ::
          && IsNumeral(d, |content|)
          && var front := [BULK_MARK] + d + CRLF + content;
             front <= b &&
             ((|b| > |front| && b[|front|] != CR) ||
              (|b| > |front| + 1 && b[|front|] == CR && b[|front| + 1] != LF)))
  }

  lemma MarkedPrefix(b: Bytes, mark: byte, d: Bytes)
    requires NoCRLF(d) && [mark] + d + CRLF <= b
    ensures b[0] == mark && ParseLine(b, 1) == Done((d, |d| + 3))
  {
    var line := [mark] + d + CRLF;
    assert b[0..|line|] == line == [mark] + d + CRLF + [];
    MarkedLine(b, 0, |line|, mark, d, []);
  }

  lemma BadLineIsRejected(b: Bytes, mark: byte, d: Bytes)
    requires mark in {INTEGER_MARK, BULK_MARK, ARRAY_MARK} && NoCRLF(d) && [mark] + d + CRLF <= b
    requires !Atoi(d).ok || (mark != INTEGER_MARK && Atoi(d).value < -1)
    ensures ParseValue(b, 0) == Invalid
  {
    MarkedPrefix(b, mark, d);
    hide Atoi;
  }

  lemma BadEndIsRejected(b: Bytes, d: Bytes, content: Bytes)
    requires IsNumeral(d, |content|)
    requires var front := [BULK_MARK] + d + CRLF + content;
             && front <= b
             && ((|b| > |front| && b[|front|] != CR) ||
                 (|b| > |front| + 1 && b[|front|] == CR && b[|front| + 1] != LF))
    ensures ParseValue(b, 0) == Invalid
  {
    hide Atoi;
    var front := [BULK_MARK] + d + CRLF + content;
    var head := [BULK_MARK] + d + CRLF;
    assert head == front[..|head|] == b[..|front|][..|head|] == b[..|head|];
    MarkedPrefix(b, BULK_MARK, d);
  }

  /** Input that begins with one of these, and not in an element of an array, is rejected at once. */
  lemma BadIsRejected(b: Bytes)
    requires IsBad(b)
    ensures ParseValue(b, 0) == Invalid
  {
    hide Atoi, NoCRLF;
    if b != [] && b[0] !in {SIMPLE_MARK, ERROR_MARK, INTEGER_MARK, BULK_MARK, ARRAY_MARK} {
    } else {
      hide ParseValue;
      if mark: byte, d :| mark in {INTEGER_MARK, BULK_MARK, ARRAY_MARK} && NoCRLF(d) && !Atoi(d).ok
                          && [mark] + d + CRLF <= b {
        BadLineIsRejected(b, mark, d);
      } else if mark: byte, d, n :| mark in {BULK_MARK, ARRAY_MARK} && IsNumeral(d, n) && n < -1
                                    && [mark] + d + CRLF <= b {
        BadLineIsRejected(b, mark, d);
      } else {
        var d, content: Bytes :|
          && IsNumeral(d, |content|)
          && var front := [BULK_MARK] + d + CRLF + content;
             front <= b &&
             ((|b| > |front| && b[|front|] != CR) ||
              (|b| > |front| + 1 && b[|front|] == CR && b[|front| + 1] != LF));
        BadEndIsRejected(b, d, content);
      }
    }
  }

  /** And nothing else is rejected at the top level: a rejected input is one of these, or an array that is rejected in
      one of its elements. */
  lemma RejectedIsBad(b: Bytes)
    requires ParseValue(b, 0) == Invalid
    ensures IsBad(b) ||
            (b[0] == ARRAY_MARK && ParseNumber(b, 1).Done? && ParseNumber(b, 1).value.0 >= 0
             && ParseValues(b, ParseNumber(b, 1).value.1, ParseNumber(b, 1).value.0).Invalid?)
  {
    if b[0] in {INTEGER_MARK, BULK_MARK, ARRAY_MARK} {
      LineAt(b, 0);
      var (d, q) := ParseLine(b, 1).value;
      assert b[..q] == b[0..q] == [b[0]] + d + CRLF;
      hide ParseLine, Atoi, NoCRLF;
      if b[0] == BULK_MARK && Atoi(d).ok && Atoi(d).value >= 0 {
        BadContent(b, d, q, Atoi(d).value);
      } else {
        assert [b[0]] + d + CRLF <= b;
        assert Atoi(d).ok ==> IsNumeral(d, Atoi(d).value);
      }
    }
  }

  lemma BadContent(b: Bytes, d: Bytes, q: nat, n: nat)
    requires IsNumeral(d, n) && q <= |b| && b[..q] == [BULK_MARK] + d + CRLF && ParseContent(b, q, n).Invalid?
    ensures IsBad(b)
  {
    hide Atoi, NoCRLF;
    var content := b[q..q + n];
    var front := [BULK_MARK] + d + CRLF + content;
    assert front == b[..q + n];
    assert IsNumeral(d, |content|);
  }
}
