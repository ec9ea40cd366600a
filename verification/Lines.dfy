/** Text lines as the server reads them: `ReadString('\n')`, `strings.TrimSpace` and `strings.ToUpper`. */
module Lines {
  import opened Numbers

  /** What `ReadString('\n')` returns: the text through the newline, or what is left together with EOF. */
  datatype Line = Line(text: Bytes, next: nat, ok: bool)

  /** Where the line at p ends, and whether a newline ends it. */
  function LineEnd(s: Bytes, p: nat): (r: (nat, bool))
    requires p <= |s|
    ensures p <= r.0 <= |s|
    ensures if r.1 then p < r.0 && s[r.0 - 1] == LF else r.0 == |s|
    ensures forall i :: p <= i < (if r.1 then r.0 - 1 else r.0) ==> s[i] != LF
    decreases |s| - p
  {
    if p == |s| then (p, false)
    else if s[p] == LF then (p + 1, true)
    else LineEnd(s, p + 1)
  }

  function ReadString(s: Bytes, p: nat): (line: Line)
    requires p <= |s|
    ensures p <= line.next <= |s|
    ensures line.ok ==> p < line.next
  {
    var (next, ok) := LineEnd(s, p);
    Line(s[p..next], next, ok)
  }

  /** The server's cursor over what a connection or file delivers. */
  class LineReader {
    const data: Bytes
    var pos: nat

    ghost predicate Valid()
      reads this
    {
      pos <= |data|
    }

    constructor (data: Bytes)
      ensures Valid() && this.data == data && pos == 0
    {
      this.data := data;
      pos := 0;
    }

    method ReadLine() returns (text: Bytes, ok: bool)
      requires Valid()
      modifies this`pos
      ensures Valid() && ReadString(data, old(pos)) == Line(text, pos, ok)
    {
      var line := ReadString(data, pos);
      pos := line.next;
      return line.text, line.ok;
    }
  }

  // ----- trimming -----

  /** Length of the white space that s starts with, in UTF-8: 0 if it starts with none. */
  function SpaceAtStart(s: Bytes): nat
    ensures SpaceAtStart(s) <= |s|
  {
    if |s| >= 1 && IsSpace(s[0]) then 1
    else if |s| >= 2 && IsSpace2(s[0], s[1]) then 2
    else if |s| >= 3 && IsSpace3(s[0], s[1], s[2]) then 3
    else 0
  }

  function SpaceAtEnd(s: Bytes): nat
    ensures SpaceAtEnd(s) <= |s|
  {
    var n := |s|;
    if n >= 1 && IsSpace(s[n - 1]) then 1
    else if n >= 2 && IsSpace2(s[n - 2], s[n - 1]) then 2
    else if n >= 3 && IsSpace3(s[n - 3], s[n - 2], s[n - 1]) then 3
    else 0
  }

  /** Tab, line feed, vertical tab, form feed, carriage return, space. */
  predicate IsSpace(b: byte) { 9 <= b <= 13 || b == 32 }

  /** U+0085 and U+00A0. */
  predicate IsSpace2(a: byte, b: byte) { a == 0xC2 && (b == 0x85 || b == 0xA0) }

  /** U+1680, U+2000 to U+200A, U+2028, U+2029, U+202F, U+205F and U+3000. */
  predicate IsSpace3(a: byte, b: byte, c: byte) {
    || (a == 0xE1 && b == 0x9A && c == 0x80)
    || (a == 0xE2 && b == 0x80 && (0x80 <= c <= 0x8A || c == 0xA8 || c == 0xA9 || c == 0xAF))
    || (a == 0xE2 && b == 0x81 && c == 0x9F)
    || (a == 0xE3 && b == 0x80 && c == 0x80)
  }

  function TrimLeft(s: Bytes): (r: Bytes)
    ensures SpaceAtStart(r) == 0
    ensures |r| <= |s|
  {
    var k := SpaceAtStart(s);
    if k == 0 then s else TrimLeft(s[k..])
  }

  function TrimRight(s: Bytes): (r: Bytes)
    ensures SpaceAtEnd(r) == 0
    ensures r <= s
  {
    if SpaceAtEnd(s) == 0 then s else TrimRight(s[..|s| - SpaceAtEnd(s)])
  }

  function TrimSpace(s: Bytes): Bytes {
    TrimRight(TrimLeft(s))
  }

  function ToUpper(s: Bytes): (r: Bytes)
    ensures |r| == |s|
  {
    seq(|s|, i requires 0 <= i < |s| => if 97 <= s[i] <= 122 then s[i] - 32 else s[i])
  }

  /** x is the word y, each of whose letters is in upper or lower case. */
  predicate IsCasing(x: Bytes, y: Bytes) {
    |x| == |y| && forall i :: 0 <= i < |x| ==> x[i] == y[i] || (65 <= y[i] <= 90 && x[i] == y[i] + 32)
  }

  /** Upper-casing changes the bytes 97 to 122, each to the byte 32 below, and no others. */
  lemma ToUpperByByte(s: Bytes, i: nat)
    requires i < |s|
    ensures 97 <= s[i] <= 122 ==> ToUpper(s)[i] as int == s[i] as int - 32
    ensures !(97 <= s[i] <= 122) ==> ToUpper(s)[i] == s[i]
  {
  }

  /** A text is upper-cased to a word without lower-case letters exactly if it is that word in some case. */
  lemma UpperCaseOf(x: Bytes, word: Bytes)
    requires forall i :: 0 <= i < |word| ==> !(97 <= word[i] <= 122)
    ensures ToUpper(x) == word <==> IsCasing(x, word)
  {
    if ToUpper(x) == word {
      forall i | 0 <= i < |x| ensures x[i] == word[i] || (65 <= word[i] <= 90 && x[i] == word[i] + 32) {
        ToUpperByByte(x, i);
      }
    }
    if IsCasing(x, word) {
      forall i | 0 <= i < |x| ensures ToUpper(x)[i] == word[i] {
        ToUpperByByte(x, i);
      }
    }
  }

  /** Letters, digits, dashes and stars have no white space among them. */
  predicate IsPrintable(x: Bytes) {
    forall i :: 0 <= i < |x| ==> 33 <= x[i] <= 126
  }

  lemma PrintableIsTidy(x: Bytes)
    requires IsPrintable(x)
    ensures Tidy(x)
  {
  }

  predicate OneLine(s: Bytes) { LF !in s }

  /** Text that a line reader gives back unchanged: it has no newline and no white space at its ends. */
  predicate Tidy(s: Bytes) {
    OneLine(s) && SpaceAtStart(s) == 0 && SpaceAtEnd(s) == 0
  }

  /** Whatever was read and trimmed is tidy: this is how keys and values enter the server. */
  lemma TrimmedLineIsTidy(s: Bytes, p: nat)
    requires p <= |s|
    ensures Tidy(TrimSpace(ReadString(s, p).text))
  {
    var text := ReadString(s, p).text;
    assert forall i :: 0 <= i < |text| - 1 ==> text[i] == s[p + i] != LF;
    TrimKeepsTidy(text);
  }

  lemma TrimKeepsTidy(text: Bytes)
    requires forall i :: 0 <= i < |text| - 1 ==> text[i] != LF
    ensures Tidy(TrimSpace(text))
  {
    var left := TrimLeft(text);
    var r := TrimRight(left);
    if r != [] {
      NoSpaceAtEnd(r);
    }
    StartOfPrefix(r, left);
    TrimLeftIsSuffix(text);
    hide TrimLeft, TrimRight, SpaceAtStart, SpaceAtEnd, IsSpace;
    var k := |text| - |left|;
    forall i | 0 <= i < |r| ensures r[i] != LF {
      assert r[i] == left[i] == text[k + i];
    }
  }

  lemma {:induction false} TrimLeftIsSuffix(s: Bytes)
    ensures TrimLeft(s) == s[|s| - |TrimLeft(s)|..]
    decreases |s|
  {
    var k := SpaceAtStart(s);
    if k > 0 {
      TrimLeftIsSuffix(s[k..]);
    }
    hide SpaceAtStart;
  }

  lemma NoSpaceAtEnd(r: Bytes)
    requires SpaceAtEnd(r) == 0 && r != []
    ensures r[|r| - 1] != LF
  {
  }

  lemma StartOfPrefix(r: Bytes, t: Bytes)
    requires r <= t && SpaceAtStart(t) == 0
    ensures SpaceAtStart(r) == 0
  {
    assert forall i :: 0 <= i < |r| ==> r[i] == t[i];
  }

  /** A tidy text followed by `\r\n` is trimmed back to itself. */
  lemma TrimOfTidy(x: Bytes)
    requires Tidy(x)
    ensures TrimSpace(x + CRLF) == x
  {
    var line := x + CRLF;
    if x == [] {
      assert line == CRLF && CRLF[1..] == [LF] && [LF][1..] == [];
      assert TrimLeft([LF]) == TrimLeft([]) == [];
      assert TrimLeft(line) == TrimLeft([LF]);
    } else {
      assert SpaceAtStart(line) == 0;
      assert line[..|line| - 1] == x + [CR];
      assert (x + [CR])[..|x|] == x;
      assert TrimRight(line) == TrimRight(x + [CR]) == TrimRight(x);
    }
  }

  // ----- what trimming takes away -----

  /** UTF-8 for code points below 0x10000. */
  function Utf8(point: nat): (b: Bytes)
    requires point < 0x1_0000
    ensures 1 <= |b| <= 3
  {
    if point < 0x80 then [point as byte]
    else if point < 0x800 then [(0xC0 + point / 64) as byte, (0x80 + point % 64) as byte]
    else [(0xE0 + point / 4096) as byte, (0x80 + point / 64 % 64) as byte, (0x80 + point % 64) as byte]
  }

  /** Unicode's white space. */
  predicate IsWhiteSpace(point: nat) {
    || 0x09 <= point <= 0x0D || point == 0x20 || point == 0x85 || point == 0xA0
    || point == 0x1680 || 0x2000 <= point <= 0x200A || point == 0x2028 || point == 0x2029
    || point == 0x202F || point == 0x205F || point == 0x3000
  }

  ghost predicate IsSpaceText(b: Bytes) {
    exists point: nat :: point < 0x1_0000 && IsWhiteSpace(point) && b == Utf8(point)
  }

  predicate IsSpaceBytes(b: Bytes) {
    || (|b| == 1 && IsSpace(b[0]))
    || (|b| == 2 && IsSpace2(b[0], b[1]))
    || (|b| == 3 && IsSpace3(b[0], b[1], b[2]))
  }

  /** The code point of white space of one, two or three bytes. */
  lemma PointOf(b: Bytes) returns (point: nat)
    requires IsSpaceBytes(b)
    ensures point < 0x1_0000 && IsWhiteSpace(point) && b == Utf8(point)
  {
    if |b| == 1 {
      point := b[0] as nat;
    } else if |b| == 2 {
      point := b[1] as nat;
    } else {
      point := PointOfThree(b[0], b[1], b[2]);
      assert b == [b[0], b[1], b[2]];
    }
  }

  lemma PointOfThree(a: byte, b: byte, c: byte) returns (point: nat)
    requires IsSpace3(a, b, c)
    ensures point < 0x1_0000 && IsWhiteSpace(point) && [a, b, c] == Utf8(point)
  {
    if a == 0xE1 {
      point := 0x1680;
    } else if a == 0xE3 {
      point := 0x3000;
    } else if b == 0x81 {
      point := 0x205F;
    } else {
      point := 0x2000 + (c as nat - 0x80);
    }
  }

  lemma TextOfPoint(point: nat)
    requires point < 0x1_0000 && IsWhiteSpace(point)
    ensures IsSpaceBytes(Utf8(point))
  {
  }

  /** A text starts with white space exactly if it starts with the UTF-8 of a white-space character, and ends with it
      exactly if it ends so. */
  lemma SpaceIsUnicode(s: Bytes)
    ensures SpaceAtStart(s) > 0 ==> IsSpaceText(s[..SpaceAtStart(s)])
    ensures SpaceAtStart(s) == 0 ==> forall b: Bytes :: IsSpaceText(b) ==> !(b <= s)
    ensures SpaceAtEnd(s) > 0 ==> IsSpaceText(s[|s| - SpaceAtEnd(s)..])
    ensures SpaceAtEnd(s) == 0 ==> forall b: Bytes :: IsSpaceText(b) && |b| <= |s| ==> s[|s| - |b|..] != b
  {
    if SpaceAtStart(s) > 0 {
      var point := PointOf(s[..SpaceAtStart(s)]);
    } else {
      forall b: Bytes | IsSpaceText(b) ensures !(b <= s) {
        var point: nat :| point < 0x1_0000 && IsWhiteSpace(point) && b == Utf8(point);
        TextOfPoint(point);
      }
    }
    if SpaceAtEnd(s) > 0 {
      var point := PointOf(s[|s| - SpaceAtEnd(s)..]);
    } else {
      forall b: Bytes | IsSpaceText(b) && |b| <= |s| ensures s[|s| - |b|..] != b {
        var point: nat :| point < 0x1_0000 && IsWhiteSpace(point) && b == Utf8(point);
        TextOfPoint(point);
        var end := s[|s| - |b|..];
        assert forall i :: 0 <= i < |b| ==> end[i] == s[|s| - |b| + i];
      }
    }
  }

  /** White-space characters, one after the other. */
  ghost predicate IsSpaces(s: Bytes) {
    s == [] || exists k: nat :: 0 < k <= |s| && IsSpaceText(s[..k]) && IsSpaces(s[k..])
  }

  lemma SpacesCons(text: Bytes, more: Bytes)
    requires IsSpaceText(text) && text != [] && IsSpaces(more)
    ensures IsSpaces(text + more)
  {
    hide IsSpaceText;
    var s := text + more;
    assert s[..|text|] == text && s[|text|..] == more;
  }

  lemma SpacesParts(s: Bytes) returns (text: Bytes, more: Bytes)
    requires IsSpaces(s) && s != []
    ensures s == text + more && text != [] && IsSpaceText(text) && IsSpaces(more)
  {
    hide IsSpaceText;
    var k: nat :| 0 < k <= |s| && IsSpaceText(s[..k]) && IsSpaces(s[k..]);
    text, more := s[..k], s[k..];
  }

  lemma NoSpaces()
    ensures IsSpaces([])
  {
  }

  lemma {:induction false} SpacesAppend(a: Bytes, b: Bytes)
    requires IsSpaces(a) && IsSpaceText(b) && b != []
    ensures IsSpaces(a + b)
    decreases |a|
  {
    hide IsSpaceText, IsSpaces;
    if a == [] {
      NoSpaces();
      SpacesCons(b, []);
      assert a + b == b + [];
    } else {
      var text, more := SpacesParts(a);
      SpacesAppend(more, b);
      SpacesCons(text, more + b);
      assert a + b == text + (more + b);
    }
  }

  lemma TrimLeftStep(s: Bytes)
    ensures TrimLeft(s) == if SpaceAtStart(s) == 0 then s else TrimLeft(s[SpaceAtStart(s)..])
  {
    hide SpaceAtStart;
  }

  lemma {:induction false} TrimLeftTakes(s: Bytes) returns (front: Bytes)
    ensures s == front + TrimLeft(s) && IsSpaces(front)
    decreases |s|
  {
    hide IsSpaceText, IsSpaces, SpaceAtStart, TrimLeft;
    var k := SpaceAtStart(s);
    front := [];
    NoSpaces();
    TrimLeftStep(s);
    if k > 0 {
      SpaceIsUnicode(s);
      var more := TrimLeftTakes(s[k..]);
      SpacesCons(s[..k], more);
      front := s[..k] + more;
      assert s == s[..k] + s[k..];
    }
  }

  lemma {:induction false} TrimRightTakes(s: Bytes) returns (back: Bytes)
    ensures s == TrimRight(s) + back && IsSpaces(back)
    decreases |s|
  {
    hide IsSpaceText, IsSpaces, SpaceAtEnd;
    var k := SpaceAtEnd(s);
    back := [];
    NoSpaces();
    if k > 0 {
      SpaceIsUnicode(s);
      var more := TrimRightTakes(s[..|s| - k]);
      SpacesAppend(more, s[|s| - k..]);
      back := more + s[|s| - k..];
    }
  }

  /** Trimming takes white-space characters away at both ends and nothing else, and leaves none there. */
  lemma TrimTakesWhiteSpace(s: Bytes) returns (front: Bytes, back: Bytes)
    ensures s == front + TrimSpace(s) + back && IsSpaces(front) && IsSpaces(back)
    ensures forall b: Bytes :: IsSpaceText(b) ==> !(b <= TrimSpace(s))
    ensures forall b: Bytes :: IsSpaceText(b) && |b| <= |TrimSpace(s)| ==> TrimSpace(s)[|TrimSpace(s)| - |b|..] != b
  {
    hide IsSpaceText, IsSpaces, Utf8, SpaceAtStart, SpaceAtEnd, TrimLeft, TrimRight;
    front := TrimLeftTakes(s);
    back := TrimRightTakes(TrimLeft(s));
    StartOfPrefix(TrimSpace(s), TrimLeft(s));
    SpaceIsUnicode(TrimSpace(s));
    assert front + (TrimSpace(s) + back) == front + TrimSpace(s) + back;
  }

  // ----- texts made of lines -----

  function Join(lines: seq<Bytes>): Bytes {
    if lines == [] then [] else lines[0] + CRLF + Join(lines[1..])
  }

  lemma {:induction false} JoinAppend(a: seq<Bytes>, b: seq<Bytes>)
    ensures Join(a + b) == Join(a) + Join(b)
  {
    if a == [] {
      assert a + b == b;
    } else {
      assert (a + b)[1..] == a[1..] + b;
      JoinAppend(a[1..], b);
    }
  }

  /** From position p on, the text is these lines. */
  ghost predicate At(s: Bytes, p: nat, lines: seq<Bytes>) {
    p <= |s| && s[p..] == Join(lines)
  }

  /** Reading at the start of a line returns that line and leaves the cursor at the next one. */
  lemma ReadAt(s: Bytes, p: nat, lines: seq<Bytes>)
    requires At(s, p, lines) && lines != [] && OneLine(lines[0])
    ensures var line := ReadString(s, p);
            line.ok && line.text == lines[0] + CRLF && At(s, line.next, lines[1..])
  {
    var x := lines[0];
    var text := x + CRLF;
    assert s[p..] == text + Join(lines[1..]);
    assert s[p..][..|text|] == text && s[p..][|text|..] == s[p + |text|..];
    assert s[p..p + |text|] == text;
    ReadOneLine(s, p, x);
  }

  lemma ReadOneLine(s: Bytes, p: nat, x: Bytes)
    requires p + |x| + 2 <= |s| && s[p..p + |x| + 2] == x + CRLF && OneLine(x)
    ensures ReadString(s, p) == Line(x + CRLF, p + |x| + 2, true)
  {
    var text := s[p..p + |x| + 2];
    assert forall i :: 0 <= i < |text| ==> text[i] == s[p + i];
    assert text[|x| + 1] == LF && forall i :: 0 <= i < |x| + 1 ==> text[i] != LF;
    EndsAt(s, p, p + |x| + 1);
  }

  lemma {:induction false} EndsAt(s: Bytes, p: nat, e: nat)
    requires p <= e < |s| && s[e] == LF && forall i :: p <= i < e ==> s[i] != LF
    ensures LineEnd(s, p) == (e + 1, true)
    decreases e - p
  {
    if p < e {
      EndsAt(s, p + 1, e);
    }
  }

  lemma {:induction false} NoLineEnd(s: Bytes, p: nat)
    requires p <= |s| && LF !in s[p..]
    ensures LineEnd(s, p) == (|s|, false)
    decreases |s| - p
  {
    if p < |s| {
      assert s[p] == s[p..][0] && s[p + 1..] == s[p..][1..];
      NoLineEnd(s, p + 1);
    }
  }

  lemma ReadAtEnd(s: Bytes, p: nat)
    requires At(s, p, [])
    ensures ReadString(s, p) == Line([], p, false)
  {
    assert |s[p..]| == 0;
  }
}
