/** What decoding means: a recursive reading of a byte string from a position.

    The decoder methods are proved against these functions; the theory of the functions is in RespGrammar.
  */
module RespParsing {
  import opened Numbers
  import opened RespValue

  /** A decoder either has a result, or needs more bytes, or has met bytes that no value starts with. */
  datatype Outcome<+T> = Done(value: T) | Incomplete | Invalid {
    predicate IsFailure() { !Done? }

    function PropagateFailure<U>(): Outcome<U>
      requires IsFailure()
    {
      if Incomplete? then Outcome.Incomplete else Outcome.Invalid
    }

    function Extract(): T
      requires Done?
    {
      value
    }
  }

  /** Position of the first `\r\n` at or after p. */
  function FindCRLF(s: Bytes, p: nat): (e: Option<nat>)
    requires p <= |s|
    ensures e.Some? ==> p <= e.value && e.value + 2 <= |s|
    decreases |s| - p
  {
    if p + 2 > |s| then None
    else if s[p] == CR && s[p + 1] == LF then Some(p)
    else FindCRLF(s, p + 1)
  }

  lemma SliceOfSlice(s: Bytes, p: nat, q: nat, k: nat)
    requires p <= p + k <= q <= |s|
    ensures s[p..q][..k] == s[p..p + k] && s[p..q][k..] == s[p + k..q]
  {
  }

  /** What the search stops at is `\r\n`, and there is none before it. */
  lemma {:induction false} FindIsFirst(s: Bytes, p: nat)
    requires p <= |s|
    ensures match FindCRLF(s, p)
            case Some(e) => NoCRLF(s[p..e]) && s[p..e + 2] == s[p..e] + CRLF
            case None => NoCRLF(s[p..])
    decreases |s| - p
  {
    if p + 2 <= |s| && !(s[p] == CR && s[p + 1] == LF) {
      FindIsFirst(s, p + 1);
      match FindCRLF(s, p)
      case Some(e) =>
        assert s[p..e] == [s[p]] + s[p + 1..e];
        assert s[p + 1..e + 2] == s[p + 1..e] + CRLF ==> s[e] == CR;
        assert s[e] == s[p + 1..e + 2][e - p - 1];
      case None => assert s[p..] == [s[p]] + s[p + 1..];
    }
  }

  lemma {:induction false} NotFoundIn(s: Bytes, p: nat)
    requires p <= |s| && NoCRLF(s[p..])
    ensures FindCRLF(s, p).None?
    decreases |s| - p
  {
    if p + 2 <= |s| {
      assert s[p] == s[p..][0] && s[p + 1] == s[p..][1];
      assert s[p + 1..] == s[p..][1..];
      NotFoundIn(s, p + 1);
    }
  }

  /** A text without `\r\n` that `\r\n` follows is what the search stops at. */
  lemma {:induction false} FindAt(s: Bytes, p: nat, text: Bytes)
    requires p + |text| + 2 <= |s|
    requires NoCRLF(text) && s[p..p + |text| + 2] == text + CRLF
    ensures FindCRLF(s, p) == Some(p + |text|)
    decreases |text|
  {
    var w := s[p..p + |text| + 2];
    assert forall i :: 0 <= i < |w| ==> w[i] == s[p + i];
    if text == [] {
      assert w[0] == CR && w[1] == LF;
    } else {
      assert s[p] == text[0];
      assert s[p + 1] == if |text| > 1 then text[1] else CR;
      assert s[p + 1..p + 1 + |text[1..]| + 2] == w[1..] == text[1..] + CRLF;
      FindAt(s, p + 1, text[1..]);
    }
  }

  /** The text up to the first `\r\n`, and the position after it. */
  function ParseLine(s: Bytes, p: nat): (r: Outcome<(Bytes, nat)>)
    requires p <= |s|
    ensures r.Done? ==> p < r.value.1 <= |s|
    ensures !r.Invalid?
  {
    match FindCRLF(s, p)
    case None => Incomplete
    case Some(e) => Done((s[p..e], e + 2))
  }

  function ParseNumber(s: Bytes, p: nat): (r: Outcome<(int, nat)>)
    requires p <= |s|
    ensures r.Done? ==> p < r.value.1 <= |s|
  {
    var (text, q) :- ParseLine(s, p);
    if Atoi(text).ok then Done((Atoi(text).value, q)) else Invalid
  }

  /** The rest of a bulk string once its length is known. */
  function ParseContent(s: Bytes, p: nat, length: nat): (r: Outcome<(Bytes, nat)>)
    requires p <= |s|
    ensures r.Done? ==> p < r.value.1 <= |s|
  {
    var e := p + length;
    if e >= |s| then Incomplete
    else if s[e] != CR then Invalid
    else if e + 1 >= |s| then Incomplete
    else if s[e + 1] != LF then Invalid
    else Done((s[p..e], e + 2))
  }

  /** One value of any type. */
  function ParseValue(s: Bytes, p: nat): (r: Outcome<(Value, nat)>)
    requires p <= |s|
    ensures r.Done? ==> p < r.value.1 <= |s|
    decreases |s| - p, 0
  {
    if p == |s| then Incomplete
    else if s[p] == SIMPLE_MARK then
      var (text, q) :- ParseLine(s, p + 1);
      Done((SimpleString(text), q))
    else if s[p] == ERROR_MARK then
      var (text, q) :- ParseLine(s, p + 1);
      Done((ErrorString(text), q))
    else if s[p] == INTEGER_MARK then
      var (n, q) :- ParseNumber(s, p + 1);
      Done((Integer(n), q))
    else if s[p] == BULK_MARK then ParseBulk(s, p + 1)
    else if s[p] == ARRAY_MARK then ParseArray(s, p + 1)
    else Invalid
  }

  /** A bulk string or nil, after its mark. */
  function ParseBulk(s: Bytes, p: nat): (r: Outcome<(Value, nat)>)
    requires p <= |s|
    ensures r.Done? ==> p < r.value.1 <= |s|
  {
    var (length, q) :- ParseNumber(s, p);
    if length == -1 then Done((Nil, q))
    else if length < 0 then Invalid
    else
      var (content, q) :- ParseContent(s, q, length);
      Done((BulkString(content), q))
  }

  /** An array or nil array, after its mark. */
  function ParseArray(s: Bytes, p: nat): (r: Outcome<(Value, nat)>)
    requires p <= |s|
    ensures r.Done? ==> p < r.value.1 <= |s|
    decreases |s| - p, 2
  {
    var (length, q) :- ParseNumber(s, p);
    if length == -1 then Done((NilArray, q))
    else if length < -1 then Invalid
    else
      var (items, q) :- ParseValues(s, q, length);
      Done((Array(items), q))
  }

  /** n values in a row. Each takes at least one byte, so the bytes left bound the depth of the recursion, not n. */
  function ParseValues(s: Bytes, p: nat, n: nat): (r: Outcome<(seq<Value>, nat)>)
    requires p <= |s|
    ensures r.Done? ==> p <= r.value.1 <= |s| && |r.value.0| == n
    decreases |s| - p, 1
  {
    if n == 0 then Done(([], p)) else
    var (first, q) :- ParseValue(s, p);
    var (rest, q) :- ParseValues(s, q, n - 1);
    Done(([first] + rest, q))
  }
}
