/** An incomplete buffer is one that more bytes can still turn into a value or a rejection: the other outcomes are
    final. */
module RespCompletion {
  import opened Numbers
  import opened RespValue
  import opened RespParsing
  import opened RespGrammar

  /** The parse is over, and a value takes all of s. */
  predicate Ends<T>(r: Outcome<(T, nat)>, s: Bytes) {
    r.Invalid? || (r.Done? && r.value.1 == |s|)
  }

  function Zeros(n: nat): (zeros: Bytes)
    ensures |zeros| == n && forall i :: 0 <= i < n ==> zeros[i] == 0
  {
    seq(n, _ => 0)
  }

  lemma {:induction false} LineCompletes(s: Bytes, p: nat)
    requires p <= |s| && ParseLine(s, p).Incomplete?
    ensures ParseLine(s + CRLF, p).Done? && Ends(ParseLine(s + CRLF, p), s + CRLF)
    decreases |s| - p
  {
    var longer := s + CRLF;
    assert FindCRLF(s, p).None?;
    if p < |s| {
      assert longer[p] == s[p] && longer[p + 1] == if p + 1 < |s| then s[p + 1] else CR;
      assert ParseLine(s, p + 1).Incomplete?;
      LineCompletes(s, p + 1);
    }
  }

  lemma NumberCompletes(s: Bytes, p: nat)
    requires p <= |s| && ParseNumber(s, p).Incomplete?
    ensures Ends(ParseNumber(s + CRLF, p), s + CRLF)
  {
    LineCompletes(s, p);
  }

  /** A byte that starts no value. */
  lemma NoMark(s: Bytes, p: nat)
    requires p < |s| && s[p] == 0
    ensures ParseValue(s, p).Invalid?
    ensures forall n: nat :: n > 0 ==> ParseValues(s, p, n).Invalid?
  {
  }

  /** Content of known length: the wrong byte where `\r\n` should stand. */
  lemma ContentCompletes(s: Bytes, p: nat) returns (t: Bytes)
    requires p <= |s| && ParseBulk(s, p).Incomplete? && ParseNumber(s, p).Done?
    ensures ParseBulk(s + t, p).Invalid?
  {
    hide ParseNumber;
    var (length, m) := ParseNumber(s, p).value;
    var e := m + length;
    t := Zeros(if e >= |s| then e - |s| + 1 else 1);
    NumberStable(s, t, p);
    assert (s + t)[..|s|] == s;
  }

  lemma BulkCompletes(s: Bytes, p: nat) returns (t: Bytes)
    requires p <= |s| && ParseBulk(s, p).Incomplete?
    ensures Ends(ParseBulk(s + t, p), s + t)
  {
    hide ParseNumber;
    if ParseNumber(s, p).Done? {
      t := ContentCompletes(s, p);
    } else {
      NumberCompletes(s, p);
      t := CRLF;
      var longer := s + CRLF;
      if ParseBulk(longer, p).Incomplete? {
        var more := ContentCompletes(longer, p);
        t := CRLF + more;
        assert longer + more == s + t;
      }
    }
  }

  lemma {:induction false} ArrayCompletes(s: Bytes, p: nat) returns (t: Bytes)
    requires p <= |s| && ParseArray(s, p).Incomplete?
    ensures Ends(ParseArray(s + t, p), s + t)
    decreases |s| - p, 2
  {
    hide ParseNumber, ParseValues;
    if ParseNumber(s, p).Done? {
      var (length, q) := ParseNumber(s, p).value;
      t := ValuesComplete(s, q, length);
      NumberStable(s, t, p);
    } else {
      NumberCompletes(s, p);
      t := CRLF;
      var longer := s + CRLF;
      if ParseNumber(longer, p).Done? && ParseNumber(longer, p).value.0 >= 0 {
        var length := ParseNumber(longer, p).value.0;
        NoMoreValues(longer, length);
        if length > 0 {
          t := CRLF + [0];
          assert longer + [0] == s + t;
          NumberStable(longer, [0], p);
        }
      }
    }
  }

  /** Where the bytes end, no values follow, and a byte that starts none can be put there. */
  lemma NoMoreValues(s: Bytes, n: nat)
    ensures if n == 0 then ParseValues(s, |s|, n) == Done(([], |s|)) else ParseValues(s + [0], |s|, n).Invalid?
  {
    NoMark(s + [0], |s|);
  }

  /** Every incomplete value can be ended: by the bytes it lacks, or by one that cannot stand there. */
  lemma {:induction false} ValueCompletes(s: Bytes, p: nat) returns (t: Bytes)
    requires p <= |s| && ParseValue(s, p).Incomplete?
    ensures Ends(ParseValue(s + t, p), s + t)
    decreases |s| - p, 0
  {
    hide ParseLine, ParseNumber, ParseBulk, ParseArray;
    if p == |s| {
      t := [0];
      NoMark(s + t, p);
    } else {
      t := CRLF;
      if s[p] == SIMPLE_MARK || s[p] == ERROR_MARK {
        LineCompletes(s, p + 1);
      } else if s[p] == INTEGER_MARK {
        NumberCompletes(s, p + 1);
      } else if s[p] == BULK_MARK {
        t := BulkCompletes(s, p + 1);
      } else {
        t := ArrayCompletes(s, p + 1);
      }
      assert (s + t)[p] == s[p];
    }
  }

  lemma {:induction false} ValuesComplete(s: Bytes, p: nat, n: nat) returns (t: Bytes)
    requires p <= |s| && ParseValues(s, p, n).Incomplete?
    ensures Ends(ParseValues(s + t, p, n), s + t)
    decreases |s| - p, 1
  {
    hide ParseValue;
    if ParseValue(s, p).Done? {
      var (_, q) := ParseValue(s, p).value;
      t := ValuesComplete(s, q, n - 1);
      ValueStable(s, t, p);
    } else {
      t := ValueCompletes(s, p);
      var longer := s + t;
      if ParseValue(longer, p).Done? {
        NoMoreValues(longer, n - 1);
        if n > 1 {
          ValueStable(longer, [0], p);
          t := t + [0];
          assert longer + [0] == s + t;
        }
      }
    }
  }

  /** Waiting for more bytes can change the outcome exactly when it is incomplete. */
  lemma OutcomeIsFinal(s: Bytes)
    ensures !ParseValue(s, 0).Incomplete? <==> forall t: Bytes :: ParseValue(s + t, 0) == ParseValue(s, 0)
  {
    hide ParseValue;
    if ParseValue(s, 0).Incomplete? {
      var t := ValueCompletes(s, 0);
      assert ParseValue(s + t, 0) != ParseValue(s, 0);
    } else {
      forall t: Bytes ensures ParseValue(s + t, 0) == ParseValue(s, 0) {
        DecodeStable(s, t);
      }
    }
  }
}
