/** The tester's decoder: one cursor over the input, moved by every routine. */
module RespDecoder {
  import opened Numbers
  import opened RespValue
  import opened RespParsing

  /** The part of `bytes.Reader` the decoder uses. */
  class Reader {
    const data: Bytes
    var pos: nat

    ghost predicate Valid()
      reads this
    {
      pos <= |data|
    }

    constructor (data: Bytes)
      ensures Valid() && this.data == data && pos == 0
    {
      this.data := data;
      pos := 0;
    }

    method Len() returns (n: nat)
      requires Valid()
      ensures n == |data| - pos
    {
      n := |data| - pos;
    }

    method ReadByte() returns (b: Option<byte>)
      requires Valid()
      modifies this`pos
      ensures Valid()
      ensures b.None? <==> old(pos) == |data|
      ensures b.None? ==> pos == old(pos)
      ensures b.Some? ==> pos == old(pos) + 1 && b.value == data[old(pos)]
    {
      if pos == |data| {
        return None;
      }
      b := Some(data[pos]);
      pos := pos + 1;
    }

    method UnreadByte()
      requires Valid() && pos > 0
      modifies this`pos
      ensures Valid() && pos == old(pos) - 1
    {
      pos := pos - 1;
    }

    method Seek(offset: nat)
      requires offset <= |data|
      modifies this`pos
      ensures Valid() && pos == offset
    {
      pos := offset;
    }
  }

  /** A routine that ended in `result` with the cursor at `pos` did what the parsing function says.
      After an error the cursor only locates the error message, which is not part of this model. */
  predicate Follows<T(==)>(result: Outcome<T>, pos: nat, parsed: Outcome<(T, nat)>) {
    match parsed
    case Done((value, next)) => result == Done(value) && pos == next
    case Incomplete => result.Incomplete?
    case Invalid => result.Invalid?
  }

  method ReadUntilCRLF(reader: Reader) returns (result: Outcome<Bytes>)
    requires reader.Valid()
    modifies reader`pos
    ensures reader.Valid()
    ensures Follows(result, reader.pos, ParseLine(reader.data, old(reader.pos)))
  {
    ghost var start := reader.pos;
    var text: Bytes := [];
    while true
      invariant reader.Valid() && start <= reader.pos
      invariant text == reader.data[start..reader.pos]
      invariant NoCRLF(text)
      decreases |reader.data| - reader.pos
    {
      var b := reader.ReadByte();
      if b.None? {
        assert reader.data[start..reader.pos] == reader.data[start..];
        NotFoundIn(reader.data, start);
        return Incomplete;
      }
      text := text + [b.value];
      if |text| >= 2 && text[|text| - 2..] == CRLF {
        assert text == text[..|text| - 2] + CRLF;
        FindAt(reader.data, start, text[..|text| - 2]);
        assert reader.data[start..reader.pos - 2] == text[..|text| - 2];
        return Done(text[..|text| - 2]);
      }
      assert |text| >= 2 ==> text[|text| - 2..] == [text[|text| - 2], text[|text| - 1]];
    }
  }

  method ReadCRLF(reader: Reader) returns (result: Outcome<()>)
    requires reader.Valid()
    modifies reader`pos
    ensures reader.Valid()
    ensures var parsed := ParseContent(reader.data, old(reader.pos), 0);
            Follows(result, reader.pos, if parsed.Done? then Done(((), parsed.value.1)) else parsed.PropagateFailure())
  {
    var offsetBeforeCRLF := reader.pos;
    var b := reader.ReadByte();
    if b.None? {
      return Incomplete;
    }
    if b.value != CR {
      reader.Seek(offsetBeforeCRLF);
      return Invalid;
    }
    b := reader.ReadByte();
    if b.None? {
      return Incomplete;
    }
    if b.value != LF {
      reader.Seek(offsetBeforeCRLF);
      return Invalid;
    }
    result := Done(());
  }

  method DecodeSimpleString(reader: Reader) returns (result: Outcome<Value>)
    requires reader.Valid() && reader.pos > 0 && reader.data[reader.pos - 1] == SIMPLE_MARK
    modifies reader`pos
    ensures reader.Valid()
    ensures Follows(result, reader.pos, ParseValue(reader.data, old(reader.pos) - 1))
  {
    var text :- ReadUntilCRLF(reader);
    result := Done(SimpleString(text));
  }

  method DecodeError(reader: Reader) returns (result: Outcome<Value>)
    requires reader.Valid() && reader.pos > 0 && reader.data[reader.pos - 1] == ERROR_MARK
    modifies reader`pos
    ensures reader.Valid()
    ensures Follows(result, reader.pos, ParseValue(reader.data, old(reader.pos) - 1))
  {
    var text :- ReadUntilCRLF(reader);
    result := Done(ErrorString(text));
  }

  method DecodeInteger(reader: Reader) returns (result: Outcome<Value>)
    requires reader.Valid() && reader.pos > 0 && reader.data[reader.pos - 1] == INTEGER_MARK
    modifies reader`pos
    ensures reader.Valid()
    ensures Follows(result, reader.pos, ParseValue(reader.data, old(reader.pos) - 1))
  {
    var offsetBeforeInteger := reader.pos;
    var text :- ReadUntilCRLF(reader);
    var number := Atoi(text);
    if !number.ok {
      reader.Seek(offsetBeforeInteger);
      return Invalid;
    }
    result := Done(Integer(number.value));
  }

  method DecodeBulkStringOrNil(reader: Reader) returns (result: Outcome<Value>)
    requires reader.Valid() && reader.pos > 0 && reader.data[reader.pos - 1] == BULK_MARK
    modifies reader`pos
    ensures reader.Valid()
    ensures Follows(result, reader.pos, ParseValue(reader.data, old(reader.pos) - 1))
  {
    var offsetBeforeLength := reader.pos;
    var text :- ReadUntilCRLF(reader);
    var length := Atoi(text);
    if !length.ok {
      reader.Seek(offsetBeforeLength);
      return Invalid;
    }
    if length.value == -1 {
      return Done(Nil);
    }
    if length.value < 0 {
      reader.Seek(offsetBeforeLength);
      return Invalid;
    }
    ghost var start := reader.pos;
    var content: Bytes := [];
    for i := 0 to length.value
      invariant reader.Valid() && reader.pos == start + i
      invariant content == reader.data[start..reader.pos]
    {
      var b := reader.ReadByte();
      if b.None? {
        return Incomplete;
      }
      content := content + [b.value];
    }
    var _ :- ReadCRLF(reader);
    result := Done(BulkString(content));
  }

  method DoDecodeValue(reader: Reader) returns (result: Outcome<Value>)
    requires reader.Valid()
    modifies reader`pos
    ensures reader.Valid()
    ensures Follows(result, reader.pos, ParseValue(reader.data, old(reader.pos)))
    decreases |reader.data| - reader.pos, 1
  {
    var firstByte := reader.ReadByte();
    if firstByte.None? {
      return Incomplete;
    }
    if firstByte.value == SIMPLE_MARK {
      result := DecodeSimpleString(reader);
    } else if firstByte.value == ERROR_MARK {
      result := DecodeError(reader);
    } else if firstByte.value == INTEGER_MARK {
      result := DecodeInteger(reader);
    } else if firstByte.value == BULK_MARK {
      result := DecodeBulkStringOrNil(reader);
    } else if firstByte.value == ARRAY_MARK {
      result := DecodeArray(reader);
    } else {
      reader.UnreadByte();
      result := Invalid;
    }
  }

  /** After k elements were read from the start position as `done`, the cursor at p, this many are left to read. */
  ghost predicate Resumes(whole: Outcome<(seq<Value>, nat)>, done: seq<Value>, s: Bytes, p: nat, k: nat)
    requires p <= |s|
  {
    match ParseValues(s, p, k)
    case Done((rest, next)) => whole == Done((done + rest, next))
    case Incomplete => whole.Incomplete?
    case Invalid => whole.Invalid?
  }

  lemma ResumeOnce(whole: Outcome<(seq<Value>, nat)>, done: seq<Value>, s: Bytes, p: nat, k: nat)
    requires p <= |s| && k > 0
    requires Resumes(whole, done, s, p, k)
    ensures match ParseValue(s, p)
            case Done((first, q)) => Resumes(whole, done + [first], s, q, k - 1)
            case Incomplete => whole.Incomplete?
            case Invalid => whole.Invalid?
  {
    if ParseValue(s, p).Done? {
      var (first, q) := ParseValue(s, p).value;
      if ParseValues(s, q, k - 1).Done? {
        var rest := ParseValues(s, q, k - 1).value.0;
        assert done + ([first] + rest) == done + [first] + rest;
      }
    }
  }

  method DecodeArray(reader: Reader) returns (result: Outcome<Value>)
    requires reader.Valid() && reader.pos > 0 && reader.data[reader.pos - 1] == ARRAY_MARK
    modifies reader`pos
    ensures reader.Valid()
    ensures Follows(result, reader.pos, ParseValue(reader.data, old(reader.pos) - 1))
    decreases |reader.data| - reader.pos, 3
  {
    var offsetBeforeLength := reader.pos;
    assert ParseValue(reader.data, reader.pos - 1) == ParseArray(reader.data, reader.pos);
    hide ParseValue, ParseBulk;
    var text :- ReadUntilCRLF(reader);
    var length := Atoi(text);
    if !length.ok {
      reader.Seek(offsetBeforeLength);
      return Invalid;
    }
    if length.value == -1 {
      return Done(NilArray);
    }
    if length.value < -1 {
      reader.Seek(offsetBeforeLength);
      return Invalid;
    }
    var items :- DecodeItems(reader, length.value);
    result := Done(Array(items));
  }

  /** The element loop of `decodeArray`. */
  method DecodeItems(reader: Reader, n: nat) returns (result: Outcome<seq<Value>>)
    requires reader.Valid()
    modifies reader`pos
    ensures reader.Valid()
    ensures Follows(result, reader.pos, ParseValues(reader.data, old(reader.pos), n))
    decreases |reader.data| - reader.pos, 2
  {
    hide ParseValue;
    ghost var start := reader.pos;
    ghost var whole := ParseValues(reader.data, start, n);
    var values: seq<Value> := seq(n, _ => Nil);
    assert whole.Done? ==> [] + whole.value.0 == whole.value.0;
    for i := 0 to n
      invariant reader.Valid() && start <= reader.pos && |values| == n
      invariant Resumes(whole, values[..i], reader.data, reader.pos, n - i)
    {
      ResumeOnce(whole, values[..i], reader.data, reader.pos, n - i);
      var value :- DoDecodeValue(reader);
      values := values[i := value];
      assert values[..i + 1] == values[..i] + [value];
    }
    assert values[..n] + [] == values;
    result := Done(values);
  }

  /** Decodes one value from the front of the input, with the number of bytes it took. */
  method Decode(data: Bytes) returns (result: Outcome<Value>, readBytesCount: nat)
    ensures ParseValue(data, 0) == if result.Done? then Done((result.value, readBytesCount))
        else result.PropagateFailure()
    ensures !result.Done? ==> readBytesCount == 0
  {
    var reader := new Reader(data);
    result := DoDecodeValue(reader);
    if !result.Done? {
      return result, 0;
    }
    var rest := reader.Len();
    readBytesCount := |data| - rest;
  }
}
