/** The tester's encoder. */
module RespEncoder {
  import opened Numbers
  import opened RespValue

  /** Prints a value. `None` is the panic of `encodeInteger`, which every integer anywhere in the value causes. */
  method Encode(v: Value) returns (r: Option<Bytes>)
    ensures r.Some? <==> IntegerFree(v)
    ensures r.Some? ==> r.value == Encoding(v)
    decreases v
  {
    match v
    case SimpleString(text) => r := Some([SIMPLE_MARK] + text + CRLF);
    case ErrorString(text) => r := Some([ERROR_MARK] + text + CRLF);
    case Integer(_) =>
      var parsed := Atoi([]);
      if parsed.ok {
        r := Some([INTEGER_MARK] + FormatInt(parsed.value) + CRLF);
      } else {
        r := None;
      }
    case BulkString(content) => r := Some([BULK_MARK] + Itoa(|content|) + CRLF + content + CRLF);
    case Array(items) => r := EncodeArray(items);
    case Nil => r := Some([BULK_MARK] + MINUS_ONE + CRLF);
    case NilArray => r := Some([ARRAY_MARK] + MINUS_ONE + CRLF);
  }

  method EncodeArray(items: seq<Value>) returns (r: Option<Bytes>)
    ensures r.Some? <==> forall item :: item in items ==> IntegerFree(item)
    ensures r.Some? ==> r.value == [ARRAY_MARK] + Itoa(|items|) + CRLF + EncodingAll(items)
    decreases items
  {
    var res: Bytes := [];
    for i := 0 to |items|
      invariant forall item :: item in items[..i] ==> IntegerFree(item)
      invariant res == EncodingAll(items[..i])
    {
      var printed := Encode(items[i]);
      if printed.None? {
        return None;
      }
      EncodingAllAppend(items[..i], [items[i]]);
      assert EncodingAll([items[i]]) == Encoding(items[i]) + EncodingAll([]);
      assert items[..i + 1] == items[..i] + [items[i]];
      res := res + printed.value;
    }
    assert items[..|items|] == items;
    r := Some([ARRAY_MARK] + Itoa(|items|) + CRLF + res);
  }
}
