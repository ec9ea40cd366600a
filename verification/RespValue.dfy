/** RESP values and their printed form. */
module RespValue {
  import opened Numbers

  const SIMPLE_MARK: byte := 43   // '+'
  const ERROR_MARK: byte := 45    // '-'
  const INTEGER_MARK: byte := 58  // ':'
  const BULK_MARK: byte := 36     // '$'
  const ARRAY_MARK: byte := 42    // '*'
  const MINUS_ONE: Bytes := [45, 49]

  /** Marks, digits and line ends are the characters of the protocol. */
  lemma MarksAreSpelled()
    ensures SIMPLE_MARK as int as char == '+' && ERROR_MARK as int as char == '-' && INTEGER_MARK as int as char == ':'
    ensures BULK_MARK as int as char == '$' && ARRAY_MARK as int as char == '*'
    ensures ZERO as int as char == '0' && MINUS as int as char == '-' && PLUS as int as char == '+'
    ensures CR as int as char == '\r' && LF as int as char == '\n' && CRLF == [CR, LF] && MINUS_ONE == [MINUS, ZERO + 1]
    ensures MAX_INT == 9223372036854775807 && MIN_INT == -9223372036854775808 && MAX_UINT == 18446744073709551615
  {
  }

  datatype Value =
    | SimpleString(text: Bytes)
    | ErrorString(text: Bytes)
    | Integer(number: int)
    | BulkString(content: Bytes)
    | Array(items: seq<Value>)
    | Nil
    | NilArray

  /** No integer occurs in the value: `encodeInteger` reads the byte field, which an integer leaves empty. */
  predicate IntegerFree(v: Value) {
    match v
    case Integer(_) => false
    case Array(items) => forall item :: item in items ==> IntegerFree(item)
    case _ => true
  }

  /** `\r\n` does not occur in s. */
  predicate NoCRLF(s: Bytes) {
    forall i :: 0 <= i < |s| - 1 ==> !(s[i] == CR && s[i + 1] == LF)
  }

  /** No simple string or error of the value contains `\r\n`. */
  predicate Clean(v: Value) {
    match v
    case SimpleString(text) => NoCRLF(text)
    case ErrorString(text) => NoCRLF(text)
    case Array(items) => forall item :: item in items ==> Clean(item)
    case _ => true
  }

  /** The printed form of an integer-free value. */
  function Encoding(v: Value): (b: Bytes)
    requires IntegerFree(v)
    ensures |b| >= 3
    decreases v, 1
  {
    match v
    case SimpleString(text) => [SIMPLE_MARK] + text + CRLF
    case ErrorString(text) => [ERROR_MARK] + text + CRLF
    case BulkString(content) => [BULK_MARK] + Itoa(|content|) + CRLF + content + CRLF
    case Array(items) => [ARRAY_MARK] + Itoa(|items|) + CRLF + EncodingAll(items)
    case Nil => [BULK_MARK] + MINUS_ONE + CRLF
    case NilArray => [ARRAY_MARK] + MINUS_ONE + CRLF
  }

  /** The printed forms of a list of values, one after the other. */
  function EncodingAll(vs: seq<Value>): (b: Bytes)
    requires forall v :: v in vs ==> IntegerFree(v)
    ensures |vs| <= |b|
    decreases vs, 0
  {
    if vs == [] then [] else Encoding(vs[0]) + EncodingAll(vs[1..])
  }

  lemma {:induction false} EncodingAllAppend(vs: seq<Value>, ws: seq<Value>)
    requires forall v :: v in vs ==> IntegerFree(v)
    requires forall w :: w in ws ==> IntegerFree(w)
    ensures forall v :: v in vs + ws ==> IntegerFree(v)
    ensures EncodingAll(vs + ws) == EncodingAll(vs) + EncodingAll(ws)
  {
    assert forall v :: v in vs + ws ==> v in vs || v in ws;
    if vs == [] {
      assert vs + ws == ws;
    } else {
      EncodingAllAppend(vs[1..], ws);
      assert (vs + ws)[1..] == vs[1..] + ws;
      assert (vs + ws)[0] == vs[0];
    }
  }
}
