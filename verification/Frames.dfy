/** Command frames as the server prints them, to replicas, to the append-only file and in array replies. */
module Frames {
  import opened Numbers
  import opened RespValue

  function FrameArg(arg: Bytes): Bytes {
    [BULK_MARK] + Itoa(|arg|) + CRLF + arg + CRLF
  }

  function FrameArgs(args: seq<Bytes>): Bytes {
    if args == [] then [] else FrameArg(args[0]) + FrameArgs(args[1..])
  }

  /** `*n\r\n` and then `$len\r\narg\r\n` for each argument. */
  function Frame(args: seq<Bytes>): Bytes {
    [ARRAY_MARK] + Itoa(|args|) + CRLF + FrameArgs(args)
  }

  /** Commands written one after the other, as to a file or down a replica's connection. */
  function Log(commands: seq<seq<Bytes>>): Bytes {
    if commands == [] then [] else Frame(commands[0]) + Log(commands[1..])
  }

  lemma {:induction false} FrameArgsAppend(args: seq<Bytes>, arg: Bytes)
    ensures FrameArgs(args + [arg]) == FrameArgs(args) + FrameArg(arg)
  {
    if args == [] {
      assert ([arg])[1..] == [];
    } else {
      assert (args + [arg])[1..] == args[1..] + [arg];
      FrameArgsAppend(args[1..], arg);
    }
  }

  lemma {:induction false} LogAppend(commands: seq<seq<Bytes>>, more: seq<seq<Bytes>>)
    ensures Log(commands + more) == Log(commands) + Log(more)
  {
    if commands == [] {
      assert commands + more == more;
    } else {
      assert (commands + more)[1..] == commands[1..] + more;
      LogAppend(commands[1..], more);
    }
  }

  /** The printing loop that `PropagateCommand` and `AppendToAof` share. */
  method PrintFrame(args: seq<Bytes>) returns (resp: Bytes)
    ensures resp == Frame(args)
  {
    resp := [ARRAY_MARK] + Itoa(|args|) + CRLF;
    for i := 0 to |args|
      invariant resp == [ARRAY_MARK] + Itoa(|args|) + CRLF + FrameArgs(args[..i])
    {
      FrameArgsAppend(args[..i], args[i]);
      assert args[..i + 1] == args[..i] + [args[i]];
      resp := resp + ([BULK_MARK] + Itoa(|args[i]|) + CRLF + args[i] + CRLF);
    }
    assert args[..|args|] == args;
  }

  /** The size a replica adds to its offset for a command is the length of the frame the master sent for it. */
  method OffsetByteSize(args: seq<Bytes>) returns (size: nat)
    ensures size == |Frame(args)|
  {
    size := |[ARRAY_MARK] + Itoa(|args|) + CRLF|;
    for i := 0 to |args|
      invariant size == |[ARRAY_MARK] + Itoa(|args|) + CRLF| + |FrameArgs(args[..i])|
    {
      FrameArgsAppend(args[..i], args[i]);
      assert args[..i + 1] == args[..i] + [args[i]];
      size := size + |[BULK_MARK] + Itoa(|args[i]|) + CRLF + args[i] + CRLF|;
    }
    assert args[..|args|] == args;
  }

  /** The value `NewStringArrayValue` builds. */
  function StringArray(args: seq<Bytes>): Value {
    Array(seq(|args|, i requires 0 <= i < |args| => BulkString(args[i])))
  }

  /** Server and tester print the same command alike. */
  lemma FrameIsEncoding(args: seq<Bytes>)
    ensures IntegerFree(StringArray(args)) && Clean(StringArray(args))
    ensures Frame(args) == Encoding(StringArray(args))
  {
    FrameArgsAreEncodings(args);
  }

  lemma {:induction false} FrameArgsAreEncodings(args: seq<Bytes>)
    ensures var items := StringArray(args).items;
            (forall item :: item in items ==> IntegerFree(item)) && FrameArgs(args) == EncodingAll(items)
  {
    if args != [] {
      FrameArgsAreEncodings(args[1..]);
      assert StringArray(args).items[1..] == StringArray(args[1..]).items;
    }
  }
}
