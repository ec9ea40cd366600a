/** The tester's reader of append-only files. */
module AofDecoder {
  import opened Numbers
  import opened RespValue
  import opened RespParsing
  import opened RespDecoder
  import opened RespGrammar
  import opened Frames

  /** The arguments of a command, if it is an array of bulk strings. */
  function Arguments(items: seq<Value>): Option<seq<Bytes>> {
    if items == [] then Some([])
    else if !items[0].BulkString? then None
    else match Arguments(items[1..])
         case None => None
         case Some(rest) => Some([items[0].content] + rest)
  }

  /** The commands from position p on, and whether the file ended after one, inside one, or in something else. */
  function ParseCommands(s: Bytes, p: nat): (r: (seq<seq<Bytes>>, Outcome<()>))
    requires p <= |s|
    decreases |s| - p
  {
    if p == |s| then ([], Done(())) else
    match ParseValue(s, p)
    case Incomplete => ([], Incomplete)
    case Invalid => ([], Invalid)
    case Done((v, q)) =>
      if !v.Array? || Arguments(v.items).None? then ([], Invalid)
      else
        var (rest, end) := ParseCommands(s, q);
        ([Arguments(v.items).value] + rest, end)
  }

  method ArrayToStrings(items: seq<Value>) returns (r: Option<seq<Bytes>>)
    ensures r == Arguments(items)
  {
    var out: seq<Bytes> := [];
    ghost var all := Arguments(items);
    assert items[0..] == items && (all.Some? ==> [] + all.value == all.value);
    for i := 0 to |items|
      invariant all ==
                match Arguments(items[i..])
                case None => None
                case Some(rest) => Some(out + rest)
    {
      if !items[i].BulkString? {
        return None;
      }
      assert items[i..][1..] == items[i + 1..];
      ghost var rest := Arguments(items[i + 1..]);
      assert rest.Some? ==> out + ([items[i].content] + rest.value) == out + [items[i].content] + rest.value;
      out := out + [items[i].content];
    }
    assert out + [] == out;
    r := Some(out);
  }

  method DecodeCommandsFromAppendOnlyFile(data: Bytes)
    returns (commands: seq<seq<Bytes>>, err: Outcome<()>)
    ensures (commands, err) == ParseCommands(data, 0)
  {
    hide ParseValue;
    var reader := new Reader(data);
    commands := [];
    assert [] + ParseCommands(data, 0).0 == ParseCommands(data, 0).0;
    var left := reader.Len();
    while left > 0
      invariant reader.Valid() && reader.data == data && left == |data| - reader.pos
      invariant var (rest, end) := ParseCommands(data, reader.pos);
                ParseCommands(data, 0) == (commands + rest, end)
      decreases left
    {
      assert commands + [] == commands;
      var v := DoDecodeValue(reader);
      if !v.Done? {
        return commands, v.PropagateFailure();
      }
      if !v.value.Array? {
        return commands, Invalid;
      }
      var args := ArrayToStrings(v.value.items);
      if args.None? {
        return commands, Invalid;
      }
      ghost var rest := ParseCommands(data, reader.pos).0;
      assert commands + ([args.value] + rest) == commands + [args.value] + rest;
      commands := commands + [args.value];
      left := reader.Len();
    }
    assert commands + [] == commands;
    return commands, Done(());
  }

  lemma {:induction false} ArgumentsOfStrings(args: seq<Bytes>)
    ensures Arguments(StringArray(args).items) == Some(args)
  {
    if args != [] {
      ArgumentsOfStrings(args[1..]);
      assert StringArray(args).items[1..] == StringArray(args[1..]).items;
      assert [args[0]] + args[1..] == args;
    }
  }

  /** Each command's frame is short enough for a Go slice. */
  predicate Fits(commands: seq<seq<Bytes>>) {
    forall c :: c in commands ==> |Frame(c)| <= MAX_INT
  }

  /** One frame at position p is read as the command it was printed from. */
  lemma FrameAt(s: Bytes, p: nat, args: seq<Bytes>)
    requires p <= |s| && |Frame(args)| <= MAX_INT && Frame(args) <= s[p..]
    ensures ParseValue(s, p) == Done((StringArray(args), p + |Frame(args)|))
  {
    hide ParseValue, IsFrame;
    FrameIsEncoding(args);
    EncodingIsFrame(StringArray(args));
    var q := p + |Frame(args)|;
    assert s[p..q] == s[p..][..|Frame(args)|] == Frame(args);
    FrameIsParsed(s, p, q, StringArray(args));
  }

  /** The commands whose frames lie wholly within the first n bytes of the log. */
  function Whole(commands: seq<seq<Bytes>>, n: nat): seq<seq<Bytes>> {
    if commands == [] || n < |Frame(commands[0])| then []
    else [commands[0]] + Whole(commands[1..], n - |Frame(commands[0])|)
  }

  lemma FrameIsNotEmpty(commands: seq<seq<Bytes>>)
    ensures commands != [] ==> |Frame(commands[0])| > 0
  {
  }

  /** A log cut off anywhere yields exactly the commands written in full, and says whether the cut fell inside one. */
  lemma {:induction false} TruncatedLog(commands: seq<seq<Bytes>>, s: Bytes, p: nat)
    requires Fits(commands) && p <= |s| && s[p..] <= Log(commands)
    ensures ParseCommands(s, p) ==
            (Whole(commands, |s| - p),
             if s[p..] == Log(Whole(commands, |s| - p)) then Done(()) else Incomplete)
    decreases |commands|
  {
    hide ParseValue, Frame;
    var n := |s| - p;
    if n == 0 {
      FrameIsNotEmpty(commands);
      assert s[p..] == [];
    } else {
      var frame := Frame(commands[0]);
      var log := Log(commands);
      assert log == frame + Log(commands[1..]);
      assert s[p..] == log[..n];
      if n < |frame| {
        assert s[p..] == frame[..n];
        FrameCutShort(s, p, commands[0]);
      } else {
        assert frame == log[..|frame|] == s[p..][..|frame|];
        FrameAt(s, p, commands[0]);
        ArgumentsOfStrings(commands[0]);
        var q := p + |frame|;
        assert s[q..] == s[p..][|frame|..] == log[|frame|..n];
        assert log[|frame|..] == Log(commands[1..]);
        TruncatedLog(commands[1..], s, q);
        assert s[p..] == frame + s[q..];
        var rest := Whole(commands[1..], |s| - q);
        assert Whole(commands, n)[1..] == rest;
        assert Log(Whole(commands, n)) == frame + Log(rest);
        if s[p..] == Log(Whole(commands, n)) {
          assert s[q..] == s[p..][|frame|..] == Log(rest);
        }
      }
    }
  }

  lemma FrameCutShort(s: Bytes, p: nat, args: seq<Bytes>)
    requires p <= |s| && |Frame(args)| <= MAX_INT && s[p..] < Frame(args)
    ensures ParseValue(s, p) == Incomplete
  {
    hide ParseValue, Frame;
    var frame := Frame(args);
    var rest := frame[|s| - p..];
    assert s[p..] + rest == frame;
    assert (s + rest)[p..] == frame;
    FrameAt(s + rest, p, args);
    if !ParseValue(s, p).Incomplete? {
      ValueStable(s, rest, p);
    }
  }

  /** Printing any commands and decoding the file gives the commands back: arguments are arbitrary bytes. */
  lemma PrintThenDecode(commands: seq<seq<Bytes>>)
    requires Fits(commands)
    ensures ParseCommands(Log(commands), 0) == (commands, Done(()))
  {
    hide ParseCommands, Frame, Log, Whole;
    var s := Log(commands);
    assert s[0..] == s;
    TruncatedLog(commands, s, 0);
    WholeLog(commands, 0);
  }

  lemma {:induction false} WholeLog(commands: seq<seq<Bytes>>, k: nat)
    ensures Whole(commands, |Log(commands)| + k) == commands
  {
    if commands != [] {
      WholeLog(commands[1..], k);
      assert [commands[0]] + commands[1..] == commands;
    }
  }

  // ----- exactly which files are read without error -----

  function StringArrays(commands: seq<seq<Bytes>>): seq<Value> {
    seq(|commands|, i requires 0 <= i < |commands| => StringArray(commands[i]))
  }

  lemma {:induction false} ArgumentsAre(items: seq<Value>)
    ensures Arguments(items).Some? ==> items == StringArray(Arguments(items).value).items
    decreases |items|
  {
    if items != [] && Arguments(items).Some? {
      ArgumentsAre(items[1..]);
      var args := Arguments(items).value;
      assert items == [items[0]] + items[1..];
      assert StringArray(args).items == [BulkString(args[0])] + StringArray(args[1..]).items;
    }
  }

  /** Reading goes on behind the frame of a command. */
  lemma CommandAt(s: Bytes, p: nat, q: nat, args: seq<Bytes>)
    requires p <= q <= |s| && IsFrame(s[p..q], StringArray(args))
    ensures p < q
    ensures var (rest, end) := ParseCommands(s, q); ParseCommands(s, p) == ([args] + rest, end)
  {
    hide ParseValue, IsFrame;
    FrameIsParsed(s, p, q, StringArray(args));
    FrameIsLong(s[p..q], StringArray(args));
    ArgumentsOfStrings(args);
  }

  /** And only there. */
  lemma CommandRead(s: Bytes, p: nat) returns (q: nat, args: seq<Bytes>)
    requires p < |s| && ParseCommands(s, p).1.Done?
    ensures p < q <= |s| && IsFrame(s[p..q], StringArray(args))
    ensures var (rest, end) := ParseCommands(s, q); ParseCommands(s, p) == ([args] + rest, end)
  {
    hide ParseValue, IsFrame;
    var (v, q') := ParseValue(s, p).value;
    q := q';
    args := Arguments(v.items).value;
    ParsedIsFrame(s, p);
    ArgumentsAre(v.items);
  }

  lemma FramesParts(b: Bytes, commands: seq<seq<Bytes>>) returns (k: nat)
    requires commands != [] && IsFrames(b, StringArrays(commands))
    ensures k <= |b| && IsFrame(b[..k], StringArray(commands[0])) && IsFrames(b[k..], StringArrays(commands[1..]))
  {
    hide IsFrame;
    var vs := StringArrays(commands);
    assert vs[1..] == StringArrays(commands[1..]);
    k :| k <= |b| && IsFrame(b[..k], vs[0]) && IsFrames(b[k..], vs[1..]);
  }

  /** A file is read to its end exactly if it is a row of frames of arrays of bulk strings, whatever their numerals look
      like, and then the commands are what those arrays hold. */
  lemma {:induction false} DecodesExactlyCommands(s: Bytes, p: nat, commands: seq<seq<Bytes>>)
    requires p <= |s|
    ensures ParseCommands(s, p) == (commands, Done(())) <==> IsFrames(s[p..], StringArrays(commands))
    decreases |s| - p
  {
    hide ParseCommands, IsFrame, IsFrames, StringArray;
    if p == |s| {
      NothingToRead(s);
      NoFramesLeft(s[p..], commands);
    } else {
      if ParseCommands(s, p) == (commands, Done(())) {
        var q, args := CommandRead(s, p);
        assert commands[0] == args && commands[1..] == ParseCommands(s, q).0;
        DecodesExactlyCommands(s, q, commands[1..]);
        assert s[p..][..q - p] == s[p..q] && s[p..][q - p..] == s[q..];
        FramesCons(s[p..], q - p, StringArray(args), StringArrays(commands[1..]));
        assert StringArrays(commands) == [StringArray(args)] + StringArrays(commands[1..]);
      }
      if IsFrames(s[p..], StringArrays(commands)) {
        NoFramesAtAll(s[p..], commands);
        var k := FramesParts(s[p..], commands);
        var q := p + k;
        assert s[p..][..k] == s[p..q] && s[p..][k..] == s[q..];
        CommandAt(s, p, q, commands[0]);
        DecodesExactlyCommands(s, q, commands[1..]);
        assert [commands[0]] + commands[1..] == commands;
      }
    }
  }

  lemma NothingToRead(s: Bytes)
    ensures ParseCommands(s, |s|) == ([], Done(()))
  {
  }

  lemma NoFramesAtAll(b: Bytes, commands: seq<seq<Bytes>>)
    requires IsFrames(b, StringArrays(commands))
    ensures commands == [] ==> b == []
  {
    hide IsFrame;
  }

  lemma NoFramesLeft(b: Bytes, commands: seq<seq<Bytes>>)
    requires b == []
    ensures IsFrames(b, StringArrays(commands)) <==> commands == []
  {
  }

  ghost predicate IsCommand(v: Value) {
    exists args :: v == StringArray(args)
  }

  /** What does not continue a file of commands: after some commands, the frame of anything but an array of bulk strings
      ends the reading with those commands and a rejection. */
  lemma {:induction false} OthersAreRefused(s: Bytes, p: nat, q: nat, m: nat, commands: seq<seq<Bytes>>, v: Value)
    requires p <= q <= m <= |s| && IsFrames(s[p..q], StringArrays(commands)) && IsFrame(s[q..m], v)
    requires !IsCommand(v)
    ensures ParseCommands(s, p) == (commands, Invalid)
    decreases |commands|
  {
    hide ParseCommands, IsFrame, IsFrames, StringArray, IsCommand;
    if commands == [] {
      NoFramesAtAll(s[p..q], commands);
      assert p == q;
      RefusedAt(s, p, m, v);
    } else {
      var k := FramesParts(s[p..q], commands);
      assert s[p..q][..k] == s[p..p + k] && s[p..q][k..] == s[p + k..q];
      CommandAt(s, p, p + k, commands[0]);
      OthersAreRefused(s, p + k, q, m, commands[1..], v);
      assert [commands[0]] + commands[1..] == commands;
    }
  }

  lemma RefusedAt(s: Bytes, p: nat, m: nat, v: Value)
    requires p <= m <= |s| && IsFrame(s[p..m], v) && !IsCommand(v)
    ensures ParseCommands(s, p) == ([], Invalid)
  {
    hide ParseValue, IsFrame;
    FrameIsParsed(s, p, m, v);
    FrameIsLong(s[p..m], v);
    if v.Array? {
      ArgumentsAre(v.items);
    }
  }

  lemma FrameIsLong(b: Bytes, v: Value)
    requires IsFrame(b, v)
    ensures b != []
  {
  }
}
