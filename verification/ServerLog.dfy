/** Command logs as the server reads them: frames as lines, and lines as the command loop passes over them. */
module ServerLog {
  import opened Numbers
  import opened RespValue
  import opened Frames
  import opened Lines
  import opened ServerState

  // ----- frames as lines -----

  function MarkedNumber(mark: byte, n: nat): Bytes { [mark] + Itoa(n) }

  function ArgLines(args: seq<Bytes>): (lines: seq<Bytes>)
    ensures |lines| == 2 * |args|
  {
    if args == [] then [] else [MarkedNumber(BULK_MARK, |args[0]|), args[0]] + ArgLines(args[1..])
  }

  function FrameLines(args: seq<Bytes>): seq<Bytes> {
    [MarkedNumber(ARRAY_MARK, |args|)] + ArgLines(args)
  }

  function LogLines(commands: seq<seq<Bytes>>): seq<Bytes> {
    if commands == [] then [] else FrameLines(commands[0]) + LogLines(commands[1..])
  }

  /** The lines of a log without the first two, which give the number of arguments and the length of the name. */
  function NamedLines(commands: seq<seq<Bytes>>): seq<Bytes>
    requires commands != [] && commands[0] != []
  {
    [commands[0][0]] + ArgLines(commands[0][1..]) + LogLines(commands[1..])
  }

  predicate AllNamed(commands: seq<seq<Bytes>>) {
    forall args :: args in commands ==> args != []
  }

  lemma TwoLinesThenName(commands: seq<seq<Bytes>>)
    requires commands != [] && commands[0] != []
    ensures LogLines(commands) ==
            [MarkedNumber(ARRAY_MARK, |commands[0]|), MarkedNumber(BULK_MARK, |commands[0][0]|)] + NamedLines(commands)
  {
  }

  /** The cursor stands where the log starts, or on the name in its first command. */
  ghost predicate AtLog(s: Bytes, q: nat, more: seq<seq<Bytes>>)
    requires AllNamed(more)
  {
    At(s, q, LogLines(more)) || (more != [] && more[0] in more && At(s, q, NamedLines(more)))
  }

  lemma {:induction false} ArgsAreLines(args: seq<Bytes>)
    ensures FrameArgs(args) == Join(ArgLines(args))
  {
    if args != [] {
      var a, b := MarkedNumber(BULK_MARK, |args[0]|), args[0];
      ArgsAreLines(args[1..]);
      JoinAppend([a, b], ArgLines(args[1..]));
      JoinTwo(a, b);
      assert FrameArg(b) == a + CRLF + (b + CRLF);
    }
  }

  lemma JoinTwo(a: Bytes, b: Bytes)
    ensures Join([a, b]) == a + CRLF + (b + CRLF)
  {
    assert [a, b][1..] == [b] && [b][1..] == [];
    assert Join([b]) == b + CRLF + [] == b + CRLF;
  }

  lemma {:induction false} LogIsLines(commands: seq<seq<Bytes>>)
    ensures Log(commands) == Join(LogLines(commands))
  {
    if commands != [] {
      var args := commands[0];
      LogIsLines(commands[1..]);
      ArgsAreLines(args);
      assert FrameLines(args)[1..] == ArgLines(args);
      assert Frame(args) == Join(FrameLines(args));
      JoinAppend(FrameLines(args), LogLines(commands[1..]));
    }
  }

  lemma LogStartsAt(commands: seq<seq<Bytes>>)
    ensures At(Log(commands), 0, LogLines(commands))
  {
    LogIsLines(commands);
    assert Log(commands)[0..] == Log(commands);
  }

  lemma MarkedNumberIsTidy(mark: byte, n: nat)
    requires mark == BULK_MARK || mark == ARRAY_MARK
    ensures var x := MarkedNumber(mark, n); Tidy(x) && OneLine(x) && IsNoCommand(x)
  {
    var x := MarkedNumber(mark, n);
    NotACommand(x);
    assert forall i :: 1 <= i < |x| ==> IsDigit(x[i]);
  }

  lemma ReadTidyAt(s: Bytes, p: nat, lines: seq<Bytes>)
    requires At(s, p, lines) && lines != [] && Tidy(lines[0])
    ensures var line := ReadString(s, p);
            line.ok && TrimSpace(line.text) == lines[0] && At(s, line.next, lines[1..])
  {
    ReadAt(s, p, lines);
    TrimOfTidy(lines[0]);
  }

  // ----- serving a log of commands -----

  datatype Command = SetCommand(key: Bytes, value: Bytes) | GetAckCommand

  function Args(c: Command): seq<Bytes> {
    match c
    case SetCommand(key, value) => SetArgs(key, value)
    case GetAckCommand => GetAckArgs()
  }

  function AllArgs(commands: seq<Command>): seq<seq<Bytes>> {
    seq(|commands|, i requires 0 <= i < |commands| => Args(commands[i]))
  }

  /** What is left of an argument once its line is read and trimmed. */
  function Kept(arg: Bytes): Bytes { TrimSpace(arg + CRLF) }

  predicate Readable(commands: seq<Command>) {
    forall c :: c in commands && c.SetCommand? ==> OneLine(c.key) && OneLine(c.value)
  }

  function After1(st: Store, c: Command): Store {
    match c
    case SetCommand(key, value) => StoreSet(st, Kept(key), Kept(value))
    case GetAckCommand => if st.role.Slave? then st.(role := Slave(st.role.replOffset + GETACK_SIZE)) else st
  }

  function Output1(session: Session, st: Store, c: Command): Bytes {
    match c
    case SetCommand(_, _) => if session.silent then [] else OK
    case GetAckCommand => if st.role.Slave? then Frame(AckArgs(st.role.replOffset)) else []
  }

  /** The size a replica adds for GETACK is the length of the frame. */
  lemma GetAckSize()
    ensures |Frame(GetAckArgs())| == GETACK_SIZE
  {
    var args := GetAckArgs();
    assert args[1..] == [GETACK, STAR] && [GETACK, STAR][1..] == [STAR] && [STAR][1..] == [];
    assert FrameArgs([STAR]) == FrameArg(STAR) + [];
    assert |FrameArgs([GETACK, STAR])| == |FrameArg(GETACK)| + |FrameArg(STAR)|;
  }

  function After(st: Store, commands: seq<Command>): Store
    decreases |commands|
  {
    if commands == [] then st else After(After1(st, commands[0]), commands[1..])
  }

  function Output(session: Session, st: Store, commands: seq<Command>): Bytes
    decreases |commands|
  {
    if commands == [] then []
    else Output1(session, st, commands[0]) + Output(session, After1(st, commands[0]), commands[1..])
  }

  /** A line in command position that names no command. */
  predicate IsNoCommand(x: Bytes) {
    var command := ToUpper(x);
    !IsOtherCommand(command) && command != PING && command != SET && command != REPLCONF
  }

  /** Such a line is passed over. */
  lemma PassOver(st: Store, session: Session, s: Bytes, p: nat, buffered: nat -> bool, x: Bytes, rest: seq<Bytes>)
    returns (q: nat)
    requires At(s, p, [x] + rest) && Tidy(x) && IsNoCommand(x)
    ensures p < q <= |s| && At(s, q, rest)
    ensures Serve(st, session, s, p, buffered) == Serve(st, session, s, q, buffered)
  {
    hide TrimSpace, SetAt, PingAt, ReplConfAt, At, IsOtherCommand;
    ReadTidyAt(s, p, [x] + rest);
    assert ([x] + rest)[1..] == rest;
    var line := ReadString(s, p);
    q := line.next;
    assert Dispatch(st, session, s, line, buffered) == Continue(st, q, [], []);
    NothingWritten(session, st, q);
    var after := Serve(st, session, s, q, buffered);
    assert after.Finished? ==> [] + after.output == after.output;
    assert At(s, q, rest) ==> q <= |s|;
  }

  lemma NothingWritten(session: Session, st: Store, q: nat)
    ensures Written(session, Continue(st, q, [], [])) == []
  {
  }

  lemma NotACommand(x: Bytes)
    requires x != [] && x[0] < 65
    ensures IsNoCommand(x) && ToUpper(x) != PX
  {
    var command := ToUpper(x);
    assert command[0] == x[0];
    if IsOtherCommand(command) {
      OtherCommandsAreWords(command);
    }
  }

  /** Two lines that name no command: a length and what it is the length of, or the two lengths a frame starts with. */
  lemma PassOverTwo(
    st: Store, session: Session, s: Bytes, p: nat, buffered: nat -> bool, a: Bytes, b: Bytes, rest: seq<Bytes>)
    returns (q: nat)
    requires At(s, p, [a, b] + rest) && Tidy(a) && Tidy(b) && IsNoCommand(a) && IsNoCommand(b)
    ensures p < q <= |s| && At(s, q, rest)
    ensures Serve(st, session, s, p, buffered) == Serve(st, session, s, q, buffered)
  {
    hide Serve, At, Tidy, IsNoCommand;
    assert [a, b] + rest == [a] + ([b] + rest);
    var m := PassOver(st, session, s, p, buffered, a, [b] + rest);
    q := PassOver(st, session, s, m, buffered, b, rest);
  }

  lemma NamesAreModelled()
    ensures !IsOtherCommand(SET) && !IsOtherCommand(REPLCONF)
    ensures ToUpper(SET) == SET && ToUpper(REPLCONF) == REPLCONF && ToUpper(GETACK) == GETACK
    ensures Tidy(SET) && Tidy(REPLCONF) && Tidy(GETACK) && Tidy(STAR)
  {
    assert Text(SET) == "SET" && Text(REPLCONF) == "REPLCONF";
    assert ToUpper(SET) == SET && ToUpper(REPLCONF) == REPLCONF && ToUpper(GETACK) == GETACK;
  }

  /** Reads a length line and the argument after it. */
  lemma ReadTwo(s: Bytes, p: nat, a: Bytes, b: Bytes, rest: seq<Bytes>) returns (q: nat)
    requires Tidy(a) && OneLine(b) && At(s, p, [a, b] + rest)
    ensures var second := ReadString(s, ReadString(s, p).next);
            second.ok && TrimSpace(second.text) == Kept(b) && second.next == q
    ensures p < q <= |s| && At(s, q, rest)
  {
    ReadAt(s, p, [a, b] + rest);
    assert ([a, b] + rest)[1..] == [b] + rest;
    ReadAt(s, ReadString(s, p).next, [b] + rest);
    assert ([b] + rest)[1..] == rest;
    q := ReadString(s, ReadString(s, p).next).next;
  }

  lemma PairLines(x: Bytes, y: Bytes, rest: seq<Bytes>)
    ensures ArgLines([x, y]) + rest == [MarkedNumber(BULK_MARK, |x|), x] + ([MarkedNumber(BULK_MARK, |y|), y] + rest)
  {
    assert [x, y][1..] == [y] && [y][1..] == [];
    assert ArgLines([y]) == [MarkedNumber(BULK_MARK, |y|), y] + [];
  }

  lemma {:induction false} ArgLinesAppend(args: seq<Bytes>, more: seq<Bytes>)
    ensures ArgLines(args + more) == ArgLines(args) + ArgLines(more)
  {
    if args == [] {
      assert args + more == more;
    } else {
      assert (args + more)[1..] == args[1..] + more;
      ArgLinesAppend(args[1..], more);
    }
  }

  /** Two arguments in a row. */
  lemma ReadPair(s: Bytes, p: nat, x: Bytes, y: Bytes, rest: seq<Bytes>) returns (m: nat, q: nat)
    requires OneLine(x) && OneLine(y) && At(s, p, ArgLines([x, y]) + rest)
    ensures var first := ReadString(s, ReadString(s, p).next);
            first.ok && TrimSpace(first.text) == Kept(x) && first.next == m
    ensures m <= |s|
    ensures var second := ReadString(s, ReadString(s, m).next);
            second.ok && TrimSpace(second.text) == Kept(y) && second.next == q
    ensures p < q <= |s| && At(s, q, rest)
  {
    hide TrimSpace, ReadString, ArgLines, Tidy, OneLine, MarkedNumber;
    PairLines(x, y, rest);
    MarkedNumberIsTidy(BULK_MARK, |x|);
    MarkedNumberIsTidy(BULK_MARK, |y|);
    m := ReadTwo(s, p, MarkedNumber(BULK_MARK, |x|), x, [MarkedNumber(BULK_MARK, |y|), y] + rest);
    q := ReadTwo(s, m, MarkedNumber(BULK_MARK, |y|), y, rest);
  }

  lemma NumeralIsTidy(n: nat)
    ensures Tidy(Itoa(n)) && OneLine(Itoa(n)) && IsNoCommand(Itoa(n))
  {
    var d := Itoa(n);
    assert forall i :: 0 <= i < |d| ==> IsDigit(d[i]);
    NotACommand(d);
  }

  lemma EndOfLog(s: Bytes, p: nat)
    requires At(s, p, LogLines([]))
    ensures ReadString(s, p) == Line([], p, false)
  {
    ReadAtEnd(s, p);
  }

  /** The two lengths that a frame starts with. */
  lemma PassOverStart(st: Store, session: Session, s: Bytes, p: nat, buffered: nat -> bool, commands: seq<seq<Bytes>>)
    returns (q: nat)
    requires commands != [] && commands[0] != [] && At(s, p, LogLines(commands))
    ensures p < q <= |s| && At(s, q, NamedLines(commands))
    ensures Serve(st, session, s, p, buffered) == Serve(st, session, s, q, buffered)
  {
    var args := commands[0];
    TwoLinesThenName(commands);
    var a, b := MarkedNumber(ARRAY_MARK, |args|), MarkedNumber(BULK_MARK, |args[0]|);
    hide Serve, LogLines, NamedLines, At, Tidy, OneLine, IsNoCommand, MarkedNumber;
    MarkedNumberIsTidy(ARRAY_MARK, |args|);
    MarkedNumberIsTidy(BULK_MARK, |args[0]|);
    q := PassOverTwo(st, session, s, p, buffered, a, b, NamedLines(commands));
  }
}
