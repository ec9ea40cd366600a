/** What serving a stream of commands comes to: SET with or without PX, PING, and REPLCONF with any subcommand, each
    spelled in upper or lower case or both. Whatever the buffering tests answer, the command loop does what the commands
    say, in order, and panics exactly where a master is sent GETACK. */
module Requests {
  import opened Numbers
  import opened RespValue
  import opened Frames
  import opened Lines
  import opened ServerState
  import opened ServerLog

  // ----- the language of requests -----

  /** `words` is the command as it is sent. */
  datatype Request =
    | SetRequest(key: Bytes, value: Bytes, px: Option<nat>, words: seq<Bytes>)
    | PingRequest(words: seq<Bytes>)
    | ConfRequest(sub: Bytes, val: Bytes, words: seq<Bytes>)
  {
    predicate HasPx() { SetRequest? && px.Some? }

    /** The command's name in upper case. */
    function Name(): Bytes {
      match this
      case SetRequest(_, _, _, _) => SET
      case PingRequest(_) => PING
      case ConfRequest(_, _, _) => REPLCONF
    }

    /** The words spell the request: names in any case, and arguments without newlines. */
    predicate IsSpelled() {
      && words != [] && IsCasing(words[0], Name())
      && match this
         case SetRequest(key, value, None, _) => OneLine(key) && OneLine(value) && words[1..] == [key, value]
         case SetRequest(key, value, Some(n), _) =>
           && OneLine(key) && OneLine(value) && n <= MAX_INT
           && |words| == 5 && words[1..3] == [key, value] && IsCasing(words[3], PX) && words[4] == Itoa(n)
         case PingRequest(_) => |words| == 1
         case ConfRequest(sub, val, _) => OneLine(sub) && OneLine(val) && words[1..] == [sub, val]
    }

    /** REPLCONF GETACK, in any case. */
    predicate IsGetAck() { ConfRequest? && IsCasing(Kept(sub), GETACK) }
  }

  function Words(requests: seq<Request>): seq<seq<Bytes>> {
    seq(|requests|, i requires 0 <= i < |requests| => requests[i].words)
  }

  /** Whether the option of a SET was buffered when its handler looked for it: that is, when as many bytes were left
      as the option and the commands after it take. */
  predicate PxIsSeen(size: nat, buffered: nat -> bool, r: Request, more: seq<seq<Bytes>>) {
    && r.HasPx() && |r.words| == 5
    && var p := size - |Log(more)| - |FrameArgs(r.words[3..])|;
       p >= 0 && buffered(p)
  }

  /** A request that does not panic leaves a state and an output. */
  datatype Handled = Handled(store: Store, output: Bytes)

  function Reply(session: Session, reply: Bytes): Bytes { if session.silent then [] else reply }

  function HandleSet(st: Store, session: Session, size: nat, buffered: nat -> bool, r: Request, more: seq<seq<Bytes>>)
    : Handled
    requires r.SetRequest?
  {
    var stored := StoreSet(st, Kept(r.key), Kept(r.value));
    Handled(
      if PxIsSeen(size, buffered, r, more)
      then stored.(timers := stored.timers + [(Kept(r.key), r.px.value)])
      else stored,
      Reply(session, OK))
  }

  /** A replica counts the bytes of the frame it was sent. */
  function HandlePing(st: Store, session: Session, r: Request): Handled
    requires r.PingRequest?
  {
    if !session.authed then Handled(st, Reply(session, NOAUTH))
    else
      Handled(
        if st.role.Slave? then st.(role := Slave(st.role.replOffset + |Frame(r.words)|)) else st,
        Reply(session, PONG))
  }

  /** REPLCONF: GETACK is answered by a replica; a master agrees to LISTENING-PORT and CAPA and records ACK. */
  function HandleConf(st: Store, session: Session, r: Request): Handled
    requires r.ConfRequest? && !(r.IsGetAck() && st.role.Master?)
  {
    if r.IsGetAck() then
      Handled(st.(role := Slave(st.role.replOffset + GETACK_SIZE)), Frame(AckArgs(st.role.replOffset)))
    else if st.role.Slave? then Handled(st, [])
    else if IsCasing(Kept(r.sub), LISTENING_PORT) || IsCasing(Kept(r.sub), CAPA) then Handled(st, Reply(session, OK))
    else if IsCasing(Kept(r.sub), ACK) then Handled(RecordAck(st, session.conn, Atoi(Kept(r.val)).value), [])
    else Handled(st, [])
  }

  function Handle(st: Store, session: Session, size: nat, buffered: nat -> bool, r: Request, more: seq<seq<Bytes>>)
    : Handled
    requires !(r.IsGetAck() && st.role.Master?)
  {
    match r
    case SetRequest(_, _, _, _) => HandleSet(st, session, size, buffered, r, more)
    case PingRequest(_) => HandlePing(st, session, r)
    case ConfRequest(_, _, _) => HandleConf(st, session, r)
  }

  /** What serving the requests comes to when they are all that is left of `size` bytes. */
  function ServeRequests(st: Store, session: Session, size: nat, buffered: nat -> bool, requests: seq<Request>): Served
    decreases |requests|
  {
    if requests == [] then Finished(st, [])
    else if requests[0].IsGetAck() && st.role.Master? then Crashed
    else
      var handled := Handle(st, session, size, buffered, requests[0], Words(requests[1..]));
      Then(handled.output, ServeRequests(handled.store, session, size, buffered, requests[1..]))
  }

  predicate CanSend(session: Session, requests: seq<Request>) {
    && (forall r :: r in requests ==> r.IsSpelled())
    && (session.authed || forall r :: r in requests ==> !r.SetRequest?)
  }

  // ----- spelling -----

  /** The names of commands, subcommands and options, and the replies, as the source spells them. */
  lemma NamesAreSpelled()
    ensures Text(PING) == "PING" && Text(SET) == "SET" && Text(PX) == "PX" && Text(REPLCONF) == "REPLCONF"
    ensures Text(GETACK) == "GETACK" && Text(ACK) == "ACK" && Text(CAPA) == "CAPA" && Text(STAR) == "*"
    ensures Text(LISTENING_PORT) == "LISTENING-PORT"
    ensures Text(OK) == "+OK\r\n" && Text(PONG) == "+PONG\r\n"
    ensures Text(NOAUTH) == "-NOAUTH Authentication required.\r\n"
  {
  }

  lemma CasingIsTidy(x: Bytes, word: Bytes)
    requires IsCasing(x, word) && word in {PING, SET, PX, REPLCONF}
    ensures Tidy(x) && OneLine(x) && ToUpper(x) == word
  {
    assert IsPrintable(x);
    PrintableIsTidy(x);
    hide Tidy;
    UpperCaseOf(x, word);
  }

  lemma WordIsPx(x: Bytes)
    requires IsCasing(x, PX)
    ensures Tidy(x) && OneLine(x) && ToUpper(x) == PX && IsNoCommand(x)
  {
    CasingIsTidy(x, PX);
    assert Text(PX) == "PX";
  }

  lemma NamesAreNoOther()
    ensures !IsOtherCommand(SET) && !IsOtherCommand(REPLCONF) && !IsOtherCommand(PING)
    ensures SET != PING && REPLCONF != PING && REPLCONF != SET
  {
    NamesAreSpelled();
  }

  /** Which subcommand it is. */
  lemma WhichSubcommand(command: Bytes)
    ensures ToUpper(command) == GETACK <==> IsCasing(command, GETACK)
    ensures ToUpper(command) == ACK <==> IsCasing(command, ACK)
    ensures ToUpper(command) == CAPA <==> IsCasing(command, CAPA)
    ensures ToUpper(command) == LISTENING_PORT <==> IsCasing(command, LISTENING_PORT)
  {
    UpperCaseOf(command, GETACK);
    UpperCaseOf(command, ACK);
    UpperCaseOf(command, CAPA);
    UpperCaseOf(command, LISTENING_PORT);
  }

  // ----- one request -----

  /** The arguments of SET are read from its lines, and the test for PX eats either nothing or the first two
      lines of the next command, which start `*` and `$` and so are never PX. */
  lemma SetReadsItsLines(st: Store, s: Bytes, p: nat, buffered: nat -> bool, key: Bytes, value: Bytes,
      more: seq<seq<Bytes>>)
    returns (q: nat)
    requires OneLine(key) && OneLine(value) && AllNamed(more)
    requires At(s, p, ArgLines([key, value]) + LogLines(more))
    ensures SetAt(st, s, p, true, buffered) == Continue(StoreSet(st, Kept(key), Kept(value)), q, OK, [])
    ensures p < q <= |s| && AtLog(s, q, more)
  {
    hide TrimSpace, ReadString, ArgLines, LogLines, OneLine, At, StoreSet, ReadOption;
    var m;
    m, q := ReadPair(s, p, key, value, LogLines(more));
    q := OptionIsALength(StoreSet(st, Kept(key), Kept(value)), s, q, Kept(key), buffered, more);
  }

  lemma OptionIsALength(st: Store, s: Bytes, p: nat, key: Bytes, buffered: nat -> bool, more: seq<seq<Bytes>>)
    returns (q: nat)
    requires AllNamed(more) && At(s, p, LogLines(more))
    ensures ReadOption(st, s, p, key, buffered) == (st, q)
    ensures p <= q <= |s| && AtLog(s, q, more)
  {
    hide TrimSpace, ReadString, ArgLines, LogLines, Tidy, OneLine, ToUpper, NamedLines, IsNoCommand;
    q := p;
    if buffered(p) && p < |s| {
      NothingLeft(s, p, more);
      assert more[0] in more;
      var a, b := MarkedNumber(ARRAY_MARK, |more[0]|), MarkedNumber(BULK_MARK, |more[0][0]|);
      TwoLinesThenName(more);
      MarkedNumberIsTidy(ARRAY_MARK, |more[0]|);
      MarkedNumberIsTidy(BULK_MARK, |more[0][0]|);
      q := ReadTwo(s, p, a, b, NamedLines(more));
      TrimOfTidy(b);
      NotACommand(b);
    }
  }

  lemma NothingLeft(s: Bytes, p: nat, more: seq<seq<Bytes>>)
    requires At(s, p, LogLines(more)) && p < |s|
    ensures more != []
  {
    assert |s[p..]| > 0;
  }

  /** With PX, in any case, the handler stops after the value; it goes on to the option, and starts a timer, exactly
      when bytes are buffered at that moment. */
  lemma SetReadsItsOption(st: Store, s: Bytes, p: nat, buffered: nat -> bool, key: Bytes, value: Bytes,
      option: Bytes, milliseconds: nat, rest: seq<Bytes>)
    returns (m: nat, q: nat)
    requires OneLine(key) && OneLine(value) && IsCasing(option, PX) && milliseconds <= MAX_INT
    requires At(s, p, ArgLines([key, value]) + (ArgLines([option, Itoa(milliseconds)]) + rest))
    ensures var stored := StoreSet(st, Kept(key), Kept(value));
            SetAt(st, s, p, true, buffered) ==
            if buffered(m) then
              Continue(stored.(timers := stored.timers + [(Kept(key), milliseconds)]), q, OK, [])
            else Continue(stored, m, OK, [])
    ensures p < m < q <= |s| && At(s, m, ArgLines([option, Itoa(milliseconds)]) + rest) && At(s, q, rest)
  {
    WordIsPx(option);
    NumeralIsTidy(milliseconds);
    hide TrimSpace, ReadString, ArgLines, Tidy, At, StoreSet, ToUpper, Itoa, Atoi, SpaceAtStart, SpaceAtEnd, IsCasing;
    var _, m' := ReadPair(s, p, key, value, ArgLines([option, Itoa(milliseconds)]) + rest);
    m := m';
    var _, q' := ReadPair(s, m, option, Itoa(milliseconds), rest);
    q := q';
    TrimOfTidy(option);
    TrimOfTidy(Itoa(milliseconds));
    AtoiItoa(milliseconds);
  }

  /** How many bytes are left at an option. */
  lemma OptionPosition(s: Bytes, m: nat, option: seq<Bytes>, more: seq<seq<Bytes>>)
    requires At(s, m, ArgLines(option) + LogLines(more))
    ensures m == |s| - |Log(more)| - |FrameArgs(option)|
  {
    hide ArgLines, LogLines, Log, FrameArgs;
    JoinAppend(ArgLines(option), LogLines(more));
    ArgsAreLines(option);
    LogIsLines(more);
  }

  /** An option that was not buffered in time is passed over line by line. */
  lemma PassOverOption(st: Store, session: Session, s: Bytes, m: nat, buffered: nat -> bool, option: Bytes,
      milliseconds: nat, rest: seq<Bytes>)
    returns (q: nat)
    requires IsCasing(option, PX) && At(s, m, ArgLines([option, Itoa(milliseconds)]) + rest)
    ensures m < q <= |s| && At(s, q, rest)
    ensures Serve(st, session, s, m, buffered) == Serve(st, session, s, q, buffered)
  {
    WordIsPx(option);
    NumeralIsTidy(milliseconds);
    hide Serve, ArgLines, At, MarkedNumber, Itoa, Tidy, OneLine, IsNoCommand, IsCasing;
    var n := Itoa(milliseconds);
    PairLines(option, n, rest);
    MarkedNumberIsTidy(BULK_MARK, |option|);
    MarkedNumberIsTidy(BULK_MARK, |n|);
    var k := PassOverTwo(
      st, session, s, m, buffered, MarkedNumber(BULK_MARK, |option|), option, [MarkedNumber(BULK_MARK, |n|), n] + rest);
    q := PassOverTwo(st, session, s, k, buffered, MarkedNumber(BULK_MARK, |n|), n, rest);
  }

  /** REPLCONF reads its own two lines, and does what its subcommand says, in whatever case that is spelled. */
  lemma ConfReadsItsLines(st: Store, session: Session, s: Bytes, p: nat, r: Request, rest: seq<Bytes>)
    returns (q: nat)
    requires r.ConfRequest? && r.IsSpelled()
    requires At(s, p, ArgLines([r.sub, r.val]) + rest)
    ensures p < q <= |s| && At(s, q, rest)
    ensures var effect := ReplConfAt(st, session.conn, s, p);
            if r.IsGetAck() && st.role.Master? then effect.Crash?
            else
              && effect.Continue? && effect.next == q
              && Handled(effect.store, Written(session, effect)) == HandleConf(st, session, r)
  {
    hide TrimSpace, ReadString, ArgLines, At, ToUpper, Frame, IsCasing, RecordAck, Atoi;
    WhichSubcommand(Kept(r.sub));
    NamesDiffer(Kept(r.sub));
    var m;
    m, q := ReadPair(s, p, r.sub, r.val, rest);
    NothingElse(Frame(AckArgs(if st.role.Slave? then st.role.replOffset else 0)));
  }

  lemma NothingElse(b: Bytes)
    ensures b + [] == b && [] + b == b
  {
  }

  /** A text spells at most one subcommand. */
  lemma NamesDiffer(command: Bytes)
    ensures GETACK != ACK && GETACK != CAPA && GETACK != LISTENING_PORT
    ensures ACK != CAPA && ACK != LISTENING_PORT
  {
    NamesAreSpelled();
  }

  /** The handler that the command loop goes to. */
  function HandlerAt(st: Store, session: Session, s: Bytes, m: nat, buffered: nat -> bool, r: Request): Effect
    requires m <= |s|
  {
    match r
    case SetRequest(_, _, _, _) => SetAt(st, s, m, session.authed, buffered)
    case PingRequest(_) => PingAt(st, m, session.authed)
    case ConfRequest(_, _, _) => ReplConfAt(st, session.conn, s, m)
  }

  lemma DispatchNamed(st: Store, session: Session, s: Bytes, line: Line, buffered: nat -> bool, r: Request)
    requires line.next <= |s| && ToUpper(TrimSpace(line.text)) == r.Name()
    ensures Dispatch(st, session, s, line, buffered) == HandlerAt(st, session, s, line.next, buffered, r)
    ensures !IsOtherCommand(ToUpper(TrimSpace(line.text)))
  {
    hide SetAt, ReplConfAt, PingAt, IsOtherCommand;
    NamesAreNoOther();
  }

  /** From the line that names a command on, the command loop goes to the handler. */
  lemma ReadName(st: Store, session: Session, s: Bytes, p: nat, buffered: nat -> bool, r: Request,
      more: seq<seq<Bytes>>)
    returns (m: nat)
    requires r.IsSpelled() && At(s, p, NamedLines([r.words] + more))
    ensures p < m <= |s| && At(s, m, ArgLines(r.words[1..]) + LogLines(more))
    ensures var effect := HandlerAt(st, session, s, m, buffered, r);
            Serve(st, session, s, p, buffered) ==
            if effect.Crash? then Crashed
            else Then(Written(session, effect), Serve(effect.store, session, s, effect.next, buffered))
  {
    hide TrimSpace, LogLines, ArgLines, At, ReadString, ToUpper, SetAt, PingAt, ReplConfAt, IsCasing, IsOtherCommand;
    var name := r.words[0];
    var rest := ArgLines(r.words[1..]) + LogLines(more);
    assert NamedLines([r.words] + more) == [name] + rest by { assert ([r.words] + more)[1..] == more; }
    CasingIsTidy(name, r.Name());
    ReadTidyAt(s, p, [name] + rest);
    assert ([name] + rest)[1..] == rest;
    var line := ReadString(s, p);
    m := line.next;
    DispatchNamed(st, session, s, line, buffered, r);
  }

  /** SET with an option, once the cursor stands behind its name. */
  lemma ServeSetPx(st: Store, session: Session, s: Bytes, p: nat, buffered: nat -> bool, r: Request,
      more: seq<seq<Bytes>>)
    returns (q: nat)
    requires r.HasPx() && r.IsSpelled()
    requires At(s, p, ArgLines(r.words[1..]) + LogLines(more))
    ensures p < q <= |s| && At(s, q, LogLines(more))
    ensures var effect := SetAt(st, s, p, true, buffered);
            && effect.Continue? && effect.reply == OK && effect.ack == []
            && Serve(effect.store, session, s, effect.next, buffered) ==
               Serve(HandleSet(st, session, |s|, buffered, r, more).store, session, s, q, buffered)
  {
    hide Serve, SetAt, ArgLines, LogLines, At, StoreSet, FrameArgs, Log, TrimSpace, IsCasing, Itoa, OneLine, Kept;
    var key, value, px := r.key, r.value, r.words[3..];
    assert px == [r.words[3], Itoa(r.px.value)];
    assert r.words[1..] == r.words[1..3] + px;
    ArgLinesAppend([key, value], px);
    assert ArgLines([key, value] + px) + LogLines(more) == ArgLines([key, value]) + (ArgLines(px) + LogLines(more));
    var m;
    m, q := SetReadsItsOption(st, s, p, buffered, key, value, r.words[3], r.px.value, LogLines(more));
    OptionPosition(s, m, px, more);
    if !buffered(m) {
      q := PassOverOption(
        StoreSet(st, Kept(key), Kept(value)), session, s, m, buffered, r.words[3], r.px.value, LogLines(more));
    }
  }

  /** PING, once the cursor stands behind its name. */
  lemma ServePing(st: Store, session: Session, p: nat, r: Request)
    requires r.PingRequest? && r.IsSpelled()
    ensures var effect := PingAt(st, p, session.authed);
            && effect.Continue? && effect.next == p
            && Handled(effect.store, Written(session, effect)) == HandlePing(st, session, r)
  {
    hide IsCasing;
    SameSize(r.words, [PING]) by { CasingIsAsLong(r.words[0], PING); }
    NothingElse(Reply(session, PONG));
    NothingElse(Reply(session, NOAUTH));
  }

  lemma CasingIsAsLong(x: Bytes, word: Bytes)
    requires IsCasing(x, word)
    ensures |x| == |word|
  {
  }

  lemma {:induction false} SameSize(args: seq<Bytes>, args': seq<Bytes>)
    requires |args| == |args'| && forall i :: 0 <= i < |args| ==> |args[i]| == |args'[i]|
    ensures |FrameArgs(args)| == |FrameArgs(args')| && |Frame(args)| == |Frame(args')|
    decreases |args|
  {
    if args != [] {
      SameSize(args[1..], args'[1..]);
    }
  }

  /** The first request of a log, once the cursor stands on the line that names it. */
  lemma ServeNamed(st: Store, session: Session, s: Bytes, p: nat, buffered: nat -> bool, r: Request,
      more: seq<seq<Bytes>>)
    returns (q: nat)
    requires r.IsSpelled() && (session.authed || !r.SetRequest?) && AllNamed(more)
    requires At(s, p, NamedLines([r.words] + more))
    ensures p < q <= |s| && AtLog(s, q, more)
    ensures Serve(st, session, s, p, buffered) ==
            if r.IsGetAck() && st.role.Master? then Crashed
            else
              var handled := Handle(st, session, |s|, buffered, r, more);
              Then(handled.output, Serve(handled.store, session, s, q, buffered))
  {
    hide LogLines, ArgLines, NamedLines, OneLine, At, StoreSet, SetAt, PingAt, ReplConfAt, Frame, FrameArgs, Log,
         TrimSpace, Serve, ReadString, ToUpper, IsOtherCommand, Kept, IsCasing, Itoa, HandleConf, HandlePing;
    var m := ReadName(st, session, s, p, buffered, r, more);
    match r
    case SetRequest(key, value, px, words) =>
      NothingElse(Reply(session, OK));
      if px.Some? {
        q := ServeSetPx(st, session, s, m, buffered, r, more);
      } else {
        q := SetReadsItsLines(st, s, m, buffered, key, value, more);
      }
    case PingRequest(words) =>
      ServePing(st, session, m, r);
      q := m;
      NoArguments(s, m, words[1..], more);
    case ConfRequest(sub, val, words) =>
      q := ConfReadsItsLines(st, session, s, m, r, LogLines(more));
  }

  lemma NoArguments(s: Bytes, m: nat, args: seq<Bytes>, more: seq<seq<Bytes>>)
    requires args == [] && AllNamed(more) && At(s, m, ArgLines(args) + LogLines(more))
    ensures AtLog(s, m, more)
  {
    hide At, LogLines;
    assert ArgLines(args) + LogLines(more) == LogLines(more);
  }

  // ----- all requests -----

  lemma SpelledAreNamed(requests: seq<Request>)
    requires forall r :: r in requests ==> r.IsSpelled()
    ensures AllNamed(Words(requests))
  {
    forall words | words in Words(requests) ensures words != [] {
      var i :| 0 <= i < |requests| && requests[i].words == words;
      assert requests[i] in requests;
    }
  }

  /** Serving a log of requests does what the requests say, one after the other, for every outcome of the buffering
      tests. `skipped` says that the test of the request before has eaten two lines. */
  lemma {:induction false} ServeRequestLog(
    st: Store, session: Session, s: Bytes, p: nat, buffered: nat -> bool, requests: seq<Request>, skipped: bool)
    requires CanSend(session, requests)
    requires if skipped then requests != [] && requests[0].words != [] && At(s, p, NamedLines(Words(requests)))
             else At(s, p, LogLines(Words(requests)))
    ensures Serve(st, session, s, p, buffered) == ServeRequests(st, session, |s|, buffered, requests)
    decreases |s| - p
  {
    hide LogLines, ArgLines, NamedLines, OneLine, At, ReadString, Handle, TrimSpace, IsCasing, Itoa;
    if requests == [] {
      assert Words(requests) == [];
      EndOfLog(s, p);
    } else {
      hide Serve;
      var r, rest := requests[0], requests[1..];
      var more := Words(rest);
      assert Words(requests) == [r.words] + more;
      assert r in requests && forall x :: x in rest ==> x in requests;
      SpelledAreNamed(rest);
      if !skipped {
        var q := PassOverStart(st, session, s, p, buffered, [r.words] + more);
        ServeRequestLog(st, session, s, q, buffered, requests, true);
      } else {
        var q := ServeNamed(st, session, s, p, buffered, r, more);
        if !(r.IsGetAck() && st.role.Master?) {
          var st' := Handle(st, session, |s|, buffered, r, more).store;
          ServeRequestLog(st', session, s, q, buffered, rest, !At(s, q, LogLines(more)));
        }
      }
    }
  }

  /** The whole of a log. */
  lemma ServeAll(st: Store, session: Session, buffered: nat -> bool, requests: seq<Request>)
    requires CanSend(session, requests)
    ensures var s := Log(Words(requests));
            Serve(st, session, s, 0, buffered) == ServeRequests(st, session, |s|, buffered, requests)
  {
    hide *;
    LogStartsAt(Words(requests));
    ServeRequestLog(st, session, Log(Words(requests)), 0, buffered, requests, false);
  }

  /** Commands as a server prints them. */
  function PlainRequest(c: Command): Request {
    match c
    case SetCommand(key, value) => SetRequest(key, value, None, Args(c))
    case GetAckCommand => ConfRequest(GETACK, STAR, Args(c))
  }

  function Plain(commands: seq<Command>): seq<Request> {
    seq(|commands|, i requires 0 <= i < |commands| => PlainRequest(commands[i]))
  }

  lemma PlainIsSpelled(c: Command)
    requires c.SetCommand? ==> OneLine(c.key) && OneLine(c.value)
    ensures PlainRequest(c).IsSpelled() && PlainRequest(c).words == Args(c)
    ensures PlainRequest(c).IsGetAck() <==> c.GetAckCommand?
  {
    assert IsPrintable(GETACK) && IsPrintable(STAR);
    PrintableIsTidy(GETACK);
    PrintableIsTidy(STAR);
    TrimOfTidy(GETACK);
  }

  lemma PlainCanSend(session: Session, commands: seq<Command>)
    requires Readable(commands) && (session.authed || forall c :: c in commands ==> c.GetAckCommand?)
    ensures CanSend(session, Plain(commands)) && Words(Plain(commands)) == AllArgs(commands)
  {
    hide IsCasing, OneLine;
    var plain := Plain(commands);
    forall i | 0 <= i < |commands| ensures plain[i].IsSpelled() && plain[i].words == Args(commands[i]) {
      assert commands[i] in commands;
      PlainIsSpelled(commands[i]);
    }
    forall r | r in plain ensures r.IsSpelled() && (session.authed || !r.SetRequest?) {
      var i :| 0 <= i < |plain| && plain[i] == r;
      assert commands[i] in commands;
    }
    assert Words(plain) == AllArgs(commands);
  }

  lemma HandlePlain(st: Store, session: Session, size: nat, buffered: nat -> bool, c: Command, more: seq<seq<Bytes>>)
    requires (c.SetCommand? ==> OneLine(c.key) && OneLine(c.value)) && !(c.GetAckCommand? && st.role.Master?)
    ensures !(PlainRequest(c).IsGetAck() && st.role.Master?)
    ensures Handle(st, session, size, buffered, PlainRequest(c), more)
            == Handled(After1(st, c), Output1(session, st, c))
  {
    PlainIsSpelled(c);
    hide IsCasing, StoreSet, Frame, TrimSpace;
  }

  lemma {:induction false} ServePlain(
    st: Store, session: Session, size: nat, buffered: nat -> bool, commands: seq<Command>)
    requires Readable(commands)
    ensures ServeRequests(st, session, size, buffered, Plain(commands)) ==
            if st.role.Master? && GetAckCommand in commands then Crashed
            else Finished(After(st, commands), Output(session, st, commands))
    decreases |commands|
  {
    hide Handle, IsCasing, After1, Output1, OneLine;
    if commands != [] {
      var c := commands[0];
      assert c in commands && Plain(commands)[1..] == Plain(commands[1..]);
      PlainIsSpelled(c);
      RoleStays(st, c);
      if !(c.GetAckCommand? && st.role.Master?) {
        HandlePlain(st, session, size, buffered, c, Words(Plain(commands[1..])));
        ServePlain(After1(st, c), session, size, buffered, commands[1..]);
      }
    }
  }

  lemma RoleStays(st: Store, c: Command)
    ensures After1(st, c).role.Master? == st.role.Master?
  {
  }

  /** Serving a log of SET and GETACK frames does what the commands say, and panics exactly when it is a master that
      is sent a GETACK: for every outcome of the buffering tests. */
  lemma ServeLog(st: Store, session: Session, s: Bytes, buffered: nat -> bool, commands: seq<Command>)
    requires Readable(commands) && (session.authed || forall c :: c in commands ==> c.GetAckCommand?)
    requires s == Log(AllArgs(commands))
    ensures Serve(st, session, s, 0, buffered) ==
            if st.role.Master? && GetAckCommand in commands then Crashed
            else Finished(After(st, commands), Output(session, st, commands))
  {
    hide *;
    PlainCanSend(session, commands);
    ServeAll(st, session, buffered, Plain(commands));
    ServePlain(st, session, |s|, buffered, commands);
  }
}
