/** What follows for streams of requests: case does not matter, when a master panics, what the handshake and PING are
    answered with, what a replica counts, and which timers start. */
module RequestLaws {
  import opened Numbers
  import opened RespValue
  import opened RespParsing
  import opened Frames
  import opened Lines
  import opened ServerState
  import opened ServerLog
  import opened Requests

  // ----- case -----

  /** Two ways to spell one request: words of the same sizes, with names, options and subcommands in different case. */
  predicate SameButCase(a: Request, b: Request) {
    && |a.words| == |b.words| && (forall i :: 0 <= i < |a.words| ==> |a.words[i]| == |b.words[i]|)
    && match a
       case SetRequest(key, value, px, _) => b.SetRequest? && b.key == key && b.value == value && b.px == px
       case PingRequest(_) => b.PingRequest?
       case ConfRequest(sub, val, _) =>
         && b.ConfRequest? && b.val == val
         && forall word :: word in {GETACK, ACK, CAPA, LISTENING_PORT} ==>
              (IsCasing(Kept(sub), word) <==> IsCasing(Kept(b.sub), word))
  }

  predicate AllSameButCase(a: seq<Request>, b: seq<Request>) {
    |a| == |b| && forall i :: 0 <= i < |a| ==> SameButCase(a[i], b[i])
  }

  lemma {:induction false} SameLogSize(a: seq<Request>, b: seq<Request>)
    requires AllSameButCase(a, b)
    ensures |Log(Words(a))| == |Log(Words(b))|
    decreases |a|
  {
    hide Frame, IsCasing, Kept;
    if a != [] {
      assert Words(a)[1..] == Words(a[1..]) && Words(b)[1..] == Words(b[1..]);
      SameLogSize(a[1..], b[1..]);
      assert SameButCase(a[0], b[0]);
      SameSize(a[0].words, b[0].words);
    }
  }

  lemma SameHandling(st: Store, session: Session, size: nat, buffered: nat -> bool, a: Request, b: Request,
      more: seq<seq<Bytes>>, more': seq<seq<Bytes>>)
    requires SameButCase(a, b) && |Log(more)| == |Log(more')|
    ensures a.IsGetAck() <==> b.IsGetAck()
    ensures !(a.IsGetAck() && st.role.Master?) ==>
              Handle(st, session, size, buffered, a, more) == Handle(st, session, size, buffered, b, more')
  {
    hide Frame, FrameArgs, IsCasing, Kept, Log, Atoi, StoreSet, RecordAck;
    SameSize(a.words, b.words);
    if |a.words| == 5 {
      SameSize(a.words[3..], b.words[3..]);
    }
    assert GETACK in {GETACK, ACK, CAPA, LISTENING_PORT} && ACK in {GETACK, ACK, CAPA, LISTENING_PORT};
    assert CAPA in {GETACK, ACK, CAPA, LISTENING_PORT} && LISTENING_PORT in {GETACK, ACK, CAPA, LISTENING_PORT};
  }

  lemma {:induction false} SameServing(
    st: Store, session: Session, size: nat, buffered: nat -> bool, a: seq<Request>, b: seq<Request>)
    requires AllSameButCase(a, b)
    ensures ServeRequests(st, session, size, buffered, a) == ServeRequests(st, session, size, buffered, b)
    decreases |a|
  {
    hide Handle, SameButCase, IsCasing, Kept, Log;
    if a != [] {
      var more, more' := Words(a[1..]), Words(b[1..]);
      SameLogSize(a[1..], b[1..]);
      SameHandling(st, session, size, buffered, a[0], b[0], more, more');
      if !(a[0].IsGetAck() && st.role.Master?) {
        SameServing(Handle(st, session, size, buffered, a[0], more).store, session, size, buffered, a[1..], b[1..]);
      }
    }
  }

  /** Case does not matter: however the names of commands, options and subcommands are spelled, a stream of requests is
      served alike. */
  lemma CaseDoesNotMatter(
    st: Store, session: Session, buffered: nat -> bool, a: seq<Request>, b: seq<Request>)
    requires CanSend(session, a) && CanSend(session, b) && AllSameButCase(a, b)
    ensures Serve(st, session, Log(Words(a)), 0, buffered) == Serve(st, session, Log(Words(b)), 0, buffered)
  {
    hide *;
    SameLogSize(a, b);
    ServeAll(st, session, buffered, a);
    ServeAll(st, session, buffered, b);
    SameServing(st, session, |Log(Words(a))|, buffered, a, b);
  }

  /** A SET in lower case or any other, with PX in any case, is the SET in upper case. */
  lemma AnySet(st: Store, session: Session, buffered: nat -> bool, name: Bytes, option: Bytes,
      key: Bytes, value: Bytes, milliseconds: nat)
    requires session.authed && IsCasing(name, SET) && IsCasing(option, PX)
    requires OneLine(key) && OneLine(value) && milliseconds <= MAX_INT
    ensures Serve(st, session, Frame([name, key, value]), 0, buffered) ==
            Serve(st, session, Frame([SET, key, value]), 0, buffered)
    ensures Serve(st, session, Frame([name, key, value, option, Itoa(milliseconds)]), 0, buffered) ==
            Serve(st, session, Frame([SET, key, value, PX, Itoa(milliseconds)]), 0, buffered)
  {
    var n := Itoa(milliseconds);
    var a := SetRequest(key, value, None, [name, key, value]);
    var b := SetRequest(key, value, None, [SET, key, value]);
    var c := SetRequest(key, value, Some(milliseconds), [name, key, value, option, n]);
    var d := SetRequest(key, value, Some(milliseconds), [SET, key, value, PX, n]);
    assert IsCasing(SET, SET) && IsCasing(PX, PX);
    assert [name, key, value, option, n][1..3] == [key, value] && [SET, key, value, PX, n][1..3] == [key, value];
    assert a.IsSpelled() && b.IsSpelled() && c.IsSpelled() && d.IsSpelled();
    assert SameButCase(a, b) && SameButCase(c, d);
    hide *;
    OneIsLog(a);
    OneIsLog(b);
    OneIsLog(c);
    OneIsLog(d);
    OneCanSend(session, a, b);
    OneCanSend(session, c, d);
    CaseDoesNotMatter(st, session, buffered, [a], [b]);
    CaseDoesNotMatter(st, session, buffered, [c], [d]);
  }

  lemma OneIsLog(r: Request)
    ensures Log(Words([r])) == Frame(r.words)
  {
    assert Words([r]) == [r.words];
    OneFrame(r.words);
  }

  lemma OneCanSend(session: Session, a: Request, b: Request)
    requires session.authed && a.IsSpelled() && b.IsSpelled() && SameButCase(a, b)
    ensures CanSend(session, [a]) && CanSend(session, [b]) && AllSameButCase([a], [b])
  {
  }

  // ----- panics -----

  predicate HasGetAck(requests: seq<Request>) {
    exists r :: r in requests && r.IsGetAck()
  }

  lemma HandleKeepsRole(
    st: Store, session: Session, size: nat, buffered: nat -> bool, r: Request, more: seq<seq<Bytes>>)
    requires !(r.IsGetAck() && st.role.Master?)
    ensures Handle(st, session, size, buffered, r, more).store.role.Master? == st.role.Master?
  {
    hide Frame, Kept, IsCasing, PxIsSeen, Atoi;
  }

  lemma {:induction false} WhenRequestsCrash(
    st: Store, session: Session, size: nat, buffered: nat -> bool, requests: seq<Request>)
    ensures var served := ServeRequests(st, session, size, buffered, requests);
            && (served.Crashed? <==> st.role.Master? && HasGetAck(requests))
            && (served.Finished? <==> !served.Crashed?)
    decreases |requests|
  {
    hide Handle, IsCasing, Kept;
    if requests != [] {
      var r, more := requests[0], Words(requests[1..]);
      assert requests == [r] + requests[1..];
      if !(r.IsGetAck() && st.role.Master?) {
        HandleKeepsRole(st, session, size, buffered, r, more);
        WhenRequestsCrash(
          Handle(st, session, size, buffered, r, more).store, session, size, buffered, requests[1..]);
      }
    }
  }

  /** A server panics on a log of SETs, with or without options, PINGs and REPLCONFs exactly when it is a master and
      there is a GETACK among them; otherwise it serves all of it. */
  lemma CrashesExactlyOnGetAck(st: Store, session: Session, buffered: nat -> bool, requests: seq<Request>)
    requires CanSend(session, requests)
    ensures var served := Serve(st, session, Log(Words(requests)), 0, buffered);
            && (served.Crashed? <==> st.role.Master? && HasGetAck(requests))
            && (served.Finished? <==> !served.Crashed?)
  {
    hide *;
    ServeAll(st, session, buffered, requests);
    WhenRequestsCrash(st, session, |Log(Words(requests))|, buffered, requests);
  }

  lemma OneFrame(args: seq<Bytes>)
    ensures Log([args]) == Frame(args)
  {
    hide Frame;
    assert Log([args][1..]) == [];
  }

  /** A single request. */
  lemma ServeOne(st: Store, session: Session, buffered: nat -> bool, r: Request)
    requires CanSend(session, [r])
    ensures var s := Frame(r.words);
            Serve(st, session, s, 0, buffered) ==
            if r.IsGetAck() && st.role.Master? then Crashed
            else
              var handled := Handle(st, session, |s|, buffered, r, []);
              Finished(handled.store, handled.output)
  {
    assert Words([r]) == [r.words] && [r][1..] == [] && Words([]) == [];
    hide Serve, Frame, Handle, Log, IsCasing, Kept;
    OneFrame(r.words);
    ServeAll(st, session, buffered, [r]);
    assert forall b: Bytes :: b + [] == b;
  }

  /** A single GETACK makes a master panic, whether or not the client is authenticated. */
  lemma GetAckCrashesMaster(st: Store, session: Session, buffered: nat -> bool)
    requires st.role == Master
    ensures Serve(st, session, Frame(GetAckArgs()), 0, buffered) == Crashed
  {
    var r := PlainRequest(GetAckCommand);
    PlainIsSpelled(GetAckCommand);
    assert r.ConfRequest?;
    hide *;
    ConfCanSend(session, r);
    ServeOne(st, session, buffered, r);
  }

  lemma ConfCanSend(session: Session, r: Request)
    requires !r.SetRequest? && r.IsSpelled()
    ensures CanSend(session, [r])
  {
  }

  // ----- the handshake -----

  lemma KeptCasing(sub: Bytes, word: Bytes)
    requires IsCasing(sub, word) && word in {GETACK, ACK, CAPA, LISTENING_PORT}
    ensures Kept(sub) == sub && OneLine(sub)
  {
    assert IsPrintable(sub);
    PrintableIsTidy(sub);
    hide TrimSpace, Tidy;
    assert OneLine(sub) by { TidyIsOneLine(sub); }
    TrimOfTidy(sub);
  }

  lemma TidyIsOneLine(x: Bytes)
    requires Tidy(x)
    ensures OneLine(x)
  {
  }

  /** A text spells at most one subcommand. */
  lemma OneSubcommand(sub: Bytes, word: Bytes)
    requires IsCasing(sub, word) && word in {GETACK, ACK, CAPA, LISTENING_PORT}
    ensures forall other :: other in {GETACK, ACK, CAPA, LISTENING_PORT} && IsCasing(sub, other) ==> other == word
  {
    hide IsCasing;
    WhichSubcommand(sub);
    hide ToUpper;
  }

  lemma HandshakeIsHandled(
    st: Store, session: Session, size: nat, buffered: nat -> bool, r: Request, more: seq<seq<Bytes>>, word: Bytes)
    requires st.role == Master && !session.silent && r.ConfRequest?
    requires IsCasing(r.sub, word) && word in {CAPA, LISTENING_PORT}
    ensures !r.IsGetAck() && Handle(st, session, size, buffered, r, more) == Handled(st, OK)
  {
    NamesDiffer(word);
    hide IsCasing, Kept, Frame;
    KeptCasing(r.sub, word);
    OneSubcommand(r.sub, word);
  }

  /** A master answers `+OK` to REPLCONF listening-port and REPLCONF capa, in any mix of case, to any client, and
      nothing else happens: the lines that a replica waits for while it joins. */
  lemma HandshakeIsAnswered(st: Store, session: Session, buffered: nat -> bool, name: Bytes, sub: Bytes, val: Bytes,
      word: Bytes)
    requires st.role == Master && !session.silent && word in {CAPA, LISTENING_PORT}
    requires IsCasing(name, REPLCONF) && IsCasing(sub, word) && OneLine(val)
    ensures Serve(st, session, Frame([name, sub, val]), 0, buffered) == Finished(st, OK)
  {
    var r := ConfRequest(sub, val, [name, sub, val]);
    hide *;
    KeptCasing(sub, word);
    ConfIsSpelled(name, sub, val);
    ConfCanSend(session, r);
    ServeOne(st, session, buffered, r);
    HandshakeIsHandled(st, session, |Frame(r.words)|, buffered, r, [], word);
  }

  lemma ConfIsSpelled(name: Bytes, sub: Bytes, val: Bytes)
    requires IsCasing(name, REPLCONF) && OneLine(sub) && OneLine(val)
    ensures ConfRequest(sub, val, [name, sub, val]).IsSpelled()
  {
    hide IsCasing, OneLine;
  }

  // ----- PING -----

  /** A reply is read as what stands between its mark and its end. */
  lemma ReplyIsFrame(reply: Bytes, text: Bytes)
    requires NoCRLF(text) && |reply| > 0 && reply[1..] == text + CRLF
    ensures reply[0] == SIMPLE_MARK ==> ParseValue(reply, 0) == Done((SimpleString(text), |reply|))
    ensures reply[0] == ERROR_MARK ==> ParseValue(reply, 0) == Done((ErrorString(text), |reply|))
  {
    assert reply[1..1 + |text| + 2] == text + CRLF;
    assert reply[1..1 + |text|] == (text + CRLF)[..|text|] == text;
    FindAt(reply, 1, text);
  }

  lemma NoReturn(s: Bytes)
    requires CR !in s
    ensures NoCRLF(s)
  {
  }

  /** The replies are simple strings and an error of the protocol. */
  lemma OkIsFrame() returns (text: Bytes)
    ensures Text(text) == "OK" && ParseValue(OK, 0) == Done((SimpleString(text), |OK|))
  {
    text := [79, 75];
    hide ParseValue, NoCRLF;
    NoReturn(text);
    ReplyIsFrame(OK, text);
  }

  lemma PongIsFrame() returns (text: Bytes)
    ensures Text(text) == "PONG" && ParseValue(PONG, 0) == Done((SimpleString(text), |PONG|))
  {
    text := [80, 79, 78, 71];
    hide ParseValue, NoCRLF;
    NoReturn(text);
    ReplyIsFrame(PONG, text);
  }

  lemma NoAuthIsFrame()
    ensures var text := NOAUTH[1..|NOAUTH| - 2]; ParseValue(NOAUTH, 0) == Done((ErrorString(text), |NOAUTH|))
  {
    var text := NOAUTH[1..|NOAUTH| - 2];
    assert forall i :: 1 <= i < |NOAUTH| - 2 ==> NOAUTH[i] != CR;
    assert NOAUTH[1..] == text + CRLF && NOAUTH[0] == ERROR_MARK;
    NoReturn(text);
    hide ParseValue, NoCRLF;
    ReplyIsFrame(NOAUTH, text);
  }

  lemma PingIsHandled(
    st: Store, session: Session, size: nat, buffered: nat -> bool, r: Request, more: seq<seq<Bytes>>)
    requires r.PingRequest?
    ensures !r.IsGetAck()
    ensures Handle(st, session, size, buffered, r, more) ==
            Handled(
              if session.authed && st.role.Slave?
              then st.(role := Slave(st.role.replOffset + |Frame(r.words)|)) else st,
              if session.silent then [] else if session.authed then PONG else NOAUTH)
  {
    hide Frame;
  }

  /** A PING is answered with PONG if the client is authenticated; a master's state stays, and a replica counts the
      bytes of the frame. */
  lemma PingIsAnswered(st: Store, session: Session, buffered: nat -> bool, name: Bytes)
    requires IsCasing(name, PING)
    ensures Serve(st, session, Frame([name]), 0, buffered) ==
            Finished(
              if session.authed && st.role.Slave? then st.(role := Slave(st.role.replOffset + |Frame([name])|)) else st,
              if session.silent then [] else if session.authed then PONG else NOAUTH)
  {
    var r := PingRequest([name]);
    hide Serve, Frame, IsCasing, Handle;
    ConfCanSend(session, r);
    ServeOne(st, session, buffered, r);
    PingIsHandled(st, session, |Frame(r.words)|, buffered, r, []);
  }

  // ----- what a replica counts -----

  /** What a master or the tester sends a replica: SETs with tidy arguments, GETACKs and PINGs. */
  predicate IsCounted(r: Request) {
    match r
    case SetRequest(key, value, px, _) => px.None? && Tidy(key) && Tidy(value)
    case PingRequest(_) => true
    case ConfRequest(sub, val, _) => IsCasing(sub, GETACK) && |val| == 1
  }

  /** Each GETACK is answered with the bytes before it. */
  function AcksFor(offset: int, requests: seq<Request>): Bytes
    decreases |requests|
  {
    if requests == [] then []
    else (if requests[0].IsGetAck() then Frame(AckArgs(offset)) else [])
         + AcksFor(offset + |Frame(requests[0].words)|, requests[1..])
  }

  lemma SetIsCounted(st: Store, session: Session, size: nat, buffered: nat -> bool, r: Request, more: seq<seq<Bytes>>)
    requires r.SetRequest? && st.role.Slave? && r.IsSpelled() && IsCounted(r)
    ensures HandleSet(st, session, size, buffered, r, more).store.role
            == Slave(st.role.replOffset + |Frame(r.words)|)
  {
    hide IsCasing, Frame, Tidy, PxIsSeen, StoreSet, Kept;
    assert r.px.None? && Kept(r.key) == r.key && Kept(r.value) == r.value by { hide *; KeptTidyArgs(r); }
    SetFrameSize(r.words, r.key, r.value);
    SetCounts(st, r.key, r.value);
  }

  lemma KeptTidyArgs(r: Request)
    requires r.SetRequest? && IsCounted(r)
    ensures r.px.None? && Kept(r.key) == r.key && Kept(r.value) == r.value
  {
    hide TrimSpace, Tidy;
    TrimOfTidy(r.key);
    TrimOfTidy(r.value);
  }

  lemma SetFrameSize(words: seq<Bytes>, key: Bytes, value: Bytes)
    requires words != [] && IsCasing(words[0], SET) && words[1..] == [key, value]
    ensures |Frame(words)| == |Frame(SetArgs(key, value))|
  {
    CasingIsAsLong(words[0], SET);
    hide Frame, IsCasing;
    assert words == [words[0], key, value];
    SameSize(words, SetArgs(key, value));
  }

  lemma SetCounts(st: Store, key: Bytes, value: Bytes)
    requires st.role.Slave?
    ensures StoreSet(st, key, value).role == Slave(st.role.replOffset + |Frame(SetArgs(key, value))|)
  {
    hide Frame;
  }

  lemma ConfIsCounted(st: Store, session: Session, r: Request)
    requires r.ConfRequest? && st.role.Slave? && r.IsSpelled() && IsCounted(r)
    ensures r.IsGetAck() && |Frame(r.words)| == GETACK_SIZE
  {
    hide IsCasing, Frame, Kept, OneLine;
    KeptCasing(r.sub, GETACK);
    GetAckFrameSize(r.words, r.sub, r.val);
  }

  lemma GetAckFrameSize(words: seq<Bytes>, sub: Bytes, val: Bytes)
    requires words != [] && IsCasing(words[0], REPLCONF) && words[1..] == [sub, val]
    requires IsCasing(sub, GETACK) && |val| == 1
    ensures |Frame(words)| == GETACK_SIZE
  {
    CasingIsAsLong(words[0], REPLCONF);
    CasingIsAsLong(sub, GETACK);
    hide Frame, IsCasing;
    assert words == [words[0], sub, val];
    SameSize(words, GetAckArgs());
    GetAckSize();
  }

  lemma CountedOnce(st: Store, session: Session, size: nat, buffered: nat -> bool, r: Request, more: seq<seq<Bytes>>)
    requires st.role.Slave? && session.authed && r.IsSpelled() && IsCounted(r)
    ensures var handled := Handle(st, session, size, buffered, r, more);
            && handled.store.role == Slave(st.role.replOffset + |Frame(r.words)|)
            && (session.silent ==>
                handled.output == if r.IsGetAck() then Frame(AckArgs(st.role.replOffset)) else [])
  {
    hide IsCasing, Frame, Kept;
    match r
    case SetRequest(_, _, _, _) => SetIsCounted(st, session, size, buffered, r, more);
    case PingRequest(_) =>
    case ConfRequest(_, _, _) => ConfIsCounted(st, session, r);
  }

  lemma {:induction false} RequestsAreCounted(
    st: Store, session: Session, size: nat, buffered: nat -> bool, requests: seq<Request>)
    requires st.role.Slave? && session.authed
    requires forall r :: r in requests ==> r.IsSpelled() && IsCounted(r)
    ensures var served := ServeRequests(st, session, size, buffered, requests);
            && served.Finished?
            && served.store.role == Slave(st.role.replOffset + |Log(Words(requests))|)
            && (session.silent ==> served.output == AcksFor(st.role.replOffset, requests))
    decreases |requests|
  {
    hide Handle, Frame, IsCasing, Kept, IsCounted;
    if requests != [] {
      var r, rest := requests[0], requests[1..];
      assert r in requests && forall x :: x in rest ==> x in requests;
      CountedOnce(st, session, size, buffered, r, Words(rest));
      RequestsAreCounted(Handle(st, session, size, buffered, r, Words(rest)).store, session, size, buffered, rest);
      assert Words(requests)[1..] == Words(rest);
    }
  }

  /** A replica that is served any log of SETs, GETACKs and PINGs raises its offset by exactly the bytes of the log, and
      if its connection is silent it answers each GETACK with the offset before it and writes nothing else. */
  lemma ReplicaCounts(st: Store, session: Session, buffered: nat -> bool, requests: seq<Request>)
    requires st.role.Slave? && session.authed
    requires forall r :: r in requests ==> r.IsSpelled() && IsCounted(r)
    ensures var served := Serve(st, session, Log(Words(requests)), 0, buffered);
            && served.Finished?
            && served.store.role == Slave(st.role.replOffset + |Log(Words(requests))|)
            && (session.silent ==> served.output == AcksFor(st.role.replOffset, requests))
  {
    assert CanSend(session, requests);
    hide *;
    ServeAll(st, session, buffered, requests);
    RequestsAreCounted(st, session, |Log(Words(requests))|, buffered, requests);
  }

  // ----- timers -----

  /** The timer that an option starts if it is seen in time. */
  function TimerSeen(size: nat, buffered: nat -> bool, r: Request, more: seq<seq<Bytes>>): seq<(Bytes, int)> {
    if PxIsSeen(size, buffered, r, more) then [(Kept(r.key), r.px.value)] else []
  }

  function TimersSeen(size: nat, buffered: nat -> bool, requests: seq<Request>): seq<(Bytes, int)>
    decreases |requests|
  {
    if requests == [] then []
    else TimerSeen(size, buffered, requests[0], Words(requests[1..])) + TimersSeen(size, buffered, requests[1..])
  }

  lemma TimerStarted(st: Store, session: Session, size: nat, buffered: nat -> bool, r: Request, more: seq<seq<Bytes>>)
    requires !(r.IsGetAck() && st.role.Master?)
    ensures Handle(st, session, size, buffered, r, more).store.timers == st.timers + TimerSeen(size, buffered, r, more)
  {
    hide PxIsSeen, Frame, Kept, IsCasing, Atoi;
    assert PxIsSeen(size, buffered, r, more) ==> r.HasPx() by { SeenHasPx(size, buffered, r, more); }
  }

  lemma SeenHasPx(size: nat, buffered: nat -> bool, r: Request, more: seq<seq<Bytes>>)
    ensures PxIsSeen(size, buffered, r, more) ==> r.HasPx()
  {
  }

  lemma Regroup(a: seq<(Bytes, int)>, b: seq<(Bytes, int)>, c: seq<(Bytes, int)>)
    ensures (a + b) + c == a + (b + c)
  {
  }

  lemma {:induction false} TimersStarted(
    st: Store, session: Session, size: nat, buffered: nat -> bool, requests: seq<Request>)
    requires ServeRequests(st, session, size, buffered, requests).Finished?
    ensures ServeRequests(st, session, size, buffered, requests).store.timers
            == st.timers + TimersSeen(size, buffered, requests)
    decreases |requests|
  {
    hide Handle, TimerSeen, IsCasing, Kept;
    if requests == [] {
      assert st.timers + [] == st.timers;
    } else {
      var r, more := requests[0], Words(requests[1..]);
      TimerStarted(st, session, size, buffered, r, more);
      var st' := Handle(st, session, size, buffered, r, more).store;
      TimersStarted(st', session, size, buffered, requests[1..]);
      Regroup(st.timers, TimerSeen(size, buffered, r, more), TimersSeen(size, buffered, requests[1..]));
    }
  }

  /** No option is buffered when its handler looks for it. */
  predicate NoPxIsSeen(size: nat, buffered: nat -> bool, requests: seq<Request>) {
    forall k :: 0 <= k < |requests| ==> !PxIsSeen(size, buffered, requests[k], Words(requests[k + 1..]))
  }

  lemma {:induction false} NoTimers(size: nat, buffered: nat -> bool, requests: seq<Request>)
    ensures TimersSeen(size, buffered, requests) == [] <==> NoPxIsSeen(size, buffered, requests)
    decreases |requests|
  {
    hide PxIsSeen, Words;
    if requests != [] {
      var rest := requests[1..];
      NoTimers(size, buffered, rest);
      assert forall k :: 0 <= k < |rest| ==> rest[k] == requests[k + 1] && rest[k + 1..] == requests[k + 2..];
      if NoPxIsSeen(size, buffered, rest) && !PxIsSeen(size, buffered, requests[0], Words(rest)) {
        forall k | 0 <= k < |requests|
          ensures !PxIsSeen(size, buffered, requests[k], Words(requests[k + 1..]))
        {
          if k > 0 {
            assert requests[k] == rest[k - 1] && requests[k + 1..] == rest[k..];
          }
        }
      }
      if NoPxIsSeen(size, buffered, requests) {
        forall k | 0 <= k < |rest| ensures !PxIsSeen(size, buffered, rest[k], Words(rest[k + 1..])) {
          assert rest[k] == requests[k + 1] && rest[k + 1..] == requests[k + 2..];
        }
      }
    }
  }

  /** Serving requests to the end starts exactly the timers of the options that were seen. */
  lemma ServedTimers(st: Store, session: Session, buffered: nat -> bool, requests: seq<Request>)
    requires CanSend(session, requests) && !(st.role.Master? && HasGetAck(requests))
    ensures var s := Log(Words(requests));
            var served := Serve(st, session, s, 0, buffered);
            && served.Finished?
            && served.store.timers == st.timers + TimersSeen(|s|, buffered, requests)
  {
    var s := Log(Words(requests));
    hide *;
    ServeAll(st, session, buffered, requests);
    WhenRequestsCrash(st, session, |s|, buffered, requests);
    TimersStarted(st, session, |s|, buffered, requests);
  }

  /** A SET with an expiry that arrives in one piece starts its timer. */
  lemma PxInOnePiece(r: Request)
    requires r.HasPx() && r.IsSpelled()
    ensures !NoPxIsSeen(|Log(Words([r]))|, p => true, [r])
  {
    hide Log, FrameArgs, Frame, IsCasing, Itoa;
    assert [r][1..] == [] && Words([]) == [];
    OneIsLog(r);
    FrameIsLonger(r.words[..3], r.words[3..]);
    assert r.words[..3] + r.words[3..] == r.words;
    NothingIsLogged();
    assert PxIsSeen(|Log(Words([r]))|, p => true, [r][0], Words([r][1..]));
  }

  lemma NothingIsLogged()
    ensures Log([]) == []
  {
  }

  lemma {:induction false} FrameIsLonger(args: seq<Bytes>, more: seq<Bytes>)
    ensures |FrameArgs(args + more)| >= |FrameArgs(more)| && |Frame(args + more)| >= |FrameArgs(more)|
    decreases |args|
  {
    if args == [] {
      assert args + more == more;
    } else {
      assert (args + more)[1..] == args[1..] + more;
      FrameIsLonger(args[1..], more);
    }
  }
}
