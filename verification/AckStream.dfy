/** ACKs as bytes: what a replica answers with, what of it has been delivered, and what the master makes of that. */
module AckStream {
  import opened Numbers
  import opened Frames
  import opened Lines
  import opened ServerState
  import opened ServerLog
  import opened FileReplay
  import opened Requests
  import opened RequestLaws
  import opened SetAgreement
  import opened Replication

  function AckLog(offsets: seq<int>): seq<seq<Bytes>> {
    seq(|offsets|, i requires 0 <= i < |offsets| => AckArgs(offsets[i]))
  }

  // ----- the master serves ACKs -----

  function RecordAll(st: Store, conn: nat, offsets: seq<int>): Store
    decreases |offsets|
  {
    if offsets == [] then st else RecordAll(RecordAck(st, conn, offsets[0]), conn, offsets[1..])
  }

  /** Of several ACKs from one connection the last one counts. */
  lemma {:induction false} LastIsRecorded(st: Store, conn: nat, offsets: seq<int>)
    requires offsets != []
    ensures RecordAll(st, conn, offsets) == RecordAck(st, conn, offsets[|offsets| - 1])
    decreases |offsets|
  {
    if |offsets| > 1 {
      LastIsRecorded(RecordAck(st, conn, offsets[0]), conn, offsets[1..]);
      RecordTwice(st, conn, offsets[0], offsets[|offsets| - 1]);
    } else {
      assert offsets[1..] == [];
    }
  }

  lemma RecordTwice(st: Store, conn: nat, first: int, last: int)
    ensures RecordAck(RecordAck(st, conn, first), conn, last) == RecordAck(st, conn, last)
  {
    var i := FindLink(st.links, conn);
    if i < |st.links| {
      var links := st.links[i := st.links[i].(offset := first)];
      FirstLink(links, conn, i);
      assert links[i := links[i].(offset := last)] == st.links[i := st.links[i].(offset := last)];
    }
  }

  function AckRequest(offset: int): Request {
    ConfRequest(ACK, FormatInt(offset), AckArgs(offset))
  }

  function AckRequests(offsets: seq<int>): seq<Request> {
    seq(|offsets|, i requires 0 <= i < |offsets| => AckRequest(offsets[i]))
  }

  lemma AckIsSpelled(offset: int)
    requires offset >= 0
    ensures AckRequest(offset).IsSpelled() && AckRequest(offset).words == AckArgs(offset)
    ensures Kept(FormatInt(offset)) == Itoa(offset) && IsCasing(ACK, ACK)
  {
    NumeralIsTidy(offset);
    hide Itoa, TrimSpace, Tidy, OneLine;
    KeptTidy(Itoa(offset));
    assert OneLine(ACK) by { KeptCasing(ACK, ACK); }
  }

  lemma AckIsHandled(
    st: Store, session: Session, size: nat, buffered: nat -> bool, offset: int, more: seq<seq<Bytes>>)
    requires st.role == Master && 0 <= offset <= MAX_INT
    ensures !AckRequest(offset).IsGetAck()
    ensures Handle(st, session, size, buffered, AckRequest(offset), more)
            == Handled(RecordAck(st, session.conn, offset), [])
  {
    hide IsCasing, Kept, Itoa, Atoi, RecordAck;
    AckIsSpelled(offset);
    KeptCasing(ACK, ACK);
    OneSubcommand(ACK, ACK);
    NamesDiffer(ACK);
    AtoiItoa(offset);
  }

  lemma {:induction false} ServeAckRequests(
    st: Store, session: Session, size: nat, buffered: nat -> bool, offsets: seq<int>)
    requires st.role == Master && forall offset :: offset in offsets ==> 0 <= offset <= MAX_INT
    ensures ServeRequests(st, session, size, buffered, AckRequests(offsets))
            == Finished(RecordAll(st, session.conn, offsets), [])
    decreases |offsets|
  {
    hide Handle, IsCasing, Kept;
    if offsets != [] {
      assert offsets[0] in offsets && forall offset :: offset in offsets[1..] ==> offset in offsets;
      assert AckRequests(offsets)[1..] == AckRequests(offsets[1..]);
      AckIsHandled(st, session, size, buffered, offsets[0], Words(AckRequests(offsets[1..])));
      ServeAckRequests(RecordAck(st, session.conn, offsets[0]), session, size, buffered, offsets[1..]);
    }
  }

  lemma AcksCanBeSent(session: Session, offsets: seq<int>)
    requires forall offset :: offset in offsets ==> 0 <= offset <= MAX_INT
    ensures CanSend(session, AckRequests(offsets)) && Words(AckRequests(offsets)) == AckLog(offsets)
  {
    hide IsCasing, Kept;
    forall r | r in AckRequests(offsets) ensures r.IsSpelled() && !r.SetRequest? {
      var i :| 0 <= i < |offsets| && r == AckRequest(offsets[i]);
      assert offsets[i] in offsets;
      AckIsSpelled(offsets[i]);
    }
  }

  /** A stream of ACKs, served by the master, records the last offset it carries. */
  lemma AcksAreRecorded(st: Store, session: Session, buffered: nat -> bool, offsets: seq<int>)
    requires st.role == Master && forall offset :: offset in offsets ==> 0 <= offset <= MAX_INT
    ensures Serve(st, session, Log(AckLog(offsets)), 0, buffered) ==
            Finished(if offsets == [] then st else RecordAck(st, session.conn, offsets[|offsets| - 1]), [])
  {
    hide Serve, RecordAck, Log, IsCasing;
    AcksCanBeSent(session, offsets);
    ServeAll(st, session, buffered, AckRequests(offsets));
    ServeAckRequests(st, session, |Log(AckLog(offsets))|, buffered, offsets);
    if offsets != [] {
      LastIsRecorded(st, session.conn, offsets);
    }
  }

  // ----- the replica answers -----

  /** The offsets a replica answers with while it handles the commands. */
  function Answers(st: Store, commands: seq<Command>): seq<int>
    decreases |commands|
  {
    if commands == [] then []
    else (if commands[0].GetAckCommand? && st.role.Slave? then [st.role.replOffset] else [])
         + Answers(After1(st, commands[0]), commands[1..])
  }

  lemma {:induction false} AnswersSnoc(st: Store, commands: seq<Command>, c: Command)
    ensures var before := After(st, commands);
            Answers(st, commands + [c]) ==
            Answers(st, commands) + if c.GetAckCommand? && before.role.Slave? then [before.role.replOffset] else []
    decreases |commands|
  {
    hide StoreSet;
    if commands == [] {
      assert [] + [c] == [c] && [c][1..] == [];
    } else {
      assert (commands + [c])[1..] == commands[1..] + [c];
      AnswersSnoc(After1(st, commands[0]), commands[1..], c);
    }
  }

  /** Answers lie between the offsets before and after. */
  lemma {:induction false} AnswersAreOffsets(st: Store, commands: seq<Command>)
    requires st.role.Slave?
    ensures After(st, commands).role.Slave?
    ensures st.role.replOffset <= After(st, commands).role.replOffset
    ensures forall offset :: offset in Answers(st, commands) ==>
              st.role.replOffset <= offset <= After(st, commands).role.replOffset
    decreases |commands|
  {
    hide TrimSpace, Frame;
    if commands != [] {
      AnswersAreOffsets(After1(st, commands[0]), commands[1..]);
    }
  }

  /** All that a replica with a silent connection writes is its answers. */
  lemma {:induction false} OutputIsAnswers(session: Session, st: Store, commands: seq<Command>)
    requires session.silent && st.role.Slave?
    ensures Output(session, st, commands) == Log(AckLog(Answers(st, commands)))
    decreases |commands|
  {
    hide Frame, TrimSpace;
    if commands != [] {
      var st' := After1(st, commands[0]);
      OutputIsAnswers(session, st', commands[1..]);
      var rest := Answers(st', commands[1..]);
      if commands[0].GetAckCommand? {
        var offset := st.role.replOffset;
        assert AckLog([offset] + rest) == [AckArgs(offset)] + AckLog(rest);
      } else {
        assert Answers(st, commands) == rest;
      }
    }
  }

  // ----- answers, ACKs in flight and recorded offset, over every run -----

  function Offsets(reports: seq<Report>): seq<int> {
    seq(|reports|, i requires 0 <= i < |reports| => reports[i].offset)
  }

  /** The ACKs in flight are the last answers, and the one before them is what the master has recorded. */
  predicate UpOk(recorded: int, peer: Peer) {
    && peer.Valid()
    && var answers := Answers(peer.start, peer.sent[..peer.processed]);
       var n := |answers| - |peer.up|;
    && n >= 0 && Offsets(peer.up) == answers[n..]
    && recorded == if n == 0 then 0 else answers[n - 1]
  }

  ghost predicate AcksMatch(sys: System) {
    && |sys.master.links| == |sys.peers|
    && forall i :: 0 <= i < |sys.peers| ==> UpOk(sys.master.links[i].offset, sys.peers[i])
  }

  lemma OneMoreOffset(reports: seq<Report>, r: Report)
    ensures Offsets(reports + [r]) == Offsets(reports) + [r.offset]
  {
  }

  lemma OneOffsetLess(reports: seq<Report>)
    requires reports != []
    ensures Offsets(reports)[0] == reports[0].offset && Offsets(reports[1..]) == Offsets(reports)[1..]
  {
  }

  lemma ProcessMatches(recorded: int, peer: Peer)
    requires UpOk(recorded, peer) && peer.node == After(peer.start, peer.sent[..peer.processed])
    ensures UpOk(recorded, ProcessOne(peer))
  {
    hide After1, After, Answers, Offsets;
    if peer.processed < |peer.sent| {
      var done, c := peer.sent[..peer.processed], peer.sent[peer.processed];
      assert peer.sent[..peer.processed + 1] == done + [c];
      AnswersSnoc(peer.start, done, c);
      RoleKept(peer.node, c);
      if c.GetAckCommand? {
        OneMoreOffset(peer.up, Report(peer.node.role.replOffset, peer.processed));
        var answers := Answers(peer.start, done);
        var n := |answers| - |peer.up|;
        assert (answers + [peer.node.role.replOffset])[n..] == answers[n..] + [peer.node.role.replOffset];
      }
    }
  }

  lemma SendMatches(recorded: int, peer: Peer, c: Command)
    requires UpOk(recorded, peer)
    ensures UpOk(recorded, SendTo(peer, c))
  {
    hide Answers;
    assert (peer.sent + [c])[..peer.processed] == peer.sent[..peer.processed];
  }

  lemma DeliverMatches(recorded: int, peer: Peer)
    requires UpOk(recorded, peer) && peer.up != [] && peer.up[0].upTo <= |peer.sent|
    ensures UpOk(peer.up[0].offset, DeliverOne(peer))
  {
    hide Answers, Offsets;
    OneOffsetLess(peer.up);
    var answers := Answers(peer.start, peer.sent[..peer.processed]);
    var n := |answers| - |peer.up|;
    assert answers[n..][1..] == answers[n + 1..] && answers[n..][0] == answers[n];
  }

  lemma StepMatches(sys: System, e: Event)
    requires Inv(sys) && AcksMatch(sys)
    ensures AcksMatch(Next(sys, e))
  {
    hide PeerOk, Frame, RecordAck, UpOk, TrimSpace;
    var sys' := Next(sys, e);
    match e
    case Join(node) => JoinMatches(node.(role := Slave(0)), sys.master);
    case Set(key, value) =>
      forall i | 0 <= i < |sys.peers| ensures UpOk(sys'.master.links[i].offset, sys'.peers[i]) {
        SendMatches(sys.master.links[i].offset, sys.peers[i], SetCommand(TrimSpace(key), TrimSpace(value)));
      }
    case Wait =>
      forall i | 0 <= i < |sys.peers| ensures UpOk(sys'.master.links[i].offset, sys'.peers[i]) {
        SendMatches(sys.master.links[i].offset, sys.peers[i], GetAckCommand);
      }
    case Process(i) =>
      if i < |sys.peers| {
        NodeIs(sys, i);
        ProcessMatches(sys.master.links[i].offset, sys.peers[i]);
      }
    case Deliver(i) =>
      if i < |sys.peers| && sys.peers[i].up != [] {
        Recorded(sys, i);
        FirstReport(sys, i);
        DeliverMatches(sys.master.links[i].offset, sys.peers[i]);
      }
  }

  lemma NodeIs(sys: System, i: nat)
    requires Inv(sys) && i < |sys.peers|
    ensures var peer := sys.peers[i]; peer.Valid() && peer.node == After(peer.start, peer.sent[..peer.processed])
  {
    assert PeerOk(sys.master, sys.master.links[i], i, sys.peers[i]);
  }

  lemma FirstReport(sys: System, i: nat)
    requires Inv(sys) && i < |sys.peers| && sys.peers[i].up != []
    ensures sys.peers[i].up[0].upTo <= |sys.peers[i].sent|
  {
    var peer := sys.peers[i];
    assert PeerOk(sys.master, sys.master.links[i], i, peer);
    assert peer.up[0] in peer.up && ReportOk(peer, peer.up[0]);
  }

  lemma JoinMatches(start: Store, master: Store)
    requires start.role.Slave?
    ensures UpOk(0, Peer(start, master.memory, master.masterOffset, start, [], 0, [], 0))
  {
  }

  lemma {:induction false} RunMatches(sys: System, events: seq<Event>)
    requires Initial(sys) && FromLines(events)
    ensures Inv(Run(sys, events)) && AcksMatch(Run(sys, events))
    decreases |events|
  {
    hide Next, AcksMatch;
    if events == [] {
      InitialMatches(sys);
    } else {
      var n := |events| - 1;
      RunMatches(sys, events[..n]);
      assert events[n] in events;
      StepKeeps(Run(sys, events[..n]), events[n]);
      StepMatches(Run(sys, events[..n]), events[n]);
    }
  }

  lemma InitialMatches(sys: System)
    requires Initial(sys)
    ensures AcksMatch(sys)
  {
  }

  lemma AnswersSoFar(now: System, i: nat, upstream: Session, buffered: nat -> bool)
    returns (offsets: seq<int>, delivered: nat)
    requires Inv(now) && AcksMatch(now) && i < |now.peers|
    requires upstream.authed && upstream.silent
    ensures var peer := now.peers[i];
            && peer.Valid() && i < |now.master.links|
            && Serve(peer.start, upstream, Log(AllArgs(peer.sent[..peer.processed])), 0, buffered)
               == Finished(peer.node, Log(AckLog(offsets)))
            && (forall offset :: offset in offsets ==> 0 <= offset <= peer.node.role.replOffset)
            && delivered <= |offsets| && Offsets(peer.up) == offsets[delivered..]
            && now.master.links[i].offset == if delivered == 0 then 0 else offsets[delivered - 1]
  {
    hide Frame, Log, Memory, After, Tidy, Answers, Serve, Output, AckLog;
    var peer := now.peers[i];
    assert PeerOk(now.master, now.master.links[i], i, peer);
    assert UpOk(now.master.links[i].offset, peer);
    var done := peer.sent[..peer.processed];
    assert TidyCommands(done) by { assert forall c :: c in done ==> c in peer.sent; }
    TidyIsReadable(done);
    ServeLog(peer.start, upstream, Log(AllArgs(done)), buffered, done);
    OutputIsAnswers(upstream, peer.start, done);
    AnswersAreOffsets(peer.start, done);
    offsets := Answers(peer.start, done);
    delivered := |offsets| - |peer.up|;
  }

  lemma ServedToMaster(now: System, i: nat, unasked: Store, session: Session, buffered: nat -> bool,
      offsets: seq<int>)
    requires Inv(now) && i < |now.peers| && session.conn == i && i < |now.master.links|
    requires unasked == now.master.(links := now.master.links[i := now.master.links[i].(offset := 0)])
    requires now.master.links[i].offset == if offsets == [] then 0 else offsets[|offsets| - 1]
    requires forall offset :: offset in offsets ==> 0 <= offset <= MAX_INT
    ensures Serve(unasked, session, Log(AckLog(offsets)), 0, buffered) == Finished(now.master, [])
  {
    hide Serve, Log, AckLog;
    AcksAreRecorded(unasked, session, buffered, offsets);
    assert forall j :: 0 <= j < |now.peers| ==> PeerOk(now.master, now.master.links[j], j, now.peers[j]);
    LinkOfConnection(unasked.links, i);
    hide PeerOk;
    assert unasked.links[i := now.master.links[i]] == now.master.links;
    if offsets == [] {
      assert unasked == now.master;
    }
  }

  /** The upward channel as bytes. Over every run, for every outcome of the buffering tests on both sides: what a
      replica has written, fed what it has processed, is a stream of ACKs; the last of them are the ones in flight;
      and a master that has recorded nothing of this replica, served the bytes of the others, is in the very state
      that the steps have reached. */
  lemma AcksAreTheirBytes(
    sys: System, events: seq<Event>, i: nat, upstream: Session, buffered: nat -> bool,
    session: Session, buffered': nat -> bool) returns (offsets: seq<int>, delivered: nat)
    requires Initial(sys) && FromLines(events) && i < |Run(sys, events).peers|
    requires upstream.authed && upstream.silent && session.conn == i
    requires var peer := Run(sys, events).peers[i];
             peer.Valid() && peer.node.role.replOffset <= MAX_INT
    ensures var now := Run(sys, events);
            var peer := now.peers[i];
            && Serve(peer.start, upstream, Log(AllArgs(peer.sent[..peer.processed])), 0, buffered)
               == Finished(peer.node, Log(AckLog(offsets)))
            && delivered <= |offsets| && Offsets(peer.up) == offsets[delivered..]
            && i < |now.master.links|
            && var unasked := now.master.(links := now.master.links[i := now.master.links[i].(offset := 0)]);
               Serve(unasked, session, Log(AckLog(offsets[..delivered])), 0, buffered') == Finished(now.master, [])
  {
    hide Run, Frame, Log, Memory, After, Tidy, Answers, Serve, Output, Inv, AckLog;
    RunMatches(sys, events);
    var now := Run(sys, events);
    var peer, link := now.peers[i], now.master.links[i];
    var done := peer.sent[..peer.processed];
    offsets, delivered := AnswersSoFar(now, i, upstream, buffered);
    var unasked := now.master.(links := now.master.links[i := link.(offset := 0)]);
    assert forall offset :: offset in offsets[..delivered] ==> offset in offsets;
    ServedToMaster(now, i, unasked, session, buffered', offsets[..delivered]);
  }
}
