/** The offset protocol: SET propagation, GETACK, ACK and WAIT, as steps over one FIFO channel each way per replica.

    The master's side is the handlers' own state. What flows down to a replica is the byte stream the handlers
    push; `Requests.ServeLog` shows that a replica fed those bytes does, command by command, what `After` says,
    and `AckStream` that the bytes it answers with record the offsets it had.
  */
module Replication {
  import opened Numbers
  import opened Frames
  import opened Lines
  import opened ServerState
  import opened ServerLog
  import opened FileReplay
  import opened Requests
  import opened SetAgreement

  /** An ACK on its way: the offset, and how many commands the replica had processed when it was asked. */
  datatype Report = Report(offset: int, upTo: nat)

  /** A replica and its channels. `start` is its state and `base` the master's map when it joined, `sent` all that
      was pushed to it since and `processed` how much of that it has handled; `recordedUpTo` is the history of
      the offset the master has recorded. */
  datatype Peer = Peer(
    start: Store, base: map<Bytes, Bytes>, joinedAt: int,
    node: Store, sent: seq<Command>, processed: nat, up: seq<Report>, recordedUpTo: nat)
  {
    predicate Valid() { processed <= |sent| && recordedUpTo <= |sent| && start.role.Slave? && node.role.Slave? }

    /** The commands still in flight down to the replica. */
    function Down(): seq<Command>
      requires Valid()
    {
      sent[processed..]
    }
  }

  /** Peer i sits on connection i; `master.links[i]` is the master's record of it. */
  datatype System = System(master: Store, peers: seq<Peer>)

  datatype Event =
    | Join(node: Store)
    | Set(key: Bytes, value: Bytes)
    | Wait
    | Process(i: nat)
    | Deliver(i: nat)

  function SendTo(peer: Peer, c: Command): Peer { peer.(sent := peer.sent + [c]) }

  function SendToAll(peers: seq<Peer>, c: Command): (r: seq<Peer>)
    ensures |r| == |peers|
  {
    seq(|peers|, i requires 0 <= i < |peers| => SendTo(peers[i], c))
  }

  /** The replica handles the command at the head of its channel; a GETACK is answered with the offset before it. */
  function ProcessOne(peer: Peer): Peer {
    if !(peer.processed < |peer.sent| && peer.node.role.Slave?) then peer else
    var c := peer.sent[peer.processed];
    peer.(
      node := After1(peer.node, c),
      processed := peer.processed + 1,
      up := if c.GetAckCommand? then peer.up + [Report(peer.node.role.replOffset, peer.processed)] else peer.up)
  }

  function DeliverOne(peer: Peer): Peer {
    if peer.up == [] then peer else peer.(up := peer.up[1..], recordedUpTo := peer.up[0].upTo)
  }

  /** One step. A step that is not enabled changes nothing. */
  function Next(sys: System, e: Event): System {
    match e
    case Join(node) =>
      var joined := node.(role := Slave(0));
      System(
        sys.master.(links := sys.master.links + [Link(|sys.peers|, 0, [])]),
        sys.peers + [Peer(joined, sys.master.memory, sys.master.masterOffset, joined, [], 0, [], 0)])
    case Set(key, value) =>
      System(StoreSet(sys.master, TrimSpace(key), TrimSpace(value)),
             SendToAll(sys.peers, SetCommand(TrimSpace(key), TrimSpace(value))))
    case Wait =>
      System(Ask(sys.master),
             if sys.master.links == [] || sys.master.masterOffset == 0 then sys.peers
             else SendToAll(sys.peers, GetAckCommand))
    case Process(i) =>
      if i < |sys.peers| then sys.(peers := sys.peers[i := ProcessOne(sys.peers[i])]) else sys
    case Deliver(i) =>
      if i < |sys.peers| && sys.peers[i].up != [] then
        System(RecordAck(sys.master, i, sys.peers[i].up[0].offset), sys.peers[i := DeliverOne(sys.peers[i])])
      else sys
  }

  function Run(sys: System, events: seq<Event>): System
    decreases |events|
  {
    if events == [] then sys else Next(Run(sys, events[..|events| - 1]), events[|events| - 1])
  }

  /** What a line reader returned: no newline before the last byte. */
  predicate IsLine(text: Bytes) {
    forall i :: 0 <= i < |text| - 1 ==> text[i] != LF
  }

  /** Keys and values come from lines. */
  predicate FromLines(events: seq<Event>) {
    forall e :: e in events && e.Set? ==> IsLine(e.key) && IsLine(e.value)
  }

  // ----- sizes -----

  function Size(commands: seq<Command>): nat { |Log(AllArgs(commands))| }

  function SetBytes(commands: seq<Command>): nat
    decreases |commands|
  {
    if commands == [] then 0
    else (if commands[0].SetCommand? then |Frame(Args(commands[0]))| else 0) + SetBytes(commands[1..])
  }

  function GetAcks(commands: seq<Command>): nat
    decreases |commands|
  {
    if commands == [] then 0 else (if commands[0].GetAckCommand? then 1 else 0) + GetAcks(commands[1..])
  }

  /** On the wire a log is its SETs plus 37 bytes for each GETACK. */
  lemma {:induction false} SizeSplits(commands: seq<Command>)
    ensures Size(commands) == SetBytes(commands) + GETACK_SIZE * GetAcks(commands)
    decreases |commands|
  {
    if commands != [] {
      GetAckSize();
      assert AllArgs(commands)[1..] == AllArgs(commands[1..]);
      SizeSplits(commands[1..]);
    }
  }

  lemma {:induction false} Sums(a: seq<Command>, b: seq<Command>)
    ensures Size(a + b) == Size(a) + Size(b)
    ensures SetBytes(a + b) == SetBytes(a) + SetBytes(b)
    ensures GetAcks(a + b) == GetAcks(a) + GetAcks(b)
    decreases |a|
  {
    SizesAdd(a, b);
    hide Size, Frame;
    if a == [] {
      assert a + b == b;
    } else {
      assert (a + b)[1..] == a[1..] + b;
      Sums(a[1..], b);
    }
  }

  lemma SizesAdd(a: seq<Command>, b: seq<Command>)
    ensures Size(a + b) == Size(a) + Size(b)
  {
    hide Log;
    assert AllArgs(a + b) == AllArgs(a) + AllArgs(b);
    LogAppend(AllArgs(a), AllArgs(b));
  }

  lemma SplitAt(commands: seq<Command>, k: nat)
    requires k <= |commands|
    ensures Size(commands) == Size(commands[..k]) + Size(commands[k..])
    ensures SetBytes(commands) == SetBytes(commands[..k]) + SetBytes(commands[k..])
    ensures GetAcks(commands) == GetAcks(commands[..k]) + GetAcks(commands[k..])
  {
    hide Size, SetBytes, GetAcks;
    assert commands[..k] + commands[k..] == commands;
    Sums(commands[..k], commands[k..]);
  }

  lemma PrefixSize(commands: seq<Command>, j: nat, k: nat)
    requires j <= k <= |commands|
    ensures Size(commands[..j]) <= Size(commands[..k])
  {
    assert commands[..k][..j] == commands[..j];
    SplitAt(commands[..k], j);
  }

  /** No SET bytes means no SET. */
  lemma {:induction false} NoSetBytes(commands: seq<Command>)
    requires SetBytes(commands) == 0
    ensures forall c :: c in commands ==> c.GetAckCommand?
    decreases |commands|
  {
    if commands != [] {
      NoSetBytes(commands[1..]);
      assert forall c :: c in commands ==> c == commands[0] || c in commands[1..];
    }
  }

  // ----- the invariant -----

  ghost predicate ReportOk(peer: Peer, r: Report) {
    r.upTo <= peer.processed <= |peer.sent| && r.offset == Size(peer.sent[..r.upTo])
  }

  /** Everything the master and the replica know of each other. */
  ghost predicate PeerOk(master: Store, link: Link, i: nat, peer: Peer) {
    && peer.Valid()
    && peer.start.role == Slave(0)
    && TidyCommands(peer.sent)
    && peer.node == After(peer.start, peer.sent[..peer.processed])
    && link.conn == i
    && link.stream == Log(AllArgs(peer.sent))
    && link.offset == Size(peer.sent[..peer.recordedUpTo])
    && peer.recordedUpTo <= peer.processed
    && (forall r :: r in peer.up ==> ReportOk(peer, r) && peer.recordedUpTo <= r.upTo)
    && (forall j, k :: 0 <= j < k < |peer.up| ==> peer.up[j].upTo <= peer.up[k].upTo)
    && peer.joinedAt >= 0
    && master.masterOffset == peer.joinedAt + SetBytes(peer.sent)
    && master.memory == Memory(peer.base, peer.sent)
  }

  ghost predicate Inv(sys: System) {
    && sys.master.role == Master
    && sys.master.masterOffset >= 0
    && |sys.master.links| == |sys.peers|
    && forall i :: 0 <= i < |sys.peers| ==> PeerOk(sys.master, sys.master.links[i], i, sys.peers[i])
  }

  lemma {:induction false} AfterSnoc(st: Store, commands: seq<Command>, c: Command)
    ensures After(st, commands + [c]) == After1(After(st, commands), c)
    decreases |commands|
  {
    if commands == [] {
      assert [] + [c] == [c] && [c][1..] == [];
    } else {
      assert (commands + [c])[1..] == commands[1..] + [c];
      AfterSnoc(After1(st, commands[0]), commands[1..], c);
    }
  }

  lemma {:induction false} MemoryGetAck(memory: map<Bytes, Bytes>, commands: seq<Command>)
    ensures Memory(memory, commands + [GetAckCommand]) == Memory(memory, commands)
    decreases |commands|
  {
    if commands == [] {
      assert [] + [GetAckCommand] == [GetAckCommand] && [GetAckCommand][1..] == [];
    } else {
      assert (commands + [GetAckCommand])[1..] == commands[1..] + [GetAckCommand];
      match commands[0]
      case SetCommand(key, value) => MemoryGetAck(memory[Kept(key) := Kept(value)], commands[1..]);
      case GetAckCommand => MemoryGetAck(memory, commands[1..]);
    }
  }

  /** Pushing a command to one replica. */
  lemma SendKeeps(master: Store, master': Store, link: Link, i: nat, peer: Peer, c: Command)
    requires PeerOk(master, link, i, peer)
    requires c.SetCommand? ==> Tidy(c.key) && Tidy(c.value)
    requires master'.masterOffset == master.masterOffset + SetBytes([c])
    requires master'.memory == Memory(peer.base, peer.sent + [c])
    ensures PeerOk(master', Push(link, Frame(Args(c))), i, SendTo(peer, c))
  {
    hide Tidy, Frame, After, Memory, TrimSpace;
    var sent := peer.sent + [c];
    assert forall k: nat :: k <= |peer.sent| ==> sent[..k] == peer.sent[..k];
    LogOfOneMore(peer.sent, c);
    Sums(peer.sent, [c]);
    assert TidyCommands(sent);
    forall r | r in peer.up ensures ReportOk(SendTo(peer, c), r) {
      assert ReportOk(peer, r);
    }
  }

  lemma OneSet(c: Command)
    ensures SetBytes([c]) == if c.SetCommand? then |Frame(Args(c))| else 0
  {
    assert [c][1..] == [];
  }

  lemma SetKeeps(sys: System, key: Bytes, value: Bytes)
    requires Inv(sys) && IsLine(key) && IsLine(value)
    ensures Inv(Next(sys, Set(key, value)))
  {
    hide Tidy, Frame, PeerOk, TrimSpace;
    var c := SetCommand(TrimSpace(key), TrimSpace(value));
    var sys' := Next(sys, Set(key, value));
    OneSet(c);
    TrimKeepsTidy(key);
    TrimKeepsTidy(value);
    KeptTidy(c.key);
    KeptTidy(c.value);
    forall i | 0 <= i < |sys.peers|
      ensures PeerOk(sys'.master, sys'.master.links[i], i, sys'.peers[i])
    {
      MemoryOf(sys, i);
      MemoryAppend(sys.peers[i].base, sys.peers[i].sent, c);
      SendKeeps(sys.master, sys'.master, sys.master.links[i], i, sys.peers[i], c);
    }
  }

  lemma MemoryOf(sys: System, i: nat)
    requires Inv(sys) && i < |sys.peers|
    ensures sys.master.memory == Memory(sys.peers[i].base, sys.peers[i].sent)
  {
  }

  lemma WaitKeeps(sys: System)
    requires Inv(sys)
    ensures Inv(Next(sys, Wait))
  {
    hide Tidy, Frame, PeerOk;
    var sys' := Next(sys, Wait);
    OneSet(GetAckCommand);
    if !(sys.master.links == [] || sys.master.masterOffset == 0) {
      forall i | 0 <= i < |sys.peers|
        ensures PeerOk(sys'.master, sys'.master.links[i], i, sys'.peers[i])
      {
        MemoryOf(sys, i);
        MemoryGetAck(sys.peers[i].base, sys.peers[i].sent);
        SendKeeps(sys.master, sys'.master, sys.master.links[i], i, sys.peers[i], GetAckCommand);
      }
    }
  }

  lemma JoinKeeps(sys: System, node: Store)
    requires Inv(sys)
    ensures Inv(Next(sys, Join(node)))
  {
    hide Tidy, Frame;
    var sys' := Next(sys, Join(node));
    var n := |sys.peers|;
    assert Log(AllArgs([])) == [];
    forall i | 0 <= i < |sys'.peers|
      ensures PeerOk(sys'.master, sys'.master.links[i], i, sys'.peers[i])
    {
      if i < n {
        assert PeerOk(sys.master, sys.master.links[i], i, sys.peers[i]);
      }
    }
  }

  /** The replica's own offset is the size of all it has processed. */
  lemma OwnOffset(master: Store, link: Link, i: nat, peer: Peer)
    requires PeerOk(master, link, i, peer)
    ensures peer.node.role == Slave(Size(peer.sent[..peer.processed]))
  {
    var done := peer.sent[..peer.processed];
    assert TidyCommands(done) by { assert forall c :: c in done ==> c in peer.sent; }
    ReplicaOffset(peer.start, done);
  }

  lemma ProcessKeeps(master: Store, link: Link, i: nat, peer: Peer)
    requires PeerOk(master, link, i, peer)
    ensures PeerOk(master, link, i, ProcessOne(peer))
  {
    hide Tidy, Frame, After, After1, Memory, TidyCommands;
    if peer.processed < |peer.sent| {
      var n := peer.processed;
      var c := peer.sent[n];
      OwnOffset(master, link, i, peer);
      assert peer.sent[..n + 1] == peer.sent[..n] + [c];
      AfterSnoc(peer.start, peer.sent[..n], c);
      RoleKept(peer.node, c);
      var peer' := ProcessOne(peer);
      forall r | r in peer'.up ensures ReportOk(peer', r) && peer'.recordedUpTo <= r.upTo {
        assert r in peer.up || r == Report(peer.node.role.replOffset, n);
        assert r in peer.up ==> ReportOk(peer, r);
      }
      forall j, k | 0 <= j < k < |peer'.up| ensures peer'.up[j].upTo <= peer'.up[k].upTo {
        assert peer.up[j] in peer.up;
        assert ReportOk(peer, peer.up[j]);
      }
    }
  }

  lemma RoleKept(st: Store, c: Command)
    requires st.role.Slave?
    ensures After1(st, c).role.Slave?
  {
  }

  /** Delivering an ACK moves the recorded offset forward, to where the replica was. */
  lemma DeliverKeeps(master: Store, link: Link, i: nat, peer: Peer)
    requires PeerOk(master, link, i, peer) && peer.up != []
    ensures PeerOk(master, link.(offset := peer.up[0].offset), i, DeliverOne(peer))
    ensures link.offset <= peer.up[0].offset
  {
    hide Tidy, Frame, After, Memory, TidyCommands;
    var first := peer.up[0];
    assert first in peer.up && ReportOk(peer, first);
    PrefixSize(peer.sent, peer.recordedUpTo, first.upTo);
    var peer' := DeliverOne(peer);
    forall r | r in peer'.up ensures ReportOk(peer', r) && peer'.recordedUpTo <= r.upTo {
      var k :| 0 <= k < |peer'.up| && peer'.up[k] == r;
      assert r == peer.up[k + 1] && r in peer.up;
      assert ReportOk(peer, r);
    }
  }

  lemma LinkOfConnection(links: seq<Link>, i: nat)
    requires i < |links| && forall j :: 0 <= j < |links| ==> links[j].conn == j
    ensures FindLink(links, i) == i
  {
    FirstLink(links, i, i);
  }

  lemma StepKeeps(sys: System, e: Event)
    requires Inv(sys) && FromLines([e])
    ensures Inv(Next(sys, e))
  {
    hide PeerOk, Tidy, Frame, RecordAck;
    assert e in [e];
    match e
    case Join(node) => JoinKeeps(sys, node);
    case Set(key, value) => SetKeeps(sys, key, value);
    case Wait => WaitKeeps(sys);
    case Process(i) =>
      if i < |sys.peers| {
        ProcessKeeps(sys.master, sys.master.links[i], i, sys.peers[i]);
      }
    case Deliver(i) =>
      if i < |sys.peers| && sys.peers[i].up != [] {
        Recorded(sys, i);
        DeliverKeeps(sys.master, sys.master.links[i], i, sys.peers[i]);
        OthersKeep(sys, i);
      }
  }

  /** The master finds the replica an ACK came from. */
  lemma Recorded(sys: System, i: nat)
    requires Inv(sys) && i < |sys.peers| && sys.peers[i].up != []
    ensures var offset := sys.peers[i].up[0].offset;
            RecordAck(sys.master, i, offset) ==
            sys.master.(links := sys.master.links[i := sys.master.links[i].(offset := offset)])
  {
    assert forall j :: 0 <= j < |sys.peers| ==> PeerOk(sys.master, sys.master.links[j], j, sys.peers[j]);
    LinkOfConnection(sys.master.links, i);
  }

  lemma OthersKeep(sys: System, i: nat)
    requires Inv(sys) && i < |sys.peers| && sys.peers[i].up != []
    ensures var master' := RecordAck(sys.master, i, sys.peers[i].up[0].offset);
            forall link: Link, j: nat, peer: Peer ::
              PeerOk(sys.master, link, j, peer) ==> PeerOk(master', link, j, peer)
  {
    Recorded(sys, i);
  }

  lemma {:induction false} RunKeeps(sys: System, events: seq<Event>)
    requires Inv(sys) && FromLines(events)
    ensures Inv(Run(sys, events))
    decreases |events|
  {
    if events != [] {
      var n := |events| - 1;
      RunKeeps(sys, events[..n]);
      assert events[n] in events;
      StepKeeps(Run(sys, events[..n]), events[n]);
    }
  }

  /** A master before any replica has joined. */
  predicate Initial(sys: System) {
    sys.master.role == Master && sys.master.links == [] && sys.peers == [] && sys.master.masterOffset >= 0
  }

  // ----- the results -----

  /** Over every run: a replica's offset plus the bytes in flight to it is the master's offset, less its value when
      the replica joined, plus 37 for every GETACK sent to it; and the recorded offset never exceeds the replica's. */
  lemma OffsetsAddUp(sys: System, events: seq<Event>, i: nat)
    requires Initial(sys) && FromLines(events) && i < |Run(sys, events).peers|
    ensures var now := Run(sys, events);
            var peer := now.peers[i];
            && peer.Valid()
            && peer.node.role.replOffset + Size(peer.Down())
               == now.master.masterOffset - peer.joinedAt + GETACK_SIZE * GetAcks(peer.sent)
            && i < |now.master.links| && now.master.links[i].offset <= peer.node.role.replOffset
            && now.master.links[i].stream == Log(AllArgs(peer.sent))
  {
    RunKeeps(sys, events);
    var now := Run(sys, events);
    var peer := now.peers[i];
    assert PeerOk(now.master, now.master.links[i], i, peer);
    OwnOffset(now.master, now.master.links[i], i, peer);
    SplitAt(peer.sent, peer.processed);
    SizeSplits(peer.sent);
    PrefixSize(peer.sent, peer.recordedUpTo, peer.processed);
  }

  lemma TidyIsReadable(commands: seq<Command>)
    requires TidyCommands(commands)
    ensures Readable(commands)
  {
  }

  /** The steps agree with the bytes: over every run, a replica's state is what the command loop reaches on the part of
      its stream that it has processed, for every outcome of the buffering tests. */
  lemma ReplicaIsItsStream(sys: System, events: seq<Event>, i: nat, upstream: Session, buffered: nat -> bool)
    requires Initial(sys) && FromLines(events) && i < |Run(sys, events).peers|
    requires upstream.authed
    ensures var now := Run(sys, events);
            var peer := now.peers[i];
            && peer.Valid() && i < |now.master.links|
            && var bytes := Log(AllArgs(peer.sent[..peer.processed]));
            && bytes <= now.master.links[i].stream
            && Serve(peer.start, upstream, bytes, 0, buffered).Finished?
            && Serve(peer.start, upstream, bytes, 0, buffered).store == peer.node
  {
    hide Run, Serve, After, Output, Memory, Tidy, OneLine, Frame;
    RunKeeps(sys, events);
    var now := Run(sys, events);
    var peer := now.peers[i];
    assert PeerOk(now.master, now.master.links[i], i, peer);
    var done := peer.sent[..peer.processed];
    assert peer.sent == done + peer.Down();
    assert AllArgs(peer.sent) == AllArgs(done) + AllArgs(peer.Down());
    LogAppend(AllArgs(done), AllArgs(peer.Down()));
    assert TidyCommands(done) by { assert forall c :: c in done ==> c in peer.sent; }
    TidyIsReadable(done);
    ServeLog(peer.start, upstream, Log(AllArgs(done)), buffered, done);
  }

  /** Over every run the replica's map is what the commands it has processed make of the map it joined with. */
  lemma ReplicaMap(sys: System, events: seq<Event>, i: nat)
    requires Initial(sys) && FromLines(events) && i < |Run(sys, events).peers|
    ensures var peer := Run(sys, events).peers[i];
            peer.Valid() && peer.node.memory == Memory(peer.start.memory, peer.sent[..peer.processed])
  {
    hide Run, After, Memory, Tidy, Frame;
    RunKeeps(sys, events);
    var now := Run(sys, events);
    var peer := now.peers[i];
    assert PeerOk(now.master, now.master.links[i], i, peer);
    ReplicaAfter(peer.start, peer.sent[..peer.processed]);
  }

  /** A step sends each peer at most one command, and does not touch the map it joined with. */
  lemma StepSends(sys: System, e: Event, i: nat)
    requires i < |sys.peers|
    ensures var sys' := Next(sys, e);
            && |sys'.peers| == |sys.peers| + (if e.Join? then 1 else 0)
            && sys'.peers[i].base == sys.peers[i].base && sys'.peers[i].start == sys.peers[i].start
            && sys.peers[i].sent <= sys'.peers[i].sent && |sys'.peers[i].sent| <= |sys.peers[i].sent| + 1
  {
    hide After1, StoreSet, Frame, TrimSpace, RecordAck;
  }

  lemma JoinedLast(sys: System, e: Event)
    requires |Next(sys, e).peers| > |sys.peers|
    ensures |Next(sys, e).peers| == |sys.peers| + 1 && Next(sys, e).peers[|sys.peers|].sent == []
  {
  }

  /** Whatever a peer was sent up to some moment, the master's map was once just what that makes of the map at join. */
  lemma {:induction false} MapsOnTheWay(sys: System, events: seq<Event>, i: nat, m: nat) returns (j: nat)
    requires Initial(sys) && FromLines(events) && i < |Run(sys, events).peers|
    requires m <= |Run(sys, events).peers[i].sent|
    ensures var peer := Run(sys, events).peers[i];
            j <= |events| && Run(sys, events[..j]).master.memory == Memory(peer.base, peer.sent[..m])
    decreases |events|
  {
    hide Next, Inv, Memory;
    RunKeeps(sys, events) by { InitialIsInv(sys); }
    var now := Run(sys, events);
    var peer := now.peers[i];
    if m == |peer.sent| {
      j := |events|;
      assert events[..j] == events && peer.sent[..m] == peer.sent;
      MemoryOf(now, i);
    } else {
      var n := |events| - 1;
      var before := Run(sys, events[..n]);
      if i < |before.peers| {
        StepSends(before, events[n], i);
      } else {
        JoinedLast(before, events[n]);
      }
      j := MapsOnTheWay(sys, events[..n], i, m);
      assert events[..n][..j] == events[..j];
      assert before.peers[i].sent[..m] == peer.sent[..m];
    }
  }

  lemma InitialIsInv(sys: System)
    requires Initial(sys)
    ensures Inv(sys)
  {
  }

  /** Prefix consistency: a replica that joined with the master's map always has a map that the master once had. */
  lemma ReplicaIsAnEarlierMaster(sys: System, events: seq<Event>, i: nat) returns (j: nat)
    requires Initial(sys) && FromLines(events) && i < |Run(sys, events).peers|
    requires Run(sys, events).peers[i].start.memory == Run(sys, events).peers[i].base
    ensures j <= |events| && Run(sys, events[..j]).master.memory == Run(sys, events).peers[i].node.memory
  {
    hide Run, Memory;
    ReplicaMap(sys, events, i);
    j := MapsOnTheWay(sys, events, i, Run(sys, events).peers[i].processed);
  }

  /** Over every run, no step takes a recorded offset back. */
  lemma RecordedNeverDecreases(sys: System, events: seq<Event>, e: Event, i: nat)
    requires Initial(sys) && FromLines(events) && FromLines([e]) && i < |Run(sys, events).peers|
    ensures var before, after := Run(sys, events), Next(Run(sys, events), e);
            && i < |before.master.links| && i < |after.master.links|
            && before.master.links[i].offset <= after.master.links[i].offset
  {
    hide Frame, Tidy, PeerOk;
    RunKeeps(sys, events);
    var before := Run(sys, events);
    StepKeeps(before, e);
    if e.Deliver? && e.i < |before.peers| && before.peers[e.i].up != [] {
      Recorded(before, e.i);
      DeliverKeeps(before.master, before.master.links[e.i], e.i, before.peers[e.i]);
    }
  }
}
