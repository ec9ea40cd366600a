/** What the replicas that WAIT counts have applied. */
module WaitCounts {
  import opened Numbers
  import opened Frames
  import opened Lines
  import opened ServerState
  import opened ServerLog
  import opened FileReplay
  import opened SetAgreement
  import opened Replication

  /** GETACKs the replica had processed before the ACK the master has recorded. */
  function AcksBefore(peer: Peer): nat
    requires peer.Valid()
  {
    GetAcks(peer.sent[..peer.recordedUpTo])
  }

  lemma PeerOf(sys: System, events: seq<Event>, i: nat)
    requires Initial(sys) && FromLines(events) && i < |Run(sys, events).peers|
    ensures var now := Run(sys, events);
            i < |now.master.links| && PeerOk(now.master, now.master.links[i], i, now.peers[i])
  {
    RunKeeps(sys, events);
  }

  lemma CountedPeer(master: Store, link: Link, i: nat, peer: Peer)
    requires PeerOk(master, link, i, peer)
    ensures link.offset >= master.masterOffset <==>
            SetBytes(peer.sent[peer.recordedUpTo..]) <= GETACK_SIZE * AcksBefore(peer) - peer.joinedAt
    ensures SetBytes(peer.Down()) <= SetBytes(peer.sent[peer.recordedUpTo..])
  {
    hide Frame, Log, Memory, After, Tidy, SetBytes, GetAcks;
    SplitAt(peer.sent, peer.recordedUpTo);
    SizeSplits(peer.sent[..peer.recordedUpTo]);
    var rest := peer.sent[peer.recordedUpTo..];
    SplitAt(rest, peer.processed - peer.recordedUpTo);
    assert rest[peer.processed - peer.recordedUpTo..] == peer.Down();
  }

  /** Over every run WAIT counts a replica exactly when the SET bytes it had not applied at its recorded ACK are at
      most 37 for each earlier GETACK it had processed, less the master's offset when it joined. What it has still
      not applied now is at most that too. */
  lemma WhatWaitCounts(sys: System, events: seq<Event>, i: nat)
    requires Initial(sys) && FromLines(events) && i < |Run(sys, events).peers|
    ensures var now := Run(sys, events);
            var peer := now.peers[i];
            && peer.Valid()
            && (i in AckedLinks(now.master) <==>
                SetBytes(peer.sent[peer.recordedUpTo..]) <= GETACK_SIZE * AcksBefore(peer) - peer.joinedAt)
            && SetBytes(peer.Down()) <= SetBytes(peer.sent[peer.recordedUpTo..])
  {
    hide Run, Frame, Log, Memory, After, Tidy, SetBytes, GetAcks, AcksBefore;
    PeerOf(sys, events, i);
    var now := Run(sys, events);
    CountedPeer(now.master, now.master.links[i], i, now.peers[i]);
  }

  // ----- a replica that joins late -----

  /** A replica that has just joined lacks nothing, and WAIT counts it exactly if the master has sent nothing yet. */
  lemma JoinerIsCountedWhen(sys: System, events: seq<Event>, node: Store)
    requires Initial(sys) && FromLines(events)
    ensures FromLines(events + [Join(node)])
    ensures var joining, now := Run(sys, events), Run(sys, events + [Join(node)]);
            var n := |joining.peers|;
            && n < |now.peers| && now.peers[n].Valid() && now.peers[n].Down() == []
            && now.peers[n].joinedAt == joining.master.masterOffset
            && (n in AckedLinks(now.master) <==> joining.master.masterOffset == 0)
  {
    hide Run, PeerOk;
    RunKeeps(sys, events);
    RunOneMore(sys, events, Join(node));
    OffsetIsNat(Run(sys, events));
  }

  /** The shortest run with a replica that is not counted although it lacks nothing. */
  lemma LateJoinerIsNotCounted(sys: System, a: Store, b: Store)
    requires Initial(sys)
    ensures FromLines([Join(a), Set([], []), Join(b)])
    ensures var now := Run(sys, [Join(a), Set([], []), Join(b)]);
            && |now.peers| == 2 && now.peers[1].Valid() && now.peers[1].Down() == []
            && now.peers[1].joinedAt > 0 && 1 !in AckedLinks(now.master)
  {
    hide Run, PeerOk, Frame, TrimSpace, Tidy;
    var events := [Join(a), Set([], [])];
    TidyTexts();
    SetSize([], []);
    RunTwo(sys, Join(a), Set([], []));
    InitialIsInv(sys);
    OffsetIsNat(sys);
    var sys' := JoinAndSet(sys, a, [], []);
    assert events + [Join(b)] == [Join(a), Set([], []), Join(b)];
    RunOneMore(sys, events, Join(b));
    JoinerIsCountedWhen(sys, events, b);
  }

  // ----- when a counted replica lacks a SET -----

  /** The size of the frame of a SET with an empty key and an empty value. */
  const SMALLEST_SET := 25

  lemma SetSize(key: Bytes, value: Bytes)
    ensures |Frame(SetArgs(key, value))| >= SMALLEST_SET
    ensures key == value == [] ==> |Frame(SetArgs(key, value))| == SMALLEST_SET
  {
    var args := SetArgs(key, value);
    assert args[1..] == [key, value] && [key, value][1..] == [value];
    assert FrameArgs([value]) == FrameArg(value) + FrameArgs([value][1..]);
    assert |FrameArgs([key, value])| == |FrameArg(key)| + |FrameArg(value)|;
  }

  lemma {:induction false} NoSetOrLarge(commands: seq<Command>)
    ensures SetBytes(commands) == 0 || SetBytes(commands) >= SMALLEST_SET
    decreases |commands|
  {
    hide Frame;
    if commands != [] {
      NoSetOrLarge(commands[1..]);
      if commands[0].SetCommand? {
        SetSize(commands[0].key, commands[0].value);
      }
    }
  }

  /** As long as the drift (37 bytes for each GETACK before the recorded ACK, less the master's offset at join) is
      smaller than the smallest SET, a replica that WAIT counts has applied every SET propagated to it; if it
      joined with the master's map, it has the master's map now. */
  lemma CountedWithSmallDrift(sys: System, events: seq<Event>, i: nat)
    requires Initial(sys) && FromLines(events) && i < |Run(sys, events).peers|
    requires var now := Run(sys, events);
             && now.peers[i].Valid() && i in AckedLinks(now.master)
             && GETACK_SIZE * AcksBefore(now.peers[i]) - now.peers[i].joinedAt < SMALLEST_SET
    ensures var now := Run(sys, events);
            var peer := now.peers[i];
            && (forall c :: c in peer.Down() ==> c.GetAckCommand?)
            && (peer.start.memory == peer.base ==> peer.node.memory == now.master.memory)
  {
    hide Run, Frame, Log, Memory, After, Tidy, SetBytes, GetAcks, AcksBefore;
    PeerOf(sys, events, i);
    WhatWaitCounts(sys, events, i);
    var now := Run(sys, events);
    NoSetOrLarge(now.peers[i].Down());
    NothingMissing(now.master, now.master.links[i], i, now.peers[i]);
  }

  lemma NothingMissing(master: Store, link: Link, i: nat, peer: Peer)
    requires PeerOk(master, link, i, peer) && SetBytes(peer.Down()) == 0
    ensures forall c :: c in peer.Down() ==> c.GetAckCommand?
    ensures peer.start.memory == peer.base ==> peer.node.memory == master.memory
  {
    hide Frame, Log, Memory, After, Tidy, SetBytes, GetAcks;
    NoSetBytes(peer.Down());
    ReplicaAfter(peer.start, peer.sent[..peer.processed]);
    assert peer.sent[..peer.processed] + peer.Down() == peer.sent;
    MemoryOfGetAcks(peer.base, peer.sent[..peer.processed], peer.Down());
  }

  lemma {:induction false} MemoryOfGetAcks(memory: map<Bytes, Bytes>, commands: seq<Command>, more: seq<Command>)
    requires forall c :: c in more ==> c.GetAckCommand?
    ensures Memory(memory, commands + more) == Memory(memory, commands)
    decreases |more|
  {
    if more == [] {
      assert commands + more == commands;
    } else {
      assert more[0] in more;
      assert commands + more == commands + [GetAckCommand] + more[1..];
      MemoryOfGetAcks(memory, commands + [GetAckCommand], more[1..]);
      MemoryGetAck(memory, commands);
    }
  }

  lemma RunOneMore(sys: System, events: seq<Event>, e: Event)
    ensures Run(sys, events + [e]) == Next(Run(sys, events), e)
  {
    assert (events + [e])[..|events|] == events;
  }

  lemma {:induction false} RunAppend(sys: System, events: seq<Event>, more: seq<Event>)
    ensures Run(sys, events + more) == Run(Run(sys, events), more)
    decreases |more|
  {
    hide Next;
    if more == [] {
      assert events + more == events;
    } else {
      var n := |more| - 1;
      RunAppend(sys, events, more[..n]);
      assert events + more == (events + more[..n]) + [more[n]];
      RunOneMore(sys, events + more[..n], more[n]);
    }
  }

  /** The same event k times. */
  function Times(e: Event, k: nat): seq<Event> {
    if k == 0 then [] else Times(e, k - 1) + [e]
  }

  function GetAckTimes(k: nat): (commands: seq<Command>)
    ensures |commands| == k && forall c :: c in commands ==> c.GetAckCommand?
  {
    seq(k, _ => GetAckCommand)
  }

  /** Only the master's offset and map, and peer n, matter in what follows. */
  predicate SameBut(sys: System, sys': System, n: nat, peer: Peer) {
    && sys'.master.masterOffset == sys.master.masterOffset && sys'.master.memory == sys.master.memory
    && |sys'.peers| == |sys.peers| && n < |sys'.peers| && sys'.peers[n] == peer
  }

  lemma WaitStep(sys: System, n: nat)
    requires Inv(sys) && n < |sys.peers| && sys.master.masterOffset > 0
    ensures var sys' := Next(sys, Wait);
            Inv(sys') && SameBut(sys, sys', n, SendTo(sys.peers[n], GetAckCommand))
  {
    hide PeerOk, Frame;
    StepKeeps(sys, Wait);
  }

  lemma ProcessStep(sys: System, n: nat)
    requires Inv(sys) && n < |sys.peers|
    ensures sys.peers[n].Valid()
    ensures var sys' := Next(sys, Process(n));
            Inv(sys') && SameBut(sys, sys', n, ProcessOne(sys.peers[n]))
  {
    hide PeerOk, Frame, ProcessOne;
    StepKeeps(sys, Process(n));
    NodeIsReplica(sys, n);
  }

  lemma DeliverStep(sys: System, n: nat)
    requires Inv(sys) && n < |sys.peers| && sys.peers[n].up != []
    ensures var sys' := Next(sys, Deliver(n));
            Inv(sys') && SameBut(sys, sys', n, DeliverOne(sys.peers[n]))
  {
    hide PeerOk, Frame, RecordAck;
    StepKeeps(sys, Deliver(n));
    Recorded(sys, n);
  }

  lemma NodeIsReplica(sys: System, n: nat)
    requires Inv(sys) && n < |sys.peers|
    ensures sys.peers[n].Valid()
  {
    assert PeerOk(sys.master, sys.master.links[n], n, sys.peers[n]);
  }

  lemma {:induction false} AskTimes(sys: System, n: nat, k: nat)
    requires Inv(sys) && n < |sys.peers| && sys.master.masterOffset > 0
    ensures var sys' := Run(sys, Times(Wait, k));
            && Inv(sys')
            && SameBut(sys, sys', n, sys.peers[n].(sent := sys.peers[n].sent + GetAckTimes(k)))
    decreases k
  {
    hide Inv, Next;
    if k == 0 {
      assert sys.peers[n].sent + GetAckTimes(0) == sys.peers[n].sent;
    } else {
      AskTimes(sys, n, k - 1);
      RunOneMore(sys, Times(Wait, k - 1), Wait);
      WaitStep(Run(sys, Times(Wait, k - 1)), n);
      assert sys.peers[n].sent + GetAckTimes(k - 1) + [GetAckCommand] == sys.peers[n].sent + GetAckTimes(k);
    }
  }

  /** A replica that has received a SET and then GETACKs only, and has handled k of these commands. */
  predicate HasAnswered(peer: Peer, first: Peer, k: nat) {
    && peer == first.(node := peer.node, processed := k, up := peer.up)
    && |peer.up| == (if k == 0 then 0 else k - 1)
    && InTurn(peer.up)
  }

  lemma AnswersNext(peer: Peer, first: Peer, k: nat)
    requires HasAnswered(peer, first, k) && peer.Valid() && k < |first.sent|
    requires first.sent[k].SetCommand? <==> k == 0
    ensures HasAnswered(ProcessOne(peer), first, k + 1)
  {
    hide After1;
  }

  lemma {:induction false} ProcessTimes(sys: System, n: nat, k: nat)
    requires Inv(sys) && n < |sys.peers| && k <= |sys.peers[n].sent| && HasAnswered(sys.peers[n], sys.peers[n], 0)
    requires forall j :: 0 <= j < |sys.peers[n].sent| ==> (sys.peers[n].sent[j].SetCommand? <==> j == 0)
    ensures var sys' := Run(sys, Times(Process(n), k));
            && Inv(sys')
            && n < |sys'.peers| && SameBut(sys, sys', n, sys'.peers[n])
            && HasAnswered(sys'.peers[n], sys.peers[n], k)
    decreases k
  {
    hide Inv, Next, HasAnswered, ProcessOne;
    if k > 0 {
      ProcessTimes(sys, n, k - 1);
      var before := Run(sys, Times(Process(n), k - 1));
      RunOneMore(sys, Times(Process(n), k - 1), Process(n));
      ProcessStep(before, n);
      AnswersNext(before.peers[n], sys.peers[n], k - 1);
    }
  }

  /** One report for each command from the second on. */
  predicate InTurn(up: seq<Report>) {
    forall j :: 0 <= j < |up| ==> up[j].upTo == j + 1
  }

  lemma {:induction false} DeliverTimes(sys: System, n: nat, k: nat)
    requires Inv(sys) && n < |sys.peers| && k <= |sys.peers[n].up|
    requires sys.peers[n].recordedUpTo == 0
    requires InTurn(sys.peers[n].up)
    ensures var sys' := Run(sys, Times(Deliver(n), k));
            && Inv(sys')
            && SameBut(sys, sys', n, sys.peers[n].(up := sys.peers[n].up[k..], recordedUpTo := k))
    decreases k
  {
    hide Inv, Next;
    if k > 0 {
      DeliverTimes(sys, n, k - 1);
      RunOneMore(sys, Times(Deliver(n), k - 1), Deliver(n));
      hide Run, Times;
      var up := sys.peers[n].up;
      assert up[k - 1].upTo == k;
      hide InTurn;
      DeliverStep(Run(sys, Times(Deliver(n), k - 1)), n);
      assert up[k - 1..][0] == up[k - 1] && up[k - 1..][1..] == up[k..];
    }
  }

  /** A replica joins and is sent a SET. */
  lemma JoinAndSet(sys: System, node: Store, key: Bytes, value: Bytes) returns (sys': System)
    requires Inv(sys) && Tidy(key) && Tidy(value) && TrimSpace(key) == key && TrimSpace(value) == value
    ensures sys' == Next(Next(sys, Join(node)), Set(key, value)) && Inv(sys')
    ensures sys'.master.masterOffset == sys.master.masterOffset + |Frame(SetArgs(key, value))|
    ensures var n := |sys.peers|;
            var start := node.(role := Slave(0));
            && |sys'.peers| == n + 1
            && sys'.peers[n] == Peer(start, sys.master.memory, sys.master.masterOffset, start,
                                     [SetCommand(key, value)], 0, [], 0)
  {
    hide PeerOk, Frame, TrimSpace, SpaceAtStart, SpaceAtEnd;
    StepKeeps(sys, Join(node));
    var joined := Next(sys, Join(node));
    StepKeeps(joined, Set(key, value));
    sys' := Next(joined, Set(key, value));
    assert sys'.peers[|sys.peers|].sent == [] + [SetCommand(key, value)];
  }

  lemma TidyTexts()
    ensures Tidy([]) && TrimSpace([]) == []
    ensures Tidy([97]) && TrimSpace([97]) == [97]
  {
  }

  /** One more SET: it is in flight, and the master has it. */
  lemma LastSet(sys: System, n: nat)
    requires Inv(sys) && n < |sys.peers| && sys.peers[n].processed == |sys.peers[n].sent|
    ensures var sys' := Next(sys, Set([], []));
            && Inv(sys') && |sys'.peers| == |sys.peers|
            && sys'.peers[n] == SendTo(sys.peers[n], SetCommand([], []))
            && sys'.peers[n].Valid() && sys'.peers[n].Down() == [SetCommand([], [])]
            && sys'.master.memory == sys.master.memory[[] := []]
  {
    hide PeerOk, Frame, TrimSpace, Tidy;
    TidyTexts();
    StepKeeps(sys, Set([], []));
    NodeIsReplica(sys, n);
    NodeIsReplica(Next(sys, Set([], [])), n);
  }

  /** The map of a replica that has handled one SET and then GETACKs only. */
  lemma MapAfterOneSet(sys: System, n: nat, c: Command, k: nat)
    requires Inv(sys) && n < |sys.peers| && c.SetCommand?
    requires |sys.peers[n].sent| > k && sys.peers[n].processed == k + 1
    requires sys.peers[n].sent[..k + 1] == [c] + GetAckTimes(k)
    ensures sys.peers[n].node.memory == sys.peers[n].start.memory[Kept(c.key) := Kept(c.value)]
  {
    hide Frame, TrimSpace, After, Tidy, Log, Kept;
    var peer := sys.peers[n];
    assert PeerOk(sys.master, sys.master.links[n], n, peer);
    ReplicaAfter(peer.start, peer.sent[..k + 1]);
    MemoryOfGetAcks(peer.start.memory, [c], GetAckTimes(k));
    assert [c][1..] == [];
  }

  lemma {:induction false} OnlyGetAcks(commands: seq<Command>)
    requires forall c :: c in commands ==> c.GetAckCommand?
    ensures SetBytes(commands) == 0 && GetAcks(commands) == |commands|
    decreases |commands|
  {
    if commands != [] {
      assert commands[0] in commands;
      OnlyGetAcks(commands[1..]);
    }
  }

  /** From the moment the drift can hold a SET, the guarantee fails: in every reachable state, and for every number g
      of GETACKs that makes up for the master's offset and the smallest SET, a node that joins can be counted after
      g earlier GETACKs although it lacks a SET, so that its map is not the master's. */
  lemma CountedTooEarly(sys: System, events: seq<Event>, node: Store, g: nat) returns (more: seq<Event>)
    requires Initial(sys) && FromLines(events)
    requires GETACK_SIZE * g - Run(sys, events).master.masterOffset >= SMALLEST_SET
    ensures FromLines(events + more)
    ensures var joining, now := Run(sys, events), Run(sys, events + more);
            var n := |joining.peers|;
            && n < |now.peers| && now.peers[n].Valid() && n in AckedLinks(now.master)
            && now.peers[n].joinedAt == joining.master.masterOffset && AcksBefore(now.peers[n]) == g
            && now.peers[n].start.memory == node.memory && now.peers[n].base == joining.master.memory
            && now.peers[n].Down() == [SetCommand([], [])]
            && now.peers[n].node.memory != now.master.memory
  {
    hide Run, Next, PeerOk, Frame, TrimSpace, Tidy, AcksBefore, SetBytes;
    TidyTexts();
    SetSize([], []);
    RunKeeps(sys, events);
    var s0 := Run(sys, events);
    var n := |s0.peers|;
    more := TooEarly(n, node, g);
    AllFromLines(n, node, g);
    RunAppend(sys, events, more);
    var s := RunTooEarly(s0, node, g);
    RunOneMore(s0, BeforeLast(n, node, g), Set([], []));
    CountedAfter(s, n, g);
  }

  /** Join, SET, g + 1 times WAIT, everything processed and delivered, and one more SET. */
  function TooEarly(n: nat, node: Store, g: nat): seq<Event> {
    BeforeLast(n, node, g) + [Set([], [])]
  }

  function BeforeLast(n: nat, node: Store, g: nat): seq<Event> {
    [Join(node), Set([], [97])] + Times(Wait, g + 1) + Times(Process(n), g + 2) + Times(Deliver(n), g + 1)
  }

  lemma AllFromLines(n: nat, node: Store, g: nat)
    ensures FromLines(TooEarly(n, node, g))
  {
    TimesIs(Wait, g + 1);
    TimesIs(Process(n), g + 2);
    TimesIs(Deliver(n), g + 1);
  }

  lemma {:induction false} TimesIs(e: Event, k: nat)
    ensures forall x :: x in Times(e, k) ==> x == e
    decreases k
  {
    if k > 0 {
      TimesIs(e, k - 1);
    }
  }

  /** What the run comes to before its last SET. */
  predicate AllAnswered(peer: Peer, g: nat) {
    && peer.sent == [SetCommand([], [97])] + GetAckTimes(g + 1)
    && peer.processed == g + 2 && peer.recordedUpTo == g + 1
    && peer.node.memory == peer.start.memory[[] := [97]]
  }

  lemma RunTooEarly(sys: System, node: Store, g: nat) returns (sys': System)
    requires Inv(sys)
    ensures sys' == Run(sys, BeforeLast(|sys.peers|, node, g)) && Inv(sys')
    ensures var n := |sys.peers|;
            && n < |sys'.peers| && AllAnswered(sys'.peers[n], g)
            && sys'.peers[n].joinedAt == sys.master.masterOffset
            && sys'.peers[n].start.memory == node.memory && sys'.peers[n].base == sys.master.memory
  {
    hide Run, Next, PeerOk, Frame, TrimSpace, Tidy, Times;
    TidyTexts();
    SetSize([], [97]);
    OffsetIsNat(sys);
    var n := |sys.peers|;
    var first := SetCommand([], [97]);
    var begin, wait := [Join(node), Set([], [97])], Times(Wait, g + 1);
    var process, deliver := Times(Process(n), g + 2), Times(Deliver(n), g + 1);
    RunTwo(sys, Join(node), Set([], [97]));
    var s1 := JoinAndSet(sys, node, [], [97]);
    AskTimes(s1, n, g + 1);
    var s2 := Run(s1, wait);
    RunAppend(sys, begin, wait);
    ProcessTimes(s2, n, g + 2);
    var s3 := Run(s2, process);
    RunAppend(sys, begin + wait, process);
    DeliverTimes(s3, n, g + 1);
    sys' := Run(s3, deliver);
    RunAppend(sys, begin + wait + process, deliver);
    assert sys'.peers[n].sent[..g + 2] == [first] + GetAckTimes(g + 1);
    MapAfterOneSet(sys', n, first, g + 1);
    KeptTidy([]);
    KeptTidy([97]);
  }

  lemma OffsetIsNat(sys: System)
    requires Inv(sys)
    ensures sys.master.masterOffset >= 0
  {
  }

  lemma RunTwo(sys: System, e: Event, e': Event)
    ensures Run(sys, [e, e']) == Next(Next(sys, e), e')
  {
    hide Next;
    RunOneMore(sys, [], e);
    RunOneMore(sys, [e], e');
    assert [] + [e] == [e] && [e] + [e'] == [e, e'];
  }

  lemma CountedAfter(sys: System, n: nat, g: nat)
    requires Inv(sys) && n < |sys.peers| && AllAnswered(sys.peers[n], g)
    requires GETACK_SIZE * g - sys.peers[n].joinedAt >= SMALLEST_SET
    ensures var sys' := Next(sys, Set([], []));
            && n < |sys'.peers| && sys'.peers[n] == SendTo(sys.peers[n], SetCommand([], []))
            && sys'.peers[n].Valid() && n in AckedLinks(sys'.master) && AcksBefore(sys'.peers[n]) == g
            && sys'.peers[n].Down() == [SetCommand([], [])]
            && sys'.peers[n].node.memory != sys'.master.memory
  {
    hide Next, PeerOk, Frame, TrimSpace, Tidy, SetBytes, GetAcks;
    LastSet(sys, n);
    var sys' := Next(sys, Set([], []));
    var peer := sys'.peers[n];
    var first, last := SetCommand([], [97]), SetCommand([], []);
    assert peer.sent == [first] + GetAckTimes(g + 1) + [last];
    SetSize([], []);
    OneSet(first);
    OneSet(last);
    OnlyGetAcks(GetAckTimes(g));
    OnlyGetAcks(GetAckTimes(1));
    assert peer.sent[..g + 1] == [first] + GetAckTimes(g);
    Sums([first], GetAckTimes(g));
    NoGetAck(first);
    assert peer.sent[g + 1..] == GetAckTimes(1) + [last];
    Sums(GetAckTimes(1), [last]);
    CountedPeer(sys'.master, sys'.master.links[n], n, peer);
    assert sys.peers[n].node.memory[[]] == [97] && sys'.master.memory[[]] == [];
  }

  lemma NoGetAck(c: Command)
    requires c.SetCommand?
    ensures GetAcks([c]) == 0
  {
    assert [c][1..] == [];
  }
}
