/** The live map, the replica's map and the map replayed from the append-only file are one map. */
module SetAgreement {
  import opened Numbers
  import opened Frames
  import opened Lines
  import opened ServerState
  import opened ServerLog
  import opened FileReplay
  import opened Requests
  import opened RequestLaws

  // ----- what a list of SETs does -----

  /** SETs as the server stores them: keys and values are tidy. */
  predicate TidySets(sets: seq<Command>) {
    TidyCommands(sets) && GetAckCommand !in sets
  }

  function Memory(memory: map<Bytes, Bytes>, sets: seq<Command>): map<Bytes, Bytes>
    decreases |sets|
  {
    if sets == [] then memory
    else match sets[0]
         case SetCommand(key, value) => Memory(memory[Kept(key) := Kept(value)], sets[1..])
         case GetAckCommand => Memory(memory, sets[1..])
  }

  lemma {:induction false} ReplicaAfter(st: Store, commands: seq<Command>)
    requires st.role.Slave?
    ensures After(st, commands).memory == Memory(st.memory, commands)
    ensures After(st, commands).timers == st.timers
    decreases |commands|
  {
    if commands != [] {
      ReplicaAfter(After1(st, commands[0]), commands[1..]);
    }
  }

  predicate TidyCommands(commands: seq<Command>) {
    forall c :: c in commands && c.SetCommand? ==> Tidy(c.key) && Tidy(c.value)
  }

  /** A replica's offset grows by exactly the bytes it was sent. */
  lemma {:induction false} ReplicaOffset(st: Store, commands: seq<Command>)
    requires st.role.Slave? && TidyCommands(commands)
    ensures After(st, commands).role == Slave(st.role.replOffset + |Log(AllArgs(commands))|)
    decreases |commands|
  {
    hide TrimSpace, Tidy, Frame;
    if commands != [] {
      var c := commands[0];
      assert c in commands;
      if c.SetCommand? {
        KeptTidy(c.key);
        KeptTidy(c.value);
      }
      GetAckSize();
      assert AllArgs(commands)[1..] == AllArgs(commands[1..]);
      ReplicaOffset(After1(st, c), commands[1..]);
    }
  }

  lemma {:induction false} ApplySets(st: Store, sets: seq<Command>)
    requires TidySets(sets)
    ensures ApplyAll(st, AllArgs(sets)).memory == Memory(st.memory, sets)
    ensures ApplyAll(st, AllArgs(sets)).timers == st.timers
    decreases |sets|
  {
    if sets != [] {
      assert sets[0] in sets;
      KeptTidy(sets[0].key);
      KeptTidy(sets[0].value);
      NamesAreModelled();
      assert AllArgs(sets)[1..] == AllArgs(sets[1..]);
      ApplySets(Apply(st, Args(sets[0])), sets[1..]);
    }
  }

  /** What a master has after some SETs, apart from link offsets and timers. */
  ghost predicate MasterHas(st: Store, before: Store, sets: seq<Command>) {
    var log := Log(AllArgs(sets));
    && st.role == before.role == Master
    && st.memory == Memory(before.memory, sets)
    && st.masterOffset == before.masterOffset + (if before.links == [] then 0 else |log|)
    && st.aof == (match before.aof case None => None case Some(b) => Some(b + log))
    && |st.links| == |before.links|
    && forall i :: 0 <= i < |st.links| ==> st.links[i].stream == before.links[i].stream + log
  }

  lemma MasterStart(st: Store)
    requires st.role == Master
    ensures MasterHas(st, st, [])
  {
    assert Log(AllArgs([])) == [];
    assert st.aof.Some? ==> st.aof.value + [] == st.aof.value;
    assert forall i :: 0 <= i < |st.links| ==> st.links[i].stream + [] == st.links[i].stream;
  }

  lemma {:induction false} MemoryAppend(memory: map<Bytes, Bytes>, sets: seq<Command>, c: Command)
    requires c.SetCommand?
    ensures Memory(memory, sets + [c]) == Memory(memory, sets)[Kept(c.key) := Kept(c.value)]
    decreases |sets|
  {
    if sets == [] {
      assert [] + [c] == [c] && [c][1..] == [];
    } else {
      assert (sets + [c])[1..] == sets[1..] + [c];
      match sets[0]
      case SetCommand(key, value) => MemoryAppend(memory[Kept(key) := Kept(value)], sets[1..], c);
      case GetAckCommand => MemoryAppend(memory, sets[1..], c);
    }
  }

  /** One more SET. */
  lemma MasterSet(st: Store, before: Store, sets: seq<Command>, key: Bytes, value: Bytes)
    requires MasterHas(st, before, sets) && Tidy(key) && Tidy(value)
    ensures MasterHas(StoreSet(st, key, value), before, sets + [SetCommand(key, value)])
  {
    hide Memory, TrimSpace, Frame;
    var c := SetCommand(key, value);
    var log, more := Log(AllArgs(sets)), Frame(SetArgs(key, value));
    MemoryAppend(before.memory, sets, c);
    KeptTidy(key);
    KeptTidy(value);
    LogOfOneMore(sets, c);
    assert forall b: Bytes {:trigger b + log} :: b + log + more == b + (log + more);
    var after := StoreSet(st, key, value);
    forall i | 0 <= i < |after.links|
      ensures after.links[i].stream == before.links[i].stream + (log + more)
    {
      assert after.links[i] == Push(st.links[i], more);
    }
  }

  lemma LogOfOneMore(sets: seq<Command>, c: Command)
    ensures Log(AllArgs(sets + [c])) == Log(AllArgs(sets)) + Frame(Args(c))
  {
    assert AllArgs(sets + [c]) == AllArgs(sets) + [Args(c)];
    LogAppend(AllArgs(sets), [Args(c)]);
    assert Log([Args(c)]) == Frame(Args(c)) + Log([Args(c)][1..]) == Frame(Args(c)) + [];
  }

  lemma SameExceptOffsets(st: Store, st': Store, before: Store, sets: seq<Command>)
    requires MasterHas(st, before, sets)
    requires st'.role == st.role && st'.memory == st.memory && st'.masterOffset == st.masterOffset && st'.aof == st.aof
    requires |st'.links| == |st.links|
    requires forall i :: 0 <= i < |st.links| ==> st'.links[i].stream == st.links[i].stream
    ensures MasterHas(st', before, sets)
  {
  }

  /** Whatever bytes it reads, one SET handler either changes none of this state or adds one tidy SET. */
  lemma MasterSetAt(st: Store, before: Store, sets: seq<Command>, s: Bytes, p: nat, authed: bool, buffered: nat -> bool)
    returns (sets': seq<Command>)
    requires p <= |s| && MasterHas(st, before, sets) && TidySets(sets)
    ensures TidySets(sets') && MasterHas(SetAt(st, s, p, authed, buffered).store, before, sets')
  {
    hide TrimSpace, MasterHas, StoreSet, ReadString, Tidy;
    sets' := sets;
    if authed {
      var key := ReadString(s, ReadString(s, p).next);
      if key.ok {
        var value := ReadString(s, ReadString(s, key.next).next);
        if value.ok {
          TrimmedLineIsTidy(s, ReadString(s, p).next);
          TrimmedLineIsTidy(s, ReadString(s, key.next).next);
          MasterSet(st, before, sets, TrimSpace(key.text), TrimSpace(value.text));
          sets' := sets + [SetCommand(TrimSpace(key.text), TrimSpace(value.text))];
          var stored := StoreSet(st, TrimSpace(key.text), TrimSpace(value.text));
          SameExceptOffsets(stored, ReadOption(stored, s, value.next, TrimSpace(key.text), buffered).0, before, sets');
        }
      }
    }
  }

  lemma MasterDispatch(st: Store, before: Store, sets: seq<Command>, session: Session, s: Bytes, line: Line,
      buffered: nat -> bool)
    returns (sets': seq<Command>)
    requires line.next <= |s| && MasterHas(st, before, sets) && TidySets(sets)
    ensures var effect := Dispatch(st, session, s, line, buffered);
            effect.Continue? ==> TidySets(sets') && MasterHas(effect.store, before, sets')
  {
    hide TrimSpace, ReadString, SetAt;
    sets' := sets;
    var effect := Dispatch(st, session, s, line, buffered);
    if ToUpper(TrimSpace(line.text)) == SET {
      sets' := MasterSetAt(st, before, sets, s, line.next, session.authed, buffered);
    } else if effect.Continue? {
      MasterOtherwise(st, session, s, line, buffered);
      SameExceptOffsets(st, effect.store, before, sets);
    }
  }

  /** Commands other than SET change nothing but a link's recorded offset. */
  lemma MasterOtherwise(st: Store, session: Session, s: Bytes, line: Line, buffered: nat -> bool)
    requires line.next <= |s| && st.role == Master && ToUpper(TrimSpace(line.text)) != SET
    requires Dispatch(st, session, s, line, buffered).Continue?
    ensures var st' := Dispatch(st, session, s, line, buffered).store;
            && st'.role == st.role && st'.memory == st.memory && st'.masterOffset == st.masterOffset
                && st'.aof == st.aof
            && |st'.links| == |st.links|
            && forall i :: 0 <= i < |st.links| ==> st'.links[i].stream == st.links[i].stream
  {
    hide TrimSpace, ReadString, SetAt, ToUpper;
  }

  /** Whatever bytes a client sends, if they are served to their end, that amounts to a list of tidy SETs, and the
      replicas' streams and the file hold exactly the frames of that list. */
  lemma {:induction false} MasterRun(
    st: Store, before: Store, sets: seq<Command>, session: Session, s: Bytes, p: nat, buffered: nat -> bool)
    returns (all: seq<Command>)
    requires p <= |s| && MasterHas(st, before, sets) && TidySets(sets)
    requires Serve(st, session, s, p, buffered).Finished?
    ensures TidySets(all) && MasterHas(Serve(st, session, s, p, buffered).store, before, all)
    decreases |s| - p
  {
    hide MasterHas, TidySets, Dispatch, ReadString, TrimSpace, ToUpper, IsOtherCommand;
    all := sets;
    var line := ReadString(s, p);
    if line.ok {
      var effect := Dispatch(st, session, s, line, buffered);
      var sets' := MasterDispatch(st, before, sets, session, s, line, buffered);
      all := MasterRun(effect.store, before, sets', session, s, effect.next, buffered);
    }
  }

  lemma TidySetsAreReadable(sets: seq<Command>)
    requires TidySets(sets)
    ensures Readable(sets) && TidyCommands(sets) && GetAckCommand !in sets
    ensures forall args :: args in AllArgs(sets) ==> TidyArgs(args)
  {
    NamesAreModelled();
    forall args | args in AllArgs(sets) ensures TidyArgs(args) {
      var i :| 0 <= i < |sets| && args == Args(sets[i]);
      assert sets[i] in sets;
    }
  }

  /** The agreement theorem. A client sends any bytes that are served to their end (`AnyBytes.WhenServingEnds` says
      that all are in which no line names a command outside this model or is GETACK), arriving in any pieces, to a
      master with an empty append-only file and a replica whose stream is still empty. Running the replica on the
      bytes pushed to it, however those arrive, and replaying the file both end with the master's map. Neither starts
      an expiry timer, and both master and replica have counted exactly the bytes pushed. */
  lemma ThreeWayAgreement(
    master: Store, client: Session, bytes: Bytes, buffered: nat -> bool, i: nat,
    replica: Store, upstream: Session, buffered': nat -> bool, restarted: Store)
    requires master.role == Master && master.aof == Some([])
    requires i < |master.links| && master.links[i].stream == []
    requires replica.role.Slave? && upstream.authed
    requires replica.memory == restarted.memory == master.memory
    requires Serve(master, client, bytes, 0, buffered).Finished?
    ensures var live := Serve(master, client, bytes, 0, buffered).store;
            && i < |live.links| && live.aof.Some?
            && var stream := live.links[i].stream;
               var follower := Serve(replica, upstream, stream, 0, buffered');
            && follower.Finished?
            && follower.store.memory == live.memory == Replay(restarted, live.aof.value, 0).memory
            && follower.store.timers == replica.timers
            && Replay(restarted, live.aof.value, 0).timers == restarted.timers
            && follower.store.role == Slave(replica.role.replOffset + |stream|)
            && live.masterOffset == master.masterOffset + |stream|
  {
    hide Serve, Replay, TrimSpace, Log, TidySets, Memory, After, Output;
    MasterStart(master);
    EmptyIsTidy();
    var sets := MasterRun(master, master, [], client, bytes, 0, buffered);
    var log := Log(AllArgs(sets));
    assert [] + log == log;
    TidySetsAreReadable(sets);
    ServeLog(replica, upstream, log, buffered', sets);
    ReplicaAfter(replica, sets);
    ReplicaOffset(replica, sets);
    ReplayLog(restarted, AllArgs(sets));
    ApplySets(restarted, sets);
  }

  /** Expiry timers agree exactly when none was started: for a client that sends any SETs, with or without PX, the
      timers of the master, the replica and the file are the same if and only if no option was buffered when its
      handler looked for it. */
  lemma TimersAgree(
    master: Store, client: Session, requests: seq<Request>, buffered: nat -> bool, i: nat,
    replica: Store, upstream: Session, buffered': nat -> bool, restarted: Store)
    requires master.role == Master && master.aof == Some([])
    requires i < |master.links| && master.links[i].stream == []
    requires replica.role.Slave? && upstream.authed
    requires replica.memory == restarted.memory == master.memory
    requires replica.timers == restarted.timers == master.timers
    requires CanSend(client, requests) && !HasGetAck(requests)
    ensures var bytes := Log(Words(requests));
            var served := Serve(master, client, bytes, 0, buffered);
            && served.Finished? && i < |served.store.links| && served.store.aof.Some?
            && var follower := Serve(replica, upstream, served.store.links[i].stream, 0, buffered');
            && follower.Finished?
            && (served.store.timers == follower.store.timers == Replay(restarted, served.store.aof.value, 0).timers
                <==> NoPxIsSeen(|bytes|, buffered, requests))
  {
    var bytes := Log(Words(requests));
    hide *;
    ServedTimers(master, client, buffered, requests);
    ThreeWayAgreement(master, client, bytes, buffered, i, replica, upstream, buffered', restarted);
    NoTimers(|bytes|, buffered, requests);
    var seen := TimersSeen(|bytes|, buffered, requests);
    assert |master.timers + seen| == |master.timers| + |seen|;
  }

  lemma EmptyIsTidy()
    ensures TidySets([])
  {
  }

  /** What the live map is when the client sends well-formed SETs whose arguments hold no newline:
      each key and value is stored without the white space at its ends. */
  lemma LiveMap(master: Store, client: Session, sets: seq<Command>, buffered: nat -> bool)
    requires master.role == Master && client.authed
    requires Readable(sets) && GetAckCommand !in sets
    ensures var served := Serve(master, client, Log(AllArgs(sets)), 0, buffered);
            served.Finished? && served.store.memory == Memory(master.memory, sets)
  {
    ServeLog(master, client, Log(AllArgs(sets)), buffered, sets);
    MasterMemory(master, sets);
  }

  lemma {:induction false} MasterMemory(st: Store, sets: seq<Command>)
    requires st.role == Master
    ensures After(st, sets).memory == Memory(st.memory, sets)
    decreases |sets|
  {
    if sets != [] {
      MasterMemory(After1(st, sets[0]), sets[1..]);
    }
  }
}
