/** The server's handlers, over shared state that they update in place. */
module Server {
  import opened Numbers
  import opened RespValue
  import opened Frames
  import opened Lines
  import opened ServerState

  class Replica {
    const conn: nat
    var offset: int
    var stream: Bytes  // what the server wrote to the connection after the handshake

    constructor (conn: nat)
      ensures this.conn == conn && offset == 0 && stream == []
    {
      this.conn := conn;
      offset, stream := 0, [];
    }

    ghost function AsLink(): Link
      reads this
    {
      Link(conn, offset, stream)
    }
  }

  class Server {
    const isMaster: bool
    var memory: map<Bytes, Bytes>
    var timers: seq<(Bytes, int)>
    var replOffset: int
    var masterOffset: int
    var replicas: seq<Replica>
    var aof: Option<Bytes>

    /** The replica records are distinct objects: each PSYNC allocates its own. */
    ghost predicate Valid()
      reads this
    {
      forall i, j :: 0 <= i < j < |replicas| ==> replicas[i] != replicas[j]
    }

    ghost function Links(): (links: seq<Link>)
      reads this, replicas
      ensures |links| == |replicas|
    {
      seq(|replicas|, i requires 0 <= i < |replicas| reads this, replicas => replicas[i].AsLink())
    }

    ghost function State(): Store
      reads this, replicas
    {
      Store(if isMaster then Master else Slave(replOffset), memory, timers, masterOffset, Links(), aof)
    }

    constructor (isMaster: bool, aof: Option<Bytes>)
      ensures Valid() && this.isMaster == isMaster && replicas == []
      ensures State() == Store(if isMaster then Master else Slave(0), map[], [], 0, [], aof)
    {
      this.isMaster := isMaster;
      memory, timers, replOffset, masterOffset, replicas := map[], [], 0, 0, [];
      this.aof := aof;
    }

    /** The end of the PSYNC handshake: the connection becomes a replica. */
    method AddReplica(conn: nat)
      requires Valid()
      modifies this`replicas
      ensures Valid() && |replicas| == |old(replicas)| + 1 && replicas[..|old(replicas)|] == old(replicas)
      ensures fresh(replicas[|replicas| - 1])
      ensures State() == old(State()).(links := old(State()).links + [Link(conn, 0, [])])
    {
      var replica := new Replica(conn);
      assert forall r :: r in replicas ==> r != replica;
      replicas := replicas + [replica];
      assert Links() == old(Links()) + [Link(conn, 0, [])];
    }

    method PropagateCommand(args: seq<Bytes>)
      requires Valid()
      modifies this`masterOffset, replicas
      ensures Valid() && State() == Propagate(old(State()), args)
    {
      if |replicas| == 0 {
        return;
      }
      var resp := PrintFrame(args);
      masterOffset := masterOffset + |resp|;
      for i := 0 to |replicas|
        modifies replicas
        invariant forall j :: 0 <= j < i ==> replicas[j].AsLink() == Push(old(replicas[j].AsLink()), resp)
        invariant forall j :: i <= j < |replicas| ==> replicas[j].AsLink() == old(replicas[j].AsLink())
      {
        replicas[i].stream := replicas[i].stream + resp;
      }
      assert Links() == PushAll(old(Links()), resp);
    }

    method AppendToAof(args: seq<Bytes>)
      modifies this`aof
      ensures State() == AppendToLog(old(State()), args)
    {
      if aof.None? {
        return;
      }
      var resp := PrintFrame(args);
      aof := Some(aof.value + resp);
    }

    method HandleSet(reader: LineReader, authed: bool, buffered: nat -> bool) returns (reply: Bytes)
      requires Valid() && reader.Valid()
      modifies this, replicas, reader
      ensures Valid() && replicas == old(replicas) && reader.Valid()
      ensures SetAt(old(State()), reader.data, old(reader.pos), authed, buffered)
              == Continue(State(), reader.pos, reply, [])
    {
      hide TrimSpace, ToUpper, Frame, Atoi, ReadString;
      if !authed {
        return NOAUTH;
      }
      var _, _ := reader.ReadLine();
      var key, keyOk := reader.ReadLine();
      if !keyOk {
        return [];
      }
      key := TrimSpace(key);
      var _, _ := reader.ReadLine();
      var value, valueOk := reader.ReadLine();
      if !valueOk {
        return [];
      }
      value := TrimSpace(value);
      StoreAndShip(key, value);
      reply := OK;
      ReadPx(reader, key, buffered);
    }

    /** The middle of `HandleSet`: store, and then count the bytes or pass them on, by role. */
    method StoreAndShip(key: Bytes, value: Bytes)
      requires Valid()
      modifies this, replicas
      ensures Valid() && replicas == old(replicas)
      ensures State() == StoreSet(old(State()), key, value)
    {
      memory := memory[key := value];
      if !isMaster {
        var size := OffsetByteSize([SET, key, value]);
        replOffset := replOffset + size;
      }
      if isMaster {
        PropagateCommand([SET, key, value]);
        AppendToAof([SET, key, value]);
      }
    }

    /** The end of `HandleSet`. */
    method ReadPx(reader: LineReader, key: Bytes, buffered: nat -> bool)
      requires Valid() && reader.Valid()
      modifies this`timers, reader
      ensures Valid() && reader.Valid()
      ensures ReadOption(old(State()), reader.data, old(reader.pos), key, buffered) == (State(), reader.pos)
    {
      hide TrimSpace, ToUpper, Atoi, ReadString;
      if !(buffered(reader.pos) && reader.pos < |reader.data|) {
        return;
      }
      var _, _ := reader.ReadLine();
      var option, optionOk := reader.ReadLine();
      if !optionOk {
        return;
      }
      option := ToUpper(TrimSpace(option));
      if option == PX {
        var _, _ := reader.ReadLine();
        var tte, tteOk := reader.ReadLine();
        var milliseconds := Atoi(TrimSpace(tte)).value;
        if !tteOk {
          return;
        }
        timers := timers + [(key, milliseconds)];
        assert Links() == old(Links());
      }
    }

    method HandlePing(authed: bool, ghost pos: nat) returns (reply: Bytes)
      requires Valid()
      modifies this`replOffset
      ensures Valid() && Continue(State(), pos, reply, []) == PingAt(old(State()), pos, authed)
    {
      if !authed {
        return NOAUTH;
      }
      reply := PONG;
      if !isMaster {
        var size := OffsetByteSize([PING]);
        replOffset := replOffset + size;
      }
    }

    /** `crashed` is the panic of a master that reads the offset only replicas have. */
    method HandleReplConf(reader: LineReader, conn: nat) returns (reply: Bytes, ack: Bytes, crashed: bool)
      requires Valid() && reader.Valid()
      modifies this, replicas, reader
      ensures Valid() && replicas == old(replicas) && reader.Valid()
      ensures ReplConfAt(old(State()), conn, reader.data, old(reader.pos))
              == if crashed then Crash else Continue(State(), reader.pos, reply, ack)
    {
      hide TrimSpace, ToUpper, Frame, Atoi, FormatInt, ReadString;
      reply, ack, crashed := [], [], false;
      var _, _ := reader.ReadLine();
      var command, _ := reader.ReadLine();
      command := ToUpper(TrimSpace(command));
      var _, _ := reader.ReadLine();
      var val, _ := reader.ReadLine();
      val := TrimSpace(val);
      if command == GETACK {
        if isMaster {
          crashed := true;
          return;
        }
        ack := PrintFrame([REPLCONF, ACK, FormatInt(replOffset)]);
        replOffset := replOffset + GETACK_SIZE;
        return;
      }
      if isMaster {
        if command == LISTENING_PORT || command == CAPA {
          reply := OK;
        } else if command == ACK {
          RecordOffset(conn, Atoi(val).value);
        }
      }
    }

    method RecordOffset(conn: nat, offset: int)
      requires Valid()
      modifies replicas
      ensures Valid() && State() == RecordAck(old(State()), conn, offset)
    {
      ghost var links := Links();
      for i := 0 to |replicas|
        invariant Links() == links
        invariant forall j :: 0 <= j < i ==> links[j].conn != conn
      {
        assert links[i] == replicas[i].AsLink();
        if replicas[i].conn == conn {
          FirstLink(links, conn, i);
          replicas[i].offset := offset;
          assert Links() == links[i := links[i].(offset := offset)];
          return;
        }
      }
      FirstLink(links, conn, |links|);
    }

    /** The start of `HandleWait`: unless the answer is known at once, every replica is asked for its offset.
        The request is not counted in the master's offset. */
    method AskReplicas() returns (answer: Option<nat>)
      requires Valid()
      modifies replicas
      ensures Valid() && State() == Ask(old(State()))
      ensures answer == if |replicas| == 0 || masterOffset == 0 then Some(|replicas|) else None
    {
      if |replicas| == 0 || masterOffset == 0 {
        return Some(|replicas|);
      }
      var getAckCommand := PrintFrame([REPLCONF, GETACK, STAR]);
      for i := 0 to |replicas|
        invariant forall j :: 0 <= j < i ==> replicas[j].AsLink() == Push(old(replicas[j].AsLink()), getAckCommand)
        invariant forall j :: i <= j < |replicas| ==> replicas[j].AsLink() == old(replicas[j].AsLink())
      {
        replicas[i].stream := replicas[i].stream + getAckCommand;
      }
      assert Links() == PushAll(old(Links()), getAckCommand);
      answer := None;
    }

    /** The counting loop of `HandleWait`. */
    method CountAcked() returns (acked: nat)
      ensures acked == |AckedLinks(State())|
    {
      acked := 0;
      ghost var counted: set<nat> := {};
      for i := 0 to |replicas|
        invariant counted == set j: nat | j < i && State().links[j].offset >= masterOffset
        invariant acked == |counted|
      {
        if replicas[i].offset >= masterOffset {
          acked := acked + 1;
          counted := counted + {i};
        }
      }
      assert counted == AckedLinks(State());
    }

    /** The command loop of one connection. */
    method ServeCommands(session: Session, bytes: Bytes, buffered: nat -> bool)
        returns (output: Bytes, crashed: bool, unmodelled: bool)
      requires Valid()
      modifies this, replicas
      ensures Valid() && replicas == old(replicas)
      ensures Serve(old(State()), session, bytes, 0, buffered)
              == if crashed then Crashed else if unmodelled then Unmodelled else Finished(State(), output)
    {
      hide TrimSpace, ToUpper, SetAt, PingAt, ReplConfAt, IsOtherCommand;
      var reader := new LineReader(bytes);
      output, crashed, unmodelled := [], false, false;
      ghost var whole := Serve(State(), session, bytes, 0, buffered);
      while true
        invariant Valid() && replicas == old(replicas) && reader.Valid() && reader.data == bytes
        invariant whole == Then(output, Serve(State(), session, bytes, reader.pos, buffered))
        decreases |bytes| - reader.pos
      {
        var line, ok := reader.ReadLine();
        if !ok {
          assert output + [] == output;
          return;
        }
        var upperLine := ToUpper(TrimSpace(line));
        if IsOtherCommand(upperLine) {
          unmodelled := true;
          return;
        }
        var reply, ack := [], [];
        if upperLine == PING {
          reply := HandlePing(session.authed, reader.pos);
        } else if upperLine == SET {
          reply := HandleSet(reader, session.authed, buffered);
        } else if upperLine == REPLCONF {
          reply, ack, crashed := HandleReplConf(reader, session.conn);
          if crashed {
            return;
          }
        }
        ghost var effect := Continue(State(), reader.pos, reply, ack);
        ThenMore(output, Written(session, effect), Serve(State(), session, bytes, reader.pos, buffered));
        output := output + (ack + if session.silent then [] else reply);
      }
    }

    /** Replays an append-only file into the maps. */
    method AofParser(file: Bytes)
      requires Valid()
      modifies this`memory, this`timers
      ensures Valid() && State() == Replay(old(State()), file, 0)
    {
      hide TrimSpace, ToUpper, Atoi, Apply;
      var reader := new LineReader(file);
      while true
        invariant Valid() && reader.Valid() && reader.data == file
        invariant Replay(old(State()), file, 0) == Replay(State(), file, reader.pos)
        decreases |file| - reader.pos
      {
        var line, ok := reader.ReadLine();
        if !ok {
          return;
        }
        if line[0] == ARRAY_MARK {
          var numArgs := Atoi(TrimSpace(line[1..])).value;
          var args := ReadArguments(reader, numArgs);
          ApplyCommand(args);
        }
      }
    }

    method ApplyCommand(args: seq<Bytes>)
      modifies this`memory, this`timers
      ensures State() == Apply(old(State()), args)
    {
      if |args| == 0 {
        return;
      }
      var cmd := ToUpper(args[0]);
      if cmd == SET {
        if |args| >= 3 {
          memory := memory[args[1] := args[2]];
          if |args| >= 5 && ToUpper(args[3]) == PX {
            timers := timers + [(args[1], Atoi(args[4]).value)];
          }
        }
      }
    }
  }

  method ReadArguments(reader: LineReader, n: int) returns (args: seq<Bytes>)
    requires reader.Valid()
    modifies reader
    ensures reader.Valid() && ReadArgs(reader.data, old(reader.pos), n) == (args, reader.pos)
  {
    hide TrimSpace, LineEnd;
    args := [];
    var i := 0;
    ghost var whole := ReadArgs(reader.data, reader.pos, n);
    assert [] + whole.0 == whole.0;
    while i < n
      invariant reader.Valid() && 0 <= i && (i <= n || (i == 0 && n < 0))
      invariant var (rest, next) := ReadArgs(reader.data, reader.pos, n - i);
                whole == (args + rest, next)
    {
      var _, _ := reader.ReadLine();
      var arg, _ := reader.ReadLine();
      ghost var rest := ReadArgs(reader.data, reader.pos, n - i - 1).0;
      assert args + ([TrimSpace(arg)] + rest) == args + [TrimSpace(arg)] + rest;
      args := args + [TrimSpace(arg)];
      i := i + 1;
    }
    assert args + [] == args;
  }
}
