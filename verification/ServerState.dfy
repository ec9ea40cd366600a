/** The state that SET and the replication commands share, and what each handler does to it.

    A handler reads its arguments from the connection line by line. `buffered` answers the test
    `reader.Buffered() > 0`, by the cursor position at which it is made: the answer depends on how the
    bytes happened to arrive, so every statement is for all such functions. It can only be yes while
    something is left to read.
  */
module ServerState {
  import opened Numbers
  import opened RespValue
  import opened Frames
  import opened Lines

  const PING: Bytes := [80, 73, 78, 71]
  const SET: Bytes := [83, 69, 84]
  const PX: Bytes := [80, 88]
  const REPLCONF: Bytes := [82, 69, 80, 76, 67, 79, 78, 70]
  const GETACK: Bytes := [71, 69, 84, 65, 67, 75]
  const ACK: Bytes := [65, 67, 75]
  const CAPA: Bytes := [67, 65, 80, 65]
  const LISTENING_PORT: Bytes := [76, 73, 83, 84, 69, 78, 73, 78, 71, 45, 80, 79, 82, 84]
  const STAR: Bytes := [42]

  const GETACK_SIZE := 37

  /** A replica as the master knows it; `stream` is what the master pushed down its connection. */
  datatype Link = Link(conn: nat, offset: int, stream: Bytes)

  datatype Role = Master | Slave(replOffset: int)

  datatype Store = Store(
    role: Role,
    memory: map<Bytes, Bytes>,
    timers: seq<(Bytes, int)>,  // expiry timers started: key and milliseconds
    masterOffset: int,
    links: seq<Link>,
    aof: Option<Bytes>)         // contents of the append-only file, if there is one

  /** What a handler did: the new state, the cursor, what it wrote as a reply, and what it wrote as an ACK. */
  datatype Effect = Continue(store: Store, next: nat, reply: Bytes, ack: Bytes) | Crash

  const OK: Bytes := [43, 79, 75, 13, 10]
  const PONG: Bytes := [43, 80, 79, 78, 71, 13, 10]
  /** `-NOAUTH Authentication required.` */
  const NOAUTH: Bytes :=
    [45, 78, 79, 65, 85, 84, 72, 32, 65, 117, 116, 104, 101, 110, 116, 105, 99, 97, 116, 105, 111, 110, 32,
     114, 101, 113, 117, 105, 114, 101, 100, 46, 13, 10]

  function SetArgs(key: Bytes, value: Bytes): seq<Bytes> { [SET, key, value] }

  function GetAckArgs(): seq<Bytes> { [REPLCONF, GETACK, STAR] }

  function AckArgs(offset: int): seq<Bytes> { [REPLCONF, ACK, FormatInt(offset)] }

  function Push(link: Link, b: Bytes): Link {
    link.(stream := link.stream + b)
  }

  function PushAll(links: seq<Link>, b: Bytes): (r: seq<Link>)
    ensures |r| == |links|
  {
    seq(|links|, i requires 0 <= i < |links| => Push(links[i], b))
  }

  function Propagate(st: Store, args: seq<Bytes>): Store {
    if st.links == [] then st
    else st.(masterOffset := st.masterOffset + |Frame(args)|, links := PushAll(st.links, Frame(args)))
  }

  function AppendToLog(st: Store, args: seq<Bytes>): Store {
    if st.aof.None? then st else st.(aof := Some(st.aof.value + Frame(args)))
  }

  /** The part of SET that follows the reading of its arguments. */
  function StoreSet(st: Store, key: Bytes, value: Bytes): (r: Store)
    ensures r.role.Slave? == st.role.Slave?
  {
    var stored := st.(memory := st.memory[key := value]);
    match st.role
    case Slave(offset) => stored.(role := Slave(offset + |Frame(SetArgs(key, value))|))
    case Master => AppendToLog(Propagate(stored, SetArgs(key, value)), SetArgs(key, value))
  }

  /** The optional PX argument, looked for only if bytes are buffered. */
  function ReadOption(st: Store, s: Bytes, p: nat, key: Bytes, buffered: nat -> bool): (r: (Store, nat))
    requires p <= |s|
    ensures p <= r.1 <= |s|
  {
    if !(buffered(p) && p < |s|) then (st, p) else
    var option := ReadString(s, ReadString(s, p).next);
    if !option.ok || ToUpper(TrimSpace(option.text)) != PX then (st, option.next) else
    var tte := ReadString(s, ReadString(s, option.next).next);
    if !tte.ok then (st, tte.next) else
    (st.(timers := st.timers + [(key, Atoi(TrimSpace(tte.text)).value)]), tte.next)
  }

  function SetAt(st: Store, s: Bytes, p: nat, authed: bool, buffered: nat -> bool): (r: Effect)
    requires p <= |s|
    ensures r.Continue? ==> p <= r.next <= |s|
  {
    if !authed then Continue(st, p, NOAUTH, []) else
    var key := ReadString(s, ReadString(s, p).next);
    if !key.ok then Continue(st, key.next, [], []) else
    var value := ReadString(s, ReadString(s, key.next).next);
    if !value.ok then Continue(st, value.next, [], []) else
    var stored := StoreSet(st, TrimSpace(key.text), TrimSpace(value.text));
    var (st', next) := ReadOption(stored, s, value.next, TrimSpace(key.text), buffered);
    Continue(st', next, OK, [])
  }

  function PingAt(st: Store, p: nat, authed: bool): Effect {
    if !authed then Continue(st, p, NOAUTH, [])
    else if st.role.Slave? then
      Continue(st.(role := Slave(st.role.replOffset + |Frame([PING])|)), p, PONG, [])
    else Continue(st, p, PONG, [])
  }

  /** Index of the first replica on this connection. */
  function FindLink(links: seq<Link>, conn: nat): (i: nat)
    ensures i <= |links|
    ensures i < |links| ==> links[i].conn == conn
    ensures forall j :: 0 <= j < i ==> links[j].conn != conn
  {
    if links == [] || links[0].conn == conn then 0 else 1 + FindLink(links[1..], conn)
  }

  lemma {:induction false} FirstLink(links: seq<Link>, conn: nat, i: nat)
    requires i <= |links| && (i < |links| ==> links[i].conn == conn)
    requires forall j :: 0 <= j < i ==> links[j].conn != conn
    ensures FindLink(links, conn) == i
  {
    if i > 0 {
      FirstLink(links[1..], conn, i - 1);
    }
  }

  function RecordAck(st: Store, conn: nat, offset: int): Store {
    var i := FindLink(st.links, conn);
    if i == |st.links| then st else st.(links := st.links[i := st.links[i].(offset := offset)])
  }

  /** REPLCONF, in both roles. A master that is sent GETACK reads an offset it does not have, and panics. */
  function ReplConfAt(st: Store, conn: nat, s: Bytes, p: nat): (r: Effect)
    requires p <= |s|
    ensures r.Continue? ==> p <= r.next <= |s|
  {
    var commandLine := ReadString(s, ReadString(s, p).next);
    var command := ToUpper(TrimSpace(commandLine.text));
    var val := ReadString(s, ReadString(s, commandLine.next).next);
    if command == GETACK then
      match st.role
      case Master => Crash
      case Slave(offset) => Continue(st.(role := Slave(offset + GETACK_SIZE)), val.next, [], Frame(AckArgs(offset)))
    else if st.role.Master? && (command == LISTENING_PORT || command == CAPA) then Continue(st, val.next, OK, [])
    else if st.role.Master? && command == ACK then
      Continue(RecordAck(st, conn, Atoi(TrimSpace(val.text)).value), val.next, [], [])
    else Continue(st, val.next, [], [])
  }

  /** WAIT pushes a GETACK to every replica, and leaves the master's offset as it is. */
  function Ask(st: Store): Store {
    if st.links == [] || st.masterOffset == 0 then st
    else st.(links := PushAll(st.links, Frame(GetAckArgs())))
  }

  /** The replicas WAIT counts. */
  function AckedLinks(st: Store): set<nat> {
    set i: nat | i < |st.links| && st.links[i].offset >= st.masterOffset
  }

  function Text(b: Bytes): (s: string)
    ensures |s| == |b|
  {
    seq(|b|, i requires 0 <= i < |b| => b[i] as int as char)
  }

  /** The commands whose handlers are not part of this model. */
  predicate IsOtherCommand(command: Bytes) {
    Text(command) in {
      "ECHO", "GET", "ACL", "AUTH", "RPUSH", "LRANGE", "LPUSH", "LLEN", "LPOP", "BLPOP", "CONFIG", "KEYS", "INFO",
      "PSYNC", "WAIT", "ZADD", "ZRANK", "ZRANGE", "ZCARD", "ZSCORE", "ZREM", "GEOADD", "GEOPOS", "GEODIST", "GEOSEARCH"}
  }

  lemma OtherCommandsAreWords(command: Bytes)
    requires IsOtherCommand(command)
    ensures |command| > 0 && command[0] >= 65
  {
    assert Text(command)[0] >= 'A';
  }

  /** A connection: its identity, whether its user is authenticated, and whether replies are swallowed
      (`SilentConn`). */
  datatype Session = Session(conn: nat, authed: bool, silent: bool)

  /** How serving a connection ends: at the end of its bytes, in a panic, or at a command outside the model. */
  datatype Served = Finished(store: Store, output: Bytes) | Crashed | Unmodelled

  /** What serving comes to when this much output was written before. */
  function Then(output: Bytes, rest: Served): Served {
    match rest
    case Finished(last, more) => Finished(last, output + more)
    case Crashed => Crashed
    case Unmodelled => Unmodelled
  }

  lemma ThenMore(output: Bytes, more: Bytes, rest: Served)
    ensures Then(output, Then(more, rest)) == Then(output + more, rest)
  {
    if rest.Finished? {
      assert output + (more + rest.output) == output + more + rest.output;
    }
  }

  /** One line of the command loop. */
  function Dispatch(st: Store, session: Session, s: Bytes, line: Line, buffered: nat -> bool): (r: Effect)
    requires line.next <= |s|
    ensures r.Continue? ==> line.next <= r.next <= |s|
  {
    var command := ToUpper(TrimSpace(line.text));
    if command == PING then PingAt(st, line.next, session.authed)
    else if command == SET then SetAt(st, s, line.next, session.authed, buffered)
    else if command == REPLCONF then ReplConfAt(st, session.conn, s, line.next)
    else Continue(st, line.next, [], [])
  }

  function Written(session: Session, effect: Effect): Bytes
    requires effect.Continue?
  {
    effect.ack + (if session.silent then [] else effect.reply)
  }

  /** The command loop from position p on. */
  function Serve(st: Store, session: Session, s: Bytes, p: nat, buffered: nat -> bool): Served
    requires p <= |s|
    decreases |s| - p
  {
    var line := ReadString(s, p);
    if !line.ok then Finished(st, [])
    else if IsOtherCommand(ToUpper(TrimSpace(line.text))) then Unmodelled
    else match Dispatch(st, session, s, line, buffered)
         case Crash => Crashed
         case Continue(st', next, reply, ack) =>
           Then(Written(session, Continue(st', next, reply, ack)), Serve(st', session, s, next, buffered))
  }

  // ----- replaying the append-only file -----

  /** The arguments of one command: each is the second line of a pair. At the end of the file they come out empty. */
  function ReadArgs(s: Bytes, p: nat, n: int): (r: (seq<Bytes>, nat))
    requires p <= |s|
    ensures p <= r.1 <= |s| && |r.0| == if n < 0 then 0 else n
    decreases if n < 0 then 0 else n
  {
    if n <= 0 then ([], p) else
    var arg := ReadString(s, ReadString(s, p).next);
    var (rest, next) := ReadArgs(s, arg.next, n - 1);
    ([TrimSpace(arg.text)] + rest, next)
  }

  function Apply(st: Store, args: seq<Bytes>): Store {
    if |args| >= 3 && ToUpper(args[0]) == SET then
      var stored := st.(memory := st.memory[args[1] := args[2]]);
      if |args| >= 5 && ToUpper(args[3]) == PX
      then stored.(timers := stored.timers + [(args[1], Atoi(args[4]).value)])
      else stored
    else st
  }

  function Replay(st: Store, s: Bytes, p: nat): Store
    requires p <= |s|
    decreases |s| - p
  {
    var line := ReadString(s, p);
    if !line.ok then st
    else if line.text[0] != ARRAY_MARK then Replay(st, s, line.next)
    else
      var (args, next) := ReadArgs(s, line.next, Atoi(TrimSpace(line.text[1..])).value);
      Replay(Apply(st, args), s, next)
  }
}
