/** Runs of pushes, pops, waits, receipts and timeouts on one list key, one critical section or channel operation
    per step. Client i is the i-th to block; it stands for its channel.
  */
module BlockingRuns {
  import opened Numbers
  import opened LockableList

  /** A blocked client is waiting, has taken the timeout branch but not yet the lock, has left empty-handed, or has
      received its value. */
  datatype Phase = Waiting | Expiring | GaveUp | Received

  datatype Client = Client(forever: bool, phase: Phase, buffer: Option<Bytes>, sends: nat)

  /** `queue` is `list.clients`. The last four fields are history: values pushed, values handed to anyone, values that
      reached a client, and the clients values were sent to. */
  datatype State = State(
    elements: seq<Bytes>, queue: seq<nat>, clients: seq<Client>, crashed: bool,
    pushed: seq<Bytes>, handed: seq<Bytes>, delivered: seq<Bytes>, served: seq<nat>)

  const EMPTY := State([], [], [], false, [], [], [], [])

  datatype Event =
    | RPush(values: seq<Bytes>)
    | LPush(values: seq<Bytes>)
    | LPop(count: int)
    | BLPop(forever: bool)
    | Receive(i: nat)
    | Timeout(i: nat)
    | Leave(i: nat)

  /** The client once a value was sent on its channel. */
  function Filled(c: Client, value: Bytes): Client { c.(buffer := Some(value), sends := c.sends + 1) }

  /** Sends the values to the clients, one each. */
  function SendAll(clients: seq<Client>, ids: seq<nat>, values: seq<Bytes>): (r: seq<Client>)
    requires |ids| <= |values|
    ensures |r| == |clients|
    decreases |ids|
  {
    if ids == [] then clients
    else if ids[0] < |clients| then
      SendAll(clients[ids[0] := Filled(clients[ids[0]], values[0])], ids[1..], values[1..])
    else SendAll(clients, ids[1..], values[1..])
  }

  /** One step; a step that is not enabled changes nothing, and after a panic nothing happens. */
  function Next(s: State, e: Event): State {
    if s.crashed then s else
    match e
    case RPush(values) =>
      var r := PushRight(s.queue, s.elements, values);
      s.(elements := r.elements, queue := r.clients, clients := SendAll(s.clients, r.served, values),
         pushed := s.pushed + values, handed := s.handed + values[..|r.served|], served := s.served + r.served)
    case LPush(values) =>
      s.(elements := PushLeft(s.elements, values), pushed := s.pushed + values)
    case LPop(count) =>
      (match PopFront(s.elements, count)
       case Some((popped, left)) =>
         s.(elements := left, handed := s.handed + popped, delivered := s.delivered + popped)
       case None => s.(crashed := true))
    case BLPop(forever) =>
      (match PopFront(s.elements, 1)
       case Some((popped, left)) =>
         s.(elements := left, handed := s.handed + popped, delivered := s.delivered + popped)
       case None =>
         s.(queue := s.queue + [|s.clients|], clients := s.clients + [Client(forever, Waiting, None, 0)]))
    case Receive(i) =>
      if i < |s.clients| && s.clients[i].phase == Waiting && s.clients[i].buffer.Some? then
        s.(clients := s.clients[i := s.clients[i].(phase := Received, buffer := None)],
           delivered := s.delivered + [s.clients[i].buffer.value])
      else s
    case Timeout(i) =>
      if i < |s.clients| && s.clients[i].phase == Waiting && !s.clients[i].forever then
        s.(clients := s.clients[i := s.clients[i].(phase := Expiring)])
      else s
    case Leave(i) =>
      if i < |s.clients| && s.clients[i].phase == Expiring then
        s.(clients := s.clients[i := s.clients[i].(phase := GaveUp)], queue := RemoveFirst(s.queue, i))
      else s
  }

  function Run(s: State, events: seq<Event>): State
    decreases |events|
  {
    if events == [] then s else Next(Run(s, events[..|events| - 1]), events[|events| - 1])
  }

  /** Only an LPOP of more than there is, or of a negative number, panics, and then nothing happens any more. */
  lemma OnlyLPopPanics(s: State, e: Event)
    ensures Next(s, e).crashed <==> s.crashed || (e.LPop? && !(0 <= e.count <= |s.elements|))
    ensures Next(s, e).crashed ==> Next(s, e) == s.(crashed := true)
  {
    hide SendAll;
  }

  // ----- channels and queue -----

  predicate Increasing(ids: seq<nat>) {
    forall i, j :: 0 <= i < j < |ids| ==> ids[i] < ids[j]
  }

  predicate ClientOk(c: Client, queued: bool) {
    && c.sends <= 1
    && (queued ==> (c.phase == Waiting || c.phase == Expiring) && c.buffer == None && c.sends == 0)
    && (c.buffer.Some? ==> c.sends == 1)
    && (c.phase == Received ==> c.buffer == None && c.sends == 1)
    && (c.phase == Waiting && !queued ==> c.buffer.Some?)
  }

  /** Everybody served came before everybody queued, and all clients are in order. */
  predicate Inv(s: State) {
    && Increasing(s.served + s.queue)
    && (forall i :: 0 <= i < |s.served + s.queue| ==> (s.served + s.queue)[i] < |s.clients|)
    && (forall i :: 0 <= i < |s.clients| ==> ClientOk(s.clients[i], i in s.queue))
  }

  /** Sending to distinct clients fills their slots and no others. */
  lemma {:induction false} SentTo(clients: seq<Client>, ids: seq<nat>, values: seq<Bytes>, i: nat)
    requires |ids| <= |values| && Increasing(ids) && i < |clients|
    requires forall k :: 0 <= k < |ids| ==> ids[k] < |clients|
    ensures var after := SendAll(clients, ids, values)[i];
            if i in ids then
              exists k :: 0 <= k < |ids| && ids[k] == i
                          && after == Filled(clients[i], values[k])
            else after == clients[i]
    decreases |ids|
  {
    if ids != [] {
      var rest := clients[ids[0] := Filled(clients[ids[0]], values[0])];
      SentTo(rest, ids[1..], values[1..], i);
      if i in ids[1..] {
        var k :| 0 <= k < |ids[1..]| && ids[1..][k] == i
                 && SendAll(rest, ids[1..], values[1..])[i] == Filled(rest[i], values[1..][k]);
        assert ids[k + 1] == i && values[k + 1] == values[1..][k];
      }
    }
  }

  lemma RPushKeeps(s: State, values: seq<Bytes>)
    requires Inv(s) && !s.crashed
    ensures Inv(Next(s, RPush(values)))
  {
    var s' := Next(s, RPush(values));
    SameLine(s.served, s.queue, |PushRight(s.queue, s.elements, values).served|);
    hide SendAll, Increasing, ClientOk;
    forall i | 0 <= i < |s'.clients| ensures ClientOk(s'.clients[i], i in s'.queue) {
      RPushClient(s, values, i);
    }
  }

  lemma SameLine(served: seq<nat>, queue: seq<nat>, m: nat)
    requires m <= |queue|
    ensures (served + queue[..m]) + queue[m..] == served + queue
  {
  }

  lemma RPushClient(s: State, values: seq<Bytes>, i: nat)
    requires Inv(s) && !s.crashed && i < |s.clients|
    ensures var s' := Next(s, RPush(values)); ClientOk(s'.clients[i], i in s'.queue)
  {
    var r := PushRight(s.queue, s.elements, values);
    QueueIsIncreasing(s);
    assert r.served == s.queue[..|r.served|];
    SentTo(s.clients, r.served, values, i);
    InEither(r.served, r.clients, i);
    if i in r.served {
      NotInBoth(s.queue, |r.served|, i);
    }
    assert ClientOk(s.clients[i], i in s.queue);
    hide SendAll, Increasing;
  }

  lemma QueueIsIncreasing(s: State)
    requires Inv(s)
    ensures Increasing(s.queue) && forall k :: 0 <= k < |s.queue| ==> s.queue[k] < |s.clients|
  {
    var all := s.served + s.queue;
    assert forall k :: 0 <= k < |s.queue| ==> s.queue[k] == all[|s.served| + k];
  }

  lemma InEither(a: seq<nat>, b: seq<nat>, i: nat)
    ensures i in a + b <==> i in a || i in b
  {
  }

  lemma NotInBoth(ids: seq<nat>, m: nat, i: nat)
    requires Increasing(ids) && m <= |ids| && i in ids[..m]
    ensures i !in ids[m..]
  {
    var j :| 0 <= j < m && ids[..m][j] == i;
    assert ids[j] == i;
  }

  lemma LeaveKeeps(s: State, i: nat)
    requires Inv(s) && !s.crashed
    ensures Inv(Next(s, Leave(i)))
  {
    if i < |s.clients| && s.clients[i].phase == Expiring {
      hide RemoveFirst, Increasing;
      var k := RemoveFirstSplits(s.queue, i);
      var s' := Next(s, Leave(i));
      QueueIsIncreasing(s);
      StillInOrder(s.served, s.queue, RemoveFirst(s.queue, i), k, |s.clients|);
      forall j | 0 <= j < |s'.clients| ensures ClientOk(s'.clients[j], j in s'.queue) {
        StillQueued(s.queue, i, k, j);
        assert ClientOk(s.clients[j], j in s.queue);
      }
    }
  }

  lemma StillInOrder(served: seq<nat>, queue: seq<nat>, shorter: seq<nat>, k: nat, n: nat)
    requires Increasing(served + queue) && forall i :: 0 <= i < |served + queue| ==> (served + queue)[i] < n
    requires k <= |queue| && shorter == if k == |queue| then queue else queue[..k] + queue[k + 1..]
    ensures Increasing(served + shorter) && forall i :: 0 <= i < |served + shorter| ==> (served + shorter)[i] < n
  {
    if k < |queue| {
      var all, all' := served + queue, served + shorter;
      assert forall i :: 0 <= i < |all'| ==> all'[i] == all[if i < |served| + k then i else i + 1];
    }
  }

  lemma StillQueued(queue: seq<nat>, i: nat, k: nat, j: nat)
    requires Increasing(queue) && k <= |queue|
    requires forall m :: 0 <= m < k ==> queue[m] != i
    requires if k == |queue| then RemoveFirst(queue, i) == queue
             else queue[k] == i && RemoveFirst(queue, i) == queue[..k] + queue[k + 1..]
    ensures j in RemoveFirst(queue, i) <==> j in queue && j != i
  {
    if k < |queue| {
      assert queue == queue[..k] + [queue[k]] + queue[k + 1..];
      if j in queue[k + 1..] {
        var m :| 0 <= m < |queue[k + 1..]| && queue[k + 1..][m] == j;
        assert queue[k + 1 + m] == j;
      }
      if j in queue[..k] {
        var m :| 0 <= m < k && queue[..k][m] == j;
        assert queue[m] == j;
      }
    }
  }

  lemma BLPopKeeps(s: State, forever: bool)
    requires Inv(s) && !s.crashed
    ensures Inv(Next(s, BLPop(forever)))
  {
    if |s.elements| == 0 {
      var s' := Next(s, BLPop(forever));
      var n := |s.clients|;
      assert s'.served + s'.queue == (s.served + s.queue) + [n];
      QueueIsIncreasing(s);
      forall i | 0 <= i < |s'.clients| ensures ClientOk(s'.clients[i], i in s'.queue) {
        if i < n {
          assert i in s'.queue <==> i in s.queue;
        } else {
          assert s'.queue[|s.queue|] == n;
        }
      }
    }
  }

  lemma StepKeeps(s: State, e: Event)
    requires Inv(s)
    ensures Inv(Next(s, e))
  {
    if !s.crashed {
      match e
      case RPush(values) => RPushKeeps(s, values);
      case LPush(_) =>
      case LPop(_) =>
      case BLPop(forever) => BLPopKeeps(s, forever);
      case Receive(i) =>
      case Timeout(i) =>
      case Leave(i) => LeaveKeeps(s, i);
    }
  }

  lemma {:induction false} RunKeeps(events: seq<Event>)
    ensures Inv(Run(EMPTY, events))
    decreases |events|
  {
    if events != [] {
      RunKeeps(events[..|events| - 1]);
      StepKeeps(Run(EMPTY, events[..|events| - 1]), events[|events| - 1]);
    }
  }

  /** Over every run, with LPUSH and timeouts or without, waiters are served in the order in which they blocked, and
      every client still queued blocked after all that were served. */
  lemma ServedInArrivalOrder(events: seq<Event>)
    ensures var s := Run(EMPTY, events);
            Increasing(s.served) && forall i, j :: i in s.served && j in s.queue ==> i < j
  {
    RunKeeps(events);
    var s := Run(EMPTY, events);
    FrontAndBack(s.served, s.queue);
  }

  lemma FrontAndBack(a: seq<nat>, b: seq<nat>)
    requires Increasing(a + b)
    ensures Increasing(a) && forall i, j :: i in a && j in b ==> i < j
  {
    var all := a + b;
    assert forall i :: 0 <= i < |a| ==> all[i] == a[i];
    assert forall j :: 0 <= j < |b| ==> all[|a| + j] == b[j];
  }

  /** Over every run each channel is sent to at most once, and while its client is queued its slot is free: no send
      blocks. */
  lemma SendsNeverBlock(events: seq<Event>, i: nat)
    requires i < |Run(EMPTY, events).clients|
    ensures var s := Run(EMPTY, events);
            s.clients[i].sends <= 1 && (i in s.queue ==> s.clients[i].buffer == None && s.clients[i].sends == 0)
  {
    RunKeeps(events);
  }

  // ----- a value in a channel -----

  /** A value in a channel is received at the client's next step, unless the client has taken the timeout branch: then,
      and only then, it stays in the channel whatever happens. */
  lemma BufferedValues(events: seq<Event>, i: nat, more: seq<Event>)
    requires i < |Run(EMPTY, events).clients| && Run(EMPTY, events).clients[i].buffer.Some?
    requires !Run(EMPTY, events).crashed
    ensures var s := Run(EMPTY, events);
            var c := s.clients[i];
            if c.phase == Waiting then
              Next(s, Receive(i)).delivered == s.delivered + [c.buffer.value]
                  && Next(s, Receive(i)).clients[i].buffer == None
            else
              && (c.phase == Expiring || c.phase == GaveUp)
              && i < |Run(s, more).clients| && Run(s, more).clients[i].buffer == c.buffer
  {
    RunKeeps(events);
    var s := Run(EMPTY, events);
    assert ClientOk(s.clients[i], i in s.queue);
    if s.clients[i].phase != Waiting {
      Stuck(s, i, more);
    }
  }

  lemma {:induction false} Stuck(s: State, i: nat, more: seq<Event>)
    requires Inv(s) && i < |s.clients| && s.clients[i].buffer.Some? && s.clients[i].phase in {Expiring, GaveUp}
    ensures var s' := Run(s, more);
            Inv(s') && i < |s'.clients| && s'.clients[i].buffer == s.clients[i].buffer
                && s'.clients[i].phase in {Expiring, GaveUp}
    decreases |more|
  {
    if more != [] {
      var n := |more| - 1;
      Stuck(s, i, more[..n]);
      StuckStep(Run(s, more[..n]), i, more[n]);
    }
  }

  lemma StuckStep(s: State, i: nat, e: Event)
    requires Inv(s) && i < |s.clients| && s.clients[i].buffer.Some? && s.clients[i].phase in {Expiring, GaveUp}
    ensures var s' := Next(s, e);
            Inv(s') && i < |s'.clients| && s'.clients[i].buffer == s.clients[i].buffer
                && s'.clients[i].phase in {Expiring, GaveUp}
  {
    StepKeeps(s, e);
    assert ClientOk(s.clients[i], i in s.queue);
    if e.RPush? && !s.crashed {
      var r := PushRight(s.queue, s.elements, e.values);
      QueueIsIncreasing(s);
      assert r.served == s.queue[..|r.served|];
      InEither(r.served, r.clients, i);
      SentTo(s.clients, r.served, e.values, i);
    }
  }

  /** A value lies in the channel of a client that will not look there any more. */
  predicate StuckAt(s: State, i: nat) {
    i < |s.clients| && s.clients[i].buffer.Some? && s.clients[i].phase in {Expiring, GaveUp}
  }

  /** A client that waits for ever never takes the timeout branch. */
  predicate ForeverOk(c: Client) {
    c.forever ==> c.phase == Waiting || c.phase == Received
  }

  lemma ForeverStep(s: State, e: Event, i: nat)
    requires Inv(s) && i < |s.clients| && ForeverOk(s.clients[i])
    ensures var s' := Next(s, e);
            && i < |s'.clients| && s'.clients[i].forever == s.clients[i].forever
            && ForeverOk(s'.clients[i])
  {
    if e.RPush? && !s.crashed {
      var r := PushRight(s.queue, s.elements, e.values);
      QueueIsIncreasing(s);
      assert r.served == s.queue[..|r.served|];
      SentTo(s.clients, r.served, e.values, i);
      hide SendAll, Inv;
    }
  }

  lemma {:induction false} ForeverRun(s: State, more: seq<Event>, i: nat)
    requires Inv(s) && i < |s.clients| && ForeverOk(s.clients[i])
    ensures var s' := Run(s, more);
            && Inv(s') && i < |s'.clients| && s'.clients[i].forever == s.clients[i].forever
            && ForeverOk(s'.clients[i])
    decreases |more|
  {
    hide Inv, Next;
    if more != [] {
      var n := |more| - 1;
      ForeverRun(s, more[..n], i);
      StepKeeps(Run(s, more[..n]), more[n]);
      ForeverStep(Run(s, more[..n]), more[n], i);
    }
  }

  /** What a caller controls: from any reachable state, the value of a waiting client can get stuck if and only if the
      client has set a timeout. */
  lemma StuckOnlyWithTimeout(events: seq<Event>, i: nat)
    requires var s := Run(EMPTY, events); i < |s.clients| && s.clients[i].phase == Waiting && !s.crashed
    ensures var s := Run(EMPTY, events);
            (exists more :: StuckAt(Run(s, more), i)) <==> !s.clients[i].forever
  {
    RunKeeps(events);
    var s := Run(EMPTY, events);
    hide Run, Inv, Next;
    if s.clients[i].forever {
      forall more ensures !StuckAt(Run(s, more), i) {
        ForeverRun(s, more, i);
      }
    } else {
      var more := HandedTooLate(s, i);
      assert StuckAt(Run(s, more), i);
    }
  }

  /** The run that gets it stuck: the client times out, and before it takes the lock it is handed a value. */
  lemma HandedTooLate(s: State, i: nat) returns (more: seq<Event>)
    requires Inv(s) && i < |s.clients| && s.clients[i].phase == Waiting && !s.clients[i].forever && !s.crashed
    ensures StuckAt(Run(s, more), i)
  {
    assert ClientOk(s.clients[i], i in s.queue);
    var late := Next(s, Timeout(i));
    RunTwo(s, Timeout(i), RPush([]));
    if s.clients[i].buffer.Some? {
      more := [Timeout(i), RPush([])];
    } else {
      var values := seq(|s.queue|, _ => []);
      more := [Timeout(i), RPush(values)];
      RunTwo(s, Timeout(i), RPush(values));
      QueueIsIncreasing(s);
      assert s.queue[..|s.queue|] == s.queue;
      SentTo(late.clients, s.queue, values, i);
    }
  }

  lemma RunOne(s: State, e: Event)
    ensures Run(s, [e]) == Next(s, e)
  {
    hide Next;
    assert [e][..0] == [];
    assert Run(s, []) == s;
  }

  lemma RunTwo(s: State, e: Event, e': Event)
    ensures Run(s, [e, e']) == Next(Next(s, e), e')
  {
    hide Next;
    assert [e, e'][..1] == [e];
    RunOne(s, e);
  }

  lemma RunThree(s: State, e: Event, e': Event, e'': Event)
    ensures Run(s, [e, e', e'']) == Next(Next(Next(s, e), e'), e'')
  {
    hide Next;
    RunTwo(s, e, e');
    assert [e, e', e''][..2] == [e, e'];
  }

  /** The shortest such run. */
  lemma HandoffAfterTimeout(value: Bytes)
    ensures var s := Run(EMPTY, [BLPop(false), Timeout(0), RPush([value])]);
            && |s.clients| == 1 && s.clients[0].buffer == Some(value) && s.clients[0].phase == Expiring
            && StuckAt(s, 0)
  {
    RunThree(EMPTY, BLPop(false), Timeout(0), RPush([value]));
    var queued := Next(EMPTY, BLPop(false));
    assert queued.queue == [0] && queued.clients == [Client(false, Waiting, None, 0)];
    var late := Next(queued, Timeout(0));
    assert late.queue == [0] && late.clients == [Client(false, Expiring, None, 0)];
    assert [0][..1] == [0] && [0][1..] == [] && [value][1..] == [];
    assert SendAll(late.clients, [0], [value]) == late.clients[0 := Filled(late.clients[0], value)];
  }

  // ----- a FIFO queue, without LPUSH -----

  /** Nobody waits while there is something to take. */
  predicate Quiet(s: State) { s.elements != [] ==> s.queue == [] }

  predicate Fifo(s: State) {
    Quiet(s) && s.pushed == s.handed + s.elements
  }

  lemma Regroup(a: seq<Bytes>, b: seq<Bytes>, c: seq<Bytes>)
    ensures a + (b + c) == a + b + c
  {
  }

  lemma RPushFifo(s: State, values: seq<Bytes>)
    requires Fifo(s) && !s.crashed
    ensures Fifo(Next(s, RPush(values)))
  {
    hide SendAll;
    var r := PushRight(s.queue, s.elements, values);
    var m := |r.served|;
    assert values == values[..m] + values[m..];
    if s.elements == [] {
      assert s.handed + s.elements == s.handed;
      Regroup(s.handed, values[..m], values[m..]);
      assert s.elements + values[m..] == values[m..];
    } else {
      assert values[..m] == [] && s.handed + values[..m] == s.handed;
      Regroup(s.handed, s.elements, values);
    }
  }

  lemma FifoStep(s: State, e: Event)
    requires Fifo(s) && !e.LPush?
    ensures Fifo(Next(s, e))
  {
    hide SendAll, PushRight;
    if !s.crashed {
      match e
      case RPush(values) => RPushFifo(s, values);
      case LPop(count) =>
        if 0 <= count <= |s.elements| {
          Regroup(s.handed, s.elements[..count], s.elements[count..]);
        }
      case BLPop(_) =>
        if |s.elements| > 0 {
          assert [s.elements[0]] + s.elements[1..] == s.elements;
          Regroup(s.handed, [s.elements[0]], s.elements[1..]);
        }
      case Receive(_) =>
      case Timeout(_) =>
      case Leave(_) =>
    }
  }

  /** Over every run without LPUSH: stored elements mean no waiters, and the values pushed are, in order, the values
      handed out followed by the elements still stored. */
  lemma {:induction false} RefinesFifo(events: seq<Event>)
    requires forall e :: e in events ==> !e.LPush?
    ensures Fifo(Run(EMPTY, events))
    decreases |events|
  {
    if events != [] {
      var n := |events| - 1;
      RefinesFifo(events[..n]);
      assert events[n] in events;
      FifoStep(Run(EMPTY, events[..n]), events[n]);
    }
  }

  /** LPUSH keeps stored elements and waiters apart exactly when it pushes nothing or nobody waits. */
  lemma LPushBreaksQuiet(s: State, values: seq<Bytes>)
    requires Quiet(s) && !s.crashed
    ensures Quiet(Next(s, LPush(values))) <==> values == [] || s.queue == []
  {
    PushLeftReverses(s.elements, values);
  }

  /** A reachable state in which an element is stored while a client waits. */
  lemma LPushPastWaiter(value: Bytes, forever: bool)
    ensures var s := Run(EMPTY, [BLPop(forever), LPush([value])]);
            && s.elements == [value] && s.queue == [0] && !Quiet(s)
            && |s.clients| == 1 && s.clients[0].phase == Waiting && s.clients[0].buffer == None
  {
    RunTwo(EMPTY, BLPop(forever), LPush([value]));
    hide Run;
    assert [value][1..] == [] && [value] + [] == [value];
    assert PushLeft([], [value]) == PushLeft([value], []) == [value];
  }

  // ----- conservation, with LPUSH -----

  /** The values lying in channels. */
  function Buffers(clients: seq<Client>): multiset<Bytes>
    decreases |clients|
  {
    if clients == [] then multiset{} else
    var last := |clients| - 1;
    Buffers(clients[..last]) + Slot(clients[last])
  }

  function Slot(c: Client): multiset<Bytes> {
    if c.buffer.Some? then multiset{c.buffer.value} else multiset{}
  }

  predicate Conserved(s: State) {
    multiset(s.pushed) == multiset(s.elements) + Buffers(s.clients) + multiset(s.delivered)
  }

  lemma Cancel(a: multiset<Bytes>, b: multiset<Bytes>, c: multiset<Bytes>)
    requires a + c == b + c
    ensures a == b
  {
    forall x ensures a[x] == b[x] {
      assert (a + c)[x] == (b + c)[x];
    }
  }

  lemma AddToBoth(a: multiset<Bytes>, p: multiset<Bytes>, b: multiset<Bytes>, q: multiset<Bytes>, r: multiset<Bytes>)
    requires a + p == b + q
    ensures a + r + p == b + r + q
  {
    assert a + r + p == a + p + r && b + r + q == b + q + r;
  }

  lemma {:induction false} BuffersUpdate(clients: seq<Client>, i: nat, c: Client)
    requires i < |clients|
    ensures Buffers(clients[i := c]) + Slot(clients[i]) == Buffers(clients) + Slot(c)
    decreases |clients|
  {
    hide Slot;
    var last := |clients| - 1;
    var after := clients[i := c];
    if i == last {
      assert after[..last] == clients[..last];
    } else {
      assert after[..last] == clients[..last][i := c];
      BuffersUpdate(clients[..last], i, c);
      AddToBoth(Buffers(after[..last]), Slot(clients[i]), Buffers(clients[..last]), Slot(c), Slot(clients[last]));
    }
  }

  lemma {:induction false} SendAllBuffers(clients: seq<Client>, ids: seq<nat>, values: seq<Bytes>)
    requires |ids| <= |values| && Increasing(ids)
    requires forall k :: 0 <= k < |ids| ==> ids[k] < |clients| && clients[ids[k]].buffer == None
    ensures Buffers(SendAll(clients, ids, values)) == Buffers(clients) + multiset(values[..|ids|])
    decreases |ids|
  {
    if ids == [] {
      assert values[..0] == [];
    } else {
      hide Buffers, Increasing;
      var rest := clients[ids[0] := Filled(clients[ids[0]], values[0])];
      FillOne(clients, ids[0], values[0]);
      LaterIds(ids);
      var later := ids[1..];
      forall k | 0 <= k < |later| ensures later[k] < |rest| && rest[later[k]].buffer == None {
        assert later[k] == ids[k + 1];
      }
      SendAllBuffers(rest, later, values[1..]);
      assert Buffers(SendAll(clients, ids, values)) == Buffers(rest) + multiset(values[1..][..|later|]);
      FirstValueAndRest(values, |ids|);
      Reassociate(Buffers(clients), multiset{values[0]}, multiset(values[1..][..|later|]));
    }
  }

  lemma FillOne(clients: seq<Client>, i: nat, value: Bytes)
    requires i < |clients| && clients[i].buffer == None
    ensures Buffers(clients[i := Filled(clients[i], value)]) == Buffers(clients) + multiset{value}
  {
    hide Buffers;
    BuffersUpdate(clients, i, Filled(clients[i], value));
  }

  lemma LaterIds(ids: seq<nat>)
    requires ids != [] && Increasing(ids)
    ensures Increasing(ids[1..]) && forall k :: 0 <= k < |ids[1..]| ==> ids[1..][k] != ids[0]
  {
  }

  lemma Reassociate(a: multiset<Bytes>, b: multiset<Bytes>, c: multiset<Bytes>)
    ensures (a + b) + c == a + (b + c)
  {
  }

  lemma FirstValueAndRest(values: seq<Bytes>, n: nat)
    requires 0 < n <= |values|
    ensures multiset(values[..n]) == multiset{values[0]} + multiset(values[1..][..n - 1])
  {
    assert values[..n] == [values[0]] + values[1..][..n - 1];
  }

  lemma {:induction false} PushLeftContents(elements: seq<Bytes>, values: seq<Bytes>)
    ensures multiset(PushLeft(elements, values)) == multiset(elements) + multiset(values)
    decreases |values|
  {
    if values != [] {
      PushLeftContents([values[0]] + elements, values[1..]);
      assert values == [values[0]] + values[1..];
    }
  }

  lemma RPushConserves(s: State, values: seq<Bytes>)
    requires Inv(s) && Conserved(s) && !s.crashed
    ensures Conserved(Next(s, RPush(values)))
  {
    var r := PushRight(s.queue, s.elements, values);
    var m := |r.served|;
    QueueIsIncreasing(s);
    forall k | 0 <= k < m ensures s.clients[r.served[k]].buffer == None {
      assert r.served[k] == s.queue[k] && s.queue[k] in s.queue;
      assert ClientOk(s.clients[s.queue[k]], true);
    }
    SendAllBuffers(s.clients, r.served, values);
    SplitContents(values, m);
    hide *;
    Balance(s, Next(s, RPush(values)), values, m);
  }

  lemma Balance(s: State, s': State, values: seq<Bytes>, m: nat)
    requires Conserved(s) && m <= |values| && multiset(values) == multiset(values[..m]) + multiset(values[m..])
    requires s'.pushed == s.pushed + values && s'.delivered == s.delivered && s'.elements == s.elements + values[m..]
    requires Buffers(s'.clients) == Buffers(s.clients) + multiset(values[..m])
    ensures Conserved(s')
  {
    hide Buffers;
    assert multiset(s'.elements) == multiset(s.elements) + multiset(values[m..]);
    assert multiset(s'.pushed) == multiset(s.pushed) + multiset(values);
  }

  lemma SplitContents(values: seq<Bytes>, m: nat)
    requires m <= |values|
    ensures multiset(values) == multiset(values[..m]) + multiset(values[m..])
  {
    assert values == values[..m] + values[m..];
  }

  lemma PopConserves(s: State, count: nat)
    requires Conserved(s) && count <= |s.elements|
    ensures Conserved(s.(elements := s.elements[count..], delivered := s.delivered + s.elements[..count]))
  {
    hide Buffers;
    assert s.elements == s.elements[..count] + s.elements[count..];
  }

  /** Replacing a client keeps the balance if what leaves its slot is delivered. */
  lemma ClientConserves(s: State, i: nat, c: Client, out: seq<Bytes>)
    requires Conserved(s) && i < |s.clients|
    requires Slot(s.clients[i]) == Slot(c) + multiset(out)
    ensures Conserved(s.(clients := s.clients[i := c], delivered := s.delivered + out))
  {
    hide Buffers, Slot;
    BuffersUpdate(s.clients, i, c);
    var before, after := Buffers(s.clients), Buffers(s.clients[i := c]);
    assert (after + multiset(out)) + Slot(c) == after + Slot(s.clients[i]);
    Cancel(after + multiset(out), before, Slot(c));
    assert multiset(s.elements) + (after + multiset(out)) + multiset(s.delivered)
           == multiset(s.elements) + after + multiset(s.delivered + out);
  }

  lemma SameSlot(s: State, i: nat, phase: Phase)
    requires Conserved(s) && i < |s.clients|
    ensures Conserved(s.(clients := s.clients[i := s.clients[i].(phase := phase)]))
  {
    hide Buffers;
    ClientConserves(s, i, s.clients[i].(phase := phase), []);
    assert s.delivered + [] == s.delivered;
  }

  lemma BLPopConserves(s: State, forever: bool)
    requires Conserved(s) && !s.crashed
    ensures Conserved(Next(s, BLPop(forever)))
  {
    if |s.elements| > 0 {
      hide Buffers;
      assert s.elements[..1] == [s.elements[0]];
      PopConserves(s, 1);
    } else {
      NewClient(s.clients, forever);
      hide Buffers;
    }
  }

  lemma NewClient(clients: seq<Client>, forever: bool)
    ensures Buffers(clients + [Client(forever, Waiting, None, 0)]) == Buffers(clients)
  {
    var longer := clients + [Client(forever, Waiting, None, 0)];
    assert longer[..|clients|] == clients;
  }

  lemma LPushConserves(s: State, values: seq<Bytes>)
    requires Conserved(s) && !s.crashed
    ensures Conserved(Next(s, LPush(values)))
  {
    hide Buffers, PushLeft;
    PushLeftContents(s.elements, values);
  }

  lemma LPopConserves(s: State, count: int)
    requires Conserved(s) && !s.crashed
    ensures Conserved(Next(s, LPop(count)))
  {
    hide Buffers;
    if 0 <= count <= |s.elements| {
      PopConserves(s, count);
    }
  }

  lemma ConservedStep(s: State, e: Event)
    requires Inv(s) && Conserved(s)
    ensures Conserved(Next(s, e))
  {
    hide Buffers, Inv, PushRight, SendAll, RemoveFirst, PushLeft, PopFront;
    if !s.crashed {
      match e
      case RPush(values) => RPushConserves(s, values);
      case LPush(values) => LPushConserves(s, values);
      case LPop(count) => LPopConserves(s, count);
      case BLPop(forever) => BLPopConserves(s, forever);
      case Receive(i) =>
        if i < |s.clients| && s.clients[i].phase == Waiting && s.clients[i].buffer.Some? {
          ClientConserves(s, i, s.clients[i].(phase := Received, buffer := None), [s.clients[i].buffer.value]);
        }
      case Timeout(i) =>
        if i < |s.clients| {
          SameSlot(s, i, Expiring);
        }
      case Leave(i) =>
        if i < |s.clients| {
          SameSlot(s, i, GaveUp);
        }
    }
  }

  /** Over every run no value is lost or invented: what was pushed is stored, in a channel, or delivered. */
  lemma {:induction false} NothingIsLost(events: seq<Event>)
    ensures Conserved(Run(EMPTY, events))
    decreases |events|
  {
    if events == [] {
      assert multiset(EMPTY.pushed) == multiset{};
    } else {
      var n := |events| - 1;
      NothingIsLost(events[..n]);
      RunKeeps(events[..n]);
      ConservedStep(Run(EMPTY, events[..n]), events[n]);
    }
  }
}
