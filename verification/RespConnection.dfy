/** The tester's connection: values read from a byte stream that arrives in pieces. */
module RespConnection {
  import opened Numbers
  import opened RespValue
  import opened RespParsing
  import opened RespGrammar
  import opened RespCompletion
  import opened RespDecoder

  const BUFFER_SIZE: nat := 1024

  /** What a connection has at hand. `arrived` counts the bytes of the peer's stream it has taken from the socket. */
  datatype State = State(arrived: nat, unreadBuffer: Bytes, receivedBytesCount: nat, lastValueBytesCount: nat)

  const START := State(0, [], 0, 0)

  /** How many bytes one socket read returns when `available` bytes have come in. */
  function ReadSize(wire: Bytes, c: State, available: nat): (n: nat)
    requires c.arrived <= |wire|
    ensures c.arrived + n <= |wire|
  {
    var most := if available < BUFFER_SIZE then available else BUFFER_SIZE;
    if c.arrived + most <= |wire| then most else |wire| - c.arrived
  }

  function Fill(wire: Bytes, c: State, available: nat): (c': State)
    requires c.arrived <= |wire|
    ensures c.arrived <= c'.arrived <= |wire|
  {
    var upTo := c.arrived + ReadSize(wire, c, available);
    c.(arrived := upTo, unreadBuffer := c.unreadBuffer + wire[c.arrived..upTo])
  }

  /** The polling loop: reads until a value or an error shows, or the deadline (the end of `polls`) comes. */
  function FillUntil(wire: Bytes, c: State, polls: seq<nat>): (c': State)
    requires c.arrived <= |wire|
    ensures c.arrived <= c'.arrived <= |wire|
    decreases polls
  {
    if polls == [] then c else
    var next := Fill(wire, c, polls[0]);
    if !ParseValue(next.unreadBuffer, 0).Incomplete? then next else FillUntil(wire, next, polls[1..])
  }

  /** One `ReadValueWithTimeout`. */
  function ReadStep(wire: Bytes, c: State, polls: seq<nat>): (r: (State, Outcome<Value>))
    requires c.arrived <= |wire|
    ensures c.arrived <= r.0.arrived <= |wire|
  {
    var filled := FillUntil(wire, c, polls);
    match ParseValue(filled.unreadBuffer, 0)
    case Incomplete => (filled, Incomplete)
    case Invalid => (filled, Invalid)
    case Done((v, n)) =>
      (filled.(unreadBuffer := filled.unreadBuffer[n..],
               receivedBytesCount := filled.receivedBytesCount + n,
               lastValueBytesCount := n), Done(v))
  }

  /** Polling only moves bytes into the buffer. */
  lemma {:induction false} FillAppends(wire: Bytes, c: State, polls: seq<nat>)
    requires c.arrived <= |wire|
    ensures var c' := FillUntil(wire, c, polls);
            c' == c.(arrived := c'.arrived, unreadBuffer := c.unreadBuffer + wire[c.arrived..c'.arrived])
    decreases polls
  {
    hide ParseValue;
    if polls != [] {
      FillAppends(wire, Fill(wire, c, polls[0]), polls[1..]);
    }
  }

  /** A read that fails keeps all that was received and every count; one that succeeds takes exactly one frame off the
      front, of the value it returns, and counts its bytes. */
  lemma ReadOutcome(wire: Bytes, c: State, polls: seq<nat>)
    requires c.arrived <= |wire|
    ensures var (c', result) := ReadStep(wire, c, polls);
            var received := c.unreadBuffer + wire[c.arrived..c'.arrived];
            if result.Done? then
              && c'.lastValueBytesCount <= |received|
              && IsFrame(received[..c'.lastValueBytesCount], result.value)
              && c'.unreadBuffer == received[c'.lastValueBytesCount..]
              && c'.receivedBytesCount == c.receivedBytesCount + c'.lastValueBytesCount
            else c' == c.(arrived := c'.arrived, unreadBuffer := received)
  {
    hide ParseValue, IsFrame;
    FillAppends(wire, c, polls);
    var filled := FillUntil(wire, c, polls);
    var parsed := ParseValue(filled.unreadBuffer, 0);
    if parsed.Done? {
      DecodesExactlyFrames(filled.unreadBuffer, parsed.value.0, parsed.value.1);
    }
  }

  class Connection {
    const wire: Bytes  // everything the peer sends, ever
    var arrived: nat
    var unreadBuffer: Bytes
    var receivedBytesCount: nat
    var lastValueBytesCount: nat

    ghost predicate Valid()
      reads this
    {
      arrived <= |wire|
    }

    ghost function Contents(): State
      reads this
    {
      State(arrived, unreadBuffer, receivedBytesCount, lastValueBytesCount)
    }

    constructor (wire: Bytes)
      ensures Valid() && this.wire == wire && Contents() == START
    {
      this.wire := wire;
      arrived, unreadBuffer, receivedBytesCount, lastValueBytesCount := 0, [], 0, 0;
    }

    method ReadIntoBuffer(available: nat)
      requires Valid()
      modifies this
      ensures Valid() && Contents() == Fill(wire, old(Contents()), available)
      ensures old(arrived) <= arrived && unreadBuffer == old(unreadBuffer) + wire[old(arrived)..arrived]
      ensures arrived - old(arrived) <= available && arrived - old(arrived) <= 1024
      ensures arrived - old(arrived) in {available, 1024} || arrived == |wire|
      ensures receivedBytesCount == old(receivedBytesCount) && lastValueBytesCount == old(lastValueBytesCount)
    {
      var n := if available < BUFFER_SIZE then available else BUFFER_SIZE;
      if arrived + n > |wire| {
        n := |wire| - arrived;
      }
      unreadBuffer := unreadBuffer + wire[arrived..arrived + n];
      arrived := arrived + n;
    }

    method ReadValueWithTimeout(polls: seq<nat>) returns (result: Outcome<Value>)
      requires Valid()
      modifies this
      ensures Valid() && (Contents(), result) == ReadStep(wire, old(Contents()), polls)
      ensures old(arrived) <= arrived
      ensures var received := old(unreadBuffer) + wire[old(arrived)..arrived];
              if result.Done? then
                && lastValueBytesCount <= |received|
                && IsFrame(received[..lastValueBytesCount], result.value)
                && unreadBuffer == received[lastValueBytesCount..]
                && receivedBytesCount == old(receivedBytesCount) + lastValueBytesCount
              else
                && unreadBuffer == received
                && receivedBytesCount == old(receivedBytesCount) && lastValueBytesCount == old(lastValueBytesCount)
    {
      ReadOutcome(wire, Contents(), polls);
      hide ParseValue, IsFrame, FillUntil;
      ReadIntoBufferUntil(polls);
      var count: nat;
      result, count := Decode(unreadBuffer);
      if !result.Done? {
        return;
      }
      receivedBytesCount := receivedBytesCount + count;
      unreadBuffer := unreadBuffer[count..];
      lastValueBytesCount := count;
    }

    method ReadIntoBufferUntil(polls: seq<nat>)
      requires Valid()
      modifies this
      ensures Valid() && Contents() == FillUntil(wire, old(Contents()), polls)
    {
      hide ParseValue;
      var i := 0;
      while i < |polls|
        invariant 0 <= i <= |polls| && Valid()
        invariant FillUntil(wire, old(Contents()), polls) == FillUntil(wire, Contents(), polls[i..])
      {
        ReadIntoBuffer(polls[i]);
        assert polls[i..][1..] == polls[i + 1..];
        i := i + 1;
        var complete := IsRespStreamCompleteOrInvalid(unreadBuffer);
        if complete {
          return;
        }
      }
    }
  }

  method IsRespStreamCompleteOrInvalid(buf: Bytes) returns (stop: bool)
    ensures stop <==> !ParseValue(buf, 0).Incomplete?
    ensures stop <==> forall more: Bytes :: ParseValue(buf + more, 0) == ParseValue(buf, 0)
  {
    hide ParseValue;
    OutcomeIsFinal(buf);
    var result, _ := Decode(buf);
    stop := !result.Incomplete?;
  }

  // ----- what reading values from a stream of values comes to -----

  /** The state after some calls, each with its own arrivals, and the values they returned. */
  function Run(wire: Bytes, calls: seq<seq<nat>>): (r: (State, seq<Value>))
    ensures r.0.arrived <= |wire|
  {
    if calls == [] then (START, []) else
    var (before, delivered) := Run(wire, calls[..|calls| - 1]);
    var (after, result) := ReadStep(wire, before, calls[|calls| - 1]);
    (after, if result.Done? then delivered + [result.value] else delivered)
  }

  predicate Sendable(vs: seq<Value>) {
    forall v :: v in vs ==> IntegerFree(v) && Clean(v) && |Encoding(v)| <= MAX_INT
  }

  /** Values received so far are a prefix of those sent, and every byte is accounted for. */
  predicate InStep(vs: seq<Value>, c: State, delivered: seq<Value>)
    requires Sendable(vs)
  {
    var wire := EncodingAll(vs);
    && delivered <= vs
    && c.lastValueBytesCount == (if delivered == [] then 0 else |Encoding(vs[|delivered| - 1])|)
    && c.receivedBytesCount == |EncodingAll(delivered)|
    && c.receivedBytesCount <= c.arrived <= |wire|
    && c.unreadBuffer == wire[c.receivedBytesCount..c.arrived]
  }

  lemma {:induction false} FillKeepsStep(vs: seq<Value>, c: State, delivered: seq<Value>, polls: seq<nat>)
    requires Sendable(vs) && InStep(vs, c, delivered)
    ensures InStep(vs, FillUntil(EncodingAll(vs), c, polls), delivered)
    decreases polls
  {
    if polls != [] {
      var wire := EncodingAll(vs);
      var next := Fill(wire, c, polls[0]);
      assert next.unreadBuffer == wire[c.receivedBytesCount..next.arrived];
      FillKeepsStep(vs, next, delivered, polls[1..]);
    }
  }

  /** What the unread buffer holds decodes to the next value exactly when all of its bytes have arrived. */
  lemma NextValue(vs: seq<Value>, c: State, delivered: seq<Value>)
    requires Sendable(vs) && InStep(vs, c, delivered)
    ensures var k := |delivered|;
            ParseValue(c.unreadBuffer, 0) ==
            if k < |vs| && c.receivedBytesCount + |Encoding(vs[k])| <= c.arrived
            then Done((vs[k], |Encoding(vs[k])|)) else Incomplete
  {
    var k, wire := |delivered|, EncodingAll(vs);
    assert vs == delivered + vs[k..];
    EncodingAllAppend(delivered, vs[k..]);
    assert wire[c.receivedBytesCount..] == EncodingAll(vs[k..]);
    if k < |vs| {
      var b := Encoding(vs[k]);
      EncodingIsFrame(vs[k]);
      assert EncodingAll(vs[k..]) == b + EncodingAll(vs[k + 1..]) by { assert vs[k..][1..] == vs[k + 1..]; }
      assert c.unreadBuffer == wire[c.receivedBytesCount..][..|c.unreadBuffer|];
      hide EncodingAll, Encoding, InStep, ParseValue;
      if |b| <= |c.unreadBuffer| {
        assert c.unreadBuffer[..|b|] == b;
        DecodesExactlyFrames(c.unreadBuffer, vs[k], |b|);
      } else {
        assert c.unreadBuffer == b[..|c.unreadBuffer|];
        ProperPrefixIsIncomplete(b, vs[k], |c.unreadBuffer|);
      }
    } else {
      assert c.unreadBuffer == [];
    }
  }

  /** One call returns the next value exactly when its last byte has arrived, and otherwise reports it incomplete. */
  lemma ReadKeepsStep(vs: seq<Value>, c: State, delivered: seq<Value>, polls: seq<nat>)
    requires Sendable(vs) && InStep(vs, c, delivered)
    ensures var (after, result) := ReadStep(EncodingAll(vs), c, polls);
            var k := |delivered|;
            var whole := k < |vs| && c.receivedBytesCount + |Encoding(vs[k])| <= after.arrived;
            && result == (if whole then Done(vs[k]) else Incomplete)
            && InStep(vs, after, if whole then delivered + [vs[k]] else delivered)
  {
    hide ParseValue, FillUntil, Encoding, EncodingAll, IntegerFree, Clean;
    var wire := EncodingAll(vs);
    var filled := FillUntil(wire, c, polls);
    FillKeepsStep(vs, c, delivered, polls);
    FillKeepsCount(wire, c, polls);
    NextValue(vs, filled, delivered);
    var k := |delivered|;
    if k < |vs| && c.receivedBytesCount + |Encoding(vs[k])| <= filled.arrived {
      TakeKeepsStep(vs, filled, delivered);
    }
  }

  /** Taking the next value off the buffer. */
  lemma TakeKeepsStep(vs: seq<Value>, c: State, delivered: seq<Value>)
    requires Sendable(vs) && InStep(vs, c, delivered) && |delivered| < |vs|
    requires c.receivedBytesCount + |Encoding(vs[|delivered|])| <= c.arrived
    ensures var v := vs[|delivered|];
            var n := |Encoding(v)|;
            && n <= |c.unreadBuffer|
            && InStep(vs, c.(unreadBuffer := c.unreadBuffer[n..], receivedBytesCount := c.receivedBytesCount + n,
                             lastValueBytesCount := n), delivered + [v])
  {
    hide Encoding;
    var v := vs[|delivered|];
    EncodingAllAppend(delivered, [v]);
    assert EncodingAll([v]) == Encoding(v) + EncodingAll([v][1..]);
    assert delivered + [v] <= vs;
  }

  lemma {:induction false} FillKeepsCount(wire: Bytes, c: State, polls: seq<nat>)
    requires c.arrived <= |wire|
    ensures FillUntil(wire, c, polls).receivedBytesCount == c.receivedBytesCount
    decreases polls
  {
    if polls != [] {
      FillKeepsCount(wire, Fill(wire, c, polls[0]), polls[1..]);
    }
  }

  /** For every list of values, every chunking of their bytes and every pattern of failed reads in between:
      the reads that succeed return a prefix of the list, in order; the received count is the total size of
      those values; and the buffer holds exactly the bytes that arrived after them. */
  lemma {:induction false} StreamedReads(vs: seq<Value>, calls: seq<seq<nat>>)
    requires Sendable(vs)
    ensures var (c, delivered) := Run(EncodingAll(vs), calls);
            InStep(vs, c, delivered)
    decreases |calls|
  {
    if calls != [] {
      var n := |calls| - 1;
      StreamedReads(vs, calls[..n]);
      var (c, delivered) := Run(EncodingAll(vs), calls[..n]);
      ReadKeepsStep(vs, c, delivered, calls[n]);
    }
  }

  lemma RunSnoc(wire: Bytes, calls: seq<seq<nat>>, polls: seq<nat>)
    ensures var (before, delivered) := Run(wire, calls);
            var (after, result) := ReadStep(wire, before, polls);
            Run(wire, calls + [polls]) == (after, if result.Done? then delivered + [result.value] else delivered)
  {
    hide ReadStep;
    assert (calls + [polls])[..|calls|] == calls;
  }

  lemma {:induction false} RunMore(wire: Bytes, calls: seq<seq<nat>>, more: seq<seq<nat>>)
    requires Run(wire, calls).0.arrived == |wire|
    ensures Run(wire, calls + more).0.arrived == |wire|
    decreases |more|
  {
    hide ReadStep;
    if more == [] {
      assert calls + more == calls;
    } else {
      var n := |more| - 1;
      RunMore(wire, calls, more[..n]);
      assert (calls + more)[..|calls| + n] == calls + more[..n];
    }
  }

  /** The wire holds the values sent one after the other, so the k-th has arrived when all bytes have. */
  lemma AllWhole(vs: seq<Value>, c: State, delivered: seq<Value>)
    requires Sendable(vs) && InStep(vs, c, delivered) && c.arrived == |EncodingAll(vs)| && |delivered| < |vs|
    ensures c.receivedBytesCount + |Encoding(vs[|delivered|])| <= c.arrived
  {
    var k := |delivered|;
    assert vs == delivered + vs[k..];
    EncodingAllAppend(delivered, vs[k..]);
    assert EncodingAll(vs[k..]) == Encoding(vs[k]) + EncodingAll(vs[k..][1..]);
  }

  lemma DeliversNext(vs: seq<Value>, c: State, delivered: seq<Value>, polls: seq<nat>)
    requires Sendable(vs) && InStep(vs, c, delivered) && c.arrived == |EncodingAll(vs)|
    ensures ReadStep(EncodingAll(vs), c, polls).1 ==
            if |delivered| < |vs| then Done(vs[|delivered|]) else Incomplete
  {
    hide ReadStep;
    ReadKeepsStep(vs, c, delivered, polls);
    if |delivered| < |vs| {
      AllWhole(vs, c, delivered);
    }
  }

  /** The first m values, or all of them. */
  function FirstOf(vs: seq<Value>, m: nat): (first: seq<Value>)
    ensures first <= vs && (m <= |vs| ==> |first| == m) && (m >= |vs| ==> first == vs)
  {
    if m <= |vs| then vs[..m] else vs
  }

  lemma FirstOfMore(vs: seq<Value>, m: nat)
    ensures var before := FirstOf(vs, m);
            FirstOf(vs, m + 1) == if |before| < |vs| then before + [vs[|before|]] else before
  {
  }

  /** Progress: once all bytes have arrived, every further call delivers one more value, until all are delivered. */
  lemma {:induction false} AllAreDelivered(vs: seq<Value>, calls: seq<seq<nat>>, more: seq<seq<nat>>)
    requires Sendable(vs) && Run(EncodingAll(vs), calls).0.arrived == |EncodingAll(vs)|
    ensures Run(EncodingAll(vs), calls + more).1 == FirstOf(vs, |Run(EncodingAll(vs), calls).1| + |more|)
    decreases |more|
  {
    hide Run, ReadStep, InStep, EncodingAll, IntegerFree, Clean;
    var wire := EncodingAll(vs);
    if more == [] {
      assert calls + more == calls;
      DeliveredIsPrefix(vs, calls);
    } else {
      var n := |more| - 1;
      AllAreDelivered(vs, calls, more[..n]);
      StreamedReads(vs, calls + more[..n]);
      RunMore(wire, calls, more[..n]);
      assert calls + more == calls + more[..n] + [more[n]];
      RunSnoc(wire, calls + more[..n], more[n]);
      var (c, delivered) := Run(wire, calls + more[..n]);
      DeliversNext(vs, c, delivered, more[n]);
      FirstOfMore(vs, |Run(wire, calls).1| + n);
    }
  }

  lemma DeliveredIsPrefix(vs: seq<Value>, calls: seq<seq<nat>>)
    requires Sendable(vs)
    ensures var delivered := Run(EncodingAll(vs), calls).1; delivered == FirstOf(vs, |delivered|)
  {
    hide Run;
    StreamedReads(vs, calls);
  }

  // ----- how far the reads get -----

  /** One read takes as much as is available, fits the buffer and is still to come, whichever is least. */
  lemma ReadTakesWhatItCan(wire: Bytes, c: State, available: nat)
    requires c.arrived <= |wire|
    ensures var c' := Fill(wire, c, available);
            && c' == c.(arrived := c'.arrived, unreadBuffer := c.unreadBuffer + wire[c.arrived..c'.arrived])
            && c'.arrived - c.arrived <= available && c'.arrived - c.arrived <= 1024
            && (c'.arrived - c.arrived in {available, 1024} || c'.arrived == |wire|)
  {
  }

  /** All polls, whatever shows. */
  function FillAll(wire: Bytes, c: State, polls: seq<nat>): (c': State)
    requires c.arrived <= |wire|
    ensures c.arrived <= c'.arrived <= |wire|
    decreases polls
  {
    if polls == [] then c else FillAll(wire, Fill(wire, c, polls[0]), polls[1..])
  }

  /** The polling loop ends with the first poll that shows a value or a rejection, or else with the last. */
  lemma {:induction false} StopsAtFirst(wire: Bytes, c: State, polls: seq<nat>) returns (k: nat)
    requires c.arrived <= |wire|
    ensures k <= |polls| && (k == 0 ==> polls == [])
    ensures FillUntil(wire, c, polls) == FillAll(wire, c, polls[..k])
    ensures forall j :: 0 < j < k ==> ParseValue(FillAll(wire, c, polls[..j]).unreadBuffer, 0).Incomplete?
    ensures k < |polls| ==> !ParseValue(FillAll(wire, c, polls[..k]).unreadBuffer, 0).Incomplete?
    decreases polls
  {
    hide ParseValue, Fill;
    if polls == [] {
      k := 0;
    } else {
      var next := Fill(wire, c, polls[0]);
      OnePoll(wire, c, polls[0]);
      assert polls[..1] == [polls[0]];
      if !ParseValue(next.unreadBuffer, 0).Incomplete? {
        k := 1;
      } else {
        var m := StopsAtFirst(wire, next, polls[1..]);
        k := m + 1;
        forall j | 0 < j <= k
          ensures FillAll(wire, c, polls[..j]) == FillAll(wire, next, polls[1..][..j - 1])
        {
          assert polls[..j][1..] == polls[1..][..j - 1];
        }
        OnePoll(wire, c, polls[0]);
      }
    }
  }

  lemma OnePoll(wire: Bytes, c: State, available: nat)
    requires c.arrived <= |wire|
    ensures FillAll(wire, c, [available]) == Fill(wire, c, available)
  {
    hide Fill;
    assert [available][1..] == [];
  }

  /** A call during which something comes in takes at least one byte, while any are left. */
  lemma CallTakes(wire: Bytes, c: State, polls: seq<nat>)
    requires c.arrived <= |wire| && polls != [] && polls[0] > 0
    ensures var after := ReadStep(wire, c, polls).0.arrived; after > c.arrived || after == |wire|
  {
    hide ParseValue;
  }

  /** Every call polls, and finds something at its first poll. */
  predicate Supplied(calls: seq<seq<nat>>) {
    forall polls :: polls in calls ==> polls != [] && polls[0] > 0
  }

  lemma {:induction false} EnoughArrives(wire: Bytes, calls: seq<seq<nat>>)
    requires Supplied(calls)
    ensures var arrived := Run(wire, calls).0.arrived; arrived >= |calls| || arrived == |wire|
    decreases |calls|
  {
    hide ReadStep;
    if calls != [] {
      var n := |calls| - 1;
      assert forall polls :: polls in calls[..n] ==> polls in calls;
      EnoughArrives(wire, calls[..n]);
      assert calls[n] in calls;
      CallTakes(wire, Run(wire, calls[..n]).0, calls[n]);
    }
  }

  /** Whatever was sent is delivered: after enough calls during which something comes in, all of it and nothing else. */
  lemma EverythingIsDelivered(vs: seq<Value>, calls: seq<seq<nat>>)
    requires Sendable(vs) && Supplied(calls) && |calls| >= |EncodingAll(vs)| + |vs|
    ensures Run(EncodingAll(vs), calls).1 == vs
  {
    hide Run, EncodingAll;
    var n := |EncodingAll(vs)|;
    assert forall polls :: polls in calls[..n] ==> polls in calls;
    EnoughArrives(EncodingAll(vs), calls[..n]);
    AllAreDelivered(vs, calls[..n], calls[n..]);
    assert calls[..n] + calls[n..] == calls;
  }
}
