/** One list key of the server: its elements, and the clients blocked on it. Each method is one critical section. */
module LockableList {
  import opened Numbers
  import opened RespValue
  import opened Frames
  import opened Sequences

  /** A Go channel of strings with one slot. */
  class Channel {
    var buffer: Option<Bytes>

    constructor ()
      ensures buffer == None
    {
      buffer := None;
    }

    /** A send that finds the slot free; on a full slot it would block. */
    method Send(value: Bytes)
      requires buffer == None
      modifies this
      ensures buffer == Some(value)
    {
      buffer := Some(value);
    }
  }

  /** What a push to the right does to the waiters (channels, or any stand-in for them) and the elements. */
  datatype Pushed<T> = Pushed(served: seq<T>, clients: seq<T>, elements: seq<Bytes>)

  function PushRight<T>(clients: seq<T>, elements: seq<Bytes>, newElems: seq<Bytes>): (r: Pushed<T>)
    ensures |r.served| <= |newElems| && r.served + r.clients == clients
  {
    var m := if |clients| < |newElems| then |clients| else |newElems|;
    Pushed(clients[..m], clients[m..], elements + newElems[m..])
  }

  /** Pushing to the left one by one reverses the values. */
  function PushLeft(elements: seq<Bytes>, newElems: seq<Bytes>): seq<Bytes>
    decreases |newElems|
  {
    if newElems == [] then elements else PushLeft([newElems[0]] + elements, newElems[1..])
  }

  /** After LPUSH the last value pushed is in front, and the old elements follow the new ones. */
  lemma {:induction false} PushLeftReverses(elements: seq<Bytes>, values: seq<Bytes>)
    ensures var r := PushLeft(elements, values);
            && |r| == |values| + |elements| && r[|values|..] == elements
            && forall i :: 0 <= i < |values| ==> r[i] == values[|values| - 1 - i]
    decreases |values|
  {
    if values != [] {
      var r := PushLeft([values[0]] + elements, values[1..]);
      PushLeftReverses([values[0]] + elements, values[1..]);
      assert r[|values| - 1..] == [values[0]] + elements;
      assert r[|values| - 1] == r[|values| - 1..][0];
      assert r[|values|..] == r[|values| - 1..][1..];
    }
  }

  /** Taking values from the front: what is taken and what stays, unless there are not that many. */
  function PopFront(elements: seq<Bytes>, count: int): (r: Option<(seq<Bytes>, seq<Bytes>)>)
    ensures r.Some? <==> 0 <= count <= |elements|
    ensures r.Some? ==> r.value.0 + r.value.1 == elements && |r.value.0| == count
  {
    if 0 <= count <= |elements| then Some((elements[..count], elements[count..])) else None
  }

  function RemoveFirst<T(==)>(clients: seq<T>, c: T): (r: seq<T>)
    ensures forall d :: d in r ==> d in clients
  {
    if clients == [] then [] else if clients[0] == c then clients[1..] else [clients[0]] + RemoveFirst(clients[1..], c)
  }

  class LockableList {
    var elements: seq<Bytes>
    var clients: seq<Channel>

    /** Waiting clients have distinct channels, and nothing was sent on them. */
    ghost predicate Valid()
      reads this, clients
    {
      && (forall i, j :: 0 <= i < j < |clients| ==> clients[i] != clients[j])
      && (forall i :: 0 <= i < |clients| ==> clients[i].buffer == None)
    }

    constructor ()
      ensures Valid() && elements == [] && clients == []
    {
      elements, clients := [], [];
    }

    /** RPUSH: hands values to the waiters in order, and stores what is left. */
    method RPush(values: seq<Bytes>) returns (responseLen: nat)
      requires Valid()
      modifies this, clients
      ensures Valid() && responseLen == |old(elements)| + |values|
      ensures var r := PushRight(old(clients), old(elements), values);
              && clients == r.clients && elements == r.elements
              && forall j :: 0 <= j < |r.served| ==> r.served[j].buffer == Some(values[j])
    {
      responseLen := |elements| + |values|;
      var newElems := values;
      ghost var n := 0;
      while |clients| > 0 && |newElems| > 0
        invariant n <= |old(clients)| && n <= |values|
        invariant clients == old(clients)[n..] && newElems == values[n..] && elements == old(elements)
        invariant forall j :: 0 <= j < n ==> old(clients)[j].buffer == Some(values[j])
        invariant forall j :: n <= j < |old(clients)| ==> old(clients)[j].buffer == None
        decreases |newElems|
      {
        var c := clients[0];
        clients := clients[1..];
        c.Send(newElems[0]);
        newElems := newElems[1..];
        n := n + 1;
      }
      if |newElems| > 0 {
        elements := elements + newElems;
      }
      assert n == |PushRight(old(clients), old(elements), values).served|;
      assert elements == old(elements) + values[n..];
    }

    /** LPUSH: stores the values; waiters are not looked at. */
    method LPush(values: seq<Bytes>) returns (responseLen: nat)
      requires Valid()
      modifies this
      ensures Valid() && clients == old(clients)
      ensures elements == PushLeft(old(elements), values) && responseLen == |elements|
    {
      for i := 0 to |values|
        invariant clients == old(clients)
        invariant PushLeft(old(elements), values) == PushLeft(elements, values[i..])
      {
        assert values[i..][0] == values[i] && values[i..][1..] == values[i + 1..];
        elements := [values[i]] + elements;
      }
      responseLen := |elements|;
    }

    /** LPOP with a count. `None` is the index panic of a count out of range. */
    method LPop(count: int) returns (popped: Option<seq<Bytes>>)
      requires Valid()
      modifies this`elements
      ensures Valid()
      ensures popped.Some? <==> 0 <= count <= |old(elements)|
      ensures popped.Some? ==> PopFront(old(elements), count) == Some((popped.value, elements))
      ensures popped.None? ==> elements == old(elements)
    {
      var poppedElems: seq<Bytes> := [];
      var i := 0;
      while i < count
        invariant 0 <= i && i <= |elements| && (i <= count || i == 0)
        invariant poppedElems == elements[..i]
      {
        if i >= |elements| {
          return None;
        }
        poppedElems := poppedElems + [elements[i]];
        i := i + 1;
      }
      if count < 0 {
        return None;
      }
      elements := elements[count..];
      popped := Some(poppedElems);
    }

    /** The first critical section of BLPOP: takes a value, or leaves a channel to wait on. */
    method TakeOrWait() returns (value: Option<Bytes>, channel: Channel?)
      requires Valid()
      modifies this
      ensures Valid()
      ensures |old(elements)| > 0 ==>
                value.Some? && PopFront(old(elements), 1) == Some(([value.value], elements))
                    && clients == old(clients)
      ensures |old(elements)| == 0 ==>
                value == None && channel != null && fresh(channel) && elements == []
                    && clients == old(clients) + [channel]
    {
      channel := null;
      if |elements| > 0 {
        value := Some(elements[0]);
        assert elements[..1] == [elements[0]];
        elements := elements[1..];
        return;
      }
      var clientCh := new Channel();
      assert forall c :: c in clients ==> c != clientCh;
      clients := clients + [clientCh];
      return None, clientCh;
    }

    /** The critical section of a client that timed out: it leaves the queue, if it is still there. */
    method Leave(channel: Channel)
      requires Valid()
      modifies this`clients
      ensures Valid() && clients == RemoveFirst(old(clients), channel)
    {
      ghost var k := RemoveFirstSplits(clients, channel);
      for i := 0 to |clients|
        invariant clients == old(clients) && i <= k
      {
        if clients[i] == channel {
          clients := clients[..i] + clients[i + 1..];
          return;
        }
      }
    }
  }

  lemma {:induction false} RemoveFirstSplits<T>(clients: seq<T>, c: T) returns (k: nat)
    ensures k <= |clients| && forall i :: 0 <= i < k ==> clients[i] != c
    ensures if k == |clients| then RemoveFirst(clients, c) == clients
            else clients[k] == c && RemoveFirst(clients, c) == clients[..k] + clients[k + 1..]
    decreases |clients|
  {
    if clients == [] || clients[0] == c {
      k := 0;
    } else {
      var m := RemoveFirstSplits(clients[1..], c);
      k := m + 1;
      FirstAndRest(clients, m);
    }
  }

  /** The reply to a client that got a value: a frame of the key and the value. */
  method SendBLPopSuccess(listKey: Bytes, value: Bytes) returns (response: Bytes)
    ensures response == Frame([listKey, value])
  {
    response := [ARRAY_MARK, ZERO + 2] + CRLF + ([BULK_MARK] + Itoa(|listKey|) + CRLF + listKey + CRLF)
                + ([BULK_MARK] + Itoa(|value|) + CRLF + value + CRLF);
    var args := [listKey, value];
    assert args[1..] == [value] && [value][1..] == [];
    assert FrameArgs([value]) == FrameArg(value) + [];
  }
}
