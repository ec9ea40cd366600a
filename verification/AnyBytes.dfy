/** What serving any bytes at all can come to. */
module AnyBytes {
  import opened Numbers
  import opened Frames
  import opened Lines
  import opened ServerState

  predicate LineStart(s: Bytes, p: nat) {
    p <= |s| && (p == 0 || p == |s| || s[p - 1] == LF)
  }

  /** No line names one of the commands that are not part of this model. */
  ghost predicate NamesNoOther(s: Bytes) {
    forall p: nat :: LineStart(s, p) ==> !IsOtherCommand(ToUpper(TrimSpace(ReadString(s, p).text)))
  }

  lemma {:induction false} LineEndIsStart(s: Bytes, p: nat)
    requires p <= |s|
    ensures LineStart(s, LineEnd(s, p).0)
    decreases |s| - p
  {
    if p < |s| && s[p] != LF {
      LineEndIsStart(s, p + 1);
    }
  }

  lemma NextIsStart(s: Bytes)
    ensures forall p: nat :: p <= |s| ==> LineStart(s, ReadString(s, p).next)
  {
    hide LineStart, LineEnd;
    forall p: nat | p <= |s| ensures LineStart(s, ReadString(s, p).next) {
      LineEndIsStart(s, p);
    }
  }

  /** No line is GETACK. */
  ghost predicate NamesNoGetAck(s: Bytes) {
    forall p: nat :: LineStart(s, p) ==> ToUpper(TrimSpace(ReadString(s, p).text)) != GETACK
  }

  /** The modelled handlers keep the role and stop at the start of a line. They do not panic on a replica, nor without
      a GETACK. */
  lemma HandlersStopAtLines(st: Store, session: Session, s: Bytes, line: Line, buffered: nat -> bool)
    requires LineStart(s, line.next)
    ensures var effect := Dispatch(st, session, s, line, buffered);
            && (effect.Continue? ==> effect.store.role.Slave? == st.role.Slave? && LineStart(s, effect.next))
            && (effect.Crash? ==> st.role.Master? && !NamesNoGetAck(s))
  {
    NextIsStart(s);
    LineStartIsInside(s);
    hide TrimSpace, ReadString, ToUpper, StoreSet, LineStart;
  }

  lemma LineStartIsInside(s: Bytes)
    ensures forall p: nat :: LineStart(s, p) ==> p <= |s|
  {
  }

  /** How serving any bytes can end. The handlers of PING, SET and REPLCONF never make a replica panic. If no line names
      another command, and none is GETACK or the server is a replica, the bytes are served to their end. */
  lemma {:induction false} WhenServingEnds(st: Store, session: Session, s: Bytes, p: nat, buffered: nat -> bool)
    requires LineStart(s, p)
    ensures var served := Serve(st, session, s, p, buffered);
            && (st.role.Slave? || NamesNoGetAck(s) ==> !served.Crashed?)
            && (NamesNoOther(s) ==> !served.Unmodelled?)
            && (served.Finished? ==> served.store.role.Slave? == st.role.Slave?)
    decreases |s| - p
  {
    NextIsStart(s);
    hide TrimSpace, ReadString, ToUpper, IsOtherCommand, StoreSet, Dispatch, LineStart, NamesNoGetAck;
    LineStartIsInside(s);
    var line := ReadString(s, p);
    if line.ok && !IsOtherCommand(ToUpper(TrimSpace(line.text))) {
      HandlersStopAtLines(st, session, s, line, buffered);
      var effect := Dispatch(st, session, s, line, buffered);
      if effect.Continue? {
        WhenServingEnds(effect.store, session, s, effect.next, buffered);
      }
    }
  }

  /** A line without its end is no command yet: nothing is done with it. */
  lemma PartialLineIsIgnored(st: Store, session: Session, s: Bytes, p: nat, buffered: nat -> bool)
    requires p <= |s| && LF !in s[p..]
    ensures Serve(st, session, s, p, buffered) == Finished(st, [])
  {
    NoLineEnd(s, p);
  }

  // ----- without authentication -----

  /** The parts of the state that only an authenticated client can change. */
  predicate SameData(st: Store, st': Store) {
    && st'.memory == st.memory && st'.timers == st.timers && st'.aof == st.aof && st'.masterOffset == st.masterOffset
    && |st'.links| == |st.links|
    && forall i :: 0 <= i < |st.links| ==> st'.links[i].stream == st.links[i].stream
  }

  lemma UnauthedHandlers(st: Store, session: Session, s: Bytes, line: Line, buffered: nat -> bool)
    requires line.next <= |s| && !session.authed
    ensures var effect := Dispatch(st, session, s, line, buffered); effect.Continue? ==> SameData(st, effect.store)
  {
    hide TrimSpace, ReadString, ToUpper, StoreSet;
  }

  /** Whatever bytes a client sends that is not authenticated, nothing is stored, propagated or logged, and no timer
      starts. */
  lemma {:induction false} UnauthedStoresNothing(
    st: Store, session: Session, s: Bytes, p: nat, buffered: nat -> bool)
    requires p <= |s| && !session.authed && Serve(st, session, s, p, buffered).Finished?
    ensures SameData(st, Serve(st, session, s, p, buffered).store)
    decreases |s| - p
  {
    hide TrimSpace, ReadString, ToUpper, IsOtherCommand, Dispatch;
    var line := ReadString(s, p);
    if line.ok {
      UnauthedHandlers(st, session, s, line, buffered);
      var effect := Dispatch(st, session, s, line, buffered);
      UnauthedStoresNothing(effect.store, session, s, effect.next, buffered);
    }
  }

  // ----- on a replica -----

  /** What only a master writes. */
  predicate SameShipping(st: Store, st': Store) {
    st'.aof == st.aof && st'.masterOffset == st.masterOffset && st'.links == st.links
  }

  lemma ReplicaHandlers(st: Store, session: Session, s: Bytes, line: Line, buffered: nat -> bool)
    requires line.next <= |s| && st.role.Slave?
    ensures var effect := Dispatch(st, session, s, line, buffered);
            effect.Continue? && effect.store.role.Slave? && SameShipping(st, effect.store)
  {
    hide TrimSpace, ReadString, ToUpper, Frame;
  }

  /** Whatever bytes a replica is served, it ships nothing on: not to replicas of its own, and not to a file. */
  lemma {:induction false} ReplicaShipsNothing(
    st: Store, session: Session, s: Bytes, p: nat, buffered: nat -> bool)
    requires p <= |s| && st.role.Slave? && Serve(st, session, s, p, buffered).Finished?
    ensures SameShipping(st, Serve(st, session, s, p, buffered).store)
    decreases |s| - p
  {
    hide TrimSpace, ReadString, ToUpper, IsOtherCommand, Dispatch;
    var line := ReadString(s, p);
    if line.ok {
      ReplicaHandlers(st, session, s, line, buffered);
      var effect := Dispatch(st, session, s, line, buffered);
      ReplicaShipsNothing(effect.store, session, s, effect.next, buffered);
    }
  }

  // ----- SETs that are cut off -----

  /** How many lines are complete from p on. */
  function Newlines(s: Bytes, p: nat): nat
    requires p <= |s|
    decreases |s| - p
  {
    if p == |s| then 0 else (if s[p] == LF then 1 else 0) + Newlines(s, p + 1)
  }

  lemma {:induction false} OneLineLess(s: Bytes, p: nat)
    requires p <= |s|
    ensures var (next, ok) := LineEnd(s, p);
            Newlines(s, p) == (if ok then 1 + Newlines(s, next) else 0)
    decreases |s| - p
  {
    if p < |s| && s[p] != LF {
      OneLineLess(s, p + 1);
    }
  }

  lemma AfterLine(s: Bytes, p: nat)
    requires p <= |s|
    ensures var line := ReadString(s, p);
            && (line.ok <==> Newlines(s, p) > 0)
            && Newlines(s, line.next) == if Newlines(s, p) == 0 then 0 else Newlines(s, p) - 1
  {
    OneLineLess(s, p);
    if !ReadString(s, p).ok {
      assert Newlines(s, |s|) == 0;
    }
  }

  /** SET stores and answers exactly if the client is authenticated and the two pairs of lines after its name have
      arrived whole; otherwise the state stays. A timer takes four lines more. */
  lemma SetNeedsFourLines(st: Store, s: Bytes, p: nat, authed: bool, buffered: nat -> bool)
    requires p <= |s|
    ensures var effect := SetAt(st, s, p, authed, buffered);
            && effect.Continue? && effect.ack == []
            && (authed && Newlines(s, p) >= 4 <==> effect.reply == OK)
            && (!authed <==> effect.reply == NOAUTH)
            && (effect.reply != OK ==> effect.store == st)
            && (effect.store.timers != st.timers ==> Newlines(s, p) >= 8)
  {
    hide TrimSpace, ToUpper, Atoi, Newlines, ReadString, StoreSet;
    var a := ReadString(s, p).next;
    var b := ReadString(s, a).next;
    var c := ReadString(s, b).next;
    var d := ReadString(s, c).next;
    var e := ReadString(s, d).next;
    var f := ReadString(s, e).next;
    var g := ReadString(s, f).next;
    AfterLine(s, p);
    AfterLine(s, a);
    AfterLine(s, b);
    AfterLine(s, c);
    AfterLine(s, d);
    AfterLine(s, e);
    AfterLine(s, f);
    AfterLine(s, g);
    assert OK != NOAUTH && OK != [] && NOAUTH != [];
    SetKeepsTimers(st, TrimSpace(ReadString(s, a).text), TrimSpace(ReadString(s, c).text));
  }

  lemma SetKeepsTimers(st: Store, key: Bytes, value: Bytes)
    ensures StoreSet(st, key, value).timers == st.timers
  {
  }
}
