/** Replaying a file of commands, whole or cut off anywhere. */
module FileReplay {
  import opened Numbers
  import opened RespValue
  import opened Frames
  import opened Lines
  import opened ServerState
  import opened ServerLog
  import opened Requests

  predicate TidyArgs(args: seq<Bytes>) {
    args != [] && |args| <= MAX_INT && forall arg :: arg in args ==> Tidy(arg)
  }

  function ApplyAll(st: Store, commands: seq<seq<Bytes>>): Store
    decreases |commands|
  {
    if commands == [] then st else ApplyAll(Apply(st, commands[0]), commands[1..])
  }

  lemma KeptTidy(x: Bytes)
    requires Tidy(x)
    ensures Kept(x) == x
  {
    TrimOfTidy(x);
  }

  // ----- what is left of a command of which only the first bytes are there -----

  function Clamp(n: int, most: nat): (c: nat)
    ensures c <= most
  {
    if n < 0 then 0 else if n > most then most else n
  }

  function LengthLine(arg: Bytes): Bytes { MarkedNumber(BULK_MARK, |arg|) + CRLF }

  function CountLine(args: seq<Bytes>): Bytes { MarkedNumber(ARRAY_MARK, |args|) + CRLF }

  /** What is read of an argument when n bytes are left from its length line on. */
  function CutArg(arg: Bytes, n: nat): Bytes {
    TrimSpace(arg[..Clamp(n - |LengthLine(arg)|, |arg|)])
  }

  function CutArgs(args: seq<Bytes>, n: nat): (cut: seq<Bytes>)
    ensures |cut| == |args|
    decreases |args|
  {
    if args == [] then [] else
    var size := |FrameArg(args[0])|;
    [CutArg(args[0], n)] + CutArgs(args[1..], if n < size then 0 else n - size)
  }

  /** A command of which n bytes are there is applied to what is left of its arguments, if its count line is whole. */
  function ApplyCut(st: Store, args: seq<Bytes>, n: nat): Store {
    if n < |CountLine(args)| then st else Apply(st, CutArgs(args, n - |CountLine(args)|))
  }

  /** The first n bytes of a log: the commands in them, and then what is left of the next. */
  function ReplayCut(st: Store, commands: seq<seq<Bytes>>, n: nat): Store
    decreases |commands|
  {
    if commands == [] then st else
    var size := |Frame(commands[0])|;
    if n < size then ApplyCut(st, commands[0], n) else ReplayCut(Apply(st, commands[0]), commands[1..], n - size)
  }

  // ----- reading lines that may be cut off -----

  /** A line of which only part may be there. */
  lemma ReadLineOf(s: Bytes, p: nat, x: Bytes, rest: Bytes)
    requires p <= |s| && OneLine(x) && s[p..] <= x + CRLF + rest
    ensures ReadString(s, p) == if |s| - p < |x| + 2 then Line((x + CRLF)[..|s| - p], |s|, false)
                                else Line(x + CRLF, p + |x| + 2, true)
    ensures |s| - p >= |x| + 2 ==> s[p + |x| + 2..] <= rest
  {
    var line, text := x + CRLF, s[p..];
    assert text == (line + rest)[..|text|];
    if |text| < |line| {
      assert text == line[..|text|];
      NoLineEnd(s, p);
    } else {
      assert s[p..p + |line|] == text[..|line|] == line;
      ReadOneLine(s, p, x);
      assert s[p + |line|..] == text[|line|..] == rest[..|text| - |line|];
    }
  }

  lemma TrimTidy(x: Bytes)
    requires Tidy(x)
    ensures TrimSpace(x) == x && TrimSpace(x + [CR]) == x
  {
    if x == [] {
      assert [CR][1..] == [];
      assert TrimLeft([CR]) == TrimLeft([]) == [];
      assert x + [CR] == [CR];
    } else {
      assert SpaceAtStart(x + [CR]) == 0;
      assert (x + [CR])[..|x|] == x;
      assert TrimRight(x + [CR]) == TrimRight(x);
    }
  }

  /** The length line and the line of one argument, which may be cut off. */
  lemma ReadArg(s: Bytes, p: nat, arg: Bytes, rest: Bytes)
    requires p <= |s| && Tidy(arg) && s[p..] <= FrameArg(arg) + rest
    ensures var n := |s| - p;
            var line := ReadString(s, ReadString(s, p).next);
            && TrimSpace(line.text) == CutArg(arg, n)
            && line.next == p + (if n < |FrameArg(arg)| then n else |FrameArg(arg)|)
            && s[line.next..] <= rest
  {
    hide TrimSpace, ReadString, Itoa, SpaceAtStart, SpaceAtEnd;
    var x := MarkedNumber(BULK_MARK, |arg|);
    MarkedNumberIsTidy(BULK_MARK, |arg|);
    assert FrameArg(arg) + rest == x + CRLF + (arg + CRLF + rest);
    ReadLineOf(s, p, x, arg + CRLF + rest);
    TrimTidy([]);
    TrimTidy(arg);
    TrimOfTidy(arg);
    var q := ReadString(s, p).next;
    if |s| - p < |x| + 2 {
      assert s[q..] == [];
      ReadLineOf(s, q, [], []);
      assert arg[..0] == [];
    } else {
      ReadLineOf(s, q, arg, rest);
      var m := |s| - q;
      if m < |arg| + 2 {
        assert (arg + CRLF)[..m] == if m <= |arg| then arg[..m] else arg + [CR];
      }
      assert arg[..|arg|] == arg;
    }
  }

  lemma {:induction false} ReadArgsOf(s: Bytes, p: nat, args: seq<Bytes>, rest: Bytes)
    requires p <= |s| && (forall arg :: arg in args ==> Tidy(arg)) && s[p..] <= FrameArgs(args) + rest
    ensures var n := |s| - p;
            var (cut, next) := ReadArgs(s, p, |args|);
            && cut == CutArgs(args, n)
            && next == p + (if n < |FrameArgs(args)| then n else |FrameArgs(args)|)
            && s[next..] <= rest
    decreases |args|
  {
    hide TrimSpace, ReadString, FrameArg, CutArg, Tidy;
    if args == [] {
      assert FrameArgs(args) + rest == rest;
    } else {
      var arg, others := args[0], args[1..];
      assert arg in args;
      assert FrameArgs(args) + rest == FrameArg(arg) + (FrameArgs(others) + rest);
      ReadArg(s, p, arg, FrameArgs(others) + rest);
      var line := ReadString(s, ReadString(s, p).next);
      ReadArgsOf(s, line.next, others, rest);
    }
  }

  /** With all bytes there, all arguments are. */
  lemma {:induction false} WholeArgs(args: seq<Bytes>, n: nat)
    requires (forall arg :: arg in args ==> Tidy(arg)) && n >= |FrameArgs(args)|
    ensures CutArgs(args, n) == args
    decreases |args|
  {
    hide TrimSpace, Tidy, Itoa;
    if args != [] {
      var arg := args[0];
      assert arg in args;
      TrimTidy(arg);
      assert arg[..|arg|] == arg;
      WholeArgs(args[1..], n - |FrameArg(arg)|);
      assert [arg] + args[1..] == args;
    }
  }

  /** The line that starts a command gives the number of its arguments. */
  lemma CountIsRead(n: nat)
    requires n <= MAX_INT
    ensures var text := MarkedNumber(ARRAY_MARK, n) + CRLF;
            text[0] == ARRAY_MARK && Atoi(TrimSpace(text[1..])).value == n
  {
    hide TrimSpace, Atoi, Itoa, Tidy, OneLine;
    var text := MarkedNumber(ARRAY_MARK, n) + CRLF;
    assert text[1..] == Itoa(n) + CRLF;
    NumeralIsTidy(n);
    TrimOfTidy(Itoa(n));
    AtoiItoa(n);
  }

  /** One command of which only the first bytes may be there. */
  lemma ReplayOne(st: Store, s: Bytes, p: nat, args: seq<Bytes>, rest: Bytes) returns (q: nat)
    requires p <= |s| && TidyArgs(args) && s[p..] <= Frame(args) + rest
    ensures var n := |s| - p;
            q == p + (if n < |Frame(args)| then n else |Frame(args)|) && s[q..] <= rest
    ensures Replay(st, s, p) == Replay(if |s| - p < |Frame(args)| then ApplyCut(st, args, |s| - p)
                                       else Apply(st, args), s, q)
  {
    hide TrimSpace, ReadString, ReadArgs, FrameArgs, CutArgs, Apply, Atoi, Itoa, Tidy;
    var x := MarkedNumber(ARRAY_MARK, |args|);
    MarkedNumberIsTidy(ARRAY_MARK, |args|);
    assert Frame(args) + rest == x + CRLF + (FrameArgs(args) + rest);
    ReadLineOf(s, p, x, FrameArgs(args) + rest);
    var line := ReadString(s, p);
    if line.ok {
      CountIsRead(|args|);
      ReadArgsOf(s, line.next, args, rest);
      q := ReadArgs(s, line.next, |args|).1;
      if |s| - line.next >= |FrameArgs(args)| {
        WholeArgs(args, |s| - line.next);
      }
    } else {
      q := |s|;
      assert s[q..] == [];
      EndOfFile(st, s);
    }
  }

  lemma EndOfFile(st: Store, s: Bytes)
    ensures Replay(st, s, |s|) == st
  {
  }

  /** A file that holds the beginning of a log, from any position on: the commands in full are applied, and then what is
      left of the one that was cut off. */
  lemma {:induction false} ReplayPrefix(st: Store, s: Bytes, p: nat, commands: seq<seq<Bytes>>)
    requires forall args :: args in commands ==> TidyArgs(args)
    requires p <= |s| && s[p..] <= Log(commands)
    ensures Replay(st, s, p) == ReplayCut(st, commands, |s| - p)
    decreases |commands|
  {
    hide Replay, Apply, ApplyCut, TidyArgs, Frame;
    if commands == [] {
      EndOfFile(st, s);
    } else {
      var args, more := commands[0], commands[1..];
      assert args in commands;
      var q := ReplayOne(st, s, p, args, Log(more));
      if |s| - p < |Frame(args)| {
        EndOfFile(ApplyCut(st, args, |s| - p), s);
      } else {
        ReplayPrefix(Apply(st, args), s, q, more);
      }
    }
  }

  lemma {:induction false} ReplayCutWhole(st: Store, commands: seq<seq<Bytes>>)
    ensures ReplayCut(st, commands, |Log(commands)|) == ApplyAll(st, commands)
    decreases |commands|
  {
    hide Frame, Apply, ApplyCut;
    if commands != [] {
      ReplayCutWhole(Apply(st, commands[0]), commands[1..]);
    }
  }

  /** The same by the place of the cut: r bytes into command k. */
  lemma {:induction false} ReplayCutAt(st: Store, commands: seq<seq<Bytes>>, k: nat, r: nat)
    requires k < |commands| && r < |Frame(commands[k])|
    ensures ReplayCut(st, commands, |Log(commands[..k])| + r) ==
            ApplyCut(ApplyAll(st, commands[..k]), commands[k], r)
    decreases k
  {
    hide Frame, Apply, ApplyCut;
    if k > 0 {
      assert commands[..k][1..] == commands[1..][..k - 1];
      ReplayCutAt(Apply(st, commands[0]), commands[1..], k - 1, r);
    }
  }

  /** The file parser reads back every command that was appended. */
  lemma ReplayLog(st: Store, commands: seq<seq<Bytes>>)
    requires forall args :: args in commands ==> TidyArgs(args)
    ensures Replay(st, Log(commands), 0) == ApplyAll(st, commands)
  {
    hide Replay, Log, TidyArgs, ReplayCut;
    assert Log(commands)[0..] == Log(commands);
    ReplayPrefix(st, Log(commands), 0, commands);
    ReplayCutWhole(st, commands);
  }

  /** Lines in front that start no command are passed over. */
  lemma {:induction false} ReplaySkips(st: Store, s: Bytes, p: nat, lines: seq<Bytes>, rest: Bytes)
    requires forall x :: x in lines ==> OneLine(x) && (x != [] ==> x[0] != ARRAY_MARK)
    requires p <= |s| && s[p..] == Join(lines) + rest
    ensures p + |Join(lines)| <= |s| && Replay(st, s, p) == Replay(st, s, p + |Join(lines)|)
    ensures s[p + |Join(lines)|..] == rest
    decreases |lines|
  {
    hide OneLine, Replay;
    if lines != [] {
      var x, more := lines[0], lines[1..];
      assert x in lines && forall y :: y in more ==> y in lines;
      assert Join(lines) == x + CRLF + Join(more);
      hide Join;
      var q := SkipLine(st, s, p, x, Join(more) + rest);
      ReplaySkips(st, s, q, more, rest);
    }
  }

  lemma SkipLine(st: Store, s: Bytes, p: nat, x: Bytes, rest: Bytes) returns (q: nat)
    requires p <= |s| && OneLine(x) && (x != [] ==> x[0] != ARRAY_MARK) && s[p..] == x + CRLF + rest
    ensures q == p + |x| + 2 && q <= |s| && s[q..] == rest
    ensures Replay(st, s, p) == Replay(st, s, q)
  {
    hide OneLine, ReadString, Apply, ReadArgs;
    q := p + |x| + 2;
    assert |s[p..]| >= |x| + 2;
    ReadLineOf(s, p, x, rest);
    assert s[q..] == s[p..][|x| + 2..] == rest;
    assert (x + CRLF)[0] == if x == [] then CR else x[0];
  }

  /** Whatever text stands in front of a log, it is replayed. */
  lemma ReplayAfterOther(st: Store, lines: seq<Bytes>, commands: seq<seq<Bytes>>)
    requires forall x :: x in lines ==> OneLine(x) && (x != [] ==> x[0] != ARRAY_MARK)
    requires forall args :: args in commands ==> TidyArgs(args)
    ensures Replay(st, Join(lines) + Log(commands), 0) == ApplyAll(st, commands)
  {
    hide Replay, Log, TidyArgs, ReplayCut, Join, OneLine;
    var s, p := Join(lines) + Log(commands), |Join(lines)|;
    assert s[0..] == s;
    ReplaySkips(st, s, 0, lines, Log(commands));
    ReplayPrefix(st, s, p, commands);
    ReplayCutWhole(st, commands);
  }

  // ----- what a replayed request does -----

  /** Replaying a request from a file: SET stores and, with PX, starts a timer; anything else does nothing. */
  function Replayed(st: Store, r: Request): Store {
    match r
    case SetRequest(key, value, None, _) => st.(memory := st.memory[key := value])
    case SetRequest(key, value, Some(n), _) =>
      st.(memory := st.memory[key := value], timers := st.timers + [(key, n)])
    case _ => st
  }

  lemma ApplyRequest(st: Store, r: Request)
    requires r.IsSpelled()
    ensures Apply(st, r.words) == Replayed(st, r)
  {
    var name := r.words[0];
    CasingIsTidy(name, r.Name());
    NamesAreNoOther();
    hide IsCasing, ToUpper, Tidy, OneLine, Itoa, Atoi;
    if r.SetRequest? {
      assert r.words[1] == r.words[1..3][0] && r.words[2] == r.words[1..3][1];
      if r.px.Some? {
        WordIsPx(r.words[3]);
        AtoiItoa(r.px.value);
      }
    }
  }

  function ReplayedAll(st: Store, requests: seq<Request>): Store
    decreases |requests|
  {
    if requests == [] then st else ReplayedAll(Replayed(st, requests[0]), requests[1..])
  }

  lemma {:induction false} ApplyRequests(st: Store, requests: seq<Request>)
    requires forall r :: r in requests ==> r.IsSpelled()
    ensures ApplyAll(st, Words(requests)) == ReplayedAll(st, requests)
    decreases |requests|
  {
    hide Apply, Replayed, IsCasing;
    if requests != [] {
      assert requests[0] in requests && forall r :: r in requests[1..] ==> r in requests;
      ApplyRequest(st, requests[0]);
      assert Words(requests)[1..] == Words(requests[1..]);
      ApplyRequests(Replayed(st, requests[0]), requests[1..]);
    }
  }

  /** A file of requests with tidy words, in any case, is replayed request by request. */
  lemma ReplayRequests(st: Store, requests: seq<Request>)
    requires forall r :: r in requests ==> r.IsSpelled() && TidyArgs(r.words)
    ensures Replay(st, Log(Words(requests)), 0) == ReplayedAll(st, requests)
  {
    forall args | args in Words(requests) ensures TidyArgs(args) {
      var i :| 0 <= i < |requests| && requests[i].words == args;
      assert requests[i] in requests;
    }
    hide *;
    ReplayLog(st, Words(requests));
    ApplyRequests(st, requests);
  }
}
