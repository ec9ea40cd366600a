/** What the server makes of an append-only file that was cut off: the SETs in full are replayed, and of the one that
    was cut the parser stores whatever it finds, as soon as the name is there. */
module TruncatedFile {
  import opened Numbers
  import opened Frames
  import opened Lines
  import opened ServerState
  import opened ServerLog
  import opened FileReplay
  import opened SetAgreement

  /** Length of `*3\r\n$3\r\nSET`: from here on the parser recognises a SET. */
  const NAME_ENDS := 11

  /** Where key and value begin in the frame of a SET. */
  function KeyAt(key: Bytes): nat { NAME_ENDS + 2 + |LengthLine(key)| }

  function ValueAt(key: Bytes, value: Bytes): nat { KeyAt(key) + |key| + 2 + |LengthLine(value)| }

  /** The key and value the parser finds in the first r bytes of the frame. */
  function CutKey(key: Bytes, r: nat): Bytes {
    TrimSpace(key[..Clamp(r - KeyAt(key), |key|)])
  }

  function CutValue(key: Bytes, value: Bytes, r: nat): Bytes {
    TrimSpace(value[..Clamp(r - ValueAt(key, value), |value|)])
  }

  lemma TrimIsNotLonger(s: Bytes)
    ensures |TrimSpace(s)| <= |s|
  {
  }

  lemma NameIsRead(n: nat)
    ensures ToUpper(CutArg(SET, n)) == SET <==> n >= 7
  {
    NamesAreModelled();
    assert Itoa(3) == [ZERO + 3];
    assert |LengthLine(SET)| == 4;
    var c := Clamp(n - 4, 3);
    TrimIsNotLonger(SET[..c]);
    if c == 3 {
      assert SET[..3] == SET;
      TrimTidy(SET);
    }
    hide TrimSpace;
  }

  /** What a SET cut after r bytes does. */
  lemma ApplyCutSet(st: Store, key: Bytes, value: Bytes, r: nat)
    ensures ApplyCut(st, SetArgs(key, value), r) ==
            if r < NAME_ENDS then st
            else st.(memory := st.memory[CutKey(key, r) := CutValue(key, value, r)])
  {
    var args := SetArgs(key, value);
    assert Itoa(3) == [ZERO + 3];
    assert |CountLine(args)| == 4 && |FrameArg(SET)| == 9;
    hide TrimSpace, ToUpper, Itoa;
    if r >= 4 {
      NameIsRead(r - 4);
      ThreeCutArgs(key, value, r - 4);
    }
  }

  lemma ThreeCutArgs(key: Bytes, value: Bytes, n: nat)
    requires |FrameArg(SET)| == 9
    ensures CutArgs(SetArgs(key, value), n) == [CutArg(SET, n), CutKey(key, n + 4), CutValue(key, value, n + 4)]
  {
    hide TrimSpace, Itoa;
    var args := SetArgs(key, value);
    assert args[1..] == [key, value] && [key, value][1..] == [value] && [value][1..] == [];
    var n1 := if n < 9 then 0 else n - 9;
    var n2 := if n1 < |FrameArg(key)| then 0 else n1 - |FrameArg(key)|;
    assert CutArgs([value], n2) == [CutArg(value, n2)] + [];
    assert CutArgs([key, value], n1) == [CutArg(key, n1)] + CutArgs([value], n2);
  }

  /** Which parts are read in full. */
  lemma FullParts(key: Bytes, value: Bytes, r: nat)
    requires Tidy(key) && Tidy(value)
    ensures CutKey(key, r) == key <==> key == [] || r >= KeyAt(key) + |key|
    ensures CutValue(key, value, r) == value <==> value == [] || r >= ValueAt(key, value) + |value|
  {
    hide TrimSpace, Itoa, Tidy;
    FullPart(key, Clamp(r - KeyAt(key), |key|));
    FullPart(value, Clamp(r - ValueAt(key, value), |value|));
  }

  lemma FullPart(x: Bytes, c: nat)
    requires Tidy(x) && c <= |x|
    ensures TrimSpace(x[..c]) == x <==> c == |x|
  {
    hide TrimSpace;
    TrimIsNotLonger(x[..c]);
    if c == |x| {
      assert x[..c] == x;
      TrimTidy(x);
    }
  }

  /** Every cut falls behind some SETs in full, into the next one. */
  lemma {:induction false} CutPoint(commands: seq<seq<Bytes>>, n: nat) returns (k: nat, r: nat)
    requires n < |Log(commands)|
    ensures k < |commands| && r < |Frame(commands[k])| && n == |Log(commands[..k])| + r
    decreases |commands|
  {
    hide Frame;
    var size := |Frame(commands[0])|;
    if n < size {
      k, r := 0, n;
    } else {
      k, r := CutPoint(commands[1..], n - size);
      assert commands[..k + 1] == [commands[0]] + commands[1..][..k];
      assert commands[..k + 1][1..] == commands[1..][..k];
      k := k + 1;
    }
  }

  /** A log of SETs cut off after n bytes: k SETs are there in full, and r bytes of the next. Replaying it gives the map
      of the k SETs as long as the name of the next is not there in full, and from then on that map with one entry
      more: from whatever is there of key and value. So the map is that of the k SETs exactly when the name is cut or
      this entry was there already, and the entry is the one that was being written exactly when every part of it that
      is not empty was written to its end. */
  lemma ReplayTruncated(st: Store, sets: seq<Command>, n: nat) returns (k: nat, r: nat)
    requires TidySets(sets) && n < |Log(AllArgs(sets))|
    ensures k < |sets| && sets[k].SetCommand?
    ensures r < |Frame(Args(sets[k]))| && n == |Log(AllArgs(sets[..k]))| + r
    ensures var replayed := Replay(st, Log(AllArgs(sets))[..n], 0);
            var whole := Memory(st.memory, sets[..k]);
            var key, value := CutKey(sets[k].key, r), CutValue(sets[k].key, sets[k].value, r);
            && replayed.timers == st.timers
            && replayed.memory == (if r < NAME_ENDS then whole else whole[key := value])
            && (replayed.memory == whole <==> r < NAME_ENDS || (key in whole && whole[key] == value))
            && ((key, value) == (sets[k].key, sets[k].value) <==>
                && (sets[k].key == [] || r >= KeyAt(sets[k].key) + |sets[k].key|)
                && (sets[k].value == [] || r >= |Frame(Args(sets[k]))| - 2))
  {
    hide Replay, Log, Frame, Memory, TrimSpace, Tidy, Itoa, ReplayCut, ApplyCut, ApplyAll, CutKey, CutValue;
    var commands := AllArgs(sets);
    k, r := CutPoint(commands, n);
    assert commands[..k] == AllArgs(sets[..k]);
    var s := Log(commands)[..n];
    assert s[0..] == s;
    TidySetsAreReadable(sets);
    ReplayPrefix(st, s, 0, commands);
    ReplayCutAt(st, commands, k, r);
    assert TidySets(sets[..k]);
    ApplySets(st, sets[..k]);
    assert sets[k] in sets;
    ApplyCutSet(ApplyAll(st, commands[..k]), sets[k].key, sets[k].value, r);
    FullParts(sets[k].key, sets[k].value, r);
    FrameEnds(sets[k].key, sets[k].value);
    SameEntry(Memory(st.memory, sets[..k]), CutKey(sets[k].key, r), CutValue(sets[k].key, sets[k].value, r));
  }

  lemma SameEntry(m: map<Bytes, Bytes>, key: Bytes, value: Bytes)
    ensures m[key := value] == m <==> key in m && m[key] == value
  {
    if m[key := value] == m {
      assert key in m[key := value];
    }
  }

  lemma FrameEnds(key: Bytes, value: Bytes)
    ensures |Frame(SetArgs(key, value))| == ValueAt(key, value) + |value| + 2
  {
    var args := SetArgs(key, value);
    assert Itoa(3) == [ZERO + 3];
    assert args[1..] == [key, value] && [key, value][1..] == [value];
    assert FrameArgs([value]) == FrameArg(value) + FrameArgs([value][1..]);
    assert FrameArgs([key, value]) == FrameArg(key) + FrameArgs([value]);
    assert FrameArgs(args) == FrameArg(SET) + FrameArgs([key, value]);
  }
}
