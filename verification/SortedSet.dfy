/** The server's sorted set: a map from names to scores, and the entries in order. */
module SortedSet {
  import opened Numbers
  import opened RespValue
  import opened Frames
  import opened Sequences

  datatype Entry = Entry(name: Bytes, score: real)

  /** Go's `<` on strings: bytewise lexicographic. */
  predicate LexLess(a: Bytes, b: Bytes) {
    if b == [] then false
    else if a == [] then true
    else a[0] < b[0] || (a[0] == b[0] && LexLess(a[1..], b[1..]))
  }

  /** By score, and by name where scores are equal. */
  predicate Less(e: Entry, f: Entry) {
    e.score < f.score || (e.score == f.score && LexLess(e.name, f.name))
  }

  /** Bytewise order: a is a proper prefix of b, or has the smaller byte where they first differ. */
  predicate ComesFirst(a: Bytes, b: Bytes) {
    || (|a| < |b| && b[..|a|] == a)
    || exists k :: 0 <= k < |a| && k < |b| && a[..k] == b[..k] && a[k] < b[k]
  }

  lemma {:induction false} LexLessIsBytewise(a: Bytes, b: Bytes)
    ensures LexLess(a, b) <==> ComesFirst(a, b)
    decreases |a|
  {
    if a != [] && b != [] {
      var x, y := a[1..], b[1..];
      LexLessIsBytewise(x, y);
      if a[0] < b[0] {
        assert a[..0] == b[..0];
      }
      if a[0] == b[0] && ComesFirst(x, y) {
        if k :| 0 <= k < |x| && k < |y| && x[..k] == y[..k] && x[k] < y[k] {
          assert a[..k + 1] == [a[0]] + x[..k] && b[..k + 1] == [b[0]] + y[..k];
          assert a[..k + 1] == b[..k + 1] && a[k + 1] < b[k + 1];
        } else {
          assert b[..|a|] == [b[0]] + y[..|x|] && a == [a[0]] + x;
        }
      }
      if ComesFirst(a, b) {
        PrefixTail(a, b);
      }
    }
  }

  lemma PrefixTail(a: Bytes, b: Bytes)
    requires a != [] && b != [] && ComesFirst(a, b)
    ensures a[0] < b[0] || (a[0] == b[0] && ComesFirst(a[1..], b[1..]))
  {
    var x, y := a[1..], b[1..];
    if |a| < |b| && b[..|a|] == a {
      assert b[0] == b[..|a|][0] && y[..|x|] == b[..|a|][1..] == x;
    } else {
      var k :| 0 <= k < |a| && k < |b| && a[..k] == b[..k] && a[k] < b[k];
      if k > 0 {
        assert a[0] == a[..k][0] == b[..k][0] == b[0];
        assert x[..k - 1] == a[..k][1..] == b[..k][1..] == y[..k - 1];
        assert x[k - 1] < y[k - 1];
      }
    }
  }

  lemma {:induction false} LexTotal(a: Bytes, b: Bytes)
    ensures LexLess(a, b) || LexLess(b, a) || a == b
    ensures !(LexLess(a, b) && LexLess(b, a)) && !LexLess(a, a)
    decreases |a|
  {
    if a != [] {
      LexTotal(a[1..], a[1..]);
      if b != [] {
        LexTotal(a[1..], b[1..]);
        if a[0] == b[0] && a[1..] == b[1..] {
          assert a == [a[0]] + a[1..] && b == [b[0]] + b[1..];
        }
      }
    }
  }

  lemma {:induction false} LexTransitive(a: Bytes, b: Bytes, c: Bytes)
    requires LexLess(a, b) && LexLess(b, c)
    ensures LexLess(a, c)
    decreases |a|
  {
    if a != [] && a[0] == b[0] && b[0] == c[0] {
      LexTransitive(a[1..], b[1..], c[1..]);
    }
  }

  lemma LessTotal(e: Entry, f: Entry)
    ensures Less(e, f) || Less(f, e) || e == f
    ensures !(Less(e, f) && Less(f, e)) && !Less(e, e)
  {
    LexTotal(e.name, f.name);
    LexTotal(e.name, e.name);
  }

  lemma LessTransitive(e: Entry, f: Entry, g: Entry)
    requires Less(e, f) && Less(f, g)
    ensures Less(e, g)
  {
    if e.score == f.score && f.score == g.score {
      LexTransitive(e.name, f.name, g.name);
    }
  }

  /** Strictly increasing. */
  predicate Sorted(order: seq<Entry>) {
    forall i, j :: 0 <= i < j < |order| ==> Less(order[i], order[j])
  }

  /** The list and the map have the same entries. */
  ghost predicate Lists(order: seq<Entry>, elements: map<Bytes, real>) {
    && (forall i :: 0 <= i < |order| ==> order[i].name in elements && elements[order[i].name] == order[i].score)
    && (forall name :: name in elements ==> Entry(name, elements[name]) in order)
  }

  ghost predicate Consistent(elements: map<Bytes, real>, order: seq<Entry>) {
    Sorted(order) && Lists(order, elements)
  }

  // ----- the map determines the list -----

  /** Order depends only on the final map, not on the history that led to it. */
  lemma {:induction false} OrderIsDetermined(elements: map<Bytes, real>, a: seq<Entry>, b: seq<Entry>)
    requires Consistent(elements, a) && Consistent(elements, b)
    ensures a == b
  {
    forall e ensures e in a <==> e in b {
      if e in a { assert elements[e.name] == e.score; }
      if e in b { assert elements[e.name] == e.score; }
    }
    SameEntriesSameList(a, b);
  }

  lemma {:induction false} SameEntriesSameList(a: seq<Entry>, b: seq<Entry>)
    requires Sorted(a) && Sorted(b) && forall e :: e in a <==> e in b
    ensures a == b
    decreases |a|
  {
    FirstIsIn(a);
    FirstIsIn(b);
    if a != [] {
      var j :| 0 <= j < |b| && b[j] == a[0];
      var i :| 0 <= i < |a| && a[i] == b[0];
      LessTotal(a[0], b[0]);
      assert a[0] == b[0];
      forall e ensures e in a[1..] <==> e in b[1..] {
        NotFirst(a, e);
        NotFirst(b, e);
      }
      SameEntriesSameList(a[1..], b[1..]);
      assert a == [a[0]] + a[1..] && b == [b[0]] + b[1..];
    }
  }

  lemma FirstIsIn(a: seq<Entry>)
    ensures a != [] ==> a[0] in a
  {
  }

  lemma NotFirst(a: seq<Entry>, e: Entry)
    requires Sorted(a) && a != []
    ensures e in a[1..] <==> e in a && e != a[0]
  {
    LessTotal(a[0], a[0]);
    if e in a && e != a[0] {
      var i :| 0 <= i < |a| && a[i] == e;
      assert a[1..][i - 1] == e;
    }
  }

  /** No name stands twice in the list. */
  lemma NamesAreDistinct(elements: map<Bytes, real>, order: seq<Entry>, i: nat, j: nat)
    requires Consistent(elements, order) && i < j < |order|
    ensures order[i].name != order[j].name
  {
    LessTotal(order[i], order[j]);
    LessTotal(order[i], order[i]);
    assert order[i] == Entry(order[i].name, elements[order[i].name]);
    assert order[j] == Entry(order[j].name, elements[order[j].name]);
  }

  // ----- the operations -----

  ghost predicate Monotone(n: nat, f: nat --> bool)
    requires forall i :: 0 <= i < n ==> f.requires(i)
  {
    forall i, j :: 0 <= i < j < n && f(i) ==> f(j)
  }

  /** Go's `sort.Search`, by binary search: a place where f begins to hold, and the least index at which it holds if it
      never ceases to hold again. */
  method Search(n: nat, f: nat --> bool) returns (index: nat)
    requires forall i :: 0 <= i < n ==> f.requires(i)
    ensures index <= n && (index < n ==> f(index)) && (index > 0 ==> !f(index - 1))
    ensures Monotone(n, f) ==> forall i :: 0 <= i < n ==> (f(i) <==> index <= i)
  {
    var i, j := 0, n;
    while i < j
      invariant 0 <= i <= j <= n
      invariant j < n ==> f(j)
      invariant i > 0 ==> !f(i - 1)
    {
      var h := (i + j) / 2;
      if !f(h) {
        i := h + 1;
      } else {
        j := h;
      }
    }
    index := i;
    if Monotone(n, f) {
      forall k | 0 <= k < n ensures f(k) <==> index <= k {
        if index > 0 {
          assert !f(index - 1);
        }
        if index < n {
          assert f(index);
        }
      }
    }
  }

  lemma RemovedAt(elements: map<Bytes, real>, order: seq<Entry>, i: nat)
    requires Consistent(elements, order) && i < |order|
    ensures Consistent(elements - {order[i].name}, order[..i] + order[i + 1..])
  {
    var shorter := order[..i] + order[i + 1..];
    forall k | 0 <= k < |shorter| ensures shorter[k].name != order[i].name {
      if k < i {
        NamesAreDistinct(elements, order, k, i);
      } else {
        NamesAreDistinct(elements, order, i, k + 1);
      }
    }
    var fewer := elements - {order[i].name};
    forall name | name in fewer ensures Entry(name, fewer[name]) in shorter {
      var k :| 0 <= k < |order| && order[k] == Entry(name, elements[name]);
      assert shorter[if k < i then k else k - 1] == order[k];
    }
  }

  lemma InsertedAt(elements: map<Bytes, real>, order: seq<Entry>, index: nat, e: Entry)
    requires Consistent(elements, order) && e.name !in elements && index <= |order|
    requires forall i :: 0 <= i < index ==> Less(order[i], e)
    requires forall i :: index <= i < |order| ==> !Less(order[i], e)
    ensures Consistent(elements[e.name := e.score], order[..index] + [e] + order[index..])
  {
    var longer := order[..index] + [e] + order[index..];
    forall i | index <= i < |order| ensures Less(e, order[i]) {
      LessTotal(order[i], e);
    }
    forall i, j | 0 <= i < j < |longer| ensures Less(longer[i], longer[j]) {
      assert longer[i] == if i < index then order[i] else if i == index then e else order[i - 1];
      assert longer[j] == if j < index then order[j] else if j == index then e else order[j - 1];
    }
    var more := elements[e.name := e.score];
    assert longer[index] == e;
    forall name | name in more ensures Entry(name, more[name]) in longer {
      if name != e.name {
        var k :| 0 <= k < |order| && order[k] == Entry(name, elements[name]);
        assert longer[if k < index then k else k + 1] == order[k];
      }
    }
  }

  // ----- the operations on values, and runs of them -----

  datatype Operation = ZAdd(name: Bytes, score: real) | ZRem(name: Bytes)

  datatype ZSet = ZSet(elements: map<Bytes, real>, order: seq<Entry>)

  function InsertSorted(order: seq<Entry>, e: Entry): seq<Entry> {
    if order == [] || !Less(order[0], e) then [e] + order
    else [order[0]] + InsertSorted(order[1..], e)
  }

  function Without(order: seq<Entry>, name: Bytes): seq<Entry> {
    if order == [] then []
    else if order[0].name == name then order[1..]
    else [order[0]] + Without(order[1..], name)
  }

  function Step(z: ZSet, op: Operation): ZSet {
    match op
    case ZAdd(name, score) => ZSet(z.elements[name := score], InsertSorted(Without(z.order, name), Entry(name, score)))
    case ZRem(name) => ZSet(z.elements - {name}, Without(z.order, name))
  }

  /** The set after a run of operations on a new key. */
  function Run(ops: seq<Operation>): ZSet
    decreases |ops|
  {
    if ops == [] then ZSet(map[], []) else Step(Run(ops[..|ops| - 1]), ops[|ops| - 1])
  }

  lemma {:induction false} InsertSortedSplits(order: seq<Entry>, e: Entry) returns (k: nat)
    requires Sorted(order)
    ensures k <= |order| && InsertSorted(order, e) == order[..k] + [e] + order[k..]
    ensures forall i :: 0 <= i < k ==> Less(order[i], e)
    ensures forall i :: k <= i < |order| ==> !Less(order[i], e)
    decreases |order|
  {
    if order == [] || !Less(order[0], e) {
      k := 0;
      forall i | 0 <= i < |order| ensures !Less(order[i], e) {
        if Less(order[i], e) && i > 0 {
          LessTransitive(order[0], order[i], e);
        }
      }
    } else {
      var m := InsertSortedSplits(order[1..], e);
      k := m + 1;
      assert order[..k] == [order[0]] + order[1..][..m] && order[k..] == order[1..][m..];
      forall i | k <= i < |order| ensures !Less(order[i], e) {
        assert order[i] == order[1..][i - 1];
      }
    }
  }

  lemma {:induction false} WithoutSplits(order: seq<Entry>, name: Bytes) returns (k: nat)
    ensures k <= |order| && forall i :: 0 <= i < k ==> order[i].name != name
    ensures if k == |order| then Without(order, name) == order
            else order[k].name == name && Without(order, name) == order[..k] + order[k + 1..]
    decreases |order|
  {
    if order == [] || order[0].name == name {
      k := 0;
    } else {
      var m := WithoutSplits(order[1..], name);
      k := m + 1;
      FirstAndRest(order, m);
    }
  }

  lemma WithoutIsConsistent(elements: map<Bytes, real>, order: seq<Entry>, name: Bytes)
    requires Consistent(elements, order)
    ensures Consistent(elements - {name}, Without(order, name))
  {
    var k := WithoutSplits(order, name);
    if name in elements {
      var i :| 0 <= i < |order| && order[i] == Entry(name, elements[name]);
      assert k <= i;
      RemovedAt(elements, order, k);
    } else {
      assert elements - {name} == elements;
    }
  }

  lemma StepIsConsistent(z: ZSet, op: Operation)
    requires Consistent(z.elements, z.order)
    ensures var z' := Step(z, op); Consistent(z'.elements, z'.order)
  {
    hide Sorted, Lists;
    WithoutIsConsistent(z.elements, z.order, op.name);
    if op.ZAdd? {
      var e := Entry(op.name, op.score);
      var without := Without(z.order, op.name);
      IsSorted(z.elements - {op.name}, without);
      var k := InsertSortedSplits(without, e);
      InsertedAt(z.elements - {op.name}, without, k, e);
      assert (z.elements - {op.name})[op.name := op.score] == z.elements[op.name := op.score];
    }
  }

  lemma IsSorted(elements: map<Bytes, real>, order: seq<Entry>)
    requires Consistent(elements, order)
    ensures Sorted(order)
  {
  }

  /** Over every run the list is strictly increasing and holds exactly the entries of the map. */
  lemma {:induction false} RunIsConsistent(ops: seq<Operation>)
    ensures Consistent(Run(ops).elements, Run(ops).order)
    decreases |ops|
  {
    if ops != [] {
      RunIsConsistent(ops[..|ops| - 1]);
      StepIsConsistent(Run(ops[..|ops| - 1]), ops[|ops| - 1]);
    }
  }

  /** Over every run the list goes by ascending score, and among equal scores by ascending bytes of the names. */
  lemma OrderIsByScoreThenName(ops: seq<Operation>, i: nat, j: nat)
    requires i < j < |Run(ops).order|
    ensures var a, b := Run(ops).order[i], Run(ops).order[j];
            a.score < b.score || (a.score == b.score && ComesFirst(a.name, b.name))
  {
    RunIsConsistent(ops);
    var a, b := Run(ops).order[i], Run(ops).order[j];
    assert Less(a, b);
    LexLessIsBytewise(a.name, b.name);
  }

  /** An implementation that keeps the invariant and gets the map right gets the list right. */
  lemma SameAsStep(z: ZSet, op: Operation, z': ZSet)
    requires Consistent(z.elements, z.order) && Consistent(z'.elements, z'.order)
    requires z'.elements == Step(z, op).elements
    ensures z' == Step(z, op)
  {
    StepIsConsistent(z, op);
    OrderIsDetermined(z'.elements, z'.order, Step(z, op).order);
  }

  /** Two histories that end with the same map end with the same list. */
  lemma HistoryDoesNotMatter(ops: seq<Operation>, ops': seq<Operation>)
    requires Run(ops).elements == Run(ops').elements
    ensures Run(ops).order == Run(ops').order
  {
    RunIsConsistent(ops);
    RunIsConsistent(ops');
    OrderIsDetermined(Run(ops).elements, Run(ops).order, Run(ops').order);
  }

  class SortedSet {
    var elements: map<Bytes, real>
    var order: seq<Entry>

    ghost predicate Valid()
      reads this
    {
      Consistent(elements, order)
    }

    ghost function Contents(): ZSet
      reads this
    {
      ZSet(elements, order)
    }

    constructor ()
      ensures Valid() && Contents() == Run([])
    {
      elements, order := map[], [];
    }

    /** ZADD and GEOADD. */
    method Add(elementKey: Bytes, score: real) returns (added: nat)
      requires Valid()
      modifies this
      ensures Valid() && Contents() == Step(old(Contents()), ZAdd(elementKey, score))
      ensures added == if elementKey in old(elements) then 0 else 1
    {
      added := 0;
      if elementKey !in elements {
        added := 1;
      } else {
        RemoveFromOrder(elementKey);
      }
      ghost var without := old(elements) - {elementKey};
      assert elementKey !in old(elements) ==> without == old(elements);
      assert Consistent(without, order);
      elements := elements[elementKey := score];

      var e := Entry(elementKey, score);
      var o := order;
      var index := InsertionPoint(o, e);
      InsertedAt(without, o, index, e);
      InsertAt(index, e);
      assert without[elementKey := score] == elements;
      SameAsStep(old(Contents()), ZAdd(elementKey, score), Contents());
    }

    /** Makes room by appending an empty slot and shifting, then fills the slot. */
    method InsertAt(index: nat, e: Entry)
      requires index <= |order|
      modifies this`order
      ensures order == old(order)[..index] + [e] + old(order)[index..]
    {
      order := order + [Entry([], 0.0)];
      order := order[..index + 1] + order[index..|order| - 1];
      order := order[index := e];
    }

    /** The loop that ZADD and ZREM share: finds the name in the list and closes the gap it leaves. */
    method RemoveFromOrder(elementKey: Bytes)
      requires Valid() && elementKey in elements
      modifies this`order
      ensures Consistent(elements - {elementKey}, order)
    {
      ghost var at: nat :| at < |order| && order[at] == Entry(elementKey, elements[elementKey]);
      for i := 0 to |order|
        invariant order == old(order) && i <= at
      {
        if order[i].name == elementKey {
          RemovedAt(elements, order, i);
          order := order[..i] + order[i + 1..];
          return;
        }
      }
    }

    method Remove(elementKey: Bytes) returns (removed: nat)
      requires Valid()
      modifies this
      ensures Valid() && Contents() == Step(old(Contents()), ZRem(elementKey))
      ensures removed == if elementKey in old(elements) then 1 else 0
    {
      if elementKey !in elements {
        assert elements - {elementKey} == elements;
        SameAsStep(Contents(), ZRem(elementKey), Contents());
        return 0;
      }
      RemoveFromOrder(elementKey);
      elements := elements - {elementKey};
      removed := 1;
      SameAsStep(old(Contents()), ZRem(elementKey), Contents());
    }

    /** ZRANK: the number of members below this one. */
    method Rank(elementKey: Bytes) returns (rank: Option<nat>)
      requires Valid()
      ensures rank == if elementKey in elements then Some(|Below(elements, elementKey)|) else None
    {
      rank := None;
      if elementKey !in elements {
        return;
      }
      ghost var at: nat :| at < |order| && order[at] == Entry(elementKey, elements[elementKey]);
      for i := 0 to |order|
        invariant i <= at
      {
        if order[i].name == elementKey {
          BelowIsPrefix(elements, order, i);
          return Some(i);
        }
      }
    }

    /** ZRANGE: the reply is the frame of the names between the two bounds; negative bounds count from the end. */
    method Range(start: int, stop: int) returns (response: Bytes)
      requires Valid()
      ensures response == Frame(NamesBetween(order, start, stop))
    {
      ListHasMapSize(elements, order);
      response := ReplyBetween(start, stop);
    }

    /** ZRANGE computes its bounds from the size of the map and indexes the list with them. */
    method ReplyBetween(start: int, stop: int) returns (response: Bytes)
      requires |order| == |elements|
      ensures response == Frame(NamesBetween(order, start, stop))
    {
      NoNames();
      hide Frame, Consistent, Names, NamesBetween;
      var index1, index2 := start, stop;
      if index1 < 0 {
        index1 := Max(0, |elements| + index1);
      }
      if index2 < 0 {
        index2 := Max(0, |elements| + index2);
      }
      RangeOf(order, start, stop, index1, index2);
      if index1 >= |elements| || index1 > index2 {
        return [ARRAY_MARK, ZERO, CR, LF];
      }
      index2 := Min(index2, |elements| - 1);
      assert NamesBetween(order, start, stop) == Names(order)[index1..index2 + 1];
      response := PrintRange(index1, index2);
    }

    method PrintRange(index1: nat, index2: nat) returns (response: Bytes)
      requires index1 <= index2 < |order|
      ensures response == Frame(Names(order)[index1..index2 + 1])
    {
      hide Itoa, FrameArgs;
      EmptyArgs();
      response := [ARRAY_MARK] + Itoa(index2 - index1 + 1) + CRLF;
      ghost var names := Names(order)[index1..index2 + 1];
      for i := index1 to index2 + 1
        invariant response == [ARRAY_MARK] + Itoa(|names|) + CRLF + FrameArgs(names[..i - index1])
      {
        FrameArgsAppend(names[..i - index1], order[i].name);
        assert names[i - index1] == order[i].name;
        assert names[..i + 1 - index1] == names[..i - index1] + [order[i].name];
        response := response + ([BULK_MARK] + Itoa(|order[i].name|) + CRLF + order[i].name + CRLF);
      }
      assert names[..|names|] == names;
    }

    /** ZCARD. */
    method Size() returns (n: nat)
      requires Valid()
      ensures n == |elements| == |order|
    {
      ListHasMapSize(elements, order);
      n := |elements|;
    }
  }

  /** The search condition of `AddToSortedSet`. */
  predicate AtOrAfter(member: Entry, e: Entry) {
    if member.score == e.score then !LexLess(member.name, e.name) else member.score > e.score
  }

  lemma SearchIsMonotone(order: seq<Entry>, e: Entry)
    requires Sorted(order)
    ensures forall i, j :: 0 <= i < j < |order| && AtOrAfter(order[i], e) ==> AtOrAfter(order[j], e)
  {
    forall i, j | 0 <= i < j < |order| && AtOrAfter(order[i], e) ensures AtOrAfter(order[j], e) {
      if Less(order[j], e) {
        LessTransitive(order[i], order[j], e);
      }
    }
  }

  /** Where `AddToSortedSet` inserts. */
  method InsertionPoint(order: seq<Entry>, e: Entry) returns (index: nat)
    requires Sorted(order)
    ensures index <= |order|
    ensures forall i :: 0 <= i < |order| ==> (Less(order[i], e) <==> i < index)
  {
    var f := (i: nat) requires i < |order| => AtOrAfter(order[i], e);
    SearchIsMonotone(order, e);
    hide Sorted;
    index := Search(|order|, f);
    assert Monotone(|order|, f);
    forall i | 0 <= i < |order| ensures Less(order[i], e) <==> i < index {
      assert f(i) == !Less(order[i], e);
    }
  }

  /** Names of the members smaller than the given one. */
  function Below(elements: map<Bytes, real>, name: Bytes): set<Bytes>
    requires name in elements
  {
    set other | other in elements && Less(Entry(other, elements[other]), Entry(name, elements[name]))
  }

  function Names(order: seq<Entry>): (names: seq<Bytes>)
    ensures |names| == |order|
  {
    seq(|order|, i requires 0 <= i < |order| => order[i].name)
  }

  lemma BelowIsPrefix(elements: map<Bytes, real>, order: seq<Entry>, i: nat)
    requires Consistent(elements, order) && i < |order|
    ensures |Below(elements, order[i].name)| == i
  {
    var names := Names(order[..i]);
    forall other | other in Below(elements, order[i].name) ensures other in names {
      var k :| 0 <= k < |order| && order[k] == Entry(other, elements[other]);
      LessTotal(order[i], order[k]);
      assert k < i;
      assert names[k] == other;
    }
    assert Below(elements, order[i].name) == set n | n in names;
    forall j, k | 0 <= j < k < |names| ensures names[j] != names[k] {
      NamesAreDistinct(elements, order, j, k);
    }
    DistinctCount(names);
  }

  lemma {:induction false} DistinctCount(names: seq<Bytes>)
    requires forall j, k :: 0 <= j < k < |names| ==> names[j] != names[k]
    ensures |set n | n in names| == |names|
    decreases |names|
  {
    if names != [] {
      var last := |names| - 1;
      DistinctCount(names[..last]);
      assert (set n | n in names) == (set n | n in names[..last]) + {names[last]};
    }
  }

  lemma ListHasMapSize(elements: map<Bytes, real>, order: seq<Entry>)
    requires Consistent(elements, order)
    ensures |order| == |elements|
  {
    var names := Names(order);
    forall j, k | 0 <= j < k < |names| ensures names[j] != names[k] {
      NamesAreDistinct(elements, order, j, k);
    }
    DistinctCount(names);
    forall name | name in elements ensures name in names {
      var k :| 0 <= k < |order| && order[k] == Entry(name, elements[name]);
      assert names[k] == name;
    }
    assert elements.Keys == set n | n in names;
  }

  function Max(a: int, b: int): int { if a > b then a else b }

  function Min(a: int, b: int): int { if a < b then a else b }

  /** The names at the indices i with start <= i <= stop, where a negative bound counts from the end. */
  function NamesBetween(order: seq<Entry>, start: int, stop: int): seq<Bytes> {
    var n := |order|;
    var lo := if start >= 0 then start else Max(0, n + start);
    var hi := if stop >= 0 then stop else Max(0, n + stop);
    var end := Min(hi + 1, n);
    if lo < end then Names(order)[lo..end] else []
  }

  /** ZRANK and ZRANGE agree: asking for the one index that is a member's rank gives that member. */
  lemma RankIsRangeIndex(elements: map<Bytes, real>, order: seq<Entry>, name: Bytes)
    requires Consistent(elements, order) && name in elements
    ensures var rank := |Below(elements, name)|; NamesBetween(order, rank, rank) == [name]
  {
    var i :| 0 <= i < |order| && order[i] == Entry(name, elements[name]);
    BelowIsPrefix(elements, order, i);
    assert Names(order)[i..i + 1] == [order[i].name];
  }

  /** Index i is between the bounds: a negative bound counts from the end, and one before the first index is 0. */
  predicate IsBetween(i: nat, n: nat, start: int, stop: int) {
    && (if start >= 0 then i >= start else i >= n + start)
    && (if stop >= 0 then i <= stop else if n + stop < 0 then i == 0 else i <= n + stop)
  }

  /** Exactly the entries at the indices between the bounds are sent, in order. */
  lemma RangeSelects(order: seq<Entry>, start: int, stop: int) returns (first: nat)
    ensures var names := NamesBetween(order, start, stop);
            && first + |names| <= |order|
            && (forall k :: 0 <= k < |names| ==> names[k] == order[first + k].name)
            && (forall i :: 0 <= i < |order| ==> (IsBetween(i, |order|, start, stop) <==> first <= i < first + |names|))
  {
    var n := |order|;
    var names := NamesBetween(order, start, stop);
    first := if names == [] then 0 else if start >= 0 then start else if n + start < 0 then 0 else n + start;
  }

  /** A negative bound means the same as its distance from the end. */
  lemma NegativeBounds(order: seq<Entry>, start: int, stop: int)
    ensures -|order| <= start < 0 ==> NamesBetween(order, start, stop) == NamesBetween(order, |order| + start, stop)
    ensures -|order| <= stop < 0 ==> NamesBetween(order, start, stop) == NamesBetween(order, start, |order| + stop)
    ensures start < -|order| ==> NamesBetween(order, start, stop) == NamesBetween(order, 0, stop)
    ensures stop < -|order| ==> NamesBetween(order, start, stop) == NamesBetween(order, start, 0)
  {
  }

  /** From 0 to -1 is everything. */
  lemma WholeRange(order: seq<Entry>)
    ensures NamesBetween(order, 0, -1) == Names(order)
  {
    var first := RangeSelects(order, 0, -1);
    assert |order| > 0 ==> IsBetween(0, |order|, 0, -1) && IsBetween(|order| - 1, |order|, 0, -1);
  }

  lemma RangeOf(order: seq<Entry>, start: int, stop: int, lo: int, hi: int)
    requires lo == if start >= 0 then start else Max(0, |order| + start)
    requires hi == if stop >= 0 then stop else Max(0, |order| + stop)
    ensures lo >= |order| || lo > hi ==> NamesBetween(order, start, stop) == []
    ensures lo < |order| && lo <= hi ==> NamesBetween(order, start, stop) == Names(order)[lo..Min(hi, |order| - 1) + 1]
  {
  }

  lemma EmptyArgs()
    ensures FrameArgs([]) == []
  {
  }

  lemma NoNames()
    ensures Frame([]) == [ARRAY_MARK, ZERO, CR, LF]
  {
  }
}
