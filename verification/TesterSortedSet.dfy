/** The tester's sorted set: append, then sort. The server's set must agree with it. */
module TesterSortedSet {
  import opened Numbers
  import opened SortedSet

  /** In order, repetitions allowed. */
  predicate Ordered(members: seq<Entry>) {
    forall i, j :: 0 <= i < j < |members| ==> !Less(members[j], members[i])
  }

  /** What sorting returns. `SortIsUnique` shows that this leaves no choice. */
  ghost predicate IsSortOf(result: seq<Entry>, members: seq<Entry>) {
    Ordered(result) && multiset(result) == multiset(members)
  }

  lemma FirstIsLeast(a: seq<Entry>, e: Entry)
    requires Ordered(a) && e in multiset(a)
    ensures !Less(e, a[0]) && Ordered(a[1..])
    ensures multiset(a[1..]) == multiset(a) - multiset{a[0]}
  {
    var i :| 0 <= i < |a| && a[i] == e;
    LessTotal(e, e);
    assert a == [a[0]] + a[1..];
  }

  lemma {:induction false} SortIsUnique(a: seq<Entry>, b: seq<Entry>)
    requires Ordered(a) && Ordered(b) && multiset(a) == multiset(b)
    ensures a == b
    decreases |a|
  {
    hide Ordered, Less;
    assert |a| == |multiset(a)| == |multiset(b)| == |b|;
    if a != [] {
      FirstIsLeast(a, b[0]);
      FirstIsLeast(b, a[0]);
      LessTotal(a[0], b[0]);
      SortIsUnique(a[1..], b[1..]);
      assert a == [a[0]] + a[1..] && b == [b[0]] + b[1..];
    }
  }

  class TesterSortedSet {
    var members: seq<Entry>

    constructor ()
      ensures members == []
    {
      members := [];
    }

    method AddMember(m: Entry)
      modifies this
      ensures IsSortOf(members, old(members) + [m])
    {
      members := members + [m];
      Sort();
    }

    /** Stands for `sort.Slice`. */
    method Sort()
      modifies this
      ensures IsSortOf(members, old(members))
    {
      var sorted: seq<Entry> := [];
      for i := 0 to |members|
        invariant members == old(members)
        invariant IsSortOf(sorted, members[..i])
      {
        assert members[..i + 1] == members[..i] + [members[i]];
        sorted := Place(sorted, members[i]);
      }
      assert members[..|members|] == members;
      members := sorted;
    }

    method RemoveMember(name: Bytes)
      modifies this
      ensures members == Without(old(members), name)
    {
      ghost var k := WithoutSplits(members, name);
      for i := 0 to |members|
        invariant members == old(members) && i <= k
      {
        if members[i].name == name {
          members := members[..i] + members[i + 1..];
          return;
        }
      }
    }
  }

  method Place(sorted: seq<Entry>, e: Entry) returns (result: seq<Entry>)
    requires Ordered(sorted)
    ensures IsSortOf(result, sorted + [e])
  {
    var k := |sorted|;
    while k > 0 && Less(e, sorted[k - 1])
      invariant 0 <= k <= |sorted|
      invariant forall i :: k <= i < |sorted| ==> Less(e, sorted[i])
    {
      k := k - 1;
    }
    result := sorted[..k] + [e] + sorted[k..];
    Placed(sorted, k, e);
  }

  lemma Placed(sorted: seq<Entry>, k: nat, e: Entry)
    requires Ordered(sorted) && k <= |sorted|
    requires forall i :: k <= i < |sorted| ==> Less(e, sorted[i])
    requires k > 0 ==> !Less(e, sorted[k - 1])
    ensures IsSortOf(sorted[..k] + [e] + sorted[k..], sorted + [e])
  {
    hide Less, Ordered;
    var result := sorted[..k] + [e] + sorted[k..];
    assert multiset(result) == multiset(sorted + [e]) by { assert sorted == sorted[..k] + sorted[k..]; }
    forall i | 0 <= i < k ensures !Less(e, sorted[i]) {
      NotBefore(sorted, k, e, i);
    }
    forall i | k <= i < |sorted| ensures !Less(sorted[i], e) {
      LessTotal(e, sorted[i]);
    }
    PlacedIsOrdered(sorted, k, e);
  }

  lemma PlacedIsOrdered(sorted: seq<Entry>, k: nat, e: Entry)
    requires Ordered(sorted) && k <= |sorted|
    requires forall i :: 0 <= i < k ==> !Less(e, sorted[i])
    requires forall i :: k <= i < |sorted| ==> !Less(sorted[i], e)
    ensures Ordered(sorted[..k] + [e] + sorted[k..])
  {
    hide Less;
    var result := sorted[..k] + [e] + sorted[k..];
    forall i, j | 0 <= i < j < |result| ensures !Less(result[j], result[i]) {
      assert result[i] == if i < k then sorted[i] else if i == k then e else sorted[i - 1];
      assert result[j] == if j < k then sorted[j] else if j == k then e else sorted[j - 1];
    }
  }

  lemma NotBefore(sorted: seq<Entry>, k: nat, e: Entry, i: nat)
    requires Ordered(sorted) && i < k <= |sorted| && !Less(e, sorted[k - 1])
    ensures !Less(e, sorted[i])
  {
    LessTotal(sorted[i], sorted[k - 1]);
    if Less(e, sorted[i]) && Less(sorted[i], sorted[k - 1]) {
      LessTransitive(e, sorted[i], sorted[k - 1]);
    }
  }

  // ----- agreement -----

  predicate DistinctNames(es: seq<Entry>) {
    forall i, j :: 0 <= i < j < |es| ==> es[i].name != es[j].name
  }

  ghost predicate Enumerates(es: seq<Entry>, elements: map<Bytes, real>) {
    && DistinctNames(es)
    && (forall e :: e in es ==> e.name in elements && elements[e.name] == e.score)
    && (forall name :: name in elements ==> Entry(name, elements[name]) in es)
  }

  lemma {:induction false} CountOfDistinct(es: seq<Entry>, e: Entry)
    requires DistinctNames(es)
    ensures multiset(es)[e] == if e in es then 1 else 0
    decreases |es|
  {
    if es != [] {
      CountOfDistinct(es[1..], e);
      assert es == [es[0]] + es[1..];
    }
  }

  /** However the members of a map are listed, appending them and sorting gives the server's list. */
  lemma AppendThenSort(elements: map<Bytes, real>, order: seq<Entry>, es: seq<Entry>, result: seq<Entry>)
    requires Consistent(elements, order) && Enumerates(es, elements) && IsSortOf(result, es)
    ensures result == order
  {
    forall i, j | 0 <= i < j < |order| ensures order[i].name != order[j].name {
      NamesAreDistinct(elements, order, i, j);
    }
    forall e: Entry ensures multiset(es)[e] == multiset(order)[e] {
      CountOfDistinct(es, e);
      CountOfDistinct(order, e);
      if e in es { assert Entry(e.name, elements[e.name]) in order; }
      if e in order { assert Entry(e.name, elements[e.name]) in es; }
    }
    assert multiset(es) == multiset(order);
    forall i, j | 0 <= i < j < |order| ensures !Less(order[j], order[i]) {
      LessTotal(order[i], order[j]);
    }
    SortIsUnique(result, order);
  }

  /** Adding a member to both keeps them equal exactly when the name is new: the tester keeps the old entry too. */
  lemma AddAgrees(z: ZSet, e: Entry, members: seq<Entry>)
    requires Consistent(z.elements, z.order) && IsSortOf(members, z.order + [e])
    ensures members == Step(z, ZAdd(e.name, e.score)).order <==> e.name !in z.elements
  {
    var z' := Step(z, ZAdd(e.name, e.score));
    StepIsConsistent(z, ZAdd(e.name, e.score));
    if e.name in z.elements {
      ListHasMapSize(z.elements, z.order);
      ListHasMapSize(z'.elements, z'.order);
      assert z'.elements.Keys == z.elements.Keys;
      assert |z'.order| == |z.order|;
      assert |members| == |multiset(members)| == |z.order| + 1;
    } else {
      var es := z.order + [e];
      forall i, j | 0 <= i < j < |es| ensures es[i].name != es[j].name {
        if j < |z.order| {
          NamesAreDistinct(z.elements, z.order, i, j);
        }
      }
      forall name | name in z'.elements ensures Entry(name, z'.elements[name]) in es {
        if name != e.name {
          assert Entry(name, z.elements[name]) in z.order;
        } else {
          assert es[|z.order|] == e;
        }
      }
      AppendThenSort(z'.elements, z'.order, es, members);
    }
  }

  /** Additions are of names not in the set at that moment. */
  predicate FreshAdds(ops: seq<Operation>)
    decreases |ops|
  {
    ops == [] ||
    (var n := |ops| - 1;
     FreshAdds(ops[..n]) && (ops[n].ZAdd? ==> ops[n].name !in Run(ops[..n]).elements))
  }

  ghost predicate TesterStep(before: seq<Entry>, op: Operation, after: seq<Entry>) {
    match op
    case ZAdd(name, score) => IsSortOf(after, before + [Entry(name, score)])
    case ZRem(name) => after == Without(before, name)
  }

  /** The tester's list after the same operations. */
  ghost predicate TesterReaches(ops: seq<Operation>, members: seq<Entry>)
    decreases |ops|
  {
    if ops == [] then members == [] else
    var n := |ops| - 1;
    exists before :: TesterReaches(ops[..n], before) && TesterStep(before, ops[n], members)
  }

  /** Every history of additions of new names and of removals leaves tester and server with the same list. */
  lemma {:induction false} HistoriesAgree(ops: seq<Operation>, members: seq<Entry>)
    requires FreshAdds(ops) && TesterReaches(ops, members)
    ensures members == Run(ops).order
    decreases |ops|
  {
    if ops != [] {
      var n := |ops| - 1;
      var before :| TesterReaches(ops[..n], before) && TesterStep(before, ops[n], members);
      HistoriesAgree(ops[..n], before);
      RunIsConsistent(ops[..n]);
      if ops[n].ZAdd? {
        AddAgrees(Run(ops[..n]), Entry(ops[n].name, ops[n].score), members);
      }
    }
  }
}
