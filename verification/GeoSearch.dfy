/** GEOADD, GEOPOS and GEOSEARCH over the sorted set. */
module GeoSearch {
  import opened Numbers
  import opened Frames
  import opened Words
  import opened Morton
  import opened Geocoding
  import opened NineBox
  import S = SortedSet

  /** The handler's outcomes: how many members were new, or which coordinate it refused. */
  datatype Added = Added(count: nat) | InvalidLongitude | InvalidLatitude

  method HandleGeoAdd(locations: S.SortedSet, longitude: real, latitude: real, member: Bytes) returns (result: Added)
    requires locations.Valid()
    modifies locations
    ensures locations.Valid()
    ensures result.InvalidLongitude? <==> !(MIN_LONGITUDE <= longitude <= MAX_LONGITUDE)
    ensures result.Added? <==> IsValidPair(Coordinates(latitude, longitude))
    ensures result.Added? ==>
              && Encodable(Coordinates(latitude, longitude))
              && Value(Encode(Coordinates(latitude, longitude))) < 0x40_0000_0000_0000
              && result.count == (if member in old(locations.elements) then 0 else 1)
              && locations.Contents() ==
                 S.Step(old(locations.Contents()),
                    S.ZAdd(member, StoredScore(Encode(Coordinates(latitude, longitude)))))
    ensures !result.Added? ==> locations.Contents() == old(locations.Contents())
  {
    if longitude < MIN_LONGITUDE || longitude > MAX_LONGITUDE {
      return InvalidLongitude;
    }
    if latitude < MIN_LATITUDE || latitude > MAX_LATITUDE {
      return InvalidLatitude;
    }
    CodeSize(Coordinates(latitude, longitude));
    var score := Encode(Coordinates(latitude, longitude));
    var count := locations.Add(member, StoredScore(score));
    result := Added(count);
  }

  // ----- scores as codes -----

  /** The scores for which Go defines the conversion to `uint64`. */
  predicate IsCode(score: real) { 0.0 <= score < 18446744073709551616.0 }

  /** The machine's conversion follows Go where Go defines it; on other scores it does what it likes. */
  ghost predicate Converts64(code: real -> Uint64) {
    forall score :: IsCode(score) ==> code(score) == ToUint64(score)
  }

  /** The score that GEOADD stores for a position. */
  predicate IsScoreOf(score: real, c: Coordinates) {
    && IsValidPair(c) && Encodable(c)
    && Value(Encode(c)) < 0x40_0000_0000_0000
    && score == StoredScore(Encode(c))
  }

  /** GEOPOS for one member. Whatever set its score, the answer is the centre of the cell whose numbers the score
      interleaves. So for every position at which GEOADD can have stored it, the answer is the centre of that
      position's cell if and only if the position is not on the 180th meridian in an odd latitude cell. */
  method Position(locations: S.SortedSet, member: Bytes, code: real -> Uint64) returns (position: Option<Coordinates>)
    requires Converts64(code)
    ensures position.None? <==> member !in locations.elements
    ensures forall x: Uint32, y: Uint32 ::
              member in locations.elements && IsCode(locations.elements[member]) &&
              Value(Interleave(x, y)) == locations.elements[member].Floor ==>
              position == Some(CellCenter(x, y))
    ensures forall c ::
              member in locations.elements && IsScoreOf(locations.elements[member], c) ==>
              (position == Some(Decode(Encode(c))) <==>
               c.longitude < MAX_LONGITUDE || NormalizedLatitude(c.latitude).Floor % 2 == 0)
  {
    if member !in locations.elements {
      return None;
    }
    var score := locations.elements[member];
    position := Some(Decode(code(score)));
    forall x: Uint32, y: Uint32 | IsCode(score) && Value(Interleave(x, y)) == score.Floor
      ensures position == Some(CellCenter(x, y))
    {
      CellOfCode(score, x, y);
    }
    forall c | IsScoreOf(score, c)
      ensures position == Some(Decode(Encode(c))) <==>
              c.longitude < MAX_LONGITUDE || NormalizedLatitude(c.latitude).Floor % 2 == 0
    {
      hide Decode, Encode, StoredScore, ToUint64, NormalizedLatitude, Value;
      GeoPosReadsWhatGeoAddStored(c);
    }
  }

  lemma CellOfCode(score: real, x: Uint32, y: Uint32)
    requires IsCode(score) && Value(Interleave(x, y)) == score.Floor
    ensures Decode(ToUint64(score)) == CellCenter(x, y)
  {
    hide Value, Interleave, Even, OddPlaces, CellCenter;
    ValueOrder(ToUint64(score), Interleave(x, y));
    EvenOfInterleave(x, y);
    OddOfInterleave(x, y);
  }

  /** GEOADD then GEOPOS: the member's cell is read back, and so at most half a cell is lost, exactly when the position
      is not on the 180th meridian in an odd latitude cell. */
  lemma PositionAfterAdd(z: S.ZSet, c: Coordinates, member: Bytes, code: real -> Uint64)
    requires IsValidPair(c) && Converts64(code)
    ensures Encodable(c) && Value(Encode(c)) < 0x40_0000_0000_0000
    ensures var z' := S.Step(z, S.ZAdd(member, StoredScore(Encode(c))));
            && member in z'.elements
            && (Decode(code(z'.elements[member])) == Decode(Encode(c)) <==>
                c.longitude < MAX_LONGITUDE || NormalizedLatitude(c.latitude).Floor % 2 == 0)
  {
    hide Decode, Encode, StoredScore, ToUint64, NormalizedLatitude, Value;
    GeoPosReadsWhatGeoAddStored(c);
  }

  // ----- searching -----

  /** Every score is one for which Go defines the conversion. */
  predicate HasCodes(elements: map<Bytes, real>) {
    forall name :: name in elements ==> IsCode(elements[name])
  }

  predicate OrderHasCodes(order: seq<S.Entry>) {
    forall i :: 0 <= i < |order| ==> IsCode(order[i].score)
  }

  /** The members the linear scan reports: those whose decoded position is near. */
  function LinearScan(elements: map<Bytes, real>, code: real -> Uint64, near: Coordinates -> bool): set<Bytes> {
    set name | name in elements && near(Decode(code(elements[name])))
  }

  /** The members reported when only codes in the ranges are looked at. */
  function RangeScan(elements: map<Bytes, real>, code: real -> Uint64, near: Coordinates -> bool,
      ranges: seq<ScoreRange>): set<Bytes>
  {
    set name | name in LinearScan(elements, code, near) && InRanges(ranges, code(elements[name]))
  }

  /** Codes are ordered as scores are. */
  lemma CodesAreOrdered(order: seq<S.Entry>, code: real -> Uint64, i: nat, j: nat)
    requires S.Sorted(order) && OrderHasCodes(order) && Converts64(code) && i <= j < |order|
    ensures !Less(code(order[j].score), code(order[i].score))
  {
    hide Less, Value;
    assert IsCode(order[i].score) && IsCode(order[j].score);
    assert i < j ==> S.Less(order[i], order[j]);
    ValueOrderLess(ToUint64(order[j].score), ToUint64(order[i].score));
  }

  lemma OrderInherits(elements: map<Bytes, real>, order: seq<S.Entry>)
    requires S.Consistent(elements, order)
    ensures S.Sorted(order) && (HasCodes(elements) ==> OrderHasCodes(order))
  {
  }

  /** Names of the entries from lo up to hi that are near. */
  function NearNames(
    order: seq<S.Entry>, code: real -> Uint64, lo: nat, hi: nat, near: Coordinates -> bool): set<Bytes>
    requires lo <= hi <= |order|
  {
    set i | lo <= i < hi && near(Decode(code(order[i].score))) :: order[i].name
  }

  /** Names of the near entries whose codes lie in the range. */
  function Hits(order: seq<S.Entry>, code: real -> Uint64, r: ScoreRange, near: Coordinates -> bool): set<Bytes> {
    set i | 0 <= i < |order| && Holds(r, code(order[i].score)) && near(Decode(code(order[i].score))) :: order[i].name
  }

  /** One range: binary search for its start, then a scan to its end. Whatever the scores, only near members are added;
      if every score is a code, all those in the range are. */
  method ScanRange(order: seq<S.Entry>, code: real -> Uint64, r: ScoreRange, near: Coordinates -> bool,
      matching: set<Bytes>)
    returns (more: set<Bytes>)
    requires S.Sorted(order) && Converts64(code)
    ensures matching <= more <= matching + NearNames(order, code, 0, |order|, near)
    ensures OrderHasCodes(order) ==> more == matching + Hits(order, code, r, near)
  {
    hide Less, ToUint64, Decode, S.Sorted, NearNames, Hits, Converts64, OrderHasCodes;
    var startIndex := RangeStart(order, code, r.min);
    more := matching;
    NoneNear(order, code, startIndex, near);
    var i := startIndex;
    while i < |order|
      invariant startIndex <= i <= |order|
      invariant forall k :: startIndex <= k < i ==> !Less(r.max, code(order[k].score))
      invariant more == matching + NearNames(order, code, startIndex, i, near)
    {
      var scoreUint := code(order[i].score);
      if Less(r.max, scoreUint) {
        break;
      }
      var coords := Decode(scoreUint);
      OneMoreNear(order, code, startIndex, i, near);
      if near(coords) {
        more := more + {order[i].name};
      }
      i := i + 1;
    }
    SomeNear(order, code, startIndex, i, near);
    if OrderHasCodes(order) {
      if i < |order| {
        BeyondEnd(order, code, r.max, i);
      }
      HitsAreNear(order, code, r, near, startIndex, i);
    }
  }

  /** The binary search for the first entry whose code is not below min. */
  method RangeStart(order: seq<S.Entry>, code: real -> Uint64, min: Uint64) returns (startIndex: nat)
    requires S.Sorted(order) && Converts64(code)
    ensures startIndex <= |order|
    ensures OrderHasCodes(order) ==>
              forall k :: 0 <= k < |order| ==> (Less(code(order[k].score), min) <==> k < startIndex)
  {
    hide Less, ToUint64, S.Sorted, Converts64, OrderHasCodes;
    var f := (i: nat) requires i < |order| => !Less(code(order[i].score), min);
    startIndex := S.Search(|order|, f);
    if OrderHasCodes(order) {
      SearchConditionHolds(order, code, min);
      assert S.Monotone(|order|, f);
      forall k | 0 <= k < |order| ensures Less(code(order[k].score), min) <==> k < startIndex {
        assert f(k) <==> startIndex <= k;
      }
    }
  }

  lemma NoneNear(order: seq<S.Entry>, code: real -> Uint64, lo: nat, near: Coordinates -> bool)
    requires lo <= |order|
    ensures NearNames(order, code, lo, lo, near) == {}
  {
  }

  lemma SomeNear(order: seq<S.Entry>, code: real -> Uint64, lo: nat, hi: nat, near: Coordinates -> bool)
    requires lo <= hi <= |order|
    ensures NearNames(order, code, lo, hi, near) <= NearNames(order, code, 0, |order|, near)
  {
    hide Decode;
  }

  lemma OneMoreNear(order: seq<S.Entry>, code: real -> Uint64, lo: nat, hi: nat, near: Coordinates -> bool)
    requires lo <= hi < |order|
    ensures NearNames(order, code, lo, hi + 1, near) ==
            NearNames(order, code, lo, hi, near) +
            (if near(Decode(code(order[hi].score))) then {order[hi].name} else {})
  {
    hide Decode;
  }

  lemma HitsAreNear(order: seq<S.Entry>, code: real -> Uint64, r: ScoreRange, near: Coordinates -> bool,
      lo: nat, hi: nat)
    requires lo <= hi <= |order|
    requires forall k :: 0 <= k < |order| ==> (Less(code(order[k].score), r.min) <==> k < lo)
    requires forall k :: lo <= k < hi ==> !Less(r.max, code(order[k].score))
    requires forall k :: hi <= k < |order| ==> Less(r.max, code(order[k].score))
    ensures Hits(order, code, r, near) == NearNames(order, code, lo, hi, near)
  {
    hide Decode, Less;
  }

  lemma SearchConditionHolds(order: seq<S.Entry>, code: real -> Uint64, min: Uint64)
    requires S.Sorted(order) && OrderHasCodes(order) && Converts64(code)
    ensures forall i: nat, j: nat :: i < j < |order| && !Less(code(order[i].score), min) ==>
              !Less(code(order[j].score), min)
  {
    hide Less, Converts64;
    forall i: nat, j: nat | i < j < |order| && !Less(code(order[i].score), min)
      ensures !Less(code(order[j].score), min)
    {
      CodesAreOrdered(order, code, i, j);
      NotLessTransitive(code(order[j].score), code(order[i].score), min);
    }
  }

  lemma NotLessTransitive(a: Uint64, b: Uint64, c: Uint64)
    requires !Less(a, b) && !Less(b, c)
    ensures !Less(a, c)
  {
    hide Less, Value;
    ValueOrderLess(a, b);
    ValueOrderLess(b, c);
    ValueOrderLess(a, c);
  }

  lemma BeyondEnd(order: seq<S.Entry>, code: real -> Uint64, max: Uint64, i: nat)
    requires S.Sorted(order) && OrderHasCodes(order) && Converts64(code)
    requires i < |order| && Less(max, code(order[i].score))
    ensures forall k :: i <= k < |order| ==> Less(max, code(order[k].score))
  {
    hide Less, Converts64;
    forall k | i <= k < |order| ensures Less(max, code(order[k].score)) {
      CodesAreOrdered(order, code, i, k);
      ValueOrderLess(code(order[k].score), code(order[i].score));
      ValueOrderLess(max, code(order[i].score));
      ValueOrderLess(max, code(order[k].score));
    }
  }

  /** GEOSEARCH. Whatever scores and centre, and however the machine converts them, it reports only members that the
      linear scan would report. If every score is a code, it reports exactly those of them that lie in the ranges. */
  method HandleGeoSearch(locations: S.SortedSet, center: Coordinates, largeEnough: nat -> bool,
      near: Coordinates -> bool, code: real -> Uint64, toUint32: real -> Uint32)
    returns (matching: set<Bytes>)
    requires locations.Valid() && Converts64(code)
    ensures matching <= LinearScan(locations.elements, code, near)
    ensures HasCodes(locations.elements) ==>
              matching == RangeScan(locations.elements, code, near,
                                    NineBoxes(Locate(center, toUint32), Depth(largeEnough, 26)))
  {
    hide Holds, Decode, NineBoxes, Depth, Locate, Converts64, NearNames, LinearScan, RangeScan;
    var ranges := Get9BoxRanges(center, largeEnough, toUint32);
    OrderInherits(locations.elements, locations.order);
    AllNear(locations.elements, locations.order, code, near);
    NothingIn(locations.elements, code, near);
    matching := {};
    for k := 0 to |ranges|
      invariant matching <= LinearScan(locations.elements, code, near)
      invariant HasCodes(locations.elements) ==>
                  matching == RangeScan(locations.elements, code, near, ranges[..k])
    {
      var more := ScanRange(locations.order, code, ranges[k], near, matching);
      if HasCodes(locations.elements) {
        OneMoreRange(locations.elements, locations.order, code, near, ranges, k, more);
      }
      matching := more;
    }
    assert ranges[..|ranges|] == ranges;
  }

  lemma NothingIn(elements: map<Bytes, real>, code: real -> Uint64, near: Coordinates -> bool)
    ensures RangeScan(elements, code, near, []) == {}
  {
  }

  /** All near entries are what the linear scan reports. */
  lemma AllNear(elements: map<Bytes, real>, order: seq<S.Entry>, code: real -> Uint64, near: Coordinates -> bool)
    requires S.Consistent(elements, order)
    ensures NearNames(order, code, 0, |order|, near) == LinearScan(elements, code, near)
  {
    hide Decode;
    forall name ensures name in NearNames(order, code, 0, |order|, near) <==> name in LinearScan(elements, code, near) {
      if name in elements {
        var i :| 0 <= i < |order| && order[i] == S.Entry(name, elements[name]);
      }
    }
  }

  lemma OneMoreRange(elements: map<Bytes, real>, order: seq<S.Entry>, code: real -> Uint64,
      near: Coordinates -> bool, ranges: seq<ScoreRange>, k: nat, more: set<Bytes>)
    requires S.Consistent(elements, order) && k < |ranges|
    requires more == RangeScan(elements, code, near, ranges[..k]) + Hits(order, code, ranges[k], near)
    ensures more == RangeScan(elements, code, near, ranges[..k + 1])
  {
    hide Holds, Decode;
    forall c: Uint64 ensures InRanges(ranges[..k + 1], c) <==> InRanges(ranges[..k], c) || Holds(ranges[k], c) {
      InOneMore(ranges, k, c);
    }
    forall name ensures name in more <==> name in RangeScan(elements, code, near, ranges[..k + 1]) {
      if name in elements {
        var i :| 0 <= i < |order| && order[i] == S.Entry(name, elements[name]);
        assert order[i].name == name;
      }
    }
  }

  lemma InOneMore(ranges: seq<ScoreRange>, k: nat, code: Uint64)
    requires k < |ranges|
    ensures InRanges(ranges[..k + 1], code) <==> InRanges(ranges[..k], code) || Holds(ranges[k], code)
  {
    hide Holds;
    var longer := ranges[..k + 1];
    assert longer[k] == ranges[k];
    if InRanges(ranges[..k], code) {
      var i :| 0 <= i < k && Holds(ranges[..k][i], code);
      assert longer[i] == ranges[..k][i];
    }
    if InRanges(longer, code) {
      var i :| 0 <= i < |longer| && Holds(longer[i], code);
      assert i < k ==> ranges[..k][i] == longer[i];
    }
  }

  /** The reply lists every match once, in whatever order the map yields them. */
  method Reply(matching: set<Bytes>) returns (response: Bytes, names: seq<Bytes>)
    ensures multiset(names) == multiset(matching)
    ensures response == Frame(names)
  {
    names := [];
    var left := matching;
    while left != {}
      invariant multiset(names) + multiset(left) == multiset(matching)
      decreases left
    {
      var m :| m in left;
      names := names + [m];
      left := left - {m};
    }
    response := PrintFrame(names);
  }

  // ----- what the search finds -----

  /** GEOSEARCH reports exactly the near members whose even coordinate is within one cell of the centre's longitude
      cell and whose odd coordinate is within one cell of the centre's latitude cell. */
  lemma SearchFindsWindow(elements: map<Bytes, real>, code: real -> Uint64, center: GridCenter, depth: nat,
      near: Coordinates -> bool, name: Bytes)
    requires depth <= 26
    ensures name in RangeScan(elements, code, near, NineBoxes(center, depth)) <==>
            name in LinearScan(elements, code, near) && InWindow(code(elements[name]), center, depth)
  {
    hide NineBoxes, InWindow, InRanges, Decode;
    if name in elements {
      RangesCoverWindow(center, depth, code(elements[name]));
    }
  }

  /** The indexed search and the linear scan give the same answer exactly when every near member is in the window. */
  lemma SearchIsLinearScanWhen(elements: map<Bytes, real>, code: real -> Uint64, center: GridCenter, depth: nat,
      near: Coordinates -> bool)
    requires depth <= 26
    ensures RangeScan(elements, code, near, NineBoxes(center, depth)) == LinearScan(elements, code, near) <==>
            forall name :: name in LinearScan(elements, code, near) ==> InWindow(code(elements[name]), center, depth)
  {
    hide NineBoxes, InWindow, Decode;
    forall name ensures name in RangeScan(elements, code, near, NineBoxes(center, depth)) <==>
                        name in LinearScan(elements, code, near) && InWindow(code(elements[name]), center, depth)
    {
      SearchFindsWindow(elements, code, center, depth, near, name);
    }
  }

  /** A member at the very centre is looked at exactly when the latitude and longitude cells of the centre, in that
      grid, are inside it and at most one apart: the bounds have the two coordinates the other way round. */
  lemma CenterIsInWindow(center: Coordinates, depth: nat)
    requires Encodable(center) && depth <= 26
    ensures InWindow(Encode(center), NumbersOf(center), depth) <==>
            var gx, gy := GridX(NumbersOf(center), depth), GridY(NumbersOf(center), depth);
            gx - 1 <= gy <= gx + 1 && gx < Pow2(depth) && gy < Pow2(depth)
  {
    hide Value, ShiftRight, ToUint32, NormalizedLatitude, NormalizedLongitude, FitsUint32, Pow2;
    PartsAreWords(center);
  }

  lemma PartsAreWords(c: Coordinates)
    requires Encodable(c)
    ensures Even(Encode(c)) == ToUint32(NormalizedLatitude(c.latitude))
    ensures OddPlaces(Encode(c)) == ToUint32(NormalizedLongitude(c.longitude))
  {
    hide Even, OddPlaces, Interleave, ToUint32, NormalizedLatitude, NormalizedLongitude, FitsUint32;
    var x, y := ToUint32(NormalizedLatitude(c.latitude)), ToUint32(NormalizedLongitude(c.longitude));
    EvenOfInterleave(x, y);
    OddOfInterleave(x, y);
  }

  /** On the equator at 90 degrees east a member stored at the centre is reported, however near it counts, only when the
      grid is one of the two coarsest: a search of any smaller radius does not report a member at its own centre. */
  lemma MemberAtCenterIsMissed(
    name: Bytes, near: Coordinates -> bool, largeEnough: nat -> bool, code: real -> Uint64, toUint32: real -> Uint32)
    requires Converts64(code) && Converts32(toUint32)
    ensures var center := Coordinates(0.0, 90.0);
            var depth := Depth(largeEnough, 26);
            && Encodable(center) && Value(Encode(center)) < 0x40_0000_0000_0000
            && var elements := map[name := StoredScore(Encode(center))];
            && HasCodes(elements)
            && (name in RangeScan(elements, code, near, NineBoxes(Locate(center, toUint32), depth)) <==>
                near(Decode(Encode(center))) && depth <= 2)
  {
    var center := Coordinates(0.0, 90.0);
    Equator();
    hide *;
    CodeSize(center);
    var elements := map[name := StoredScore(Encode(center))];
    ScoresAreCodes(center, name);
    StoredAsIs(center, code);
    LocatedAsEncoded(center, toUint32);
    var depth := Depth(largeEnough, 26);
    EquatorNumbers(center);
    EquatorCells(NumbersOf(center), depth);
    CenterIsInWindow(center, depth);
    SearchFindsWindow(elements, code, NumbersOf(center), depth, near, name);
    OnlyMember(name, StoredScore(Encode(center)), code, near);
  }

  lemma OnlyMember(name: Bytes, score: real, code: real -> Uint64, near: Coordinates -> bool)
    ensures name in LinearScan(map[name := score], code, near) <==> near(Decode(code(score)))
  {
    hide Decode;
  }

  lemma Equator()
    ensures var c := Coordinates(0.0, 90.0);
            && IsValidPair(c) && c.longitude < MAX_LONGITUDE
            && NormalizedLatitude(c.latitude) == 33554432.0 && NormalizedLongitude(c.longitude) == 50331648.0
  {
  }

  lemma ScoresAreCodes(c: Coordinates, name: Bytes)
    requires Encodable(c) && Value(Encode(c)) < 0x40_0000_0000_0000
    ensures HasCodes(map[name := StoredScore(Encode(c))])
  {
  }

  lemma OnePlaceDown(n: nat, j: nat)
    requires j > 0
    ensures n * Pow2(j) == 2 * (n * Pow2(j - 1))
  {
    var p := Pow2(j - 1);
    assert n * (2 * p) == 2 * (n * p);
  }

  /** Shifting out zeros divides. */
  lemma {:induction false} ShiftOfMultiple(c: Uint64, n: nat, j: nat, k: nat)
    requires Value(c) == n * Pow2(j) && k <= j
    ensures Value(ShiftRight(c, k)) == n * Pow2(j - k)
    decreases k
  {
    hide Value, Half, Odd, Pow2;
    if k > 0 {
      ValueByHalves(c);
      OnePlaceDown(n, j);
      ShiftOfMultiple(Half(c), n, j - 1, k - 1);
    }
  }

  lemma EquatorNumbers(c: Coordinates)
    requires Encodable(c)
    requires NormalizedLatitude(c.latitude) == 33554432.0 && NormalizedLongitude(c.longitude) == 50331648.0
    ensures Value(NumbersOf(c).longitude) == 3 * Pow2(24) && Value(NumbersOf(c).latitude) == 2 * Pow2(24)
  {
    assert Pow2(24) == 0x100_0000 by {
      SmallPowers();
      hide Pow2;
      PowAdds(10, 10);
      PowAdds(2, 2);
      PowAdds(20, 4);
    }
    hide Value, Pow2;
  }

  /** The centre's cells in every grid: three quarters along, and half way up. */
  lemma EquatorCells(center: GridCenter, depth: nat)
    requires Value(center.longitude) == 3 * Pow2(24) && Value(center.latitude) == 2 * Pow2(24) && 1 <= depth <= 26
    ensures var gx, gy := GridX(center, depth), GridY(center, depth);
            && gx < Pow2(depth) && gy < Pow2(depth)
            && (gx - 1 <= gy <= gx + 1 <==> depth <= 2)
  {
    hide Value, ShiftRight, Pow2;
    SmallPowers();
    if depth == 1 {
      CoarsestCell(center.longitude, 3);
      CoarsestCell(center.latitude, 2);
    } else {
      var k := depth - 2;
      FinerCell(center.longitude, 3, k);
      FinerCell(center.latitude, 2, k);
      assert Pow2(depth) == 4 * Pow2(k) by { PowAdds(2, k); }
      PowersGrow(k);
      FarApart(Pow2(k), k);
    }
  }

  lemma FinerCell(c: Uint64, n: nat, k: nat)
    requires Value(c) == n * Pow2(24) && k <= 24
    ensures Value(ShiftRight(c, 24 - k)) == n * Pow2(k)
  {
    hide Value, ShiftRight, Pow2;
    ShiftOfMultiple(c, n, 24, 24 - k);
    assert 24 - (24 - k) == k;
  }

  lemma CoarsestCell(c: Uint64, n: nat)
    requires Value(c) == n * Pow2(24)
    ensures Value(ShiftRight(c, 25)) == n / 2
  {
    assert Pow2(0) == 1;
    hide Value, Half, Odd, ShiftRight, Pow2;
    ShiftOfMultiple(c, n, 24, 24);
    ShiftOne(c, 24);
    ValueByHalves(ShiftRight(c, 24));
  }

  lemma PowersGrow(k: nat)
    ensures Pow2(k) <= 1 <==> k == 0
  {
  }

  lemma FarApart(p: nat, k: nat)
    requires p >= 1 && (p <= 1 <==> k == 0)
    ensures 3 * p < 4 * p && 2 * p < 4 * p
    ensures 3 * p - 1 <= 2 * p <= 3 * p + 1 <==> k == 0
  {
  }

  /** A code below 2^53 is stored and read back as it is. */
  lemma StoredAsIs(c: Coordinates, code: real -> Uint64)
    requires Encodable(c) && Value(Encode(c)) < 0x20_0000_0000_0000 && Converts64(code)
    ensures code(StoredScore(Encode(c))) == Encode(c)
  {
    hide Value, Encode, ToUint64;
    SameCode(Value(Encode(c)), Encode(c));
  }

  /** On the coarsest grid the search is complete for codes of 52 bits and centres inside the grid. */
  lemma CoarseSearchIsLinearScan(elements: map<Bytes, real>, code: real -> Uint64, center: GridCenter,
      near: Coordinates -> bool)
    requires forall name :: name in elements ==> Fits(code(elements[name]), 52)
    requires Value(center.longitude) < 0x400_0000 && Value(center.latitude) < 0x400_0000
    ensures RangeScan(elements, code, near, NineBoxes(center, 1)) == LinearScan(elements, code, near)
  {
    hide NineBoxes, InWindow, Decode, Fits, Value;
    forall name | name in LinearScan(elements, code, near) ensures InWindow(code(elements[name]), center, 1) {
      DepthOneSeesAll(center, code(elements[name]));
    }
    SearchIsLinearScanWhen(elements, code, center, 1, near);
  }
}
