/** The ranges of codes that GEOSEARCH looks through: a grid cell around the centre and its eight neighbours.

    The cell's longitude number goes on the even places of the range bounds, although `Geocoding.Encode` puts
    latitude there. Everything below is stated for the even and odd coordinates as the code has them.
  */
module NineBox {
  import opened Words
  import opened Morton
  import opened Geocoding

  datatype ScoreRange = ScoreRange(min: Uint64, max: Uint64)

  /** `r.min <= code <= r.max`. */
  predicate Holds(r: ScoreRange, code: Uint64) { !Less(code, r.min) && !Less(r.max, code) }

  predicate InRanges(ranges: seq<ScoreRange>, code: Uint64) {
    exists i :: 0 <= i < |ranges| && Holds(ranges[i], code)
  }

  /** The bits of `min` and all bits below `one`. */
  function Fill(min: Uint64, one: Uint64): Uint64 { min | (one - 1) }

  /** All codes that begin with the bits of `box`, followed by any k bits. */
  function PrefixRange(box: Uint64, k: nat): ScoreRange {
    var min := ShiftLeft(box, k);
    ScoreRange(min, Fill(min, ShiftLeft(1, k)))
  }

  // ----- a range holds the codes with its prefix -----

  lemma {:induction false} ShiftLeftSnoc(c: bv64, k: nat)
    ensures ShiftLeft(c, k + 1) == Doubled(ShiftLeft(c, k))
    decreases k
  {
    hide Doubled;
    if k > 0 {
      ShiftLeftSnoc(Doubled(c), k - 1);
    }
  }

  lemma DoubledIsWithBit(m: bv64)
    ensures Doubled(m) == WithBit(m, false)
  {
  }

  lemma DoubledMinusOne(o: bv64)
    ensures (o << 1) - 1 == ((o - 1) << 1) | 1
  {
  }

  lemma OrDoubled(m: bv64, x: bv64)
    ensures (m << 1) | ((x << 1) | 1) == 1 | ((m | x) << 1)
  {
  }

  lemma FillOneMore(m: bv64, o: bv64)
    ensures Fill(Doubled(m), Doubled(o)) == WithBit(Fill(m, o), true)
  {
    DoubledMinusOne(o);
    OrDoubled(m, o - 1);
  }

  lemma FillNothing(m: bv64)
    ensures Fill(m, 1) == m
  {
  }

  lemma RangeOneMore(box: Uint64, k: nat)
    ensures PrefixRange(box, k + 1) ==
            ScoreRange(WithBit(PrefixRange(box, k).min, false), WithBit(PrefixRange(box, k).max, true))
  {
    hide WithBit, Fill, Doubled, ShiftLeft;
    ShiftLeftSnoc(box, k);
    ShiftLeftSnoc(1, k);
    DoubledIsWithBit(ShiftLeft(box, k));
    FillOneMore(ShiftLeft(box, k), ShiftLeft(1, k));
  }

  lemma FitsWithBit(w: bv64, bit: bool, n: nat)
    requires Fits(w, n) && n < 64
    ensures Fits(WithBit(w, bit), n + 1)
    ensures Value(WithBit(w, bit)) == (if bit then 1 else 0) + 2 * Value(w)
  {
    hide WithBit, Half, Odd, Value, HasRoom;
    TopBitClear(w, n);
    HalfOfWithBit(w, bit);
    ValueByHalves(WithBit(w, bit));
  }

  /** A code lies in the range exactly when dropping k bits leaves the prefix. */
  lemma {:induction false} InPrefixRange(box: Uint64, b: nat, k: nat, code: Uint64)
    requires Fits(box, b) && b + k <= 64
    ensures var r := PrefixRange(box, k);
            && Fits(r.min, b + k) && Fits(r.max, b + k)
            && (Value(r.min) <= Value(code) <= Value(r.max) <==> ShiftRight(code, k) == box)
    decreases k
  {
    hide WithBit, Half, Odd, Value, Fits, Fill, Doubled;
    if k == 0 {
      FillNothing(box);
      assert PrefixRange(box, 0) == ScoreRange(box, box);
      ValueOrder(code, box);
    } else {
      var r := PrefixRange(box, k - 1);
      InPrefixRange(box, b, k - 1, Half(code));
      RangeOneMore(box, k - 1);
      FitsWithBit(r.min, false, b + k - 1);
      FitsWithBit(r.max, true, b + k - 1);
      ValueByHalves(code);
    }
  }

  lemma HoldsByValue(r: ScoreRange, code: Uint64)
    ensures Holds(r, code) <==> Value(r.min) <= Value(code) <= Value(r.max)
  {
    hide Value, Less;
    ValueOrderLess(code, r.min);
    ValueOrderLess(r.max, code);
  }

  // ----- boxes -----

  /** A Go `int` that is not negative, as a `uint32`. */
  function GridWord(n: nat): (w: Uint32)
    ensures n < 0x1_0000_0000 ==> Value(w) == n
  {
    if n < 0x1_0000_0000 then FromNat(n) else FromNat(n % 0x1_0000_0000)
  }

  /** The range of one grid cell; `shift` is 26 less the depth of the grid. */
  function BoxRange(nx: nat, ny: nat, shift: nat): ScoreRange {
    PrefixRange(Interleave(GridWord(nx), GridWord(ny)), 2 * shift)
  }

  /** The two coordinates of a code in a grid of the given depth. */
  function EvenCell(code: Uint64, shift: nat): nat { Value(ShiftRight(Even(code), shift)) }

  function OddCell(code: Uint64, shift: nat): nat { Value(ShiftRight(OddPlaces(code), shift)) }

  lemma PowIsMonotone(j: nat, k: nat)
    requires j <= k
    ensures Pow2(j) <= Pow2(k)
  {
    if j < k {
      PowIsMonotone(j, k - 1);
    }
  }

  /** A code lies in a box's range exactly when its coordinates, shifted, are the box's; the range is below 2^52. */
  lemma InBox(nx: nat, ny: nat, depth: nat, code: Uint64)
    requires depth <= 26 && nx < Pow2(depth) && ny < Pow2(depth)
    ensures var r := BoxRange(nx, ny, 26 - depth);
            && (Holds(r, code) <==> EvenCell(code, 26 - depth) == nx && OddCell(code, 26 - depth) == ny)
            && Fits(r.max, 52)
  {
    hide Value, Even, OddPlaces, Interleave, GridWord, Fits, ShiftRight, Pow2, PrefixRange, Holds;
    var shift := 26 - depth;
    PowIsMonotone(depth, 26);
    Powers();
    var x, y := GridWord(nx), GridWord(ny);
    var box := Interleave(x, y);
    FitsByValue(x, depth);
    FitsByValue(y, depth);
    EvenOfInterleave(x, y);
    OddOfInterleave(x, y);
    FitsByParts(box, depth);
    InPrefixRange(box, 2 * depth, 2 * shift, code);
    HoldsByValue(PrefixRange(box, 2 * shift), code);
    PartsOfShift(code, shift);
    SameParts(ShiftRight(code, 2 * shift), x, y);
  }

  lemma SameParts(c: Uint64, x: Uint32, y: Uint32)
    ensures c == Interleave(x, y) <==> Value(Even(c)) == Value(x) && Value(OddPlaces(c)) == Value(y)
  {
    hide Value, Even, OddPlaces, Interleave;
    InterleaveIsBijective(c, x, y);
    ValueOrder(Even(c), x);
    ValueOrder(OddPlaces(c), y);
  }

  // ----- the nine boxes -----

  /** The neighbours visited first, in the order of the two loops; those outside the grid are left out. */
  function Cells(gridX: nat, gridY: nat, maxGrid: nat, n: nat): (cells: seq<(nat, nat)>)
    ensures |cells| <= n
    decreases n
  {
    if n == 0 then [] else
    var dx := if n <= 3 then -1 else if n <= 6 then 0 else 1;
    var nx, ny := gridX + dx, gridY + n - 3 * dx - 5;
    var before := Cells(gridX, gridY, maxGrid, n - 1);
    if nx < 0 || nx > maxGrid || ny < 0 || ny > maxGrid then before else before + [(nx, ny)]
  }

  function RangesOf(cells: seq<(nat, nat)>, depth: nat): (ranges: seq<ScoreRange>)
    requires depth <= 26
    ensures |ranges| == |cells|
  {
    seq(|cells|, i requires 0 <= i < |cells| => BoxRange(cells[i].0, cells[i].1, 26 - depth))
  }

  lemma {:induction false} CellsAreInGrid(gridX: nat, gridY: nat, maxGrid: nat, n: nat)
    ensures forall cell :: cell in Cells(gridX, gridY, maxGrid, n) ==> cell.0 <= maxGrid && cell.1 <= maxGrid
    decreases n
  {
    if n > 0 {
      CellsAreInGrid(gridX, gridY, maxGrid, n - 1);
    }
  }

  /** Which cells are among the first n: those whose place in the two loops comes before n. */
  lemma {:induction false} CellsAre(gridX: nat, gridY: nat, maxGrid: nat, n: nat, nx: nat, ny: nat)
    requires n <= 9
    ensures (nx, ny) in Cells(gridX, gridY, maxGrid, n) <==>
            && nx <= maxGrid && ny <= maxGrid
            && gridX - 1 <= nx <= gridX + 1 && gridY - 1 <= ny <= gridY + 1
            && 3 * (nx - gridX + 1) + (ny - gridY + 1) < n
    decreases n
  {
    if n > 0 {
      CellsAre(gridX, gridY, maxGrid, n - 1, nx, ny);
    }
  }

  lemma {:induction false} CellsAreDistinct(gridX: nat, gridY: nat, maxGrid: nat, n: nat)
    requires n <= 9
    ensures var cells := Cells(gridX, gridY, maxGrid, n);
            forall i, j :: 0 <= i < j < |cells| ==> cells[i] != cells[j]
    decreases n
  {
    if n > 0 {
      CellsAreDistinct(gridX, gridY, maxGrid, n - 1);
      var before, cells := Cells(gridX, gridY, maxGrid, n - 1), Cells(gridX, gridY, maxGrid, n);
      if cells != before {
        var last := cells[|cells| - 1];
        CellsAre(gridX, gridY, maxGrid, n - 1, last.0, last.1);
        assert cells == before + [last] && last !in before;
      }
    }
  }

  /** The depth of the grid: the deepest, but at least 1, whose cells are as large as the radius. */
  function Depth(largeEnough: nat -> bool, d: nat): (depth: nat)
    requires d >= 1
    ensures 1 <= depth <= d
    ensures depth == 1 || largeEnough(depth)
    ensures forall finer :: depth < finer <= d ==> !largeEnough(finer)
    decreases d
  {
    if d == 1 || largeEnough(d) then d else Depth(largeEnough, d - 1)
  }

  lemma DepthStep(largeEnough: nat -> bool, d: nat)
    requires d >= 1
    ensures Depth(largeEnough, d) == if d == 1 || largeEnough(d) then d else Depth(largeEnough, d - 1)
  {
  }

  /** The centre's numbers on the finest grid, as the machine converts them. */
  datatype GridCenter = GridCenter(longitude: Uint32, latitude: Uint32)

  function Locate(center: Coordinates, toUint32: real -> Uint32): GridCenter {
    GridCenter(toUint32(NormalizedLongitude(center.longitude)), toUint32(NormalizedLatitude(center.latitude)))
  }

  /** The machine's conversion follows Go where Go defines it. */
  ghost predicate Converts32(toUint32: real -> Uint32) {
    forall r :: FitsUint32(r) ==> toUint32(r) == ToUint32(r)
  }

  /** Where Go defines the conversions, the centre's numbers are those that `Encode` interleaves. */
  lemma LocatedAsEncoded(center: Coordinates, toUint32: real -> Uint32)
    requires Converts32(toUint32) && Encodable(center)
    ensures Locate(center, toUint32) == NumbersOf(center)
  {
  }

  function NumbersOf(center: Coordinates): GridCenter
    requires Encodable(center)
  {
    GridCenter(ToUint32(NormalizedLongitude(center.longitude)), ToUint32(NormalizedLatitude(center.latitude)))
  }

  /** The cell of the centre in the grid. */
  function GridX(center: GridCenter, depth: nat): nat
    requires depth <= 26
  {
    Value(ShiftRight(center.longitude, 26 - depth))
  }

  function GridY(center: GridCenter, depth: nat): nat
    requires depth <= 26
  {
    Value(ShiftRight(center.latitude, 26 - depth))
  }

  /** Shifting right rounds down. */
  lemma {:induction false} ShiftRoundsDown(c: bv64, k: nat)
    ensures Value(ShiftRight(c, k)) * Pow2(k) <= Value(c) < (Value(ShiftRight(c, k)) + 1) * Pow2(k)
    decreases k
  {
    hide Value, Half, Odd;
    if k > 0 {
      ValueByHalves(c);
      ShiftRoundsDown(Half(c), k - 1);
      Doubling(Value(ShiftRight(Half(c), k - 1)), Pow2(k - 1));
      Doubling(Value(ShiftRight(Half(c), k - 1)) + 1, Pow2(k - 1));
    }
  }

  lemma Doubling(n: nat, p: nat)
    ensures n * (2 * p) == 2 * (n * p)
  {
  }

  /** The centre's column is that of its longitude and its row that of its latitude, in cells of 2^(26 - depth) of the
      finest grid. */
  lemma GridCells(center: Coordinates, depth: nat)
    requires Encodable(center) && depth <= 26
    ensures var numbers, size := NumbersOf(center), Pow2(26 - depth);
            && var gx, gy := GridX(numbers, depth), GridY(numbers, depth);
            && gx * size <= NormalizedLongitude(center.longitude).Floor < (gx + 1) * size
            && gy * size <= NormalizedLatitude(center.latitude).Floor < (gy + 1) * size
  {
    hide Value, ShiftRight, NormalizedLongitude, NormalizedLatitude, FitsUint32, Pow2;
    ShiftRoundsDown(NumbersOf(center).longitude, 26 - depth);
    ShiftRoundsDown(NumbersOf(center).latitude, 26 - depth);
  }

  function NineBoxes(center: GridCenter, depth: nat): seq<ScoreRange>
    requires depth <= 26
  {
    RangesOf(Cells(GridX(center, depth), GridY(center, depth), Pow2(depth) - 1, 9), depth)
  }

  /** `Get9BoxRanges`. The test on metres is any predicate on depths; the conversion to `uint32` is the machine's. */
  method Get9BoxRanges(center: Coordinates, largeEnough: nat -> bool, toUint32: real -> Uint32)
    returns (ranges: seq<ScoreRange>)
    ensures ranges == NineBoxes(Locate(center, toUint32), Depth(largeEnough, 26))
  {
    hide Value, ShiftRight, NormalizedLatitude, NormalizedLongitude, Cells, RangesOf, Pow2, Depth;
    var depth := 26;
    while depth > 1
      invariant 1 <= depth <= 26 && Depth(largeEnough, 26) == Depth(largeEnough, depth)
    {
      DepthStep(largeEnough, depth);
      if largeEnough(depth) {
        break;
      }
      depth := depth - 1;
    }
    DepthStep(largeEnough, depth);
    var shift := 26 - depth;
    var gridX := Value(ShiftRight(toUint32(NormalizedLongitude(center.longitude)), shift));
    var gridY := Value(ShiftRight(toUint32(NormalizedLatitude(center.latitude)), shift));
    ranges := BoxesAround(gridX, gridY, depth);
  }

  /** The two loops over the neighbours. */
  method BoxesAround(gridX: nat, gridY: nat, depth: nat) returns (ranges: seq<ScoreRange>)
    requires 1 <= depth <= 26
    ensures ranges == RangesOf(Cells(gridX, gridY, Pow2(depth) - 1, 9), depth)
  {
    hide GridWord, Interleave, ShiftLeft, Pow2, Fill, Cells, RangesOf, BoxRange;
    NoRanges(gridX, gridY, depth);
    var shift := 26 - depth;
    var maxGrid := Pow2(depth) - 1;
    ranges := [];
    for dx := -1 to 2
      invariant ranges == RangesOf(Cells(gridX, gridY, maxGrid, 3 * (dx + 1)), depth)
    {
      for dy := -1 to 2
        invariant ranges == RangesOf(Cells(gridX, gridY, maxGrid, 3 * (dx + 1) + (dy + 1)), depth)
      {
        var nx, ny := gridX + dx, gridY + dy;
        ghost var n := 3 * (dx + 1) + (dy + 1);
        CellsStep(gridX, gridY, maxGrid, dx, dy);
        if nx < 0 || nx > maxGrid || ny < 0 || ny > maxGrid {
          continue;
        }
        var boxScore := Interleave(GridWord(nx), GridWord(ny));
        var minScore := ShiftLeft(boxScore, 2 * shift);
        var maxScore := Fill(minScore, ShiftLeft(1, 2 * shift));
        BoxBounds(nx, ny, shift);
        RangesSnoc(Cells(gridX, gridY, maxGrid, n), nx, ny, depth);
        ranges := ranges + [ScoreRange(minScore, maxScore)];
      }
    }
  }

  lemma CellsStep(gridX: nat, gridY: nat, maxGrid: nat, dx: int, dy: int)
    requires -1 <= dx <= 1 && -1 <= dy <= 1
    ensures var n := 3 * (dx + 1) + (dy + 1);
            var nx, ny := gridX + dx, gridY + dy;
            Cells(gridX, gridY, maxGrid, n + 1) ==
            if nx < 0 || nx > maxGrid || ny < 0 || ny > maxGrid then Cells(gridX, gridY, maxGrid, n)
            else Cells(gridX, gridY, maxGrid, n) + [(nx, ny)]
  {
    var n := 3 * (dx + 1) + (dy + 1);
    assert dx == if n + 1 <= 3 then -1 else if n + 1 <= 6 then 0 else 1;
  }

  lemma NoRanges(gridX: nat, gridY: nat, depth: nat)
    requires 1 <= depth <= 26
    ensures RangesOf(Cells(gridX, gridY, Pow2(depth) - 1, 0), depth) == []
  {
  }

  lemma BoxBounds(nx: nat, ny: nat, shift: nat)
    ensures var min := ShiftLeft(Interleave(GridWord(nx), GridWord(ny)), 2 * shift);
            BoxRange(nx, ny, shift) == ScoreRange(min, Fill(min, ShiftLeft(1, 2 * shift)))
  {
    hide GridWord, Interleave, ShiftLeft, Fill;
  }

  lemma RangesSnoc(cells: seq<(nat, nat)>, nx: nat, ny: nat, depth: nat)
    requires depth <= 26
    ensures RangesOf(cells + [(nx, ny)], depth) == RangesOf(cells, depth) + [BoxRange(nx, ny, 26 - depth)]
  {
    hide BoxRange;
  }

  // ----- what the ranges cover -----

  /** The code's coordinates, in the grid, are within one of the centre's, and inside the grid. */
  predicate InWindow(code: Uint64, center: GridCenter, depth: nat)
    requires depth <= 26
  {
    var ex, oy := EvenCell(code, 26 - depth), OddCell(code, 26 - depth);
    && GridX(center, depth) - 1 <= ex <= GridX(center, depth) + 1
    && GridY(center, depth) - 1 <= oy <= GridY(center, depth) + 1
    && ex < Pow2(depth) && oy < Pow2(depth)
  }

  /** Range i holds exactly the codes whose cell is cell i. */
  lemma RangeOfCell(center: GridCenter, depth: nat, i: nat, code: Uint64)
    requires depth <= 26
    requires i < |NineBoxes(center, depth)|
    ensures var cells := Cells(GridX(center, depth), GridY(center, depth), Pow2(depth) - 1, 9);
            && |cells| == |NineBoxes(center, depth)|
            && (Holds(NineBoxes(center, depth)[i], code) <==>
                cells[i] == (EvenCell(code, 26 - depth), OddCell(code, 26 - depth)))
            && Fits(NineBoxes(center, depth)[i].max, 52)
  {
    hide Value, Cells, EvenCell, OddCell, Pow2, Holds, Fits, BoxRange;
    var maxGrid := Pow2(depth) - 1;
    var cells := Cells(GridX(center, depth), GridY(center, depth), maxGrid, 9);
    CellsAreInGrid(GridX(center, depth), GridY(center, depth), maxGrid, 9);
    assert cells[i] in cells;
    InBox(cells[i].0, cells[i].1, depth, code);
  }

  /** The ranges together hold exactly the codes in the window. */
  lemma RangesCoverWindow(center: GridCenter, depth: nat, code: Uint64)
    requires depth <= 26
    ensures InRanges(NineBoxes(center, depth), code) <==> InWindow(code, center, depth)
  {
    hide NineBoxes, GridX, GridY, EvenCell, OddCell, Holds, Fits, Cells, Pow2;
    var ranges := NineBoxes(center, depth);
    var cell := (EvenCell(code, 26 - depth), OddCell(code, 26 - depth));
    var gx, gy, maxGrid := GridX(center, depth), GridY(center, depth), Pow2(depth) - 1;
    var cells := Cells(gx, gy, maxGrid, 9);
    CellsAre(gx, gy, maxGrid, 9, cell.0, cell.1);
    SameNumberOfRanges(center, depth);
    forall i | 0 <= i < |ranges| ensures Holds(ranges[i], code) <==> cells[i] == cell {
      RangeOfCell(center, depth, i, code);
    }
    if cell in cells {
      var i :| 0 <= i < |cells| && cells[i] == cell;
      assert Holds(ranges[i], code);
    }
  }

  lemma SameNumberOfRanges(center: GridCenter, depth: nat)
    requires depth <= 26
    ensures |NineBoxes(center, depth)| == |Cells(GridX(center, depth), GridY(center, depth), Pow2(depth) - 1, 9)|
  {
    hide GridX, GridY, Cells, Pow2;
  }

  /** There are at most nine ranges, all below 2^52, and no code lies in two of them. */
  lemma RangesAreDisjoint(center: GridCenter, depth: nat, i: nat, j: nat, code: Uint64)
    requires depth <= 26
    requires i < j < |NineBoxes(center, depth)|
    ensures |NineBoxes(center, depth)| <= 9
    ensures !(Holds(NineBoxes(center, depth)[i], code) && Holds(NineBoxes(center, depth)[j], code))
    ensures Value(NineBoxes(center, depth)[i].max) < 0x10_0000_0000_0000
  {
    hide NineBoxes, GridX, GridY, EvenCell, OddCell, Holds, Fits, Value, Pow2;
    CellsAreDistinct(GridX(center, depth), GridY(center, depth), Pow2(depth) - 1, 9);
    RangeOfCell(center, depth, i, code);
    RangeOfCell(center, depth, j, code);
    FitsByValue(NineBoxes(center, depth)[i].max, 52);
    Powers();
  }

  // ----- the coarsest grid -----

  lemma CoarseCell(x: Uint32)
    requires Fits(x, 26)
    ensures Value(ShiftRight(x, 25)) <= 1
  {
    ShiftAdds(x, 25, 1);
    assert Fits(ShiftRight(x, 25), 1);
    WordOfValue(ShiftRight(x, 25), 1);
    assert Pow2(1) == 2 * Pow2(0);
  }

  /** At depth 1 every 52-bit code is in the window of every centre inside the grid. */
  lemma DepthOneSeesAll(center: GridCenter, code: Uint64)
    requires Fits(code, 52)
    requires Value(center.longitude) < 0x400_0000 && Value(center.latitude) < 0x400_0000
    ensures InWindow(code, center, 1)
  {
    hide Value, Even, OddPlaces, Word, Fits, ShiftRight;
    FitsByParts(code, 26);
    CoarseCell(Even(code));
    CoarseCell(OddPlaces(code));
    Powers();
    var x, y := center.longitude, center.latitude;
    FitsByValue(x, 26);
    FitsByValue(y, 26);
    CoarseCell(x);
    CoarseCell(y);
    assert Pow2(1) == 2 by { SmallPowers(); }
    hide Pow2;
  }
}
