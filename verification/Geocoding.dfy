/** The server's geocode: a cell of a 2^26 by 2^26 grid, latitude on the even places and longitude on the odd ones.
    Degrees are exact reals. */
module Geocoding {
  import opened Words
  import opened Morton

  const MIN_LATITUDE: real := -85.05112878
  const MAX_LATITUDE: real := 85.05112878
  const MIN_LONGITUDE: real := -180.0
  const MAX_LONGITUDE: real := 180.0
  const LATITUDE_RANGE: real := MAX_LATITUDE - MIN_LATITUDE
  const LONGITUDE_RANGE: real := MAX_LONGITUDE - MIN_LONGITUDE
  const CELLS: real := 67108864.0  // 2^26

  datatype Coordinates = Coordinates(latitude: real, longitude: real)

  /** The range check of GEOADD, which is also the tester's. */
  predicate IsValidPair(c: Coordinates) {
    MIN_LATITUDE <= c.latitude <= MAX_LATITUDE && MIN_LONGITUDE <= c.longitude <= MAX_LONGITUDE
  }

  function NormalizedLatitude(latitude: real): real { CELLS * (latitude - MIN_LATITUDE) / LATITUDE_RANGE }

  function NormalizedLongitude(longitude: real): real { CELLS * (longitude - MIN_LONGITUDE) / LONGITUDE_RANGE }

  /** The range in which Go defines the conversion of a float to `uint32`. */
  predicate FitsUint32(r: real) { 0.0 <= r < 4294967296.0 }

  /** These are the numbers that are not negative and whose whole part has 32 bits. */
  lemma WholePartFits(r: real)
    ensures FitsUint32(r) <==> r >= 0.0 && r.Floor <= 0xFFFF_FFFF
  {
  }

  function ToUint32(r: real): (n: Uint32)
    requires FitsUint32(r)
    ensures Value(n) == r.Floor
  {
    FromNat(r.Floor)
  }

  predicate Encodable(c: Coordinates) {
    FitsUint32(NormalizedLatitude(c.latitude)) && FitsUint32(NormalizedLongitude(c.longitude))
  }

  function Encode(c: Coordinates): Uint64
    requires Encodable(c)
  {
    Interleave(ToUint32(NormalizedLatitude(c.latitude)), ToUint32(NormalizedLongitude(c.longitude)))
  }

  /** The next grid number in `uint32` arithmetic. */
  function NextNumber(n: Uint32): nat { (Value(n) + 1) % 0x1_0000_0000 }

  function CellCenter(gridLatitude: Uint32, gridLongitude: Uint32): Coordinates {
    var latitudeMin := MIN_LATITUDE + LATITUDE_RANGE * (Value(gridLatitude) as real / CELLS);
    var latitudeMax := MIN_LATITUDE + LATITUDE_RANGE * (NextNumber(gridLatitude) as real / CELLS);
    var longitudeMin := MIN_LONGITUDE + LONGITUDE_RANGE * (Value(gridLongitude) as real / CELLS);
    var longitudeMax := MIN_LONGITUDE + LONGITUDE_RANGE * (NextNumber(gridLongitude) as real / CELLS);
    Coordinates((latitudeMin + latitudeMax) / 2.0, (longitudeMin + longitudeMax) / 2.0)
  }

  function Decode(code: Uint64): Coordinates {
    CellCenter(Even(code), OddPlaces(code))
  }

  // ----- cells -----

  lemma ValidIsEncodable(c: Coordinates)
    requires IsValidPair(c)
    ensures Encodable(c)
    ensures NormalizedLatitude(c.latitude).Floor <= 0x400_0000
    ensures NormalizedLongitude(c.longitude).Floor <= 0x400_0000
    ensures NormalizedLongitude(c.longitude).Floor == 0x400_0000 <==> c.longitude == MAX_LONGITUDE
    ensures NormalizedLatitude(c.latitude).Floor == 0x400_0000 <==> c.latitude == MAX_LATITUDE
  {
  }

  /** The coordinates of a code are the cell numbers it was made from. */
  lemma PartsOfEncode(c: Coordinates)
    requires Encodable(c)
    ensures Value(Even(Encode(c))) == NormalizedLatitude(c.latitude).Floor
    ensures Value(OddPlaces(Encode(c))) == NormalizedLongitude(c.longitude).Floor
  {
    hide Even, OddPlaces, Interleave, Value;
    var x, y := ToUint32(NormalizedLatitude(c.latitude)), ToUint32(NormalizedLongitude(c.longitude));
    EvenOfInterleave(x, y);
    OddOfInterleave(x, y);
  }

  /** In degrees: the cell of a position is the one whose edges enclose it, on a grid of 2^26 cells each way between
      85.05112878 degrees south and north and between 180 degrees west and east. */
  lemma CellsInDegrees(c: Coordinates)
    ensures IsValidPair(c) <==> -85.05112878 <= c.latitude <= 85.05112878 && -180.0 <= c.longitude <= 180.0
    ensures IsValidPair(c) ==> Encodable(c)
    ensures Encodable(c) ==>
              var row, column := Value(Even(Encode(c))) as real, Value(OddPlaces(Encode(c))) as real;
              && row * 170.10225756 <= (c.latitude + 85.05112878) * 67108864.0 < (row + 1.0) * 170.10225756
              && column * 360.0 <= (c.longitude + 180.0) * 67108864.0 < (column + 1.0) * 360.0
  {
    RowInDegrees(c.latitude);
    ColumnInDegrees(c.longitude);
    if IsValidPair(c) {
      ValidIsEncodable(c);
    }
    if Encodable(c) {
      PartsOfEncode(c);
    }
    hide Value, Even, OddPlaces, Encode, NormalizedLatitude, NormalizedLongitude, FitsUint32;
  }

  lemma RowInDegrees(latitude: real)
    ensures var row := NormalizedLatitude(latitude).Floor as real;
            row * 170.10225756 <= (latitude + 85.05112878) * 67108864.0 < (row + 1.0) * 170.10225756
  {
    var n := NormalizedLatitude(latitude);
    assert n * 170.10225756 == (latitude + 85.05112878) * 67108864.0;
  }

  lemma ColumnInDegrees(longitude: real)
    ensures var column := NormalizedLongitude(longitude).Floor as real;
            column * 360.0 <= (longitude + 180.0) * 67108864.0 < (column + 1.0) * 360.0
  {
    var n := NormalizedLongitude(longitude);
    assert n * 360.0 == (longitude + 180.0) * 67108864.0;
  }

  /** The next number of the highest is 0: the centre of its cell is half way to the lower edge of the grid. */
  lemma TopCellWraps(x: Uint32, y: Uint32)
    ensures Value(x) == 0xFFFF_FFFF ==>
              CellCenter(x, y).latitude == MIN_LATITUDE + LATITUDE_RANGE * (2147483647.5 / CELLS)
    ensures Value(y) == 0xFFFF_FFFF ==>
              CellCenter(x, y).longitude == MIN_LONGITUDE + LONGITUDE_RANGE * (2147483647.5 / CELLS)
  {
    hide Value;
  }

  /** The centre of a cell, unless its number is the highest of 32 bits. */
  lemma CenterOf(x: Uint32, y: Uint32)
    requires Value(x) < 0xFFFF_FFFF && Value(y) < 0xFFFF_FFFF
    ensures CellCenter(x, y) ==
            Coordinates(MIN_LATITUDE + LATITUDE_RANGE * ((Value(x) as real + 0.5) / CELLS),
                        MIN_LONGITUDE + LONGITUDE_RANGE * ((Value(y) as real + 0.5) / CELLS))
  {
    hide Value;
    assert NextNumber(x) as real == Value(x) as real + 1.0;
    assert NextNumber(y) as real == Value(y) as real + 1.0;
  }

  function Abs(r: real): real { if r < 0.0 then -r else r }

  function LatitudeCenter(latitude: real): real {
    MIN_LATITUDE + LATITUDE_RANGE * ((NormalizedLatitude(latitude).Floor as real + 0.5) / CELLS)
  }

  function LongitudeCenter(longitude: real): real {
    MIN_LONGITUDE + LONGITUDE_RANGE * ((NormalizedLongitude(longitude).Floor as real + 0.5) / CELLS)
  }

  lemma LatitudeIsClose(latitude: real)
    ensures Abs(LatitudeCenter(latitude) - latitude) <= LATITUDE_RANGE / (2.0 * CELLS)
  {
    var t := NormalizedLatitude(latitude);
    assert latitude == MIN_LATITUDE + LATITUDE_RANGE * (t / CELLS);
  }

  lemma LongitudeIsClose(longitude: real)
    ensures Abs(LongitudeCenter(longitude) - longitude) <= LONGITUDE_RANGE / (2.0 * CELLS)
  {
    var t := NormalizedLongitude(longitude);
    assert longitude == MIN_LONGITUDE + LONGITUDE_RANGE * (t / CELLS);
  }

  /** Decoding a valid position gives one at most half a cell away. */
  lemma DecodeIsClose(c: Coordinates)
    requires IsValidPair(c)
    ensures Encodable(c)
    ensures Abs(Decode(Encode(c)).latitude - c.latitude) <= LATITUDE_RANGE / (2.0 * CELLS)
    ensures Abs(Decode(Encode(c)).longitude - c.longitude) <= LONGITUDE_RANGE / (2.0 * CELLS)
  {
    DecodeOfEncode(c);
    LatitudeIsClose(c.latitude);
    LongitudeIsClose(c.longitude);
  }

  /** The decoded position is the centre of the cell the position lies in. */
  lemma DecodeOfEncode(c: Coordinates)
    requires IsValidPair(c)
    ensures Encodable(c)
    ensures Decode(Encode(c)) == Coordinates(LatitudeCenter(c.latitude), LongitudeCenter(c.longitude))
  {
    ValidIsEncodable(c);
    PartsOfEncode(c);
    hide *;
    CenterFor(Even(Encode(c)), OddPlaces(Encode(c)), c);
    DecodeIsCenter(Encode(c));
  }

  lemma DecodeIsCenter(code: Uint64)
    ensures Decode(code) == CellCenter(Even(code), OddPlaces(code))
  {
  }

  lemma CenterFor(x: Uint32, y: Uint32, c: Coordinates)
    requires Value(x) == NormalizedLatitude(c.latitude).Floor <= 0x400_0000
    requires Value(y) == NormalizedLongitude(c.longitude).Floor <= 0x400_0000
    ensures CellCenter(x, y) == Coordinates(LatitudeCenter(c.latitude), LongitudeCenter(c.longitude))
  {
    hide Value, CellCenter, NormalizedLatitude, NormalizedLongitude;
    CenterOf(x, y);
  }

  /** A word below 2^26 denotes a number below 2^26. */
  lemma SmallValue(x: Uint32)
    requires Fits(x, 26)
    ensures Value(x) < 0x400_0000
  {
    Powers();
    WordOfValue(x, 26);
  }

  /** Every code of 52 bits is the code of its cell's centre. */
  lemma EncodeOfDecode(code: Uint64)
    requires Fits(code, 52)
    ensures IsValidPair(Decode(code)) && Encodable(Decode(code)) && Encode(Decode(code)) == code
  {
    hide Value, Even, OddPlaces, CellCenter, Fits, Interleave, FromNat;
    FitsByParts(code, 26);
    var x, y := Even(code), OddPlaces(code);
    SmallValue(x);
    SmallValue(y);
    CenterOf(x, y);
    CellOfCenter(x, y);
    var c := Decode(code);
    ValidIsEncodable(c);
    ValueOrder(ToUint32(NormalizedLatitude(c.latitude)), x);
    ValueOrder(ToUint32(NormalizedLongitude(c.longitude)), y);
    InterleaveOfParts(code);
  }

  lemma CellOfCenter(x: Uint32, y: Uint32)
    requires Value(x) < 0x400_0000 && Value(y) < 0x400_0000
    ensures var c := CellCenter(x, y);
            && IsValidPair(c)
            && NormalizedLatitude(c.latitude).Floor == Value(x)
            && NormalizedLongitude(c.longitude).Floor == Value(y)
  {
    hide Value, CellCenter;
    CenterOf(x, y);
    var c := CellCenter(x, y);
    assert NormalizedLatitude(c.latitude) == Value(x) as real + 0.5;
    assert NormalizedLongitude(c.longitude) == Value(y) as real + 0.5;
  }

  // ----- codes as scores -----

  /** The nearest number with a 53-bit significand, for numbers below 2^54: ties go to the even significand
      (section 4.3.1 of IEEE 754-2008). */
  function NearestFloat64(n: nat): nat
    requires n < 0x40_0000_0000_0000
  {
    if n < 0x20_0000_0000_0000 || n % 2 == 0 then n
    else if (n / 2) % 2 == 0 then n - 1
    else n + 1
  }

  /** A number below 2^54 that a 53-bit significand holds. */
  predicate IsFloat64(m: nat) { m <= 0x20_0000_0000_0000 || m % 2 == 0 }

  /** Rounding gives a float that no other is closer than, and of two that are equally close the one whose
      significand is even. */
  lemma NearestIsNearest(n: nat, m: nat)
    requires n < 0x40_0000_0000_0000 && IsFloat64(m)
    ensures var r := NearestFloat64(n);
            && IsFloat64(r)
            && Distance(n, r) <= Distance(n, m)
            && (Distance(n, r) == Distance(n, m) && r != m ==> (r / 2) % 2 == 0)
  {
  }

  function Distance(a: nat, b: nat): nat { if a < b then b - a else a - b }

  function ToUint64(score: real): (code: Uint64)
    requires 0.0 <= score < 18446744073709551616.0
    ensures Value(code) == score.Floor
  {
    Powers();
    ValueOfWord(score.Floor, 64);
    Word(score.Floor, 64)
  }

  /** A valid code as it is stored in the sorted set, whose scores are floats. */
  function StoredScore(code: Uint64): (score: real)
    requires Value(code) < 0x40_0000_0000_0000
    ensures 0.0 <= score < 18446744073709551616.0
  {
    NearestFloat64(Value(code)) as real
  }

  lemma LowBits(c: Uint64)
    ensures Odd(Even(c)) == Odd(c)
    ensures Even(Half(c)) == OddPlaces(c) && OddPlaces(Half(c)) == Half(Even(c))
  {
    hide Compact, Half, Odd;
    CompactStep(c);
    OddOfOr(c, Compact(Half(Half(c))));
    EvenOfQuarter(c);
  }

  lemma OddOfOr(b: bv64, w: bv64)
    ensures Odd((b & 1) | (w << 1)) == Odd(b)
  {
  }

  /** A 53-bit code is one whose longitude has 26 bits and whose latitude has 27. */
  lemma Fits53(c: Uint64)
    ensures Fits(c, 53) <==> Fits(Even(c), 27) && Fits(OddPlaces(c), 26)
  {
    hide Even, OddPlaces, Half;
    LowBits(c);
    FitsByParts(Half(c), 26);
    assert Fits(c, 53) == Fits(Half(c), 52);
    assert Fits(Even(c), 27) == Fits(Half(Even(c)), 26);
  }

  /** Positions west of the 180th meridian have codes below 2^53; all valid ones have codes below 2^54. */
  lemma CodeSize(c: Coordinates)
    requires IsValidPair(c)
    ensures Encodable(c) && Value(Encode(c)) < 0x40_0000_0000_0000
    ensures Value(Encode(c)) < 0x20_0000_0000_0000 <==> c.longitude < MAX_LONGITUDE
  {
    hide Value, Even, OddPlaces, Encode, Fits, NormalizedLatitude, NormalizedLongitude, Pow2;
    ValidIsEncodable(c);
    PartsOfEncode(c);
    Powers();
    var code := Encode(c);
    FitsByValue(Even(code), 27);
    FitsByValue(OddPlaces(code), 26);
    FitsByValue(OddPlaces(code), 27);
    FitsByValue(code, 53);
    FitsByValue(code, 54);
    FitsByParts(code, 27);
    Fits53(code);
  }

  lemma ValueByHalves(c: bv64)
    ensures Value(c) == (if Odd(c) then 1 else 0) + 2 * Value(Half(c))
  {
    AllFit(c);
    LowOfFitting(Half(c), 63, 64);
  }

  /** Clearing the lowest bit of a code takes one off its latitude cell. */
  lemma OneCellSouth(code: Uint64) returns (south: Uint64)
    requires Odd(code)
    ensures Value(south) == Value(code) - 1
    ensures Value(Even(south)) == Value(Even(code)) - 1 && OddPlaces(south) == OddPlaces(code)
  {
    hide Odd, Half, Even, OddPlaces, Value, WithBit, HasRoom;
    south := WithBit(Half(code), false);
    AllFit(code);
    assert Fits(Half(code), 63);
    TopBitClear(Half(code), 63);
    HalfOfWithBit(Half(code), false);
    ValueByHalves(code);
    ValueByHalves(south);
    LowBits(code);
    LowBits(south);
    ValueByHalves(Even(code));
    ValueByHalves(Even(south));
  }

  lemma SameCode(n: nat, code: Uint64)
    requires Value(code) == n && n < 0x1_0000_0000_0000_0000
    ensures ToUint64(n as real) == code
  {
    hide Value, Word;
    ValueOrder(ToUint64(n as real), code);
  }

  /** Storing the code of a position as a float and reading it back gives the position of its cell, except on the
      180th meridian in odd latitude cells: there the float is the code of the cell to the south. */
  lemma GeoPosReadsWhatGeoAddStored(c: Coordinates)
    requires IsValidPair(c)
    ensures Encodable(c) && Value(Encode(c)) < 0x40_0000_0000_0000
    ensures Decode(ToUint64(StoredScore(Encode(c)))) == Decode(Encode(c)) <==>
            c.longitude < MAX_LONGITUDE || NormalizedLatitude(c.latitude).Floor % 2 == 0
    ensures var code, stored := Encode(c), ToUint64(StoredScore(Encode(c)));
            && OddPlaces(stored) == OddPlaces(code)
            && Value(Even(stored)) ==
               Value(Even(code)) -
               (if c.longitude < MAX_LONGITUDE || NormalizedLatitude(c.latitude).Floor % 2 == 0 then 0 else 1)
  {
    hide Value, Even, OddPlaces, Encode, Decode, NormalizedLatitude, NormalizedLongitude, ToUint64, Odd, Half;
    CodeSize(c);
    ValidIsEncodable(c);
    PartsOfEncode(c);
    var code := Encode(c);
    LowBits(code);
    ValueByHalves(code);
    ValueByHalves(Even(code));
    if c.longitude < MAX_LONGITUDE || NormalizedLatitude(c.latitude).Floor % 2 == 0 {
      SameCode(Value(code), code);
    } else {
      MeridianRoundsDown(code);
    }
  }

  lemma MeridianRoundsDown(code: Uint64)
    requires Odd(code) && 0x20_0000_0000_0000 <= Value(code) < 0x40_0000_0000_0000
    requires Value(OddPlaces(code)) == 0x400_0000 && Value(Even(code)) <= 0x400_0000
    ensures Decode(ToUint64(StoredScore(code))) != Decode(code)
    ensures var stored := ToUint64(StoredScore(code));
            Value(Even(stored)) == Value(Even(code)) - 1 && OddPlaces(stored) == OddPlaces(code)
  {
    hide Value, Even, OddPlaces, CellCenter, ToUint64, Odd, Half;
    ValueByHalves(code);
    LowBits(code);
    LowBits(Half(code));
    ValueByHalves(Half(code));
    ValueByHalves(OddPlaces(code));
    assert (Value(code) / 2) % 2 == 0;
    var south := OneCellSouth(code);
    SameCode(Value(code) - 1, south);
    CenterOf(Even(code), OddPlaces(code));
    CenterOf(Even(south), OddPlaces(south));
  }
}
