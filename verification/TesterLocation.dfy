/** The tester's geocoder, written out separately from the server's, and their agreement. */
module TesterLocation {
  import opened Numbers
  import opened Words
  import opened Morton
  import opened Geocoding

  const LATITUDE_MAX: real := 85.05112878
  const LONGITUDE_MAX: real := 180.0
  const LATITUDE_MIN: real := -LATITUDE_MAX
  const LONGITUDE_MIN: real := -LONGITUDE_MAX

  /** `GetGeoCode`: the code is the server's. The condition is the range in which Go defines the conversions. */
  method GetGeoCode(c: Coordinates) returns (code: Uint64)
    requires Encodable(c)
    ensures code == Encode(c)
  {
    var latitudeOffset := (c.latitude - LATITUDE_MIN) / (LATITUDE_MAX - LATITUDE_MIN);
    var longitudeOffset := (c.longitude - LONGITUDE_MIN) / (LONGITUDE_MAX - LONGITUDE_MIN);
    latitudeOffset := latitudeOffset * CELLS;
    longitudeOffset := longitudeOffset * CELLS;
    assert latitudeOffset == NormalizedLatitude(c.latitude) && longitudeOffset == NormalizedLongitude(c.longitude);

    SameNumber(latitudeOffset);
    SameNumber(longitudeOffset);
    hide *;
    var x := SpreadInPlace(ToUint64(latitudeOffset));
    var y := SpreadInPlace(ToUint64(longitudeOffset));
    Joined(x, y, c);
    code := x | (y << 1);
  }

  lemma Joined(x: bv64, y: bv64, c: Coordinates)
    requires Encodable(c)
    requires x == Spread(ToUint32(NormalizedLatitude(c.latitude)))
    requires y == Spread(ToUint32(NormalizedLongitude(c.longitude)))
    ensures x | (y << 1) == Encode(c)
  {
    hide Spread, ToUint32;
  }

  /** The steps that spread the latitude bits, and again the longitude bits. */
  method SpreadInPlace(v: Uint32) returns (x: bv64)
    ensures x == Spread(v)
  {
    x := v;
    x := (x | (x << 16)) & 0x0000FFFF0000FFFF;
    x := (x | (x << 8)) & 0x00FF00FF00FF00FF;
    x := (x | (x << 4)) & 0x0F0F0F0F0F0F0F0F;
    x := (x | (x << 2)) & 0x3333333333333333;
    x := (x | (x << 1)) & 0x5555555555555555;
  }

  /** The steps that gather the latitude bits, and again the longitude bits. */
  method CompactInPlace(c: Uint64) returns (x: bv64)
    ensures x == Compact(c)
  {
    x := c & 0x5555555555555555;
    x := (x | (x >> 1)) & 0x3333333333333333;
    x := (x | (x >> 2)) & 0x0F0F0F0F0F0F0F0F;
    x := (x | (x >> 4)) & 0x00FF00FF00FF00FF;
    x := (x | (x >> 8)) & 0x0000FFFF0000FFFF;
    x := (x | (x >> 16)) & 0x00000000FFFFFFFF;
  }

  /** Converting to 64 bits, as the tester does, or to 32, as the server does, gives the same word. */
  lemma SameNumber(r: real)
    requires FitsUint32(r)
    ensures ToUint64(r) == ToUint32(r)
  {
    hide Value, Word;
    ValueOrder(ToUint64(r), ToUint32(r));
  }

  /** `decodeGeoCodeToCoordinates`: the server's position, or a panic (`None`) if that is out of range. */
  method DecodeGeoCode(geoCode: Uint64) returns (r: Option<Coordinates>)
    ensures r == if IsValidPair(Decode(geoCode)) then Some(Decode(geoCode)) else None
  {
    hide Value, Compact, NextNumber;
    var x := CompactInPlace(geoCode);
    var y := CompactInPlace(geoCode >> 1);
    var latitudeScale := LATITUDE_MAX - LATITUDE_MIN;
    var longitudeScale := LONGITUDE_MAX - LONGITUDE_MIN;
    var gridLatitudeMin := LATITUDE_MIN + latitudeScale * (Value(x) as real * 1.0 / CELLS);
    var gridLatitudeMax := LATITUDE_MIN + latitudeScale * (NextNumber(x) as real * 1.0 / CELLS);
    var gridLongitudeMin := LONGITUDE_MIN + longitudeScale * (Value(y) as real * 1.0 / CELLS);
    var gridLongitudeMax := LONGITUDE_MIN + longitudeScale * (NextNumber(y) as real * 1.0 / CELLS);
    var c := Coordinates((gridLatitudeMin + gridLatitudeMax) / 2.0, (gridLongitudeMin + gridLongitudeMax) / 2.0);
    assert c == Decode(geoCode);
    if !IsValidPair(c) {
      return None;
    }
    r := Some(c);
  }

  /** Taking a valid position to the centre of its cell works for the tester exactly off the two upper edges:
      on an edge the cell lies outside the grid and its centre outside the valid range. */
  lemma CenterIsValid(c: Coordinates)
    requires IsValidPair(c)
    ensures Encodable(c)
    ensures IsValidPair(Decode(Encode(c))) <==> c.latitude < MAX_LATITUDE && c.longitude < MAX_LONGITUDE
  {
    DecodeOfEncode(c);
    hide Decode, Encode;
    LatitudeCenterInRange(c.latitude);
    LongitudeCenterInRange(c.longitude);
  }

  lemma LatitudeCenterInRange(latitude: real)
    requires MIN_LATITUDE <= latitude <= MAX_LATITUDE
    ensures MIN_LATITUDE <= LatitudeCenter(latitude) <= MAX_LATITUDE <==> latitude < MAX_LATITUDE
  {
  }

  lemma LongitudeCenterInRange(longitude: real)
    requires MIN_LONGITUDE <= longitude <= MAX_LONGITUDE
    ensures MIN_LONGITUDE <= LongitudeCenter(longitude) <= MAX_LONGITUDE <==> longitude < MAX_LONGITUDE
  {
  }
}
