/** GPS decoding: the four GPS sub-tags of an image's metadata turned into a
    signed decimal-degree position (`convert_to_degrees`, `get_gps_location`). */
module Gps {
  import opened Wrappers
  import opened Errors

  /** A decoded GPS sub-tag value: text (the hemisphere references) or a
      degrees/minutes/seconds triple (latitude and longitude). */
  datatype GpsValue = Str(text: string) | Dms(degrees: real, minutes: real, seconds: real)

  /** A position in signed decimal degrees. */
  datatype Coord = Coord(latitude: real, longitude: real)

  /** The decoded `GPSInfo` block: sub-tag name to value. */
  type GpsInfo = map<string, GpsValue>

  const LatitudeTag: string := "GPSLatitude"
  const LatitudeRefTag: string := "GPSLatitudeRef"
  const LongitudeTag: string := "GPSLongitude"
  const LongitudeRefTag: string := "GPSLongitudeRef"

  /** Degrees, minutes and seconds as decimal degrees: the result counts the
      same number of arc-seconds as the triple. */
  function ToDegrees(d: real, m: real, s: real): (r: real)
    ensures 3600.0 * r == 3600.0 * d + 60.0 * m + s
  {
    d + m / 60.0 + s / 3600.0
  }

  /** With whole minutes below 60 and seconds below 60, the decimal value lies
      in the whole degree the triple names. */
  lemma ToDegreesWithinDegree(d: real, m: real, s: real)
    requires m == m.Floor as real && 0.0 <= m < 60.0 && 0.0 <= s < 60.0
    ensures d <= ToDegrees(d, m, s) < d + 1.0
  {
    assert m <= 59.0;
    assert 60.0 * m + s < 3600.0;
  }

  function Get(gps: GpsInfo, tag: string): Option<GpsValue> {
    if tag in gps then Some(gps[tag]) else None
  }

  /** Python truthiness of a looked-up sub-tag: a missing tag and an empty
      string are false; any triple (a non-empty tuple) is true, even 0/0/0. */
  predicate Truthy(v: Option<GpsValue>) {
    match v
    case None => false
    case Some(Str(t)) => t != ""
    case Some(Dms(_, _, _)) => true
  }

  /** All four sub-tags needed for a position are present and truthy. */
  predicate HasPosition(gps: GpsInfo) {
    && Truthy(Get(gps, LatitudeTag))
    && Truthy(Get(gps, LatitudeRefTag))
    && Truthy(Get(gps, LongitudeTag))
    && Truthy(Get(gps, LongitudeRefTag))
  }

  /** Negates `magnitude` unless the hemisphere reference is exactly `positive`. */
  function Signed(magnitude: real, reference: GpsValue, positive: string): (r: real)
    ensures reference == Str(positive) ==> r == magnitude
    ensures reference != Str(positive) ==> r == -magnitude
  {
    if reference == Str(positive) then magnitude else -magnitude
  }

  /** The position recorded in a `GPSInfo` block, `None` when it lacks one, or
      a failure when a truthy coordinate is not a triple. */
  function GpsLocation(gps: GpsInfo): (r: Result<Option<Coord>, Error>)
    ensures r == Success(None) <==> !HasPosition(gps)
    ensures r.Failure? <==> HasPosition(gps) && (!gps[LatitudeTag].Dms? || !gps[LongitudeTag].Dms?)
    ensures r.Success? && r.value.Some? ==>
              && HasPosition(gps)
              && gps[LatitudeTag].Dms? && gps[LongitudeTag].Dms?
              && var lat, lon := gps[LatitudeTag], gps[LongitudeTag];
              && (gps[LatitudeRefTag] == Str("N") ==> r.value.value.latitude == ToDegrees(lat.degrees, lat.minutes, lat.seconds))
              && (gps[LatitudeRefTag] != Str("N") ==> r.value.value.latitude == -ToDegrees(lat.degrees, lat.minutes, lat.seconds))
              && (gps[LongitudeRefTag] == Str("E") ==> r.value.value.longitude == ToDegrees(lon.degrees, lon.minutes, lon.seconds))
              && (gps[LongitudeRefTag] != Str("E") ==> r.value.value.longitude == -ToDegrees(lon.degrees, lon.minutes, lon.seconds))
  {
    if |gps| == 0 then Success(None)
    else if !HasPosition(gps) then Success(None)
    else
      var lat := gps[LatitudeTag];
      var lon := gps[LongitudeTag];
      if !lat.Dms? then Failure(MalformedCoordinate(LatitudeTag))
      else if !lon.Dms? then Failure(MalformedCoordinate(LongitudeTag))
      else
        var latitude := Signed(ToDegrees(lat.degrees, lat.minutes, lat.seconds), gps[LatitudeRefTag], "N");
        var longitude := Signed(ToDegrees(lon.degrees, lon.minutes, lon.seconds), gps[LongitudeRefTag], "E");
        Success(Some(Coord(latitude, longitude)))
  }

  /** An empty `GPSInfo` block (including a missing one) yields no position. */
  lemma EmptyGpsInfoHasNoPosition()
    ensures GpsLocation(map[]) == Success(None)
  {
  }

  /** A southern-hemisphere 10 degrees 30 minutes is latitude -10.5. */
  lemma SouthernLatitudeExample()
    ensures GpsLocation(map[LatitudeTag := Dms(10.0, 30.0, 0.0), LatitudeRefTag := Str("S"),
                            LongitudeTag := Dms(5.0, 0.0, 0.0), LongitudeRefTag := Str("E")])
            == Success(Some(Coord(-10.5, 5.0)))
  {
  }

  /** A position exactly on the equator and the prime meridian is reported,
      not dropped: a zero triple is still a truthy tuple. */
  lemma ZeroPositionIsReported()
    ensures GpsLocation(map[LatitudeTag := Dms(0.0, 0.0, 0.0), LatitudeRefTag := Str("N"),
                            LongitudeTag := Dms(0.0, 0.0, 0.0), LongitudeRefTag := Str("E")])
            == Success(Some(Coord(0.0, 0.0)))
  {
  }

  /** Switching the latitude reference from north to south mirrors the
      latitude and keeps the longitude. */
  lemma HemisphereMirror(gps: GpsInfo)
    requires HasPosition(gps) && gps[LatitudeTag].Dms? && gps[LongitudeTag].Dms?
    ensures var north := GpsLocation(gps[LatitudeRefTag := Str("N")]);
            var south := GpsLocation(gps[LatitudeRefTag := Str("S")]);
            && north.Success? && north.value.Some?
            && south.Success? && south.value.Some?
            && south.value.value.latitude == -north.value.value.latitude
            && south.value.value.longitude == north.value.value.longitude
  {
    var north := gps[LatitudeRefTag := Str("N")];
    var south := gps[LatitudeRefTag := Str("S")];
    assert Get(north, LatitudeRefTag) == Some(Str("N"));
    assert Get(south, LatitudeRefTag) == Some(Str("S"));
    assert HasPosition(north) && HasPosition(south);
  }
}
