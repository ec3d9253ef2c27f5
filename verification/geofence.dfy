/**
 * The geofence evaluator of the attendance server (`isLocationAllowed`):
 * the configured zones are scanned in declaration order and the first zone
 * whose radius and elevation tolerance both admit the claimed position wins.
 *
 * The haversine distance is floating-point trigonometry; here it is a
 * parameter `dist` of type `Distance`, about which nothing is assumed except
 * where a lemma says so in its `requires`.
 */
module GeoFence {
  import opened Wrappers

  datatype Point = Point(lat: real, lng: real)

  /** Great-circle distance in metres between two points. */
  type Distance = (Point, Point) -> real

  datatype Zone = Zone(name: string, center: Point, elevation: real, radius: real)

  /** Allowed difference, in metres, between claimed and zone elevation. */
  const ElevationTolerance: real := 10.0

  /** The elevation the attendance handler assumes when the client sends none. */
  const DefaultElevation: real := 242.0

  /** The zones of the deployed server, in declaration order. */
  const AllowedLocations: seq<Zone> := [
    Zone("My Location", Point(21.09509835312697, 79.07928090334806), 242.0, 25.0),
    Zone("PS Location", Point(21.096123, 79.080123), 245.0, 20.0),
    Zone("403 Test", Point(21.176865486, 79.061328692), 288.80, 50.0),
    Zone("Mech Building", Point(21.094001, 79.078001), 240.0, 50.0),
    Zone("DT-701", Point(21.097555, 79.081555), 250.0, 10.0)
  ]

  /** `{allowed, location}`: the verdict and the matched zone's name (`null` when denied). */
  datatype LocationCheck = LocationCheck(allowed: bool, location: Option<string>)

  function Abs(x: real): real {
    if x < 0.0 then -x else x
  }

  /** `elevation || zone.elevation`: a missing or zero elevation is falsy and replaced by the zone's own. */
  function EffectiveElevation(elevation: Option<real>, zone: Zone): real {
    if elevation.None? || elevation.value == 0.0 then zone.elevation else elevation.value
  }

  /** The zone admits the claim: within its radius and within the elevation tolerance. */
  predicate ZoneMatches(dist: Distance, zone: Zone, p: Point, elevation: Option<real>) {
    && dist(p, zone.center) <= zone.radius
    && Abs(EffectiveElevation(elevation, zone) - zone.elevation) <= ElevationTolerance
  }

  /** `isLocationAllowed(lat, lng, elevation)` over the zone list `zones`. */
  function IsLocationAllowed(dist: Distance, zones: seq<Zone>, p: Point, elevation: Option<real>): (r: LocationCheck)
    ensures r.allowed <==> exists z :: z in zones && ZoneMatches(dist, z, p, elevation)
    ensures r.allowed <==> r.location.Some?
    ensures r.allowed ==> exists z :: z in zones && ZoneMatches(dist, z, p, elevation) && r.location == Some(z.name)
  {
    if |zones| == 0 then LocationCheck(false, None)
    else if ZoneMatches(dist, zones[0], p, elevation) then LocationCheck(true, Some(zones[0].name))
    else IsLocationAllowed(dist, zones[1..], p, elevation)
  }

  /** `i` is the first zone, in declaration order, that admits the claim. */
  predicate IsFirstMatch(dist: Distance, zones: seq<Zone>, p: Point, elevation: Option<real>, i: nat) {
    && i < |zones|
    && ZoneMatches(dist, zones[i], p, elevation)
    && forall j :: 0 <= j < i ==> !ZoneMatches(dist, zones[j], p, elevation)
  }

  /** The first matching zone decides: the result names it. */
  lemma {:induction false} FirstMatchWins(dist: Distance, zones: seq<Zone>, p: Point, elevation: Option<real>, i: nat)
    requires IsFirstMatch(dist, zones, p, elevation, i)
    ensures IsLocationAllowed(dist, zones, p, elevation) == LocationCheck(true, Some(zones[i].name))
  {
    if i > 0 {
      assert !ZoneMatches(dist, zones[0], p, elevation);
      assert IsFirstMatch(dist, zones[1..], p, elevation, i - 1) by {
        forall j | 0 <= j < i - 1 ensures !ZoneMatches(dist, zones[1..][j], p, elevation) {
          assert zones[1..][j] == zones[j + 1];
        }
      }
      FirstMatchWins(dist, zones[1..], p, elevation, i - 1);
    }
  }

  /** Conversely, an allowed verdict always comes from the first matching zone. */
  lemma {:induction false} AllowedOnlyByFirstMatch(dist: Distance, zones: seq<Zone>, p: Point, elevation: Option<real>)
    requires IsLocationAllowed(dist, zones, p, elevation).allowed
    ensures exists i: nat :: IsFirstMatch(dist, zones, p, elevation, i)
              && IsLocationAllowed(dist, zones, p, elevation).location == Some(zones[i].name)
  {
    if ZoneMatches(dist, zones[0], p, elevation) {
      assert IsFirstMatch(dist, zones, p, elevation, 0);
    } else {
      AllowedOnlyByFirstMatch(dist, zones[1..], p, elevation);
      var i: nat :| IsFirstMatch(dist, zones[1..], p, elevation, i)
                  && IsLocationAllowed(dist, zones[1..], p, elevation).location == Some(zones[1..][i].name);
      assert IsFirstMatch(dist, zones, p, elevation, i + 1) by {
        forall j | 0 <= j < i + 1 ensures !ZoneMatches(dist, zones[j], p, elevation) {
          if j > 0 { assert zones[j] == zones[1..][j - 1]; }
        }
      }
    }
  }

  /** With no admitting zone the verdict is `{allowed: false, location: null}`. */
  lemma NoMatchDenied(dist: Distance, zones: seq<Zone>, p: Point, elevation: Option<real>)
    requires forall z :: z in zones ==> !ZoneMatches(dist, z, p, elevation)
    ensures IsLocationAllowed(dist, zones, p, elevation) == LocationCheck(false, None)
  {
  }

  /** A falsy elevation (missing or 0) is never the reason for a denial: only distance decides. */
  lemma {:induction false} FalsyElevationOnlyDistance(dist: Distance, zones: seq<Zone>, p: Point, elevation: Option<real>)
    requires elevation.None? || elevation.value == 0.0
    ensures IsLocationAllowed(dist, zones, p, elevation).allowed
            <==> exists z :: z in zones && dist(p, z.center) <= z.radius
  {
    if |zones| > 0 {
      assert EffectiveElevation(elevation, zones[0]) == zones[0].elevation;
      FalsyElevationOnlyDistance(dist, zones[1..], p, elevation);
      assert forall z :: z in zones <==> z == zones[0] || z in zones[1..];
    }
  }

  /** The elevation the handler passes on: the submitted one, or 242 when omitted. */
  function HandlerElevation(submitted: Option<real>): (e: real)
    ensures submitted.None? ==> e == DefaultElevation
    ensures submitted.Some? ==> e == submitted.value
  {
    submitted.GetOr(DefaultElevation)
  }

  /**
   * An omitted elevation becomes 242, which lies within the tolerance of every
   * configured zone except '403 Test' (288.8 m): there only the distance decides.
   */
  lemma OmittedElevationPassesElevationCheck(dist: Distance, p: Point, i: nat)
    requires i < |AllowedLocations| && i != 2
    ensures ZoneMatches(dist, AllowedLocations[i], p, Some(HandlerElevation(None)))
            <==> dist(p, AllowedLocations[i].center) <= AllowedLocations[i].radius
  {
  }

  /** ... whereas at '403 Test' an omitted elevation is always refused. */
  lemma OmittedElevationFailsAt403Test(dist: Distance, p: Point)
    ensures !ZoneMatches(dist, AllowedLocations[2], p, Some(HandlerElevation(None)))
  {
  }

  /** Standing on the centre of 'My Location' at elevation 242 is allowed and named 'My Location'. */
  lemma CentreOfFirstZoneAllowed(dist: Distance)
    requires dist(AllowedLocations[0].center, AllowedLocations[0].center) == 0.0
    ensures IsLocationAllowed(dist, AllowedLocations, AllowedLocations[0].center, Some(242.0))
            == LocationCheck(true, Some("My Location"))
  {
  }
}
