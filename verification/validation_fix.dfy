/**
 * The diagnostics script's own copy of the location check (a fixed 5 m
 * radius around three campus points, no falsy-elevation fallback) with the
 * expectations of its test table, and its classifier of error messages.
 */
module ValidationFix {
  import opened Wrappers
  import opened Strings
  import GeoFence

  /** A configured campus point: centre and elevation, in metres. */
  datatype Site = Site(center: GeoFence.Point, elevation: real)

  /** The radius, in metres, every site admits. */
  const FixedRadius: real := 5.0

  const CampusSites: seq<Site> := [
    Site(GeoFence.Point(21.0945451, 79.0790567), 242.0),
    Site(GeoFence.Point(21.176909, 79.060779), 242.0),
    Site(GeoFence.Point(21.1772037, 79.0607161), 242.0)
  ]

  /**
   * `|elevation - site.elevation| <= 10` and within the radius. An omitted
   * elevation makes the difference NaN, which compares false: it never matches.
   */
  predicate SiteMatches(dist: GeoFence.Distance, site: Site, p: GeoFence.Point, elevation: Option<real>) {
    && dist(p, site.center) <= FixedRadius
    && elevation.Some?
    && GeoFence.Abs(elevation.value - site.elevation) <= GeoFence.ElevationTolerance
  }

  /** The scan over `sites`, returning at the first match. */
  function AnySiteMatches(dist: GeoFence.Distance, sites: seq<Site>, p: GeoFence.Point, elevation: Option<real>): (r: bool)
    ensures r <==> exists i :: 0 <= i < |sites| && SiteMatches(dist, sites[i], p, elevation)
  {
    if sites == [] then false
    else if SiteMatches(dist, sites[0], p, elevation) then true
    else
      assert forall i :: 1 <= i < |sites| ==> sites[i] == sites[1..][i - 1];
      AnySiteMatches(dist, sites[1..], p, elevation)
  }

  /** `ValidationFixer.isLocationAllowed(lat, lng, elevation)`. */
  function IsLocationAllowed(dist: GeoFence.Distance, p: GeoFence.Point, elevation: Option<real>): (r: bool)
    ensures r <==> exists i :: 0 <= i < |CampusSites| && dist(p, CampusSites[i].center) <= FixedRadius
                     && elevation.Some? && GeoFence.Abs(elevation.value - 242.0) <= 10.0
    ensures elevation.None? ==> !r
  {
    AnySiteMatches(dist, CampusSites, p, elevation)
  }

  /** The exact coordinates of any configured site, at 242 m, are allowed (rows 1 and 4 of the test table). */
  lemma ExactSiteAllowed(dist: GeoFence.Distance, i: nat)
    requires i < |CampusSites|
    requires dist(CampusSites[i].center, CampusSites[i].center) == 0.0
    ensures IsLocationAllowed(dist, CampusSites[i].center, Some(242.0))
  {
    assert SiteMatches(dist, CampusSites[i], CampusSites[i].center, Some(242.0));
  }

  /** A point within 5 m of the first site, at 242 m, is allowed (row 2 of the test table). */
  lemma CloseToFirstSiteAllowed(dist: GeoFence.Distance, p: GeoFence.Point)
    requires dist(p, CampusSites[0].center) <= FixedRadius
    ensures IsLocationAllowed(dist, p, Some(242.0))
  {
    assert SiteMatches(dist, CampusSites[0], p, Some(242.0));
  }

  /** A point more than 5 m from every site is refused (row 3 of the test table). */
  lemma FarLocationRefused(dist: GeoFence.Distance, p: GeoFence.Point, elevation: Option<real>)
    requires forall i :: 0 <= i < |CampusSites| ==> dist(p, CampusSites[i].center) > FixedRadius
    ensures !IsLocationAllowed(dist, p, elevation)
  {
  }

  /** An elevation more than 10 m from every site's refuses, wherever the point is. */
  lemma ElevationOutOfToleranceRefused(dist: GeoFence.Distance, p: GeoFence.Point, e: real)
    requires forall i :: 0 <= i < |CampusSites| ==> GeoFence.Abs(e - CampusSites[i].elevation) > GeoFence.ElevationTolerance
    ensures !IsLocationAllowed(dist, p, Some(e))
  {
  }

  /** An omitted elevation is always refused, unlike the server's check. */
  lemma OmittedElevationRefused(dist: GeoFence.Distance, p: GeoFence.Point)
    ensures !IsLocationAllowed(dist, p, None)
  {
  }

  /** `{cause, solutions}` of `ErrorAnalyzer`. */
  datatype IssueInfo = IssueInfo(cause: string, solutions: seq<string>)

  /** The `commonIssues` table, in declaration order. */
  const CommonIssues: seq<(string, IssueInfo)> := [
    ("Invalid input data", IssueInfo("Form validation failed", [
      "Check email format (must be valid email)",
      "Ensure location coordinates are valid numbers",
      "Verify device ID is generated properly"])),
    ("No active attendance session", IssueInfo("Faculty has not started a session", [
      "Wait for faculty to start attendance session",
      "Check with instructor about session timing",
      "Verify you are checking at the right time"])),
    ("Student email not found", IssueInfo("Student not registered in system", [
      "Contact administration to add your email",
      "Verify you are using your official university email",
      "Check for typos in email address"])),
    ("Room mismatch", IssueInfo("Session is for different room than student assignment", [
      "Verify you are in the correct room",
      "Check your room assignment with administration",
      "Wait for session in your assigned room"])),
    ("You must be within university premises", IssueInfo("Location outside allowed campus areas", [
      "Move to campus premises",
      "Enable high-accuracy location services",
      "Try refreshing location/reloading page"])),
    ("Device already used", IssueInfo("This device was already used for attendance", [
      "Each device can only mark attendance once per session",
      "Use a different device if available",
      "Contact faculty if this is an error"]))
  ]

  /** The answer when no key matches. */
  const UnknownIssue: IssueInfo :=
    IssueInfo("Unknown error", ["Try refreshing the page", "Check server logs", "Contact technical support"])

  /** The info of the first key in `table` that `message` includes, or the unknown-error default. */
  function FirstIssue(table: seq<(string, IssueInfo)>, message: string): (r: IssueInfo)
    ensures r == UnknownIssue || exists i :: 0 <= i < |table| && r == table[i].1 && Contains(message, table[i].0)
  {
    if table == [] then UnknownIssue
    else if Contains(message, table[0].0) then table[0].1
    else
      assert forall i :: 1 <= i < |table| ==> table[i] == table[1..][i - 1];
      FirstIssue(table[1..], message)
  }

  /** `ErrorAnalyzer.analyzeValidationError(errorMessage)`. */
  function AnalyzeValidationError(message: string): (r: IssueInfo)
    ensures r == UnknownIssue
            || exists i :: 0 <= i < |CommonIssues| && r == CommonIssues[i].1 && Contains(message, CommonIssues[i].0)
  {
    FirstIssue(CommonIssues, message)
  }

  /** The first key, in declaration order, that the message includes decides. */
  lemma {:induction false} FirstKeyWins(table: seq<(string, IssueInfo)>, message: string, i: nat)
    requires i < |table| && Contains(message, table[i].0)
    requires forall j :: 0 <= j < i ==> !Contains(message, table[j].0)
    ensures FirstIssue(table, message) == table[i].1
  {
    if i > 0 {
      assert !Contains(message, table[0].0);
      forall j | 0 <= j < i - 1 ensures !Contains(message, table[1..][j].0) {
        assert table[1..][j] == table[j + 1];
      }
      FirstKeyWins(table[1..], message, i - 1);
    }
  }

  /** A message that includes no key gets the unknown-error default. */
  lemma {:induction false} NoKeyUnknown(table: seq<(string, IssueInfo)>, message: string)
    requires forall j :: 0 <= j < |table| ==> !Contains(message, table[j].0)
    ensures FirstIssue(table, message) == UnknownIssue
  {
    if table != [] {
      assert !Contains(message, table[0].0);
      forall j | 0 <= j < |table| - 1 ensures !Contains(message, table[1..][j].0) {
        assert table[1..][j] == table[j + 1];
      }
      NoKeyUnknown(table[1..], message);
    }
  }

  /** In a table whose entries all differ from the default, the default is returned exactly when no key matches. */
  lemma UnknownOnlyWhenNoKey(table: seq<(string, IssueInfo)>, message: string)
    requires forall j :: 0 <= j < |table| ==> table[j].1 != UnknownIssue
    ensures FirstIssue(table, message) == UnknownIssue
            <==> forall j :: 0 <= j < |table| ==> !Contains(message, table[j].0)
  {
    if forall j :: 0 <= j < |table| ==> !Contains(message, table[j].0) {
      NoKeyUnknown(table, message);
    } else {
      var j :| 0 <= j < |table| && Contains(message, table[j].0);
      var i := FirstKey(table, message, j);
      FirstKeyWins(table, message, i);
    }
  }

  /** No entry of the analyzer's table is the default, so the default means "no key matched". */
  lemma AnalyzerUnknownOnlyWhenNoKey(message: string)
    ensures AnalyzeValidationError(message) == UnknownIssue
            <==> forall j :: 0 <= j < |CommonIssues| ==> !Contains(message, CommonIssues[j].0)
  {
    forall j | 0 <= j < |CommonIssues| ensures CommonIssues[j].1 != UnknownIssue {
      assert |CommonIssues[j].1.cause| != |UnknownIssue.cause|;
    }
    UnknownOnlyWhenNoKey(CommonIssues, message);
  }

  /** The smallest index at or below `j` whose key the message includes. */
  lemma FirstKey(table: seq<(string, IssueInfo)>, message: string, j: nat) returns (i: nat)
    requires j < |table| && Contains(message, table[j].0)
    ensures i <= j && Contains(message, table[i].0)
    ensures forall k :: 0 <= k < i ==> !Contains(message, table[k].0)
  {
    i := j;
    while i > 0 && exists k :: 0 <= k < i && Contains(message, table[k].0)
      invariant i <= j && Contains(message, table[i].0)
    {
      var k :| 0 <= k < i && Contains(message, table[k].0);
      i := k;
    }
  }

  /** The server's 400 message is classified as a form-validation failure. */
  lemma InvalidInputClassified()
    ensures AnalyzeValidationError("Invalid input data").cause == "Form validation failed"
  {
    assert OccursAt("Invalid input data", CommonIssues[0].0, 0);
    assert Contains("Invalid input data", CommonIssues[0].0);
  }
}
