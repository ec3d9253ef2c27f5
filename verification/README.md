# Campus attendance: eligibility decision and session registry

A Dafny model of the core of a campus attendance system. Students mark
attendance through a geolocation-gated form. Faculty open and close
room-scoped sessions. The model covers:

- **Geofence** (`GeoFence`, geofence.dfy): the server's `isLocationAllowed`.
  The configured zones are scanned in declaration order and the first zone
  that admits the claim wins. A zone admits a claim when the distance is at
  most its radius and the elevation is within 10 m of its own. A falsy
  elevation (missing or 0) is replaced by the zone's own elevation. The
  haversine distance is a parameter `dist: (Point, Point) -> real`. Lemmas
  that need `dist(p, p) == 0` take it as a precondition.
- **Tables** (`Tables`, tables.dfy): the rows of `attendance_sessions`,
  `students` and `attendance_records`, plus the queries the server runs
  against them. These are the active-session selection, the student lookup,
  the two duplicate checks and the `UPDATE` that ends a session.
- **Eligibility** (`Eligibility`, eligibility.dfy): the decision of
  `POST /api/attendance` as a pure function `Decide`. It runs six checks in
  order: active session, location, roster, room, device, student. The first
  failing check decides the outcome. `Decide` takes the geofence verdict on
  the submitted position as an argument; `SubmitAttendance` passes it the
  verdict of `isLocationAllowed` with the 242 m default elevation. The module also gives each outcome its
  HTTP status and its machine-readable code.
- **Server** (`Server`, server.dfy): the store as a class `AttendanceStore`.
  It holds the three tables as sequences plus the AUTO_INCREMENT counters.
  Its methods are `StartSession`, `EndSession` and `SubmitAttendance`. Each
  keeps the store invariant `Valid()`, which says:
  - at most one session is active;
  - session ids are distinct;
  - no session has two records with the same device;
  - no session has two records with the same student.

  Methods state the whole new state, tables and counters, in terms of the
  old one. An ended session is never re-activated.
- **Diagnostics script** (`ValidationFix`, validation_fix.dfy): the script's
  own fixed-radius (5 m) location check and the expectations of its test
  table. It also models the `ErrorAnalyzer` classifier, which returns the
  entry of the first key the message contains, in declaration order, or a
  fixed default.
- **Faculty client** (`Faculty`, faculty.dfy), which covers:
  - the start-session guard;
  - `escapeHtml`, with an inverse and a round-trip lemma;
  - `getApiUrl` placeholder substitution, as a method with a loop;
  - the normalisation of the active-session response, with the start button
    it drives (a `Dashboard` class holding the dashboard's global state);
  - the percentage band.

The date and clock are inputs to the handlers. The model is sequential: each
request runs to completion before the next starts.

Three behaviours of the code are easy to misread:

- The server's `startSession` refuses whenever any session is active, which
  is a bound of one. It performs no room check. The room-uniqueness
  invariant follows from the bound of one (`Tables.SingleActiveRoomsDistinct`).
  The bound of five and the room check exist only in the faculty client,
  whose guard takes the maximum as a parameter.
- The attendance handler takes the most recent active session by start
  time. It does not choose among sessions by room.
- No "end all sessions" operation exists on the server, so none is modelled.

## Model

| member | source | states |
|---|---|---|
| GeoFence.IsLocationAllowed | server.js:148-167 | allowed iff some zone admits the claim (distance within radius and elevation difference at most 10); allowed iff a location name is returned, and that name belongs to an admitting zone |
| GeoFence.FirstMatchWins | server.js:150-162 | when zone i is the first admitting zone in declaration order, the result is `{allowed: true, location: zones[i].name}` |
| GeoFence.AllowedOnlyByFirstMatch | server.js:150-166 | conversely, an allowed verdict always names the first admitting zone |
| GeoFence.NoMatchDenied | server.js:165-166 | when no zone admits the claim the result is `{allowed: false, location: null}` |
| GeoFence.FalsyElevationOnlyDistance | server.js:156-159 | with a missing or zero elevation only the distance test decides |
| GeoFence.HandlerElevation | server.js:407 | an omitted elevation defaults to 242 and a submitted one is passed on unchanged |
| GeoFence.OmittedElevationPassesElevationCheck | server.js:20-61 | with the 242 default, every configured zone except '403 Test' admits on distance alone |
| GeoFence.OmittedElevationFailsAt403Test | server.js:36-42 | with the 242 default, '403 Test' (288.8 m) never admits |
| GeoFence.CentreOfFirstZoneAllowed | server.js:21-26 | the exact centre of 'My Location' at 242 m is allowed and named 'My Location' |
| Tables.MostRecentActive | server.js:412-414 | none iff no session is active; otherwise an active session whose start time is at least that of every active session |
| Tables.SingleActiveSelected | server.js:412-423 | with at most one active session, that session is the one attendance is checked against |
| Tables.SingleActiveRoomsDistinct | server.js:321-330 | the server's bound of one active session implies no two active sessions share a room |
| Tables.FindStudent | server.js:438-447 | none iff no roster row has the email; otherwise a roster row with that email |
| Tables.DeviceUsed | server.js:457-468 | the scan finds a row iff some record of the session carries the device id |
| Tables.StudentMarked | server.js:470-481 | the scan finds a row iff some record of the session carries the student's email |
| Tables.EndWhere | server.js:361-364 | every active row with the given id is switched off with end time `now`, its other fields kept; every other row is unchanged |
| Tables.EndWhereNoMatch | server.js:366-371 | without an active row carrying the id nothing changes |
| Tables.CountActiveMonotone | server.js:361-364 | switching rows off and never on does not raise the number of active sessions |
| Tables.AppendFreshRecord | server.js:457-489 | appending a record whose device and student are fresh for its session keeps both per-session uniqueness invariants |
| Eligibility.HttpStatus | server.js:416-495 | 201 exactly for success; 4xx exactly for the business-rule rejections |
| Eligibility.ErrorCode | validation-fix.js:424-546 | every outcome except success carries a code |
| Eligibility.OutcomesDistinguishable | validation-fix.js:424-546 | two different outcomes have different codes |
| Eligibility.Decide | server.js:411-481 | success iff there is an active session, the location is allowed, the student is on the roster, the rooms match, and neither the device nor the student has a record in the session; never a server error |
| Eligibility.DecisionOrder | server.js:411-481 | each outcome occurs exactly when every earlier check passed and its own check failed (session, location, student, room, device, student duplicate); success exactly when all pass; never a server error |
| Eligibility.NoSessionShortCircuits | server.js:412-421 | with no active session the outcome is the no-session refusal, whatever the other inputs |
| Eligibility.NullRoomMismatch | server.js:450-455 | a student with a null room is refused with a room mismatch |
| Eligibility.MarkedKeepsUniqueness | server.js:457-489 | a success appends a record that keeps one record per device and per student in each session |
| Eligibility.RepeatRejected | server.js:458-468 | repeating a successful submission is refused by the device check (409) |
| Eligibility.OtherDeviceRejected | server.js:470-481 | the same student on another, unused device after a success is refused as already marked (409) |
| Server.AttendanceStore.StartSession | server.js:302-352 | 400 when a field is empty, 409 when any session is active, otherwise one active row appended with the trimmed fields and the next id; the invariants are kept and no session is re-activated |
| Server.AttendanceStore.ActiveSession | server.js:281-299 | none iff no session is active; otherwise the active session with the latest start time |
| Server.StartResult.HttpStatus | server.js:310-339 | a 2xx status iff the session was started; each refusal is a 4xx |
| Server.EndResult.HttpStatus | server.js:367-374 | a 2xx status iff the session was ended; not found is a 4xx |
| Server.AttendanceStore.EndSession | server.js:355-386 | ended iff an active row has the id; that row is switched off with end time `now`; otherwise 404 and nothing changes |
| Server.AttendanceStore.SubmitAttendance | server.js:389-504 | the outcome is `Decide` on the old tables; on success exactly one record (status 'P', the active session's id, the submitted values, the matched zone) is appended; otherwise nothing changes |
| Server.ValidStoreRoomsDistinct | server.js:321-336 | in every valid store no two active sessions share a room |
| ValidationFix.AnySiteMatches | validation-fix.js:309-317 | true iff some configured site is within 5 m and within 10 m of elevation |
| ValidationFix.IsLocationAllowed | validation-fix.js:300-318 | true iff one of the three campus points is within 5 m and the elevation is within 10 m of 242; an omitted elevation is never allowed |
| ValidationFix.ExactSiteAllowed | validation-fix.js:284-287 | the exact coordinates of any configured site at 242 m are allowed |
| ValidationFix.CloseToFirstSiteAllowed | validation-fix.js:285 | a point within 5 m of the first site at 242 m is allowed |
| ValidationFix.FarLocationRefused | validation-fix.js:286 | a point more than 5 m from every site is refused |
| ValidationFix.ElevationOutOfToleranceRefused | validation-fix.js:311-313 | an elevation more than 10 m from every site's is refused wherever the point is |
| ValidationFix.OmittedElevationRefused | validation-fix.js:311-313 | an omitted elevation (NaN difference) is always refused |
| ValidationFix.FirstIssue | validation-fix.js:686-695 | the result is the default or the info of a key the message contains |
| ValidationFix.AnalyzeValidationError | validation-fix.js:634-696 | the result is 'Unknown error' or the entry of a key of the analyzer's table that the message contains |
| ValidationFix.FirstKeyWins | validation-fix.js:686-690 | the info of the first key, in declaration order, that the message contains is returned |
| ValidationFix.NoKeyUnknown | validation-fix.js:692-695 | a message containing no key gets the 'Unknown error' default |
| ValidationFix.UnknownOnlyWhenNoKey | validation-fix.js:686-695 | in a table whose entries differ from the default, the default is returned iff no key is contained in the message |
| ValidationFix.AnalyzerUnknownOnlyWhenNoKey | validation-fix.js:634-696 | the analyzer returns the default iff no key of its table is contained in the message |
| ValidationFix.InvalidInputClassified | validation-fix.js:636-643 | the server's 400 message is classified as a form-validation failure |
| Strings.Trim | server.js:303-304 | the result is a slice of the input with only white space before and after it, and neither starts nor ends with white space |
| Strings.ReplaceFirst | faculty.js:996-998 | without an occurrence the string is unchanged; otherwise the first occurrence, and only it, is replaced |
| Strings.TrimEmptyIffBlank | faculty.js:754 | a name trims to empty iff it is all white space |
| Faculty.FindRoom | faculty.js:768 | none iff no active session has the room; otherwise the first session with that room |
| Faculty.StartGuard | faculty.js:754-772 | missing fields iff the trimmed name or the room is empty; too many iff the fields are present and at least `maxActive` sessions are active; proceeds iff all three checks pass, with the trimmed name; a room refusal names an active session in that room |
| Faculty.GuardOrder | faculty.js:757-772 | an empty trimmed name is always reported as missing fields; a room refusal implies the earlier checks passed |
| Faculty.BlankNameMissing | faculty.js:754-760 | an all-white-space name is refused before any request |
| Faculty.GuardKeepsBoundAndRooms | faculty.js:762-772 | when the guard proceeds, adding the started session keeps at most `maxActive` sessions and distinct rooms |
| Faculty.EscapeHtml | faculty.js:929-939 | the output is no shorter than the input and contains none of `<`, `>`, `"`, `'` |
| Faculty.EscapePlainUnchanged | faculty.js:929-939 | text without the five special characters is returned unchanged |
| Faculty.EscapeHtmlRoundTrip | faculty.js:938 | decoding the escaped text gives back the input, so escaping loses nothing |
| Faculty.GetApiUrl | faculty.js:992-1001 | the URL is the endpoint with each parameter's first `{key}` replaced in order; no parameters give the endpoint unchanged |
| Faculty.NoBraceUnchanged | faculty.js:996-998 | an endpoint without `{` is returned unchanged whatever the parameters |
| Faculty.SubstituteFirstPlaceholder | faculty.js:996-998 | a single `{key}` preceded by no `{` is replaced by the value |
| Faculty.EndSessionUrlNotSubstituted | faculty.js:837 | with the configured `:id` endpoint the URL keeps the literal `:id` |
| Faculty.EndSessionUrlSubstituted | faculty.js:837 | with a `{id}` endpoint the session id lands in the path |
| Faculty.NormalizeActive | faculty.js:353-361 | `[data.session]` if present, else `data.sessions` if present, else the empty list; the empty list after a failed request |
| Faculty.Dashboard.CheckActiveSession | faculty.js:340-370 | the global list becomes the normalised response and the start button is disabled iff at least 5 sessions are listed |
| Faculty.StartButtonDisabled | faculty.js:435-440 | an empty list never disables the button; it is disabled iff the list is non-empty and holds at least 5 sessions |
| Faculty.Dashboard.StartRequest | faculty.js:754-772 | on a dashboard whose button reflects its list, the request proceeds only below 5 listed sessions and with no listed session in the room, so only while the button is enabled; a blank name is always refused |
| Faculty.Dashboard.UpdateActiveSessionsDisplay | faculty.js:435-470 | the start button is disabled iff the active count is at least 5, which re-establishes the dashboard invariant; the list is unchanged |
| Faculty.ServerAnswerNeverDisables | faculty.js:353-355 | against the server's single-session answer the list holds at most one session, so the start button is never disabled |
| Faculty.PercentageBand | faculty.js:618-621 | excellent iff at least 75, good iff at least 60 and below 75, poor iff below 60 |
| Faculty.BandMonotone | faculty.js:618-621 | a higher percentage never gets a worse band |

## Left out

- The haversine distance (`calculateDistance`) is double-precision trigonometry. It is the parameter `dist`, and nothing is assumed about it beyond what individual lemmas require.
- Express routing, CORS, logging, static files and JSON response plumbing are not modelled. Outcomes are datatypes mapped to status codes. The human-readable messages are not modelled (for example, the room names in the room-mismatch message).
- The request validation of `POST /api/attendance` (`isEmail`, `normalizeEmail`, `isFloat`, `deviceId` non-empty and trimmed) is library code. The 400 path is not modelled, and `SubmitAttendance` receives the validated values.
- Store and connection failures, the 500 paths, are not modelled: the in-memory tables cannot fail, so `ServerError` is never produced.
- Login, JWT, bcrypt, `authMiddleware` and the hash-password endpoint are foreign crypto libraries and are not modelled. `StartSession` receives the authenticated user name as `startedBy`.
- MySQL is not modelled: the tables are sequences. `EndSession` takes a numeric id. How MySQL compares a non-numeric path parameter (such as a literal `:id`) with the integer column is not modelled.
- Concurrency and the races between the duplicate checks and the insert are not modelled, because the model is sequential.
- `new Date()`, the IST date and locale formatting are inputs (`now`, `today`).
- The listing endpoints are not modelled: sessions with attendee counts, students, rooms, and the attendance-summary aggregation with its `toFixed` percentage. They are SQL reporting queries with float formatting. The session-status endpoint runs the same query as `Tables.MostRecentActive`.
- DOM rendering, fetch, alerts, timers, modals and the start button's text are not modelled. `mobile-utils.js`, `script.js` and `config.js` apart from its end-session endpoint are UI and configuration. `sessions.js` (schema), the migration, seeding and diagnose methods of the diagnostics script, and its command-line entry point are database I/O.
- An "end all sessions" operation is not modelled: the client calls an endpoint that neither the server nor the configuration defines.
- Strings.Trim: removes only ASCII white space, no-break space and the byte-order mark, not every Unicode space character JavaScript's `trim` removes.
- Strings.ReplaceFirst: inserts the replacement literally; the `$&`, `$$`, `` $` `` and `$'` patterns that JavaScript's `replace` interprets in a replacement string are not modelled.
- Faculty.GetApiUrl: does not model the `$`-patterns that `String.prototype.replace` interprets in a replacement string, or the `String()` conversion of non-string values.
- Faculty.EscapeHtml: does not model the `String(text)` conversion of non-strings (for example `null` becoming "null").
- Faculty.PercentageBand: does not model a NaN from `parseFloat`, which would fall into 'poor'.
- GeoFence.EffectiveElevation: does not model a NaN elevation, which JavaScript also treats as falsy.
- Coordinates, elevations, distances and percentages are mathematical reals, not IEEE doubles: a comparison that rounding decides in JavaScript can come out the other way in the model (for example, an elevation of 252.00000000000001 parses to 252.0 in JavaScript and is admitted by a 242 m zone, but is refused here).
- Tables.FindStudent, Tables.DeviceUsed and Tables.StudentMarked compare strings exactly, while MySQL compares `email`, `device_id` and `student_email` with the column's collation, a case-insensitive one (which may also ignore accents or trailing spaces).
- Tables.MostRecentActive: ties between equal start times go to the earlier row, where SQL leaves the order unspecified. Under the server's bound of one active session no tie can arise.

## Findings

| source | as written | input that shows it | evidently intended | confidence | as-written member | corrected member |
|---|---|---|---|---|---|---|
| config.js:18 | the end-session endpoint is `/api/faculty/sessions/:id/end`, but the client's `getApiUrl` (faculty.js:837, 992-1001) only substitutes `{id}` placeholders | ending session "7": the client requests `/api/faculty/sessions/:id/end` | `/api/faculty/sessions/7/end` | high; not executed | Faculty.EndSessionUrlNotSubstituted | Faculty.EndSessionUrlSubstituted |
