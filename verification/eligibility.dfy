/**
 * The attendance-eligibility decision of `POST /api/attendance`: an ordered
 * list of checks that stops at the first failure, and the single record
 * written when all of them pass.
 */
module Eligibility {
  import opened Wrappers
  import opened Tables
  import GeoFence

  /** The request body after validation; `elevation` is `None` when omitted. */
  datatype Submission = Submission(
    email: string,
    lat: real,
    lng: real,
    elevation: Option<real>,
    deviceId: string)

  /** The outcome of one submission. */
  datatype Outcome =
    | Marked
    | NoActiveSession
    | LocationDenied
    | StudentNotFound
    | RoomMismatch
    | DeviceAlreadyUsed
    | AlreadyMarked
    | ServerError

  /** The HTTP status each outcome is sent with. */
  function HttpStatus(o: Outcome): (status: nat)
    ensures status == 201 <==> o.Marked?
    ensures 400 <= status < 500 <==> !o.Marked? && !o.ServerError?
  {
    match o
    case Marked => 201
    case NoActiveSession => 403
    case LocationDenied => 403
    case StudentNotFound => 404
    case RoomMismatch => 403
    case DeviceAlreadyUsed => 409
    case AlreadyMarked => 409
    case ServerError => 500
  }

  /** The machine-readable `code` of the documented endpoint; success carries none. */
  function ErrorCode(o: Outcome): (code: Option<string>)
    ensures code.None? <==> o.Marked?
  {
    match o
    case Marked => None
    case NoActiveSession => Some("NO_ACTIVE_SESSION")
    case LocationDenied => Some("INVALID_LOCATION")
    case StudentNotFound => Some("STUDENT_NOT_FOUND")
    case RoomMismatch => Some("ROOM_MISMATCH")
    case DeviceAlreadyUsed => Some("DEVICE_ALREADY_USED")
    case AlreadyMarked => Some("ALREADY_MARKED")
    case ServerError => Some("SERVER_ERROR")
  }

  /** Every outcome has its own code, so the client can tell any two apart by the code alone. */
  lemma OutcomesDistinguishable(a: Outcome, b: Outcome)
    requires a != b
    ensures ErrorCode(a) != ErrorCode(b)
  {
  }

  /** The geofence verdict on the submitted position, after the 242 m default. */
  function LocationOf(sub: Submission, dist: GeoFence.Distance): GeoFence.LocationCheck {
    GeoFence.IsLocationAllowed(dist, GeoFence.AllowedLocations, GeoFence.Point(sub.lat, sub.lng),
                               Some(GeoFence.HandlerElevation(sub.elevation)))
  }

  /** The room check is strict equality: a student without a room matches no session. */
  predicate RoomMatches(session: Session, student: Student) {
    student.room == Some(session.room)
  }

  /**
   * The handler's decision, checks in source order, the first failure deciding;
   * `loc` is the geofence verdict on the submitted position (`LocationOf`).
   */
  function Decide(sessions: seq<Session>, students: seq<Student>, records: seq<AttendanceRecord>,
                  sub: Submission, loc: GeoFence.LocationCheck): (r: Outcome)
    ensures r != ServerError
    ensures r == Marked <==>
              (&& MostRecentActive(sessions).Some? && loc.allowed
               && FindStudent(students, sub.email).Some?
               && RoomMatches(MostRecentActive(sessions).value, FindStudent(students, sub.email).value)
               && !DeviceUsed(records, MostRecentActive(sessions).value.id, sub.deviceId)
               && !StudentMarked(records, MostRecentActive(sessions).value.id, sub.email))
  {
    match MostRecentActive(sessions)
    case None => NoActiveSession
    case Some(session) =>
      if !loc.allowed then LocationDenied
      else match FindStudent(students, sub.email)
        case None => StudentNotFound
        case Some(student) =>
          if !RoomMatches(session, student) then RoomMismatch
          else if DeviceUsed(records, session.id, sub.deviceId) then DeviceAlreadyUsed
          else if StudentMarked(records, session.id, sub.email) then AlreadyMarked
          else Marked
  }

  /** The record a successful submission inserts. */
  function NewRecord(id: nat, session: Session, sub: Submission, today: string, locationName: string): AttendanceRecord {
    AttendanceRecord(id, sub.email, today, Present, session.id, sub.lat, sub.lng,
                     GeoFence.HandlerElevation(sub.elevation), sub.deviceId, locationName)
  }

  /**
   * The pipeline's order: each outcome happens exactly when every earlier
   * check passed and its own check failed.
   */
  lemma DecisionOrder(sessions: seq<Session>, students: seq<Student>, records: seq<AttendanceRecord>,
                      sub: Submission, loc: GeoFence.LocationCheck)
    ensures var o := Decide(sessions, students, records, sub, loc);
            var active := MostRecentActive(sessions);
            var student := FindStudent(students, sub.email);
            && (o == NoActiveSession <==> active.None?)
            && (o == LocationDenied <==> active.Some? && !loc.allowed)
            && (o == StudentNotFound <==> active.Some? && loc.allowed && student.None?)
            && (o == RoomMismatch <==>
                  (active.Some? && loc.allowed && student.Some?
                   && !RoomMatches(active.value, student.value)))
            && (o == DeviceAlreadyUsed <==>
                  (active.Some? && loc.allowed && student.Some?
                   && RoomMatches(active.value, student.value)
                   && DeviceUsed(records, active.value.id, sub.deviceId)))
            && (o == AlreadyMarked <==>
                  (active.Some? && loc.allowed && student.Some?
                   && RoomMatches(active.value, student.value)
                   && !DeviceUsed(records, active.value.id, sub.deviceId)
                   && StudentMarked(records, active.value.id, sub.email)))
            && (o == Marked <==>
                  (active.Some? && loc.allowed && student.Some?
                   && RoomMatches(active.value, student.value)
                   && !DeviceUsed(records, active.value.id, sub.deviceId)
                   && !StudentMarked(records, active.value.id, sub.email)))
            && o != ServerError
  {
  }

  /** With no session active, every submission is refused before any other check. */
  lemma NoSessionShortCircuits(sessions: seq<Session>, students: seq<Student>, records: seq<AttendanceRecord>,
                               sub: Submission, loc: GeoFence.LocationCheck)
    requires forall i :: 0 <= i < |sessions| ==> !sessions[i].isActive
    ensures Decide(sessions, students, records, sub, loc) == NoActiveSession
  {
  }

  /** A student whose room is null never matches the active session. */
  lemma NullRoomMismatch(sessions: seq<Session>, students: seq<Student>, records: seq<AttendanceRecord>,
                         sub: Submission, loc: GeoFence.LocationCheck)
    requires MostRecentActive(sessions).Some? && loc.allowed
    requires FindStudent(students, sub.email).Some? && FindStudent(students, sub.email).value.room.None?
    ensures Decide(sessions, students, records, sub, loc) == RoomMismatch
  {
  }

  /** A success keeps both per-session uniqueness invariants of the records table. */
  lemma MarkedKeepsUniqueness(sessions: seq<Session>, students: seq<Student>, records: seq<AttendanceRecord>,
                              sub: Submission, loc: GeoFence.LocationCheck, id: nat, today: string, locationName: string)
    requires OnePerDevice(records) && OnePerStudent(records)
    requires Decide(sessions, students, records, sub, loc) == Marked
    ensures OnePerDevice(records + [NewRecord(id, MostRecentActive(sessions).value, sub, today, locationName)])
    ensures OnePerStudent(records + [NewRecord(id, MostRecentActive(sessions).value, sub, today, locationName)])
  {
    var session := MostRecentActive(sessions).value;
    var student := FindStudent(students, sub.email).value;
    AppendFreshRecord(records, NewRecord(id, session, sub, today, locationName));
  }

  /** Repeating a successful submission is refused by the device check. */
  lemma RepeatRejected(sessions: seq<Session>, students: seq<Student>, records: seq<AttendanceRecord>,
                       sub: Submission, loc: GeoFence.LocationCheck, id: nat, today: string, locationName: string)
    requires Decide(sessions, students, records, sub, loc) == Marked
    ensures Decide(sessions, students, records + [NewRecord(id, MostRecentActive(sessions).value, sub, today, locationName)], sub, loc)
            == DeviceAlreadyUsed
  {
    var session := MostRecentActive(sessions).value;
    var rs := records + [NewRecord(id, session, sub, today, locationName)];
    assert rs[|records|].sessionId == session.id && rs[|records|].deviceId == sub.deviceId;
  }

  /** The same student on another, unused device after a success is refused as already marked. */
  lemma OtherDeviceRejected(sessions: seq<Session>, students: seq<Student>, records: seq<AttendanceRecord>,
                            sub: Submission, loc: GeoFence.LocationCheck, id: nat, today: string, locationName: string, otherDevice: string)
    requires Decide(sessions, students, records, sub, loc) == Marked
    requires otherDevice != sub.deviceId
    requires !DeviceUsed(records, MostRecentActive(sessions).value.id, otherDevice)
    ensures Decide(sessions, students, records + [NewRecord(id, MostRecentActive(sessions).value, sub, today, locationName)],
                   sub.(deviceId := otherDevice), loc)
            == AlreadyMarked
  {
    var session := MostRecentActive(sessions).value;
    var rs := records + [NewRecord(id, session, sub, today, locationName)];
    assert rs[|records|].sessionId == session.id && rs[|records|].studentEmail == sub.email;
  }
}
