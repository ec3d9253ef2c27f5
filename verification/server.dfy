/**
 * The attendance server's handlers over its store: starting and ending
 * sessions and marking attendance. Each request runs to completion before
 * the next (the model is sequential), and the clock and the date are inputs.
 */
module Server {
  import opened Wrappers
  import opened Tables
  import opened Eligibility
  import GeoFence
  import Strings

  /** The outcome of `POST /api/faculty/sessions`. */
  datatype StartResult = Started(sessionId: nat) | InvalidInput | Conflict {
    function HttpStatus(): (status: nat)
      ensures 200 <= status < 300 <==> Started?
      ensures !Started? ==> 400 <= status < 500
    {
      match this
      case Started(_) => 201
      case InvalidInput => 400
      case Conflict => 409
    }
  }

  /** The outcome of `PUT /api/faculty/sessions/:id/end`. */
  datatype EndResult = Ended | NotFound {
    function HttpStatus(): (status: nat)
      ensures 200 <= status < 300 <==> Ended?
      ensures NotFound? ==> 400 <= status < 500
    {
      if Ended? then 200 else 404
    }
  }

  /** The database: the three tables and their AUTO_INCREMENT counters. */
  class AttendanceStore {
    var sessions: seq<Session>
    var students: seq<Student>
    var records: seq<AttendanceRecord>
    var nextSessionId: nat
    var nextRecordId: nat

    /** The invariants the handlers keep. */
    ghost predicate Valid()
      reads this
    {
      SessionsValid(sessions, nextSessionId) && RecordsValid(records, nextRecordId)
    }

    /** An empty session history over a roster imported from outside. */
    constructor (roster: seq<Student>)
      ensures Valid()
      ensures sessions == [] && students == roster && records == []
      ensures nextSessionId == 1 && nextRecordId == 1
    {
      sessions, students, records := [], roster, [];
      nextSessionId, nextRecordId := 1, 1;
    }

    /**
     * Start a session: refused with 400 when a field is empty (checked before
     * trimming), with 409 when any session is active; otherwise one active row
     * is appended with the trimmed fields.
     */
    method StartSession(name: string, room: string, startedBy: string, now: int) returns (res: StartResult)
      requires Valid()
      modifies this
      ensures Valid()
      ensures name == "" || room == "" ==> res == InvalidInput
      ensures name != "" && room != "" && CountActive(old(sessions)) > 0 ==> res == Conflict
      ensures name != "" && room != "" && CountActive(old(sessions)) == 0 ==> res == Started(old(nextSessionId))
      ensures res.Started? ==> sessions == old(sessions) + [Session(res.sessionId, Strings.Trim(name),
                                 Strings.Trim(room), startedBy, now, None, true)]
      ensures res.Started? ==> nextSessionId == old(nextSessionId) + 1
      ensures !res.Started? ==> sessions == old(sessions) && nextSessionId == old(nextSessionId)
      ensures NeverReactivated(old(sessions), sessions)
      ensures students == old(students) && records == old(records) && nextRecordId == old(nextRecordId)
    {
      if name == "" || room == "" {
        return InvalidInput;
      }
      if CountActive(sessions) > 0 {
        return Conflict;
      }
      var session := Session(nextSessionId, Strings.Trim(name), Strings.Trim(room), startedBy, now, None, true);
      StartKeepsSessionsValid(sessions, nextSessionId, session);
      sessions := sessions + [session];
      res := Started(nextSessionId);
      nextSessionId := nextSessionId + 1;
    }

    /**
     * End a session: only an active row with this id is switched off, with
     * `end_time` set to `now`; otherwise 404 and nothing changes.
     */
    method EndSession(id: nat, now: int) returns (res: EndResult)
      requires Valid()
      modifies this
      ensures Valid()
      ensures res == Ended <==> HasActiveId(old(sessions), id)
      ensures sessions == EndWhere(old(sessions), id, now)
      ensures res == NotFound ==> sessions == old(sessions)
      ensures NeverReactivated(old(sessions), sessions)
      ensures forall i :: 0 <= i < |sessions| && old(sessions)[i].id == id && old(sessions)[i].isActive
                ==> !sessions[i].isActive && sessions[i].endTime == Some(now)
      ensures nextSessionId == old(nextSessionId)
      ensures students == old(students) && records == old(records) && nextRecordId == old(nextRecordId)
    {
      var matched := HasActiveId(sessions, id);
      if !matched {
        EndWhereNoMatch(sessions, id, now);
        return NotFound;
      }
      EndKeepsSessionsValid(sessions, nextSessionId, id, now);
      sessions := EndWhere(sessions, id, now);
      res := Ended;
    }

    /** `GET /api/faculty/sessions/active`: the session attendance is marked against. */
    function ActiveSession(): (r: Option<Session>)
      reads this
      ensures r.None? <==> CountActive(sessions) == 0
      ensures r.Some? ==> r.value in sessions && r.value.isActive
      ensures r.Some? ==> forall i :: 0 <= i < |sessions| && sessions[i].isActive ==> sessions[i].startTime <= r.value.startTime
    {
      CountActiveZero(sessions);
      MostRecentActive(sessions)
    }

    /**
     * Mark attendance: the checks of `Decide`, in order; on success exactly
     * one record with status 'P' is appended, otherwise nothing changes.
     */
    method SubmitAttendance(sub: Submission, today: string, dist: GeoFence.Distance) returns (outcome: Outcome)
      requires Valid()
      modifies this
      ensures Valid()
      ensures outcome == Decide(old(sessions), old(students), old(records), sub, LocationOf(sub, dist))
      ensures outcome == Marked ==>
                (records == old(records)
                 + [NewRecord(old(nextRecordId), MostRecentActive(old(sessions)).value, sub, today,
                              LocationOf(sub, dist).location.value)])
      ensures outcome == Marked ==> nextRecordId == old(nextRecordId) + 1
      ensures outcome != Marked ==> records == old(records) && nextRecordId == old(nextRecordId)
      ensures sessions == old(sessions) && students == old(students) && nextSessionId == old(nextSessionId)
    {
      var active := ActiveSession();
      if active.None? {
        return NoActiveSession;
      }
      var session := active.value;
      var elevation := GeoFence.HandlerElevation(sub.elevation);
      var locationCheck := GeoFence.IsLocationAllowed(dist, GeoFence.AllowedLocations,
                                                      GeoFence.Point(sub.lat, sub.lng), Some(elevation));
      if !locationCheck.allowed {
        return LocationDenied;
      }
      var student := FindStudent(students, sub.email);
      if student.None? {
        return StudentNotFound;
      }
      if student.value.room != Some(session.room) {
        return RoomMismatch;
      }
      if DeviceUsed(records, session.id, sub.deviceId) {
        return DeviceAlreadyUsed;
      }
      if StudentMarked(records, session.id, sub.email) {
        return AlreadyMarked;
      }
      var record := AttendanceRecord(nextRecordId, sub.email, today, Present, session.id, sub.lat, sub.lng,
                                     elevation, sub.deviceId, locationCheck.location.value);
      InsertKeepsRecordsValid(records, nextRecordId, record);
      records := records + [record];
      nextRecordId := nextRecordId + 1;
      outcome := Marked;
    }
  }

  /** The server's bound of one active session also keeps active rooms distinct. */
  lemma ValidStoreRoomsDistinct(store: AttendanceStore)
    requires store.Valid()
    ensures ActiveRoomsDistinct(store.sessions)
  {
    SingleActiveRoomsDistinct(store.sessions);
  }

  /** Scenario: no session active, so the submission is refused and no record is written. */
  method NoSessionNoRecord(roster: seq<Student>, sub: Submission, dist: GeoFence.Distance)
  {
    var store := new AttendanceStore(roster);
    var outcome := store.SubmitAttendance(sub, "2024-01-01", dist);
    assert outcome == NoActiveSession && store.records == [];
  }

  /** Scenario: a second session cannot start while one is active. */
  method SecondStartConflicts(roster: seq<Student>)
  {
    var store := new AttendanceStore(roster);
    var first := store.StartSession("DT Lab", "ME-12", "faculty", 100);
    assert first == Started(1);
    assert CountActive(store.sessions) == 1 by {
      CountActiveAppend([], store.sessions[0]);
      assert store.sessions == [] + [store.sessions[0]];
    }
    var second := store.StartSession("Another", "CS-101", "faculty", 200);
    assert second == Conflict && |store.sessions| == 1;
  }

  /** Scenario: ending a session twice; the second attempt finds no active row. */
  method EndTwiceNotFound(roster: seq<Student>)
  {
    var store := new AttendanceStore(roster);
    var started := store.StartSession("DT Lab", "ME-12", "faculty", 100);
    assert store.sessions[0].id == 1 && store.sessions[0].isActive;
    var ended := store.EndSession(1, 300);
    assert ended == Ended;
    assert !store.sessions[0].isActive;
    var again := store.EndSession(1, 400);
    assert again == NotFound;
  }
}
