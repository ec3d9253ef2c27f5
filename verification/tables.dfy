/**
 * The three tables of the attendance database (`attendance_sessions`,
 * `students`, `attendance_records`) as rows, and the read-only queries the
 * server runs against them.
 */
module Tables {
  import opened Wrappers

  /** A row of `attendance_sessions`; times are clock readings supplied by the caller. */
  datatype Session = Session(
    id: nat,
    name: string,
    room: string,
    startedBy: string,
    startTime: int,
    endTime: Option<int>,
    isActive: bool)

  /** A row of `students`; `room` is nullable. */
  datatype Student = Student(email: string, fullName: string, room: Option<string>)

  /** A row of `attendance_records`. */
  datatype AttendanceRecord = AttendanceRecord(
    id: nat,
    studentEmail: string,
    date: string,
    status: string,
    sessionId: nat,
    lat: real,
    lng: real,
    elevation: real,
    deviceId: string,
    locationName: string)

  /** The only status the attendance handler writes. */
  const Present: string := "P"

  /** The number of rows with `is_active = TRUE`. */
  function CountActive(ss: seq<Session>): (n: nat)
    ensures n <= |ss|
  {
    if ss == [] then 0
    else CountActive(ss[..|ss| - 1]) + (if ss[|ss| - 1].isActive then 1 else 0)
  }

  /** Two different active rows make the count at least two. */
  lemma {:induction false} TwoActiveCountTwo(ss: seq<Session>, i: nat, j: nat)
    requires i < j < |ss| && ss[i].isActive && ss[j].isActive
    ensures CountActive(ss) >= 2
  {
    var last := |ss| - 1;
    if j < last {
      TwoActiveCountTwo(ss[..last], i, j);
    } else {
      OneActiveCountOne(ss[..last], i);
    }
  }

  /** An active row makes the count at least one. */
  lemma {:induction false} OneActiveCountOne(ss: seq<Session>, i: nat)
    requires i < |ss| && ss[i].isActive
    ensures CountActive(ss) >= 1
  {
    if i < |ss| - 1 {
      OneActiveCountOne(ss[..|ss| - 1], i);
    }
  }

  /** No active row: the count is zero, and back. */
  lemma {:induction false} CountActiveZero(ss: seq<Session>)
    ensures CountActive(ss) == 0 <==> forall i :: 0 <= i < |ss| ==> !ss[i].isActive
  {
    if ss != [] {
      CountActiveZero(ss[..|ss| - 1]);
      assert forall i :: 0 <= i < |ss| - 1 ==> ss[..|ss| - 1][i] == ss[i];
    }
  }

  /** Switching rows off, and never on, does not raise the count. */
  lemma {:induction false} CountActiveMonotone(before: seq<Session>, after: seq<Session>)
    requires |before| == |after|
    requires forall i :: 0 <= i < |after| && after[i].isActive ==> before[i].isActive
    ensures CountActive(after) <= CountActive(before)
  {
    if after != [] {
      var n := |after| - 1;
      CountActiveMonotone(before[..n], after[..n]);
    }
  }

  /** Appending a row adds one to the count exactly when the row is active. */
  lemma CountActiveAppend(ss: seq<Session>, s: Session)
    ensures CountActive(ss + [s]) == CountActive(ss) + (if s.isActive then 1 else 0)
  {
    assert (ss + [s])[..|ss|] == ss;
  }

  /**
   * `SELECT ... WHERE is_active = TRUE ORDER BY start_time DESC LIMIT 1`: the
   * active row with the latest start time (ties go to the earlier row).
   */
  function MostRecentActive(ss: seq<Session>): (r: Option<Session>)
    ensures r.None? <==> forall i :: 0 <= i < |ss| ==> !ss[i].isActive
    ensures r.Some? ==> r.value in ss && r.value.isActive
    ensures r.Some? ==> forall i :: 0 <= i < |ss| && ss[i].isActive ==> ss[i].startTime <= r.value.startTime
  {
    if ss == [] then None
    else
      var rest := MostRecentActive(ss[1..]);
      assert forall i :: 1 <= i < |ss| ==> ss[i] == ss[1..][i - 1];
      if !ss[0].isActive then rest
      else if rest.Some? && rest.value.startTime > ss[0].startTime then rest
      else Some(ss[0])
  }

  /** With at most one active row, that row is the one the queries select. */
  lemma SingleActiveSelected(ss: seq<Session>, i: nat)
    requires CountActive(ss) <= 1 && i < |ss| && ss[i].isActive
    ensures MostRecentActive(ss) == Some(ss[i])
  {
    var s := MostRecentActive(ss).value;
    var k :| 0 <= k < |ss| && ss[k] == s;
    if k < i {
      TwoActiveCountTwo(ss, k, i);
    } else if i < k {
      TwoActiveCountTwo(ss, i, k);
    }
  }

  /** No two active rows share a room. */
  predicate ActiveRoomsDistinct(ss: seq<Session>) {
    forall i, j :: 0 <= i < j < |ss| && ss[i].isActive && ss[j].isActive ==> ss[i].room != ss[j].room
  }

  /** A bound of one active session makes the room-uniqueness invariant automatic. */
  lemma SingleActiveRoomsDistinct(ss: seq<Session>)
    requires CountActive(ss) <= 1
    ensures ActiveRoomsDistinct(ss)
  {
    forall i, j | 0 <= i < j < |ss| && ss[i].isActive && ss[j].isActive
      ensures false
    {
      TwoActiveCountTwo(ss, i, j);
    }
  }

  /** Session ids are keys. */
  predicate SessionIdsDistinct(ss: seq<Session>) {
    forall i, j :: 0 <= i < j < |ss| ==> ss[i].id != ss[j].id
  }

  /** `UPDATE ... SET is_active = FALSE, end_time = now WHERE id = ? AND is_active = TRUE`. */
  function EndWhere(ss: seq<Session>, id: nat, now: int): (r: seq<Session>)
    ensures |r| == |ss|
    ensures forall i :: 0 <= i < |ss| && ss[i].id == id && ss[i].isActive
              ==> r[i] == ss[i].(isActive := false, endTime := Some(now))
    ensures forall i :: 0 <= i < |ss| && !(ss[i].id == id && ss[i].isActive) ==> r[i] == ss[i]
  {
    seq(|ss|, i requires 0 <= i < |ss| =>
      if ss[i].id == id && ss[i].isActive then ss[i].(isActive := false, endTime := Some(now)) else ss[i])
  }

  /** Some active row carries this id. */
  predicate HasActiveId(ss: seq<Session>, id: nat) {
    exists i :: 0 <= i < |ss| && ss[i].id == id && ss[i].isActive
  }

  /** Without a matching active row the update changes nothing (`affectedRows === 0`). */
  lemma EndWhereNoMatch(ss: seq<Session>, id: nat, now: int)
    requires !HasActiveId(ss, id)
    ensures EndWhere(ss, id, now) == ss
  {
  }

  /** Session history only grows, and an ended row is never touched again. */
  predicate NeverReactivated(before: seq<Session>, after: seq<Session>) {
    && |before| <= |after|
    && forall i :: 0 <= i < |before| ==>
         && after[i].id == before[i].id
         && (after[i].isActive ==> before[i].isActive)
         && (!before[i].isActive ==> after[i] == before[i])
  }

  /** The session-table invariant of the server: at most one active row, ids distinct and below the counter. */
  predicate SessionsValid(ss: seq<Session>, nextId: nat) {
    && CountActive(ss) <= 1
    && SessionIdsDistinct(ss)
    && forall i :: 0 <= i < |ss| ==> ss[i].id < nextId
  }

  /** Inserting an active row with the counter's id, when none is active, keeps the invariant. */
  lemma StartKeepsSessionsValid(ss: seq<Session>, nextId: nat, s: Session)
    requires SessionsValid(ss, nextId) && CountActive(ss) == 0 && s.id == nextId
    ensures SessionsValid(ss + [s], nextId + 1)
    ensures NeverReactivated(ss, ss + [s])
  {
    CountActiveAppend(ss, s);
    var after := ss + [s];
    forall i, j | 0 <= i < j < |after| ensures after[i].id != after[j].id {
      if j == |ss| { assert after[i] == ss[i]; }
    }
  }

  /** Ending a session keeps the invariant and re-activates nothing. */
  lemma EndKeepsSessionsValid(ss: seq<Session>, nextId: nat, id: nat, now: int)
    requires SessionsValid(ss, nextId)
    ensures SessionsValid(EndWhere(ss, id, now), nextId)
    ensures NeverReactivated(ss, EndWhere(ss, id, now))
  {
    CountActiveMonotone(ss, EndWhere(ss, id, now));
  }

  /** `SELECT * FROM students WHERE email = ?`, first row. */
  function FindStudent(students: seq<Student>, email: string): (r: Option<Student>)
    ensures r.None? <==> forall i :: 0 <= i < |students| ==> students[i].email != email
    ensures r.Some? ==> r.value in students && r.value.email == email
  {
    if students == [] then None
    else if students[0].email == email then Some(students[0])
    else
      assert forall i :: 1 <= i < |students| ==> students[i] == students[1..][i - 1];
      FindStudent(students[1..], email)
  }

  /**
   * `SELECT id FROM attendance_records WHERE device_id = ? AND session_id = ?`
   * is non-empty: a scan of the table for a row with both values.
   */
  function DeviceUsed(records: seq<AttendanceRecord>, sessionId: nat, deviceId: string): (r: bool)
    ensures r <==> exists i :: 0 <= i < |records| && records[i].sessionId == sessionId && records[i].deviceId == deviceId
  {
    if records == [] then false
    else
      var last := records[|records| - 1];
      assert forall i :: 0 <= i < |records| - 1 ==> records[..|records| - 1][i] == records[i];
      (last.sessionId == sessionId && last.deviceId == deviceId) || DeviceUsed(records[..|records| - 1], sessionId, deviceId)
  }

  /**
   * `SELECT id FROM attendance_records WHERE student_email = ? AND session_id = ?`
   * is non-empty: a scan of the table for a row with both values.
   */
  function StudentMarked(records: seq<AttendanceRecord>, sessionId: nat, email: string): (r: bool)
    ensures r <==> exists i :: 0 <= i < |records| && records[i].sessionId == sessionId && records[i].studentEmail == email
  {
    if records == [] then false
    else
      var last := records[|records| - 1];
      assert forall i :: 0 <= i < |records| - 1 ==> records[..|records| - 1][i] == records[i];
      (last.sessionId == sessionId && last.studentEmail == email) || StudentMarked(records[..|records| - 1], sessionId, email)
  }

  /** Within one session, no device appears on two records. */
  predicate OnePerDevice(records: seq<AttendanceRecord>) {
    forall i, j :: 0 <= i < j < |records| && records[i].sessionId == records[j].sessionId
      ==> records[i].deviceId != records[j].deviceId
  }

  /** Within one session, no student appears on two records. */
  predicate OnePerStudent(records: seq<AttendanceRecord>) {
    forall i, j :: 0 <= i < j < |records| && records[i].sessionId == records[j].sessionId
      ==> records[i].studentEmail != records[j].studentEmail
  }

  /** The record-table invariant: one record per device and per student in each session, ids below the counter. */
  predicate RecordsValid(records: seq<AttendanceRecord>, nextId: nat) {
    && OnePerDevice(records)
    && OnePerStudent(records)
    && forall i :: 0 <= i < |records| ==> records[i].id < nextId
  }

  /** Inserting a fresh record with the counter's id keeps the invariant. */
  lemma InsertKeepsRecordsValid(records: seq<AttendanceRecord>, nextId: nat, rec: AttendanceRecord)
    requires RecordsValid(records, nextId) && rec.id == nextId
    requires !DeviceUsed(records, rec.sessionId, rec.deviceId)
    requires !StudentMarked(records, rec.sessionId, rec.studentEmail)
    ensures RecordsValid(records + [rec], nextId + 1)
  {
    AppendFreshRecord(records, rec);
  }

  /** A record whose device and student are both fresh for its session keeps both uniqueness invariants. */
  lemma AppendFreshRecord(records: seq<AttendanceRecord>, rec: AttendanceRecord)
    requires OnePerDevice(records) && OnePerStudent(records)
    requires !DeviceUsed(records, rec.sessionId, rec.deviceId)
    requires !StudentMarked(records, rec.sessionId, rec.studentEmail)
    ensures OnePerDevice(records + [rec]) && OnePerStudent(records + [rec])
  {
    var rs := records + [rec];
    forall i, j | 0 <= i < j < |rs| && rs[i].sessionId == rs[j].sessionId
      ensures rs[i].deviceId != rs[j].deviceId && rs[i].studentEmail != rs[j].studentEmail
    {
      if j == |records| {
        assert rs[i] == records[i];
      }
    }
  }
}
