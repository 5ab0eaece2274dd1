/**
 * The document store the controllers run against, as one sequential
 * in-memory object: the collections of courses, sessions, records,
 * enrollments and face templates, plus the log of real-time events emitted.
 * The store itself enforces the unique indexes on insert, as the database does.
 */
module Store {
  import opened Common
  import opened SessionSchema
  import opened RecordSchema
  import opened EnrollmentSchema
  import opened FaceSchema

  /** A course; only the fields the core reads are kept. */
  datatype Course = Course(id: CourseId, courseCode: string, courseName: string, facultyId: UserId)

  /** Real-time notifications broadcast to every connected client. */
  datatype Event =
    | AttendanceStarted(courseId: CourseId, sessionId: SessionId, attendanceMethod: SessionMethod)
    | AttendanceStopped(sessionId: SessionId)

  /** A snapshot of all collections. */
  datatype Db = Db(
    courses: seq<Course>,
    sessions: seq<Session>,
    records: seq<Record>,
    enrollments: seq<Enrollment>,
    faces: map<UserId, FaceTemplate>)

  predicate CourseIdsUnique(cs: seq<Course>)
  {
    forall i, j :: 0 <= i < j < |cs| ==> cs[i].id != cs[j].id
  }

  /** `findById` on courses. */
  function FindCourse(cs: seq<Course>, id: CourseId): (r: Option<nat>)
    ensures r.Some? ==> r.value < |cs| && cs[r.value].id == id
    ensures r.None? <==> forall i :: 0 <= i < |cs| ==> cs[i].id != id
  {
    if |cs| == 0 then None
    else if cs[0].id == id then Some(0)
    else
      match FindCourse(cs[1..], id)
      case None => None
      case Some(i) => Some(i + 1)
  }

  /** `findOne({_id, facultyId})`: the course, if it exists and `faculty` owns it. */
  function FindOwnedCourse(cs: seq<Course>, id: CourseId, faculty: UserId): (r: Option<nat>)
    ensures r.Some? ==> r.value < |cs| && cs[r.value].id == id && cs[r.value].facultyId == faculty
    ensures r.None? <==> forall i :: 0 <= i < |cs| ==> !(cs[i].id == id && cs[i].facultyId == faculty)
  {
    if |cs| == 0 then None
    else if cs[0].id == id && cs[0].facultyId == faculty then Some(0)
    else
      match FindOwnedCourse(cs[1..], id, faculty)
      case None => None
      case Some(i) => Some(i + 1)
  }

  /** A session has an end time exactly when it is closed. */
  predicate SessionWellFormed(s: Session)
  {
    s.endTime.Some? <==> s.status == Closed
  }

  /** A record names an existing session and that session's course. */
  predicate RecordBelongs(r: Record, ss: seq<Session>)
  {
    r.sessionId < |ss| && ss[r.sessionId].courseId == r.courseId
  }

  /**
   * What holds of the store between requests: the declared unique indexes
   * (with the device index over present fingerprints), and the shape every
   * write of the core keeps.
   */
  predicate Consistent(db: Db)
  {
    && CourseIdsUnique(db.courses)
    && (forall i :: 0 <= i < |db.sessions| ==> SessionWellFormed(db.sessions[i]))
    && (forall i :: 0 <= i < |db.records| ==> RecordBelongs(db.records[i], db.sessions))
    && RecordSchema.Indexed(db.records)
    && UniqueEnrollments(db.enrollments)
    && TemplatesKeyed(db.faces)
  }

  class Store {
    var courses: seq<Course>
    var sessions: seq<Session>
    var records: seq<Record>
    var enrollments: seq<Enrollment>
    var faces: map<UserId, FaceTemplate>
    var events: seq<Event>

    function View(): Db
      reads this
    {
      Db(courses, sessions, records, enrollments, faces)
    }

    ghost predicate Valid()
      reads this
    {
      Consistent(View())
    }

    /** A store loaded with consistent collections and no events yet. */
    constructor (db: Db)
      requires Consistent(db)
      ensures Valid() && View() == db && events == []
    {
      courses, sessions, records, enrollments, faces := db.courses, db.sessions, db.records, db.enrollments, db.faces;
      events := [];
    }

    /** `create` on sessions: the new session's id is the next position. */
    method AddSession(s: Session) returns (id: SessionId)
      requires Valid() && SessionWellFormed(s)
      modifies this
      ensures Valid()
      ensures id == |old(sessions)|
      ensures View() == old(View()).(sessions := old(sessions) + [s]) && events == old(events)
    {
      id := |sessions|;
      sessions := sessions + [s];
    }

    /** `save` of a changed session that stays in its course. */
    method SaveSession(id: SessionId, s: Session)
      requires Valid() && id < |sessions| && SessionWellFormed(s) && s.courseId == sessions[id].courseId
      modifies this
      ensures Valid()
      ensures View() == old(View()).(sessions := old(sessions)[id := s]) && events == old(events)
    {
      sessions := sessions[id := s];
    }

    /** `create` on records: refused with a duplicate key when an index already holds the key. */
    method InsertRecord(r: Record) returns (ok: bool)
      requires Valid() && RecordBelongs(r, sessions)
      modifies this
      ensures Valid()
      ensures ok == Admits(old(records), r)
      ensures View() == old(View()).(records := if ok then old(records) + [r] else old(records))
      ensures events == old(events)
    {
      ok := FindRecord(records, BySessionStudent(r.sessionId, r.studentId)).None?
        && (r.deviceFingerprint.None? || FindRecord(records, BySessionDevice(r.sessionId, r.deviceFingerprint.value)).None?);
      AdmitsIffIndexed(records, r);
      if ok {
        records := records + [r];
      }
    }

    /** Ordered `insertMany`: records are stored one by one until the first duplicate key. */
    method InsertRecords(batch: seq<Record>) returns (ok: bool)
      requires Valid() && forall k :: 0 <= k < |batch| ==> RecordBelongs(batch[k], sessions)
      modifies this
      ensures Valid()
      ensures ok == (AcceptedPrefix(old(records), batch) == |batch|)
      ensures View() == old(View()).(records := old(records) + batch[..AcceptedPrefix(old(records), batch)])
      ensures events == old(events)
    {
      var i := 0;
      ok := true;
      while i < |batch|
        invariant 0 <= i <= |batch|
        invariant Valid() && sessions == old(sessions) && events == old(events)
        invariant View() == old(View()).(records := old(records) + batch[..i])
        invariant AcceptedPrefix(old(records), batch) == i + AcceptedPrefix(records, batch[i..])
      {
        var stored := InsertRecord(batch[i]);
        assert batch[i..][1..] == batch[i + 1..];
        if !stored {
          ok := false;
          return;
        }
        assert batch[..i + 1] == batch[..i] + [batch[i]];
        i := i + 1;
      }
      assert batch[..i] == batch;
    }

    /** `save` of a record whose index keys, session and course stay as they were. */
    method SaveRecord(i: nat, r: Record)
      requires Valid() && i < |records|
      requires r.sessionId == records[i].sessionId && r.studentId == records[i].studentId
      requires r.courseId == records[i].courseId && r.deviceFingerprint == records[i].deviceFingerprint
      modifies this
      ensures Valid()
      ensures View() == old(View()).(records := old(records)[i := r]) && events == old(events)
    {
      records := records[i := r];
    }

    /** Storing a student's template, in place of the one they had. */
    method PutTemplate(t: FaceTemplate)
      requires Valid()
      modifies this
      ensures Valid()
      ensures View() == old(View()).(faces := old(faces)[t.studentId := t]) && events == old(events)
    {
      faces := faces[t.studentId := t];
    }

    /** Broadcasting an event; the collections are untouched. */
    method Emit(e: Event)
      modifies this
      ensures View() == old(View()) && events == old(events) + [e]
    {
      events := events + [e];
    }
  }
}
