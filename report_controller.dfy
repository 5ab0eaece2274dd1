/**
 * The read-side reports over one course or one session: per-student
 * attendance in a course, the course's session history, the roster of one
 * session, and a student's own history in a course. Every report is a pure
 * function of the store's collections.
 */
module ReportController {
  import opened Common
  import opened SessionSchema
  import opened RecordSchema
  import opened EnrollmentSchema
  import opened Store
  import opened Tallies

  datatype ReportError = CourseNotFound | SessionNotFound | CourseMissing

  // ---------------------------------------------------------------------
  // Sorting sessions by start time

  /** Whether `a` may be listed before `b`: newest first, or oldest first. */
  predicate InOrder(a: Entry, b: Entry, newestFirst: bool)
  {
    if newestFirst then a.1.startTime >= b.1.startTime else a.1.startTime <= b.1.startTime
  }

  predicate Ordered(es: seq<Entry>, newestFirst: bool)
  {
    forall i, j :: 0 <= i < j < |es| ==> InOrder(es[i], es[j], newestFirst)
  }

  /** An entry that may precede every element of an ordered list may head it. */
  lemma {:induction false} ConsOrdered(h: Entry, t: seq<Entry>, newestFirst: bool)
    requires Ordered(t, newestFirst)
    requires forall k :: 0 <= k < |t| ==> InOrder(h, t[k], newestFirst)
    ensures Ordered([h] + t, newestFirst)
  {
    var r := [h] + t;
    forall i, j | 0 <= i < j < |r|
      ensures InOrder(r[i], r[j], newestFirst)
    {
      if i == 0 {
        assert r[j] == t[j - 1];
      } else {
        assert r[i] == t[i - 1] && r[j] == t[j - 1];
      }
    }
  }

  /** What may precede every element of `t` and `x` may precede every element of a permutation of them. */
  lemma {:induction false} PrecedesPermutation(h: Entry, t: seq<Entry>, x: Entry, rest: seq<Entry>, newestFirst: bool)
    requires forall k :: 0 <= k < |t| ==> InOrder(h, t[k], newestFirst)
    requires InOrder(h, x, newestFirst)
    requires multiset(rest) == multiset(t) + multiset{x}
    ensures forall k :: 0 <= k < |rest| ==> InOrder(h, rest[k], newestFirst)
  {
    forall k | 0 <= k < |rest|
      ensures InOrder(h, rest[k], newestFirst)
    {
      assert rest[k] in multiset(rest);
      if rest[k] != x {
        assert rest[k] in multiset(t);
        var m :| 0 <= m < |t| && t[m] == rest[k];
      }
    }
  }

  /** Inserting one entry into an ordered list keeps it ordered and loses nothing. */
  function Insert(x: Entry, es: seq<Entry>, newestFirst: bool): (r: seq<Entry>)
    requires Ordered(es, newestFirst)
    ensures Ordered(r, newestFirst)
    ensures multiset(r) == multiset(es) + multiset{x}
    decreases |es|
  {
    if |es| == 0 then [x]
    else if InOrder(x, es[0], newestFirst) then
      assert forall k :: 0 <= k < |es| ==> InOrder(x, es[k], newestFirst) by {
        forall k | 0 < k < |es|
          ensures InOrder(x, es[k], newestFirst)
        {
          assert InOrder(es[0], es[k], newestFirst);
        }
      }
      ConsOrdered(x, es, newestFirst);
      [x] + es
    else
      var t := es[1..];
      var rest := Insert(x, t, newestFirst);
      assert es == [es[0]] + t;
      assert forall k :: 0 <= k < |t| ==> InOrder(es[0], t[k], newestFirst) by {
        forall k | 0 <= k < |t|
          ensures InOrder(es[0], t[k], newestFirst)
        {
          assert t[k] == es[k + 1];
        }
      }
      PrecedesPermutation(es[0], t, x, rest, newestFirst);
      ConsOrdered(es[0], rest, newestFirst);
      [es[0]] + rest
  }

  /** `sort({startTime: ±1})`: a reordering of the entries by start time. */
  function SortByStart(es: seq<Entry>, newestFirst: bool): (r: seq<Entry>)
    ensures Ordered(r, newestFirst)
    ensures multiset(r) == multiset(es)
    decreases |es|
  {
    if |es| == 0 then []
    else
      assert es == [es[0]] + es[1..];
      Insert(es[0], SortByStart(es[1..], newestFirst), newestFirst)
  }

  /** All sessions of a course with their ids, in the requested order. */
  function CourseSessions(db: Db, c: CourseId, newestFirst: bool): (r: seq<Entry>)
  {
    SortByStart(FindSessions(db.sessions, SessionFilter(Some(c), None)), newestFirst)
  }

  /** The listed sessions are exactly the course's sessions, each once, in order. */
  lemma {:induction false} CourseSessionsExact(db: Db, c: CourseId, newestFirst: bool)
    ensures Ordered(CourseSessions(db, c, newestFirst), newestFirst)
    ensures forall e :: e in CourseSessions(db, c, newestFirst) <==>
      e.0 < |db.sessions| && db.sessions[e.0] == e.1 && e.1.courseId == c
    ensures |CourseSessions(db, c, newestFirst)| == CountSessions(db.sessions, SessionFilter(Some(c), None))
  {
    var found := FindSessions(db.sessions, SessionFilter(Some(c), None));
    var r := CourseSessions(db, c, newestFirst);
    assert multiset(r) == multiset(found);
    assert |r| == |multiset(r)| == |multiset(found)| == |found|;
    forall e: Entry
      ensures e in r <==> (e.0 < |db.sessions| && db.sessions[e.0] == e.1 && e.1.courseId == c)
    {
      assert e in r <==> e in multiset(r);
      assert e in found <==> e in multiset(found);
      if e in found {
        var k :| 0 <= k < |found| && found[k] == e;
      }
    }
  }

  // ---------------------------------------------------------------------
  // getCourseStudents

  datatype StudentStat = StudentStat(studentId: UserId, attended: nat, percentage: Percentage)

  datatype CourseStudentsReport = CourseStudentsReport(totalClasses: nat, students: seq<StudentStat>)

  function ClosedFilter(c: CourseId): SessionFilter
  {
    SessionFilter(Some(c), Some(Closed))
  }

  /**
   * `getCourseStudents` as written: the total counts CLOSED sessions only,
   * while `attended` counts every PRESENT record of the course.
   */
  function CourseStudents(db: Db, c: CourseId): Result<CourseStudentsReport, ReportError>
  {
    if FindCourse(db.courses, c).None? then Err(CourseNotFound)
    else
      var total := CountSessions(db.sessions, ClosedFilter(c));
      var es := FilterEnrollments(db.enrollments, ByCourse(c));
      Ok(CourseStudentsReport(total, seq(|es|, k requires 0 <= k < |es| =>
        var a := CountRecords(db.records, PresentFilter(es[k].studentId, c));
        StudentStat(es[k].studentId, a, PercentageOf(a, total)))))
  }

  /**
   * The report exists exactly for a known course; it lists one line per
   * enrollment of the course, in the order of the enrollments, and the
   * total is the number of the course's CLOSED sessions.
   */
  lemma {:induction false} CourseStudentsLines(db: Db, c: CourseId)
    ensures CourseStudents(db, c).Ok? <==> exists i :: 0 <= i < |db.courses| && db.courses[i].id == c
    ensures CourseStudents(db, c).Ok? ==>
      var rep := CourseStudents(db, c).value;
      var es := FilterEnrollments(db.enrollments, ByCourse(c));
      && rep.totalClasses == |MatchingSessions(db.sessions, ClosedFilter(c))|
      && |rep.students| == |es| == CountEnrollments(db.enrollments, ByCourse(c))
      && forall k :: 0 <= k < |rep.students| ==>
           && rep.students[k].studentId == es[k].studentId
           && rep.students[k].attended == Tally(db.records, db.sessions, es[k].studentId, c, None)
           && rep.students[k].percentage == PercentageOf(rep.students[k].attended, rep.totalClasses)
           && (rep.students[k].percentage.Zero? <==> rep.totalClasses == 0)
  {
    CountSessionsIsMatching(db.sessions, ClosedFilter(c));
    if CourseStudents(db, c).Ok? {
      var es := FilterEnrollments(db.enrollments, ByCourse(c));
      forall k | 0 <= k < |es| {
        CountIsTallyOfAll(db.records, db.sessions, es[k].studentId, c);
      }
    }
  }

  /**
   * Under the enrollment index, the report names each student of the course
   * exactly once: its rows are for pairwise distinct students, and they are
   * the course's enrolled students.
   */
  lemma {:induction false} CourseStudentsEachOnce(db: Db, c: CourseId)
    requires UniqueEnrollments(db.enrollments)
    requires CourseStudents(db, c).Ok?
    ensures var rows := CourseStudents(db, c).value.students;
      forall k, l :: 0 <= k < l < |rows| ==> rows[k].studentId != rows[l].studentId
    ensures var rows := CourseStudents(db, c).value.students;
      (set k | 0 <= k < |rows| :: rows[k].studentId) == EnrolledStudents(db.enrollments, c)
    ensures |CourseStudents(db, c).value.students| == |EnrolledStudents(db.enrollments, c)|
  {
    CourseCountIsDistinctStudents(db.enrollments, c);
    CourseStudentsLines(db, c);
    CourseEnrollmentsDistinct(db.enrollments, c);
    CourseEnrollmentsStudents(db.enrollments, c);
    var rows := CourseStudents(db, c).value.students;
    var es := FilterEnrollments(db.enrollments, ByCourse(c));
    assert (set k | 0 <= k < |rows| :: rows[k].studentId) == (set k | 0 <= k < |es| :: es[k].studentId);
  }

  /**
   * A running session inflates the report: one CLOSED session, one ACTIVE
   * session, and a student PRESENT in both gives 2 attended out of 1 class.
   */
  lemma ActiveSessionInflatesAttendance()
    ensures
      var db := Db(
        [Course(1, "CS101", "Intro", 10)],
        [Session(10, 1, 0, Some(5), None, SessionMethod.OneClick, Closed),
         Session(10, 1, 6, None, None, SessionMethod.OneClick, Active)],
        [Record(7, 0, 1, Present, Some("d1"), Some("ip"), None, Some(0.0), RecordMethod.OneClick, NoFlags, 1),
         Record(7, 1, 1, Present, Some("d1"), Some("ip"), None, Some(0.0), RecordMethod.OneClick, NoFlags, 7)],
        [Enrollment(7, 1, 0)],
        map[]);
      && Consistent(db)
      && CourseStudents(db, 1).Ok?
      && CourseStudents(db, 1).value.totalClasses == 1
      && CourseStudents(db, 1).value.students[0].attended == 2
      && !AtMostWhole(CourseStudents(db, 1).value.students[0].percentage)
  {
    var db := Db(
        [Course(1, "CS101", "Intro", 10)],
        [Session(10, 1, 0, Some(5), None, SessionMethod.OneClick, Closed),
         Session(10, 1, 6, None, None, SessionMethod.OneClick, Active)],
        [Record(7, 0, 1, Present, Some("d1"), Some("ip"), None, Some(0.0), RecordMethod.OneClick, NoFlags, 1),
         Record(7, 1, 1, Present, Some("d1"), Some("ip"), None, Some(0.0), RecordMethod.OneClick, NoFlags, 7)],
        [Enrollment(7, 1, 0)],
        map[]);
    assert db.sessions[..1][..0] == [] && db.records[..1][..0] == [];
    assert db.enrollments[..0] == [];
  }

  /** The report with `attended` restricted to CLOSED sessions, matching its total. */
  function CourseStudentsClosedOnly(db: Db, c: CourseId): Result<CourseStudentsReport, ReportError>
  {
    if FindCourse(db.courses, c).None? then Err(CourseNotFound)
    else
      var total := CountSessions(db.sessions, ClosedFilter(c));
      var es := FilterEnrollments(db.enrollments, ByCourse(c));
      Ok(CourseStudentsReport(total, seq(|es|, k requires 0 <= k < |es| =>
        var a := Tally(db.records, db.sessions, es[k].studentId, c, Some(Closed));
        StudentStat(es[k].studentId, a, PercentageOf(a, total)))))
  }

  /**
   * In a consistent store no student's corrected percentage exceeds 100: the
   * corrected report has the lines of the report as written, one per
   * enrollment of the course, and counts PRESENT records in CLOSED sessions.
   */
  lemma {:induction false} ClosedOnlyAtMostWhole(db: Db, c: CourseId)
    requires Consistent(db)
    ensures CourseStudentsClosedOnly(db, c).Ok? <==> CourseStudents(db, c).Ok?
    ensures CourseStudentsClosedOnly(db, c).Ok? ==>
      var rep := CourseStudentsClosedOnly(db, c).value;
      var es := FilterEnrollments(db.enrollments, ByCourse(c));
      && rep.totalClasses == |MatchingSessions(db.sessions, ClosedFilter(c))|
      && rep.totalClasses == CourseStudents(db, c).value.totalClasses
      && |rep.students| == |es|
      && forall k :: 0 <= k < |rep.students| ==>
           && rep.students[k].studentId == es[k].studentId
           && rep.students[k].attended == Tally(db.records, db.sessions, es[k].studentId, c, Some(Closed))
           && rep.students[k].percentage == PercentageOf(rep.students[k].attended, rep.totalClasses)
           && rep.students[k].attended <= rep.totalClasses
           && AtMostWhole(rep.students[k].percentage)
  {
    CountSessionsIsMatching(db.sessions, ClosedFilter(c));
    if CourseStudentsClosedOnly(db, c).Ok? {
      var es := FilterEnrollments(db.enrollments, ByCourse(c));
      forall k | 0 <= k < |es| {
        TallyAtMostSessions(db, es[k].studentId, c, Some(Closed));
      }
    }
  }

  // ---------------------------------------------------------------------
  // getCourseHistory

  datatype HistoryRow = HistoryRow(
    sessionId: SessionId,
    date: Time,
    attendanceMethod: SessionMethod,
    presentCount: nat,
    absentCount: int,
    percentage: Percentage)

  function PresentInSession(sid: SessionId): RecordFilter
  {
    RecordFilter(Some(sid), None, None, Some(Present), None, None)
  }

  /** `getCourseHistory`: one row per session of the course, newest first. */
  function CourseHistory(db: Db, c: CourseId): seq<HistoryRow>
  {
    var ss := CourseSessions(db, c, true);
    var enrolled := CountEnrollments(db.enrollments, ByCourse(c));
    seq(|ss|, k requires 0 <= k < |ss| =>
      var present := CountRecords(db.records, PresentInSession(ss[k].0));
      HistoryRow(ss[k].0, ss[k].1.startTime, ss[k].1.attendanceMethod, present, enrolled - present,
                 PercentageOf(present, enrolled)))
  }

  /** The history lists every session of the course once, newest first. */
  lemma {:induction false} CourseHistoryOrder(db: Db, c: CourseId)
    ensures var h := CourseHistory(db, c);
      |h| == CountSessions(db.sessions, SessionFilter(Some(c), None))
    ensures var h := CourseHistory(db, c);
      forall k, l :: 0 <= k < l < |h| ==> h[k].date >= h[l].date
    ensures var h := CourseHistory(db, c);
      forall i :: 0 <= i < |db.sessions| && db.sessions[i].courseId == c ==>
        exists k :: 0 <= k < |h| && h[k].sessionId == i
  {
    CourseSessionsExact(db, c, true);
    var ss := CourseSessions(db, c, true);
    var h := CourseHistory(db, c);
    forall k, l | 0 <= k < l < |h|
      ensures h[k].date >= h[l].date
    {
      assert InOrder(ss[k], ss[l], true);
    }
    forall i | 0 <= i < |db.sessions| && db.sessions[i].courseId == c
      ensures exists k :: 0 <= k < |h| && h[k].sessionId == i
    {
      assert (i, db.sessions[i]) in ss;
      var k :| 0 <= k < |ss| && ss[k] == (i, db.sessions[i]);
      assert h[k].sessionId == i;
    }
  }

  /**
   * Each row of the history is a session of the course, dated by its start;
   * its present and absent counts add up to the enrollment count, and its
   * percentage is zero exactly when nobody is enrolled.
   */
  lemma {:induction false} CourseHistoryCounts(db: Db, c: CourseId)
    ensures var h := CourseHistory(db, c);
      forall k :: 0 <= k < |h| ==>
        && h[k].sessionId < |db.sessions| && db.sessions[h[k].sessionId].courseId == c
        && h[k].date == db.sessions[h[k].sessionId].startTime
        && h[k].attendanceMethod == db.sessions[h[k].sessionId].attendanceMethod
        && h[k].presentCount == CountRecords(db.records, PresentInSession(h[k].sessionId))
        && h[k].presentCount + h[k].absentCount == CountEnrollments(db.enrollments, ByCourse(c))
        && h[k].percentage == PercentageOf(h[k].presentCount, CountEnrollments(db.enrollments, ByCourse(c)))
        && (h[k].percentage.Zero? <==> CountEnrollments(db.enrollments, ByCourse(c)) == 0)
  {
    CourseSessionsExact(db, c, true);
    var ss := CourseSessions(db, c, true);
    var h := CourseHistory(db, c);
    forall k | 0 <= k < |h|
      ensures h[k].sessionId < |db.sessions| && db.sessions[h[k].sessionId].courseId == c
      ensures h[k].date == db.sessions[h[k].sessionId].startTime
      ensures h[k].attendanceMethod == db.sessions[h[k].sessionId].attendanceMethod
    {
      assert ss[k] in ss;
    }
  }

  // ---------------------------------------------------------------------
  // getSessionDetails

  datatype RosterLine = RosterLine(studentId: UserId, status: RecordStatus)

  datatype SessionDetailsReport = SessionDetailsReport(session: Session, course: Course, students: seq<RosterLine>)

  /**
   * `getSessionDetails` as written: one line per enrollment of the session's
   * course, PRESENT when the student has any record in the session. A session
   * whose course no longer exists fails while the course is populated.
   */
  function SessionDetails(db: Db, sid: SessionId): Result<SessionDetailsReport, ReportError>
  {
    if sid >= |db.sessions| then Err(SessionNotFound)
    else
      var s := db.sessions[sid];
      match FindCourse(db.courses, s.courseId)
      case None => Err(CourseMissing)
      case Some(ci) =>
        var es := FilterEnrollments(db.enrollments, ByCourse(s.courseId));
        Ok(SessionDetailsReport(s, db.courses[ci], seq(|es|, k requires 0 <= k < |es| =>
          RosterLine(es[k].studentId,
                     if FindRecord(db.records, BySessionStudent(sid, es[k].studentId)).Some? then Present else Absent))))
  }

  /** Whether the student holds a record in the session, of any status. */
  ghost predicate HoldsRecord(db: Db, sid: SessionId, student: UserId)
  {
    exists i :: 0 <= i < |db.records| && db.records[i].sessionId == sid && db.records[i].studentId == student
  }

  /** Whether the student holds a PRESENT record in the session. */
  ghost predicate HoldsPresentRecord(db: Db, sid: SessionId, student: UserId)
  {
    exists i :: 0 <= i < |db.records| && db.records[i].sessionId == sid && db.records[i].studentId == student
      && db.records[i].status == Present
  }

  /** The roster exists for an existing session whose course exists; each line says PRESENT iff any record exists. */
  lemma {:induction false} SessionDetailsAnyRecord(db: Db, sid: SessionId)
    ensures SessionDetails(db, sid) == Err(SessionNotFound) <==> sid >= |db.sessions|
    ensures SessionDetails(db, sid) == Err(CourseMissing) <==>
      sid < |db.sessions| && forall i :: 0 <= i < |db.courses| ==> db.courses[i].id != db.sessions[sid].courseId
    ensures SessionDetails(db, sid).Ok? ==>
      var rep := SessionDetails(db, sid).value;
      var es := FilterEnrollments(db.enrollments, ByCourse(db.sessions[sid].courseId));
      && rep.session == db.sessions[sid]
      && rep.course in db.courses && rep.course.id == db.sessions[sid].courseId
      && |rep.students| == |es|
      && forall k :: 0 <= k < |rep.students| ==>
           && rep.students[k].studentId == es[k].studentId
           && (rep.students[k].status == Present <==> HoldsRecord(db, sid, es[k].studentId))
  {
    if SessionDetails(db, sid).Ok? {
      var es := FilterEnrollments(db.enrollments, ByCourse(db.sessions[sid].courseId));
      forall k | 0 <= k < |es|
        ensures FindRecord(db.records, BySessionStudent(sid, es[k].studentId)).Some? <==> HoldsRecord(db, sid, es[k].studentId)
      {
        FindRecordIffHolds(db, sid, es[k].studentId);
      }
    }
  }

  lemma {:induction false} FindRecordIffHolds(db: Db, sid: SessionId, student: UserId)
    ensures FindRecord(db.records, BySessionStudent(sid, student)).Some? <==> HoldsRecord(db, sid, student)
  {
    if HoldsRecord(db, sid, student) {
      var i :| 0 <= i < |db.records| && db.records[i].sessionId == sid && db.records[i].studentId == student;
      assert RecordSchema.Matches(BySessionStudent(sid, student), db.records[i]);
    }
  }

  /**
   * A student switched to ABSENT by a manual override is still listed as
   * PRESENT: the roster looks only at whether a record exists.
   */
  lemma OverriddenAbsentShownPresent()
    ensures
      var db := Db(
        [Course(1, "CS101", "Intro", 10)],
        [Session(10, 1, 0, Some(5), None, SessionMethod.OneClick, Closed)],
        [Record(7, 0, 1, Absent, Some("d1"), Some("ip"), None, Some(0.0), RecordMethod.OneClick, ManualOverride(9), 1)],
        [Enrollment(7, 1, 0)],
        map[]);
      && Consistent(db)
      && SessionDetails(db, 0).Ok?
      && SessionDetails(db, 0).value.students == [RosterLine(7, Present)]
      && !HoldsPresentRecord(db, 0, 7)
  {
    var db := Db(
        [Course(1, "CS101", "Intro", 10)],
        [Session(10, 1, 0, Some(5), None, SessionMethod.OneClick, Closed)],
        [Record(7, 0, 1, Absent, Some("d1"), Some("ip"), None, Some(0.0), RecordMethod.OneClick, ManualOverride(9), 1)],
        [Enrollment(7, 1, 0)],
        map[]);
    assert db.enrollments[..0] == [];
  }

  /** The status of the student's record in the session, ABSENT when there is none. */
  function RecordedStatus(db: Db, sid: SessionId, student: UserId): RecordStatus
  {
    match FindRecord(db.records, BySessionStudent(sid, student))
    case Some(i) => db.records[i].status
    case None => Absent
  }

  /** The roster reading each student's status from their record. */
  function SessionDetailsByStatus(db: Db, sid: SessionId): Result<SessionDetailsReport, ReportError>
  {
    if sid >= |db.sessions| then Err(SessionNotFound)
    else
      var s := db.sessions[sid];
      match FindCourse(db.courses, s.courseId)
      case None => Err(CourseMissing)
      case Some(ci) =>
        var es := FilterEnrollments(db.enrollments, ByCourse(s.courseId));
        Ok(SessionDetailsReport(s, db.courses[ci], seq(|es|, k requires 0 <= k < |es| =>
          RosterLine(es[k].studentId, RecordedStatus(db, sid, es[k].studentId)))))
  }

  /** With one record per student and session, the recorded status is PRESENT iff a PRESENT record exists. */
  lemma {:induction false} RecordedStatusIffPresent(db: Db, sid: SessionId, student: UserId)
    requires UniquePerStudent(db.records)
    ensures RecordedStatus(db, sid, student) == Present <==> HoldsPresentRecord(db, sid, student)
  {
    var f := FindRecord(db.records, BySessionStudent(sid, student));
    if HoldsPresentRecord(db, sid, student) {
      var i :| 0 <= i < |db.records| && db.records[i].sessionId == sid && db.records[i].studentId == student
        && db.records[i].status == Present;
      assert RecordSchema.Matches(BySessionStudent(sid, student), db.records[i]);
      OnlyRecord(db.records, i, f.value);
    }
  }

  /**
   * The corrected roster agrees with the records: it has the session, the
   * course and the students of the roster as written, line for line, and a
   * line says PRESENT exactly when the student holds a PRESENT record in the
   * session.
   */
  lemma {:induction false} SessionDetailsByStatusFaithful(db: Db, sid: SessionId)
    requires Consistent(db)
    ensures SessionDetailsByStatus(db, sid).Ok? <==> SessionDetails(db, sid).Ok?
    ensures SessionDetailsByStatus(db, sid).Ok? ==>
      var rep := SessionDetailsByStatus(db, sid).value;
      var w := SessionDetails(db, sid).value;
      && rep.session == w.session && rep.course == w.course
      && |rep.students| == |w.students|
      && forall k :: 0 <= k < |rep.students| ==>
           && rep.students[k].studentId == w.students[k].studentId
           && (rep.students[k].status == Present <==> HoldsPresentRecord(db, sid, rep.students[k].studentId))
  {
    if SessionDetailsByStatus(db, sid).Ok? {
      var rep := SessionDetailsByStatus(db, sid).value;
      forall k | 0 <= k < |rep.students| {
        RecordedStatusIffPresent(db, sid, rep.students[k].studentId);
      }
    }
  }

  /** After a manual override of a student's record, the corrected roster shows the new status. */
  lemma {:induction false} OverrideReflected(db: Db, i: nat, status: RecordStatus, flags: FraudFlags)
    requires UniquePerStudent(db.records)
    requires i < |db.records|
    ensures var r := db.records[i];
      var db' := db.(records := db.records[i := r.(status := status, fraudFlags := flags)]);
      RecordedStatus(db', r.sessionId, r.studentId) == status
  {
    var r := db.records[i];
    var rs' := db.records[i := r.(status := status, fraudFlags := flags)];
    var db' := db.(records := rs');
    assert RecordSchema.Matches(BySessionStudent(r.sessionId, r.studentId), rs'[i]);
    var j := FindRecord(rs', BySessionStudent(r.sessionId, r.studentId)).value;
    assert db.records[j].sessionId == rs'[j].sessionId && db.records[j].studentId == rs'[j].studentId;
    OnlyRecord(db.records, i, j);
  }

  /** Under the per-student index, two records of one student in one session are the same record. */
  lemma {:induction false} OnlyRecord(rs: seq<Record>, i: nat, j: nat)
    requires UniquePerStudent(rs)
    requires i < |rs| && j < |rs|
    requires rs[i].sessionId == rs[j].sessionId && rs[i].studentId == rs[j].studentId
    ensures i == j
  {
  }

  // ---------------------------------------------------------------------
  // getStudentCourseDetails

  datatype CourseDetailLine = CourseDetailLine(sessionId: SessionId, date: Time, status: RecordStatus, attendanceTaken: bool)

  function StudentRecordIn(sid: SessionId, student: UserId, c: CourseId): RecordFilter
  {
    RecordFilter(Some(sid), Some(student), Some(c), None, None, None)
  }

  /**
   * `getStudentCourseDetails` as written: one line per session of the course,
   * oldest first, PRESENT when the student has any record of the course in it.
   */
  function StudentCourseDetails(db: Db, c: CourseId, student: UserId): seq<CourseDetailLine>
  {
    var ss := CourseSessions(db, c, false);
    seq(|ss|, k requires 0 <= k < |ss| =>
      CourseDetailLine(ss[k].0, ss[k].1.startTime,
                       if FindRecord(db.records, StudentRecordIn(ss[k].0, student, c)).Some? then Present else Absent,
                       ss[k].1.status == Closed))
  }

  /** The lines cover every session of the course once, dated by its start, oldest first. */
  lemma {:induction false} StudentCourseDetailsOrder(db: Db, c: CourseId, student: UserId)
    ensures var h := StudentCourseDetails(db, c, student);
      |h| == CountSessions(db.sessions, SessionFilter(Some(c), None))
    ensures var h := StudentCourseDetails(db, c, student);
      forall k :: 0 <= k < |h| ==>
        h[k].sessionId < |db.sessions| && h[k].date == db.sessions[h[k].sessionId].startTime
    ensures var h := StudentCourseDetails(db, c, student);
      forall k, l :: 0 <= k < l < |h| ==> h[k].date <= h[l].date
    ensures var h := StudentCourseDetails(db, c, student);
      forall i :: 0 <= i < |db.sessions| && db.sessions[i].courseId == c ==>
        exists k :: 0 <= k < |h| && h[k].sessionId == i
  {
    CourseSessionsExact(db, c, false);
    var ss := CourseSessions(db, c, false);
    var h := StudentCourseDetails(db, c, student);
    forall k | 0 <= k < |h|
      ensures h[k].sessionId < |db.sessions| && h[k].date == db.sessions[h[k].sessionId].startTime
    {
      assert ss[k] in ss;
    }
    forall k, l | 0 <= k < l < |h|
      ensures h[k].date <= h[l].date
    {
      assert InOrder(ss[k], ss[l], false);
    }
    forall i | 0 <= i < |db.sessions| && db.sessions[i].courseId == c
      ensures exists k :: 0 <= k < |h| && h[k].sessionId == i
    {
      assert (i, db.sessions[i]) in ss;
      var k :| 0 <= k < |ss| && ss[k] == (i, db.sessions[i]);
      assert h[k].sessionId == i;
    }
  }

  /**
   * Each line names a session of the course; it is PRESENT iff the student
   * holds any record in that session, of any status (the course filter
   * excludes nothing once every record belongs to its session's course), and
   * attendance counts as taken iff the session is CLOSED.
   */
  lemma {:induction false} StudentCourseDetailsStatus(db: Db, c: CourseId, student: UserId)
    requires forall i :: 0 <= i < |db.records| ==> RecordBelongs(db.records[i], db.sessions)
    ensures var h := StudentCourseDetails(db, c, student);
      forall k :: 0 <= k < |h| ==>
        && h[k].sessionId < |db.sessions| && db.sessions[h[k].sessionId].courseId == c
        && (h[k].status == Present <==> HoldsRecord(db, h[k].sessionId, student))
        && (h[k].attendanceTaken <==> db.sessions[h[k].sessionId].status == Closed)
  {
    CourseSessionsExact(db, c, false);
    var ss := CourseSessions(db, c, false);
    var h := StudentCourseDetails(db, c, student);
    forall k | 0 <= k < |h|
      ensures h[k].sessionId < |db.sessions| && db.sessions[h[k].sessionId].courseId == c
      ensures h[k].status == Present <==> HoldsRecord(db, h[k].sessionId, student)
      ensures h[k].attendanceTaken <==> db.sessions[h[k].sessionId].status == Closed
    {
      assert ss[k] in ss;
      CourseRecordIffHolds(db, c, student, ss[k].0);
    }
  }

  /** Within a session of the course, the course filter of the query excludes no record. */
  lemma {:induction false} CourseRecordIffHolds(db: Db, c: CourseId, student: UserId, sid: SessionId)
    requires forall i :: 0 <= i < |db.records| ==> RecordBelongs(db.records[i], db.sessions)
    requires sid < |db.sessions| && db.sessions[sid].courseId == c
    ensures FindRecord(db.records, StudentRecordIn(sid, student, c)).Some? <==> HoldsRecord(db, sid, student)
  {
    if HoldsRecord(db, sid, student) {
      var i :| 0 <= i < |db.records| && db.records[i].sessionId == sid && db.records[i].studentId == student;
      assert RecordBelongs(db.records[i], db.sessions);
      assert RecordSchema.Matches(StudentRecordIn(sid, student, c), db.records[i]);
    }
  }

  /** A student's history reading the status of their record. */
  function StudentCourseDetailsByStatus(db: Db, c: CourseId, student: UserId): seq<CourseDetailLine>
  {
    var ss := CourseSessions(db, c, false);
    seq(|ss|, k requires 0 <= k < |ss| =>
      CourseDetailLine(ss[k].0, ss[k].1.startTime, RecordedStatus(db, ss[k].0, student), ss[k].1.status == Closed))
  }

  /**
   * The corrected history has the lines of the history as written, with
   * the same session, date and taken flag, and says PRESENT exactly when the
   * student holds a PRESENT record in the session.
   */
  lemma {:induction false} StudentCourseDetailsByStatusFaithful(db: Db, c: CourseId, student: UserId)
    requires Consistent(db)
    ensures var h := StudentCourseDetailsByStatus(db, c, student);
      var w := StudentCourseDetails(db, c, student);
      && |h| == |w|
      && forall k :: 0 <= k < |h| ==>
           && h[k].sessionId == w[k].sessionId && h[k].date == w[k].date
           && h[k].attendanceTaken == w[k].attendanceTaken
           && (h[k].status == Present <==> HoldsPresentRecord(db, h[k].sessionId, student))
  {
    var h := StudentCourseDetailsByStatus(db, c, student);
    forall k | 0 <= k < |h| {
      RecordedStatusIffPresent(db, h[k].sessionId, student);
    }
  }

  /** The same override, seen from the student's side: the history still says PRESENT. */
  lemma OverriddenAbsentInStudentHistory()
    ensures
      var db := Db(
        [Course(1, "CS101", "Intro", 10)],
        [Session(10, 1, 0, Some(5), None, SessionMethod.OneClick, Closed)],
        [Record(7, 0, 1, Absent, Some("d1"), Some("ip"), None, Some(0.0), RecordMethod.OneClick, ManualOverride(9), 1)],
        [Enrollment(7, 1, 0)],
        map[]);
      && StudentCourseDetails(db, 1, 7) == [CourseDetailLine(0, 0, Present, true)]
      && StudentCourseDetailsByStatus(db, 1, 7) == [CourseDetailLine(0, 0, Absent, true)]
  {
    var db := Db(
        [Course(1, "CS101", "Intro", 10)],
        [Session(10, 1, 0, Some(5), None, SessionMethod.OneClick, Closed)],
        [Record(7, 0, 1, Absent, Some("d1"), Some("ip"), None, Some(0.0), RecordMethod.OneClick, ManualOverride(9), 1)],
        [Enrollment(7, 1, 0)],
        map[]);
    assert db.sessions[..0] == [];
    assert FindSessions(db.sessions, SessionFilter(Some(1), None)) == [(0, db.sessions[0])];
  }
}
