/**
 * The course list a signed-in user sees: a faculty member gets the courses
 * they own with their enrollment counts, a student gets the courses they are
 * enrolled in with attendance statistics, and any other role is refused.
 */
module CourseController {
  import opened Common
  import opened SessionSchema
  import opened RecordSchema
  import opened EnrollmentSchema
  import opened Store
  import opened Tallies

  datatype Role = Faculty | Student | Admin

  /** The signed-in user, as far as the course list looks at it. */
  datatype User = User(id: UserId, role: Role)

  datatype CourseCount = CourseCount(course: Course, studentCount: nat)

  datatype Stats = Stats(totalClasses: nat, attendedClasses: nat, missedClasses: int, percentage: Percentage)

  datatype CourseStats = CourseStats(course: Course, stats: Stats)

  datatype CoursesView = FacultyCourses(owned: seq<CourseCount>) | StudentCourses(enrolled: seq<CourseStats>)

  datatype CourseError = NotAuthorized

  /** The positions of the courses `faculty` owns, in increasing order; each owned position appears once. */
  function OwnedPositions(cs: seq<Course>, faculty: UserId): (idx: seq<nat>)
    ensures forall k :: 0 <= k < |idx| ==> idx[k] < |cs| && cs[idx[k]].facultyId == faculty
    ensures forall k, l :: 0 <= k < l < |idx| ==> idx[k] < idx[l]
    ensures forall i :: 0 <= i < |cs| && cs[i].facultyId == faculty ==> i in idx
  {
    if |cs| == 0 then []
    else
      var n := |cs| - 1;
      assert forall i :: 0 <= i < n ==> cs[..n][i] == cs[i];
      OwnedPositions(cs[..n], faculty) + (if cs[n].facultyId == faculty then [n] else [])
  }

  /**
   * `Course.find({facultyId})`: the courses of one faculty member, in natural
   * order (see `OwnedCoursesInOrder`).
   */
  function OwnedCourses(cs: seq<Course>, faculty: UserId): (r: seq<Course>)
    ensures forall c :: c in r <==> c in cs && c.facultyId == faculty
  {
    if |cs| == 0 then []
    else
      var n := |cs| - 1;
      assert cs == cs[..n] + [cs[n]];
      OwnedCourses(cs[..n], faculty) + (if cs[n].facultyId == faculty then [cs[n]] else [])
  }

  /** `find` keeps natural order and multiplicity: the k-th owned course is the course at the k-th owned position. */
  lemma {:induction false} OwnedCoursesInOrder(cs: seq<Course>, faculty: UserId)
    ensures AtPositions(cs, OwnedCourses(cs, faculty), OwnedPositions(cs, faculty))
  {
    if |cs| > 0 {
      var n := |cs| - 1;
      OwnedCoursesInOrder(cs[..n], faculty);
      AtPositionsSnoc(cs, OwnedCourses(cs[..n], faculty), OwnedPositions(cs[..n], faculty), cs[n].facultyId == faculty);
    }
  }

  /** The statistics of one student in one course: every session counts as a class. */
  function StatsOf(db: Db, student: UserId, c: CourseId): Stats
  {
    var total := CountSessions(db.sessions, SessionFilter(Some(c), None));
    var attended := CountRecords(db.records, PresentFilter(student, c));
    Stats(total, attended, total - attended, PercentageOf(attended, total))
  }

  /**
   * Every session of the course counts as a class, the attended classes are
   * the student's PRESENT records of the course, the missed classes are the
   * rest, and the percentage is the attended part of the total.
   */
  lemma {:induction false} StatsOfCounts(db: Db, student: UserId, c: CourseId)
    ensures var st := StatsOf(db, student, c);
      && st.totalClasses == CountSessions(db.sessions, SessionFilter(Some(c), None))
      && st.attendedClasses == Tally(db.records, db.sessions, student, c, None)
      && st.missedClasses == st.totalClasses - st.attendedClasses
      && st.percentage == PercentageOf(st.attendedClasses, st.totalClasses)
      && (st.percentage.Zero? <==> st.totalClasses == 0)
  {
    CountIsTallyOfAll(db.records, db.sessions, student, c);
  }

  /** The student's enrollments mapped to their course and statistics; an enrollment whose course is gone is dropped. */
  function EnrolledCourseStats(db: Db, student: UserId, es: seq<Enrollment>): seq<CourseStats>
  {
    if |es| == 0 then []
    else
      var n := |es| - 1;
      EnrolledCourseStats(db, student, es[..n]) +
        match FindCourse(db.courses, es[n].courseId)
        case None => []
        case Some(i) => [CourseStats(db.courses[i], StatsOf(db, student, es[n].courseId))]
  }

  /** `getCourses`. */
  function GetCourses(db: Db, user: User): Result<CoursesView, CourseError>
  {
    match user.role
    case Faculty =>
      var owned := OwnedCourses(db.courses, user.id);
      Ok(FacultyCourses(seq(|owned|, k requires 0 <= k < |owned| =>
        CourseCount(owned[k], CountEnrollments(db.enrollments, ByCourse(owned[k].id))))))
    case Student =>
      Ok(StudentCourses(EnrolledCourseStats(db, user.id, FilterEnrollments(db.enrollments, ByStudent(user.id)))))
    case Admin => Err(NotAuthorized)
  }

  /** Only faculty and students get a list; each gets the kind of list their role calls for. */
  lemma {:induction false} GetCoursesByRole(db: Db, user: User)
    ensures GetCourses(db, user) == Err(NotAuthorized) <==> user.role == Admin
    ensures GetCourses(db, user).Ok? ==> (GetCourses(db, user).value.FacultyCourses? <==> user.role == Faculty)
  {
  }

  /** A faculty member's lines are the courses they own, each once, in natural order. */
  lemma {:induction false} FacultyCoursesListed(db: Db, user: User)
    requires user.role == Faculty
    ensures var owned := GetCourses(db, user).value.owned;
      && (forall c :: (exists k :: 0 <= k < |owned| && owned[k].course == c) <==> c in db.courses && c.facultyId == user.id)
      && |owned| == |OwnedPositions(db.courses, user.id)|
      && (forall k :: 0 <= k < |owned| ==> owned[k].course == db.courses[OwnedPositions(db.courses, user.id)[k]])
  {
    var cs := OwnedCourses(db.courses, user.id);
    var owned := GetCourses(db, user).value.owned;
    FacultyLines(db, user);
    OwnedCoursesInOrder(db.courses, user.id);
    forall c
      ensures (exists k :: 0 <= k < |owned| && owned[k].course == c) <==> c in cs
    {
      if c in cs {
        var k :| 0 <= k < |cs| && cs[k] == c;
        assert owned[k].course == c;
      }
    }
  }

  /** A faculty member's k-th line is their k-th owned course. */
  lemma {:induction false} FacultyLines(db: Db, user: User)
    requires user.role == Faculty
    ensures var owned := GetCourses(db, user).value.owned;
      |owned| == |OwnedCourses(db.courses, user.id)|
      && forall k :: 0 <= k < |owned| ==> owned[k].course == OwnedCourses(db.courses, user.id)[k]
  {
  }

  /** Under the enrollment index, each line's count is the number of distinct students of its course. */
  lemma {:induction false} FacultyCoursesCounts(db: Db, user: User)
    requires user.role == Faculty
    requires UniqueEnrollments(db.enrollments)
    ensures var owned := GetCourses(db, user).value.owned;
      forall k :: 0 <= k < |owned| ==> owned[k].studentCount == |EnrolledStudents(db.enrollments, owned[k].course.id)|
  {
    var owned := GetCourses(db, user).value.owned;
    forall k | 0 <= k < |owned|
      ensures owned[k].studentCount == |EnrolledStudents(db.enrollments, owned[k].course.id)|
    {
      CourseCountIsDistinctStudents(db.enrollments, owned[k].course.id);
    }
  }

  /**
   * A faculty member sees exactly the courses they own, each once and in
   * natural order; each course's count is its number of enrollments, which
   * under the enrollment index is its number of distinct students.
   */
  lemma {:induction false} FacultyCoursesExact(db: Db, user: User)
    requires user.role == Faculty
    requires UniqueEnrollments(db.enrollments)
    ensures var owned := GetCourses(db, user).value.owned;
      && (forall c :: (exists k :: 0 <= k < |owned| && owned[k].course == c) <==> c in db.courses && c.facultyId == user.id)
      && |owned| == |OwnedPositions(db.courses, user.id)|
      && (forall k :: 0 <= k < |owned| ==> owned[k].course == db.courses[OwnedPositions(db.courses, user.id)[k]])
      && forall k :: 0 <= k < |owned| ==>
           owned[k].studentCount == |EnrolledStudents(db.enrollments, owned[k].course.id)|
  {
    FacultyCoursesListed(db, user);
    FacultyCoursesCounts(db, user);
  }

  /** The positions of the enrollments whose course still exists, in increasing order; each appears once. */
  function SurvivingPositions(db: Db, es: seq<Enrollment>): (idx: seq<nat>)
    ensures forall k :: 0 <= k < |idx| ==> idx[k] < |es| && FindCourse(db.courses, es[idx[k]].courseId).Some?
    ensures forall k, l :: 0 <= k < l < |idx| ==> idx[k] < idx[l]
    ensures forall i :: 0 <= i < |es| && FindCourse(db.courses, es[i].courseId).Some? ==> i in idx
  {
    if |es| == 0 then []
    else
      var n := |es| - 1;
      assert forall i :: 0 <= i < n ==> es[..n][i] == es[i];
      SurvivingPositions(db, es[..n]) + (if FindCourse(db.courses, es[n].courseId).Some? then [n] else [])
  }

  /** Whether `line` is the line of enrollment `e`: its surviving course with the student's statistics there. */
  predicate LineFrom(db: Db, student: UserId, line: CourseStats, e: Enrollment)
  {
    && FindCourse(db.courses, e.courseId).Some?
    && line.course == db.courses[FindCourse(db.courses, e.courseId).value]
    && line.stats == StatsOf(db, student, e.courseId)
  }

  /**
   * One line per surviving enrollment, in enrollment order: the k-th line is
   * the course and statistics of the k-th enrollment whose course exists.
   */
  lemma {:induction false} EnrolledCourseStatsInOrder(db: Db, student: UserId, es: seq<Enrollment>)
    ensures |EnrolledCourseStats(db, student, es)| == |SurvivingPositions(db, es)|
    ensures forall k :: 0 <= k < |EnrolledCourseStats(db, student, es)| ==>
      LineFrom(db, student, EnrolledCourseStats(db, student, es)[k], es[SurvivingPositions(db, es)[k]])
    decreases |es|
  {
    if |es| > 0 {
      var n := |es| - 1;
      EnrolledCourseStatsInOrder(db, student, es[..n]);
      var r0, idx0 := EnrolledCourseStats(db, student, es[..n]), SurvivingPositions(db, es[..n]);
      var r, idx := EnrolledCourseStats(db, student, es), SurvivingPositions(db, es);
      forall k | 0 <= k < |r|
        ensures LineFrom(db, student, r[k], es[idx[k]])
      {
        if k < |r0| {
          assert r[k] == r0[k] && idx[k] == idx0[k];
          assert es[..n][idx0[k]] == es[idx0[k]];
        } else {
          assert idx[k] == n;
        }
      }
    }
  }

  /**
   * The k-th line of a student's course list comes from the k-th of their
   * enrollments, in enrollment order, whose course still exists.
   */
  lemma {:induction false} StudentCoursesInOrder(db: Db, user: User)
    requires user.role == Student
    ensures var es := FilterEnrollments(db.enrollments, ByStudent(user.id));
      |GetCourses(db, user).value.enrolled| == |SurvivingPositions(db, es)|
    ensures var es := FilterEnrollments(db.enrollments, ByStudent(user.id));
      forall k :: 0 <= k < |GetCourses(db, user).value.enrolled| ==>
        GetCourses(db, user).value.enrolled[k].course.id == es[SurvivingPositions(db, es)[k]].courseId
  {
    var es := FilterEnrollments(db.enrollments, ByStudent(user.id));
    EnrolledCourseStatsInOrder(db, user.id, es);
    var r, idx := GetCourses(db, user).value.enrolled, SurvivingPositions(db, es);
    forall k | 0 <= k < |r|
      ensures r[k].course.id == es[idx[k]].courseId
    {
      assert LineFrom(db, user.id, r[k], es[idx[k]]);
    }
  }

  /** Whether one of the enrollments `es` is in course `c`. */
  predicate HasEnrollmentIn(es: seq<Enrollment>, c: CourseId)
  {
    exists j :: 0 <= j < |es| && es[j].courseId == c
  }

  /** Every line of a student's list is a surviving course the student is enrolled in, with its statistics. */
  lemma {:induction false} EnrolledCourseStatsSound(db: Db, student: UserId, es: seq<Enrollment>)
    ensures forall k :: 0 <= k < |EnrolledCourseStats(db, student, es)| ==>
      && EnrolledCourseStats(db, student, es)[k].course in db.courses
      && HasEnrollmentIn(es, EnrolledCourseStats(db, student, es)[k].course.id)
      && EnrolledCourseStats(db, student, es)[k].stats == StatsOf(db, student, EnrolledCourseStats(db, student, es)[k].course.id)
    decreases |es|
  {
    if |es| > 0 {
      var n := |es| - 1;
      EnrolledCourseStatsSound(db, student, es[..n]);
      var init := EnrolledCourseStats(db, student, es[..n]);
      forall k | 0 <= k < |init|
        ensures HasEnrollmentIn(es, init[k].course.id)
      {
        var j :| 0 <= j < n && es[..n][j].courseId == init[k].course.id;
        assert es[j] == es[..n][j];
      }
    }
  }

  /** Whether some line of a student's list shows course `c`. */
  predicate Lists(r: seq<CourseStats>, c: CourseId)
  {
    exists k :: 0 <= k < |r| && r[k].course.id == c
  }

  /** Every enrollment whose course still exists has a line; only deleted courses are dropped. */
  lemma {:induction false} EnrolledCourseStatsComplete(db: Db, student: UserId, es: seq<Enrollment>)
    ensures forall j :: 0 <= j < |es| && FindCourse(db.courses, es[j].courseId).Some? ==>
      Lists(EnrolledCourseStats(db, student, es), es[j].courseId)
    decreases |es|
  {
    if |es| > 0 {
      var n := |es| - 1;
      var init := EnrolledCourseStats(db, student, es[..n]);
      var r := EnrolledCourseStats(db, student, es);
      EnrolledCourseStatsComplete(db, student, es[..n]);
      forall j | 0 <= j < |es| && FindCourse(db.courses, es[j].courseId).Some?
        ensures Lists(r, es[j].courseId)
      {
        if j < n {
          assert es[..n][j] == es[j];
          var k :| 0 <= k < |init| && init[k].course.id == es[j].courseId;
          assert r[k] == init[k];
        } else {
          var i := FindCourse(db.courses, es[n].courseId).value;
          assert r[|init|].course == db.courses[i];
        }
      }
    }
  }

  /**
   * Every line of a student's list is a surviving course they are enrolled
   * in, and every surviving enrollment is listed; in each line the missed and
   * attended classes add up to the total, and the percentage is the attended
   * part of the total, zero exactly when the course has no session.
   */
  lemma {:induction false} StudentCoursesLines(db: Db, user: User)
    requires user.role == Student
    ensures forall k :: 0 <= k < |GetCourses(db, user).value.enrolled| ==>
      var line := GetCourses(db, user).value.enrolled[k];
      && line.course in db.courses
      && Enrolled(db.enrollments, user.id, line.course.id)
      && line.stats.totalClasses == CountSessions(db.sessions, SessionFilter(Some(line.course.id), None))
      && line.stats.attendedClasses == Tally(db.records, db.sessions, user.id, line.course.id, None)
      && line.stats.missedClasses == line.stats.totalClasses - line.stats.attendedClasses
      && line.stats.percentage == PercentageOf(line.stats.attendedClasses, line.stats.totalClasses)
      && (line.stats.percentage.Zero? <==> line.stats.totalClasses == 0)
    ensures forall i ::
      (0 <= i < |db.enrollments| && db.enrollments[i].studentId == user.id &&
       FindCourse(db.courses, db.enrollments[i].courseId).Some?) ==>
        Lists(GetCourses(db, user).value.enrolled, db.enrollments[i].courseId)
  {
    var es := FilterEnrollments(db.enrollments, ByStudent(user.id));
    var r := EnrolledCourseStats(db, user.id, es);
    EnrolledCourseStatsSound(db, user.id, es);
    EnrolledCourseStatsComplete(db, user.id, es);
    forall k | 0 <= k < |r|
      ensures Enrolled(db.enrollments, user.id, r[k].course.id)
    {
      var j :| 0 <= j < |es| && es[j].courseId == r[k].course.id;
      assert es[j] in es;
      var i :| 0 <= i < |db.enrollments| && db.enrollments[i] == es[j];
    }
    forall k | 0 <= k < |r| {
      StatsOfCounts(db, user.id, r[k].course.id);
    }
    forall i | 0 <= i < |db.enrollments| && db.enrollments[i].studentId == user.id &&
      FindCourse(db.courses, db.enrollments[i].courseId).Some?
      ensures Lists(r, db.enrollments[i].courseId)
    {
      assert db.enrollments[i] in es;
      var j :| 0 <= j < |es| && es[j] == db.enrollments[i];
    }
  }

  /**
   * A student's list is one line per surviving enrollment, in enrollment
   * order, each with the statistics of its course.
   */
  lemma {:induction false} StudentCoursesExact(db: Db, user: User)
    requires user.role == Student
    ensures forall k :: 0 <= k < |GetCourses(db, user).value.enrolled| ==>
      var line := GetCourses(db, user).value.enrolled[k];
      && line.course in db.courses
      && Enrolled(db.enrollments, user.id, line.course.id)
      && line.stats.totalClasses == CountSessions(db.sessions, SessionFilter(Some(line.course.id), None))
      && line.stats.attendedClasses == Tally(db.records, db.sessions, user.id, line.course.id, None)
      && line.stats.missedClasses == line.stats.totalClasses - line.stats.attendedClasses
      && line.stats.percentage == PercentageOf(line.stats.attendedClasses, line.stats.totalClasses)
      && (line.stats.percentage.Zero? <==> line.stats.totalClasses == 0)
    ensures forall i ::
      (0 <= i < |db.enrollments| && db.enrollments[i].studentId == user.id &&
       FindCourse(db.courses, db.enrollments[i].courseId).Some?) ==>
        Lists(GetCourses(db, user).value.enrolled, db.enrollments[i].courseId)
    ensures var es := FilterEnrollments(db.enrollments, ByStudent(user.id));
      |GetCourses(db, user).value.enrolled| == |SurvivingPositions(db, es)|
    ensures var es := FilterEnrollments(db.enrollments, ByStudent(user.id));
      forall k :: 0 <= k < |GetCourses(db, user).value.enrolled| ==>
        GetCourses(db, user).value.enrolled[k].course.id == es[SurvivingPositions(db, es)[k]].courseId
  {
    StudentCoursesLines(db, user);
    StudentCoursesInOrder(db, user);
  }

  /** Whether the student has an enrollment in the course. */
  predicate Enrolled(es: seq<Enrollment>, student: UserId, c: CourseId)
  {
    exists i :: 0 <= i < |es| && es[i].studentId == student && es[i].courseId == c
  }

  /**
   * In a consistent store a student never misses a negative number of
   * classes: their PRESENT records of a course are at most its sessions.
   */
  lemma {:induction false} MissedNeverNegative(db: Db, user: User)
    requires Consistent(db)
    requires user.role == Student
    ensures forall k :: 0 <= k < |GetCourses(db, user).value.enrolled| ==>
      var line := GetCourses(db, user).value.enrolled[k];
      line.stats.missedClasses >= 0 && AtMostWhole(line.stats.percentage)
  {
    var r := GetCourses(db, user).value.enrolled;
    forall k | 0 <= k < |r|
      ensures r[k].stats.missedClasses >= 0 && AtMostWhole(r[k].stats.percentage)
    {
      EnrolledCourseStatsSound(db, user.id, FilterEnrollments(db.enrollments, ByStudent(user.id)));
      CountIsTallyOfAll(db.records, db.sessions, user.id, r[k].course.id);
      TallyAtMostSessions(db, user.id, r[k].course.id, None);
    }
  }
}
