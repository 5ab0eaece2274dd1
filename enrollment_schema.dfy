/**
 * The enrollment document: a student taking a course, with the unique index
 * on (studentId, courseId) and the queries the controllers run over it.
 */
module EnrollmentSchema {
  import opened Common

  datatype Enrollment = Enrollment(studentId: UserId, courseId: CourseId, enrolledAt: Time)

  /** The fields a caller passes to create an enrollment; absent fields are `None`. */
  datatype EnrollmentDraft = EnrollmentDraft(
    studentId: Option<UserId>,
    courseId: Option<CourseId>,
    enrolledAt: Option<Time>)

  /** Creating an enrollment: both ids are required, `enrolledAt` defaults to the creation time. */
  function CreateEnrollment(d: EnrollmentDraft, now: Time): (r: Result<Enrollment, ValidationError>)
    ensures r.Ok? <==> d.studentId.Some? && d.courseId.Some?
    ensures r.Ok? ==>
      && d.studentId == Some(r.value.studentId)
      && d.courseId == Some(r.value.courseId)
      && (d.enrolledAt.None? ==> r.value.enrolledAt == now)
      && (d.enrolledAt.Some? ==> d.enrolledAt == Some(r.value.enrolledAt))
  {
    if d.studentId.None? then Err(MissingField("studentId"))
    else if d.courseId.None? then Err(MissingField("courseId"))
    else Ok(Enrollment(d.studentId.value, d.courseId.value, if d.enrolledAt.Some? then d.enrolledAt.value else now))
  }

  /** Unique index on (studentId, courseId). */
  predicate UniqueEnrollments(es: seq<Enrollment>)
  {
    forall i, j :: 0 <= i < j < |es| && es[i].studentId == es[j].studentId ==> es[i].courseId != es[j].courseId
  }

  /** A query over the enrollment collection: every given field must be equal. */
  datatype EnrollmentFilter = EnrollmentFilter(studentId: Option<UserId>, courseId: Option<CourseId>)

  predicate Matches(f: EnrollmentFilter, e: Enrollment)
  {
    && (f.studentId.Some? ==> e.studentId == f.studentId.value)
    && (f.courseId.Some? ==> e.courseId == f.courseId.value)
  }

  function ByCourse(c: CourseId): EnrollmentFilter
  {
    EnrollmentFilter(None, Some(c))
  }

  function ByStudent(s: UserId): EnrollmentFilter
  {
    EnrollmentFilter(Some(s), None)
  }

  function ByStudentCourse(s: UserId, c: CourseId): EnrollmentFilter
  {
    EnrollmentFilter(Some(s), Some(c))
  }

  /** `findOne`: the position of the first matching enrollment. */
  function FindEnrollment(es: seq<Enrollment>, f: EnrollmentFilter): (r: Option<nat>)
    ensures r.Some? ==> r.value < |es| && Matches(f, es[r.value])
    ensures r.None? <==> forall i :: 0 <= i < |es| ==> !Matches(f, es[i])
  {
    if |es| == 0 then None
    else if Matches(f, es[0]) then Some(0)
    else
      match FindEnrollment(es[1..], f)
      case None => None
      case Some(i) => Some(i + 1)
  }

  /**
   * `countDocuments`: how many enrollments match. FilterEnrollments and
   * FilterEnrollmentsInOrder show it is the number of matching enrollments, and
   * CourseCountIsDistinctStudents the number of a course's students.
   */
  function CountEnrollments(es: seq<Enrollment>, f: EnrollmentFilter): (n: nat)
    ensures n <= |es|
  {
    if |es| == 0 then 0
    else CountEnrollments(es[..|es| - 1], f) + (if Matches(f, es[|es| - 1]) then 1 else 0)
  }

  /** `find`: the matching enrollments, in natural order. */
  function FilterEnrollments(es: seq<Enrollment>, f: EnrollmentFilter): (r: seq<Enrollment>)
    ensures |r| == CountEnrollments(es, f)
    ensures forall k :: 0 <= k < |r| ==> Matches(f, r[k])
    ensures forall e :: e in r <==> e in es && Matches(f, e)
  {
    if |es| == 0 then []
    else
      var init := es[..|es| - 1];
      assert es == init + [es[|es| - 1]];
      FilterEnrollments(init, f) + (if Matches(f, es[|es| - 1]) then [es[|es| - 1]] else [])
  }

  /** The positions of the matching enrollments, in increasing order; each matching position appears once. */
  function MatchingPositions(es: seq<Enrollment>, f: EnrollmentFilter): (idx: seq<nat>)
    ensures forall k :: 0 <= k < |idx| ==> idx[k] < |es| && Matches(f, es[idx[k]])
    ensures forall k, l :: 0 <= k < l < |idx| ==> idx[k] < idx[l]
    ensures forall i :: 0 <= i < |es| && Matches(f, es[i]) ==> i in idx
  {
    if |es| == 0 then []
    else
      var n := |es| - 1;
      assert forall i :: 0 <= i < n ==> es[..n][i] == es[i];
      MatchingPositions(es[..n], f) + (if Matches(f, es[n]) then [n] else [])
  }

  /**
   * `find` keeps the store's order and multiplicity: its k-th result is the
   * enrollment at the k-th matching position.
   */
  lemma {:induction false} FilterEnrollmentsInOrder(es: seq<Enrollment>, f: EnrollmentFilter)
    ensures AtPositions(es, FilterEnrollments(es, f), MatchingPositions(es, f))
  {
    if |es| > 0 {
      var n := |es| - 1;
      FilterEnrollmentsInOrder(es[..n], f);
      AtPositionsSnoc(es, FilterEnrollments(es[..n], f), MatchingPositions(es[..n], f), Matches(f, es[n]));
    }
  }

  /** Under the enrollment index, the enrollments of one course are for pairwise distinct students. */
  lemma {:induction false} CourseEnrollmentsDistinct(es: seq<Enrollment>, c: CourseId)
    requires UniqueEnrollments(es)
    ensures var r := FilterEnrollments(es, ByCourse(c));
      forall k, l :: 0 <= k < l < |r| ==> r[k].studentId != r[l].studentId
  {
    var r := FilterEnrollments(es, ByCourse(c));
    FilterEnrollmentsInOrder(es, ByCourse(c));
    var idx := MatchingPositions(es, ByCourse(c));
    forall k, l | 0 <= k < l < |r|
      ensures r[k].studentId != r[l].studentId
    {
      assert idx[k] < idx[l];
      assert r[k] == es[idx[k]] && r[l] == es[idx[l]];
    }
  }

  /** The students of one course's enrollments are exactly the enrolled students of `c`. */
  lemma {:induction false} CourseEnrollmentsStudents(es: seq<Enrollment>, c: CourseId)
    ensures var r := FilterEnrollments(es, ByCourse(c));
      (set k | 0 <= k < |r| :: r[k].studentId) == EnrolledStudents(es, c)
  {
    var r := FilterEnrollments(es, ByCourse(c));
    var named := set k | 0 <= k < |r| :: r[k].studentId;
    forall u | u in EnrolledStudents(es, c)
      ensures u in named
    {
      var i :| 0 <= i < |es| && es[i].courseId == c && es[i].studentId == u;
      assert es[i] in r;
      var k :| 0 <= k < |r| && r[k] == es[i];
    }
    forall u | u in named
      ensures u in EnrolledStudents(es, c)
    {
      var k :| 0 <= k < |r| && r[k].studentId == u;
      assert r[k] in es;
      var i :| 0 <= i < |es| && es[i] == r[k];
    }
  }

  /** The students enrolled in course `c`. */
  function EnrolledStudents(es: seq<Enrollment>, c: CourseId): set<UserId>
  {
    set i | 0 <= i < |es| && es[i].courseId == c :: es[i].studentId
  }

  /** Appending one enrollment adds its student exactly when it is in course `c`. */
  lemma {:induction false} EnrolledStudentsSnoc(es: seq<Enrollment>, c: CourseId)
    requires |es| > 0
    ensures var n := |es| - 1;
      EnrolledStudents(es, c) == EnrolledStudents(es[..n], c) + (if es[n].courseId == c then {es[n].studentId} else {})
  {
    var n := |es| - 1;
    assert forall i :: 0 <= i < n ==> es[..n][i] == es[i];
  }

  /** Under the unique index, the last enrollment's student is new to its course. */
  lemma {:induction false} LastStudentIsNew(es: seq<Enrollment>)
    requires UniqueEnrollments(es) && |es| > 0
    ensures UniqueEnrollments(es[..|es| - 1])
    ensures es[|es| - 1].studentId !in EnrolledStudents(es[..|es| - 1], es[|es| - 1].courseId)
  {
    var n := |es| - 1;
    var init := es[..n];
    assert forall i :: 0 <= i < n ==> init[i] == es[i];
  }

  /** Because of the unique index, counting a course's enrollments counts its distinct students. */
  lemma {:induction false} CourseCountIsDistinctStudents(es: seq<Enrollment>, c: CourseId)
    requires UniqueEnrollments(es)
    ensures CountEnrollments(es, ByCourse(c)) == |EnrolledStudents(es, c)|
    decreases |es|
  {
    if |es| > 0 {
      var n := |es| - 1;
      LastStudentIsNew(es);
      CourseCountIsDistinctStudents(es[..n], c);
      EnrolledStudentsSnoc(es, c);
    } else {
      assert EnrolledStudents(es, c) == {};
    }
  }
}
