/**
 * The attendance session document: one attendance-taking window of one course,
 * its two enums and the defaults the document layer applies on creation.
 */
module SessionSchema {
  import opened Common

  /** `attendanceMethod`: a session is taken by face scan or by one click, never manually. */
  datatype SessionMethod = Face | OneClick

  /** `status`: a session is either taking attendance or closed. */
  datatype SessionStatus = Active | Closed

  datatype Session = Session(
    facultyId: UserId,
    courseId: CourseId,
    startTime: Time,
    endTime: Option<Time>,
    facultyLocation: Option<Location>,
    attendanceMethod: SessionMethod,
    status: SessionStatus)

  function MethodName(m: SessionMethod): string
  {
    match m
    case Face => "FACE"
    case OneClick => "ONE_CLICK"
  }

  function StatusName(s: SessionStatus): string
  {
    match s
    case Active => "ACTIVE"
    case Closed => "CLOSED"
  }

  /** The enum check of `attendanceMethod`: exactly the declared names are accepted. */
  function ParseMethod(name: string): (r: Option<SessionMethod>)
    ensures forall m :: r == Some(m) <==> MethodName(m) == name
  {
    if name == "FACE" then Some(Face)
    else if name == "ONE_CLICK" then Some(OneClick)
    else None
  }

  /** The enum check of `status`: exactly the declared names are accepted. */
  function ParseStatus(name: string): (r: Option<SessionStatus>)
    ensures forall s :: r == Some(s) <==> StatusName(s) == name
  {
    if name == "ACTIVE" then Some(Active)
    else if name == "CLOSED" then Some(Closed)
    else None
  }

  /** The fields a caller passes to create a session; absent fields are `None`. */
  datatype SessionDraft = SessionDraft(
    facultyId: Option<UserId>,
    courseId: Option<CourseId>,
    startTime: Option<Time>,
    endTime: Option<Time>,
    facultyLocation: Option<Location>,
    attendanceMethod: Option<string>,
    status: Option<string>)

  /** What the schema demands of a draft: both ids, a known method and, if given, a known status. */
  predicate DraftAccepted(d: SessionDraft)
  {
    && d.facultyId.Some?
    && d.courseId.Some?
    && d.attendanceMethod.Some? && ParseMethod(d.attendanceMethod.value).Some?
    && (d.status.Some? ==> ParseStatus(d.status.value).Some?)
  }

  /**
   * Creating a session document: the required and enum checks, then the
   * defaults (status ACTIVE, start time the creation time). The end time and
   * the faculty location stay absent unless given.
   */
  function CreateSession(d: SessionDraft, now: Time): (r: Result<Session, ValidationError>)
    ensures r.Ok? <==> DraftAccepted(d)
    ensures r.Ok? ==>
      && d.facultyId == Some(r.value.facultyId)
      && d.courseId == Some(r.value.courseId)
      && d.attendanceMethod == Some(MethodName(r.value.attendanceMethod))
      && (d.status.None? ==> r.value.status == Active)
      && (d.status.Some? ==> d.status == Some(StatusName(r.value.status)))
      && (d.startTime.None? ==> r.value.startTime == now)
      && (d.startTime.Some? ==> d.startTime == Some(r.value.startTime))
      && r.value.endTime == d.endTime
      && r.value.facultyLocation == d.facultyLocation
  {
    if d.facultyId.None? then Err(MissingField("facultyId"))
    else if d.courseId.None? then Err(MissingField("courseId"))
    else if d.attendanceMethod.None? then Err(MissingField("attendanceMethod"))
    else if ParseMethod(d.attendanceMethod.value).None? then Err(NotInEnum("attendanceMethod", d.attendanceMethod.value))
    else if d.status.Some? && ParseStatus(d.status.value).None? then Err(NotInEnum("status", d.status.value))
    else
      Ok(Session(
        d.facultyId.value,
        d.courseId.value,
        if d.startTime.Some? then d.startTime.value else now,
        d.endTime,
        d.facultyLocation,
        ParseMethod(d.attendanceMethod.value).value,
        if d.status.Some? then ParseStatus(d.status.value).value else Active))
  }

  /** Every stored method name is one of the two the schema declares; MANUAL is not among them. */
  lemma {:induction false} SessionMethodNames(d: SessionDraft, now: Time)
    requires CreateSession(d, now).Ok?
    ensures d.attendanceMethod == Some("FACE") || d.attendanceMethod == Some("ONE_CLICK")
    ensures d.attendanceMethod != Some("MANUAL")
  {
    var s := CreateSession(d, now).value;
    match s.attendanceMethod
    case Face =>
    case OneClick =>
  }

  /** A query over the session collection: every given field must be equal. */
  datatype SessionFilter = SessionFilter(courseId: Option<CourseId>, status: Option<SessionStatus>)

  predicate Matches(f: SessionFilter, s: Session)
  {
    && (f.courseId.Some? ==> s.courseId == f.courseId.value)
    && (f.status.Some? ==> s.status == f.status.value)
  }

  /** `findOne`: the id of the first matching session in natural order. */
  function FindSession(ss: seq<Session>, f: SessionFilter): (r: Option<SessionId>)
    ensures r.Some? ==> r.value < |ss| && Matches(f, ss[r.value])
    ensures r.Some? ==> forall i :: 0 <= i < r.value ==> !Matches(f, ss[i])
    ensures r.None? <==> forall i :: 0 <= i < |ss| ==> !Matches(f, ss[i])
  {
    if |ss| == 0 then None
    else if Matches(f, ss[0]) then Some(0)
    else
      match FindSession(ss[1..], f)
      case None => None
      case Some(i) => Some(i + 1)
  }

  /**
   * `countDocuments`: how many sessions match; Tallies.CountSessionsIsMatching
   * shows it is the number of matching sessions.
   */
  function CountSessions(ss: seq<Session>, f: SessionFilter): (n: nat)
    ensures n <= |ss|
  {
    if |ss| == 0 then 0
    else CountSessions(ss[..|ss| - 1], f) + (if Matches(f, ss[|ss| - 1]) then 1 else 0)
  }

  /** A session together with its id. */
  type Entry = (SessionId, Session)

  /**
   * `find`: the matching sessions with their ids, in natural order; each
   * matching session appears once.
   */
  function FindSessions(ss: seq<Session>, f: SessionFilter): (r: seq<Entry>)
    ensures |r| == CountSessions(ss, f)
    ensures forall k :: 0 <= k < |r| ==> r[k].0 < |ss| && ss[r[k].0] == r[k].1 && Matches(f, r[k].1)
    ensures forall k, l :: 0 <= k < l < |r| ==> r[k].0 < r[l].0
    ensures forall i :: 0 <= i < |ss| && Matches(f, ss[i]) ==> (i, ss[i]) in r
  {
    if |ss| == 0 then []
    else
      var n := |ss| - 1;
      var init := FindSessions(ss[..n], f);
      assert forall i :: 0 <= i < n ==> ss[..n][i] == ss[i];
      init + (if Matches(f, ss[n]) then [(n, ss[n])] else [])
  }
}
