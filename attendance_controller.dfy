/**
 * The attendance request handlers: starting and stopping a session, the
 * guard pipeline a student's claim goes through, the group-photo path that
 * creates an already-closed session, the owner's manual override, and the
 * query for a course's active session. Each handler is a method over the
 * store; the verification service is an oracle parameter.
 */
module AttendanceController {
  import opened Common
  import opened SessionSchema
  import opened RecordSchema
  import opened EnrollmentSchema
  import opened FaceSchema
  import opened Store

  /** A captured image in the encoding the client sends. */
  type Image = string

  /** The single-face verification service's answer for one image and one template. */
  datatype Verdict = Verified | NotVerified(reason: Option<string>) | Unavailable

  // ---------------------------------------------------------------------
  // Session lifecycle

  /** What `getActiveSession` answers for a course. */
  datatype ActiveInfo = NoActiveSession | ActiveSessionInfo(sessionId: SessionId, attendanceMethod: SessionMethod)

  /** `getActiveSession`: the first ACTIVE session of the course, if there is one. */
  function ActiveSession(db: Db, courseId: CourseId): (r: ActiveInfo)
    ensures r.NoActiveSession? <==>
      forall i :: 0 <= i < |db.sessions| ==> !(db.sessions[i].courseId == courseId && db.sessions[i].status == Active)
    ensures r.ActiveSessionInfo? ==>
      && r.sessionId < |db.sessions|
      && db.sessions[r.sessionId].courseId == courseId
      && db.sessions[r.sessionId].status == Active
      && r.attendanceMethod == db.sessions[r.sessionId].attendanceMethod
  {
    match FindSession(db.sessions, SessionFilter(Some(courseId), Some(Active)))
    case None => NoActiveSession
    case Some(i) => ActiveSessionInfo(i, db.sessions[i].attendanceMethod)
  }

  /** Once an ACTIVE session of a course is added, the course reports an active session. */
  lemma {:induction false} AddedSessionIsActive(db: Db, s: Session)
    requires s.status == Active
    ensures ActiveSession(db.(sessions := db.sessions + [s]), s.courseId).ActiveSessionInfo?
  {
    var db' := db.(sessions := db.sessions + [s]);
    assert db'.sessions[|db.sessions|] == s;
  }

  /**
   * The faculty location a new session keeps: a usable pair only when both
   * coordinates are given. A partial or empty pair is stored as a location
   * without coordinates, which the model does not distinguish from none.
   */
  function FacultyLocation(latitude: Option<real>, longitude: Option<real>): (loc: Option<Location>)
    ensures loc.Some? <==> latitude.Some? && longitude.Some?
    ensures loc.Some? ==> latitude == Some(loc.value.lat) && longitude == Some(loc.value.lng)
  {
    if latitude.Some? && longitude.Some? then Some(Location(latitude.value, longitude.value)) else None
  }

  /**
   * `startSession`: validates the request through the session schema, adds one
   * ACTIVE session with the given method and coordinates, and announces it.
   * Any caller may start a session for any course; nothing checks ownership or
   * an already-active session.
   */
  method StartSession(st: Store, faculty: UserId, courseId: Option<CourseId>, attendanceMethod: Option<string>,
                      latitude: Option<real>, longitude: Option<real>, now: Time)
    returns (r: Result<SessionId, ValidationError>)
    requires st.Valid()
    modifies st
    ensures st.Valid()
    ensures r.Ok? <==> courseId.Some? && attendanceMethod.Some? && SessionSchema.ParseMethod(attendanceMethod.value).Some?
    ensures r.Err? ==> st.View() == old(st.View()) && st.events == old(st.events)
    ensures r.Ok? ==>
      var s := Session(faculty, courseId.value, now, None, FacultyLocation(latitude, longitude),
                       SessionSchema.ParseMethod(attendanceMethod.value).value, Active);
      && r.value == |old(st.sessions)|
      && st.View() == old(st.View()).(sessions := old(st.sessions) + [s])
      && st.events == old(st.events) + [AttendanceStarted(courseId.value, r.value, s.attendanceMethod)]
      && ActiveSession(st.View(), courseId.value) != NoActiveSession
  {
    var draft := SessionDraft(Some(faculty), courseId, Some(now), None, FacultyLocation(latitude, longitude),
                              attendanceMethod, Some("ACTIVE"));
    var created := CreateSession(draft, now);
    if created.Err? {
      return Err(created.error);
    }
    var s := created.value;
    assert SessionSchema.StatusName(s.status) == "ACTIVE";
    assert s.status == Active;
    AddedSessionIsActive(st.View(), s);
    var id := st.AddSession(s);
    st.Emit(AttendanceStarted(s.courseId, id, s.attendanceMethod));
    r := Ok(id);
  }

  datatype StopError = SessionNotFound

  /**
   * `stopSession`: closes the session and stamps its end time. There is no
   * guard for a session that is already closed: stopping it again succeeds,
   * stamps a new end time and announces it again.
   */
  method StopSession(st: Store, sessionId: SessionId, now: Time) returns (r: Result<Session, StopError>)
    requires st.Valid()
    modifies st
    ensures st.Valid()
    ensures r.Err? <==> sessionId >= |old(st.sessions)|
    ensures r.Err? ==> st.View() == old(st.View()) && st.events == old(st.events)
    ensures r.Ok? ==>
      && r.value == old(st.sessions)[sessionId].(status := Closed, endTime := Some(now))
      && st.View() == old(st.View()).(sessions := old(st.sessions)[sessionId := r.value])
      && st.events == old(st.events) + [AttendanceStopped(sessionId)]
  {
    if sessionId >= |st.sessions| {
      return Err(SessionNotFound);
    }
    var closed := st.sessions[sessionId].(status := Closed, endTime := Some(now));
    st.SaveSession(sessionId, closed);
    st.Emit(AttendanceStopped(sessionId));
    r := Ok(closed);
  }

  /** A stopped session is no longer the one a course reports as active. */
  lemma {:induction false} StoppedSessionNotReported(db: Db, sessionId: SessionId, now: Time)
    requires sessionId < |db.sessions|
    ensures
      var db' := db.(sessions := db.sessions[sessionId := db.sessions[sessionId].(status := Closed, endTime := Some(now))]);
      ActiveSession(db', db.sessions[sessionId].courseId) !=
        ActiveSessionInfo(sessionId, db.sessions[sessionId].attendanceMethod)
  {
  }

  // ---------------------------------------------------------------------
  // The claim pipeline

  /** A student's submission: the session, the evidence, and the address it came from. */
  datatype Claim = Claim(
    sessionId: SessionId,
    deviceFingerprint: string,
    gpsLocation: Option<Location>,
    faceImage: Option<Image>,
    ipAddress: string)

  datatype ClaimRejection =
    | SessionNotActive
    | NotEnrolled
    | AlreadyMarked
    | DeviceAlreadyUsed
    | FaceNotRegistered
    | FaceMismatch(reason: string)
    | VerificationUnavailable
    | NetworkAlreadyUsed
    | DistanceNotANumber

  /** The HTTP status each rejection answers with. */
  function HttpStatus(r: ClaimRejection): (code: nat)
    ensures code == 500 <==> r == VerificationUnavailable || r == DistanceNotANumber
    ensures code == 400 <==> r == SessionNotActive || r == AlreadyMarked || r == FaceNotRegistered
    ensures code == 400 || code == 403 || code == 500
  {
    match r
    case SessionNotActive => 400
    case NotEnrolled => 403
    case AlreadyMarked => 400
    case DeviceAlreadyUsed => 403
    case FaceNotRegistered => 400
    case FaceMismatch(_) => 403
    case VerificationUnavailable => 500
    case NetworkAlreadyUsed => 403
    case DistanceNotANumber => 500
  }

  /** The record method a session's method produces. */
  function RecordMethodOf(m: SessionMethod): RecordMethod
  {
    match m
    case Face => RecordMethod.Face
    case OneClick => RecordMethod.OneClick
  }

  /** The message of a failed verification: the service's reason, or a fixed default when it gives none. */
  function MismatchReason(reason: Option<string>): string
  {
    if reason.Some? && reason.value != "" then reason.value else "Not a match"
  }

  /** The face step of the pipeline; ONE_CLICK sessions skip it. */
  function FaceCheck(db: Db, student: UserId, s: Session, c: Claim, verify: (Image, seq<real>) -> Verdict): Option<ClaimRejection>
  {
    if s.attendanceMethod == SessionMethod.OneClick then None
    else if student !in db.faces then Some(FaceNotRegistered)
    else if c.faceImage.None? then Some(VerificationUnavailable)
    else
      match verify(c.faceImage.value, db.faces[student].embeddings)
      case Verified => None
      case NotVerified(reason) => Some(FaceMismatch(MismatchReason(reason)))
      case Unavailable => Some(VerificationUnavailable)
  }

  /** The network step as written: the first record of the session from this address must be the student's own. */
  function NetworkCheck(db: Db, student: UserId, c: Claim): Option<ClaimRejection>
  {
    match FindRecord(db.records, BySessionIp(c.sessionId, c.ipAddress))
    case Some(i) => if db.records[i].studentId != student then Some(NetworkAlreadyUsed) else None
    case None => None
  }

  /**
   * The distance the record is created with, `None` standing for NaN. The
   * stored faculty location is a nested object and so always present: the
   * formula runs whenever the claim carries a location, and without faculty
   * coordinates it gives NaN. `measured` is what it gives for two real pairs.
   */
  function Distance(s: Session, c: Claim, measured: real): (d: Option<real>)
    ensures d.None? <==> c.gpsLocation.Some? && s.facultyLocation.None?
    ensures c.gpsLocation.None? ==> d == Some(0.0)
    ensures c.gpsLocation.Some? && s.facultyLocation.Some? ==> d == Some(measured)
  {
    if c.gpsLocation.None? then Some(0.0)
    else if s.facultyLocation.None? then None
    else Some(measured)
  }

  /** The claim's distance is NaN, so the record's number field refuses it when the record is created. */
  predicate DistanceUndefined(db: Db, c: Claim)
  {
    c.sessionId < |db.sessions| && db.sessions[c.sessionId].facultyLocation.None? && c.gpsLocation.Some?
  }

  /** The whole pipeline in its fixed order; `None` means the claim is accepted. */
  function ScreenClaim(db: Db, student: UserId, c: Claim, verify: (Image, seq<real>) -> Verdict): Option<ClaimRejection>
  {
    if c.sessionId >= |db.sessions| || db.sessions[c.sessionId].status != Active then Some(SessionNotActive)
    else
      var s := db.sessions[c.sessionId];
      if FindEnrollment(db.enrollments, ByStudentCourse(student, s.courseId)).None? then Some(NotEnrolled)
      else if FindRecord(db.records, BySessionStudent(c.sessionId, student)).Some? then Some(AlreadyMarked)
      else if FindRecord(db.records, BySessionDevice(c.sessionId, c.deviceFingerprint)).Some? then Some(DeviceAlreadyUsed)
      else
        var face := FaceCheck(db, student, s, c, verify);
        if face.Some? then face
        else
          var network := NetworkCheck(db, student, c);
          if network.Some? then network
          else if DistanceUndefined(db, c) then Some(DistanceNotANumber)
          else None
  }

  /** Whether the pipeline reaches the verification service for this claim. */
  predicate ConsultsVerifier(db: Db, student: UserId, c: Claim)
  {
    && c.sessionId < |db.sessions| && db.sessions[c.sessionId].status == Active
    && FindEnrollment(db.enrollments, ByStudentCourse(student, db.sessions[c.sessionId].courseId)).Some?
    && FindRecord(db.records, BySessionStudent(c.sessionId, student)).None?
    && FindRecord(db.records, BySessionDevice(c.sessionId, c.deviceFingerprint)).None?
    && db.sessions[c.sessionId].attendanceMethod == SessionMethod.Face
    && student in db.faces
    && c.faceImage.Some?
  }

  // The conditions of the pipeline, stated over the collections directly.

  predicate Live(db: Db, sid: SessionId)
  {
    sid < |db.sessions| && db.sessions[sid].status == Active
  }

  ghost predicate Enrolled(db: Db, student: UserId, course: CourseId)
  {
    exists i :: 0 <= i < |db.enrollments| && db.enrollments[i].studentId == student && db.enrollments[i].courseId == course
  }

  ghost predicate HasMarked(db: Db, sid: SessionId, student: UserId)
  {
    exists i :: 0 <= i < |db.records| && db.records[i].sessionId == sid && db.records[i].studentId == student
  }

  ghost predicate DeviceUsed(db: Db, sid: SessionId, device: string)
  {
    exists i :: 0 <= i < |db.records| && db.records[i].sessionId == sid && db.records[i].deviceFingerprint == Some(device)
  }

  ghost predicate NetworkUsed(db: Db, sid: SessionId, ip: string)
  {
    exists i :: 0 <= i < |db.records| && db.records[i].sessionId == sid && db.records[i].ipAddress == Some(ip)
  }

  /** Liveness, enrollment and the two dedup checks all pass. */
  ghost predicate PreChecksPass(db: Db, student: UserId, c: Claim)
  {
    && Live(db, c.sessionId)
    && Enrolled(db, student, db.sessions[c.sessionId].courseId)
    && !HasMarked(db, c.sessionId, student)
    && !DeviceUsed(db, c.sessionId, c.deviceFingerprint)
  }

  /** A FACE session needs a template, an image and a positive verdict. */
  ghost predicate FacePasses(db: Db, student: UserId, c: Claim, verify: (Image, seq<real>) -> Verdict)
    requires c.sessionId < |db.sessions|
  {
    db.sessions[c.sessionId].attendanceMethod == SessionMethod.Face ==>
      && student in db.faces
      && c.faceImage.Some?
      && verify(c.faceImage.value, db.faces[student].embeddings) == Verified
  }

  /** The reference definition of an acceptable claim. */
  ghost predicate Admissible(db: Db, student: UserId, c: Claim, verify: (Image, seq<real>) -> Verdict)
  {
    && PreChecksPass(db, student, c)
    && FacePasses(db, student, c, verify)
    && !NetworkUsed(db, c.sessionId, c.ipAddress)
    && !DistanceUndefined(db, c)
  }

  /**
   * The network check compares student ids, but once the self-dedup check has
   * passed no record of the session is the student's own: the check rejects
   * exactly when any record of the session came from the same address.
   */
  lemma {:induction false} NetworkCheckSeesAnySharer(db: Db, student: UserId, c: Claim)
    requires !HasMarked(db, c.sessionId, student)
    ensures NetworkCheck(db, student, c).Some? <==> NetworkUsed(db, c.sessionId, c.ipAddress)
  {
    var found := FindRecord(db.records, BySessionIp(c.sessionId, c.ipAddress));
    if found.Some? {
      var i := found.value;
      assert db.records[i].sessionId == c.sessionId;
      assert db.records[i].studentId != student;
    }
    if NetworkUsed(db, c.sessionId, c.ipAddress) {
      var i :| 0 <= i < |db.records| && db.records[i].sessionId == c.sessionId && db.records[i].ipAddress == Some(c.ipAddress);
      assert RecordSchema.Matches(BySessionIp(c.sessionId, c.ipAddress), db.records[i]);
    }
  }

  /** The pipeline accepts a claim exactly when the reference definition holds. */
  lemma {:induction false} ClaimAcceptedIff(db: Db, student: UserId, c: Claim, verify: (Image, seq<real>) -> Verdict)
    ensures ScreenClaim(db, student, c, verify).None? <==> Admissible(db, student, c, verify)
  {
    ClaimRejectionOrder(db, student, c, verify);
  }

  /** The rejections of the four pre-checks and of a missing template, each given iff its check fails first. */
  lemma {:induction false} ClaimEarlyRejections(db: Db, student: UserId, c: Claim, verify: (Image, seq<real>) -> Verdict)
    ensures ScreenClaim(db, student, c, verify) == Some(SessionNotActive) <==> !Live(db, c.sessionId)
    ensures ScreenClaim(db, student, c, verify) == Some(NotEnrolled) <==>
      Live(db, c.sessionId) && !Enrolled(db, student, db.sessions[c.sessionId].courseId)
    ensures ScreenClaim(db, student, c, verify) == Some(AlreadyMarked) <==>
      Live(db, c.sessionId) && Enrolled(db, student, db.sessions[c.sessionId].courseId) && HasMarked(db, c.sessionId, student)
    ensures ScreenClaim(db, student, c, verify) == Some(DeviceAlreadyUsed) <==>
      && Live(db, c.sessionId) && Enrolled(db, student, db.sessions[c.sessionId].courseId)
      && !HasMarked(db, c.sessionId, student) && DeviceUsed(db, c.sessionId, c.deviceFingerprint)
    ensures ScreenClaim(db, student, c, verify) == Some(FaceNotRegistered) <==>
      PreChecksPass(db, student, c) && db.sessions[c.sessionId].attendanceMethod == SessionMethod.Face && student !in db.faces
  {
  }



  /** The rejections of the face step, the network check and the record's creation, each given iff its check fails first. */
  lemma {:induction false} ClaimLateRejections(db: Db, student: UserId, c: Claim, verify: (Image, seq<real>) -> Verdict)
    ensures ScreenClaim(db, student, c, verify).Some? && ScreenClaim(db, student, c, verify).value.FaceMismatch? <==>
      && PreChecksPass(db, student, c) && db.sessions[c.sessionId].attendanceMethod == SessionMethod.Face
      && student in db.faces && c.faceImage.Some? && verify(c.faceImage.value, db.faces[student].embeddings).NotVerified?
    ensures ScreenClaim(db, student, c, verify).Some? && ScreenClaim(db, student, c, verify).value.FaceMismatch? ==>
      ScreenClaim(db, student, c, verify).value.reason ==
        MismatchReason(verify(c.faceImage.value, db.faces[student].embeddings).reason)
    ensures ScreenClaim(db, student, c, verify) == Some(VerificationUnavailable) <==>
      && PreChecksPass(db, student, c) && db.sessions[c.sessionId].attendanceMethod == SessionMethod.Face
      && student in db.faces
      && (c.faceImage.None? || verify(c.faceImage.value, db.faces[student].embeddings) == Unavailable)
    ensures ScreenClaim(db, student, c, verify) == Some(NetworkAlreadyUsed) <==>
      PreChecksPass(db, student, c) && FacePasses(db, student, c, verify) && NetworkUsed(db, c.sessionId, c.ipAddress)
    ensures ScreenClaim(db, student, c, verify) == Some(DistanceNotANumber) <==>
      && PreChecksPass(db, student, c) && FacePasses(db, student, c, verify) && !NetworkUsed(db, c.sessionId, c.ipAddress)
      && DistanceUndefined(db, c)
    ensures ScreenClaim(db, student, c, verify).None? <==>
      && PreChecksPass(db, student, c) && FacePasses(db, student, c, verify) && !NetworkUsed(db, c.sessionId, c.ipAddress)
      && !DistanceUndefined(db, c)
  {
  }



  /**
   * Each rejection is the first failing check, in the order liveness,
   * enrollment, self-dedup, device-dedup, face, network, and last the
   * creation of the record with its distance.
   */
  lemma {:induction false} ClaimRejectionOrder(db: Db, student: UserId, c: Claim, verify: (Image, seq<real>) -> Verdict)
    ensures ScreenClaim(db, student, c, verify) == Some(SessionNotActive) <==> !Live(db, c.sessionId)
    ensures ScreenClaim(db, student, c, verify) == Some(NotEnrolled) <==>
      Live(db, c.sessionId) && !Enrolled(db, student, db.sessions[c.sessionId].courseId)
    ensures ScreenClaim(db, student, c, verify) == Some(AlreadyMarked) <==>
      Live(db, c.sessionId) && Enrolled(db, student, db.sessions[c.sessionId].courseId) && HasMarked(db, c.sessionId, student)
    ensures ScreenClaim(db, student, c, verify) == Some(DeviceAlreadyUsed) <==>
      && Live(db, c.sessionId) && Enrolled(db, student, db.sessions[c.sessionId].courseId)
      && !HasMarked(db, c.sessionId, student) && DeviceUsed(db, c.sessionId, c.deviceFingerprint)
    ensures ScreenClaim(db, student, c, verify) == Some(FaceNotRegistered) <==>
      PreChecksPass(db, student, c) && db.sessions[c.sessionId].attendanceMethod == SessionMethod.Face && student !in db.faces
    ensures ScreenClaim(db, student, c, verify).Some? && ScreenClaim(db, student, c, verify).value.FaceMismatch? <==>
      && PreChecksPass(db, student, c) && db.sessions[c.sessionId].attendanceMethod == SessionMethod.Face
      && student in db.faces && c.faceImage.Some? && verify(c.faceImage.value, db.faces[student].embeddings).NotVerified?
    ensures ScreenClaim(db, student, c, verify).Some? && ScreenClaim(db, student, c, verify).value.FaceMismatch? ==>
      ScreenClaim(db, student, c, verify).value.reason ==
        MismatchReason(verify(c.faceImage.value, db.faces[student].embeddings).reason)
    ensures ScreenClaim(db, student, c, verify) == Some(VerificationUnavailable) <==>
      && PreChecksPass(db, student, c) && db.sessions[c.sessionId].attendanceMethod == SessionMethod.Face
      && student in db.faces
      && (c.faceImage.None? || verify(c.faceImage.value, db.faces[student].embeddings) == Unavailable)
    ensures ScreenClaim(db, student, c, verify) == Some(NetworkAlreadyUsed) <==>
      PreChecksPass(db, student, c) && FacePasses(db, student, c, verify) && NetworkUsed(db, c.sessionId, c.ipAddress)
    ensures ScreenClaim(db, student, c, verify) == Some(DistanceNotANumber) <==>
      && PreChecksPass(db, student, c) && FacePasses(db, student, c, verify) && !NetworkUsed(db, c.sessionId, c.ipAddress)
      && DistanceUndefined(db, c)
    ensures ScreenClaim(db, student, c, verify).None? <==>
      && PreChecksPass(db, student, c) && FacePasses(db, student, c, verify) && !NetworkUsed(db, c.sessionId, c.ipAddress)
      && !DistanceUndefined(db, c)
  {
    ClaimEarlyRejections(db, student, c, verify);
    ClaimLateRejections(db, student, c, verify);
  }

  /** A negative verdict or an unreachable service never lets a FACE claim through. */
  lemma {:induction false} FaceVerdictRequired(db: Db, student: UserId, c: Claim, verify: (Image, seq<real>) -> Verdict)
    requires c.sessionId < |db.sessions| && db.sessions[c.sessionId].attendanceMethod == SessionMethod.Face
    requires student !in db.faces || c.faceImage.None? || verify(c.faceImage.value, db.faces[student].embeddings) != Verified
    ensures ScreenClaim(db, student, c, verify).Some?
  {
    ClaimAcceptedIff(db, student, c, verify);
  }

  /** A ONE_CLICK session never consults templates, images or the service. */
  lemma {:induction false} OneClickSkipsFace(db: Db, student: UserId, c: Claim, verify: (Image, seq<real>) -> Verdict,
                                              faces: map<UserId, FaceTemplate>, image: Option<Image>,
                                              verify': (Image, seq<real>) -> Verdict)
    requires c.sessionId < |db.sessions| && db.sessions[c.sessionId].attendanceMethod == SessionMethod.OneClick
    ensures !ConsultsVerifier(db, student, c)
    ensures ScreenClaim(db, student, c, verify) == ScreenClaim(db.(faces := faces), student, c.(faceImage := image), verify')
  {
  }

  /** The service is consulted only for a template on file, after the four cheap checks passed. */
  lemma {:induction false} ConsultedOnlyWithTemplate(db: Db, student: UserId, c: Claim)
    requires ConsultsVerifier(db, student, c)
    ensures PreChecksPass(db, student, c) && student in db.faces
  {
    ClaimRejectionOrder(db, student, c, (i: Image, e: seq<real>) => Verified);
  }

  /**
   * The geofence is computed but not enforced: in a session with faculty
   * coordinates the claimed location never decides the outcome, and in any
   * session only whether a location is sent matters, never which one.
   */
  lemma {:induction false} GeofenceNeverRejects(db: Db, student: UserId, c: Claim, verify: (Image, seq<real>) -> Verdict,
                                                 where: Option<Location>)
    ensures c.sessionId < |db.sessions| && db.sessions[c.sessionId].facultyLocation.Some? ==>
      ScreenClaim(db, student, c, verify) == ScreenClaim(db, student, c.(gpsLocation := where), verify)
    ensures where.Some? == c.gpsLocation.Some? ==>
      ScreenClaim(db, student, c, verify) == ScreenClaim(db, student, c.(gpsLocation := where), verify)
  {
  }

  /**
   * In a session started without coordinates, a claim that sends a location
   * fails when its record is created, while the same claim without one may pass.
   */
  lemma {:induction false} UnlocatedSessionRefusesLocatedClaim(db: Db, student: UserId, c: Claim,
                                                                verify: (Image, seq<real>) -> Verdict)
    requires c.sessionId < |db.sessions| && db.sessions[c.sessionId].facultyLocation.None? && c.gpsLocation.Some?
    ensures ScreenClaim(db, student, c, verify).Some?
    ensures ScreenClaim(db, student, c.(gpsLocation := None), verify).None? ==>
      ScreenClaim(db, student, c, verify) == Some(DistanceNotANumber)
  {
    ClaimRejectionOrder(db, student, c, verify);
    ClaimRejectionOrder(db, student, c.(gpsLocation := None), verify);
  }

  /**
   * `markAttendance`: runs the pipeline against the store and, when every
   * check passes, stores exactly one PRESENT record for the claim. Every
   * rejection leaves the store as it was. `measured` is the distance the
   * geofence formula gives for two real pairs of coordinates; it is recorded only.
   */
  method MarkAttendance(st: Store, student: UserId, c: Claim, verify: (Image, seq<real>) -> Verdict,
                        measured: real, now: Time)
    returns (r: Result<Record, ClaimRejection>, consulted: bool)
    requires st.Valid()
    modifies st
    ensures st.Valid() && st.events == old(st.events)
    ensures consulted == ConsultsVerifier(old(st.View()), student, c)
    ensures r.Err? ==> Some(r.error) == ScreenClaim(old(st.View()), student, c, verify) && st.View() == old(st.View())
    ensures r.Ok? <==> Admissible(old(st.View()), student, c, verify)
    ensures r.Ok? ==>
      var s := old(st.sessions)[c.sessionId];
      && st.View() == old(st.View()).(records := old(st.records) + [r.value])
      && r.value.studentId == student && r.value.sessionId == c.sessionId && r.value.courseId == s.courseId
      && r.value.status == Present && r.value.attendanceMethod == RecordMethodOf(s.attendanceMethod)
      && r.value.deviceFingerprint == Some(c.deviceFingerprint) && r.value.ipAddress == Some(c.ipAddress)
      && r.value.gpsLocation == c.gpsLocation
      && r.value.distanceFromFaculty == Some(if c.gpsLocation.Some? then measured else 0.0)
      && r.value.fraudFlags == NoFlags && r.value.timestamp == now
  {
    ghost var db := st.View();
    ClaimAcceptedIff(db, student, c, verify);
    consulted := false;
    if c.sessionId >= |st.sessions| || st.sessions[c.sessionId].status != Active {
      return Err(SessionNotActive), false;
    }
    var session := st.sessions[c.sessionId];

    var enrollment := FindEnrollment(st.enrollments, ByStudentCourse(student, session.courseId));
    if enrollment.None? {
      return Err(NotEnrolled), false;
    }
    var existing := FindRecord(st.records, BySessionStudent(c.sessionId, student));
    if existing.Some? {
      return Err(AlreadyMarked), false;
    }
    var deviceUsed := FindRecord(st.records, BySessionDevice(c.sessionId, c.deviceFingerprint));
    if deviceUsed.Some? {
      return Err(DeviceAlreadyUsed), false;
    }

    // the 50-metre branch has no effect
    var distance := Distance(session, c, measured);

    if session.attendanceMethod == SessionMethod.Face {
      if student !in st.faces {
        return Err(FaceNotRegistered), false;
      }
      if c.faceImage.None? {
        // decoding the missing image fails inside the call's error handler
        return Err(VerificationUnavailable), false;
      }
      consulted := true;
      var verdict := verify(c.faceImage.value, st.faces[student].embeddings);
      match verdict {
        case NotVerified(reason) =>
          return Err(FaceMismatch(MismatchReason(reason))), true;
        case Unavailable =>
          return Err(VerificationUnavailable), true;
        case Verified =>
      }
    }

    var ipUsed := FindRecord(st.records, BySessionIp(c.sessionId, c.ipAddress));
    if ipUsed.Some? && st.records[ipUsed.value].studentId != student {
      return Err(NetworkAlreadyUsed), consulted;
    }
    if distance.None? {
      // the number field refuses NaN and the creation fails
      return Err(DistanceNotANumber), consulted;
    }

    var rec := Record(student, c.sessionId, session.courseId, Present, Some(c.deviceFingerprint), Some(c.ipAddress),
                      c.gpsLocation, distance, RecordMethodOf(session.attendanceMethod), NoFlags, now);
    var stored := st.InsertRecord(rec);
    // the pre-checks above ran against this same store, so the indexes admit the record
    assert stored;
    r := Ok(rec);
  }

  // ---------------------------------------------------------------------
  // Group photo

  /** An enrolled student with a template, as sent to the batch service. */
  datatype Candidate = Candidate(studentId: UserId, embedding: seq<real>)

  /** One recognised student and the similarity of the best face. */
  datatype BatchMatch = BatchMatch(studentId: UserId, similarity: real)

  /** The batch service's answer: the matched students and the number of faces it found, if it says. */
  datatype BatchReply = Recognized(presentStudents: seq<BatchMatch>, totalDetected: Option<nat>) | BatchUnavailable

  datatype BulkError = NotAuthorizedForCourse | NoRegisteredFaces | RecognitionUnavailable | DuplicateKey

  datatype BulkSummary = BulkSummary(detectedFaces: Option<nat>, markedPresent: nat, sessionId: SessionId)

  /** The candidates from a course's enrollments, in enrollment order: those students who have a template. */
  function Candidates(es: seq<Enrollment>, faces: map<UserId, FaceTemplate>): seq<Candidate>
    decreases |es|
  {
    if |es| == 0 then []
    else
      var n := |es| - 1;
      Candidates(es[..n], faces)
        + (if es[n].studentId in faces then [Candidate(es[n].studentId, faces[es[n].studentId].embeddings)] else [])
  }

  /** Every candidate is an enrolled student with a template, paired with the embedding on file. */
  lemma {:induction false} CandidatesSound(es: seq<Enrollment>, faces: map<UserId, FaceTemplate>)
    ensures forall k :: 0 <= k < |Candidates(es, faces)| ==>
      && Candidates(es, faces)[k].studentId in faces
      && Candidates(es, faces)[k].embedding == faces[Candidates(es, faces)[k].studentId].embeddings
      && exists j :: 0 <= j < |es| && es[j].studentId == Candidates(es, faces)[k].studentId
    decreases |es|
  {
    if |es| > 0 {
      var n := |es| - 1;
      var init := Candidates(es[..n], faces);
      CandidatesSound(es[..n], faces);
      forall k | 0 <= k < |init|
        ensures exists j :: 0 <= j < |es| && es[j].studentId == init[k].studentId
      {
        var j :| 0 <= j < n && es[..n][j].studentId == init[k].studentId;
        assert es[j] == es[..n][j];
      }
    }
  }

  /** Whether student `s` is among the candidates `r`. */
  predicate IsCandidate(r: seq<Candidate>, s: UserId)
  {
    exists k :: 0 <= k < |r| && r[k].studentId == s
  }

  /** Every enrolled student with a template is a candidate. */
  lemma {:induction false} CandidatesComplete(es: seq<Enrollment>, faces: map<UserId, FaceTemplate>)
    ensures forall j :: 0 <= j < |es| && es[j].studentId in faces ==> IsCandidate(Candidates(es, faces), es[j].studentId)
    decreases |es|
  {
    if |es| > 0 {
      var n := |es| - 1;
      var init := Candidates(es[..n], faces);
      var r := Candidates(es, faces);
      CandidatesComplete(es[..n], faces);
      forall j | 0 <= j < |es| && es[j].studentId in faces
        ensures IsCandidate(r, es[j].studentId)
      {
        if j < n {
          assert es[..n][j] == es[j];
          var k :| 0 <= k < |init| && init[k].studentId == es[j].studentId;
          assert r[k] == init[k];
        } else {
          assert r[|init|].studentId == es[n].studentId;
        }
      }
    }
  }

  /** Different students in the enrollments give different candidates. */
  lemma {:induction false} CandidatesDistinct(es: seq<Enrollment>, faces: map<UserId, FaceTemplate>)
    requires forall i, j :: 0 <= i < j < |es| ==> es[i].studentId != es[j].studentId
    ensures forall k, l :: 0 <= k < l < |Candidates(es, faces)| ==>
      Candidates(es, faces)[k].studentId != Candidates(es, faces)[l].studentId
    decreases |es|
  {
    if |es| > 0 {
      var n := |es| - 1;
      assert forall i :: 0 <= i < n ==> es[..n][i] == es[i];
      CandidatesDistinct(es[..n], faces);
      CandidatesSound(es[..n], faces);
      var init := Candidates(es[..n], faces);
      forall k | 0 <= k < |init|
        ensures init[k].studentId != es[n].studentId
      {
        var j :| 0 <= j < n && es[..n][j].studentId == init[k].studentId;
      }
    }
  }

  /** The loop that collects the candidates. */
  method GatherCandidates(es: seq<Enrollment>, faces: map<UserId, FaceTemplate>) returns (cands: seq<Candidate>)
    ensures cands == Candidates(es, faces)
  {
    cands := [];
    var i := 0;
    while i < |es|
      invariant 0 <= i <= |es|
      invariant cands == Candidates(es[..i], faces)
    {
      var e := es[i];
      if e.studentId in faces {
        cands := cands + [Candidate(e.studentId, faces[e.studentId].embeddings)];
      }
      assert es[..i + 1][..i] == es[..i];
      i := i + 1;
    }
    assert es[..i] == es;
  }

  /** The record stored for one recognised student. */
  function BulkRecord(m: BatchMatch, sid: SessionId, courseId: CourseId, now: Time): Record
  {
    Record(m.studentId, sid, courseId, Present, None, None, None, None, RecordMethod.Face, BulkSimilarity(m.similarity), now)
  }

  /** One PRESENT face record per match, all in the new session and without a fingerprint. */
  function BulkRecords(ms: seq<BatchMatch>, sid: SessionId, courseId: CourseId, now: Time): (r: seq<Record>)
    ensures |r| == |ms|
    ensures forall k :: 0 <= k < |r| ==>
      && r[k].studentId == ms[k].studentId && r[k].sessionId == sid && r[k].courseId == courseId
      && r[k].status == Present && r[k].attendanceMethod == RecordMethod.Face
      && r[k].deviceFingerprint.None? && r[k].fraudFlags == BulkSimilarity(ms[k].similarity)
  {
    seq(|ms|, k requires 0 <= k < |ms| => BulkRecord(ms[k], sid, courseId, now))
  }

  /**
   * Under the device index as declared, which is not sparse, any two records
   * of one group photo collide: none of them carries a fingerprint.
   */
  lemma {:induction false} BulkBatchBreaksDeclaredIndex(rs: seq<Record>, ms: seq<BatchMatch>, sid: SessionId,
                                                         courseId: CourseId, now: Time)
    requires |ms| >= 2
    ensures !DeclaredDeviceIndex(rs + BulkRecords(ms, sid, courseId, now))
  {
    var batch := BulkRecords(ms, sid, courseId, now);
    var t := rs + batch;
    assert t[|rs|] == batch[0] && t[|rs| + 1] == batch[1];
  }

  /** The loop that builds the records. */
  method BuildBulkRecords(ms: seq<BatchMatch>, sid: SessionId, courseId: CourseId, now: Time) returns (recs: seq<Record>)
    ensures recs == BulkRecords(ms, sid, courseId, now)
  {
    recs := [];
    var i := 0;
    while i < |ms|
      invariant 0 <= i <= |ms|
      invariant recs == BulkRecords(ms[..i], sid, courseId, now)
    {
      recs := recs + [BulkRecord(ms[i], sid, courseId, now)];
      i := i + 1;
    }
    assert ms[..i] == ms;
  }

  predicate DistinctMatches(ms: seq<BatchMatch>)
  {
    forall k, l :: 0 <= k < l < |ms| ==> ms[k].studentId != ms[l].studentId
  }

  /**
   * `bulkRecognize`: only the course's faculty may run it; without a single
   * enrolled student with a template nothing is created. Otherwise exactly one
   * new session is created, already CLOSED, and the records of the matches are
   * inserted in order until a duplicate key, if any.
   */
  method BulkRecognize(st: Store, faculty: UserId, courseId: CourseId, image: Image,
                       recognize: (Image, seq<Candidate>) -> BatchReply, now: Time)
    returns (r: Result<BulkSummary, BulkError>)
    requires st.Valid()
    modifies st
    ensures st.Valid() && st.events == old(st.events)
    ensures FindOwnedCourse(old(st.courses), courseId, faculty).None? ==>
      r == Err(NotAuthorizedForCourse) && st.View() == old(st.View())
    ensures
      var cands := Candidates(FilterEnrollments(old(st.enrollments), ByCourse(courseId)), old(st.faces));
      FindOwnedCourse(old(st.courses), courseId, faculty).Some? ==>
        && (cands == [] ==> r == Err(NoRegisteredFaces) && st.View() == old(st.View()))
        && (cands != [] && recognize(image, cands).BatchUnavailable? ==>
              r == Err(RecognitionUnavailable) && st.View() == old(st.View()))
        && (cands != [] && recognize(image, cands).Recognized? ==>
              var ms := recognize(image, cands).presentStudents;
              var sid := |old(st.sessions)|;
              var recs := BulkRecords(ms, sid, courseId, now);
              var k := AcceptedPrefix(old(st.records), recs);
              && st.View() == old(st.View()).(
                   sessions := old(st.sessions) + [Session(faculty, courseId, now, Some(now), None, SessionMethod.Face, Closed)],
                   records := old(st.records) + recs[..k])
              && (r.Ok? <==> k == |recs|)
              && (r.Ok? ==> r.value == BulkSummary(recognize(image, cands).totalDetected, |ms|, sid))
              && (r.Err? ==> r.error == DuplicateKey)
              && (DistinctMatches(ms) ==> r.Ok?))
  {
    var course := FindOwnedCourse(st.courses, courseId, faculty);
    if course.None? {
      return Err(NotAuthorizedForCourse);
    }
    var enrolled := FilterEnrollments(st.enrollments, ByCourse(courseId));
    var cands := GatherCandidates(enrolled, st.faces);
    if |cands| == 0 {
      return Err(NoRegisteredFaces);
    }
    var reply := recognize(image, cands);
    if reply.BatchUnavailable? {
      return Err(RecognitionUnavailable);
    }

    var draft := SessionDraft(Some(faculty), Some(courseId), Some(now), Some(now), None, Some("FACE"), Some("CLOSED"));
    var created := CreateSession(draft, now);
    assert created.Ok?;
    var s := created.value;
    assert SessionSchema.MethodName(s.attendanceMethod) == "FACE" && SessionSchema.StatusName(s.status) == "CLOSED";
    assert s == Session(faculty, courseId, now, Some(now), None, SessionMethod.Face, Closed);
    var sid := st.AddSession(s);

    var recs := BuildBulkRecords(reply.presentStudents, sid, courseId, now);
    ghost var k := AcceptedPrefix(st.records, recs);
    if DistinctMatches(reply.presentStudents) {
      forall i | 0 <= i < |st.records|
        ensures st.records[i].sessionId != sid
      {
        assert RecordBelongs(st.records[i], old(st.sessions));
      }
      DistinctBatchAccepted(st.records, recs, sid);
    }
    if |recs| > 0 {
      var ok := st.InsertRecords(recs);
      if !ok {
        return Err(DuplicateKey);
      }
    } else {
      assert recs[..k] == [];
    }
    r := Ok(BulkSummary(reply.totalDetected, |recs|, sid));
  }

  // ---------------------------------------------------------------------
  // Manual override

  datatype ToggleError = NotAuthorizedForSession | InvalidRecord(error: ValidationError)

  /**
   * `toggleAttendance`: only the session's faculty may override. An existing
   * record of the student gets the new status and an override note and keeps
   * everything else; otherwise a MANUAL record is created in the session's
   * course. Neither enrollment nor the session's status is checked.
   */
  method ToggleAttendance(st: Store, faculty: UserId, sessionId: SessionId, student: UserId,
                          status: Option<string>, now: Time)
    returns (r: Result<Record, ToggleError>)
    requires st.Valid()
    modifies st
    ensures st.Valid() && st.events == old(st.events)
    ensures !(sessionId < |old(st.sessions)| && old(st.sessions)[sessionId].facultyId == faculty) ==>
      r == Err(NotAuthorizedForSession) && st.View() == old(st.View())
    ensures r.Err? ==> st.View() == old(st.View())
    ensures sessionId < |old(st.sessions)| && old(st.sessions)[sessionId].facultyId == faculty ==>
      && (r.Ok? <==> status.Some? && RecordSchema.ParseStatus(status.value).Some?)
      && (r.Ok? ==> status == Some(RecordSchema.StatusName(r.value.status)))
      && match FindRecord(old(st.records), BySessionStudent(sessionId, student))
         case Some(i) =>
           r.Ok? ==>
             && r.value == old(st.records)[i].(status := r.value.status, fraudFlags := ManualOverride(now))
             && st.View() == old(st.View()).(records := old(st.records)[i := r.value])
         case None =>
           r.Ok? ==>
             && r.value == Record(student, sessionId, old(st.sessions)[sessionId].courseId, r.value.status,
                                  None, None, None, None, Manual, ManualCreated, now)
             && st.View() == old(st.View()).(records := old(st.records) + [r.value])
  {
    if sessionId >= |st.sessions| || st.sessions[sessionId].facultyId != faculty {
      return Err(NotAuthorizedForSession);
    }
    var session := st.sessions[sessionId];
    var existing := FindRecord(st.records, BySessionStudent(sessionId, student));
    if existing.Some? {
      var i := existing.value;
      var updated := SetStatus(st.records[i], status, ManualOverride(now));
      if updated.Err? {
        return Err(InvalidRecord(updated.error));
      }
      st.SaveRecord(i, updated.value);
      r := Ok(updated.value);
    } else {
      var draft := RecordDraft(Some(student), Some(sessionId), Some(session.courseId), status,
                               None, None, None, None, Some("MANUAL"), ManualCreated, None);
      var created := CreateRecord(draft, now);
      if created.Err? {
        return Err(InvalidRecord(created.error));
      }
      var rec := created.value;
      assert RecordSchema.MethodName(rec.attendanceMethod) == "MANUAL";
      var stored := st.InsertRecord(rec);
      // no record of this student in the session, and no fingerprint to collide
      assert stored;
      r := Ok(rec);
    }
  }

  /**
   * Under the device index as declared, the MANUAL record the override creates
   * collides with any other fingerprint-less record of the same session, such
   * as one from a group photo or an earlier override.
   */
  lemma {:induction false} ManualRecordBreaksDeclaredIndex(rs: seq<Record>, i: nat, student: UserId, sessionId: SessionId,
                                                           courseId: CourseId, status: RecordStatus, now: Time)
    requires i < |rs| && rs[i].sessionId == sessionId && rs[i].deviceFingerprint.None?
    ensures !DeclaredDeviceIndex(rs + [Record(student, sessionId, courseId, status,
                                              None, None, None, None, Manual, ManualCreated, now)])
  {
    var t := rs + [Record(student, sessionId, courseId, status, None, None, None, None, Manual, ManualCreated, now)];
    assert t[i] == rs[i];
    assert t[|rs|].sessionId == sessionId && t[|rs|].deviceFingerprint.None?;
  }
}
