/**
 * The attendance record document: one student's outcome for one session, the
 * queries the controllers run over the record collection, and the two unique
 * indexes that the collection declares.
 */
module RecordSchema {
  import opened Common

  /** `status`: a record says PRESENT or ABSENT and nothing else. */
  datatype RecordStatus = Present | Absent

  /** `attendanceMethod`: how the record came about. */
  datatype RecordMethod = Face | OneClick | Manual

  /**
   * `fraudFlags`: a free-form note in the source, written by exactly three
   * code paths; here one variant per writer.
   */
  datatype FraudFlags =
    | NoFlags
    | BulkSimilarity(similarity: real)
    | ManualOverride(at: Time)
    | ManualCreated

  datatype Record = Record(
    studentId: UserId,
    sessionId: SessionId,
    courseId: CourseId,
    status: RecordStatus,
    deviceFingerprint: Option<string>,
    ipAddress: Option<string>,
    gpsLocation: Option<Location>,
    distanceFromFaculty: Option<real>,
    attendanceMethod: RecordMethod,
    fraudFlags: FraudFlags,
    timestamp: Time)

  function StatusName(s: RecordStatus): string
  {
    match s
    case Present => "PRESENT"
    case Absent => "ABSENT"
  }

  function MethodName(m: RecordMethod): string
  {
    match m
    case Face => "FACE"
    case OneClick => "ONE_CLICK"
    case Manual => "MANUAL"
  }

  /** The enum check of `status`. */
  function ParseStatus(name: string): (r: Option<RecordStatus>)
    ensures forall s :: r == Some(s) <==> StatusName(s) == name
  {
    if name == "PRESENT" then Some(Present)
    else if name == "ABSENT" then Some(Absent)
    else None
  }

  /** The enum check of `attendanceMethod`. */
  function ParseMethod(name: string): (r: Option<RecordMethod>)
    ensures forall m :: r == Some(m) <==> MethodName(m) == name
  {
    if name == "FACE" then Some(Face)
    else if name == "ONE_CLICK" then Some(OneClick)
    else if name == "MANUAL" then Some(Manual)
    else None
  }

  /** The fields a caller passes to create a record; absent fields are `None`. */
  datatype RecordDraft = RecordDraft(
    studentId: Option<UserId>,
    sessionId: Option<SessionId>,
    courseId: Option<CourseId>,
    status: Option<string>,
    deviceFingerprint: Option<string>,
    ipAddress: Option<string>,
    gpsLocation: Option<Location>,
    distanceFromFaculty: Option<real>,
    attendanceMethod: Option<string>,
    fraudFlags: FraudFlags,
    timestamp: Option<Time>)

  /** What the schema demands: the three ids, and a known status and method. */
  predicate DraftAccepted(d: RecordDraft)
  {
    && d.studentId.Some? && d.sessionId.Some? && d.courseId.Some?
    && d.status.Some? && ParseStatus(d.status.value).Some?
    && d.attendanceMethod.Some? && ParseMethod(d.attendanceMethod.value).Some?
  }

  /**
   * Creating a record document: required and enum checks, then the default
   * time stamp. Fingerprint, address, location and distance stay optional.
   */
  function CreateRecord(d: RecordDraft, now: Time): (r: Result<Record, ValidationError>)
    ensures r.Ok? <==> DraftAccepted(d)
    ensures r.Ok? ==>
      && d.studentId == Some(r.value.studentId)
      && d.sessionId == Some(r.value.sessionId)
      && d.courseId == Some(r.value.courseId)
      && d.status == Some(StatusName(r.value.status))
      && d.attendanceMethod == Some(MethodName(r.value.attendanceMethod))
      && r.value.deviceFingerprint == d.deviceFingerprint
      && r.value.ipAddress == d.ipAddress
      && r.value.gpsLocation == d.gpsLocation
      && r.value.distanceFromFaculty == d.distanceFromFaculty
      && r.value.fraudFlags == d.fraudFlags
      && (d.timestamp.None? ==> r.value.timestamp == now)
      && (d.timestamp.Some? ==> d.timestamp == Some(r.value.timestamp))
  {
    if d.studentId.None? then Err(MissingField("studentId"))
    else if d.sessionId.None? then Err(MissingField("sessionId"))
    else if d.courseId.None? then Err(MissingField("courseId"))
    else if d.status.None? then Err(MissingField("status"))
    else if ParseStatus(d.status.value).None? then Err(NotInEnum("status", d.status.value))
    else if d.attendanceMethod.None? then Err(MissingField("attendanceMethod"))
    else if ParseMethod(d.attendanceMethod.value).None? then Err(NotInEnum("attendanceMethod", d.attendanceMethod.value))
    else
      Ok(Record(
        d.studentId.value, d.sessionId.value, d.courseId.value,
        ParseStatus(d.status.value).value,
        d.deviceFingerprint, d.ipAddress, d.gpsLocation, d.distanceFromFaculty,
        ParseMethod(d.attendanceMethod.value).value,
        d.fraudFlags,
        if d.timestamp.Some? then d.timestamp.value else now))
  }

  /**
   * Assigning `status` and `fraudFlags` of a stored record and saving it: the
   * save re-runs the required and enum checks on the new status.
   */
  function SetStatus(rec: Record, status: Option<string>, flags: FraudFlags): (r: Result<Record, ValidationError>)
    ensures r.Ok? <==> status.Some? && ParseStatus(status.value).Some?
    ensures r.Ok? ==>
      && status == Some(StatusName(r.value.status))
      && r.value.fraudFlags == flags
      && r.value == rec.(status := r.value.status, fraudFlags := flags)
  {
    if status.None? then Err(MissingField("status"))
    else if ParseStatus(status.value).None? then Err(NotInEnum("status", status.value))
    else Ok(rec.(status := ParseStatus(status.value).value, fraudFlags := flags))
  }

  /** A query over the record collection: every given field must be equal. */
  datatype RecordFilter = RecordFilter(
    sessionId: Option<SessionId>,
    studentId: Option<UserId>,
    courseId: Option<CourseId>,
    status: Option<RecordStatus>,
    deviceFingerprint: Option<string>,
    ipAddress: Option<string>)

  predicate Matches(f: RecordFilter, r: Record)
  {
    && (f.sessionId.Some? ==> r.sessionId == f.sessionId.value)
    && (f.studentId.Some? ==> r.studentId == f.studentId.value)
    && (f.courseId.Some? ==> r.courseId == f.courseId.value)
    && (f.status.Some? ==> r.status == f.status.value)
    && (f.deviceFingerprint.Some? ==> r.deviceFingerprint == f.deviceFingerprint)
    && (f.ipAddress.Some? ==> r.ipAddress == f.ipAddress)
  }

  function BySessionStudent(sid: SessionId, student: UserId): RecordFilter
  {
    RecordFilter(Some(sid), Some(student), None, None, None, None)
  }

  function BySessionDevice(sid: SessionId, device: string): RecordFilter
  {
    RecordFilter(Some(sid), None, None, None, Some(device), None)
  }

  function BySessionIp(sid: SessionId, ip: string): RecordFilter
  {
    RecordFilter(Some(sid), None, None, None, None, Some(ip))
  }

  /** `findOne`: the position of the first matching record in natural order. */
  function FindRecord(rs: seq<Record>, f: RecordFilter): (r: Option<nat>)
    ensures r.Some? ==> r.value < |rs| && Matches(f, rs[r.value])
    ensures r.Some? ==> forall i :: 0 <= i < r.value ==> !Matches(f, rs[i])
    ensures r.None? <==> forall i :: 0 <= i < |rs| ==> !Matches(f, rs[i])
  {
    if |rs| == 0 then None
    else if Matches(f, rs[0]) then Some(0)
    else
      match FindRecord(rs[1..], f)
      case None => None
      case Some(i) => Some(i + 1)
  }

  /** `countDocuments`: how many records match. */
  function CountRecords(rs: seq<Record>, f: RecordFilter): (n: nat)
    ensures n <= |rs|
    ensures n == 0 <==> forall i :: 0 <= i < |rs| ==> !Matches(f, rs[i])
  {
    if |rs| == 0 then 0
    else CountRecords(rs[..|rs| - 1], f) + (if Matches(f, rs[|rs| - 1]) then 1 else 0)
  }

  /** Unique index on (sessionId, studentId). */
  predicate UniquePerStudent(rs: seq<Record>)
  {
    forall i, j :: 0 <= i < j < |rs| && rs[i].sessionId == rs[j].sessionId ==> rs[i].studentId != rs[j].studentId
  }

  /**
   * Unique index on (sessionId, deviceFingerprint), over records that carry a
   * fingerprint. Records written by the bulk and manual paths carry none.
   */
  predicate UniquePerDevice(rs: seq<Record>)
  {
    forall i, j :: 0 <= i < j < |rs| && rs[i].sessionId == rs[j].sessionId && rs[i].deviceFingerprint.Some? ==>
      rs[i].deviceFingerprint != rs[j].deviceFingerprint
  }

  /**
   * The (sessionId, deviceFingerprint) index as it is declared: not sparse, so
   * a missing fingerprint is indexed as a value of its own and two records of
   * one session without a fingerprint collide.
   */
  predicate DeclaredDeviceIndex(rs: seq<Record>)
  {
    forall i, j :: 0 <= i < j < |rs| && rs[i].sessionId == rs[j].sessionId ==>
      rs[i].deviceFingerprint != rs[j].deviceFingerprint
  }

  predicate Indexed(rs: seq<Record>)
  {
    UniquePerStudent(rs) && UniquePerDevice(rs)
  }

  /** The store's duplicate-key test for inserting `r` after `rs`. */
  predicate Admits(rs: seq<Record>, r: Record)
  {
    && (forall i :: 0 <= i < |rs| && rs[i].sessionId == r.sessionId ==> rs[i].studentId != r.studentId)
    && (r.deviceFingerprint.Some? ==>
          forall i :: 0 <= i < |rs| && rs[i].sessionId == r.sessionId ==> rs[i].deviceFingerprint != r.deviceFingerprint)
  }

  /** Appending keeps both indexes exactly when the store admits the record. */
  lemma {:induction false} AdmitsIffIndexed(rs: seq<Record>, r: Record)
    requires Indexed(rs)
    ensures Indexed(rs + [r]) <==> Admits(rs, r)
  {
    var t := rs + [r];
    assert t[|rs|] == r;
    assert forall i :: 0 <= i < |rs| ==> t[i] == rs[i];
    if Indexed(t) {
      forall i | 0 <= i < |rs| && rs[i].sessionId == r.sessionId
        ensures rs[i].studentId != r.studentId
      {
        assert t[i].sessionId == t[|rs|].sessionId;
      }
      if r.deviceFingerprint.Some? {
        forall i | 0 <= i < |rs| && rs[i].sessionId == r.sessionId
          ensures rs[i].deviceFingerprint != r.deviceFingerprint
        {
          assert t[i].sessionId == t[|rs|].sessionId;
        }
      }
    }
  }

  /**
   * An ordered bulk insert stops at the first record the indexes refuse; this
   * is how many records of `batch` it stores after `rs`.
   */
  function AcceptedPrefix(rs: seq<Record>, batch: seq<Record>): (k: nat)
    ensures k <= |batch|
    decreases |batch|
  {
    if |batch| == 0 then 0
    else if Admits(rs, batch[0]) then 1 + AcceptedPrefix(rs + [batch[0]], batch[1..])
    else 0
  }

  /**
   * The stored prefix is exactly the records admitted one after another: each
   * of the first `AcceptedPrefix` records is admitted after the ones before it,
   * and the next one, if any, is refused.
   */
  lemma {:induction false} AcceptedPrefixStops(rs: seq<Record>, batch: seq<Record>)
    ensures forall j :: 0 <= j < AcceptedPrefix(rs, batch) ==> Admits(rs + batch[..j], batch[j])
    ensures AcceptedPrefix(rs, batch) < |batch| ==>
      !Admits(rs + batch[..AcceptedPrefix(rs, batch)], batch[AcceptedPrefix(rs, batch)])
    decreases |batch|
  {
    if |batch| > 0 && Admits(rs, batch[0]) {
      var rs', rest := rs + [batch[0]], batch[1..];
      AcceptedPrefixStops(rs', rest);
      var k := AcceptedPrefix(rs, batch);
      assert k == 1 + AcceptedPrefix(rs', rest);
      forall j | 0 <= j < k
        ensures Admits(rs + batch[..j], batch[j])
      {
        if j == 0 {
          assert rs + batch[..0] == rs;
        } else {
          assert rs' + rest[..j - 1] == rs + batch[..j];
          assert rest[j - 1] == batch[j];
        }
      }
      if k < |batch| {
        assert rs' + rest[..k - 1] == rs + batch[..k];
        assert rest[k - 1] == batch[k];
      }
    } else if |batch| > 0 {
      assert rs + batch[..0] == rs;
    }
  }

  /**
   * A batch of fingerprint-less records for one session, for students pairwise
   * distinct and without a record of that session yet, is stored in full.
   */
  lemma {:induction false} DistinctBatchAccepted(rs: seq<Record>, batch: seq<Record>, sid: SessionId)
    requires forall k :: 0 <= k < |batch| ==> batch[k].sessionId == sid && batch[k].deviceFingerprint.None?
    requires forall k, l :: 0 <= k < l < |batch| ==> batch[k].studentId != batch[l].studentId
    requires forall i, k :: 0 <= i < |rs| && 0 <= k < |batch| && rs[i].sessionId == sid ==> rs[i].studentId != batch[k].studentId
    ensures AcceptedPrefix(rs, batch) == |batch|
    decreases |batch|
  {
    if |batch| > 0 {
      assert Admits(rs, batch[0]);
      var rs', rest := rs + [batch[0]], batch[1..];
      forall i, k | 0 <= i < |rs'| && 0 <= k < |rest| && rs'[i].sessionId == sid
        ensures rs'[i].studentId != rest[k].studentId
      {
        assert rest[k] == batch[k + 1];
        if i < |rs| {
          assert rs'[i] == rs[i];
        } else {
          assert rs'[i] == batch[0];
        }
      }
      DistinctBatchAccepted(rs', rest, sid);
    }
  }
}
