# Attendance back end, modelled in Dafny

This project models the request handlers and the document schemas of a
classroom attendance service. A faculty member starts and stops attendance
sessions for a course. Students claim attendance through a fixed guard
pipeline: the session must be live, the student enrolled and not yet marked,
the device and the network address unused, and in a face session a face
verification must pass. A faculty member can also mark a whole class from a
group photo, and can override one student's record by hand. The read side
computes per-student, per-session and per-course attendance reports.

The database is one sequential in-memory object, the class `Store.Store`. It
holds sessions, records, enrollments, courses, face templates and the log of
real-time events. Its invariant `Store.Consistent` holds:

- the unique indexes on (student, course) of enrollments and on (session,
  student) of records;
- the (session, fingerprint) index of records read as sparse, over the records
  that carry a fingerprint; as declared it is not sparse (see "## Findings");
- an end time on a session exactly when it is closed;
- every record in an existing session of its own course;
- every template filed under its own student.

Every store method keeps this invariant. Every database query is a function
over the collections: `FindX` gives the first match in natural order,
`CountX` counts matches, `FilterX` lists them. The face services are
parameters of function type: a single-face verdict, a batch matcher and an
embedding extractor. The clock is a parameter `now`, and the geofence
distance is a parameter `measured`.

Modules, one per source file:

- `Common`: shared types.
- `SessionSchema`, `RecordSchema`, `EnrollmentSchema`, `FaceSchema`: the four
  schemas, their validation and defaults, their indexes and their queries.
- `Store`: the collections and their invariant.
- `AttendanceController`: the session lifecycle, the claim pipeline, the
  group photo and the manual override.
- `FaceController`: face registration and face status.
- `Tallies`: counting facts shared by the reports.
- `ReportController` and `CourseController`: the read side.

The model follows the code as written:

- `startSession` and `stopSession` check neither who owns the course nor whether
  a session is already active.
- Stopping a closed session again succeeds. It stamps a new end time and
  announces the stop again.
- `toggleAttendance` checks neither enrollment nor the session's status.
- In the course history the absent count is the enrollment count minus the
  present count. The manual override and the group photo do not check
  enrollment, so a session can hold more PRESENT records than the course has
  students. The absent count can then be negative, so it is an `int` in the
  model.

## Model

| member | source | states |
|---|---|---|
| SessionSchema.ParseMethod | backend/src/models/AttendanceSession.ts:25 | A method name is accepted iff it is FACE or ONE_CLICK, and parsing inverts naming. |
| SessionSchema.ParseStatus | backend/src/models/AttendanceSession.ts:26 | A status name is accepted iff it is ACTIVE or CLOSED, and parsing inverts naming. |
| SessionSchema.CreateSession | backend/src/models/AttendanceSession.ts:16-27 | A session is created iff faculty, course and a FACE or ONE_CLICK method are given and a given status is ACTIVE or CLOSED. The fields are then the given ones; status defaults to ACTIVE and start time to now; end time and faculty location stay optional. |
| SessionSchema.SessionMethodNames | backend/src/models/AttendanceSession.ts:25 | A created session's method is FACE or ONE_CLICK, never MANUAL. |
| SessionSchema.FindSession | backend/src/controllers/attendanceController.ts:304 | `findOne` gives the first matching session, or none exactly when no session matches. |
| SessionSchema.CountSessions | backend/src/controllers/reportController.ts:29-32 | `countDocuments` on sessions: at most the number of sessions. |
| SessionSchema.FindSessions | backend/src/controllers/reportController.ts:70-72 | `find` on sessions lists exactly the matching (id, session) pairs. |
| RecordSchema.ParseStatus | backend/src/models/AttendanceRecord.ts:27 | A status name is accepted iff it is PRESENT or ABSENT, and parsing inverts naming. |
| RecordSchema.ParseMethod | backend/src/models/AttendanceRecord.ts:38 | A method name is accepted iff it is FACE, ONE_CLICK or MANUAL, and parsing inverts naming. |
| RecordSchema.CreateRecord | backend/src/models/AttendanceRecord.ts:23-41 | A record is created iff the three ids, a known status and a known method are given. Fingerprint, address, location and distance are copied as given, optional; the time stamp defaults to now. |
| RecordSchema.SetStatus | backend/src/controllers/attendanceController.ts:277-280 | Saving an assigned status succeeds iff the status is a known one. Only status and fraud note change. |
| RecordSchema.FindRecord | backend/src/controllers/attendanceController.ts:88-99 | `findOne` gives the first matching record, or none exactly when none matches. |
| RecordSchema.CountRecords | backend/src/controllers/reportController.ts:35-39 | `countDocuments` on records: at most the number of records, and zero iff nothing matches. |
| RecordSchema.AdmitsIffIndexed | backend/src/models/AttendanceRecord.ts:44-46 | Appending a record keeps both unique indexes iff no record of the session has its student or, when it carries one, its fingerprint. |
| RecordSchema.AcceptedPrefix | backend/src/controllers/attendanceController.ts:246-248 | An ordered bulk insert stores at most the whole batch. |
| RecordSchema.AcceptedPrefixStops | backend/src/controllers/attendanceController.ts:246-248 | Each of the first `AcceptedPrefix` records is admitted after those before it, and the next record of the batch, if there is one, is refused. |
| RecordSchema.DistinctBatchAccepted | backend/src/controllers/attendanceController.ts:234-248 | A fingerprint-less batch for one session, of distinct students none of whom is already in that session, is stored in full. |
| EnrollmentSchema.CreateEnrollment | backend/src/models/Enrollment.ts:9-13 | An enrollment is created iff student and course are given; the enrollment date defaults to now. |
| EnrollmentSchema.FindEnrollment | backend/src/controllers/attendanceController.ts:81-85 | `findOne` gives a matching enrollment, or none exactly when none matches. |
| EnrollmentSchema.CountEnrollments | backend/src/controllers/courseController.ts:23 | `countDocuments` on enrollments: at most the number of enrollments. |
| EnrollmentSchema.FilterEnrollments | backend/src/controllers/reportController.ts:27 | `find` on enrollments: its elements are exactly the matching enrollments, all matching, as many as the count. |
| EnrollmentSchema.MatchingPositions | backend/src/controllers/reportController.ts:27 | The matching positions of the collection, strictly increasing, each in range and matching, none left out. |
| EnrollmentSchema.FilterEnrollmentsInOrder | backend/src/controllers/reportController.ts:27 | `find` keeps natural order and multiplicity: its k-th result is the enrollment at the k-th matching position. |
| EnrollmentSchema.CourseEnrollmentsDistinct | backend/src/models/Enrollment.ts:16 | Under the (student, course) unique index, the enrollments `find` returns for one course are for pairwise distinct students. |
| EnrollmentSchema.CourseEnrollmentsStudents | backend/src/controllers/reportController.ts:27 | The students of a course's `find` result are exactly the course's enrolled students. |
| EnrollmentSchema.CourseCountIsDistinctStudents | backend/src/models/Enrollment.ts:16 | Under the (student, course) unique index, a course's enrollment count is its number of distinct students. |
| FaceSchema.CreateTemplate | backend/src/models/FaceData.ts:9-13 | A template is created iff student and embeddings are given; the registration date defaults to now. |
| FaceSchema.OneTemplatePerStudent | backend/src/models/FaceData.ts:10 | With templates keyed by student, two stored templates of one student are the same template. |
| Store.FindCourse | backend/src/controllers/courseController.ts:32 | `findById` on courses gives the course with that id, or none exactly when there is none. |
| Store.FindOwnedCourse | backend/src/controllers/attendanceController.ts:187-191 | `findOne({_id, facultyId})` finds a course iff one has that id and that owner. |
| Store.Store.AddSession | backend/src/controllers/attendanceController.ts:23-30 | Creating a session appends it with the next id and keeps the invariant. |
| Store.Store.SaveSession | backend/src/controllers/attendanceController.ts:56-58 | Saving a session replaces exactly that session and keeps the invariant. |
| Store.Store.InsertRecord | backend/src/models/AttendanceRecord.ts:44-46 | Inserting a record appends it iff the unique indexes admit it; otherwise nothing changes. The invariant holds either way. |
| Store.Store.InsertRecords | backend/src/controllers/attendanceController.ts:246-248 | An ordered `insertMany` stores the batch up to the first duplicate key and succeeds iff that is the whole batch. |
| Store.Store.SaveRecord | backend/src/controllers/attendanceController.ts:280 | Saving a record with its keys unchanged replaces exactly that record and keeps the invariant. |
| Store.Store.PutTemplate | backend/src/controllers/faceController.ts:40-50 | Storing a template sets the student's single template and keeps the invariant. |
| Store.Store.Emit | backend/src/controllers/attendanceController.ts:33-37 | Broadcasting appends the event and leaves the collections unchanged. |
| AttendanceController.ActiveSession | backend/src/controllers/attendanceController.ts:301-319 | The answer is "not active" iff the course has no ACTIVE session. Otherwise it names an ACTIVE session of the course and that session's method. |
| AttendanceController.AddedSessionIsActive | backend/src/controllers/attendanceController.ts:304-315 | After an ACTIVE session of a course is added, the course reports an active session. |
| AttendanceController.StartSession | backend/src/controllers/attendanceController.ts:18-43 | Succeeds iff a course and a known method are given. Then exactly one ACTIVE session with that method and the faculty location of the given coordinates is appended, `attendance_started` is emitted with course, id and method, and the course reports an active session. A failure changes nothing. |
| AttendanceController.FacultyLocation | backend/src/models/AttendanceSession.ts:21-24 | A session has a faculty location iff both coordinates are given, and it is made of them. |
| AttendanceController.StopSession | backend/src/controllers/attendanceController.ts:46-66 | Fails with not-found iff the id is unknown, and then changes nothing. Otherwise exactly that session becomes CLOSED with end time now, and `attendance_stopped` is emitted; there is no already-closed guard. |
| AttendanceController.StoppedSessionNotReported | backend/src/controllers/attendanceController.ts:56-58 | A stopped session is no longer reported as the course's active session. |
| AttendanceController.HttpStatus | backend/src/controllers/attendanceController.ts:74-180 | A rejection answers 500 iff the service was unavailable or the record could not be created for a NaN distance; 400 iff the session is not active, the student is already marked or no face is registered; and 403 otherwise. |
| AttendanceController.NetworkCheckSeesAnySharer | backend/src/controllers/attendanceController.ts:155-160 | Once the self-dedup check has passed, the different-student network check rejects iff any record of the session came from the same address. |
| AttendanceController.ClaimAcceptedIff | backend/src/controllers/attendanceController.ts:69-179 | The pipeline accepts a claim iff the independent reference definition `Admissible` holds. |
| AttendanceController.ClaimRejectionOrder | backend/src/controllers/attendanceController.ts:74-180 | Each rejection is given iff its check is the first to fail, in the order liveness, enrollment, self-dedup, device-dedup, face (no template; a mismatch, with the service's reason; no image or no service), network, and last the NaN distance that fails the record's creation. |
| AttendanceController.ClaimEarlyRejections | backend/src/controllers/attendanceController.ts:74-124 | The not-active, not-enrolled, already-marked, device-used and no-template rejections are each given iff that check is the first to fail. |
| AttendanceController.ClaimLateRejections | backend/src/controllers/attendanceController.ts:125-180 | The face-mismatch (with the service's reason), service-unavailable, network-used and NaN-distance rejections, and acceptance, are each given iff that step is the first to fail, or none fails. |
| AttendanceController.FaceVerdictRequired | backend/src/controllers/attendanceController.ts:119-153 | In a FACE session, a missing template, a missing image or any verdict other than verified rejects the claim. |
| AttendanceController.OneClickSkipsFace | backend/src/controllers/attendanceController.ts:119 | In a ONE_CLICK session the outcome does not depend on templates, image or verifier, and the verifier is not consulted. |
| AttendanceController.ConsultedOnlyWithTemplate | backend/src/controllers/attendanceController.ts:119-140 | The verifier is consulted only after the four earlier checks have passed, and only for a student with a template. |
| AttendanceController.GeofenceNeverRejects | backend/src/controllers/attendanceController.ts:102-116 | In a session with faculty coordinates the claimed location never changes the outcome; in any session only whether a location is sent can matter, never its value. |
| AttendanceController.Distance | backend/src/controllers/attendanceController.ts:102-110 | The distance is undefined (NaN) iff the claim sends a location and the session has no faculty location; 0 when no location is sent; `measured` when both are known. |
| AttendanceController.UnlocatedSessionRefusesLocatedClaim | backend/src/controllers/attendanceController.ts:102-176 | In a session without coordinates a claim with a location is always refused, and with a 500 when the same claim without a location would pass. |
| AttendanceController.MarkAttendance | backend/src/controllers/attendanceController.ts:69-180 | A rejection is the pipeline's first failing check and leaves the store unchanged. Success happens iff the claim is admissible, and then exactly one record is appended: PRESENT, the session's course and method, the device, address and location, distance `measured` when a location is sent and 0 otherwise. A NaN distance fails after every check with 500. The verifier is consulted exactly in FACE sessions that reach the face step with a template and an image. |
| AttendanceController.CandidatesSound | backend/src/controllers/attendanceController.ts:196-205 | Every candidate sent to the batch service is an enrolled student with a template, paired with that template's embedding. |
| AttendanceController.CandidatesComplete | backend/src/controllers/attendanceController.ts:196-205 | Every enrolled student with a template is a candidate. |
| AttendanceController.CandidatesDistinct | backend/src/controllers/attendanceController.ts:196-205 | Distinct enrolled students give distinct candidates. |
| AttendanceController.GatherCandidates | backend/src/controllers/attendanceController.ts:196-205 | The collecting loop produces exactly the candidate list. |
| AttendanceController.BulkRecords | backend/src/controllers/attendanceController.ts:234-244 | One record per match, in match order: that student, the new session, the course, PRESENT, FACE, no fingerprint, and the match's similarity noted. |
| AttendanceController.BuildBulkRecords | backend/src/controllers/attendanceController.ts:234-244 | The building loop produces exactly those records. |
| AttendanceController.BulkBatchBreaksDeclaredIndex | backend/src/models/AttendanceRecord.ts:46 | With two or more matches, the batch breaks the device index as declared (not sparse). |
| AttendanceController.BulkRecognize | backend/src/controllers/attendanceController.ts:182-261 | A non-owner is refused. With no candidate, or with the batch service unavailable, nothing is created. Otherwise exactly one CLOSED FACE session with end time now is appended and the records are inserted up to the first duplicate key. On success the summary reports the match count and the detected faces; distinct matches always succeed. |
| AttendanceController.ToggleAttendance | backend/src/controllers/attendanceController.ts:264-297 | A caller who does not own the session is refused and nothing changes. An existing record of the student keeps everything but its new status and an override note. Otherwise a MANUAL record in the session's course is appended. A status that is not PRESENT or ABSENT fails and changes nothing. |
| AttendanceController.ManualRecordBreaksDeclaredIndex | backend/src/models/AttendanceRecord.ts:46 | Under the device index as declared, the MANUAL record the override creates collides with any fingerprint-less record already in the session. |
| FaceController.RegisterFace | backend/src/controllers/faceController.ts:15-61 | A missing or empty image is refused before any service call. A refused registration yields its message and changes nothing. Otherwise the student ends up with exactly one template holding the new embedding, stamped now. |
| FaceController.FaceStatus | backend/src/controllers/faceController.ts:65-72 | Registered iff some stored template belongs to the student. |
| FaceController.RegisteredAfterRegister | backend/src/controllers/faceController.ts:40-50 | After a registration the student reads as registered with the new embedding, and no other student's status changes. |
| Tallies.PercentageOf | backend/src/controllers/reportController.ts:41 | The percentage is zero iff there is no denominator; otherwise it is the part out of the whole. |
| Tallies.CountIsTallyOfAll | backend/src/controllers/courseController.ts:41-45 | The count of a student's PRESENT records in a course is their tally over sessions of every status. |
| Tallies.TallyIsDistinctSessions | backend/src/models/AttendanceRecord.ts:44 | Under the (session, student) index, the tally counts distinct sessions. |
| Tallies.CountSessionsIsMatching | backend/src/controllers/reportController.ts:29-32 | A session count is the number of matching session ids. |
| Tallies.TallyAtMostSessions | backend/src/models/AttendanceRecord.ts:44 | In a consistent store, a student is PRESENT in at most as many of a course's sessions of a given status as the course has. |
| ReportController.Insert | backend/src/controllers/reportController.ts:70-72 | Inserting into an ordered list keeps it ordered and adds exactly the new entry. |
| ReportController.SortByStart | backend/src/controllers/reportController.ts:70-72 | Sorting by start time gives an ordered permutation. |
| ReportController.CourseSessionsExact | backend/src/controllers/reportController.ts:70-72 | The listed sessions are exactly the course's sessions, each once, in the requested start-time order. |
| ReportController.CourseStudentsLines | backend/src/controllers/reportController.ts:14-58 | The report exists iff the course exists. It has one line per enrollment of the course, in enrollment order, for that enrollment's student; the total is the number of CLOSED sessions; attended is the student's PRESENT records of the course; the percentage is attended out of the total, zero iff there is no CLOSED session. |
| ReportController.CourseStudentsEachOnce | backend/src/controllers/reportController.ts:27-46 | Under the enrollment index, the rows are for pairwise distinct students, their students are exactly the course's enrolled students, and there are as many rows as enrolled students. |
| ReportController.ActiveSessionInflatesAttendance | backend/src/controllers/reportController.ts:29-39 | A concrete store in which the report as written gives 2 attended classes out of 1. |
| ReportController.ClosedOnlyAtMostWhole | backend/src/controllers/reportController.ts:29-41 | The corrected report exists exactly when the original does and has the same total, the number of CLOSED sessions. It has one line per enrollment of the course, in enrollment order, for that enrollment's student. Attended is the student's PRESENT records in CLOSED sessions only, and the percentage is attended out of the total. In a consistent store attended is at most the total, so no percentage exceeds 100. |
| ReportController.CourseHistoryOrder | backend/src/controllers/reportController.ts:70-72 | The history has one row per session of the course, each session listed, newest first. |
| ReportController.CourseHistoryCounts | backend/src/controllers/reportController.ts:75-84 | Each row is a session of the course, dated by its start and carrying its attendance method. Its present count is the session's PRESENT records, present plus absent is the enrollment count, and the percentage is present out of enrolled, zero iff nobody is enrolled. |
| ReportController.SessionDetailsAnyRecord | backend/src/controllers/reportController.ts:96-134 | Not found iff the session is unknown, and a failure iff its course is gone. Otherwise the report carries that session and a stored course with the session's course id, and one line per enrollment of the course, in enrollment order, for that enrollment's student, PRESENT iff the student holds any record in the session. |
| ReportController.FindRecordIffHolds | backend/src/controllers/reportController.ts:117-125 | The lookup of a student's record in a session finds one iff the student holds one. |
| ReportController.OverriddenAbsentShownPresent | backend/src/controllers/reportController.ts:117-125 | A concrete store in which a record set to ABSENT is shown as PRESENT. |
| ReportController.RecordedStatusIffPresent | backend/src/models/AttendanceRecord.ts:44 | With one record per student and session, the recorded status is PRESENT iff a PRESENT record exists. |
| ReportController.SessionDetailsByStatusFaithful | backend/src/controllers/reportController.ts:117-125 | The corrected roster exists exactly when the original does. It has the same session, the same course, and the same students line for line. Each line says PRESENT iff the student holds a PRESENT record. |
| ReportController.OverrideReflected | backend/src/controllers/attendanceController.ts:277-280 | After a manual override, the corrected roster shows the new status. |
| ReportController.StudentCourseDetailsOrder | backend/src/controllers/reportController.ts:147-159 | A student's history lists every session of the course once, each line dated by its session's start, oldest first. |
| ReportController.StudentCourseDetailsStatus | backend/src/controllers/reportController.ts:151-163 | Each line is PRESENT iff the student holds any record in that session, and attendance counts as taken iff the session is CLOSED. |
| ReportController.CourseRecordIffHolds | backend/src/controllers/reportController.ts:151-154 | Within a session of the course, the query's course filter excludes no record. |
| ReportController.StudentCourseDetailsByStatusFaithful | backend/src/controllers/reportController.ts:156-163 | The corrected history has the same lines as the original: the same sessions, dates and taken flags, in the same order. Each line says PRESENT iff the student holds a PRESENT record in that session. |
| ReportController.OverriddenAbsentInStudentHistory | backend/src/controllers/reportController.ts:156-163 | A concrete store in which the student's history shows an ABSENT record as PRESENT. |
| CourseController.OwnedCourses | backend/src/controllers/courseController.ts:19 | A faculty member's courses are exactly the courses they own. |
| CourseController.OwnedPositions | backend/src/controllers/courseController.ts:19 | The positions of the owned courses: strictly increasing, in range, owned, none left out. |
| CourseController.OwnedCoursesInOrder | backend/src/controllers/courseController.ts:19 | `find` keeps natural order and multiplicity: the k-th owned course is the course at the k-th owned position. |
| CourseController.GetCoursesByRole | backend/src/controllers/courseController.ts:14-67 | Refused iff the role is neither faculty nor student, and each role gets its own kind of list. |
| CourseController.FacultyCoursesExact | backend/src/controllers/courseController.ts:18-27 | Exactly the owned courses are listed, each once, in natural order (line k is the course at the k-th owned position). Each count is the course's number of enrollments, which under the index is its number of distinct students. |
| CourseController.FacultyCoursesListed | backend/src/controllers/courseController.ts:18-27 | The faculty lines are the owned courses, line k the course at the k-th owned position. |
| CourseController.FacultyLines | backend/src/controllers/courseController.ts:19-24 | A faculty member's k-th line carries their k-th owned course, and there are as many lines as owned courses. |
| CourseController.FacultyCoursesCounts | backend/src/controllers/courseController.ts:22-25 | Under the enrollment index each line's count is the number of distinct students of its course. |
| CourseController.EnrolledCourseStatsSound | backend/src/controllers/courseController.ts:28-60 | Every line of a student's list is an existing course of one of their enrollments, with that course's statistics. |
| CourseController.StatsOfCounts | backend/src/controllers/courseController.ts:36-56 | A student's statistics in a course: the total is every session of the course, attended is their PRESENT records of it, missed is the difference, and the percentage is attended out of the total, zero iff there is no session. |
| CourseController.EnrolledCourseStatsComplete | backend/src/controllers/courseController.ts:31-60 | Every enrollment whose course still exists has a line; only deleted courses are dropped. |
| CourseController.StudentCoursesExact | backend/src/controllers/courseController.ts:28-60 | One line per surviving enrollment of the student, in enrollment order: line k is the course of the k-th of their enrollments whose course exists. Each line names an existing enrolled course. The total counts all its sessions, ACTIVE included; attended is the student's PRESENT records; missed is total minus attended; the percentage is attended out of the total, zero iff the total is zero. |
| CourseController.SurvivingPositions | backend/src/controllers/courseController.ts:31-32 | The positions of the enrollments whose course exists: strictly increasing, in range, none left out. |
| CourseController.EnrolledCourseStatsInOrder | backend/src/controllers/courseController.ts:31-60 | The mapping keeps one line per surviving enrollment, in order: line k is the course and statistics of the k-th surviving enrollment. |
| CourseController.StudentCoursesInOrder | backend/src/controllers/courseController.ts:28-60 | Line k of a student's list is the course of the k-th of their enrollments, in `find` order, whose course exists. |
| CourseController.StudentCoursesLines | backend/src/controllers/courseController.ts:28-60 | Each line is an existing enrolled course. Its total is the course's sessions, attended the student's PRESENT records, missed the difference, and the percentage attended out of the total. No surviving enrollment is dropped. |
| CourseController.MissedNeverNegative | backend/src/controllers/courseController.ts:36-54 | In a consistent store, missed classes are never negative and no percentage exceeds 100. |

## Left out

- The face services' numerics (embedding extraction, cosine similarity, thresholds, anti-spoofing) are left out: they are floating point over foreign image libraries. They are the oracle parameters `verify`, `recognize` and `register`.
- The geofence distance formula and its 50-metre branch are left out: floating point, and the branch has no effect. The distance is the parameter `measured`.
- When a faculty coordinate is unset, the nested location path is still truthy and the formula yields NaN. The model does not compute the formula; it gives the NaN case, when a location is sent, its own rejection: the record's number field refuses NaN, so the creation fails with 500 and nothing is stored.
- Percentages as floats and their `toFixed` formatting are left out; `Tallies.Percentage` keeps the two integer counts and the zero guard.
- Id validation and the 400 answers for malformed ids are left out: ids are natural numbers here, so every id is well formed.
- Users, roles beyond `getCourses`, authentication and `populate` are left out. A course list entry whose student has been deleted (the populated field is null, giving a 500) is not modelled.
- The socket server is left out; the broadcasts are the append-only log `Store.Store.events`.
- Concurrency is left out: requests run one at a time, so the race between the pre-checks and the insert in `markAttendance` is not modelled.
- The VPN, spoofing and developer-mode flags of a record are never written by the core, so they are left out.
- AttendanceController.Claim: the device fingerprint is always present; a claim without one is not modelled.
- AttendanceController.BulkRecognize: a missing or non-string image, and a match without a similarity, both throw and give a 500. These are not modelled: the image is a string and the similarity a real.
- AttendanceController.BulkRecognize: insertion stops at the first duplicate key, as an ordered `insertMany` does. The records stored before it stay, and the error is `DuplicateKey`.
- AttendanceController.ToggleAttendance: the student id is always given. The source's query, with an undefined id, would match any record of the session; that case is not modelled.
- ReportController.SortByStart: equal start times keep their insertion order; the database's order for ties is unspecified.
- FaceController.RegisterFace: an answer from the service without an embedding, where the save fails validation, is not modelled. A reply is either an embedding or a refusal.
- The fraud notes are values (`BulkSimilarity`, `ManualOverride`, `ManualCreated`), not the formatted strings the source writes.
- The admin CRUD, authentication, seeding, routes and the front end are not part of this model.

## Findings

| source | as written | input that shows it | evidently intended | confidence | as-written member | corrected member |
|---|---|---|---|---|---|---|
| backend/src/models/AttendanceRecord.ts:46 | The (session, fingerprint) unique index is not sparse, so records without a fingerprint collide with each other. | A group photo that matches two students; the second record of the batch is a duplicate key. Two manual records in one session collide the same way. | Uniqueness over records that carry a fingerprint only, as the optional field's comment says. | medium, not executed | RecordSchema.DeclaredDeviceIndex, AttendanceController.BulkBatchBreaksDeclaredIndex, AttendanceController.ManualRecordBreaksDeclaredIndex | RecordSchema.UniquePerDevice, RecordSchema.DistinctBatchAccepted, AttendanceController.BulkRecognize, AttendanceController.ToggleAttendance |
| backend/src/controllers/reportController.ts:117-125 | The session roster shows PRESENT when the student has any record, whatever its status. | A record switched to ABSENT by a manual override is still listed as PRESENT. | PRESENT iff the student's record says PRESENT. | high, not executed | ReportController.SessionDetails, ReportController.OverriddenAbsentShownPresent | ReportController.SessionDetailsByStatus, ReportController.SessionDetailsByStatusFaithful |
| backend/src/controllers/reportController.ts:156-163 | A student's course history shows PRESENT when a record exists, whatever its status. | The same overridden ABSENT record appears as PRESENT in the student's history. | PRESENT iff the record says PRESENT. | high, not executed | ReportController.StudentCourseDetails, ReportController.OverriddenAbsentInStudentHistory | ReportController.StudentCourseDetailsByStatus, ReportController.StudentCourseDetailsByStatusFaithful |
| backend/src/controllers/reportController.ts:29-41 | The total counts CLOSED sessions only, but attended counts PRESENT records in sessions of any status. | One CLOSED and one ACTIVE session, with the student PRESENT in both: 2 attended out of 1, so 200 percent. | Attended counted over the same CLOSED sessions, so the percentage is at most 100. | high, not executed | ReportController.CourseStudents, ReportController.ActiveSessionInflatesAttendance | ReportController.CourseStudentsClosedOnly, ReportController.ClosedOnlyAtMostWhole |
