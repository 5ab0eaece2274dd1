/**
 * Counting facts shared by the read-side reports: a student's PRESENT
 * records in a course are bounded by the course's sessions, because each
 * record belongs to a session of its course and a student holds at most one
 * record per session.
 */
module Tallies {
  import opened Common
  import opened SessionSchema
  import opened RecordSchema
  import opened Store

  /**
   * A percentage before its floating-point division: zero when there is no
   * denominator, otherwise the fraction's two counts.
   */
  datatype Percentage = Zero | Fraction(part: nat, whole: nat)

  /** The zero-denominator guard of every percentage the reports compute. */
  function PercentageOf(part: nat, whole: nat): (p: Percentage)
    ensures p.Zero? <==> whole == 0
    ensures p.Fraction? ==> p.whole > 0 && p == Fraction(part, whole)
  {
    if whole == 0 then Zero else Fraction(part, whole)
  }

  /** A percentage of at most 100. */
  predicate AtMostWhole(p: Percentage)
  {
    p.Fraction? ==> p.part <= p.whole
  }

  /** The query for a student's PRESENT records in a course. */
  function PresentFilter(student: UserId, c: CourseId): RecordFilter
  {
    RecordFilter(None, Some(student), Some(c), Some(Present), None, None)
  }

  /** A PRESENT record of `student` in course `c` whose session has status `only` (any status when `None`). */
  predicate Tallied(r: Record, ss: seq<Session>, student: UserId, c: CourseId, only: Option<SessionStatus>)
  {
    && r.studentId == student && r.courseId == c && r.status == Present
    && (only.Some? ==> r.sessionId < |ss| && ss[r.sessionId].status == only.value)
  }

  /** How many records are tallied. */
  function Tally(rs: seq<Record>, ss: seq<Session>, student: UserId, c: CourseId, only: Option<SessionStatus>): nat
  {
    if |rs| == 0 then 0
    else Tally(rs[..|rs| - 1], ss, student, c, only) + (if Tallied(rs[|rs| - 1], ss, student, c, only) then 1 else 0)
  }

  /** The query count of a student's PRESENT records is the tally over sessions of every status. */
  lemma {:induction false} CountIsTallyOfAll(rs: seq<Record>, ss: seq<Session>, student: UserId, c: CourseId)
    ensures CountRecords(rs, PresentFilter(student, c)) == Tally(rs, ss, student, c, None)
    decreases |rs|
  {
    if |rs| > 0 {
      CountIsTallyOfAll(rs[..|rs| - 1], ss, student, c);
    }
  }

  /** The sessions of the tallied records. */
  function TalliedSessions(rs: seq<Record>, ss: seq<Session>, student: UserId, c: CourseId, only: Option<SessionStatus>): set<SessionId>
  {
    set i | 0 <= i < |rs| && Tallied(rs[i], ss, student, c, only) :: rs[i].sessionId
  }

  /** Appending one record adds its session exactly when it is tallied. */
  lemma {:induction false} TalliedSessionsSnoc(rs: seq<Record>, ss: seq<Session>, student: UserId, c: CourseId,
                                               only: Option<SessionStatus>)
    requires |rs| > 0
    ensures var n := |rs| - 1;
      TalliedSessions(rs, ss, student, c, only) ==
        TalliedSessions(rs[..n], ss, student, c, only) + (if Tallied(rs[n], ss, student, c, only) then {rs[n].sessionId} else {})
  {
    var n := |rs| - 1;
    assert forall i :: 0 <= i < n ==> rs[..n][i] == rs[i];
  }

  /** One record per student and session: the tally counts distinct sessions. */
  lemma {:induction false} TallyIsDistinctSessions(rs: seq<Record>, ss: seq<Session>, student: UserId, c: CourseId,
                                                   only: Option<SessionStatus>)
    requires UniquePerStudent(rs)
    ensures Tally(rs, ss, student, c, only) == |TalliedSessions(rs, ss, student, c, only)|
    decreases |rs|
  {
    if |rs| > 0 {
      var n := |rs| - 1;
      var init, last := rs[..n], rs[n];
      assert forall i :: 0 <= i < n ==> init[i] == rs[i];
      TallyIsDistinctSessions(init, ss, student, c, only);
      TalliedSessionsSnoc(rs, ss, student, c, only);
      if Tallied(last, ss, student, c, only) {
        forall i | 0 <= i < n && Tallied(init[i], ss, student, c, only)
          ensures init[i].sessionId != last.sessionId
        {
          assert rs[i].studentId == rs[n].studentId;
        }
        assert last.sessionId !in TalliedSessions(init, ss, student, c, only);
      }
    } else {
      assert TalliedSessions(rs, ss, student, c, only) == {};
    }
  }

  /** The ids of the sessions a filter matches. */
  function MatchingSessions(ss: seq<Session>, f: SessionFilter): set<SessionId>
  {
    set i | 0 <= i < |ss| && SessionSchema.Matches(f, ss[i])
  }

  /** A session count is the number of matching session ids. */
  lemma {:induction false} CountSessionsIsMatching(ss: seq<Session>, f: SessionFilter)
    ensures CountSessions(ss, f) == |MatchingSessions(ss, f)|
    decreases |ss|
  {
    if |ss| > 0 {
      var n := |ss| - 1;
      assert forall i :: 0 <= i < n ==> ss[..n][i] == ss[i];
      CountSessionsIsMatching(ss[..n], f);
      if SessionSchema.Matches(f, ss[n]) {
        assert MatchingSessions(ss, f) == MatchingSessions(ss[..n], f) + {n};
      } else {
        assert MatchingSessions(ss, f) == MatchingSessions(ss[..n], f);
      }
    } else {
      assert MatchingSessions(ss, f) == {};
    }
  }

  /**
   * In a consistent store a student is PRESENT in no more of a course's
   * sessions (of the given status) than the course has.
   */
  lemma {:induction false} TallyAtMostSessions(db: Db, student: UserId, c: CourseId, only: Option<SessionStatus>)
    requires Consistent(db)
    ensures Tally(db.records, db.sessions, student, c, only) <= CountSessions(db.sessions, SessionFilter(Some(c), only))
  {
    TallyIsDistinctSessions(db.records, db.sessions, student, c, only);
    CountSessionsIsMatching(db.sessions, SessionFilter(Some(c), only));
    var tallied := TalliedSessions(db.records, db.sessions, student, c, only);
    var matching := MatchingSessions(db.sessions, SessionFilter(Some(c), only));
    forall sid | sid in tallied
      ensures sid in matching
    {
      var i :| 0 <= i < |db.records| && Tallied(db.records[i], db.sessions, student, c, only) && db.records[i].sessionId == sid;
      assert RecordBelongs(db.records[i], db.sessions);
    }
    SubsetCardinality(tallied, matching);
  }

  lemma {:induction false} SubsetCardinality(a: set<SessionId>, b: set<SessionId>)
    requires a <= b
    ensures |a| <= |b|
  {
    assert |b| == |a| + |b - a|;
  }
}
