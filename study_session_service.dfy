/** Study sessions: `add_session`, `delete_session`, `get_all_sessions`,
    `get_sessions_by_course`, `get_study_summary_by_course`. */
module StudySessions {
  import opened Wrappers
  import opened Store
  import opened Sorting
  import opened Dates

  /** The `ValueError`s `add_session` raises, in the order it checks for them. */
  datatype SessionError =
    | NonPositiveDuration
    | BadDateFormat
    | NoSuchCourse(courseId: int)
    | NoSuchAssignment(assignmentId: int)

  /** The first check of `add_session` that fails, or None when all pass:
      duration, then date, then course, then the assignment if one is given. */
  function Validate(
    courses: map<int, Course>, assignments: map<int, Assignment>,
    courseId: int, date: string, durationMinutes: int, assignmentId: Option<int>): (e: Option<SessionError>)
    ensures e.None? <==>
      && durationMinutes > 0
      && IsIsoDate(date)
      && courseId in courses
      && (assignmentId.Some? ==> assignmentId.value in assignments)
  {
    if durationMinutes <= 0 then Some(NonPositiveDuration)
    else if !IsIsoDate(date) then Some(BadDateFormat)
    else if courseId !in courses then Some(NoSuchCourse(courseId))
    else if assignmentId.Some? && assignmentId.value !in assignments then Some(NoSuchAssignment(assignmentId.value))
    else None
  }

  /** A row of `get_all_sessions`: joined with its course, and with its assignment's
      title when there is one (LEFT JOIN). */
  datatype SessionView = SessionView(
    id: int,
    courseId: int,
    courseName: string,
    assignmentId: Option<int>,
    assignmentTitle: Option<string>,
    date: string,
    durationMinutes: int,
    notes: Option<string>)

  /** A row of `get_sessions_by_course` (no course name). */
  datatype CourseSessionRow = CourseSessionRow(
    id: int,
    courseId: int,
    assignmentId: Option<int>,
    assignmentTitle: Option<string>,
    date: string,
    durationMinutes: int,
    notes: Option<string>)

  /** `LEFT JOIN assignments a ON s.assignment_id = a.id`: the title, or NULL when the
      session names no assignment or names one that does not exist. */
  function TitleOf(assignments: map<int, Assignment>, assignmentId: Option<int>): (t: Option<string>)
    ensures t.Some? <==> assignmentId.Some? && assignmentId.value in assignments
    ensures t.Some? ==> t.value == assignments[assignmentId.value].title
  {
    match assignmentId
    case Some(a) => if a in assignments then Some(assignments[a].title) else None
    case None => None
  }

  function ViewOf(id: int, s: StudySession, c: Course, assignments: map<int, Assignment>): SessionView
  {
    SessionView(id, s.courseId, c.name, s.assignmentId, TitleOf(assignments, s.assignmentId),
                s.date, s.durationMinutes, s.notes)
  }

  function CourseRowOf(id: int, s: StudySession, assignments: map<int, Assignment>): CourseSessionRow
  {
    CourseSessionRow(id, s.courseId, s.assignmentId, TitleOf(assignments, s.assignmentId),
                     s.date, s.durationMinutes, s.notes)
  }

  /** `JOIN courses c ON s.course_id = c.id LEFT JOIN assignments ...`. */
  function JoinAll(courses: map<int, Course>, assignments: map<int, Assignment>): (int, StudySession) -> Option<SessionView>
  {
    (id: int, s: StudySession) =>
      if s.courseId in courses then Some(ViewOf(id, s, courses[s.courseId], assignments)) else None
  }

  /** `LEFT JOIN assignments ... WHERE s.course_id = ?`. */
  function OfCourse(assignments: map<int, Assignment>, courseId: int): (int, StudySession) -> Option<CourseSessionRow>
  {
    (id: int, s: StudySession) =>
      if s.courseId == courseId then Some(CourseRowOf(id, s, assignments)) else None
  }

  /** `ORDER BY s.date DESC` (text order). */
  predicate ViewByDateDesc(a: SessionView, b: SessionView)
  {
    StrLe(b.date, a.date)
  }

  predicate RowByDateDesc(a: CourseSessionRow, b: CourseSessionRow)
  {
    StrLe(b.date, a.date)
  }

  lemma ViewByDateDescIsTotalPreorder()
    ensures TotalPreorder(ViewByDateDesc)
  {
    forall a: SessionView, b: SessionView ensures ViewByDateDesc(a, b) || ViewByDateDesc(b, a) {
      StrLeTotal(a.date, b.date);
    }
    forall a: SessionView, b: SessionView, c: SessionView | ViewByDateDesc(a, b) && ViewByDateDesc(b, c)
      ensures ViewByDateDesc(a, c)
    {
      StrLeTransitive(c.date, b.date, a.date);
    }
  }

  lemma RowByDateDescIsTotalPreorder()
    ensures TotalPreorder(RowByDateDesc)
  {
    forall a: CourseSessionRow, b: CourseSessionRow ensures RowByDateDesc(a, b) || RowByDateDesc(b, a) {
      StrLeTotal(a.date, b.date);
    }
    forall a: CourseSessionRow, b: CourseSessionRow, c: CourseSessionRow | RowByDateDesc(a, b) && RowByDateDesc(b, c)
      ensures RowByDateDesc(a, c)
    {
      StrLeTransitive(c.date, b.date, a.date);
    }
  }

  /** `get_all_sessions`: sessions whose course exists, by date text descending (newest
      first only when every date is zero-padded). */
  function AllSessions(sessions: map<int, StudySession>, courses: map<int, Course>, assignments: map<int, Assignment>): (r: seq<SessionView>)
    ensures SortedBy(r, ViewByDateDesc)
    ensures multiset(r) == multiset(Select(sessions, JoinAll(courses, assignments)))
  {
    ViewByDateDescIsTotalPreorder();
    Sort(Select(sessions, JoinAll(courses, assignments)), ViewByDateDesc)
  }

  /** `get_sessions_by_course`: that course's sessions, by date text descending (newest
      first only when every date is zero-padded). */
  function SessionsByCourse(sessions: map<int, StudySession>, assignments: map<int, Assignment>, courseId: int): (r: seq<CourseSessionRow>)
    ensures SortedBy(r, RowByDateDesc)
    ensures multiset(r) == multiset(Select(sessions, OfCourse(assignments, courseId)))
  {
    RowByDateDescIsTotalPreorder();
    Sort(Select(sessions, OfCourse(assignments, courseId)), RowByDateDesc)
  }

  /** A session is listed by `get_all_sessions` exactly when its course exists (inner
      join); its title is NULL exactly when it has no existing assignment (left join). */
  lemma AllSessionsMember(
    sessions: map<int, StudySession>, courses: map<int, Course>, assignments: map<int, Assignment>, v: SessionView)
    ensures v in AllSessions(sessions, courses, assignments) <==>
      && v.id in sessions
      && sessions[v.id].courseId in courses
      && v == ViewOf(v.id, sessions[v.id], courses[sessions[v.id].courseId], assignments)
    ensures v in AllSessions(sessions, courses, assignments) ==>
      (v.assignmentTitle.None? <==> v.assignmentId.None? || v.assignmentId.value !in assignments)
  {
    PermutationKeepsMembers(AllSessions(sessions, courses, assignments), Select(sessions, JoinAll(courses, assignments)));
    JoinAllMember(sessions, courses, assignments, v);
  }

  lemma JoinAllMember(
    sessions: map<int, StudySession>, courses: map<int, Course>, assignments: map<int, Assignment>, v: SessionView)
    ensures v in Select(sessions, JoinAll(courses, assignments)) <==>
      && v.id in sessions
      && sessions[v.id].courseId in courses
      && v == ViewOf(v.id, sessions[v.id], courses[sessions[v.id].courseId], assignments)
  {
    var f := JoinAll(courses, assignments);
    forall k | k in sessions && f(k, sessions[k]).Some? ensures f(k, sessions[k]).value.id == k {
    }
    SelectKeyed(sessions, f, (x: SessionView) => x.id, v);
  }

  /** A row is listed for a course exactly when it is a session of that course. */
  lemma SessionsByCourseMember(
    sessions: map<int, StudySession>, assignments: map<int, Assignment>, courseId: int, r: CourseSessionRow)
    ensures r in SessionsByCourse(sessions, assignments, courseId) <==>
      && r.id in sessions
      && sessions[r.id].courseId == courseId
      && r == CourseRowOf(r.id, sessions[r.id], assignments)
  {
    PermutationKeepsMembers(SessionsByCourse(sessions, assignments, courseId), Select(sessions, OfCourse(assignments, courseId)));
    OfCourseMember(sessions, assignments, courseId, r);
  }

  lemma OfCourseMember(
    sessions: map<int, StudySession>, assignments: map<int, Assignment>, courseId: int, r: CourseSessionRow)
    ensures r in Select(sessions, OfCourse(assignments, courseId)) <==>
      && r.id in sessions
      && sessions[r.id].courseId == courseId
      && r == CourseRowOf(r.id, sessions[r.id], assignments)
  {
    var f := OfCourse(assignments, courseId);
    forall k | k in sessions && f(k, sessions[k]).Some? ensures f(k, sessions[k]).value.id == k {
    }
    SelectKeyed(sessions, f, (x: CourseSessionRow) => x.id, r);
  }

  /** One row per session of the course. */
  lemma SessionsByCourseCount(sessions: map<int, StudySession>, assignments: map<int, Assignment>, courseId: int)
    ensures |SessionsByCourse(sessions, assignments, courseId)| == |set k | k in sessions && sessions[k].courseId == courseId|
  {
    PermutationKeepsMembers(SessionsByCourse(sessions, assignments, courseId), Select(sessions, OfCourse(assignments, courseId)));
    SelectCountWhere(sessions, OfCourse(assignments, courseId), set k | k in sessions && sessions[k].courseId == courseId);
  }

  // ---- get_study_summary_by_course ----

  /** A row of the summary (`total_hours`, a rounded float, is not modelled). */
  datatype CourseSummary = CourseSummary(courseId: int, courseName: string, sessionCount: int, totalMinutes: int)

  function Sum(xs: seq<int>): int
  {
    if xs == [] then 0 else xs[0] + Sum(xs[1..])
  }

  /** The durations of one course's sessions: the group of `LEFT JOIN study_sessions`. */
  function Durations(sessions: map<int, StudySession>, courseId: int): seq<int>
  {
    Select(sessions, DurationIn(courseId))
  }

  function DurationIn(courseId: int): (int, StudySession) -> Option<int>
  {
    (id: int, s: StudySession) => if s.courseId == courseId then Some(s.durationMinutes) else None
  }

  /** `GROUP BY c.id ... HAVING total_minutes > 0`: a course's entry, or None when its
      total is not positive. With no sessions `SUM` is NULL, which fails `> 0` too. */
  function Summarize(sessions: map<int, StudySession>): (int, Course) -> Option<CourseSummary>
  {
    (id: int, c: Course) =>
      var d := Durations(sessions, id);
      if Sum(d) > 0 then Some(CourseSummary(id, c.name, |d|, Sum(d))) else None
  }

  /** `ORDER BY total_minutes DESC`. */
  predicate ByTotalDesc(a: CourseSummary, b: CourseSummary)
  {
    a.totalMinutes >= b.totalMinutes
  }

  /** `get_study_summary_by_course`: one entry per course with a positive total,
      largest total first. */
  function StudySummary(courses: map<int, Course>, sessions: map<int, StudySession>): (r: seq<CourseSummary>)
    ensures SortedBy(r, ByTotalDesc)
    ensures multiset(r) == multiset(Select(courses, Summarize(sessions)))
    ensures forall i :: 0 <= i < |r| ==> r[i].totalMinutes > 0
  {
    var rows := Select(courses, Summarize(sessions));
    assert TotalPreorder(ByTotalDesc);
    var r := Sort(rows, ByTotalDesc);
    forall i | 0 <= i < |r| ensures r[i].totalMinutes > 0 {
      assert r[i] in multiset(rows);
      SummaryRowPositive(courses, sessions, r[i]);
    }
    r
  }

  /** `HAVING total_minutes > 0`: every group kept has a positive total. */
  lemma SummaryRowPositive(courses: map<int, Course>, sessions: map<int, StudySession>, e: CourseSummary)
    requires e in Select(courses, Summarize(sessions))
    ensures e.totalMinutes > 0
  {
    SelectMembers(courses, Summarize(sessions), e);
    var k :| k in courses && Summarize(sessions)(k, courses[k]) == Some(e);
    SummarizeGives(sessions, k, courses[k], e);
  }

  lemma DurationsCount(sessions: map<int, StudySession>, courseId: int)
    ensures |Durations(sessions, courseId)| == |set k | k in sessions && sessions[k].courseId == courseId|
  {
    SelectCountWhere(sessions, DurationIn(courseId), set k | k in sessions && sessions[k].courseId == courseId);
  }

  /** An entry is in the summary exactly when it names an existing course, counts that
      course's sessions, sums their minutes, and the sum is positive. */
  lemma StudySummaryMember(courses: map<int, Course>, sessions: map<int, StudySession>, e: CourseSummary)
    ensures e in StudySummary(courses, sessions) <==>
      && e.courseId in courses
      && e.courseName == courses[e.courseId].name
      && e.sessionCount == |set k | k in sessions && sessions[k].courseId == e.courseId|
      && e.totalMinutes == Sum(Durations(sessions, e.courseId))
      && e.totalMinutes > 0
  {
    PermutationKeepsMembers(StudySummary(courses, sessions), Select(courses, Summarize(sessions)));
    SelectMembers(courses, Summarize(sessions), e);
    DurationsCount(sessions, e.courseId);
    if e in StudySummary(courses, sessions) {
      var k :| k in courses && Summarize(sessions)(k, courses[k]) == Some(e);
      SummarizeGives(sessions, k, courses[k], e);
    } else if e.courseId in courses {
      SummarizeGives(sessions, e.courseId, courses[e.courseId], e);
    }
  }

  lemma SummarizeGives(sessions: map<int, StudySession>, k: int, c: Course, e: CourseSummary)
    ensures Summarize(sessions)(k, c) == Some(e) <==>
      && e.courseId == k
      && e.courseName == c.name
      && e.sessionCount == |Durations(sessions, k)|
      && e.totalMinutes == Sum(Durations(sessions, k))
      && e.totalMinutes > 0
  {
  }

  /** A sum of positive numbers is positive exactly when there is at least one. */
  predicate AllPositive(xs: seq<int>)
  {
    forall i :: 0 <= i < |xs| ==> xs[i] > 0
  }

  lemma {:induction false} SumPositive(xs: seq<int>)
    requires AllPositive(xs)
    ensures Sum(xs) > 0 <==> xs != []
  {
    if xs != [] {
      assert AllPositive(xs[1..]);
      SumPositive(xs[1..]);
      assert Sum(xs[1..]) >= 0;
    }
  }

  lemma {:induction false} DurationsPositive(ids: seq<int>, sessions: map<int, StudySession>, courseId: int)
    requires forall i :: 0 <= i < |ids| ==> ids[i] in sessions
    requires forall k :: k in sessions ==> sessions[k].durationMinutes > 0
    ensures AllPositive(SelectFrom(ids, sessions, DurationIn(courseId)))
  {
    if ids != [] {
      DurationsPositive(ids[1..], sessions, courseId);
      var s := sessions[ids[0]];
      var rest := SelectFrom(ids[1..], sessions, DurationIn(courseId));
      if s.courseId == courseId {
        var d := SelectFrom(ids, sessions, DurationIn(courseId));
        assert d == [s.durationMinutes] + rest;
        assert s.durationMinutes > 0;
        forall i | 0 <= i < |d| ensures d[i] > 0 {
          if i > 0 { assert d[i] == rest[i - 1]; }
        }
      } else {
        assert SelectFrom(ids, sessions, DurationIn(courseId)) == rest;
      }
    }
  }

  /** While every stored duration is positive (which `add_session` guarantees), a
      course is in the summary exactly when it has at least one session. */
  lemma SummaryListsCoursesWithSessions(courses: map<int, Course>, sessions: map<int, StudySession>, courseId: int)
    requires forall k :: k in sessions ==> sessions[k].durationMinutes > 0
    requires courseId in courses
    ensures (exists e :: e in StudySummary(courses, sessions) && e.courseId == courseId) <==>
      (exists k :: k in sessions && sessions[k].courseId == courseId)
  {
    var d := Durations(sessions, courseId);
    DurationsPositive(Ids(sessions), sessions, courseId);
    assert d == SelectFrom(Ids(sessions), sessions, DurationIn(courseId));
    SumPositive(d);
    DurationsCount(sessions, courseId);
    var ks := set k | k in sessions && sessions[k].courseId == courseId;
    var e := CourseSummary(courseId, courses[courseId].name, |d|, Sum(d));
    StudySummaryMember(courses, sessions, e);
    if exists k :: k in sessions && sessions[k].courseId == courseId {
      var k :| k in sessions && sessions[k].courseId == courseId;
      assert k in ks;
    } else {
      assert ks == {};
    }
    forall e' | e' in StudySummary(courses, sessions) && e'.courseId == courseId
      ensures exists k :: k in sessions && sessions[k].courseId == courseId
    {
      StudySummaryMember(courses, sessions, e');
    }
  }

  /** The study-session service over the shared database. */
  class StudySessionService {
    const db: Database

    constructor (db: Database)
      ensures this.db == db
    {
      this.db := db;
    }

    /** `add_session`: runs the checks in order and fails on the first that does not
        hold, inserting nothing; when all hold, inserts exactly one row holding the
        given fields under a fresh id and returns that id. */
    method AddSession(courseId: int, date: string, durationMinutes: int, assignmentId: Option<int>, notes: Option<string>)
      returns (r: Result<int, SessionError>)
      modifies db
      ensures var e := Validate(old(db.courses), old(db.assignments), courseId, date, durationMinutes, assignmentId);
        && (r.Failure? <==> e.Some?)
        && (r.Failure? ==> r.error == e.value && db.sessions == old(db.sessions))
      ensures r.Success? ==>
        && r.value == NextId(old(db.sessions))
        && r.value !in old(db.sessions)
        && (forall k :: k in old(db.sessions) ==> k < r.value)
        && db.sessions == old(db.sessions)[r.value := StudySession(courseId, assignmentId, date, durationMinutes, notes)]
      ensures db.courses == old(db.courses) && db.assignments == old(db.assignments)
    {
      if durationMinutes <= 0 {
        return Failure(NonPositiveDuration);
      }
      if !IsIsoDate(date) {
        return Failure(BadDateFormat);
      }
      if courseId !in db.courses {
        return Failure(NoSuchCourse(courseId));
      }
      if assignmentId.Some? {
        if assignmentId.value !in db.assignments {
          return Failure(NoSuchAssignment(assignmentId.value));
        }
      }
      var id := NextId(db.sessions);
      db.sessions := db.sessions[id := StudySession(courseId, assignmentId, date, durationMinutes, notes)];
      r := Success(id);
    }

    /** `delete_session`: true exactly when a session with that id existed; afterwards
        there is none and every other row is as it was. */
    method DeleteSession(id: int) returns (deleted: bool)
      modifies db
      ensures deleted <==> id in old(db.sessions)
      ensures db.sessions == old(db.sessions) - {id}
      ensures !deleted ==> db.sessions == old(db.sessions)
      ensures db.courses == old(db.courses) && db.assignments == old(db.assignments)
    {
      deleted := id in db.sessions;
      db.sessions := db.sessions - {id};
    }
  }

  /** A session added by `add_session` is listed for its course. */
  lemma AddedSessionIsListed(
    sessions: map<int, StudySession>, assignments: map<int, Assignment>,
    id: int, courseId: int, date: string, durationMinutes: int, assignmentId: Option<int>, notes: Option<string>)
    ensures var after := sessions[id := StudySession(courseId, assignmentId, date, durationMinutes, notes)];
      CourseSessionRow(id, courseId, assignmentId, TitleOf(assignments, assignmentId), date, durationMinutes, notes)
        in SessionsByCourse(after, assignments, courseId)
  {
    var after := sessions[id := StudySession(courseId, assignmentId, date, durationMinutes, notes)];
    SessionsByCourseMember(after, assignments, courseId,
      CourseSessionRow(id, courseId, assignmentId, TitleOf(assignments, assignmentId), date, durationMinutes, notes));
  }

  /** A deleted session is no longer listed. */
  lemma DeletedSessionIsNotListed(
    sessions: map<int, StudySession>, courses: map<int, Course>, assignments: map<int, Assignment>, id: int, v: SessionView)
    ensures v in AllSessions(sessions - {id}, courses, assignments) ==> v.id != id
  {
    AllSessionsMember(sessions - {id}, courses, assignments, v);
  }

  /** The checks of `add_session` in their order: an earlier failure hides later ones. */
  lemma ValidationOrder(
    courses: map<int, Course>, assignments: map<int, Assignment>,
    courseId: int, date: string, durationMinutes: int, assignmentId: Option<int>)
    ensures var e := Validate(courses, assignments, courseId, date, durationMinutes, assignmentId);
      && (durationMinutes <= 0 ==> e == Some(NonPositiveDuration))
      && (durationMinutes > 0 && !IsIsoDate(date) ==> e == Some(BadDateFormat))
      && (durationMinutes > 0 && IsIsoDate(date) && courseId !in courses ==> e == Some(NoSuchCourse(courseId)))
      && (durationMinutes > 0 && IsIsoDate(date) && courseId in courses && assignmentId.Some? && assignmentId.value !in assignments
          ==> e == Some(NoSuchAssignment(assignmentId.value)))
  {
  }
}
