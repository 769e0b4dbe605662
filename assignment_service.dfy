/** Assignments: `add_assignment`, `update_grade`, `get_all_assignments`,
    `get_assignments_by_course`, `get_assignment_by_id`. */
module Assignments {
  import opened Wrappers
  import opened Store
  import opened Sorting

  /** A row of `get_assignments_by_course` (no course name). */
  datatype AssignmentRow = AssignmentRow(id: int, courseId: int, title: string, dueDate: string, grade: Option<Grade>)

  /** A row of `assignments JOIN courses`, as `get_all_assignments` and
      `get_assignment_by_id` return it. */
  datatype AssignmentView = AssignmentView(
    id: int,
    courseId: int,
    courseName: string,
    title: string,
    dueDate: string,
    grade: Option<Grade>)

  function RowOf(id: int, a: Assignment): AssignmentRow
  {
    AssignmentRow(id, a.courseId, a.title, a.dueDate, a.grade)
  }

  function ViewOf(id: int, a: Assignment, c: Course): AssignmentView
  {
    AssignmentView(id, a.courseId, c.name, a.title, a.dueDate, a.grade)
  }

  /** `JOIN courses c ON a.course_id = c.id`: an assignment whose course row is
      missing produces no row. */
  function JoinCourse(courses: map<int, Course>): (int, Assignment) -> Option<AssignmentView>
  {
    (id: int, a: Assignment) => if a.courseId in courses then Some(ViewOf(id, a, courses[a.courseId])) else None
  }

  /** `WHERE course_id = ?`. */
  function OfCourse(courseId: int): (int, Assignment) -> Option<AssignmentRow>
  {
    (id: int, a: Assignment) => if a.courseId == courseId then Some(RowOf(id, a)) else None
  }

  /** `ORDER BY a.due_date` on joined rows (text order). */
  predicate ViewByDueDate(a: AssignmentView, b: AssignmentView)
  {
    StrLe(a.dueDate, b.dueDate)
  }

  /** `ORDER BY due_date` on plain rows (text order). */
  predicate RowByDueDate(a: AssignmentRow, b: AssignmentRow)
  {
    StrLe(a.dueDate, b.dueDate)
  }

  lemma ViewByDueDateIsTotalPreorder()
    ensures TotalPreorder(ViewByDueDate)
  {
    forall a: AssignmentView, b: AssignmentView ensures ViewByDueDate(a, b) || ViewByDueDate(b, a) {
      StrLeTotal(a.dueDate, b.dueDate);
    }
    forall a: AssignmentView, b: AssignmentView, c: AssignmentView | ViewByDueDate(a, b) && ViewByDueDate(b, c)
      ensures ViewByDueDate(a, c)
    {
      StrLeTransitive(a.dueDate, b.dueDate, c.dueDate);
    }
  }

  lemma RowByDueDateIsTotalPreorder()
    ensures TotalPreorder(RowByDueDate)
  {
    forall a: AssignmentRow, b: AssignmentRow ensures RowByDueDate(a, b) || RowByDueDate(b, a) {
      StrLeTotal(a.dueDate, b.dueDate);
    }
    forall a: AssignmentRow, b: AssignmentRow, c: AssignmentRow | RowByDueDate(a, b) && RowByDueDate(b, c)
      ensures RowByDueDate(a, c)
    {
      StrLeTransitive(a.dueDate, b.dueDate, c.dueDate);
    }
  }

  /** `get_all_assignments`: the joined rows sorted by due date. */
  function AllAssignments(assignments: map<int, Assignment>, courses: map<int, Course>): (r: seq<AssignmentView>)
    ensures SortedBy(r, ViewByDueDate)
    ensures multiset(r) == multiset(Select(assignments, JoinCourse(courses)))
  {
    ViewByDueDateIsTotalPreorder();
    Sort(Select(assignments, JoinCourse(courses)), ViewByDueDate)
  }

  /** `get_assignments_by_course`: that course's rows sorted by due date. */
  function AssignmentsByCourse(assignments: map<int, Assignment>, courseId: int): (r: seq<AssignmentRow>)
    ensures SortedBy(r, RowByDueDate)
    ensures multiset(r) == multiset(Select(assignments, OfCourse(courseId)))
  {
    RowByDueDateIsTotalPreorder();
    Sort(Select(assignments, OfCourse(courseId)), RowByDueDate)
  }

  /** `get_assignment_by_id`: the joined row with that id, or None when there is
      no such assignment or its course row is missing. */
  function AssignmentById(assignments: map<int, Assignment>, courses: map<int, Course>, id: int): (r: Option<AssignmentView>)
    ensures r.Some? <==> id in assignments && assignments[id].courseId in courses
    ensures r.Some? ==> r.value.id == id && r.value.courseName == courses[assignments[id].courseId].name
  {
    if id in assignments then JoinCourse(courses)(id, assignments[id]) else None
  }

  /** A joined row is listed exactly when its assignment exists and its course exists. */
  lemma AllAssignmentsMember(assignments: map<int, Assignment>, courses: map<int, Course>, v: AssignmentView)
    ensures v in AllAssignments(assignments, courses) <==>
      && v.id in assignments
      && assignments[v.id].courseId in courses
      && v == ViewOf(v.id, assignments[v.id], courses[assignments[v.id].courseId])
  {
    PermutationKeepsMembers(AllAssignments(assignments, courses), Select(assignments, JoinCourse(courses)));
    JoinCourseMember(assignments, courses, v);
  }

  lemma JoinCourseMember(assignments: map<int, Assignment>, courses: map<int, Course>, v: AssignmentView)
    ensures v in Select(assignments, JoinCourse(courses)) <==>
      && v.id in assignments
      && assignments[v.id].courseId in courses
      && v == ViewOf(v.id, assignments[v.id], courses[assignments[v.id].courseId])
  {
    var f := JoinCourse(courses);
    forall k | k in assignments && f(k, assignments[k]).Some? ensures f(k, assignments[k]).value.id == k {
    }
    SelectKeyed(assignments, f, (x: AssignmentView) => x.id, v);
  }

  /** One joined row per assignment whose course exists. */
  lemma AllAssignmentsCount(assignments: map<int, Assignment>, courses: map<int, Course>)
    ensures |AllAssignments(assignments, courses)| == |set k | k in assignments && assignments[k].courseId in courses|
  {
    PermutationKeepsMembers(AllAssignments(assignments, courses), Select(assignments, JoinCourse(courses)));
    SelectCountWhere(assignments, JoinCourse(courses), set k | k in assignments && assignments[k].courseId in courses);
  }

  /** A row is listed for a course exactly when it is an assignment of that course. */
  lemma AssignmentsByCourseMember(assignments: map<int, Assignment>, courseId: int, r: AssignmentRow)
    ensures r in AssignmentsByCourse(assignments, courseId) <==>
      r.id in assignments && assignments[r.id].courseId == courseId && r == RowOf(r.id, assignments[r.id])
  {
    PermutationKeepsMembers(AssignmentsByCourse(assignments, courseId), Select(assignments, OfCourse(courseId)));
    OfCourseMember(assignments, courseId, r);
  }

  lemma OfCourseMember(assignments: map<int, Assignment>, courseId: int, r: AssignmentRow)
    ensures r in Select(assignments, OfCourse(courseId)) <==>
      r.id in assignments && assignments[r.id].courseId == courseId && r == RowOf(r.id, assignments[r.id])
  {
    var f := OfCourse(courseId);
    forall k | k in assignments && f(k, assignments[k]).Some? ensures f(k, assignments[k]).value.id == k {
    }
    SelectKeyed(assignments, f, (x: AssignmentRow) => x.id, r);
  }

  /** One row per assignment of the course. */
  lemma AssignmentsByCourseCount(assignments: map<int, Assignment>, courseId: int)
    ensures |AssignmentsByCourse(assignments, courseId)| == |set k | k in assignments && assignments[k].courseId == courseId|
  {
    PermutationKeepsMembers(AssignmentsByCourse(assignments, courseId), Select(assignments, OfCourse(courseId)));
    SelectCountWhere(assignments, OfCourse(courseId), set k | k in assignments && assignments[k].courseId == courseId);
  }

  /** Looking an assignment up by id agrees with the joined listing. */
  lemma AssignmentByIdAgreesWithAll(assignments: map<int, Assignment>, courses: map<int, Course>, v: AssignmentView)
    ensures AssignmentById(assignments, courses, v.id) == Some(v) <==> v in AllAssignments(assignments, courses)
  {
    AllAssignmentsMember(assignments, courses, v);
  }

  /** The same assignment with its grade replaced. */
  function WithGrade(a: Assignment, grade: Grade): (r: Assignment)
    ensures r.courseId == a.courseId && r.title == a.title && r.dueDate == a.dueDate
    ensures r.grade == Some(grade)
  {
    a.(grade := Some(grade))
  }

  /** The assignment service over the shared database. */
  class AssignmentService {
    const db: Database

    constructor (db: Database)
      ensures this.db == db
    {
      this.db := db;
    }

    /** `add_assignment`: inserts one row holding exactly the given fields under a fresh
        id and returns that id. Nothing is checked here: not the title, the date, the
        grade's range, nor that the course exists. */
    method AddAssignment(courseId: int, title: string, dueDate: string, grade: Option<Grade>) returns (id: int)
      modifies db
      ensures id == NextId(old(db.assignments))
      ensures id !in old(db.assignments)
      ensures forall k :: k in old(db.assignments) ==> k < id
      ensures db.assignments == old(db.assignments)[id := Assignment(courseId, title, dueDate, grade)]
      ensures db.courses == old(db.courses) && db.sessions == old(db.sessions)
    {
      id := NextId(db.assignments);
      db.assignments := db.assignments[id := Assignment(courseId, title, dueDate, grade)];
    }

    /** `update_grade`: true exactly when the assignment exists; then only its grade
        changes. A missing id changes nothing. */
    method UpdateGrade(id: int, grade: Grade) returns (updated: bool)
      modifies db
      ensures updated <==> id in old(db.assignments)
      ensures updated ==> db.assignments == old(db.assignments)[id := WithGrade(old(db.assignments)[id], grade)]
      ensures !updated ==> db.assignments == old(db.assignments)
      ensures db.assignments.Keys == old(db.assignments).Keys
      ensures db.courses == old(db.courses) && db.sessions == old(db.sessions)
    {
      updated := id in db.assignments;
      if updated {
        db.assignments := db.assignments[id := WithGrade(db.assignments[id], grade)];
      }
    }
  }

  /** After `add_assignment` for an existing course, looking the new id up returns the
      fields just stored; for a course that does not exist it returns None. */
  lemma AddedAssignmentIsFound(
    assignments: map<int, Assignment>, courses: map<int, Course>,
    id: int, courseId: int, title: string, dueDate: string, grade: Option<Grade>)
    ensures var found := AssignmentById(assignments[id := Assignment(courseId, title, dueDate, grade)], courses, id);
      && (courseId in courses ==> found == Some(AssignmentView(id, courseId, courses[courseId].name, title, dueDate, grade)))
      && (courseId !in courses ==> found == None)
  {
  }

  /** After a grade update, looking up any assignment gives what it gave before,
      except that the updated one now carries the new grade. */
  lemma UpdateGradeChangesOnlyThatGrade(
    assignments: map<int, Assignment>, courses: map<int, Course>, id: int, grade: Grade, k: int)
    requires id in assignments
    ensures var before := AssignmentById(assignments, courses, k);
      var after := AssignmentById(assignments[id := WithGrade(assignments[id], grade)], courses, k);
      && after.Some? == before.Some?
      && (after.Some? && k != id ==> after == before)
      && (after.Some? && k == id ==> after.value == before.value.(grade := Some(grade)))
  {
  }
}
