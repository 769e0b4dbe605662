/** Courses: `add_course`, `get_all_courses`, `get_course_by_id`, `delete_course`. */
module Courses {
  import opened Wrappers
  import opened Store
  import opened Sorting

  /** A row of `SELECT * FROM courses`. */
  datatype CourseRow = CourseRow(id: int, name: string, teacher: string, credits: int)

  function RowOf(id: int, c: Course): CourseRow
  {
    CourseRow(id, c.name, c.teacher, c.credits)
  }

  /** `SELECT *`: every course becomes a row. */
  function EveryCourse(): (int, Course) -> Option<CourseRow>
  {
    (id: int, c: Course) => Some(RowOf(id, c))
  }

  /** Every course row, in scan order. */
  function CourseTable(courses: map<int, Course>): seq<CourseRow>
  {
    Select(courses, EveryCourse())
  }

  /** `ORDER BY name`. */
  predicate ByName(a: CourseRow, b: CourseRow)
  {
    StrLe(a.name, b.name)
  }

  lemma ByNameIsTotalPreorder()
    ensures TotalPreorder(ByName)
  {
    forall a: CourseRow, b: CourseRow ensures ByName(a, b) || ByName(b, a) {
      StrLeTotal(a.name, b.name);
    }
    forall a: CourseRow, b: CourseRow, c: CourseRow | ByName(a, b) && ByName(b, c) ensures ByName(a, c) {
      StrLeTransitive(a.name, b.name, c.name);
    }
  }

  /** `get_all_courses`: every course, sorted by name. */
  function AllCourses(courses: map<int, Course>): (r: seq<CourseRow>)
    ensures SortedBy(r, ByName)
    ensures multiset(r) == multiset(CourseTable(courses))
  {
    ByNameIsTotalPreorder();
    Sort(CourseTable(courses), ByName)
  }

  /** `get_course_by_id`: the course with that id, or None. */
  function CourseById(courses: map<int, Course>, id: int): (r: Option<CourseRow>)
    ensures r.Some? <==> id in courses
    ensures r.Some? ==> r.value.id == id
  {
    if id in courses then Some(RowOf(id, courses[id])) else None
  }

  /** `get_all_courses` lists every course once. */
  lemma AllCoursesCount(courses: map<int, Course>)
    ensures |AllCourses(courses)| == |courses|
  {
    PermutationKeepsMembers(AllCourses(courses), CourseTable(courses));
    SelectCountWhere(courses, EveryCourse(), courses.Keys);
  }

  /** A row is listed by `get_all_courses` exactly when it is a course of the table. */
  lemma AllCoursesMember(courses: map<int, Course>, r: CourseRow)
    ensures r in AllCourses(courses) <==> r.id in courses && r == RowOf(r.id, courses[r.id])
  {
    PermutationKeepsMembers(AllCourses(courses), CourseTable(courses));
    CourseTableMember(courses, r);
  }

  lemma CourseTableMember(courses: map<int, Course>, r: CourseRow)
    ensures r in CourseTable(courses) <==> r.id in courses && r == RowOf(r.id, courses[r.id])
  {
    var f := EveryCourse();
    forall k | k in courses && f(k, courses[k]).Some? ensures f(k, courses[k]).value.id == k {
    }
    SelectKeyed(courses, f, (x: CourseRow) => x.id, r);
  }

  /** Looking a course up by id agrees with the full listing. */
  lemma CourseByIdAgreesWithAllCourses(courses: map<int, Course>, r: CourseRow)
    ensures CourseById(courses, r.id) == Some(r) <==> r in AllCourses(courses)
  {
    AllCoursesMember(courses, r);
  }

  /** The course service over the shared database. */
  class CourseService {
    const db: Database

    constructor (db: Database)
      ensures this.db == db
    {
      this.db := db;
    }

    /** `add_course`: inserts one row holding exactly the given fields (none of them is
        checked) under a fresh id, and returns that id. */
    method AddCourse(name: string, teacher: string, credits: int) returns (id: int)
      modifies db
      ensures id == NextId(old(db.courses))
      ensures id !in old(db.courses)
      ensures forall k :: k in old(db.courses) ==> k < id
      ensures db.courses == old(db.courses)[id := Course(name, teacher, credits)]
      ensures CourseById(db.courses, id) == Some(CourseRow(id, name, teacher, credits))
      ensures db.assignments == old(db.assignments) && db.sessions == old(db.sessions)
    {
      id := NextId(db.courses);
      db.courses := db.courses[id := Course(name, teacher, credits)];
    }

    /** `delete_course`: true exactly when a course with that id existed; afterwards
        there is none. Rows of the other tables are left as they are. */
    method DeleteCourse(id: int) returns (deleted: bool)
      modifies db
      ensures deleted <==> id in old(db.courses)
      ensures db.courses == old(db.courses) - {id}
      ensures CourseById(db.courses, id) == None
      ensures !deleted ==> db.courses == old(db.courses)
      ensures db.assignments == old(db.assignments) && db.sessions == old(db.sessions)
    {
      deleted := id in db.courses;
      db.courses := db.courses - {id};
    }
  }

  /** Adding a course under a fresh id lists exactly one more course, and the new one among them. */
  lemma AddCourseListsNewCourse(courses: map<int, Course>, id: int, name: string, teacher: string, credits: int)
    requires id !in courses
    ensures && |AllCourses(courses[id := Course(name, teacher, credits)])| == |AllCourses(courses)| + 1
      && CourseRow(id, name, teacher, credits) in AllCourses(courses[id := Course(name, teacher, credits)])
  {
    var after := courses[id := Course(name, teacher, credits)];
    AllCoursesCount(courses);
    AllCoursesCount(after);
    assert after.Keys == courses.Keys + {id};
    AllCoursesMember(after, CourseRow(id, name, teacher, credits));
  }
}
