/** Exports: the rows `ReportGenerator` writes to a CSV file or to workbook sheets.

    An export is modelled as the sequence of rows it writes, each row a sequence of
    cells, header first; the file name, CSV quoting and encoding, the workbook's
    file layout and the printed messages are not part of this model. Whether the
    spreadsheet library could be imported is the field `excelAvailable`. */
module Reports {
  import opened Wrappers
  import opened Store
  import opened Sorting
  import C = Courses
  import A = Assignments

  /** One cell as written: a number, a text, or a stored grade carried unchanged. */
  datatype Cell = Int(i: int) | Text(t: string) | Score(g: Grade)

  type Row = seq<Cell>

  /** A named worksheet and its rows. */
  datatype Sheet = Sheet(title: string, rows: seq<Row>)

  const CourseHeader: Row := [Text("ID"), Text("Course Name"), Text("Teacher"), Text("Credits")]
  const AssignmentHeader: Row := [Text("ID"), Text("Course"), Text("Assignment"), Text("Due Date"), Text("Grade")]
  const FullReportHeader: Row :=
    [Text("Course"), Text("Teacher"), Text("Credits"), Text("Assignment"), Text("Due Date"), Text("Grade")]

  const NotGraded := "Not graded"
  const NoAssignments := "No assignments"

  /** The grade column: the grade itself, or "Not graded" for NULL. */
  function GradeCell(g: Option<Grade>): (c: Cell)
    ensures c == Text(NotGraded) <==> g.None?
    ensures c.Score? <==> g.Some?
    ensures c.Score? ==> c.g == g.value
  {
    match g
    case None => Text(NotGraded)
    case Some(x) => Score(x)
  }

  /** A course row: id, name, teacher, credits, one cell under each header column. */
  function CourseCells(r: C.CourseRow): (cells: Row)
    ensures |cells| == |CourseHeader|
  {
    [Int(r.id), Text(r.name), Text(r.teacher), Int(r.credits)]
  }

  /** A joined assignment row: id, course name, title, due date, grade, one cell
      under each header column; the course id is not written. */
  function AssignmentCells(v: A.AssignmentView): (cells: Row)
    ensures |cells| == |AssignmentHeader|
  {
    [Int(v.id), Text(v.courseName), Text(v.title), Text(v.dueDate), GradeCell(v.grade)]
  }

  /** The courses export loses nothing: distinct course rows are written as distinct rows. */
  lemma CourseCellsKeepEveryColumn(a: C.CourseRow, b: C.CourseRow)
    ensures CourseCells(a) == CourseCells(b) <==> a == b
  {
    if CourseCells(a) == CourseCells(b) {
      assert CourseCells(a)[0] == CourseCells(b)[0] && CourseCells(a)[1] == CourseCells(b)[1];
      assert CourseCells(a)[2] == CourseCells(b)[2] && CourseCells(a)[3] == CourseCells(b)[3];
    }
  }

  /** The assignments export writes every column of a joined row except the course id:
      two rows are written alike exactly when they differ at most in that id. */
  lemma AssignmentCellsDropOnlyCourseId(a: A.AssignmentView, b: A.AssignmentView)
    ensures AssignmentCells(a) == AssignmentCells(b) <==> a.(courseId := b.courseId) == b
  {
    if AssignmentCells(a) == AssignmentCells(b) {
      assert AssignmentCells(a)[0] == AssignmentCells(b)[0] && AssignmentCells(a)[1] == AssignmentCells(b)[1];
      assert AssignmentCells(a)[2] == AssignmentCells(b)[2] && AssignmentCells(a)[3] == AssignmentCells(b)[3];
      assert GradeCell(a.grade) == GradeCell(b.grade);
    }
  }

  // ---- The full report: courses LEFT JOIN assignments ----

  /** A row of the full report query; the assignment columns are NULL for a course
      without assignments. */
  datatype ReportRow = ReportRow(
    courseName: string,
    teacher: string,
    credits: int,
    title: Option<string>,
    dueDate: Option<string>,
    grade: Option<Grade>)

  /** The row a course with no assignment contributes. */
  function Placeholder(c: Course): ReportRow
  {
    ReportRow(c.name, c.teacher, c.credits, None, None, None)
  }

  function Joined(c: Course, a: A.AssignmentRow): ReportRow
  {
    ReportRow(c.name, c.teacher, c.credits, Some(a.title), Some(a.dueDate), a.grade)
  }

  /** The rows one course contributes to the LEFT JOIN. */
  function CourseBlock(c: Course, items: seq<A.AssignmentRow>): (r: seq<ReportRow>)
    ensures |r| == if items == [] then 1 else |items|
  {
    if items == [] then [Placeholder(c)]
    else seq(|items|, i requires 0 <= i < |items| => Joined(c, items[i]))
  }

  /** `LEFT JOIN assignments a ON c.id = a.course_id`: the assignments of a course,
      in scan order. */
  function CourseItems(assignments: map<int, Assignment>): int -> seq<A.AssignmentRow>
  {
    k => Select(assignments, A.OfCourse(k))
  }

  /** The LEFT JOIN over the courses with the given ids, course after course, where
      `items` gives the assignments of each course. */
  function LeftJoinFrom(ids: seq<int>, courses: map<int, Course>, items: int -> seq<A.AssignmentRow>): seq<ReportRow>
    requires forall i :: 0 <= i < |ids| ==> ids[i] in courses
  {
    if ids == [] then []
    else CourseBlock(courses[ids[0]], items(ids[0])) + LeftJoinFrom(ids[1..], courses, items)
  }

  function LeftJoin(courses: map<int, Course>, assignments: map<int, Assignment>): seq<ReportRow>
  {
    LeftJoinFrom(Ids(courses), courses, CourseItems(assignments))
  }

  /** SQLite places NULL before every text in ascending order. */
  predicate NullsFirstLe(a: Option<string>, b: Option<string>)
  {
    match (a, b)
    case (None, _) => true
    case (Some(_), None) => false
    case (Some(x), Some(y)) => StrLe(x, y)
  }

  /** `ORDER BY c.name, a.due_date`. */
  predicate ReportOrder(a: ReportRow, b: ReportRow)
  {
    StrLt(a.courseName, b.courseName) || (a.courseName == b.courseName && NullsFirstLe(a.dueDate, b.dueDate))
  }

  lemma NullsFirstLeIsTotalPreorder()
    ensures TotalPreorder(NullsFirstLe)
  {
    forall a: Option<string>, b: Option<string> ensures NullsFirstLe(a, b) || NullsFirstLe(b, a) {
      if a.Some? && b.Some? { StrLeTotal(a.value, b.value); }
    }
    forall a: Option<string>, b: Option<string>, c: Option<string> | NullsFirstLe(a, b) && NullsFirstLe(b, c)
      ensures NullsFirstLe(a, c)
    {
      if a.Some? && b.Some? && c.Some? { StrLeTransitive(a.value, b.value, c.value); }
    }
  }

  lemma StrLtTransitive(a: string, b: string, c: string)
    requires StrLt(a, b) && StrLt(b, c)
    ensures StrLt(a, c)
  {
    StrLeTransitive(a, b, c);
    if a == c { StrLeAntisymmetric(a, b); }
  }

  lemma ReportOrderIsTotalPreorder()
    ensures TotalPreorder(ReportOrder)
  {
    NullsFirstLeIsTotalPreorder();
    forall a: ReportRow, b: ReportRow ensures ReportOrder(a, b) || ReportOrder(b, a) {
      StrLeTotal(a.courseName, b.courseName);
    }
    forall a: ReportRow, b: ReportRow, c: ReportRow | ReportOrder(a, b) && ReportOrder(b, c)
      ensures ReportOrder(a, c)
    {
      if StrLt(a.courseName, b.courseName) && StrLt(b.courseName, c.courseName) {
        StrLtTransitive(a.courseName, b.courseName, c.courseName);
      }
    }
  }

  /** Within one course, the placeholder row (NULL due date) sorts before every joined row,
      and rows of courses with different names sort by name. */
  lemma ReportOrderOfRows(c: Course, a: A.AssignmentRow, x: ReportRow, y: ReportRow)
    ensures ReportOrder(Placeholder(c), Joined(c, a)) && !ReportOrder(Joined(c, a), Placeholder(c))
    ensures x.courseName != y.courseName ==> (ReportOrder(x, y) <==> StrLt(x.courseName, y.courseName))
  {
    if x.courseName != y.courseName && ReportOrder(x, y) {
      assert StrLt(x.courseName, y.courseName);
    }
  }

  /** `export_full_report_*` query: the LEFT JOIN sorted by course name, then due date. */
  function FullReport(courses: map<int, Course>, assignments: map<int, Assignment>): (r: seq<ReportRow>)
    ensures SortedBy(r, ReportOrder)
    ensures multiset(r) == multiset(LeftJoin(courses, assignments))
  {
    ReportOrderIsTotalPreorder();
    Sort(LeftJoin(courses, assignments), ReportOrder)
  }

  /** Python truthiness of a nullable text: neither NULL nor empty. */
  predicate Truthy(s: Option<string>)
  {
    s.Some? && s.value != ""
  }

  /** A full-report row: the title or "No assignments", the due date or "", the grade
      or "Not graded", each chosen by truthiness or NULL-ness as the exporter does. */
  function ReportCells(r: ReportRow): (cells: Row)
    ensures |cells| == |FullReportHeader|
    ensures cells[..3] == [Text(r.courseName), Text(r.teacher), Int(r.credits)]
    ensures !Truthy(r.title) ==> cells[3] == Text(NoAssignments)
    ensures Truthy(r.title) ==> cells[3] == Text(r.title.value)
    ensures !Truthy(r.dueDate) ==> cells[4] == Text("")
    ensures Truthy(r.dueDate) ==> cells[4] == Text(r.dueDate.value)
    ensures cells[5] == GradeCell(r.grade)
  {
    [ Text(r.courseName), Text(r.teacher), Int(r.credits),
      Text(if Truthy(r.title) then r.title.value else NoAssignments),
      Text(if Truthy(r.dueDate) then r.dueDate.value else ""),
      GradeCell(r.grade) ]
  }

  // ---- What each export writes ----

  function MapCourses(rs: seq<C.CourseRow>): (out: seq<Row>)
    ensures |out| == |rs| && forall i :: 0 <= i < |rs| ==> out[i] == CourseCells(rs[i])
  {
    seq(|rs|, i requires 0 <= i < |rs| => CourseCells(rs[i]))
  }

  function MapAssignments(vs: seq<A.AssignmentView>): (out: seq<Row>)
    ensures |out| == |vs| && forall i :: 0 <= i < |vs| ==> out[i] == AssignmentCells(vs[i])
  {
    seq(|vs|, i requires 0 <= i < |vs| => AssignmentCells(vs[i]))
  }

  function MapReport(rs: seq<ReportRow>): (out: seq<Row>)
    ensures |out| == |rs| && forall i :: 0 <= i < |rs| ==> out[i] == ReportCells(rs[i])
  {
    seq(|rs|, i requires 0 <= i < |rs| => ReportCells(rs[i]))
  }

  /** The courses export: header, then one row per course sorted by name. */
  function CoursesSheet(courses: map<int, Course>): seq<Row>
  {
    [CourseHeader] + MapCourses(C.AllCourses(courses))
  }

  /** The assignments export: header, then one row per joined assignment sorted by due date. */
  function AssignmentsSheet(assignments: map<int, Assignment>, courses: map<int, Course>): seq<Row>
  {
    [AssignmentHeader] + MapAssignments(A.AllAssignments(assignments, courses))
  }

  /** The full report export: header, then the sorted LEFT JOIN. */
  function FullReportSheet(courses: map<int, Course>, assignments: map<int, Assignment>): seq<Row>
  {
    [FullReportHeader] + MapReport(FullReport(courses, assignments))
  }

  /** The report generator over the shared database. */
  class ReportGenerator {
    const db: Database
    /** Whether `openpyxl` could be imported. */
    const excelAvailable: bool

    constructor (db: Database, excelAvailable: bool)
      ensures this.db == db && this.excelAvailable == excelAvailable
    {
      this.db := db;
      this.excelAvailable := excelAvailable;
    }

    /** Appends one row per course to what a writer holds so far. */
    method AppendCourses(written: seq<Row>, rs: seq<C.CourseRow>) returns (out: seq<Row>)
      ensures out == written + MapCourses(rs)
    {
      out := written;
      for i := 0 to |rs|
        invariant out == written + MapCourses(rs[..i])
      {
        assert rs[..i + 1] == rs[..i] + [rs[i]];
        out := out + [CourseCells(rs[i])];
      }
      assert rs[..|rs|] == rs;
    }

    /** Appends one row per joined assignment, with "Not graded" for NULL grades. */
    method AppendAssignments(written: seq<Row>, vs: seq<A.AssignmentView>) returns (out: seq<Row>)
      ensures out == written + MapAssignments(vs)
    {
      out := written;
      for i := 0 to |vs|
        invariant out == written + MapAssignments(vs[..i])
      {
        assert vs[..i + 1] == vs[..i] + [vs[i]];
        out := out + [AssignmentCells(vs[i])];
      }
      assert vs[..|vs|] == vs;
    }

    /** Appends one row per full-report row, with its placeholders. */
    method AppendReport(written: seq<Row>, rs: seq<ReportRow>) returns (out: seq<Row>)
      ensures out == written + MapReport(rs)
    {
      out := written;
      for i := 0 to |rs|
        invariant out == written + MapReport(rs[..i])
      {
        assert rs[..i + 1] == rs[..i] + [rs[i]];
        out := out + [ReportCells(rs[i])];
      }
      assert rs[..|rs|] == rs;
    }

    /** `export_courses_to_csv`. */
    method ExportCoursesToCsv() returns (rows: seq<Row>)
      ensures rows == CoursesSheet(db.courses)
    {
      rows := AppendCourses([CourseHeader], C.AllCourses(db.courses));
    }

    /** `export_assignments_to_csv`. */
    method ExportAssignmentsToCsv() returns (rows: seq<Row>)
      ensures rows == AssignmentsSheet(db.assignments, db.courses)
    {
      rows := AppendAssignments([AssignmentHeader], A.AllAssignments(db.assignments, db.courses));
    }

    /** `export_full_report_to_csv`. */
    method ExportFullReportToCsv() returns (rows: seq<Row>)
      ensures rows == FullReportSheet(db.courses, db.assignments)
    {
      rows := AppendReport([FullReportHeader], FullReport(db.courses, db.assignments));
    }

    /** `export_courses_to_excel`: nothing when the library is missing, else one sheet
        "Courses" with the rows of the courses export. */
    method ExportCoursesToExcel() returns (book: Option<seq<Sheet>>)
      ensures book.Some? <==> excelAvailable
      ensures book.Some? ==> book.value == [Sheet("Courses", CoursesSheet(db.courses))]
    {
      if !excelAvailable {
        return None;
      }
      var rows := AppendCourses([CourseHeader], C.AllCourses(db.courses));
      book := Some([Sheet("Courses", rows)]);
    }

    /** `export_assignments_to_excel`: nothing when the library is missing, else one
        sheet "Assignments" with the rows of the assignments export. */
    method ExportAssignmentsToExcel() returns (book: Option<seq<Sheet>>)
      ensures book.Some? <==> excelAvailable
      ensures book.Some? ==> book.value == [Sheet("Assignments", AssignmentsSheet(db.assignments, db.courses))]
    {
      if !excelAvailable {
        return None;
      }
      var rows := AppendAssignments([AssignmentHeader], A.AllAssignments(db.assignments, db.courses));
      book := Some([Sheet("Assignments", rows)]);
    }

    /** `export_full_report_to_excel`: nothing when the library is missing, else two
        sheets, "Courses" and "Assignments", holding the courses and assignments
        exports (not the joined report). */
    method ExportFullReportToExcel() returns (book: Option<seq<Sheet>>)
      ensures book.Some? <==> excelAvailable
      ensures book.Some? ==>
        book.value == [Sheet("Courses", CoursesSheet(db.courses)), Sheet("Assignments", AssignmentsSheet(db.assignments, db.courses))]
    {
      if !excelAvailable {
        return None;
      }
      var courseRows := AppendCourses([CourseHeader], C.AllCourses(db.courses));
      var assignmentRows := AppendAssignments([AssignmentHeader], A.AllAssignments(db.assignments, db.courses));
      book := Some([Sheet("Courses", courseRows), Sheet("Assignments", assignmentRows)]);
    }
  }

  // ---- Properties of the exports ----

  /** The texts in column `col` are in non-decreasing text order down the rows. */
  predicate ColumnSorted(rows: seq<Row>, col: nat)
  {
    forall i, j :: 0 <= i < j < |rows| ==>
      && col < |rows[i]| && col < |rows[j]|
      && rows[i][col].Text? && rows[j][col].Text?
      && StrLe(rows[i][col].t, rows[j][col].t)
  }

  lemma CourseRowsSorted(rs: seq<C.CourseRow>)
    requires SortedBy(rs, C.ByName)
    ensures ColumnSorted(MapCourses(rs), 1)
  {
    var out: seq<Row> := MapCourses(rs);
    forall i, j | 0 <= i < j < |out|
      ensures 1 < |out[i]| && 1 < |out[j]| && out[i][1].Text? && out[j][1].Text? && StrLe(out[i][1].t, out[j][1].t)
    {
      assert C.ByName(rs[i], rs[j]);
    }
  }

  lemma AssignmentRowsSorted(vs: seq<A.AssignmentView>)
    requires SortedBy(vs, A.ViewByDueDate)
    ensures ColumnSorted(MapAssignments(vs), 3)
  {
    var out: seq<Row> := MapAssignments(vs);
    forall i, j | 0 <= i < j < |out|
      ensures 3 < |out[i]| && 3 < |out[j]| && out[i][3].Text? && out[j][3].Text? && StrLe(out[i][3].t, out[j][3].t)
    {
      assert A.ViewByDueDate(vs[i], vs[j]);
    }
  }

  lemma CourseRowPresent(courses: map<int, Course>, k: int)
    requires k in courses
    ensures CourseCells(C.RowOf(k, courses[k])) in MapCourses(C.AllCourses(courses))
  {
    var rs := C.AllCourses(courses);
    C.AllCoursesMember(courses, C.RowOf(k, courses[k]));
    var i :| 0 <= i < |rs| && rs[i] == C.RowOf(k, courses[k]);
    assert MapCourses(rs)[i] == CourseCells(rs[i]);
  }

  lemma AssignmentRowPresent(assignments: map<int, Assignment>, courses: map<int, Course>, k: int)
    requires k in assignments && assignments[k].courseId in courses
    ensures AssignmentCells(A.ViewOf(k, assignments[k], courses[assignments[k].courseId]))
      in MapAssignments(A.AllAssignments(assignments, courses))
  {
    var vs := A.AllAssignments(assignments, courses);
    var v := A.ViewOf(k, assignments[k], courses[assignments[k].courseId]);
    A.AllAssignmentsMember(assignments, courses, v);
    var i :| 0 <= i < |vs| && vs[i] == v;
    assert MapAssignments(vs)[i] == AssignmentCells(vs[i]);
  }

  /** The courses export: the header, then one row per course, with the name column in
      non-decreasing order, and every course's row present. */
  lemma CoursesSheetShape(courses: map<int, Course>)
    ensures var sheet := CoursesSheet(courses);
      && sheet[0] == CourseHeader
      && |sheet| == |courses| + 1
      && ColumnSorted(sheet[1..], 1)
      && (forall k :: k in courses ==> CourseCells(C.RowOf(k, courses[k])) in sheet[1..])
  {
    var out: seq<Row> := MapCourses(C.AllCourses(courses));
    assert CoursesSheet(courses)[1..] == out;
    C.AllCoursesCount(courses);
    CourseRowsSorted(C.AllCourses(courses));
    forall k | k in courses ensures CourseCells(C.RowOf(k, courses[k])) in out {
      CourseRowPresent(courses, k);
    }
  }

  /** The assignments export: the header, then one row per assignment whose course
      exists, with the due-date column in non-decreasing order, and every such
      assignment's row present. */
  lemma AssignmentsSheetShape(assignments: map<int, Assignment>, courses: map<int, Course>)
    ensures var sheet := AssignmentsSheet(assignments, courses);
      && sheet[0] == AssignmentHeader
      && |sheet| == 1 + |set k | k in assignments && assignments[k].courseId in courses|
      && ColumnSorted(sheet[1..], 3)
      && (forall k :: k in assignments && assignments[k].courseId in courses ==>
            AssignmentCells(A.ViewOf(k, assignments[k], courses[assignments[k].courseId])) in sheet[1..])
  {
    var out: seq<Row> := MapAssignments(A.AllAssignments(assignments, courses));
    assert AssignmentsSheet(assignments, courses)[1..] == out;
    A.AllAssignmentsCount(assignments, courses);
    AssignmentRowsSorted(A.AllAssignments(assignments, courses));
    forall k | k in assignments && assignments[k].courseId in courses
      ensures AssignmentCells(A.ViewOf(k, assignments[k], courses[assignments[k].courseId])) in out
    {
      AssignmentRowPresent(assignments, courses, k);
    }
  }

  /** Rows of the full report per course: one for a course without assignments, one
      per assignment otherwise. */
  ghost function AssignmentCount(assignments: map<int, Assignment>, courseId: int): nat
  {
    |set j | j in assignments && assignments[j].courseId == courseId|
  }

  /** The rows a course contributes: one per assignment, or one if it has none. */
  ghost function RowsOfCourse(assignments: map<int, Assignment>, courseId: int): nat
  {
    if AssignmentCount(assignments, courseId) == 0 then 1 else AssignmentCount(assignments, courseId)
  }

  ghost function ExpectedRows(ids: seq<int>, assignments: map<int, Assignment>): nat
  {
    if ids == [] then 0 else RowsOfCourse(assignments, ids[0]) + ExpectedRows(ids[1..], assignments)
  }

  lemma CourseItemsCount(assignments: map<int, Assignment>, k: int)
    ensures |CourseItems(assignments)(k)| == AssignmentCount(assignments, k)
  {
    SelectCountWhere(assignments, A.OfCourse(k), set j | j in assignments && assignments[j].courseId == k);
  }

  lemma {:induction false} LeftJoinFromCount(ids: seq<int>, courses: map<int, Course>, assignments: map<int, Assignment>)
    requires forall i :: 0 <= i < |ids| ==> ids[i] in courses
    ensures |LeftJoinFrom(ids, courses, CourseItems(assignments))| == ExpectedRows(ids, assignments)
  {
    if ids != [] {
      var items := CourseItems(assignments);
      LeftJoinFromCount(ids[1..], courses, assignments);
      CourseItemsCount(assignments, ids[0]);
      assert |CourseBlock(courses[ids[0]], items(ids[0]))| == RowsOfCourse(assignments, ids[0]);
    }
  }

  /** The full report has one row per assignment of each course, and one row for each
      course that has none: the sum over courses of max(1, its assignment count). */
  lemma FullReportRowCount(courses: map<int, Course>, assignments: map<int, Assignment>)
    ensures |FullReport(courses, assignments)| == ExpectedRows(Ids(courses), assignments)
  {
    FullReportLength(courses, assignments);
    LeftJoinCount(courses, assignments);
  }

  lemma FullReportLength(courses: map<int, Course>, assignments: map<int, Assignment>)
    ensures |FullReport(courses, assignments)| == |LeftJoin(courses, assignments)|
  {
    PermutationKeepsMembers(FullReport(courses, assignments), LeftJoin(courses, assignments));
  }

  lemma LeftJoinCount(courses: map<int, Course>, assignments: map<int, Assignment>)
    ensures |LeftJoin(courses, assignments)| == ExpectedRows(Ids(courses), assignments)
  {
    LeftJoinFromCount(Ids(courses), courses, assignments);
  }

  lemma {:induction false} BlockInLeftJoin(
    ids: seq<int>, courses: map<int, Course>, items: int -> seq<A.AssignmentRow>, i: int, x: ReportRow)
    requires forall n :: 0 <= n < |ids| ==> ids[n] in courses
    requires 0 <= i < |ids|
    requires x in CourseBlock(courses[ids[i]], items(ids[i]))
    ensures x in LeftJoinFrom(ids, courses, items)
  {
    if i > 0 {
      assert ids[1..][i - 1] == ids[i];
      BlockInLeftJoin(ids[1..], courses, items, i - 1, x);
    }
  }

  lemma InLeftJoin(courses: map<int, Course>, assignments: map<int, Assignment>, k: int, x: ReportRow)
    requires k in courses
    requires x in CourseBlock(courses[k], Select(assignments, A.OfCourse(k)))
    ensures x in FullReport(courses, assignments)
  {
    BlockInJoin(courses, assignments, k, x);
    PermutationKeepsMembers(FullReport(courses, assignments), LeftJoin(courses, assignments));
  }

  /** Every course is in the full report: a course without assignments as its
      placeholder row. */
  lemma CourseWithoutAssignmentsIsReported(courses: map<int, Course>, assignments: map<int, Assignment>, k: int)
    requires k in courses
    requires forall j :: j in assignments ==> assignments[j].courseId != k
    ensures Placeholder(courses[k]) in FullReport(courses, assignments)
  {
    NoItems(assignments, k);
    assert CourseBlock(courses[k], Select(assignments, A.OfCourse(k))) == [Placeholder(courses[k])];
    InLeftJoin(courses, assignments, k, Placeholder(courses[k]));
  }

  lemma NoItems(assignments: map<int, Assignment>, k: int)
    requires forall j :: j in assignments ==> assignments[j].courseId != k
    ensures Select(assignments, A.OfCourse(k)) == []
  {
    var items := Select(assignments, A.OfCourse(k));
    if items != [] {
      A.OfCourseMember(assignments, k, items[0]);
      assert false;
    }
  }

  /** The placeholder row's assignment cells read "No assignments", "" and "Not graded". */
  lemma PlaceholderCells(c: Course)
    ensures ReportCells(Placeholder(c))[3..] == [Text(NoAssignments), Text(""), Text(NotGraded)]
  {
  }

  /** Every assignment of an existing course appears in the full report with its
      course's name, teacher and credits and its own title, due date and grade. */
  lemma AssignmentIsReported(courses: map<int, Course>, assignments: map<int, Assignment>, j: int)
    requires j in assignments && assignments[j].courseId in courses
    ensures var a := assignments[j];
      ReportRow(courses[a.courseId].name, courses[a.courseId].teacher, courses[a.courseId].credits,
                Some(a.title), Some(a.dueDate), a.grade) in FullReport(courses, assignments)
  {
    var k := assignments[j].courseId;
    JoinedInBlock(courses, assignments, k, j);
    InLeftJoin(courses, assignments, k, Joined(courses[k], A.RowOf(j, assignments[j])));
  }

  // ---- Where each row of the full report comes from ----

  /** `x` is a row the LEFT JOIN makes for course `k`: the course's placeholder when
      no assignment names it, or one of its assignments joined with it. */
  ghost predicate ReportedFor(courses: map<int, Course>, assignments: map<int, Assignment>, k: int, x: ReportRow)
  {
    && k in courses
    && (|| (x == Placeholder(courses[k]) && forall j :: j in assignments ==> assignments[j].courseId != k)
        || exists j :: j in assignments && assignments[j].courseId == k && x == Joined(courses[k], A.RowOf(j, assignments[j])))
  }

  lemma {:induction false} BlockOf(ids: seq<int>, courses: map<int, Course>, items: int -> seq<A.AssignmentRow>, x: ReportRow)
    returns (i: int)
    requires forall n :: 0 <= n < |ids| ==> ids[n] in courses
    requires x in LeftJoinFrom(ids, courses, items)
    ensures 0 <= i < |ids| && x in CourseBlock(courses[ids[i]], items(ids[i]))
  {
    assert ids != [];
    if x in CourseBlock(courses[ids[0]], items(ids[0])) {
      i := 0;
    } else {
      var n := BlockOf(ids[1..], courses, items, x);
      assert ids[1..][n] == ids[n + 1];
      i := n + 1;
    }
  }

  /** The rows of one course's block come from that course and its assignments. */
  lemma BlockFromTables(courses: map<int, Course>, assignments: map<int, Assignment>, k: int, x: ReportRow)
    requires k in courses
    requires x in CourseBlock(courses[k], Select(assignments, A.OfCourse(k)))
    ensures ReportedFor(courses, assignments, k, x)
  {
    var items := Select(assignments, A.OfCourse(k));
    if items == [] {
      forall j | j in assignments ensures assignments[j].courseId != k {
        A.OfCourseMember(assignments, k, A.RowOf(j, assignments[j]));
      }
    } else {
      var block := CourseBlock(courses[k], items);
      var i :| 0 <= i < |block| && block[i] == x;
      A.OfCourseMember(assignments, k, items[i]);
      var j := items[i].id;
      assert j in assignments && assignments[j].courseId == k && x == Joined(courses[k], A.RowOf(j, assignments[j]));
    }
  }

  /** The rows of a course's block are in the LEFT JOIN. */
  lemma BlockInJoin(courses: map<int, Course>, assignments: map<int, Assignment>, k: int, x: ReportRow)
    requires k in courses
    requires x in CourseBlock(courses[k], Select(assignments, A.OfCourse(k)))
    ensures x in LeftJoin(courses, assignments)
  {
    var ids := Ids(courses);
    var i :| 0 <= i < |ids| && ids[i] == k;
    assert CourseItems(assignments)(k) == Select(assignments, A.OfCourse(k));
    BlockInLeftJoin(ids, courses, CourseItems(assignments), i, x);
  }

  /** Every row of the LEFT JOIN comes from the tables. */
  lemma JoinRowFromTables(courses: map<int, Course>, assignments: map<int, Assignment>, x: ReportRow) returns (k: int)
    requires x in LeftJoin(courses, assignments)
    ensures ReportedFor(courses, assignments, k, x)
  {
    var ids := Ids(courses);
    var i := BlockOf(ids, courses, CourseItems(assignments), x);
    k := ids[i];
    assert CourseItems(assignments)(k) == Select(assignments, A.OfCourse(k));
    BlockFromTables(courses, assignments, k, x);
  }

  /** The row a course's block holds for one of its assignments. */
  lemma JoinedInBlock(courses: map<int, Course>, assignments: map<int, Assignment>, k: int, j: int)
    requires k in courses && j in assignments && assignments[j].courseId == k
    ensures Joined(courses[k], A.RowOf(j, assignments[j])) in CourseBlock(courses[k], Select(assignments, A.OfCourse(k)))
  {
    var items := Select(assignments, A.OfCourse(k));
    A.OfCourseMember(assignments, k, A.RowOf(j, assignments[j]));
    var i :| 0 <= i < |items| && items[i] == A.RowOf(j, assignments[j]);
    assert CourseBlock(courses[k], items)[i] == Joined(courses[k], items[i]);
  }

  /** Every row the tables call for is in the LEFT JOIN. */
  lemma ReportedInJoin(courses: map<int, Course>, assignments: map<int, Assignment>, k: int, x: ReportRow)
    requires ReportedFor(courses, assignments, k, x)
    ensures x in LeftJoin(courses, assignments)
  {
    if x == Placeholder(courses[k]) && forall j :: j in assignments ==> assignments[j].courseId != k {
      NoItems(assignments, k);
      assert CourseBlock(courses[k], Select(assignments, A.OfCourse(k))) == [x];
    } else {
      var j :| j in assignments && assignments[j].courseId == k && x == Joined(courses[k], A.RowOf(j, assignments[j]));
      JoinedInBlock(courses, assignments, k, j);
    }
    BlockInJoin(courses, assignments, k, x);
  }

  /** `FROM courses c LEFT JOIN assignments a ON c.id = a.course_id`: a row is in the
      join exactly when it is a course's placeholder and no assignment names the
      course, or an assignment of an existing course joined with that course. */
  lemma LeftJoinMember(courses: map<int, Course>, assignments: map<int, Assignment>, x: ReportRow)
    ensures x in LeftJoin(courses, assignments) <==> exists k :: ReportedFor(courses, assignments, k, x)
  {
    if x in LeftJoin(courses, assignments) {
      var k := JoinRowFromTables(courses, assignments, x);
    }
    if exists k :: ReportedFor(courses, assignments, k, x) {
      var k :| ReportedFor(courses, assignments, k, x);
      ReportedInJoin(courses, assignments, k, x);
    }
  }

  /** The full report holds exactly the rows of the LEFT JOIN: nothing else. */
  lemma FullReportMember(courses: map<int, Course>, assignments: map<int, Assignment>, x: ReportRow)
    ensures x in FullReport(courses, assignments) <==> exists k :: ReportedFor(courses, assignments, k, x)
  {
    PermutationKeepsMembers(FullReport(courses, assignments), LeftJoin(courses, assignments));
    LeftJoinMember(courses, assignments, x);
  }
}
