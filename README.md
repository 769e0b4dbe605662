# Study Tracker: a Dafny model of the service layer

Study Tracker is a small command-line program for students. It records courses,
their assignments and grades, and study sessions. It answers listing and summary
queries and exports reports as CSV files or spreadsheets. Its service classes
(`CourseService`, `AssignmentService`, `StudySessionService`, `ReportGenerator`)
issue SQL against a SQLite database.

This project models those classes over an abstract in-memory store:

- `Store.Database` holds three tables: courses, assignments and study sessions. Each is a map from row id to record.
- Write operations are methods of the service classes. They change the tables through `modifies db`. Their `ensures` state the complete new state and the value returned.
- Each SQL query (`JOIN`, `LEFT JOIN`, `WHERE`, `GROUP BY ... HAVING`, `ORDER BY`) is a pure function of the tables. A query result is stated as "sorted by the `ORDER BY` key, and a permutation of the matching rows". The order of rows with equal keys is not defined.
- Exports are read-only methods. Each one appends rows to its output in a loop and is proved equal to a pure specification of the sheet: header first, then the formatted rows.

Semantic choices the model makes explicit:

- **Fresh ids.** A new row's id is one more than the largest id in its table, or 1 for an empty table. This is SQLite's choice of rowid for an `INTEGER PRIMARY KEY` declared without `AUTOINCREMENT`; the schema file that decides this is not part of this model, so the rule is an assumption. `lastrowid` is that id.
- **Scans.** Rows are scanned in ascending id order (`Store.Ids`) before any sort.
- **Text order.** Text sorts lexicographically by character (`Sorting.StrLe`). This is SQLite's default `BINARY` collation on UTF-8 text. Dates are stored text, so they sort as text.
- **NULL order.** In ascending order NULL sorts before every text. This is the due date of a course without assignments in the full report.
- **Date check.** `datetime.strptime(date, '%Y-%m-%d')` is modelled by `Dates.IsIsoDate`:
  - a four-digit year, then `-`;
  - a month `1[0-2]`, `0[1-9]` or `[1-9]`, then `-`;
  - a day `3[01]`, `[12][0-9]`, `0[1-9]`, `[1-9]` or a space followed by `[1-9]`;
  - the whole text is consumed;
  - the numbers form a real Gregorian date with a year of at least 1.

  So unpadded dates such as "2025-2-5" pass the check and are stored as given.

What the write and lookup operations do and do not check:

- `add_assignment` and `add_course` validate nothing. The model adds no title, date, grade or course-existence check to them.
- `get_assignment_by_id` joins with `courses`. It returns nothing for an assignment whose course row is missing, even though the assignment row exists.

## Model

| member | source | states |
|---|---|---|
| Store.Database.constructor | studytracker/db.py:86-99 | a store whose schema has just been created (the tables `initialize_schema` makes for a `Database` object) has three empty tables |
| Store.NextId | studytracker/course_service.py:39 | the id `lastrowid` reports is not yet in the table and exceeds every id in it; it is 1 for an empty table |
| Store.NextIdReusesFreedIds | studytracker/course_service.py:39 | under that rule a deleted largest id is handed out again, and an emptied table restarts at 1 |
| Sorting.Sort | studytracker/course_service.py:50 | `ORDER BY`: the result is a permutation of its input, and it is sorted whenever the order is a total preorder |
| Courses.AllCourses | studytracker/course_service.py:43-63 | `get_all_courses` is sorted by name and is a permutation of the course table |
| Courses.AllCoursesCount | studytracker/course_service.py:50-63 | `get_all_courses` lists exactly as many rows as there are courses |
| Courses.AllCoursesMember | studytracker/course_service.py:50-63 | a row is listed iff its id is a course and its name, teacher and credits are that course's |
| Courses.CourseById | studytracker/course_service.py:65-85 | `get_course_by_id` returns a row iff the id is a course, and that row carries the id |
| Courses.CourseByIdAgreesWithAllCourses | studytracker/course_service.py:65-85 | looking a row up by its id gives it back iff `get_all_courses` lists it |
| Courses.CourseService.constructor | studytracker/course_service.py:13-20 | the service works on the given store |
| Courses.CourseService.AddCourse | studytracker/course_service.py:22-41 | adds exactly one course row, with the given fields unchecked, under a fresh id it returns; the other tables are unchanged; looking the id up returns those fields |
| Courses.AddCourseListsNewCourse | studytracker/course_service.py:22-63 | after inserting a course under any id not yet in the table, as `add_course` does, `get_all_courses` lists one row more, and the new course is among them |
| Courses.CourseService.DeleteCourse | studytracker/course_service.py:87-105 | returns true iff the course existed; afterwards no such course exists and the rest is unchanged; a missing id changes nothing |
| Assignments.AllAssignments | studytracker/assignment_service.py:65-97 | `get_all_assignments` is sorted by due date and is a permutation of the assignments joined with their course |
| Assignments.AllAssignmentsMember | studytracker/assignment_service.py:72-97 | a joined row is listed iff its assignment exists, its course exists, and the row carries that course's name and the assignment's fields |
| Assignments.AllAssignmentsCount | studytracker/assignment_service.py:72-97 | one row per assignment whose course exists |
| Assignments.AssignmentsByCourse | studytracker/assignment_service.py:99-127 | `get_assignments_by_course` is sorted by due date and is a permutation of that course's assignments |
| Assignments.AssignmentsByCourseMember | studytracker/assignment_service.py:109-127 | a row is listed iff it is an assignment with that course id, with its stored fields |
| Assignments.AssignmentsByCourseCount | studytracker/assignment_service.py:109-127 | one row per assignment of that course |
| Assignments.AssignmentById | studytracker/assignment_service.py:129-162 | `get_assignment_by_id` returns a row iff the assignment and its course exist, with that id and the course's name |
| Assignments.AssignmentByIdAgreesWithAll | studytracker/assignment_service.py:129-162 | looking a row up by id gives it back iff `get_all_assignments` lists it |
| Assignments.AssignmentService.constructor | studytracker/assignment_service.py:13-20 | the service works on the given store |
| Assignments.AssignmentService.AddAssignment | studytracker/assignment_service.py:22-42 | adds exactly one row with the given course id, title, due date and optional grade, under a fresh id it returns; no field is checked; the other tables are unchanged |
| Assignments.AddedAssignmentIsFound | studytracker/assignment_service.py:129-162 | after an insert under any id, looking that id up returns the stored fields when the course exists, and nothing when it does not |
| Assignments.AssignmentService.UpdateGrade | studytracker/assignment_service.py:44-63 | returns true iff the assignment exists; then only that row's grade changes; a missing id changes nothing |
| Assignments.WithGrade | studytracker/assignment_service.py:55 | `SET grade = ?` replaces the grade with the given one and keeps the course id, title and due date |
| Assignments.UpdateGradeChangesOnlyThatGrade | studytracker/assignment_service.py:55 | after the update, every lookup gives what it gave before, except that the updated row carries the new grade |
| StudySessions.Validate | studytracker/study_session_service.py:11-34 | the checks of `add_session` pass iff the duration is positive, the date passes the date check, the course exists, and a given assignment exists |
| StudySessions.ValidationOrder | studytracker/study_session_service.py:14-34 | the first failing check decides the error: duration, then date, then course, then assignment |
| StudySessions.StudySessionService.constructor | studytracker/study_session_service.py:8-9 | the service works on the given store |
| StudySessions.StudySessionService.AddSession | studytracker/study_session_service.py:11-43 | on a failed check returns that check's error and changes nothing; otherwise adds exactly one row holding the given fields under a fresh id it returns, and changes nothing else |
| StudySessions.AddedSessionIsListed | studytracker/study_session_service.py:36-43 | a session just added, under whatever id, is listed by `get_sessions_by_course` for its course |
| StudySessions.StudySessionService.DeleteSession | studytracker/study_session_service.py:138-147 | returns true iff the session existed; afterwards no such session exists and the rest is unchanged; a missing id changes nothing |
| StudySessions.DeletedSessionIsNotListed | studytracker/study_session_service.py:138-147 | a deleted session is no longer listed by `get_all_sessions` |
| StudySessions.TitleOf | studytracker/study_session_service.py:58 | the LEFT JOIN gives the assignment's title iff the session names an existing assignment, else NULL |
| StudySessions.AllSessions | studytracker/study_session_service.py:45-76 | `get_all_sessions` is sorted by date text, descending (newest first only when every date is zero-padded), and is a permutation of the sessions joined with their course |
| StudySessions.AllSessionsMember | studytracker/study_session_service.py:46-60 | a row is listed iff its session exists and its course exists, with the course's name and the left-joined title; the title is NULL iff the session names no existing assignment |
| StudySessions.SessionsByCourse | studytracker/study_session_service.py:78-107 | `get_sessions_by_course` is sorted by date text, descending (newest first only when every date is zero-padded), and is a permutation of that course's sessions |
| StudySessions.SessionsByCourseMember | studytracker/study_session_service.py:78-93 | a row is listed iff it is a session of that course, with its stored fields and its left-joined title |
| StudySessions.SessionsByCourseCount | studytracker/study_session_service.py:78-93 | one row per session of that course |
| StudySessions.StudySummary | studytracker/study_session_service.py:109-136 | the summary is sorted by total minutes, largest first; it is a permutation of the per-course groups; every total is positive |
| StudySessions.SummarizeGives | studytracker/study_session_service.py:111-123 | a course's group is kept iff the sum of its sessions' minutes is positive, and then it carries the course's id and name, the number of its sessions and that sum |
| StudySessions.StudySummaryMember | studytracker/study_session_service.py:111-123 | an entry is listed iff its course exists, the name is that course's, the count is the number of that course's sessions, the total is the sum of their durations, and that total is positive |
| StudySessions.DurationsCount | studytracker/study_session_service.py:111-123 | a course's group holds one duration per session of that course |
| StudySessions.SummaryListsCoursesWithSessions | studytracker/study_session_service.py:111-123 | when all durations are positive, as `add_session` ensures, a course is listed iff it has a session |
| Dates.ParseDate | studytracker/study_session_service.py:18-21 | a matched date has a year from 0 to 9999, a month from 1 to 12 and a day from 1 to 31 |
| Dates.IsIsoDate | studytracker/study_session_service.py:18-21 | an accepted date names a real calendar day of the years 1 to 9999 |
| Dates.WrittenRoundTrip | studytracker/study_session_service.py:18-21 | every calendar date, written with its month padded or bare and its day zero-padded, bare or space-padded, parses back to its own numbers and passes the check |
| Dates.AcceptedIsWritten | studytracker/study_session_service.py:18-21 | every text that passes the check is one of those writings of a calendar date, so the check accepts exactly them |
| Dates.IsoRoundTrip | studytracker/study_session_service.py:18-21 | every calendar date written `YYYY-MM-DD` parses back to its own numbers and passes the check |
| Dates.LeapDaysAccepted | studytracker/study_session_service.py:18-21 | 2024-02-29 and 2000-02-29 pass the check |
| Dates.NonLeapDaysRejected | studytracker/study_session_service.py:18-21 | 2023-02-29 and 1900-02-29 fail the check |
| Dates.RejectedExamples | studytracker/study_session_service.py:18-21 | trailing text, `/` separators, April 31, month 13 and year 0 fail the check |
| Dates.TextOrderIsNotDateOrder | studytracker/study_session_service.py:59 | two accepted dates whose text order is the reverse of their calendar order |
| Reports.GradeCell | studytracker/reports.py:47 | a grade cell reads "Not graded" iff the grade is NULL; otherwise it carries the grade unchanged |
| Reports.CourseCells | studytracker/reports.py:25 | a courses-export row has one cell under each of the four header columns |
| Reports.CourseCellsKeepEveryColumn | studytracker/reports.py:25 | two course rows are written alike iff they are the same row: the export loses no column |
| Reports.AssignmentCells | studytracker/reports.py:47-49 | an assignments-export row has one cell under each of the five header columns |
| Reports.AssignmentCellsDropOnlyCourseId | studytracker/reports.py:30-49 | two joined rows are written alike iff they differ at most in the course id, the one column the query does not select |
| Reports.ReportCells | studytracker/reports.py:72-76 | a full-report row shows the course's name, teacher and credits; the title, or "No assignments" when the title is NULL or empty; the due date, or "" when it is NULL or empty; and the grade cell |
| Reports.CourseBlock | studytracker/reports.py:62-63 | a course contributes one row to the LEFT JOIN when it has no assignments, and one row per assignment otherwise |
| Reports.LeftJoinMember | studytracker/reports.py:62-63 | a row is in the LEFT JOIN iff it is the NULL-padded row of an existing course that no assignment names, or an assignment of an existing course joined with that course |
| Reports.ReportOrderOfRows | studytracker/reports.py:64 | within a course the NULL-padded row sorts before every joined row; rows of courses with different names sort by name |
| Reports.FullReport | studytracker/reports.py:53-66 | the full-report query is sorted by course name, then due date with NULL first; it is a permutation of the LEFT JOIN |
| Reports.FullReportMember | studytracker/reports.py:53-66 | the full report holds exactly the LEFT JOIN rows: every row comes from the tables, and every row the tables call for is present |
| Reports.FullReportRowCount | studytracker/reports.py:62-66 | the full report has, summed over courses, one row per assignment, or one row when the course has none |
| Reports.CourseWithoutAssignmentsIsReported | studytracker/reports.py:55-66 | a course with no assignments still appears in the full report, as its placeholder row (the LEFT JOIN row with NULL assignment columns) |
| Reports.PlaceholderCells | studytracker/reports.py:72-76 | the placeholder row's last cells read "No assignments", "" and "Not graded" |
| Reports.AssignmentIsReported | studytracker/reports.py:62-66 | every assignment of an existing course appears with its course's name, teacher and credits |
| Reports.CoursesSheetShape | studytracker/reports.py:17-27 | the courses export is its header, then one row per course; every course's row is present and the name column is in order |
| Reports.AssignmentsSheetShape | studytracker/reports.py:29-51 | the assignments export is its header, then one row per assignment whose course exists; every such assignment's row is present and the due-date column is in order |
| Reports.ReportGenerator.constructor | studytracker/reports.py:14-15 | the generator works on the given store; whether the spreadsheet library is present is a parameter |
| Reports.ReportGenerator.AppendCourses | studytracker/reports.py:24-25 | the loop appends exactly one formatted row per course row, in order |
| Reports.ReportGenerator.AppendAssignments | studytracker/reports.py:46-49 | the loop appends exactly one formatted row per joined assignment, in order |
| Reports.ReportGenerator.AppendReport | studytracker/reports.py:71-76 | the loop appends exactly one formatted row per full-report row, in order |
| Reports.ReportGenerator.ExportCoursesToCsv | studytracker/reports.py:17-27 | writes the courses sheet: header, then the formatted rows of `ORDER BY name` |
| Reports.ReportGenerator.ExportAssignmentsToCsv | studytracker/reports.py:29-51 | writes the assignments sheet: header, then the formatted joined rows by due date |
| Reports.ReportGenerator.ExportFullReportToCsv | studytracker/reports.py:53-78 | writes the full report: header, then the formatted LEFT JOIN rows |
| Reports.ReportGenerator.ExportCoursesToExcel | studytracker/reports.py:80-98 | nothing iff the library is missing; otherwise one sheet "Courses" with the courses export |
| Reports.ReportGenerator.ExportAssignmentsToExcel | studytracker/reports.py:100-134 | nothing iff the library is missing; otherwise one sheet "Assignments" with the assignments export |
| Reports.ReportGenerator.ExportFullReportToExcel | studytracker/reports.py:136-175 | nothing iff the library is missing; otherwise the sheets "Courses" and "Assignments" with the courses and assignments exports, not the joined report |

## Left out

- The command-line front end (`cli.py`) is not part of this model: argument parsing, configuration loading and command dispatch are input/output plumbing.
- The SQLite connection, commits, row factory and schema script of `studytracker/db.py` are not modelled. The store is the three maps of `Store.Database`.
- Foreign-key enforcement is not modelled. `Courses.CourseService.DeleteCourse` removes only the course row and keeps the course's assignments and sessions exactly as they were. The connection turns on `PRAGMA foreign_keys = ON`, so depending on the schema file (which is not part of this model) the real program may instead refuse the delete with an `IntegrityError` or cascade it to those rows.
- Chart rendering (`studytracker/plotting.py`) is not part of this model.
- The summary's `total_hours` is not modelled, because it is floating-point rounding of `SUM(duration_minutes) / 60.0`. The summary keeps `session_count` and `total_minutes`.
- Dates.IsIsoDate: treats only ASCII digits as digits. The `strptime` pattern's `\d` also accepts other Unicode decimal digits. The year bounds 1 and 9999 come from the four-digit field and the explicit check that the year is at least 1.
- File output is not modelled: file names, CSV quoting and encoding, the workbook's file layout and every printed message are left out. An export is the sequence of its rows of cells.
- Cells have no NULL variant. A NULL grade, title or due date is replaced before it is written. No other nullable column is exported.
- Grades are real numbers carried unchanged. No arithmetic is done on them in the modelled code.
- Assignments.AssignmentService.UpdateGrade: always stores the given grade. A grade is a real number here, so NaN cannot be passed. SQLite stores a NaN float as NULL, so the real `update_grade(id, float('nan'))`, which the command line's `--grade nan` reaches, leaves the grade NULL and the exports then show "Not graded".
- Integer width is not modelled; ids, credits, course ids and durations are unbounded. In the real program, SQLite integers are 64-bit. Binding a Python integer of 2^63 or more raises `OverflowError`. `SUM` over the durations can fail with "integer overflow".
- Store.NextId: always one past the largest id, or 1 for an empty table. This assumes the id columns are declared without `AUTOINCREMENT`; the schema file is not part of this model. With `AUTOINCREMENT`, SQLite never reuses an id, while under this rule ids are reused (`Store.NextIdReusesFreedIds`): deleting the course with the largest id and adding a new course gives the new one the old id, and because `DeleteCourse` keeps the dependent rows, the new course takes over the old course's assignments and sessions. Once the largest rowid 2^63 - 1 is in use, SQLite instead picks an unused id at random, which need not exceed every id in the table.
- Errors of the database itself, such as a failed write or a locked file, are not modelled. Every statement is taken to succeed.
- Concurrency is not modelled. Each operation runs alone on the store.
