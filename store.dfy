/** The SQLite store behind the services, as an in-memory database: three tables,
    each a map from row id to the row's other columns.

    The connection, `commit`, the row factory and the schema script are not part
    of this model. Two pieces of SQLite behaviour are written out because every
    query depends on them:
    - a full table scan visits rows in ascending row id (`Ids`, `Select`);
    - an INSERT that gives no id gets one more than the largest id in the table,
      or 1 in an empty table (`NextId`), which is what `lastrowid` then reports. */
module Store {
  import opened Wrappers

  /** Grades are stored and compared with NULL, never computed on. */
  type Grade = real

  /** A row of `courses` (without its id). */
  datatype Course = Course(name: string, teacher: string, credits: int)

  /** A row of `assignments` (without its id); `grade` is NULL until graded. */
  datatype Assignment = Assignment(courseId: int, title: string, dueDate: string, grade: Option<Grade>)

  /** A row of `study_sessions` (without its id). */
  datatype StudySession = StudySession(
    courseId: int,
    assignmentId: Option<int>,
    date: string,
    durationMinutes: int,
    notes: Option<string>)

  /** The store: one shared object that every service reads and writes. */
  class Database {
    var courses: map<int, Course>
    var assignments: map<int, Assignment>
    var sessions: map<int, StudySession>

    /** A database whose schema has just been created: all tables empty. */
    constructor ()
      ensures courses == map[] && assignments == map[] && sessions == map[]
    {
      courses, assignments, sessions := map[], map[], map[];
    }
  }

  /** Some element of a non-empty set (used only to show that a minimum exists). */
  lemma NonEmptyHasElement(s: set<int>)
    requires s != {}
    ensures exists x :: x in s
  {
    if forall x :: x !in s { assert false; }
  }

  /** The least element of a non-empty set. */
  lemma {:induction false} Minimum(s: set<int>) returns (k: int)
    requires s != {}
    ensures k in s && forall j :: j in s ==> k <= j
    decreases |s|
  {
    NonEmptyHasElement(s);
    var x :| x in s;
    var rest := s - {x};
    assert forall j :: j in s ==> j == x || j in rest;
    if forall j :: j !in rest {
      k := x;
    } else {
      var m := Minimum(rest);
      k := if x < m then x else m;
    }
  }

  lemma MinimumExists(s: set<int>)
    requires s != {}
    ensures exists k :: k in s && forall j :: j in s ==> k <= j
  {
    var k := Minimum(s);
  }

  /** The least id of a non-empty set of ids. */
  function MinId(s: set<int>): (k: int)
    requires s != {}
    ensures k in s && forall j :: j in s ==> k <= j
  {
    MinimumExists(s);
    var k :| k in s && forall j :: j in s ==> k <= j; k
  }

  /** Strictly ascending: the order of a table scan. */
  predicate Ascending(ids: seq<int>)
  {
    forall i, j :: 0 <= i < j < |ids| ==> ids[i] < ids[j]
  }

  /** The ids of a set in ascending order. */
  function SortedIds(s: set<int>): (r: seq<int>)
    ensures Ascending(r)
    ensures forall k :: k in r <==> k in s
    ensures |r| == |s|
    decreases |s|
  {
    if s == {} then []
    else
      var k := MinId(s);
      var rest := SortedIds(s - {k});
      assert forall j :: j in rest ==> k < j;
      [k] + rest
  }

  /** The row ids of a table, in scan order. */
  function Ids<V>(m: map<int, V>): (r: seq<int>)
    ensures Ascending(r)
    ensures forall k :: k in r <==> k in m
    ensures |r| == |m|
  {
    SortedIds(m.Keys)
  }

  /** Rows of `m` visited in the order of `ids`, each turned into a result row by `f`
      or dropped when `f` gives None: the WHERE/JOIN part of a SELECT. */
  function SelectFrom<V, R>(ids: seq<int>, m: map<int, V>, f: (int, V) -> Option<R>): seq<R>
    requires forall i :: 0 <= i < |ids| ==> ids[i] in m
  {
    if ids == [] then []
    else
      var head := match f(ids[0], m[ids[0]]) case Some(x) => [x] case None => [];
      head + SelectFrom(ids[1..], m, f)
  }

  /** SELECT over a whole table in scan order. */
  function Select<V, R>(m: map<int, V>, f: (int, V) -> Option<R>): seq<R>
  {
    SelectFrom(Ids(m), m, f)
  }

  lemma {:induction false} SelectFromMembers<V, R>(ids: seq<int>, m: map<int, V>, f: (int, V) -> Option<R>, x: R)
    requires forall i :: 0 <= i < |ids| ==> ids[i] in m
    ensures x in SelectFrom(ids, m, f) <==> exists k :: k in ids && f(k, m[k]) == Some(x)
  {
    if ids != [] {
      SelectFromMembers(ids[1..], m, f, x);
      assert forall k :: k in ids <==> k == ids[0] || k in ids[1..];
    }
  }

  /** A row is selected exactly when some row of the table produces it. */
  lemma SelectMembers<V, R>(m: map<int, V>, f: (int, V) -> Option<R>, x: R)
    ensures x in Select(m, f) <==> exists k :: k in m && f(k, m[k]) == Some(x)
  {
    SelectFromMembers(Ids(m), m, f, x);
  }

  /** Membership when every result row carries the id of the row it came from. */
  lemma SelectKeyed<V, R>(m: map<int, V>, f: (int, V) -> Option<R>, key: R -> int, x: R)
    requires forall k :: k in m && f(k, m[k]).Some? ==> key(f(k, m[k]).value) == k
    ensures x in Select(m, f) <==> key(x) in m && f(key(x), m[key(x)]) == Some(x)
  {
    SelectMembers(m, f, x);
  }

  lemma {:induction false} SelectFromCount<V, R>(ids: seq<int>, m: map<int, V>, f: (int, V) -> Option<R>, keep: set<int>)
    requires forall i :: 0 <= i < |ids| ==> ids[i] in m
    requires forall i :: 0 <= i < |ids| ==> (f(ids[i], m[ids[i]]).Some? <==> ids[i] in keep)
    requires forall k :: k in keep ==> k in ids
    requires Ascending(ids)
    ensures |SelectFrom(ids, m, f)| == |keep|
  {
    if ids == [] {
      assert forall k :: k !in keep;
      assert keep == {};
    } else {
      var rest := if ids[0] in keep then keep - {ids[0]} else keep;
      forall k | k in rest ensures k in ids[1..] {
        assert k in ids && k != ids[0];
        var i :| 0 <= i < |ids| && ids[i] == k;
        assert i != 0;
        assert ids[1..][i - 1] == k;
      }
      forall i | 0 <= i < |ids[1..]|
        ensures f(ids[1..][i], m[ids[1..][i]]).Some? <==> ids[1..][i] in rest
      {
        assert ids[1..][i] == ids[i + 1];
        assert ids[0] < ids[i + 1];
      }
      SelectFromCount(ids[1..], m, f, rest);
    }
  }

  /** One result row per id of `keep`, when `keep` names exactly the rows `f` keeps. */
  lemma SelectCountWhere<V, R>(m: map<int, V>, f: (int, V) -> Option<R>, keep: set<int>)
    requires forall k :: k in keep ==> k in m
    requires forall k :: k in m ==> (f(k, m[k]).Some? <==> k in keep)
    ensures |Select(m, f)| == |keep|
  {
    var ids := Ids(m);
    forall i | 0 <= i < |ids| ensures ids[i] in m && (f(ids[i], m[ids[i]]).Some? <==> ids[i] in keep) {
      assert ids[i] in ids;
    }
    forall k | k in keep ensures k in ids {
      assert k in m;
    }
    SelectFromCount(ids, m, f, keep);
  }

  /** Ids are recycled: after the row with the largest id is deleted, the next insert
      gets that id again, and an emptied table starts over at 1. */
  lemma NextIdReusesFreedIds<V>(v: V)
    ensures NextId(map[1 := v, 2 := v] - {2}) == 2
    ensures NextId(map[5 := v] - {5}) == 1
  {
    var m := map[1 := v, 2 := v] - {2};
    assert m.Keys == {1};
    assert MinId({1}) == 1;
    assert {1} - {1} == {};
    assert Ids(m) == [1];
    assert map[5 := v] - {5} == map[];
  }

  /** The id SQLite gives the next inserted row: one past the largest id, 1 if none. */
  function NextId<V>(m: map<int, V>): (id: int)
    ensures id !in m
    ensures forall k :: k in m ==> k < id
    ensures m == map[] ==> id == 1
  {
    var ids := Ids(m);
    if |ids| == 0 then 1
    else
      assert forall k :: k in m ==> k in ids;
      assert forall i :: 0 <= i < |ids| ==> ids[i] <= ids[|ids| - 1];
      ids[|ids| - 1] + 1
  }
}
