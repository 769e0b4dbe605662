/** Orders used by the ORDER BY clauses of the queries, and the sort that realises them.

    SQLite compares TEXT with the BINARY collation, which is a byte-wise comparison
    of the UTF-8 encoding; for valid text that is the same as comparing code points
    one after the other, so text order is the lexicographic order on `string` below.
    SQL leaves the order of rows with equal keys undefined, so a query result is
    specified only as "sorted by the key and a permutation of the selected rows". */
module Sorting {

  /** Lexicographic order on strings: `a` is a prefix of `b`, or the first
      differing character of `a` is the smaller one. */
  predicate StrLe(a: string, b: string)
    decreases |a|
  {
    if a == [] then true
    else if b == [] then false
    else if a[0] != b[0] then a[0] < b[0]
    else StrLe(a[1..], b[1..])
  }

  /** Strict text order. */
  predicate StrLt(a: string, b: string)
  {
    StrLe(a, b) && a != b
  }

  /** Texts that agree up to position `n` and differ there are ordered by that character. */
  lemma {:induction false} StrLtAtFirstDifference(a: string, b: string, n: nat)
    requires n < |a| && n < |b| && a[..n] == b[..n] && a[n] < b[n]
    ensures StrLt(a, b)
    decreases n
  {
    if n > 0 {
      assert a[0] == a[..n][0] == b[..n][0] == b[0];
      assert a[1..][..n - 1] == a[..n][1..] && b[1..][..n - 1] == b[..n][1..];
      StrLtAtFirstDifference(a[1..], b[1..], n - 1);
    }
  }

  lemma {:induction false} StrLeTotal(a: string, b: string)
    ensures StrLe(a, b) || StrLe(b, a)
    decreases |a|
  {
    if a != [] && b != [] && a[0] == b[0] {
      StrLeTotal(a[1..], b[1..]);
    }
  }

  lemma {:induction false} StrLeTransitive(a: string, b: string, c: string)
    requires StrLe(a, b) && StrLe(b, c)
    ensures StrLe(a, c)
    decreases |a|
  {
    if a != [] && b != [] && c != [] && a[0] == b[0] && b[0] == c[0] {
      StrLeTransitive(a[1..], b[1..], c[1..]);
    }
  }

  lemma {:induction false} StrLeAntisymmetric(a: string, b: string)
    requires StrLe(a, b) && StrLe(b, a)
    ensures a == b
    decreases |a|
  {
    if a != [] {
      StrLeAntisymmetric(a[1..], b[1..]);
      assert a == [a[0]] + a[1..] && b == [b[0]] + b[1..];
    }
  }

  /** `le` relates every pair of values one way or the other. */
  ghost predicate Total<T(!new)>(le: (T, T) -> bool)
  {
    forall a, b :: le(a, b) || le(b, a)
  }

  ghost predicate Transitive<T(!new)>(le: (T, T) -> bool)
  {
    forall a, b, c :: le(a, b) && le(b, c) ==> le(a, c)
  }

  /** The orders an ORDER BY clause may induce: total and transitive, with ties allowed. */
  ghost predicate TotalPreorder<T(!new)>(le: (T, T) -> bool)
  {
    Total(le) && Transitive(le)
  }

  /** Every element is `le` every element after it. */
  predicate SortedBy<T>(s: seq<T>, le: (T, T) -> bool)
  {
    forall i, j :: 0 <= i < j < |s| ==> le(s[i], s[j])
  }

  /** Putting in front an element `le` to every element keeps a sequence sorted. */
  lemma PrependSorted<T>(x: T, s: seq<T>, le: (T, T) -> bool)
    requires SortedBy(s, le)
    requires forall z :: z in s ==> le(x, z)
    ensures SortedBy([x] + s, le)
  {
    var r := [x] + s;
    forall i, j | 0 <= i < j < |r| ensures le(r[i], r[j]) {
      assert r[j] == s[j - 1];
      if i > 0 { assert r[i] == s[i - 1]; }
    }
  }

  /** The first element of a sorted sequence is `le` to every element. */
  lemma HeadIsLeast<T>(s: seq<T>, le: (T, T) -> bool, z: T)
    requires s != [] && SortedBy(s, le) && z in s && z != s[0]
    ensures le(s[0], z)
  {
    var k :| 0 <= k < |s| && s[k] == z;
  }

  /** Inserts `x` before the first element it is `le` to. */
  function Insert<T(!new)>(x: T, s: seq<T>, le: (T, T) -> bool): (r: seq<T>)
    ensures multiset(r) == multiset(s) + multiset{x}
    ensures TotalPreorder(le) && SortedBy(s, le) ==> SortedBy(r, le)
  {
    if s == [] then [x]
    else if le(x, s[0]) then
      assert TotalPreorder(le) && SortedBy(s, le) ==> SortedBy([x] + s, le) by {
        if TotalPreorder(le) && SortedBy(s, le) {
          forall z | z in s ensures le(x, z) {
            if z != s[0] { HeadIsLeast(s, le, z); }
          }
          PrependSorted(x, s, le);
        }
      }
      assert multiset([x] + s) == multiset(s) + multiset{x};
      [x] + s
    else
      var tail := Insert(x, s[1..], le);
      assert TotalPreorder(le) && SortedBy(s, le) ==> SortedBy([s[0]] + tail, le) by {
        if TotalPreorder(le) && SortedBy(s, le) {
          assert SortedBy(s[1..], le);
          forall z | z in tail ensures le(s[0], z) {
            assert z in multiset(tail);
            if z != x {
              assert z in multiset(s[1..]);
              assert z in s;
              if z != s[0] { HeadIsLeast(s, le, z); }
            }
          }
          PrependSorted(s[0], tail, le);
        }
      }
      assert s == [s[0]] + s[1..];
      [s[0]] + tail
  }

  /** Insertion sort: a permutation of `s`, sorted whenever `le` is a total preorder. */
  function Sort<T(!new)>(s: seq<T>, le: (T, T) -> bool): (r: seq<T>)
    ensures multiset(r) == multiset(s)
    ensures TotalPreorder(le) ==> SortedBy(r, le)
  {
    if s == [] then []
    else
      assert s == [s[0]] + s[1..];
      Insert(s[0], Sort(s[1..], le), le)
  }

  /** A permutation keeps length and membership. */
  lemma PermutationKeepsMembers<T>(r: seq<T>, s: seq<T>)
    requires multiset(r) == multiset(s)
    ensures |r| == |s|
    ensures forall x :: x in r <==> x in s
  {
    assert |r| == |multiset(r)| == |multiset(s)| == |s|;
    forall x ensures x in r <==> x in s {
      assert x in r <==> x in multiset(r);
      assert x in s <==> x in multiset(s);
    }
  }
}
