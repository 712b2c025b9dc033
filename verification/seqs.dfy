/** Sequence utilities shared by the listings: filtering a query result,
    ordering it newest first, and enumerating a set of ids. */
module Seqs {

  /** No element occurs twice. */
  predicate NoDup<T(==)>(s: seq<T>)
  {
    forall i, j :: 0 <= i < j < |s| ==> s[i] != s[j]
  }

  /** `s` is ordered by `created` descending, newest first
      (Django's `ordering = ['-created_at']`). */
  predicate NewestFirst<T>(s: seq<T>, created: T -> int)
  {
    forall i, j :: 0 <= i < j < |s| ==> created(s[i]) >= created(s[j])
  }

  /** The elements of `s` satisfying `p`, in their original order
      (a queryset `.filter(...)`). */
  function Filter<T(==,!new)>(s: seq<T>, p: T -> bool): (r: seq<T>)
    ensures forall x :: x in r <==> x in s && p(x)
    ensures |r| <= |s|
    ensures NoDup(s) ==> NoDup(r)
  {
    if |s| == 0 then []
    else if p(s[0]) then [s[0]] + Filter(s[1..], p)
    else Filter(s[1..], p)
  }

  /** Filtering keeps the relative order of the kept elements, so a
      newest-first sequence stays newest first. */
  lemma {:induction false} FilterKeepsOrder<T(!new)>(s: seq<T>, p: T -> bool, created: T -> int)
    requires NewestFirst(s, created)
    ensures NewestFirst(Filter(s, p), created)
  {
    if |s| > 0 {
      var tail := s[1..];
      assert NewestFirst(tail, created) by {
        forall i, j | 0 <= i < j < |tail|
          ensures created(tail[i]) >= created(tail[j])
        {
          assert tail[i] == s[i + 1] && tail[j] == s[j + 1];
        }
      }
      FilterKeepsOrder(tail, p, created);
      if p(s[0]) {
        var rest := Filter(tail, p);
        forall k | 0 <= k < |rest|
          ensures created(s[0]) >= created(rest[k])
        {
          assert rest[k] in tail;
          var j :| 0 <= j < |tail| && tail[j] == rest[k];
          assert s[j + 1] == rest[k];
        }
        PrependNewestFirst(s[0], rest, created);
      }
    }
  }

  /** Two complementary filters split `s`: every element lands in exactly
      one of them, so their lengths add up to `|s|`. */
  lemma {:induction false} FilterPartition<T(!new)>(s: seq<T>, p: T -> bool, q: T -> bool)
    requires forall x :: x in s ==> (q(x) <==> !p(x))
    ensures |Filter(s, p)| + |Filter(s, q)| == |s|
  {
    if |s| > 0 {
      assert forall x :: x in s[1..] ==> x in s;
      FilterPartition(s[1..], p, q);
    }
  }

  /** The distinct elements of a duplicate-free sequence number exactly its length. */
  lemma {:induction false} NoDupCardinality<T(!new)>(s: seq<T>)
    requires NoDup(s)
    ensures |set x | x in s| == |s|
  {
    if |s| > 0 {
      var tail := s[1..];
      TailNoDup(s);
      NoDupCardinality(tail);
      assert (set x | x in s) == (set x | x in tail) + {s[0]} by {
        assert s == [s[0]] + tail;
      }
    }
  }

  /** A duplicate-free sequence listing exactly the members of `S` has `|S|` elements. */
  lemma SameElementsSameSize<T(!new)>(s: seq<T>, S: set<T>)
    requires NoDup(s)
    requires forall x :: x in s <==> x in S
    ensures |s| == |S|
  {
    NoDupCardinality(s);
    assert (set x | x in s) == S;
  }

  /** Putting an element at least as new as all of `s` in front keeps `s` newest first. */
  lemma PrependNewestFirst<T>(x: T, s: seq<T>, created: T -> int)
    requires NewestFirst(s, created)
    requires forall k :: 0 <= k < |s| ==> created(x) >= created(s[k])
    ensures NewestFirst([x] + s, created)
  {
    var r := [x] + s;
    forall i, j | 0 <= i < j < |r|
      ensures created(r[i]) >= created(r[j])
    {
      if i == 0 {
        assert r[j] == s[j - 1];
      } else {
        assert r[i] == s[i - 1] && r[j] == s[j - 1];
      }
    }
  }

  /** Inserts `x` into a newest-first sequence after every element at least as new. */
  function InsertNewestFirst<T(==,!new)>(x: T, s: seq<T>, created: T -> int): (r: seq<T>)
    requires NewestFirst(s, created)
    ensures NewestFirst(r, created)
    ensures multiset(r) == multiset(s) + multiset{x}
    ensures forall y :: y in r <==> y == x || y in s
  {
    if |s| == 0 || created(x) >= created(s[0]) then
      PrependNewestFirst(x, s, created);
      [x] + s
    else
      var tail := s[1..];
      assert s == [s[0]] + tail;
      var rest := InsertNewestFirst(x, tail, created);
      assert forall k :: 0 <= k < |rest| ==> created(s[0]) >= created(rest[k]) by {
        forall k | 0 <= k < |rest|
          ensures created(s[0]) >= created(rest[k])
        {
          assert rest[k] in rest;
          if rest[k] != x {
            var j :| 0 <= j < |tail| && tail[j] == rest[k];
            assert s[j + 1] == rest[k];
          }
        }
      }
      PrependNewestFirst(s[0], rest, created);
      [s[0]] + rest
  }

  /** Insertion sort by `created`, newest first: a permutation of `s`. */
  function SortNewestFirst<T(==,!new)>(s: seq<T>, created: T -> int): (r: seq<T>)
    ensures NewestFirst(r, created)
    ensures multiset(r) == multiset(s)
    ensures forall y :: y in r <==> y in s
    ensures |r| == |s|
  {
    if |s| == 0 then []
    else
      assert s == [s[0]] + s[1..];
      InsertNewestFirst(s[0], SortNewestFirst(s[1..], created), created)
  }

  /** The tail of a duplicate-free sequence is duplicate-free and lacks its head. */
  lemma TailNoDup<T>(s: seq<T>)
    requires |s| > 0 && NoDup(s)
    ensures NoDup(s[1..]) && s[0] !in s[1..]
  {
    var tail := s[1..];
    forall i, j | 0 <= i < j < |tail|
      ensures tail[i] != tail[j]
    {
      assert tail[i] == s[i + 1] && tail[j] == s[j + 1];
    }
    forall k | 0 <= k < |tail|
      ensures tail[k] != s[0]
    {
      assert tail[k] == s[k + 1];
    }
  }

  /** Prepending an element absent from a duplicate-free sequence keeps it duplicate-free. */
  lemma ConsNoDup<T>(x: T, s: seq<T>)
    requires x !in s && NoDup(s)
    ensures NoDup([x] + s)
  {
    var r := [x] + s;
    forall i, j | 0 <= i < j < |r|
      ensures r[i] != r[j]
    {
      assert r[j] == s[j - 1];
      if i > 0 {
        assert r[i] == s[i - 1];
      }
    }
  }

  /** Inserting a new element into a duplicate-free sequence keeps it duplicate-free. */
  lemma {:induction false} InsertKeepsNoDup<T(!new)>(x: T, s: seq<T>, created: T -> int)
    requires NewestFirst(s, created)
    requires x !in s && NoDup(s)
    ensures NoDup(InsertNewestFirst(x, s, created))
  {
    if |s| == 0 || created(x) >= created(s[0]) {
      ConsNoDup(x, s);
    } else {
      var tail := s[1..];
      assert s == [s[0]] + tail;
      TailNoDup(s);
      InsertKeepsNoDup(x, tail, created);
      ConsNoDup(s[0], InsertNewestFirst(x, tail, created));
    }
  }

  /** Sorting a duplicate-free sequence yields a duplicate-free sequence. */
  lemma {:induction false} SortKeepsNoDup<T(!new)>(s: seq<T>, created: T -> int)
    requires NoDup(s)
    ensures NoDup(SortNewestFirst(s, created))
  {
    if |s| > 0 {
      var tail := s[1..];
      assert s == [s[0]] + tail;
      TailNoDup(s);
      SortKeepsNoDup(tail, created);
      InsertKeepsNoDup(s[0], SortNewestFirst(tail, created), created);
    }
  }

  /** `m` is the least member of `s`. */
  predicate IsLeast(m: int, s: set<int>)
  {
    m in s && forall y :: y in s ==> m <= y
  }

  /** The least member of a non-empty set of integers. */
  lemma {:induction false} Least(s: set<int>) returns (m: int)
    requires s != {}
    ensures IsLeast(m, s)
    decreases |s|
  {
    if forall z :: z !in s {
      assert false;
    }
    var x :| x in s;
    var rest := s - {x};
    if rest == {} {
      assert s == {x};
      m := x;
    } else {
      var m' := Least(rest);
      assert forall y :: y in s ==> y == x || y in rest;
      m := if x < m' then x else m';
    }
  }

  /** Some member of a non-empty set of integers is its least. */
  lemma HasLeast(s: set<int>)
    requires s != {}
    ensures exists m :: IsLeast(m, s)
  {
    var m := Least(s);
  }

  /** The members of `s` in ascending order: an enumeration of a set of ids. */
  function Ascending(s: set<int>): (r: seq<int>)
    ensures forall x :: x in r <==> x in s
    ensures forall i, j :: 0 <= i < j < |r| ==> r[i] < r[j]
    ensures |r| == |s|
    decreases |s|
  {
    if s == {} then []
    else
      HasLeast(s);
      var m :| IsLeast(m, s);
      var rest := Ascending(s - {m});
      assert forall k :: 0 <= k < |rest| ==> m < rest[k] by {
        forall k | 0 <= k < |rest|
          ensures m < rest[k]
        {
          assert rest[k] in rest;
        }
      }
      PrependSmallest(m, rest);
      [m] + rest
  }

  /** Putting a value below every element in front of a strictly increasing
      sequence keeps it strictly increasing. */
  lemma PrependSmallest(m: int, s: seq<int>)
    requires forall i, j :: 0 <= i < j < |s| ==> s[i] < s[j]
    requires forall k :: 0 <= k < |s| ==> m < s[k]
    ensures forall i, j :: 0 <= i < j < |[m] + s| ==> ([m] + s)[i] < ([m] + s)[j]
  {
    var r := [m] + s;
    forall i, j | 0 <= i < j < |r|
      ensures r[i] < r[j]
    {
      assert r[j] == s[j - 1];
      if i > 0 {
        assert r[i] == s[i - 1];
      }
    }
  }
}
