/** Sorting by reading order of a key, as the source's `sorted(..., key=...)`
    calls do, and the repetition-free sequences the engine works with. */
module Sorting {
  import opened Intersections

  /** No element occurs twice. */
  predicate Distinct<T(==)>(s: seq<T>) {
    forall j, k :: 0 <= j < k < |s| ==> s[j] != s[k]
  }

  /** Two repetition-free sequences with no common member concatenate to a
      repetition-free sequence. */
  lemma DistinctConcat<T>(a: seq<T>, b: seq<T>)
    requires Distinct(a) && Distinct(b)
    requires forall x :: x in a ==> x !in b
    ensures Distinct(a + b)
  {
    forall j, k | 0 <= j < k < |a + b| ensures (a + b)[j] != (a + b)[k] {
      if k < |a| {
        assert (a + b)[j] == a[j] && (a + b)[k] == a[k];
      } else if j >= |a| {
        assert (a + b)[j] == b[j - |a|] && (a + b)[k] == b[k - |a|];
      } else {
        assert (a + b)[j] == a[j] && (a + b)[k] == b[k - |a|];
        assert a[j] in a;
      }
    }
  }

  /** Non-decreasing in the reading order of the key. */
  predicate SortedBy<T>(s: seq<T>, key: T -> Intersection) {
    forall j, k :: 0 <= j < k < |s| ==> !Before(key(s[k]), key(s[j]))
  }

  /** Inserts `x` after every element whose key is not after its own. */
  function Insert<T>(x: T, s: seq<T>, key: T -> Intersection): (r: seq<T>)
    requires SortedBy(s, key)
    ensures SortedBy(r, key)
    ensures multiset(r) == multiset(s) + multiset{x}
    ensures Distinct(s) && x !in s ==> Distinct(r)
  {
    if |s| == 0 || Before(key(x), key(s[0])) then
      InsertFrontSorted(x, s, key);
      [x] + s
    else
      var tail := Insert(x, s[1..], key);
      assert s == [s[0]] + s[1..];
      InsertBehindSorted(x, s, key, tail);
      [s[0]] + tail
  }

  /** Putting an element before a sorted sequence whose head it precedes keeps it sorted. */
  lemma InsertFrontSorted<T>(x: T, s: seq<T>, key: T -> Intersection)
    requires SortedBy(s, key)
    requires |s| == 0 || Before(key(x), key(s[0]))
    ensures SortedBy([x] + s, key)
    ensures Distinct(s) && x !in s ==> Distinct([x] + s)
  {
    var r := [x] + s;
    forall j, k | 0 <= j < k < |r| ensures !Before(key(r[k]), key(r[j])) {
      if j == 0 {
        assert r[k] == s[k - 1];
        assert !Before(key(s[k - 1]), key(s[0]));
      } else {
        assert r[j] == s[j - 1] && r[k] == s[k - 1];
      }
    }
  }

  /** Keeping the head in front of the sorted insertion into the tail keeps the whole sorted. */
  lemma InsertBehindSorted<T>(x: T, s: seq<T>, key: T -> Intersection, tail: seq<T>)
    requires SortedBy(s, key) && |s| > 0 && !Before(key(x), key(s[0]))
    requires SortedBy(tail, key)
    requires multiset(tail) == multiset(s[1..]) + multiset{x}
    requires Distinct(s) && x !in s ==> Distinct(tail)
    ensures SortedBy([s[0]] + tail, key)
    ensures Distinct(s) && x !in s ==> Distinct([s[0]] + tail)
  {
    var r := [s[0]] + tail;
    forall y | y in tail ensures y == x || y in s[1..] {
      assert y in multiset(tail);
    }
    forall k | 0 <= k < |tail| ensures !Before(key(tail[k]), key(s[0])) {
      assert tail[k] in tail;
      if tail[k] != x {
        var m :| 0 <= m < |s[1..]| && s[1..][m] == tail[k];
        assert s[m + 1] == tail[k];
      }
    }
    forall j, k | 0 <= j < k < |r| ensures !Before(key(r[k]), key(r[j])) {
      if j == 0 {
        assert r[k] == tail[k - 1];
      } else {
        assert r[j] == tail[j - 1] && r[k] == tail[k - 1];
      }
    }
    if Distinct(s) && x !in s {
      assert s[0] !in s[1..];
      assert s[0] !in tail;
    }
  }

  /** A member other than the head is a member of the tail. */
  lemma InTail<T>(s: seq<T>, x: T)
    requires x in s && x != s[0]
    ensures x in s[1..]
  {
    assert s == [s[0]] + s[1..];
  }

  /** Sequences with the same multiset have the same members. */
  lemma SameMembers<T>(a: seq<T>, b: seq<T>)
    requires multiset(a) == multiset(b)
    ensures forall x | x in a :: x in b
  {
    forall x | x in a ensures x in b {
      assert x in multiset(a);
    }
  }

  /** Dropping the last element of a repetition-free sequence keeps it free of
      repetitions and leaves that element out. */
  lemma DistinctButLast<T>(s: seq<T>)
    requires |s| > 0
    ensures Distinct(s) ==> Distinct(s[..|s| - 1]) && s[|s| - 1] !in s[..|s| - 1]
  {
  }

  /** Dropping the first element keeps a sequence free of repeats, and the
      dropped element does not occur in what is left. */
  lemma DistinctTail<T>(s: seq<T>)
    requires |s| > 0 && Distinct(s)
    ensures Distinct(s[1..]) && s[0] !in s[1..]
  {
    var tail := s[1..];
    forall j, k | 0 <= j < k < |tail| ensures tail[j] != tail[k] {
      assert tail[j] == s[j + 1] && tail[k] == s[k + 1];
    }
    forall k | 0 <= k < |tail| ensures tail[k] != s[0] {
      assert tail[k] == s[k + 1];
    }
  }

  /** Insertion sort: the result is a rearrangement of `s` ordered by key. */
  function SortBy<T>(s: seq<T>, key: T -> Intersection): (r: seq<T>)
    ensures SortedBy(r, key)
    ensures multiset(r) == multiset(s)
    ensures forall x | x in r :: x in s
    ensures forall x | x in s :: x in r
    ensures Distinct(s) ==> Distinct(r)
  {
    if |s| == 0 then []
    else
      var init := s[..|s| - 1];
      var last := s[|s| - 1];
      assert s == init + [last];
      var sorted := SortBy(init, key);
      DistinctButLast(s);
      SameMembers(sorted, init);
      var r := Insert(last, sorted, key);
      SameMembers(r, s);
      SameMembers(s, r);
      r
  }

  /** The key that sorts intersections by themselves. */
  function Identity(i: Intersection): Intersection { i }

  /** `ordena_intersecoes`: the elements of `s` rearranged into reading order. */
  function SortIntersections(s: seq<Intersection>): (r: seq<Intersection>)
    ensures multiset(r) == multiset(s)
    ensures forall x :: x in r <==> x in s
    ensures forall j, k :: 0 <= j < k < |r| ==> !Before(r[k], r[j])
    ensures Distinct(s) ==> Ascending(r)
  {
    var r := SortBy(s, Identity);
    assert forall j, k :: 0 <= j < k < |r| ==> !Before(Identity(r[k]), Identity(r[j]));
    r
  }
}
