/** Ascending sort of calendar dates (the `dates.sort()` step of the streak
    calculator), specified as the unique sorted permutation of its input. */
module Sorting {
  import opened Calendar

  predicate Sorted(s: seq<Date>) {
    forall i, j :: 0 <= i < j < |s| ==> DateAtMost(s[i], s[j])
  }

  /** Inserts x into sorted s before the first element it does not follow. */
  function Insert(x: Date, s: seq<Date>): (r: seq<Date>)
    requires Sorted(s)
    ensures |r| == |s| + 1
    ensures Sorted(r)
    ensures multiset(r) == multiset(s) + multiset{x}
  {
    if |s| == 0 then [x]
    else if DateAtMost(x, s[0]) then
      BelowFirst(x, s);
      PrependSorted(x, s);
      [x] + s
    else
      var rest := Insert(x, s[1..]);
      assert s == [s[0]] + s[1..];
      BelowFirst(s[0], s[1..]);
      BelowInserted(s[0], x, s[1..], rest);
      PrependSorted(s[0], rest);
      [s[0]] + rest
  }

  /** A date no later than the first element of a sorted sequence is no later than any. */
  lemma BelowFirst(x: Date, s: seq<Date>)
    requires Sorted(s)
    requires |s| > 0 ==> DateAtMost(x, s[0])
    ensures forall k :: 0 <= k < |s| ==> DateAtMost(x, s[k])
  {
  }

  /** A lower bound of s and of x bounds every element of a permutation of s plus x. */
  lemma BelowInserted(y: Date, x: Date, s: seq<Date>, r: seq<Date>)
    requires DateAtMost(y, x)
    requires forall k :: 0 <= k < |s| ==> DateAtMost(y, s[k])
    requires multiset(r) == multiset(s) + multiset{x}
    ensures forall k :: 0 <= k < |r| ==> DateAtMost(y, r[k])
  {
    forall k | 0 <= k < |r|
      ensures DateAtMost(y, r[k])
    {
      assert r[k] in multiset(r);
      if r[k] != x {
        assert r[k] in multiset(s);
        var i :| 0 <= i < |s| && s[i] == r[k];
      }
    }
  }

  /** Prepending a lower bound keeps a sequence sorted. */
  lemma PrependSorted(x: Date, s: seq<Date>)
    requires Sorted(s)
    requires forall k :: 0 <= k < |s| ==> DateAtMost(x, s[k])
    ensures Sorted([x] + s)
  {
    var r := [x] + s;
    forall i, j | 0 <= i < j < |r|
      ensures DateAtMost(r[i], r[j])
    {
      assert r[j] == s[j - 1];
      if i > 0 {
        assert r[i] == s[i - 1];
      }
    }
  }

  /** Insertion sort: the dates in ascending order, each as often as in s. */
  function Sort(s: seq<Date>): (r: seq<Date>)
    ensures |r| == |s|
    ensures Sorted(r)
    ensures multiset(r) == multiset(s)
  {
    if |s| == 0 then []
    else
      assert s == [s[0]] + s[1..];
      Insert(s[0], Sort(s[1..]))
  }

  /** A sorted sequence is determined by its multiset of elements. */
  lemma {:induction false} SortedUnique(a: seq<Date>, b: seq<Date>)
    requires Sorted(a) && Sorted(b)
    requires multiset(a) == multiset(b)
    ensures a == b
    decreases |a|
  {
    if |a| == 0 {
      assert |b| == |multiset(b)| == 0;
    } else {
      assert |b| == |multiset(b)| == |multiset(a)| == |a|;
      SameLeast(a, b);
      MultisetFirst(a);
      MultisetFirst(b);
      MultisetCancel(multiset(a[1..]), multiset(b[1..]), a[0]);
      SortedUnique(a[1..], b[1..]);
      assert a == [a[0]] + a[1..];
      assert b == [b[0]] + b[1..];
    }
  }

  /** Two non-empty sorted permutations of each other start with the same date. */
  lemma SameLeast(a: seq<Date>, b: seq<Date>)
    requires Sorted(a) && Sorted(b)
    requires multiset(a) == multiset(b) && |a| > 0 && |b| > 0
    ensures a[0] == b[0]
  {
    assert a[0] in multiset(b) && b[0] in multiset(a);
    var i :| 0 <= i < |b| && b[i] == a[0];
    var j :| 0 <= j < |a| && a[j] == b[0];
    assert DateAtMost(b[0], a[0]) && DateAtMost(a[0], b[0]);
  }

  /** A non-empty sequence holds its first element. */
  lemma FirstIsElement<T>(s: seq<T>)
    ensures |s| > 0 ==> s[0] in s
  {
  }

  /** The multiset of a non-empty sequence: its first element and the rest. */
  lemma MultisetFirst<T>(s: seq<T>)
    requires |s| > 0
    ensures multiset(s[1..]) + multiset{s[0]} == multiset(s)
  {
    assert s == [s[0]] + s[1..];
  }

  /** Sorting forgets the input order: permuted inputs sort identically. */
  lemma SortPermutation(a: seq<Date>, b: seq<Date>)
    requires multiset(a) == multiset(b)
    ensures Sort(a) == Sort(b)
  {
    SortedUnique(Sort(a), Sort(b));
  }

  /** Dates already in order sort to themselves. */
  lemma SortOfSorted(s: seq<Date>)
    requires Sorted(s)
    ensures Sort(s) == s
  {
    SortedUnique(Sort(s), s);
  }

  /** f applied to every element of s, in order. */
  function MapSeq<A, B>(f: A -> B, s: seq<A>): (r: seq<B>)
    ensures |r| == |s| && forall i :: 0 <= i < |s| ==> r[i] == f(s[i])
  {
    seq(|s|, i requires 0 <= i < |s| => f(s[i]))
  }

  /** Mapping a non-empty sequence: its first image and the images of the rest. */
  lemma MapFirst<A, B>(f: A -> B, a: seq<A>)
    requires |a| > 0
    ensures multiset(MapSeq(f, a)) == multiset{f(a[0])} + multiset(MapSeq(f, a[1..]))
  {
    assert MapSeq(f, a) == [f(a[0])] + MapSeq(f, a[1..]);
  }

  /** Mapping a sequence: the image of element j and the images of the others. */
  lemma MapWithout<A, B>(f: A -> B, b: seq<A>, j: int)
    requires 0 <= j < |b|
    ensures multiset(MapSeq(f, b)) == multiset{f(b[j])} + multiset(MapSeq(f, b[..j] + b[j + 1..]))
  {
    var m := MapSeq(f, b);
    MultisetWithout(m, j);
    assert m[..j] + m[j + 1..] == MapSeq(f, b[..j] + b[j + 1..]);
  }

  /** Mapping a permutation gives a permutation. */
  lemma {:induction false} MapPermutation<A, B>(f: A -> B, a: seq<A>, b: seq<A>)
    requires multiset(a) == multiset(b)
    ensures multiset(MapSeq(f, a)) == multiset(MapSeq(f, b))
    decreases |a|
  {
    if |a| == 0 {
      assert |b| == |multiset(b)| == 0;
    } else {
      assert a[0] in multiset(b);
      var j :| 0 <= j < |b| && b[j] == a[0];
      RemoveOne(a, b, j);
      MapPermutation(f, a[1..], b[..j] + b[j + 1..]);
      MapFirst(f, a);
      MapWithout(f, b, j);
    }
  }

  /** Taking element j out of a sequence takes one copy of it out of its multiset. */
  lemma MultisetWithout<T>(s: seq<T>, j: int)
    requires 0 <= j < |s|
    ensures multiset(s) == multiset(s[..j] + s[j + 1..]) + multiset{s[j]}
  {
    assert s == s[..j] + [s[j]] + s[j + 1..];
  }

  /** Removing the same element from two permutations of each other leaves
      permutations of each other. */
  lemma RemoveOne<A>(a: seq<A>, b: seq<A>, j: int)
    requires multiset(a) == multiset(b)
    requires |a| > 0 && 0 <= j < |b| && b[j] == a[0]
    ensures multiset(a[1..]) == multiset(b[..j] + b[j + 1..])
  {
    MultisetFirst(a);
    MultisetWithout(b, j);
    MultisetCancel(multiset(a[1..]), multiset(b[..j] + b[j + 1..]), a[0]);
  }

  lemma MultisetCancel<A>(p: multiset<A>, q: multiset<A>, x: A)
    requires p + multiset{x} == q + multiset{x}
    ensures p == q
  {
    assert p == (p + multiset{x}) - multiset{x};
  }
}
