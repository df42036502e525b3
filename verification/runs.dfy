/** The scan at the heart of the streak calculator: walk a sequence once,
    growing the run in progress while each element is linked to the one
    before it, closing it into the maximum on every break, and folding the
    last run in at the end. `link` says when two neighbours continue a run. */
module Runs {

  function Max(a: int, b: int): int {
    if a >= b then a else b
  }

  /** Positions lo .. hi - 1 of s form a run: each element after the first is
      linked to its predecessor. */
  ghost predicate IsRun<T>(s: seq<T>, link: (T, T) -> bool, lo: int, hi: int) {
    0 <= lo < hi <= |s| && forall k :: lo < k < hi ==> link(s[k - 1], s[k])
  }

  /** n is the length of a longest run of the non-empty sequence s. */
  ghost predicate IsLongestRun<T>(s: seq<T>, link: (T, T) -> bool, n: int) {
    && (exists lo, hi :: IsRun(s, link, lo, hi) && hi - lo == n)
    && (forall lo, hi :: IsRun(s, link, lo, hi) ==> hi - lo <= n)
  }

  /** The loop's counters: the run in progress and the longest run closed so far. */
  datatype Tally = Tally(current: nat, best: nat)

  /** One iteration: a linked element extends the run in progress; anything
      else closes it into `best` and starts a new run of one. */
  function Step(t: Tally, linked: bool): Tally {
    if linked then Tally(t.current + 1, t.best) else Tally(1, Max(t.best, t.current))
  }

  /** The counters once the loop has looked at the first n elements. */
  function ScanPrefix<T>(s: seq<T>, link: (T, T) -> bool, n: nat): (t: Tally)
    requires 1 <= n <= |s|
    ensures 1 <= t.current <= n && 1 <= t.best <= n
  {
    if n == 1 then Tally(1, 1)
    else Step(ScanPrefix(s, link, n - 1), link(s[n - 2], s[n - 1]))
  }

  /** After the loop, the run still in progress is folded into the maximum. */
  function Close(t: Tally): nat {
    Max(t.best, t.current)
  }

  /** What the scan reports for a non-empty sequence. */
  function LongestRun<T>(s: seq<T>, link: (T, T) -> bool): (r: nat)
    requires |s| > 0
    ensures 1 <= r <= |s|
  {
    Close(ScanPrefix(s, link, |s|))
  }

  /** A run that ends after a break point starts at or after it. */
  lemma RunAfterBreak<T>(s: seq<T>, link: (T, T) -> bool, start: int, lo: int, hi: int)
    requires IsRun(s, link, lo, hi)
    requires 0 <= start < |s| && (start == 0 || !link(s[start - 1], s[start]))
    requires start < hi
    ensures start <= lo
  {
  }

  /** What the loop counters mean after n elements: `current` counts the
      maximal run ending at element n - 1, `best` is the length of some run
      seen so far and of no shorter run than any that ended before the
      current one began. */
  ghost predicate ScanInvariant<T>(s: seq<T>, link: (T, T) -> bool, n: nat, t: Tally)
    requires 1 <= n <= |s|
  {
    var start := n - t.current;
    && 0 <= start < n
    && IsRun(s, link, start, n)
    && (start == 0 || !link(s[start - 1], s[start]))
    && (exists lo, hi :: IsRun(s, link, lo, hi) && hi <= n && hi - lo == t.best)
    && (forall lo, hi :: IsRun(s, link, lo, hi) && hi <= start ==> hi - lo <= t.best)
  }

  lemma {:induction false} ScanPrefixInvariant<T>(s: seq<T>, link: (T, T) -> bool, n: nat)
    requires 1 <= n <= |s|
    ensures ScanInvariant(s, link, n, ScanPrefix(s, link, n))
    decreases n
  {
    if n == 1 {
      ScanStart(s, link);
    } else {
      ScanPrefixInvariant(s, link, n - 1);
      ScanStep(s, link, n);
    }
  }

  /** The invariant holds once the first element is counted. */
  lemma ScanStart<T>(s: seq<T>, link: (T, T) -> bool)
    requires 1 <= |s|
    ensures ScanInvariant(s, link, 1, ScanPrefix(s, link, 1))
  {
    assert IsRun(s, link, 0, 1);
  }

  /** One more iteration keeps the invariant. */
  lemma ScanStep<T>(s: seq<T>, link: (T, T) -> bool, n: nat)
    requires 2 <= n <= |s| && ScanInvariant(s, link, n - 1, ScanPrefix(s, link, n - 1))
    ensures ScanInvariant(s, link, n, ScanPrefix(s, link, n))
  {
    if link(s[n - 2], s[n - 1]) {
      StepLinked(s, link, n);
    } else {
      StepBroken(s, link, n);
    }
  }

  /** A linked element extends the run in progress and keeps the invariant. */
  lemma StepLinked<T>(s: seq<T>, link: (T, T) -> bool, n: nat)
    requires 2 <= n <= |s| && ScanInvariant(s, link, n - 1, ScanPrefix(s, link, n - 1))
    requires link(s[n - 2], s[n - 1])
    ensures ScanInvariant(s, link, n, ScanPrefix(s, link, n))
  {
    var m, t := n - 1, ScanPrefix(s, link, n - 1);
    var start := m - t.current;
    assert IsRun(s, link, start, n);
    var lo0, hi0 :| IsRun(s, link, lo0, hi0) && hi0 <= m && hi0 - lo0 == t.best;
    assert IsRun(s, link, lo0, hi0) && hi0 <= n;
  }

  /** A break closes the run in progress into the maximum, starts a run of
      one and keeps the invariant. */
  lemma StepBroken<T>(s: seq<T>, link: (T, T) -> bool, n: nat)
    requires 2 <= n <= |s| && ScanInvariant(s, link, n - 1, ScanPrefix(s, link, n - 1))
    requires !link(s[n - 2], s[n - 1])
    ensures ScanInvariant(s, link, n, ScanPrefix(s, link, n))
  {
    var m, t := n - 1, ScanPrefix(s, link, n - 1);
    var start := m - t.current;
    var lo0, hi0 :| IsRun(s, link, lo0, hi0) && hi0 <= m && hi0 - lo0 == t.best;
    assert IsRun(s, link, m, n);
    assert IsRun(s, link, start, m);
    forall lo, hi | IsRun(s, link, lo, hi) && hi <= m
      ensures hi - lo <= Max(t.best, t.current)
    {
      if start < hi {
        RunAfterBreak(s, link, start, lo, hi);
      }
    }
  }

  /** The scan reports exactly the length of a longest run. */
  lemma LongestRunIsLongest<T>(s: seq<T>, link: (T, T) -> bool)
    requires |s| > 0
    ensures IsLongestRun(s, link, LongestRun(s, link))
  {
    var n := |s|;
    ScanPrefixInvariant(s, link, n);
    var t := ScanPrefix(s, link, n);
    var start := n - t.current;
    assert IsRun(s, link, start, n);
    forall lo, hi | IsRun(s, link, lo, hi)
      ensures hi - lo <= LongestRun(s, link)
    {
      if start < hi {
        RunAfterBreak(s, link, start, lo, hi);
      }
    }
  }

  /** The scan's counters after n elements depend on those elements only. */
  lemma {:induction false} ScanPrefixOfExtension<T>(s: seq<T>, more: seq<T>, link: (T, T) -> bool, n: nat)
    requires 1 <= n <= |s|
    ensures ScanPrefix(s + more, link, n) == ScanPrefix(s, link, n)
    decreases n
  {
    if n > 1 {
      ScanPrefixOfExtension(s, more, link, n - 1);
    }
  }

  /** Any two values that are each the longest run length agree. */
  lemma LongestRunUnique<T>(s: seq<T>, link: (T, T) -> bool, n1: int, n2: int)
    requires IsLongestRun(s, link, n1) && IsLongestRun(s, link, n2)
    ensures n1 == n2
  {
    var lo1, hi1 :| IsRun(s, link, lo1, hi1) && hi1 - lo1 == n1;
    var lo2, hi2 :| IsRun(s, link, lo2, hi2) && hi2 - lo2 == n2;
  }
}
