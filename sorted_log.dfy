/**
 * Sorted timestamp logs: the order invariant of a key's history, the
 * windowed views of it (timestamps before and at-or-after a window start),
 * sorted insertion, and the two binary searches (`bisect_left` and
 * `bisect_right`) the in-memory store relies on.
 */
module SortedLog {

  /** Nondecreasing order: the invariant every stored history keeps. */
  predicate Sorted(s: seq<real>) {
    forall i, j :: 0 <= i < j < |s| ==> s[i] <= s[j]
  }

  /** The timestamps of `s` at or after `windowStart`, in their order. */
  function Since(s: seq<real>, windowStart: real): (r: seq<real>)
    ensures |r| <= |s|
    ensures forall y :: y in r <==> y in s && y >= windowStart
  {
    if s == [] then []
    else if s[0] >= windowStart then [s[0]] + Since(s[1..], windowStart)
    else Since(s[1..], windowStart)
  }

  /** The timestamps of `s` strictly before `windowStart`, in their order. */
  function Before(s: seq<real>, windowStart: real): (r: seq<real>)
    ensures |r| <= |s|
    ensures forall y :: y in r <==> y in s && y < windowStart
  {
    if s == [] then []
    else if s[0] < windowStart then [s[0]] + Before(s[1..], windowStart)
    else Before(s[1..], windowStart)
  }

  /** The timestamps of `s` at or before `x` (what `bisect_right` counts). */
  function AtMost(s: seq<real>, x: real): (r: seq<real>)
    ensures |r| <= |s|
    ensures forall y :: y in r <==> y in s && y <= x
  {
    if s == [] then []
    else if s[0] <= x then [s[0]] + AtMost(s[1..], x)
    else AtMost(s[1..], x)
  }

  /**
   * Insertion of `t` after every element not greater than it, the
   * placement `bisect.insort` (that is, `insort_right`) chooses.
   */
  function InsertSorted(s: seq<real>, t: real): seq<real> {
    if s == [] then [t]
    else if t < s[0] then [t] + s
    else [s[0]] + InsertSorted(s[1..], t)
  }

  /**
   * The oldest timestamp at or after `windowStart`, or `windowStart`
   * itself when there is none.
   */
  function OldestSince(s: seq<real>, windowStart: real): real {
    var inWindow := Since(s, windowStart);
    if inWindow == [] then windowStart else inWindow[0]
  }

  /** Every index is split at `i`: elements before it are `< x`, the rest `>= x`. */
  predicate SplitBelow(s: seq<real>, x: real, i: nat) {
    i <= |s| &&
    (forall j :: 0 <= j < i ==> s[j] < x) &&
    (forall j :: i <= j < |s| ==> s[j] >= x)
  }

  /** Every index is split at `i`: elements before it are `<= x`, the rest `> x`. */
  predicate SplitAtMost(s: seq<real>, x: real, i: nat) {
    i <= |s| &&
    (forall j :: 0 <= j < i ==> s[j] <= x) &&
    (forall j :: i <= j < |s| ==> s[j] > x)
  }

  /** A split at `i` cuts `s` exactly into `Before` and `Since`. */
  lemma {:induction false} SplitBelowIsWindow(s: seq<real>, x: real, i: nat)
    requires SplitBelow(s, x, i)
    ensures Before(s, x) == s[..i]
    ensures Since(s, x) == s[i..]
  {
    if s != [] {
      if i > 0 {
        SplitBelowIsWindow(s[1..], x, i - 1);
        assert s[..i] == [s[0]] + s[1..][..i - 1];
        assert s[i..] == s[1..][i - 1..];
      } else {
        SplitBelowIsWindow(s[1..], x, 0);
        assert s == [s[0]] + s[1..];
      }
    }
  }

  /** A split at `i` puts exactly the elements `<= x` before `i`. */
  lemma {:induction false} SplitAtMostIsPrefix(s: seq<real>, x: real, i: nat)
    requires SplitAtMost(s, x, i)
    ensures AtMost(s, x) == s[..i]
  {
    if s != [] {
      if i > 0 {
        SplitAtMostIsPrefix(s[1..], x, i - 1);
        assert s[..i] == [s[0]] + s[1..][..i - 1];
      } else {
        SplitAtMostIsPrefix(s[1..], x, 0);
      }
    }
  }

  /** Splitting a log at a window start loses and duplicates nothing. */
  lemma {:induction false} WindowPartition(s: seq<real>, windowStart: real)
    ensures multiset(Before(s, windowStart)) + multiset(Since(s, windowStart)) == multiset(s)
    ensures |Before(s, windowStart)| + |Since(s, windowStart)| == |s|
  {
    if s != [] {
      WindowPartition(s[1..], windowStart);
      assert s == [s[0]] + s[1..];
    }
  }

  /** The in-window part of a sorted log is sorted. */
  lemma {:induction false} SinceSorted(s: seq<real>, windowStart: real)
    requires Sorted(s)
    ensures Sorted(Since(s, windowStart))
  {
    if s != [] {
      SinceSorted(s[1..], windowStart);
      var rest := Since(s[1..], windowStart);
      if s[0] >= windowStart {
        forall y | y in rest ensures s[0] <= y {
          var k :| 1 <= k < |s| && s[k] == y;
        }
        ConsSorted(s[0], rest);
      }
    }
  }

  /** Two window starts that admit the same elements of `s` give the same in-window part. */
  lemma {:induction false} SinceAgrees(s: seq<real>, a: real, b: real)
    requires forall y :: y in s ==> (y >= a <==> y >= b)
    ensures Since(s, a) == Since(s, b)
  {
    if s != [] {
      assert s[0] in s;
      assert forall y :: y in s[1..] ==> y in s;
      SinceAgrees(s[1..], a, b);
    }
  }

  /** Taking the in-window part twice is taking it once. */
  lemma {:induction false} SinceIdempotent(s: seq<real>, windowStart: real)
    ensures Since(Since(s, windowStart), windowStart) == Since(s, windowStart)
  {
    if s != [] {
      SinceIdempotent(s[1..], windowStart);
      if s[0] >= windowStart {
        var rest := Since(s[1..], windowStart);
        assert ([s[0]] + rest)[1..] == rest;
      }
    }
  }

  /** Inserting `t` adds one copy of `t` and nothing else. */
  lemma {:induction false} InsertSortedContents(s: seq<real>, t: real)
    ensures multiset(InsertSorted(s, t)) == multiset(s) + multiset{t}
    ensures |InsertSorted(s, t)| == |s| + 1
  {
    if s != [] && t >= s[0] {
      InsertSortedContents(s[1..], t);
      assert s == [s[0]] + s[1..];
    }
  }

  /** A sorted log headed by an element no greater than any of it is sorted. */
  lemma ConsSorted(x: real, rest: seq<real>)
    requires Sorted(rest)
    requires forall y :: y in rest ==> x <= y
    ensures Sorted([x] + rest)
  {
    var r := [x] + rest;
    forall i, j | 0 <= i < j < |r| ensures r[i] <= r[j] {
      assert r[j] == rest[j - 1] && r[j] in rest;
      if i > 0 {
        assert r[i] == rest[i - 1];
      }
    }
  }

  /** Inserting into a sorted log keeps it sorted. */
  lemma {:induction false} InsertSortedKeepsOrder(s: seq<real>, t: real)
    requires Sorted(s)
    ensures Sorted(InsertSorted(s, t))
  {
    if s == [] {
    } else if t < s[0] {
      ConsSorted(t, s);
    } else {
      InsertSortedKeepsOrder(s[1..], t);
      InsertSortedContents(s[1..], t);
      var rest := InsertSorted(s[1..], t);
      forall y | y in rest ensures s[0] <= y {
        assert y in multiset(rest);
        if y != t {
          assert y in multiset(s[1..]);
          var k :| 0 <= k < |s[1..]| && s[1..][k] == y;
        }
      }
      ConsSorted(s[0], rest);
    }
  }

  /** Inserting `t` adds one to the window count exactly when `t` is in the window. */
  lemma {:induction false} InsertSortedCount(s: seq<real>, t: real, windowStart: real)
    ensures |Since(InsertSorted(s, t), windowStart)| ==
            |Since(s, windowStart)| + (if t >= windowStart then 1 else 0)
  {
    if s == [] {
    } else if t < s[0] {
      assert ([t] + s)[1..] == s;
    } else {
      InsertSortedCount(s[1..], t, windowStart);
      var r := InsertSorted(s[1..], t);
      assert ([s[0]] + r)[1..] == r;
    }
  }

  /** Cutting at the `bisect_right` index and inserting there is `InsertSorted`. */
  lemma {:induction false} InsertAtSplit(s: seq<real>, t: real, i: nat)
    requires SplitAtMost(s, t, i)
    ensures s[..i] + [t] + s[i..] == InsertSorted(s, t)
  {
    if s == [] {
    } else if i == 0 {
      assert s[..0] + [t] + s[0..] == [t] + s;
    } else {
      InsertAtSplit(s[1..], t, i - 1);
      assert s[..i] + [t] + s[i..] == [s[0]] + (s[1..][..i - 1] + [t] + s[1..][i - 1..]);
    }
  }

  /**
   * `OldestSince` is the least timestamp at or after the window start
   * when there is one, and the window start itself otherwise.
   */
  lemma OldestSinceIsLeast(s: seq<real>, windowStart: real)
    requires Sorted(s)
    ensures OldestSince(s, windowStart) >= windowStart
    ensures Since(s, windowStart) == [] ==> OldestSince(s, windowStart) == windowStart
    ensures Since(s, windowStart) != [] ==> OldestSince(s, windowStart) in s
    ensures forall y :: y in s && y >= windowStart ==> OldestSince(s, windowStart) <= y
  {
    var inWindow := Since(s, windowStart);
    SinceSorted(s, windowStart);
    if inWindow != [] {
      assert inWindow[0] in inWindow;
      forall y | y in s && y >= windowStart ensures inWindow[0] <= y {
        assert y in inWindow;
        var k :| 0 <= k < |inWindow| && inWindow[k] == y;
      }
    }
  }

  /** `bisect.bisect_left`: the first index whose element is `>= x`. */
  method BisectLeft(a: seq<real>, x: real) returns (i: nat)
    requires Sorted(a)
    ensures SplitBelow(a, x, i)
    ensures i == |Before(a, x)| && a[i..] == Since(a, x)
  {
    var lo, hi := 0, |a|;
    while lo < hi
      invariant 0 <= lo <= hi <= |a|
      invariant forall j :: 0 <= j < lo ==> a[j] < x
      invariant forall j :: hi <= j < |a| ==> a[j] >= x
    {
      var mid := (lo + hi) / 2;
      if a[mid] < x {
        lo := mid + 1;
      } else {
        hi := mid;
      }
    }
    i := lo;
    SplitBelowIsWindow(a, x, i);
  }

  /** `bisect.bisect_right`: the first index whose element is `> x`. */
  method BisectRight(a: seq<real>, x: real) returns (i: nat)
    requires Sorted(a)
    ensures SplitAtMost(a, x, i)
    ensures i == |AtMost(a, x)|
  {
    var lo, hi := 0, |a|;
    while lo < hi
      invariant 0 <= lo <= hi <= |a|
      invariant forall j :: 0 <= j < lo ==> a[j] <= x
      invariant forall j :: hi <= j < |a| ==> a[j] > x
    {
      var mid := (lo + hi) / 2;
      if a[mid] <= x {
        lo := mid + 1;
      } else {
        hi := mid;
      }
    }
    i := lo;
    SplitAtMostIsPrefix(a, x, i);
  }

  /** `bisect.insort`: insert `t` at its `bisect_right` position. */
  method Insort(a: seq<real>, t: real) returns (r: seq<real>)
    requires Sorted(a)
    ensures r == InsertSorted(a, t)
    ensures Sorted(r)
    ensures multiset(r) == multiset(a) + multiset{t}
  {
    var i := BisectRight(a, t);
    r := a[..i] + [t] + a[i..];
    InsertAtSplit(a, t, i);
    InsertSortedKeepsOrder(a, t);
    InsertSortedContents(a, t);
  }
}
