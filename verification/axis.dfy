/** The axis list and its per-frame re-sort by x position. */
module AxisSort {
  import opened State

  /** The x coordinate of ball number `k`. */
  function X(balls: seq<Ball>, k: nat): real
    requires k < |balls|
  {
    balls[k].pos.x
  }

  /** Ball numbers in ascending order of x. */
  predicate SortedByX(balls: seq<Ball>, s: seq<nat>)
    requires AllBelow(s, |balls|)
  {
    forall i, j :: 0 <= i < j < |s| ==> X(balls, s[i]) <= X(balls, s[j])
  }

  /** Insert `k` before the first entry whose x is not smaller than its own;
      `k` goes before entries with equal x. */
  function Insert(balls: seq<Ball>, k: nat, s: seq<nat>): (r: seq<nat>)
    requires k < |balls| && AllBelow(s, |balls|)
    ensures AllBelow(r, |balls|)
    ensures multiset(r) == multiset(s) + multiset{k}
  {
    if |s| == 0 || X(balls, k) <= X(balls, s[0]) then
      [k] + s
    else
      assert s == [s[0]] + s[1..];
      [s[0]] + Insert(balls, k, s[1..])
  }

  /** The stable sort of the axis list by x: entries with equal x keep their
      previous relative order, as in the JavaScript sort. */
  function SortByX(balls: seq<Ball>, s: seq<nat>): (r: seq<nat>)
    requires AllBelow(s, |balls|)
    ensures AllBelow(r, |balls|)
    ensures multiset(r) == multiset(s)
  {
    if |s| == 0 then []
    else
      assert s == [s[0]] + s[1..];
      Insert(balls, s[0], SortByX(balls, s[1..]))
  }

  /** Inserting into a sorted list keeps it sorted. */
  lemma {:induction false} InsertSorted(balls: seq<Ball>, k: nat, s: seq<nat>)
    requires k < |balls| && AllBelow(s, |balls|)
    requires SortedByX(balls, s)
    ensures SortedByX(balls, Insert(balls, k, s))
  {
    if |s| > 0 && X(balls, k) > X(balls, s[0]) {
      InsertSorted(balls, k, s[1..]);
      var t := Insert(balls, k, s[1..]);
      forall e | e in t
        ensures X(balls, s[0]) <= X(balls, e)
      {
        assert e in multiset(t);
        if e != k {
          assert e in s[1..];
        }
      }
    }
  }

  /** Inserting a new number into a list without repeats gives a list without repeats. */
  lemma {:induction false} InsertNoDuplicates(balls: seq<Ball>, k: nat, s: seq<nat>)
    requires k < |balls| && AllBelow(s, |balls|)
    requires NoDuplicates(s) && k !in s
    ensures NoDuplicates(Insert(balls, k, s))
  {
    if |s| > 0 && X(balls, k) > X(balls, s[0]) {
      InsertNoDuplicates(balls, k, s[1..]);
      var t := Insert(balls, k, s[1..]);
      NotInTail(s);
      assert s[0] != k;
      assert s[0] !in multiset(t);
    }
  }

  lemma NotInTail(s: seq<nat>)
    requires |s| > 0 && NoDuplicates(s)
    ensures s[0] !in multiset(s[1..])
  {
    forall i | 0 <= i < |s[1..]|
      ensures s[1..][i] != s[0]
    {
      assert s[1..][i] == s[i + 1];
    }
  }

  /** The sorted list is in ascending order of x. */
  lemma {:induction false} SortSorted(balls: seq<Ball>, s: seq<nat>)
    requires AllBelow(s, |balls|)
    ensures SortedByX(balls, SortByX(balls, s))
  {
    if |s| > 0 {
      SortSorted(balls, s[1..]);
      InsertSorted(balls, s[0], SortByX(balls, s[1..]));
    }
  }

  /** Sorting a list without repeats gives a list without repeats. */
  lemma {:induction false} SortNoDuplicates(balls: seq<Ball>, s: seq<nat>)
    requires AllBelow(s, |balls|)
    requires NoDuplicates(s)
    ensures NoDuplicates(SortByX(balls, s))
  {
    if |s| > 0 {
      var t := SortByX(balls, s[1..]);
      SortNoDuplicates(balls, s[1..]);
      NotInTail(s);
      assert s[0] !in multiset(t);
      InsertNoDuplicates(balls, s[0], t);
    }
  }

  /** Re-sorting an axis list that names every ball once gives a list sorted
      by x that still names every ball once. */
  lemma SortAxis(balls: seq<Ball>, s: seq<nat>)
    requires IsPermutation(s, |balls|)
    ensures IsPermutation(SortByX(balls, s), |balls|)
    ensures SortedByX(balls, SortByX(balls, s))
    ensures multiset(SortByX(balls, s)) == multiset(s)
  {
    SortSorted(balls, s);
    SortNoDuplicates(balls, s);
    assert |SortByX(balls, s)| == |multiset(SortByX(balls, s))|;
  }

  /** The entries of `s` whose x is exactly `v`, in the order of `s`. */
  function WithX(balls: seq<Ball>, s: seq<nat>, v: real): seq<nat>
    requires AllBelow(s, |balls|)
  {
    if |s| == 0 then []
    else
      assert s == [s[0]] + s[1..];
      (if X(balls, s[0]) == v then [s[0]] else []) + WithX(balls, s[1..], v)
  }

  /** `k` lands before every entry whose x equals its own, and the entries of
      `s` keep their order. */
  lemma {:induction false} InsertKeepsTies(balls: seq<Ball>, k: nat, s: seq<nat>, v: real)
    requires k < |balls| && AllBelow(s, |balls|)
    ensures WithX(balls, Insert(balls, k, s), v) ==
      (if X(balls, k) == v then [k] else []) + WithX(balls, s, v)
  {
    if |s| == 0 || X(balls, k) <= X(balls, s[0]) {
      var r := [k] + s;
      assert r[0] == k && r[1..] == s;
    } else {
      InsertKeepsTies(balls, k, s[1..], v);
      var r := [s[0]] + Insert(balls, k, s[1..]);
      assert r[0] == s[0] && r[1..] == Insert(balls, k, s[1..]);
    }
  }

  /** The sort is stable: for every x, the entries with that x appear in the
      output in the same order as in the input. Together with `SortSorted` and
      the multiset equality this fixes the output uniquely. */
  lemma {:induction false} SortStable(balls: seq<Ball>, s: seq<nat>, v: real)
    requires AllBelow(s, |balls|)
    ensures WithX(balls, SortByX(balls, s), v) == WithX(balls, s, v)
  {
    if |s| > 0 {
      SortStable(balls, s[1..], v);
      InsertKeepsTies(balls, s[0], SortByX(balls, s[1..]), v);
    }
  }
}
