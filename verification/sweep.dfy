/** Broad phase: sweep-and-prune along x over the sorted axis list. */
module Sweep {
  import opened State
  import opened AxisSort

  /** The filter test: ball `other` stays active for the current ball `cur`
      while `cur` is less than the sweep window to its right. */
  predicate Near(balls: seq<Ball>, cur: nat, other: nat)
    requires cur < |balls| && other < |balls|
  {
    X(balls, cur) - X(balls, other) < SweepWindow
  }

  /** `active.filter(...)`: the entries of `s` that are near `cur`, in order. */
  function Within(balls: seq<Ball>, s: seq<nat>, cur: nat): (r: seq<nat>)
    requires AllBelow(s, |balls|) && cur < |balls|
    ensures AllBelow(r, |balls|)
  {
    if |s| == 0 then []
    else
      var n := |s| - 1;
      assert s == s[..n] + [s[n]];
      Within(balls, s[..n], cur) + (if Near(balls, cur, s[n]) then [s[n]] else [])
  }

  /** The filter keeps exactly the entries near the current ball. */
  lemma {:induction false} WithinMembers(balls: seq<Ball>, s: seq<nat>, cur: nat)
    requires AllBelow(s, |balls|) && cur < |balls|
    ensures forall e :: e in Within(balls, s, cur) <==> e in s && Near(balls, cur, e)
  {
    if |s| > 0 {
      var n := |s| - 1;
      WithinMembers(balls, s[..n], cur);
      assert s == s[..n] + [s[n]];
    }
  }

  /** One pair (e, cur) per active entry e, in the order of `active`. */
  function PairsWith(active: seq<nat>, cur: nat): (r: seq<Pair>)
    ensures |r| == |active|
    ensures forall i :: 0 <= i < |r| ==> r[i] == Pair(active[i], cur)
  {
    seq(|active|, i requires 0 <= i < |active| => Pair(active[i], cur))
  }

  /** Reference definition of the candidate list: sweeping `s` left to right,
      each ball is paired, in order, with every earlier ball it is near. */
  function CandidatesOf(balls: seq<Ball>, s: seq<nat>): seq<Pair>
    requires AllBelow(s, |balls|)
  {
    if |s| == 0 then []
    else
      var n := |s| - 1;
      CandidatesOf(balls, s[..n]) + PairsWith(Within(balls, s[..n], s[n]), s[n])
  }

  /** Positions i < j of `s` whose balls pass the filter. */
  predicate CandidateAt(balls: seq<Ball>, s: seq<nat>, i: int, j: int)
    requires AllBelow(s, |balls|)
  {
    0 <= i < j < |s| && Near(balls, s[j], s[i])
  }

  /** The candidates are exactly the pairs (s[i], s[j]) with i < j whose balls are near. */
  lemma CandidatesExact(balls: seq<Ball>, s: seq<nat>, p: Pair)
    requires AllBelow(s, |balls|)
    ensures p in CandidatesOf(balls, s) <==>
      exists i, j :: CandidateAt(balls, s, i, j) && p == Pair(s[i], s[j])
  {
    if p in CandidatesOf(balls, s) {
      CandidatesSound(balls, s, p);
    }
    if exists i, j :: CandidateAt(balls, s, i, j) && p == Pair(s[i], s[j]) {
      var i, j :| CandidateAt(balls, s, i, j) && p == Pair(s[i], s[j]);
      CandidatesComplete(balls, s, i, j);
    }
  }

  /** Every candidate is a near pair (s[i], s[j]) with i < j. */
  lemma {:induction false} CandidatesSound(balls: seq<Ball>, s: seq<nat>, p: Pair)
    requires AllBelow(s, |balls|)
    requires p in CandidatesOf(balls, s)
    ensures exists i, j :: CandidateAt(balls, s, i, j) && p == Pair(s[i], s[j])
  {
    var n := |s| - 1;
    var pre := s[..n];
    var act := Within(balls, pre, s[n]);
    assert CandidatesOf(balls, s) == CandidatesOf(balls, pre) + PairsWith(act, s[n]);
    if p in CandidatesOf(balls, pre) {
      CandidatesSound(balls, pre, p);
      var i, j :| CandidateAt(balls, pre, i, j) && p == Pair(pre[i], pre[j]);
      assert CandidateAt(balls, s, i, j) && p == Pair(s[i], s[j]);
    } else {
      WithinMembers(balls, pre, s[n]);
      var k :| 0 <= k < |act| && p == Pair(act[k], s[n]);
      assert act[k] in pre;
      var i :| 0 <= i < n && pre[i] == act[k];
      assert CandidateAt(balls, s, i, n) && p == Pair(s[i], s[n]);
    }
  }

  /** Every near pair (s[i], s[j]) with i < j is a candidate. */
  lemma {:induction false} CandidatesComplete(balls: seq<Ball>, s: seq<nat>, i: int, j: int)
    requires AllBelow(s, |balls|)
    requires CandidateAt(balls, s, i, j)
    ensures Pair(s[i], s[j]) in CandidatesOf(balls, s)
  {
    var n := |s| - 1;
    var pre := s[..n];
    var act := Within(balls, pre, s[n]);
    assert CandidatesOf(balls, s) == CandidatesOf(balls, pre) + PairsWith(act, s[n]);
    if j < n {
      assert CandidateAt(balls, pre, i, j) && s[i] == pre[i] && s[j] == pre[j];
      CandidatesComplete(balls, pre, i, j);
    } else {
      WithinMembers(balls, pre, s[n]);
      assert s[i] == pre[i];
      assert s[i] in act;
      var k :| 0 <= k < |act| && act[k] == s[i];
      assert PairsWith(act, s[n])[k] == Pair(s[i], s[j]);
    }
  }

  /** Filtering against a ball that lies further right keeps only what
      filtering the whole list against it would: filters narrow as x grows. */
  lemma {:induction false} WithinNarrows(balls: seq<Ball>, s: seq<nat>, c1: nat, c2: nat)
    requires AllBelow(s, |balls|) && c1 < |balls| && c2 < |balls|
    requires X(balls, c1) <= X(balls, c2)
    ensures Within(balls, Within(balls, s, c1), c2) == Within(balls, s, c2)
  {
    if |s| > 0 {
      var n := |s| - 1;
      WithinNarrows(balls, s[..n], c1, c2);
      var w1 := Within(balls, s[..n], c1);
      var tail2 := if Near(balls, c2, s[n]) then [s[n]] else [];
      assert Within(balls, s, c2) == Within(balls, s[..n], c2) + tail2;
      if Near(balls, c1, s[n]) {
        var t := w1 + [s[n]];
        assert Within(balls, s, c1) == t;
        assert t[..|t| - 1] == w1;
        assert Within(balls, t, c2) == Within(balls, w1, c2) + tail2;
      } else {
        assert Within(balls, s, c1) == w1;
        assert !Near(balls, c2, s[n]);
      }
    }
  }

  /** Appending the ball being filtered against: it is near itself, so it is kept. */
  lemma WithinAppendSelf(balls: seq<Ball>, s: seq<nat>, cur: nat)
    requires AllBelow(s, |balls|) && cur < |balls|
    ensures Within(balls, s + [cur], cur) == Within(balls, s, cur) + [cur]
  {
    var t := s + [cur];
    assert t[..|t| - 1] == s;
  }

  /** The sweep of app.js: for each ball of the sorted axis list, drop from
      `active` the balls it is not near, pair it with every ball left, then
      make it active. The result is the reference candidate list: the pairs
      (axis[i], axis[j]) with i < j whose x gap is under the window. */
  method SweepAndPrune(balls: seq<Ball>, axis: seq<nat>) returns (cands: seq<Pair>)
    requires AllBelow(axis, |balls|) && SortedByX(balls, axis)
    ensures cands == CandidatesOf(balls, axis)
    ensures forall p :: p in cands <==>
      exists i, j :: CandidateAt(balls, axis, i, j) && p == Pair(axis[i], axis[j])
  {
    var active: seq<nat> := [];
    cands := [];
    var j := 0;
    while j < |axis|
      invariant 0 <= j <= |axis|
      invariant AllBelow(active, |balls|)
      invariant j == 0 ==> active == []
      invariant 0 < j ==> active == Within(balls, axis[..j], axis[j - 1])
      invariant cands == CandidatesOf(balls, axis[..j])
    {
      var ball := axis[j];
      if 0 < j {
        assert X(balls, axis[j - 1]) <= X(balls, ball);
        WithinNarrows(balls, axis[..j], axis[j - 1], ball);
      }
      active := Within(balls, active, ball);
      assert active == Within(balls, axis[..j], ball);
      assert axis[..j + 1][..j] == axis[..j];
      cands := cands + PairsWith(active, ball);
      WithinAppendSelf(balls, axis[..j], ball);
      assert axis[..j + 1] == axis[..j] + [ball];
      active := active + [ball];
      j := j + 1;
    }
    assert axis[..j] == axis;
    CandidatesCharacterized(balls, axis);
  }

  lemma CandidatesCharacterized(balls: seq<Ball>, s: seq<nat>)
    requires AllBelow(s, |balls|)
    ensures forall p :: p in CandidatesOf(balls, s) <==>
      exists i, j :: CandidateAt(balls, s, i, j) && p == Pair(s[i], s[j])
  {
    forall p
      ensures p in CandidatesOf(balls, s) <==> exists i, j :: CandidateAt(balls, s, i, j) && p == Pair(s[i], s[j])
    {
      CandidatesExact(balls, s, p);
    }
  }

  lemma ConcatNoDuplicates<T>(a: seq<T>, b: seq<T>)
    requires NoDuplicates(a) && NoDuplicates(b)
    requires forall x :: x in a ==> x !in b
    ensures NoDuplicates(a + b)
  {
    var c := a + b;
    forall i, j | 0 <= i < j < |c|
      ensures c[i] != c[j]
    {
      if i < |a| && |a| <= j {
        assert c[i] in a && c[j] == b[j - |a|];
      } else if |a| <= i {
        assert c[i] == b[i - |a|] && c[j] == b[j - |a|];
      }
    }
  }

  lemma {:induction false} WithinNoDuplicates(balls: seq<Ball>, s: seq<nat>, cur: nat)
    requires AllBelow(s, |balls|) && cur < |balls|
    requires NoDuplicates(s)
    ensures NoDuplicates(Within(balls, s, cur))
  {
    if |s| > 0 {
      var n := |s| - 1;
      WithinNoDuplicates(balls, s[..n], cur);
      WithinMembers(balls, s[..n], cur);
      assert s[n] !in s[..n];
      ConcatNoDuplicates(Within(balls, s[..n], cur), if Near(balls, cur, s[n]) then [s[n]] else []);
    }
  }

  /** Over an axis list that names each ball once, no candidate pair is emitted twice. */
  lemma {:induction false} CandidatesNoDuplicates(balls: seq<Ball>, s: seq<nat>)
    requires AllBelow(s, |balls|)
    requires NoDuplicates(s)
    ensures NoDuplicates(CandidatesOf(balls, s))
  {
    if |s| > 0 {
      var n := |s| - 1;
      var pre := s[..n];
      var act := Within(balls, pre, s[n]);
      CandidatesNoDuplicates(balls, pre);
      WithinNoDuplicates(balls, pre, s[n]);
      var added := PairsWith(act, s[n]);
      forall p | p in CandidatesOf(balls, pre)
        ensures p !in added
      {
        CandidatesExact(balls, pre, p);
        var i, j :| CandidateAt(balls, pre, i, j) && p == Pair(pre[i], pre[j]);
        assert p.b == s[j] && j < n;
      }
      ConcatNoDuplicates(CandidatesOf(balls, pre), added);
    }
  }

  /** In each candidate the active ball lies no further right than the current
      one and less than the sweep window to its left, the two balls differ, and the reversed pair is never a candidate:
      each unordered pair is offered at most once. */
  lemma CandidatesOrdered(balls: seq<Ball>, s: seq<nat>, p: Pair)
    requires AllBelow(s, |balls|) && SortedByX(balls, s) && NoDuplicates(s)
    requires p in CandidatesOf(balls, s)
    ensures p.a < |balls| && p.b < |balls|
    ensures X(balls, p.a) <= X(balls, p.b)
    ensures X(balls, p.b) - X(balls, p.a) < SweepWindow
    ensures p.a != p.b
    ensures Pair(p.b, p.a) !in CandidatesOf(balls, s)
  {
    CandidatesExact(balls, s, p);
    var i, j :| CandidateAt(balls, s, i, j) && p == Pair(s[i], s[j]);
    CandidatesExact(balls, s, Pair(p.b, p.a));
  }

  /** The filter keeps the order of the list it filters: an earlier survivor
      comes from an earlier position. */
  lemma {:induction false} WithinInOrder(balls: seq<Ball>, s: seq<nat>, cur: nat,
                                         k1: int, k2: int, i1: int, i2: int)
    requires AllBelow(s, |balls|) && cur < |balls| && NoDuplicates(s)
    requires 0 <= k1 < k2 < |Within(balls, s, cur)|
    requires 0 <= i1 < |s| && 0 <= i2 < |s|
    requires Within(balls, s, cur)[k1] == s[i1] && Within(balls, s, cur)[k2] == s[i2]
    ensures i1 < i2
  {
    var n := |s| - 1;
    var s' := s[..n];
    var w' := Within(balls, s', cur);
    var w := Within(balls, s, cur);
    assert w == w' + (if Near(balls, cur, s[n]) then [s[n]] else []);
    WithinMembers(balls, s', cur);
    assert w[k1] == w'[k1] && w'[k1] in s';
    var m1 :| 0 <= m1 < n && s'[m1] == w[k1];
    assert s[m1] == s[i1];
    if k2 < |w'| {
      assert w[k2] == w'[k2] && w'[k2] in s';
      var m2 :| 0 <= m2 < n && s'[m2] == w[k2];
      assert s[m2] == s[i2];
      WithinInOrder(balls, s', cur, k1, k2, i1, i2);
    } else {
      assert w[k2] == s[n];
    }
  }

  /** A candidate from the sweep over all but the last ball keeps its
      positions, both before the last one. */
  lemma EarlierCandidate(balls: seq<Ball>, s: seq<nat>, k: int, i: int, j: int)
    requires AllBelow(s, |balls|) && NoDuplicates(s) && |s| > 0
    requires 0 <= k < |CandidatesOf(balls, s[..|s| - 1])|
    requires 0 <= i < |s| && 0 <= j < |s|
    requires CandidatesOf(balls, s)[k] == Pair(s[i], s[j])
    ensures i < |s| - 1 && j < |s| - 1
    ensures CandidatesOf(balls, s[..|s| - 1])[k] == Pair(s[..|s| - 1][i], s[..|s| - 1][j])
  {
    var n := |s| - 1;
    var s' := s[..n];
    var c' := CandidatesOf(balls, s');
    assert CandidatesOf(balls, s) == c' + PairsWith(Within(balls, s', s[n]), s[n]);
    CandidatesExact(balls, s', c'[k]);
    var a, b :| CandidateAt(balls, s', a, b) && c'[k] == Pair(s'[a], s'[b]);
    assert s[a] == s[i] && s[b] == s[j];
  }

  /** A candidate added for the last ball pairs it with an earlier ball taken
      from the filtered active list. */
  lemma LastCandidate(balls: seq<Ball>, s: seq<nat>, k: int, i: int, j: int)
    requires AllBelow(s, |balls|) && NoDuplicates(s) && |s| > 0
    requires |CandidatesOf(balls, s[..|s| - 1])| <= k < |CandidatesOf(balls, s)|
    requires 0 <= i < |s| && 0 <= j < |s|
    requires CandidatesOf(balls, s)[k] == Pair(s[i], s[j])
    ensures j == |s| - 1 && i < |s| - 1
    ensures Within(balls, s[..|s| - 1], s[|s| - 1])[k - |CandidatesOf(balls, s[..|s| - 1])|] == s[i]
  {
    var n := |s| - 1;
    var s' := s[..n];
    var c' := CandidatesOf(balls, s');
    var w := Within(balls, s', s[n]);
    assert CandidatesOf(balls, s) == c' + PairsWith(w, s[n]);
    assert CandidatesOf(balls, s)[k] == Pair(w[k - |c'|], s[n]);
    WithinMembers(balls, s', s[n]);
    assert w[k - |c'|] in s';
    var m :| 0 <= m < n && s'[m] == w[k - |c'|];
    assert s[m] == s[i];
  }

  /** Candidates come out in sweep order: of two candidates (s[i1], s[j1])
      listed before (s[i2], s[j2]), the first has the earlier current ball,
      or the same current ball and the earlier active one. */
  lemma {:induction false} CandidatesInSweepOrder(balls: seq<Ball>, s: seq<nat>,
      k1: int, k2: int, i1: int, j1: int, i2: int, j2: int)
    requires AllBelow(s, |balls|) && NoDuplicates(s)
    requires 0 <= k1 < k2 < |CandidatesOf(balls, s)|
    requires 0 <= i1 < |s| && 0 <= j1 < |s| && 0 <= i2 < |s| && 0 <= j2 < |s|
    requires CandidatesOf(balls, s)[k1] == Pair(s[i1], s[j1])
    requires CandidatesOf(balls, s)[k2] == Pair(s[i2], s[j2])
    ensures j1 < j2 || (j1 == j2 && i1 < i2)
  {
    var n := |s| - 1;
    var s' := s[..n];
    var m := |CandidatesOf(balls, s')|;
    if k2 < m {
      EarlierCandidate(balls, s, k1, i1, j1);
      EarlierCandidate(balls, s, k2, i2, j2);
      CandidatesInSweepOrder(balls, s', k1, k2, i1, j1, i2, j2);
    } else if k1 < m {
      EarlierCandidate(balls, s, k1, i1, j1);
      LastCandidate(balls, s, k2, i2, j2);
    } else {
      LastCandidate(balls, s, k1, i1, j1);
      LastCandidate(balls, s, k2, i2, j2);
      WithinInOrder(balls, s', s[n], k1 - m, k2 - m, i1, i2);
    }
  }
}
