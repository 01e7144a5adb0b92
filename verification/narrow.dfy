/** Narrow phase: the squared-distance test applied to the sweep's candidates. */
module NarrowPhase {
  import opened Vectors
  import opened State
  import opened AxisSort
  import opened Sweep

  /** The pair names two balls whose centres are closer than the sum of the radii. */
  predicate Colliding(balls: seq<Ball>, p: Pair) {
    p.a < |balls| && p.b < |balls| &&
    SqDist(balls[p.a].pos, balls[p.b].pos) < CollisionDistSq
  }

  /** The candidates that really collide, in candidate order. */
  function Collisions(balls: seq<Ball>, cands: seq<Pair>): (r: seq<Pair>)
    ensures forall p :: p in r <==> p in cands && Colliding(balls, p)
  {
    if |cands| == 0 then []
    else
      assert cands == [cands[0]] + cands[1..];
      (if Colliding(balls, cands[0]) then [cands[0]] else []) + Collisions(balls, cands[1..])
  }

  /** Keeping some candidates keeps them free of repeats. */
  lemma {:induction false} CollisionsNoDuplicates(balls: seq<Ball>, cands: seq<Pair>)
    requires NoDuplicates(cands)
    ensures NoDuplicates(Collisions(balls, cands))
  {
    if |cands| > 0 {
      var rest := cands[1..];
      CollisionsNoDuplicates(balls, rest);
      assert cands[0] !in rest by {
        forall k | 0 <= k < |rest| ensures rest[k] != cands[0] {
          assert rest[k] == cands[k + 1];
        }
      }
      ConcatNoDuplicates(if Colliding(balls, cands[0]) then [cands[0]] else [], Collisions(balls, rest));
    }
  }

  /** The test runs pair by pair: testing two runs of candidates one after the
      other gives the two results one after the other. */
  lemma {:induction false} CollisionsAppend(balls: seq<Ball>, x: seq<Pair>, y: seq<Pair>)
    ensures Collisions(balls, x + y) == Collisions(balls, x) + Collisions(balls, y)
  {
    if |x| == 0 {
      assert x + y == y;
    } else {
      var h := if Colliding(balls, x[0]) then [x[0]] else [];
      assert (x + y)[0] == x[0] && (x + y)[1..] == x[1..] + y;
      assert Collisions(balls, x + y) == h + Collisions(balls, x[1..] + y);
      assert Collisions(balls, x) == h + Collisions(balls, x[1..]);
      CollisionsAppend(balls, x[1..], y);
    }
  }

  /** The kept pairs keep their candidate order: two kept pairs come from two
      candidates in the same order. */
  lemma {:induction false} CollisionsKeepOrder(balls: seq<Ball>, cands: seq<Pair>, k1: int, k2: int)
    requires 0 <= k1 < k2 < |Collisions(balls, cands)|
    ensures exists m1, m2 :: (0 <= m1 < m2 < |cands| &&
      Collisions(balls, cands)[k1] == cands[m1] && Collisions(balls, cands)[k2] == cands[m2])
  {
    var r := Collisions(balls, cands);
    var rest := cands[1..];
    var t := Collisions(balls, rest);
    var h := if Colliding(balls, cands[0]) then [cands[0]] else [];
    assert r == h + t;
    if |h| == 1 && k1 == 0 {
      assert r[k2] == t[k2 - 1] && t[k2 - 1] in rest;
      var m :| 0 <= m < |rest| && rest[m] == t[k2 - 1];
      assert r[k1] == cands[0] && r[k2] == cands[m + 1];
    } else {
      CollisionsKeepOrder(balls, rest, k1 - |h|, k2 - |h|);
      var m1, m2 :| 0 <= m1 < m2 < |rest| && t[k1 - |h|] == rest[m1] && t[k2 - |h|] == rest[m2];
      assert r[k1] == cands[m1 + 1] && r[k2] == cands[m2 + 1];
    }
  }

  /** Collisions come out in sweep order, the order the response is applied
      in: of two collisions (s[i1], s[j1]) listed before (s[i2], s[j2]), the
      first has the earlier current ball, or the same current ball and the
      earlier active one. */
  lemma CollisionsInSweepOrder(balls: seq<Ball>, s: seq<nat>,
      k1: int, k2: int, i1: int, j1: int, i2: int, j2: int)
    requires AllBelow(s, |balls|) && NoDuplicates(s)
    requires 0 <= k1 < k2 < |Collisions(balls, CandidatesOf(balls, s))|
    requires 0 <= i1 < |s| && 0 <= j1 < |s| && 0 <= i2 < |s| && 0 <= j2 < |s|
    requires Collisions(balls, CandidatesOf(balls, s))[k1] == Pair(s[i1], s[j1])
    requires Collisions(balls, CandidatesOf(balls, s))[k2] == Pair(s[i2], s[j2])
    ensures j1 < j2 || (j1 == j2 && i1 < i2)
  {
    var c := CandidatesOf(balls, s);
    CollisionsKeepOrder(balls, c, k1, k2);
    var m1, m2 :| 0 <= m1 < m2 < |c| &&
      Collisions(balls, c)[k1] == c[m1] && Collisions(balls, c)[k2] == c[m2];
    CandidatesInSweepOrder(balls, s, m1, m2, i1, j1, i2, j2);
  }

  /** The sweep has no false negatives: over a list sorted by x, any two
      balls closer than the collision distance are a candidate pair. */
  lemma NoFalseNegatives(balls: seq<Ball>, s: seq<nat>, i: int, j: int)
    requires AllBelow(s, |balls|) && SortedByX(balls, s)
    requires 0 <= i < j < |s|
    requires SqDist(balls[s[i]].pos, balls[s[j]].pos) < CollisionDistSq
    ensures Pair(s[i], s[j]) in CandidatesOf(balls, s)
  {
    var u, v := balls[s[i]].pos, balls[s[j]].pos;
    if v.x - u.x >= SweepWindow {
      GapBoundsSqDist(u, v, SweepWindow);
    }
    assert CandidateAt(balls, s, i, j);
    CandidatesExact(balls, s, Pair(s[i], s[j]));
  }

  /** Broad phase then narrow phase finds exactly the pairs (s[i], s[j]), i < j,
      whose centres are closer than the collision distance. */
  lemma CollisionsExact(balls: seq<Ball>, s: seq<nat>, p: Pair)
    requires AllBelow(s, |balls|) && SortedByX(balls, s)
    ensures p in Collisions(balls, CandidatesOf(balls, s)) <==>
      exists i, j :: 0 <= i < j < |s| && p == Pair(s[i], s[j]) && Colliding(balls, p)
  {
    CandidatesExact(balls, s, p);
    if exists i, j :: 0 <= i < j < |s| && p == Pair(s[i], s[j]) && Colliding(balls, p) {
      var i, j :| 0 <= i < j < |s| && p == Pair(s[i], s[j]) && Colliding(balls, p);
      NoFalseNegatives(balls, s, i, j);
    }
  }

  lemma ParkedClose(u: Vec, v: Vec)
    requires u == Vec(PocketedX, 5.0) && v == Vec(PocketedX, 10.0)
    ensures SqDist(u, v) < CollisionDistSq
  {
    assert Sub(u, v) == Vec(0.0, -5.0);
    assert Sq(-5.0) == 25.0;
  }

  /** Pocketed balls are still swept and tested: two object balls parked at
      x = -50 five apart in y are reported as colliding. */
  lemma PocketedBallsCollide(balls: seq<Ball>, s: seq<nat>, i: int, j: int)
    requires AllBelow(s, |balls|) && SortedByX(balls, s)
    requires 0 <= i < j < |s|
    requires balls[s[i]].pocketed && balls[s[i]].pos == Vec(PocketedX, 5.0)
    requires balls[s[j]].pocketed && balls[s[j]].pos == Vec(PocketedX, 10.0)
    ensures Pair(s[i], s[j]) in Collisions(balls, CandidatesOf(balls, s))
  {
    ParkedClose(balls[s[i]].pos, balls[s[j]].pos);
    CollisionsExact(balls, s, Pair(s[i], s[j]));
  }
}
