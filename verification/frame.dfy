/** One call of the per-frame update: charge, move every ball, re-sort the
    axis list, sweep, test, and hand the colliding pairs to the response. */
module Frame {
  import opened Vectors
  import opened State
  import opened Cue
  import opened Motion
  import opened PocketCapture
  import opened AxisSort
  import opened Sweep
  import opened NarrowPhase

  /** One ball's part of the frame: Euler step, cushions, friction, pockets. */
  function StepBall(b: Ball, index: nat, dt: real): (r: Ball)
    ensures r.number == b.number
  {
    CheckPockets(Friction(Bounce(Advance(b, dt))), index)
  }

  /** With `m` the centre after the Euler step, a ball's frame ends in one of
      three ways: clear of the pockets it sits at `m` with each velocity
      component reversed if `m` is past that axis's cushion, then scaled by
      the friction factor; in a pocket the cue ball is stopped on the scratch
      spot, and any other ball is stopped, pocketed and parked at x = -50. */
  lemma StepBallOutcome(b: Ball, index: nat, dt: real)
    ensures var r := StepBall(b, index, dt); var m := Advance(b, dt).pos;
      && (!InAnyPocket(m) ==>
            && r.pos == m && r.pocketed == b.pocketed
            && r.vel.x == FrictionFactor * (if OutX(m.x) then -b.vel.x else b.vel.x)
            && r.vel.y == FrictionFactor * (if OutY(m.y) then -b.vel.y else b.vel.y))
      && (InAnyPocket(m) && index == CueBall ==>
            r.pos == ScratchSpot && r.vel == Zero && r.pocketed == b.pocketed)
      && (InAnyPocket(m) && index != CueBall ==>
            r.pos == Vec(PocketedX, m.y) && r.vel == Zero && r.pocketed)
  {
    var m := Advance(b, dt).pos;
    var a := Advance(b, dt);
    assert a.pos == m;
    var bo := Bounce(a);
    var f := Friction(bo);
    assert f.pos == m && f.pocketed == b.pocketed;
    assert f.vel.x == FrictionFactor * bo.vel.x && f.vel.y == FrictionFactor * bo.vel.y;
    assert bo.vel.x == (if OutX(m.x) then -b.vel.x else b.vel.x);
    assert bo.vel.y == (if OutY(m.y) then -b.vel.y else b.vel.y);
    assert StepBall(b, index, dt) == CheckPockets(f, index);
  }

  /** A ball only ever becomes pocketed, and the cue ball never does. */
  lemma StepBallPocketed(b: Ball, index: nat, dt: real)
    ensures b.pocketed ==> StepBall(b, index, dt).pocketed
    ensures index == CueBall ==> StepBall(b, index, dt).pocketed == b.pocketed
  {
    StepBallOutcome(b, index, dt);
  }

  /** A pocketed ball parked at rest on the parking line stays exactly where it is. */
  lemma ParkedBallStaysParked(b: Ball, index: nat, dt: real)
    requires b.pocketed && b.vel == Zero && b.pos.x == PocketedX
    ensures StepBall(b, index, dt) == b
  {
    var a := Advance(b, dt);
    assert Scale(dt, Zero) == Zero;
    assert a == b;
    assert Bounce(b).vel == Zero by {
      assert -0.0 == 0.0;
    }
    assert Bounce(b) == b;
    assert Friction(b) == b;
    ParkingClear(b.pos.y);
  }

  /** The moving pass over all balls; each ball's step reads only that ball. */
  function StepAll(balls: seq<Ball>, dt: real): (r: seq<Ball>)
    ensures |r| == |balls|
    ensures forall i :: 0 <= i < |balls| ==> r[i] == StepBall(balls[i], i, dt)
  {
    seq(|balls|, i requires 0 <= i < |balls| => StepBall(balls[i], i, dt))
  }

  /** The position and velocity the collision response writes back to a ball. */
  datatype Kinematics = Kinematics(pos: Vec, vel: Vec)

  /** Ball number `i` appears in some pair. */
  predicate Touched(pairs: seq<Pair>, i: nat) {
    exists p :: p in pairs && (p.a == i || p.b == i)
  }

  /** The response to one pair, seeing both balls as earlier pairs left them. */
  function ResolvePair(balls: seq<Ball>, p: Pair, resolve: (Ball, Ball) -> (Kinematics, Kinematics)): (r: seq<Ball>)
    requires p.a < |balls| && p.b < |balls|
    ensures |r| == |balls|
    ensures forall i :: 0 <= i < |balls| ==>
      r[i].number == balls[i].number && r[i].pocketed == balls[i].pocketed
    ensures forall i :: 0 <= i < |balls| && i != p.a && i != p.b ==> r[i] == balls[i]
  {
    var (ka, kb) := resolve(balls[p.a], balls[p.b]);
    var balls' := balls[p.a := balls[p.a].(pos := ka.pos, vel := ka.vel)];
    balls'[p.b := balls'[p.b].(pos := kb.pos, vel := kb.vel)]
  }

  /** The response applied to the colliding pairs in order. Only positions and
      velocities change, and only of balls that are in some pair. */
  function ResolveAll(balls: seq<Ball>, pairs: seq<Pair>, resolve: (Ball, Ball) -> (Kinematics, Kinematics)): (r: seq<Ball>)
    requires PairsBelow(pairs, |balls|)
    ensures |r| == |balls|
    ensures forall i :: 0 <= i < |balls| ==>
      r[i].number == balls[i].number && r[i].pocketed == balls[i].pocketed
    ensures forall i :: 0 <= i < |balls| && !Touched(pairs, i) ==> r[i] == balls[i]
    decreases |pairs|
  {
    if |pairs| == 0 then balls
    else
      var rest := pairs[1..];
      assert forall p :: p in rest ==> p in pairs;
      assert forall i :: Touched(rest, i) ==> Touched(pairs, i);
      assert pairs[0] in pairs;
      ResolveAll(ResolvePair(balls, pairs[0], resolve), rest, resolve)
  }

  /** Moving all balls keeps numbers, only ever sets the pocketed flag, and
      never sets it on the cue ball. */
  lemma StepAllPocketed(balls: seq<Ball>, dt: real)
    requires |balls| == BallCount
    ensures forall i :: 0 <= i < BallCount ==> StepAll(balls, dt)[i].number == balls[i].number
    ensures forall i :: 0 <= i < BallCount && balls[i].pocketed ==> StepAll(balls, dt)[i].pocketed
    ensures StepAll(balls, dt)[CueBall].pocketed == balls[CueBall].pocketed
  {
    var moved := StepAll(balls, dt);
    forall i | 0 <= i < BallCount
      ensures balls[i].pocketed ==> moved[i].pocketed
    {
      StepBallPocketed(balls[i], i, dt);
    }
    StepBallPocketed(balls[CueBall], CueBall, dt);
  }

  /** Broad and narrow phase over an axis list sorted by x: the result is
      exactly the pairs (earlier, later) of balls closer than the collision
      distance, each listed once. */
  method Detect(balls: seq<Ball>, axis: seq<nat>) returns (collisions: seq<Pair>)
    requires IsPermutation(axis, |balls|) && SortedByX(balls, axis)
    ensures collisions == Collisions(balls, CandidatesOf(balls, axis))
    ensures PairsBelow(collisions, |balls|)
    ensures NoDuplicates(collisions)
    ensures forall p :: p in collisions <==>
      exists i, j :: 0 <= i < j < |axis| && p == Pair(axis[i], axis[j]) && Colliding(balls, p)
  {
    var cands := SweepAndPrune(balls, axis);
    CandidatesNoDuplicates(balls, axis);
    collisions := Collisions(balls, cands);
    CollisionsNoDuplicates(balls, cands);
    forall p ensures p in collisions <==>
      exists i, j :: 0 <= i < j < |axis| && p == Pair(axis[i], axis[j]) && Colliding(balls, p)
    {
      CollisionsExact(balls, axis, p);
    }
  }

  /** A response that writes back what it was given changes no ball: all
      changes to the balls after detection come from the response itself. */
  lemma {:induction false} NeutralResponseKeepsBalls(balls: seq<Ball>, pairs: seq<Pair>,
                                                     resolve: (Ball, Ball) -> (Kinematics, Kinematics))
    requires PairsBelow(pairs, |balls|)
    requires forall x, y :: resolve(x, y) == (Kinematics(x.pos, x.vel), Kinematics(y.pos, y.vel))
    ensures ResolveAll(balls, pairs, resolve) == balls
    decreases |pairs|
  {
    if |pairs| > 0 {
      var p := pairs[0];
      assert p in pairs;
      assert ResolvePair(balls, p, resolve) == balls;
      assert forall q :: q in pairs[1..] ==> q in pairs;
      NeutralResponseKeepsBalls(balls, pairs[1..], resolve);
    }
  }

  /** A strike keeps the world well formed. */
  lemma ReleaseKeepsValid(w: World)
    requires Valid(w)
    ensures Release(w).Some? ==> Valid(Release(w).value)
  {
  }

  /** The part of the frame after the balls have moved: the stable re-sort
      of the axis list, then detection over the sorted list. */
  method SortAndDetect(balls: seq<Ball>, axis: seq<nat>) returns (sorted: seq<nat>, collisions: seq<Pair>)
    requires IsPermutation(axis, |balls|)
    ensures sorted == SortByX(balls, axis)
    ensures IsPermutation(sorted, |balls|) && SortedByX(balls, sorted)
    ensures multiset(sorted) == multiset(axis)
    ensures collisions == Collisions(balls, CandidatesOf(balls, sorted))
    ensures PairsBelow(collisions, |balls|)
    ensures NoDuplicates(collisions)
    ensures forall p :: p in collisions <==>
      exists i, j :: 0 <= i < j < |sorted| && p == Pair(sorted[i], sorted[j]) && Colliding(balls, p)
  {
    SortAxis(balls, axis);
    sorted := SortByX(balls, axis);
    collisions := Detect(balls, sorted);
  }

  /** After moving and the response, numbers are kept, no pocketed flag is
      cleared, and the cue ball's flag is as before. */
  lemma FrameKeepsFlags(balls: seq<Ball>, dt: real, pairs: seq<Pair>,
                        resolve: (Ball, Ball) -> (Kinematics, Kinematics))
    requires |balls| == BallCount && PairsBelow(pairs, BallCount)
    ensures var r := ResolveAll(StepAll(balls, dt), pairs, resolve);
      && |r| == BallCount
      && (forall i :: 0 <= i < BallCount ==> r[i].number == balls[i].number)
      && (forall i :: 0 <= i < BallCount && balls[i].pocketed ==> r[i].pocketed)
      && r[CueBall].pocketed == balls[CueBall].pocketed
  {
    StepAllPocketed(balls, dt);
  }

  /** The frame. The stick charges; every ball moves, bounces, slows and is
      tested against the pockets; the axis list is stably re-sorted by the
      moved x; `collisions` is exactly the set of pairs (earlier, later in that
      order) of moved balls whose centres are closer than the collision
      distance, each listed once, in sweep order (`CollisionsInSweepOrder`);
      the response is then applied to them in that order. */
  method Update(w: World, dt: real, resolve: (Ball, Ball) -> (Kinematics, Kinematics))
    returns (r: World, collisions: seq<Pair>)
    requires Valid(w)
    ensures Valid(r)
    ensures r.stick.aim == w.stick.aim && r.stick.charging == w.stick.charging
    ensures w.stick.charging ==> r.stick.power == w.stick.power + ChargeRate * dt
    ensures !w.stick.charging ==> r.stick.power == w.stick.power
    ensures r.axis == SortByX(StepAll(w.balls, dt), w.axis)
    ensures SortedByX(StepAll(w.balls, dt), r.axis)
    ensures multiset(r.axis) == multiset(w.axis)
    ensures collisions == Collisions(StepAll(w.balls, dt), CandidatesOf(StepAll(w.balls, dt), r.axis))
    ensures forall p :: p in collisions <==>
      exists i, j :: 0 <= i < j < BallCount && p == Pair(r.axis[i], r.axis[j])
        && Colliding(StepAll(w.balls, dt), p)
    ensures NoDuplicates(collisions)
    ensures PairsBelow(collisions, BallCount)
    ensures r.balls == ResolveAll(StepAll(w.balls, dt), collisions, resolve)
    ensures forall i :: 0 <= i < BallCount && w.balls[i].pocketed ==> r.balls[i].pocketed
    ensures r.balls[CueBall].pocketed == w.balls[CueBall].pocketed
  {
    var stick := Charge(w.stick, dt);
    var moved := StepAll(w.balls, dt);
    var axis;
    axis, collisions := SortAndDetect(moved, w.axis);
    FrameKeepsFlags(w.balls, dt, collisions, resolve);
    r := World(ResolveAll(moved, collisions, resolve), axis, stick);
  }
}
