/** The cue stick: aiming, charging while the button is held, and the strike on release. */
module Cue {
  import opened Vectors
  import opened State
  import opened Wrappers

  /** Mouse move: the aim point follows the mouse. */
  function Aim(s: Stick, x: real, y: real): (r: Stick)
    ensures r.aim == Vec(x, y)
    ensures r.power == s.power && r.charging == s.charging
  {
    s.(aim := Vec(x, y))
  }

  /** Button press: start charging from zero power. */
  function Press(s: Stick): (r: Stick)
    ensures r.power == 0.0 && r.charging
    ensures r.aim == s.aim
  {
    s.(power := 0.0, charging := true)
  }

  /** The first step of a frame: a charging stick gains power in proportion to the elapsed time. */
  function Charge(s: Stick, dt: real): (r: Stick)
    ensures r.aim == s.aim && r.charging == s.charging
    ensures s.charging ==> r.power - s.power == ChargeRate * dt
    ensures !s.charging ==> r.power == s.power
  {
    if s.charging then s.(power := s.power + ChargeRate * dt) else s
  }

  function TotalTime(dts: seq<real>): real {
    if |dts| == 0 then 0.0 else TotalTime(dts[..|dts| - 1]) + dts[|dts| - 1]
  }

  /** The stick after one frame per entry of `dts`, with no button event in between. */
  function ChargeFrames(s: Stick, dts: seq<real>): Stick {
    if |dts| == 0 then s else Charge(ChargeFrames(s, dts[..|dts| - 1]), dts[|dts| - 1])
  }

  /** Over any run of frames the power of a charging stick grows by the rate times the total time. */
  lemma {:induction false} ChargeAccumulates(s: Stick, dts: seq<real>)
    requires s.charging
    ensures ChargeFrames(s, dts).charging
    ensures ChargeFrames(s, dts).power == s.power + ChargeRate * TotalTime(dts)
  {
    if |dts| > 0 {
      ChargeAccumulates(s, dts[..|dts| - 1]);
    }
  }

  /** An idle stick keeps its power however long the frames run. */
  lemma {:induction false} IdleKeepsPower(s: Stick, dts: seq<real>)
    requires !s.charging
    ensures ChargeFrames(s, dts) == s
  {
    if |dts| > 0 {
      IdleKeepsPower(s, dts[..|dts| - 1]);
    }
  }

  /** Pressing and then holding for some frames charges exactly rate times the time held. */
  lemma PressThenHold(s: Stick, dts: seq<real>)
    ensures ChargeFrames(Press(s), dts).power == ChargeRate * TotalTime(dts)
  {
    ChargeAccumulates(Press(s), dts);
  }

  /** The vector from the aim point to the cue ball centre. */
  function StrikeDirection(w: World): Vec
    requires |w.balls| == BallCount
  {
    Sub(w.balls[CueBall].pos, w.stick.aim)
  }

  /** Button release. The cue ball's velocity becomes `power * d / |d|^2` where
      `d` runs from the aim point to the cue ball: the code divides by the
      squared length, so the cue ball leaves at speed `power / |d|`. When the
      aim point is the cue ball centre the divisor is 0 and the code produces a
      non-finite velocity; that outcome is `None` (over the reals the divisor
      is 0 exactly when the aim point is the cue ball centre). The release
      happens whether or not the stick was charging, and power is not reset. */
  function Release(w: World): (r: Option<World>)
    requires |w.balls| == BallCount
    ensures r.None? <==> w.stick.aim == w.balls[CueBall].pos
    ensures r.Some? ==> |r.value.balls| == BallCount
    ensures r.Some? ==>
      var d := StrikeDirection(w);
      var v := r.value.balls[CueBall].vel;
      && Scale(Norm2(d), v) == Scale(w.stick.power, d)
      && Dot(v, d) == w.stick.power
      && Norm2(v) * Norm2(d) == Sq(w.stick.power)
      && r.value.balls[CueBall] == w.balls[CueBall].(vel := v)
      && (forall i :: 0 <= i < BallCount && i != CueBall ==> r.value.balls[i] == w.balls[i])
      && r.value.axis == w.axis
      && r.value.stick == w.stick.(charging := false)
  {
    var d := StrikeDirection(w);
    if w.stick.aim == w.balls[CueBall].pos then
      None
    else
      assert d != Zero;
      Norm2Positive(d);
      SpeedFromScaling(Norm2(d), w.stick.power, StrikeVelocity(w.stick.power, d), d);
      var cue := w.balls[CueBall].(vel := StrikeVelocity(w.stick.power, d));
      Some(World(w.balls[CueBall := cue], w.axis, w.stick.(charging := false)))
  }

  /** The cue velocity for power `p` along `d`: `p * d / |d|^2`. It is the
      vector whose product with `|d|^2` is `p * d`, and its dot product with
      `d` is `p`. */
  function StrikeVelocity(p: real, d: Vec): (v: Vec)
    requires Norm2(d) != 0.0
    ensures Scale(Norm2(d), v) == Scale(p, d)
    ensures Dot(v, d) == p
  {
    var n := Norm2(d);
    assert n * (p * (d.x / n)) == p * d.x;
    assert n * (p * (d.y / n)) == p * d.y;
    assert (p * (d.x / n)) * d.x + (p * (d.y / n)) * d.y == p * (d.x * d.x + d.y * d.y) / n;
    assert d.x * d.x + d.y * d.y == n;
    Scale(p, Vec(d.x / n, d.y / n))
  }

  /** If `|d|^2 * v == p * d` then `|v|^2 * |d|^2 == p^2`: the speed is `p / |d|`. */
  lemma SpeedFromScaling(n: real, p: real, v: Vec, d: Vec)
    requires n == Norm2(d) && n != 0.0
    requires Scale(n, v) == Scale(p, d)
    ensures Norm2(v) * n == Sq(p)
  {
    assert n * v.x == p * d.x && n * v.y == p * d.y;
    assert (n * v.x) * (n * v.x) == (p * d.x) * (p * d.x);
    assert (n * v.y) * (n * v.y) == (p * d.y) * (p * d.y);
    assert n * n * (v.x * v.x + v.y * v.y) == p * p * (d.x * d.x + d.y * d.y);
    assert d.x * d.x + d.y * d.y == n;
    assert v.x * v.x + v.y * v.y == Norm2(v);
    assert n * (n * Norm2(v)) == n * (p * p);
  }

  /** The cue ball on its spot with the aim point 50 to its right gives
      `d == (-50, 0)`. Any velocity meeting the release contract for that `d`
      and power 500 is `(-10, 0)`: speed 10, where a normalised direction
      would give speed 500. */
  lemma ReleaseExample(d: Vec, v: Vec)
    requires d == Vec(-50.0, 0.0)
    requires Scale(Norm2(d), v) == Scale(500.0, d)
    ensures v == Vec(-10.0, 0.0)
  {
    assert Norm2(d) == 2500.0;
  }
}
