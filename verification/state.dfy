/** The table, its constants and the state one frame of the game reads and writes. */
module State {
  import opened Vectors

  /** A ball. `number` is its index in the ball array; 15 is the cue ball.
      The sprite `angle` and the debug `color` tag are not modelled. */
  datatype Ball = Ball(number: int, pos: Vec, vel: Vec, pocketed: bool)

  /** The cue stick: the aim point follows the mouse, `power` grows while charging. */
  datatype Stick = Stick(aim: Vec, power: real, charging: bool)

  /** A pair of ball numbers handed from the sweep to the collision test:
      `a` was already on the active list, `b` is the ball being swept. */
  datatype Pair = Pair(a: nat, b: nat)

  /** The whole game state: the balls, the axis list (ball numbers in the
      order of the last sort by x) and the stick. */
  datatype World = World(balls: seq<Ball>, axis: seq<nat>, stick: Stick)

  const BallCount: nat := 16
  const CueBall: nat := 15

  /** The six pocket centres: four corners and two mid-rail. */
  const Pockets: seq<Vec> := [
    Vec(0.0, 0.0), Vec(512.0, 0.0), Vec(1024.0, 0.0),
    Vec(0.0, 512.0), Vec(512.0, 512.0), Vec(1024.0, 512.0)
  ]

  /** A ball is captured when its squared distance to a pocket centre is below 25 * 25. */
  const PocketRadiusSq: real := 625.0

  /** Cushions: a coordinate outside [15, 1009] x [15, 497] reverses that velocity component. */
  const CushionLeft: real := 15.0
  const CushionRight: real := 1009.0
  const CushionTop: real := 15.0
  const CushionBottom: real := 497.0

  /** Velocity is multiplied by this every frame. */
  const FrictionFactor: real := 0.999

  /** Stick power gained per millisecond of charging. */
  const ChargeRate: real := 0.1

  /** Where a scratched cue ball is put back (its rack spot). */
  const ScratchSpot: Vec := Vec(732.0, 266.0)

  /** The x coordinate a pocketed object ball is parked at. */
  const PocketedX: real := -50.0

  /** The sweep keeps a ball active while the current ball is less than 30 to its right. */
  const SweepWindow: real := 30.0

  /** Two balls collide when their squared centre distance is below (15 + 15)^2. */
  const CollisionDistSq: real := 900.0

  /** The rack spots, indexed by ball number. */
  const RackSpots: seq<Vec> := [
    Vec(266.0, 266.0),  // 0
    Vec(240.0, 250.0),  // 1
    Vec(212.0, 298.0),  // 2
    Vec(185.0, 218.0),  // 3
    Vec(185.0, 282.0),  // 4
    Vec(157.0, 236.0),  // 5
    Vec(157.0, 297.0),  // 6
    Vec(212.0, 266.0),  // 7
    Vec(240.0, 281.0),  // 8
    Vec(212.0, 236.0),  // 9
    Vec(185.0, 250.0),  // 10
    Vec(185.0, 314.0),  // 11
    Vec(157.0, 205.0),  // 12
    Vec(157.0, 266.0),  // 13
    Vec(157.0, 328.0),  // 14
    ScratchSpot         // 15, the cue ball
  ]

  predicate NoDuplicates<T(==)>(s: seq<T>) {
    forall i, j :: 0 <= i < j < |s| ==> s[i] != s[j]
  }

  /** Every entry of `s` is a valid index into a sequence of length `n`. */
  predicate AllBelow(s: seq<nat>, n: nat) {
    forall i :: 0 <= i < |s| ==> s[i] < n
  }

  /** Both ball numbers of every pair index into a sequence of length `n`. */
  predicate PairsBelow(ps: seq<Pair>, n: nat) {
    forall p :: p in ps ==> p.a < n && p.b < n
  }

  /** `axis` lists each of the ball numbers 0 .. n-1 exactly once. */
  predicate IsPermutation(axis: seq<nat>, n: nat) {
    |axis| == n && AllBelow(axis, n) && NoDuplicates(axis)
  }

  /** Sixteen balls, each at the index of its number, and an axis list over them. */
  predicate Valid(w: World) {
    && |w.balls| == BallCount
    && (forall i :: 0 <= i < |w.balls| ==> w.balls[i].number == i)
    && IsPermutation(w.axis, BallCount)
  }

  function Range(n: nat): (r: seq<nat>)
    ensures |r| == n
    ensures forall i :: 0 <= i < n ==> r[i] == i
  {
    seq(n, i requires 0 <= i < n => i)
  }

  /** The state after start-up: balls racked at rest, none pocketed, the axis
      list in ball-number order (it was sorted while every ball was still at
      the origin, and the sort is stable), and an idle stick. */
  function Initial(): (w: World)
    ensures Valid(w)
    ensures forall i :: 0 <= i < |w.balls| ==>
      w.balls[i].pos == RackSpots[i] && w.balls[i].vel == Zero && !w.balls[i].pocketed
    ensures w.balls[CueBall].pos == ScratchSpot
    ensures w.axis == Range(BallCount)
    ensures w.stick.aim == Zero && w.stick.power == 0.0 && !w.stick.charging
  {
    var balls := seq(BallCount, i requires 0 <= i < BallCount => Ball(i, RackSpots[i], Zero, false));
    World(balls, Range(BallCount), Stick(Zero, 0.0, false))
  }
}
