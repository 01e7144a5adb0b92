# Pool table physics step

A model of the per-frame physics of a browser pool game (`update` in
src/app.js) and of the mouse handlers that drive the cue stick. The game keeps
sixteen balls (15 is the cue ball), six pockets and a stick. Each frame:

1. the stick gains power if it is charging;
2. every ball takes an explicit Euler step, bounces off the cushions, is slowed
   by friction and is tested against the pockets;
3. an axis list of all balls is re-sorted by x;
4. a sweep-and-prune pass proposes candidate pairs less than 30 apart in x;
5. a candidate collides when its squared centre distance is below 900;
6. the colliding pairs are handed, in order, to the collision response.

The JavaScript numbers are modelled as exact `real`s. Each ball is identified
by its number, which is also its index in the ball list. The axis list is a
sequence of ball numbers, and a pair holds two ball numbers: the earlier
(active) ball, then the current one. The collision response is a function
parameter of `Frame.Update`.

Modules, in program order:

- `Vectors`: 2-D vectors and squared distance.
- `State`: balls, stick, world, table constants, rack and start-up state.
- `Cue`: the stick's mouse handlers and its charge.
- `Motion`: the Euler step, cushion bounce and friction.
- `PocketCapture`: the pocket loop, scratch and pocketing.
- `AxisSort`: stable sort of the axis list by x.
- `Sweep`: the active-list sweep and the candidate pairs.
- `NarrowPhase`: the squared-distance test.
- `Frame`: the whole `update`.

The model follows the code as written, including where it departs from what
the game evidently means to do:

- Pocketed balls are not taken out of play. They keep moving, and they are
  still sorted, swept and tested. Two parked balls close together are
  reported as a collision (`NarrowPhase.PocketedBallsCollide`).
- The strike divides the direction by its squared length, not by its length.
  The cue ball therefore leaves at speed `power / |d|` rather than `power`.
  With `d = (-50, 0)` and power 500 it leaves at speed 10
  (`Cue.ReleaseExample`).
- The release handler does not check that the stick was charging.
- The start-up stick literal sets a field named `charge`, while every reader
  uses `charging`. The stick therefore starts idle.

## Model

| member | source | states |
|---|---|---|
| State.Initial | src/app.js:22-79 | sixteen well-formed balls, each at its rack spot, at rest and not pocketed; the cue ball is on (732, 266); the axis list is exactly 0, 1, …, 15 in ball-number order (the start-up sort ran while every ball was at the origin, and ties keep their order); the stick aims at (0, 0), is idle and has power 0 |
| Cue.Aim | src/app.js:85-89 | a mouse move sets the aim point to the mouse position and leaves power and charging alone |
| Cue.Press | src/app.js:94-99 | a button press starts charging from power 0, keeping the aim point |
| Cue.Charge | src/app.js:140-142 | a charging stick gains 0.1 power per millisecond of the frame; an idle stick keeps its power; aim and charging never change |
| Cue.ChargeAccumulates | src/app.js:140-142 | over any run of frames a charging stick stays charging and gains 0.1 times the total elapsed time |
| Cue.IdleKeepsPower | src/app.js:140-142 | over any run of frames an idle stick is unchanged |
| Cue.PressThenHold | src/app.js:94-142 | pressing and then holding for some frames gives power exactly 0.1 times the time held |
| Cue.Release | src/app.js:104-115 | the strike is undefined exactly when the aim point is the cue ball centre; otherwise the cue velocity v satisfies \|d\|^2 v = power d, v·d = power and \|v\|^2 \|d\|^2 = power^2, where d runs from the aim point to the cue ball; only the cue ball's velocity changes, and the stick stops charging |
| Cue.StrikeVelocity | src/app.js:108-112 | the divided-and-scaled direction is the vector whose product with \|d\|^2 is power times d, with dot product power against d |
| Cue.SpeedFromScaling | src/app.js:108-112 | any such velocity has squared speed power^2 / \|d\|^2, so the speed is power / \|d\| |
| Cue.ReleaseExample | src/app.js:104-115 | with d = (-50, 0) and power 500 the velocity is (-10, 0), not a speed-500 vector |
| Motion.Advance | src/app.js:147-148 | the position moves by the elapsed time times the velocity; nothing else changes |
| Motion.AdvanceCompose | src/app.js:147-148 | two Euler steps of s and t at the same velocity equal one step of s + t |
| Motion.Bounce | src/app.js:150-155 | each velocity component is negated exactly when the position is past that axis's cushion (x outside 15..1009, y outside 15..497); position, number and pocketed flag are kept |
| Motion.Friction | src/app.js:157-158 | the velocity is scaled by 0.999 and nothing else changes |
| Motion.BounceInvolution | src/app.js:150-155 | bouncing twice at the same place restores the ball |
| Motion.BounceKeepsSpeed | src/app.js:150-155 | a bounce preserves the squared speed |
| Motion.FrictionDecaysSpeed | src/app.js:157-158 | friction multiplies the squared speed by 0.999^2 and keeps the direction |
| PocketCapture.Capture | src/app.js:164-177 | a captured cue ball stops on the scratch spot, keeping its pocketed flag; any other ball stops, is flagged pocketed and moves to x = -50 with y kept; either way it ends outside every pocket |
| PocketCapture.ScratchSpotClear | src/app.js:165-170 | the scratch spot (732, 266) lies outside all six pockets |
| PocketCapture.ParkingClear | src/app.js:172-176 | every point with x = -50 lies outside all six pockets |
| PocketCapture.ParkedFar | src/app.js:14-21 | a point with x = -50 is at least 25 from any pocket with non-negative x |
| PocketCapture.PocketLoopCapturesOnce | src/app.js:161-179 | the loop over the pockets, each test seeing the ball as earlier tests left it, captures at most once, and exactly when some pocket contains the centre |
| PocketCapture.CheckPockets | src/app.js:161-179 | the as-written pocket loop `PocketLoop` run from the first pocket: a ball inside any pocket is captured; a ball outside every pocket is unchanged |
| PocketCapture.CheckPocketsIdempotent | src/app.js:161-179 | running the pocket tests twice gives the same ball as running them once |
| AxisSort.Insert | src/app.js:184 | inserting a ball number adds exactly that number to the list's multiset |
| AxisSort.SortByX | src/app.js:184 | the sorted axis list is a rearrangement of the input list |
| AxisSort.InsertSorted | src/app.js:184 | insertion into a list sorted by x keeps it sorted |
| AxisSort.InsertNoDuplicates | src/app.js:184 | insertion of a new number keeps the list free of repeats |
| AxisSort.SortSorted | src/app.js:184 | the sort's output is ascending in x |
| AxisSort.SortNoDuplicates | src/app.js:184 | the sort keeps the list free of repeats |
| AxisSort.InsertKeepsTies | src/app.js:184 | an inserted number goes before every entry with the same x, and the other entries keep their order |
| AxisSort.SortStable | src/app.js:184 | the sort is stable: for every x value, the entries with that x appear in the output in their input order; with sortedness and the multiset this fixes the output |
| AxisSort.SortAxis | src/app.js:184 | sorting an axis list holding each ball once gives an axis list holding each ball once, ascending in x, with the same multiset |
| Sweep.Within | src/app.js:205-207 | the filter keeps only ball numbers |
| Sweep.WithinMembers | src/app.js:205-207 | a ball survives the filter exactly when it was in the list and lies less than 30 to the left of the current ball |
| Sweep.PairsWith | src/app.js:212-214 | the current ball is paired with every survivor, in active-list order |
| Sweep.CandidatesExact | src/app.js:197-219 | a pair is a candidate exactly when it is (s[i], s[j]) with i < j and s[j] less than 30 right of s[i] |
| Sweep.CandidatesSound | src/app.js:197-219 | every emitted candidate is a pair (s[i], s[j]) with i < j whose x gap is below 30 |
| Sweep.CandidatesComplete | src/app.js:197-219 | every pair (s[i], s[j]) with i < j and x gap below 30 is emitted |
| Sweep.WithinNarrows | src/app.js:205-207 | filtering for one ball and then for a ball further right is the same as filtering for the second ball alone |
| Sweep.WithinAppendSelf | src/app.js:205-218 | the current ball, pushed onto the active list, survives its own filter |
| Sweep.SweepAndPrune | src/app.js:188-219 | over an axis list sorted by x, the sweep's output is exactly the candidate pairs characterised above |
| Sweep.CandidatesCharacterized | src/app.js:188-219 | the same characterisation for every pair at once |
| Sweep.WithinNoDuplicates | src/app.js:205-207 | the active list never repeats a ball |
| Sweep.CandidatesNoDuplicates | src/app.js:197-219 | no candidate pair is emitted twice |
| Sweep.CandidatesOrdered | src/app.js:197-219 | in every candidate the two balls differ, the active ball is at most as far right as the current one and less than 30 to its left, and the reversed pair is never a candidate |
| Sweep.WithinInOrder | src/app.js:205-207 | the filter keeps the active list's order: an earlier survivor comes from an earlier position |
| Sweep.EarlierCandidate | src/app.js:212-213 | a candidate emitted before the last ball's turn pairs two balls both before the last one, at the same positions |
| Sweep.LastCandidate | src/app.js:212-213 | a candidate emitted on the last ball's turn pairs the last ball with an earlier active ball |
| Sweep.CandidatesInSweepOrder | src/app.js:197-219 | candidates are listed in sweep order: of (s[i1], s[j1]) before (s[i2], s[j2]), j1 < j2, or j1 = j2 and i1 < i2 |
| NarrowPhase.Collisions | src/app.js:225-247 | a pair is kept exactly when it is a candidate naming two balls whose squared centre distance is below 900 |
| NarrowPhase.CollisionsAppend | src/app.js:225-247 | the test goes pair by pair: testing x then y gives the result for x followed by the result for y |
| NarrowPhase.CollisionsKeepOrder | src/app.js:225-247 | any two kept pairs come from candidates in the same order |
| NarrowPhase.CollisionsInSweepOrder | src/app.js:184-250 | the collisions, in the order the response is applied, are in sweep order: of (s[i1], s[j1]) before (s[i2], s[j2]), j1 < j2, or j1 = j2 and i1 < i2 |
| NarrowPhase.CollisionsNoDuplicates | src/app.js:225-247 | the kept pairs repeat nothing when the candidates repeat nothing |
| NarrowPhase.NoFalseNegatives | src/app.js:184-219 | over a list sorted by x, any two balls with squared distance below 900 are a candidate pair |
| NarrowPhase.CollisionsExact | src/app.js:184-247 | broad phase then narrow phase report exactly the pairs (s[i], s[j]), i < j, whose centres are closer than 30 |
| NarrowPhase.ParkedClose | src/app.js:236-240 | two parked centres 5 apart in y are within the collision distance |
| NarrowPhase.PocketedBallsCollide | src/app.js:161-247 | two pocketed balls parked at (-50, 5) and (-50, 10) are reported as colliding |
| Frame.StepBall | src/app.js:145-180 | a ball's frame keeps its number |
| Frame.StepBallOutcome | src/app.js:145-180 | with m the centre after the Euler step: outside every pocket the ball sits at m, and each velocity component is reversed if m is past that cushion and then scaled by 0.999; in a pocket the cue ball stops on the scratch spot, and any other ball stops, is pocketed and sits at (-50, m.y) |
| Frame.StepBallPocketed | src/app.js:164-177 | a pocketed ball stays pocketed, and the cue ball's flag never changes |
| Frame.ParkedBallStaysParked | src/app.js:145-180 | a pocketed ball at rest on the line x = -50 is a fixed point of the per-ball step |
| Frame.StepAll | src/app.js:145-180 | every ball takes its own step, independently of the others |
| Frame.StepAllPocketed | src/app.js:145-180 | across all balls, numbers are kept, pocketed flags are only ever set, and the cue ball's never is |
| Frame.ResolvePair | src/app.js:250-280 | the response to one pair changes only the positions and velocities of the two balls in it |
| Frame.ResolveAll | src/app.js:250-280 | applying the response to the pairs in order keeps numbers and pocketed flags, and leaves every ball outside all pairs unchanged |
| Frame.NeutralResponseKeepsBalls | src/app.js:250-280 | a response that writes back what it reads changes nothing |
| Frame.ReleaseKeepsValid | src/app.js:104-115 | a strike keeps the world well formed |
| Frame.Detect | src/app.js:188-247 | over an axis list sorted by x, the detected list is the narrow-phase filter of the reference candidate list, in that order; as a set it is exactly the (earlier, later) pairs closer than 30, each listed once |
| Frame.SortAndDetect | src/app.js:184-247 | the stable re-sort, then detection over the sorted list, with the properties above |
| Frame.FrameKeepsFlags | src/app.js:145-280 | after moving and the response, numbers are kept, no pocketed flag is cleared and the cue ball's flag is unchanged |
| Frame.Update | src/app.js:137-281 | the frame keeps the world well formed; it charges the stick as above; it stably re-sorts the axis list by the moved x, keeping its multiset; its collisions are the narrow-phase filter of the reference candidate list over that axis, in sweep order, and as a set exactly the (earlier, later) pairs of moved balls within the collision distance, each once; the balls are the moved balls after the response; no pocketed flag is cleared and the cue ball's never changes |

## Left out

- The collision response at src/app.js:250-280 is not modelled numerically. It relies on `Vector.magnitude`, `normalize` and `rotate` from ./vector, which is not part of this model. It also uses square roots, `Math.atan2` and the overlap constant 32. It is the `resolve` parameter of `Frame.Update`, which returns the new position and velocity of both balls.
- Frame.ResolveAll: states only which balls and fields the response may change, not the resulting velocities, because the response itself is a parameter.
- Floating point: rounding, `NaN` and `Infinity` are not modelled, because values are exact reals.
- Cue.Release: when the aim point is the cue ball centre the code stores a `NaN` velocity and stops charging. The model returns `None` instead of a world, because a `NaN` has no counterpart among the reals.
- Cue.ReleaseExample: states the speed-10 example over the direction vector and the release contract, not over a whole world, to keep the proof small.
- The `color` field and the debug colouring (src/app.js:146, 242-243) and the `angle` field are left out, because no physics reads them.
- Rendering, the sprite image, the canvas and its event objects (`preventDefault`, `offsetX`) are left out, along with `Game`, `masterLoop` and the animation-frame timing. The mouse coordinates and the elapsed time are parameters.
- Object aliasing is left out. The axis list and the pairs hold references to ball objects, and these are modelled as ball numbers indexing one ball sequence.
