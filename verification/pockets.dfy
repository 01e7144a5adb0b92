/** Pocket capture: each ball is tested against the six pockets in order. */
module PocketCapture {
  import opened Vectors
  import opened State

  /** The centre `p` lies within the capture radius of pocket `k`. */
  predicate InPocket(p: Vec, k: nat)
    requires k < |Pockets|
  {
    SqDist(p, Pockets[k]) < PocketRadiusSq
  }

  /** The centre `p` lies within the capture radius of some pocket among `k ..`. */
  predicate InPocketFrom(p: Vec, k: nat) {
    exists j :: k <= j < |Pockets| && InPocket(p, j)
  }

  predicate InAnyPocket(p: Vec) {
    InPocketFrom(p, 0)
  }

  /** What a capture does to ball `index`: the cue ball is scratched back to
      its spot, still in play; any other ball is marked pocketed and parked
      at x = -50 with its y kept. Both stop. */
  function Capture(b: Ball, index: nat): (r: Ball)
    ensures r.number == b.number && r.vel == Zero
    ensures index == CueBall ==> r.pos == ScratchSpot && r.pocketed == b.pocketed
    ensures index != CueBall ==> r.pocketed && r.pos == Vec(PocketedX, b.pos.y)
    ensures !InAnyPocket(r.pos)
  {
    if index == CueBall then
      ScratchSpotClear();
      b.(vel := Zero, pos := ScratchSpot)
    else
      ParkingClear(b.pos.y);
      b.(pocketed := true, vel := Zero, pos := Vec(PocketedX, b.pos.y))
  }

  /** The scratch spot is outside every pocket. */
  lemma ScratchSpotClear()
    ensures !InAnyPocket(ScratchSpot)
  {
    forall j | 0 <= j < |Pockets|
      ensures !InPocket(ScratchSpot, j)
    {
      var q := Pockets[j];
      assert q.x == 0.0 || q.x == 512.0 || q.x == 1024.0;
      GapBoundsSqDist(ScratchSpot, q, 25.0);
    }
  }

  /** Every point on the parking line x = -50 is outside every pocket. */
  lemma ParkingClear(y: real)
    ensures !InAnyPocket(Vec(PocketedX, y))
  {
    var p := Vec(PocketedX, y);
    forall j | 0 <= j < |Pockets|
      ensures !InPocket(p, j)
    {
      ParkedFar(y, Pockets[j]);
    }
  }

  lemma ParkedFar(y: real, q: Vec)
    requires q.x >= 0.0
    ensures SqDist(Vec(PocketedX, y), q) >= PocketRadiusSq
  {
    var d := Sub(Vec(PocketedX, y), q);
    SqAtLeast(d.x, 25.0);
    assert SqDist(Vec(PocketedX, y), q) == Sq(d.x) + Sq(d.y);
  }

  /** The loop over the pockets from pocket `k` on, each test seeing the ball
      as earlier pockets left it. */
  function PocketLoop(b: Ball, index: nat, k: nat): Ball
    decreases |Pockets| - k
  {
    if k >= |Pockets| then b
    else
      var b' := if InPocket(b.pos, k) then Capture(b, index) else b;
      PocketLoop(b', index, k + 1)
  }

  /** A capture removes the ball from every pocket, so the rest of the loop
      leaves it alone: the loop captures at most once, and exactly when some
      remaining pocket contains the centre. */
  lemma {:induction false} PocketLoopCapturesOnce(b: Ball, index: nat, k: nat)
    ensures PocketLoop(b, index, k) == if InPocketFrom(b.pos, k) then Capture(b, index) else b
    decreases |Pockets| - k
  {
    if k < |Pockets| {
      if InPocket(b.pos, k) {
        var c := Capture(b, index);
        PocketLoopCapturesOnce(c, index, k + 1);
        assert !InPocketFrom(c.pos, k + 1);
      } else {
        PocketLoopCapturesOnce(b, index, k + 1);
        assert InPocketFrom(b.pos, k) <==> InPocketFrom(b.pos, k + 1) by {
          if InPocketFrom(b.pos, k) {
            var j :| k <= j < |Pockets| && InPocket(b.pos, j);
            assert j != k;
          }
        }
      }
    }
  }

  /** The pocket test of one ball, as the frame runs it. */
  function CheckPockets(b: Ball, index: nat): (r: Ball)
    ensures InAnyPocket(b.pos) ==> r == Capture(b, index)
    ensures !InAnyPocket(b.pos) ==> r == b
  {
    PocketLoopCapturesOnce(b, index, 0);
    PocketLoop(b, index, 0)
  }

  /** Testing the pockets a second time changes nothing. */
  lemma CheckPocketsIdempotent(b: Ball, index: nat)
    ensures CheckPockets(CheckPockets(b, index), index) == CheckPockets(b, index)
  {
  }
}
