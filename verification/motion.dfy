/** The per-ball motion of a frame: Euler step, cushion bounce, friction. */
module Motion {
  import opened Vectors
  import opened State

  /** A coordinate past the left or right cushion. */
  predicate OutX(x: real) {
    x < CushionLeft || x > CushionRight
  }

  /** A coordinate past the top or bottom cushion. */
  predicate OutY(y: real) {
    y < CushionTop || y > CushionBottom
  }

  /** Explicit Euler: the position moves by `dt` times the current velocity. */
  function Advance(b: Ball, dt: real): (r: Ball)
    ensures Sub(r.pos, b.pos) == Scale(dt, b.vel)
    ensures r.vel == b.vel && r.number == b.number && r.pocketed == b.pocketed
  {
    b.(pos := Vec(b.pos.x + dt * b.vel.x, b.pos.y + dt * b.vel.y))
  }

  /** Two Euler steps at the same velocity make one step over their total time. */
  lemma AdvanceCompose(b: Ball, s: real, t: real)
    ensures Advance(Advance(b, s), t) == Advance(b, s + t)
  {
    var a := Advance(b, s);
    assert a.pos == Vec(b.pos.x + s * b.vel.x, b.pos.y + s * b.vel.y) && a.vel == b.vel;
    var c := Advance(a, t);
    assert c.pos == Vec(a.pos.x + t * b.vel.x, a.pos.y + t * b.vel.y);
    Distribute(s, t, b.vel.x);
    Distribute(s, t, b.vel.y);
  }

  lemma Distribute(s: real, t: real, v: real)
    ensures (s + t) * v == s * v + t * v
  {
  }

  /** Cushions reverse the velocity component of each axis on which the ball
      lies outside the table, each axis on its own; the position is left
      where it is. */
  function Bounce(b: Ball): (r: Ball)
    ensures r.pos == b.pos && r.number == b.number && r.pocketed == b.pocketed
    ensures OutX(b.pos.x) ==> r.vel.x == -b.vel.x
    ensures !OutX(b.pos.x) ==> r.vel.x == b.vel.x
    ensures OutY(b.pos.y) ==> r.vel.y == -b.vel.y
    ensures !OutY(b.pos.y) ==> r.vel.y == b.vel.y
  {
    var vx := if OutX(b.pos.x) then -b.vel.x else b.vel.x;
    var vy := if OutY(b.pos.y) then -b.vel.y else b.vel.y;
    b.(vel := Vec(vx, vy))
  }

  /** Table friction: both velocity components shrink by the same factor every frame. */
  function Friction(b: Ball): (r: Ball)
    ensures r.vel == Scale(FrictionFactor, b.vel)
    ensures r.pos == b.pos && r.number == b.number && r.pocketed == b.pocketed
  {
    b.(vel := Vec(b.vel.x * FrictionFactor, b.vel.y * FrictionFactor))
  }

  /** Bouncing twice at the same place restores the velocity: a bounce is a reflection. */
  lemma BounceInvolution(b: Ball)
    ensures Bounce(Bounce(b)) == b
  {
  }

  /** A bounce changes direction only, never speed. */
  lemma BounceKeepsSpeed(b: Ball)
    ensures Norm2(Bounce(b).vel) == Norm2(b.vel)
  {
    var v := Bounce(b).vel;
    assert Sq(v.x) == Sq(b.vel.x) by {
      if OutX(b.pos.x) { assert (-b.vel.x) * (-b.vel.x) == b.vel.x * b.vel.x; }
    }
    assert Sq(v.y) == Sq(b.vel.y) by {
      if OutY(b.pos.y) { assert (-b.vel.y) * (-b.vel.y) == b.vel.y * b.vel.y; }
    }
  }

  /** Friction scales the squared speed by 0.999^2 and keeps the direction. */
  lemma FrictionDecaysSpeed(b: Ball)
    ensures Norm2(Friction(b).vel) == FrictionFactor * FrictionFactor * Norm2(b.vel)
    ensures Friction(b).vel.x * b.vel.y == Friction(b).vel.y * b.vel.x
  {
    var v := b.vel;
    assert Sq(FrictionFactor * v.x) == FrictionFactor * FrictionFactor * Sq(v.x);
    assert Sq(FrictionFactor * v.y) == FrictionFactor * FrictionFactor * Sq(v.y);
  }
}
