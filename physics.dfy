/** Vertical motion of the bird: one frame of gravity and the ceiling clamp. */
module Physics {
  import opened Rules

  /** The bird's top edge `y` (pixels from the top of the viewport) and its vertical
      velocity `v` (pixels per frame, negative is upwards). */
  datatype Body = Body(y: real, v: real)

  /** One frame of flight: velocity gains gravity, then the position moves by the new
      velocity; a bird that would leave through the top is stopped dead at y = 0. */
  function Integrate(b: Body): (r: Body)
    ensures r.y >= 0.0
    ensures b.y + b.v + Gravity < 0.0 ==> r == Body(0.0, 0.0)
    ensures b.y + b.v + Gravity >= 0.0 ==> r == Body(b.y + b.v + Gravity, b.v + Gravity)
  {
    var v := b.v + Gravity;
    var y := b.y + v;
    if y < 0.0 then Body(0.0, 0.0) else Body(y, v)
  }

  /** `n` frames of flight without input. */
  function Fly(b: Body, n: nat): Body
  {
    if n == 0 then b else Integrate(Fly(b, n - 1))
  }

  /** Falling from rest: after n frames the velocity is n * Gravity and the bird has
      dropped Gravity * n * (n + 1) / 2 pixels; the clamp never fires on the way down. */
  lemma {:induction false} FallFromRest(y0: real, n: nat)
    requires y0 >= 0.0
    ensures Fly(Body(y0, 0.0), n)
         == Body(y0 + Gravity * (n as real) * ((n + 1) as real) / 2.0, Gravity * n as real)
  {
    if n > 0 {
      FallFromRest(y0, n - 1);
      var m := (n - 1) as real;
      assert Gravity * m * (m + 1.0) / 2.0 + Gravity * (m + 1.0)
          == Gravity * (m + 1.0) * (m + 2.0) / 2.0;
    }
  }
}
