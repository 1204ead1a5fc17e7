/** Fixed sizes, speeds and thresholds of the game, the pipe pair, and the geometric
    tests that compare the bird's box with a pipe pair and with the ground.

    Screen coordinates: x grows to the right, y grows downwards, (0, 0) is the top-left
    corner of the viewport. The bird's box is [BirdX, BirdX + BirdW] by [y, y + BirdH]. */
module Rules {

  const PipeWidth: int := 120
  const Gap: int := 280
  const Speed: int := 5
  const Gravity: real := 1.4
  const JumpVel: real := -16.0
  const BirdX: int := 140
  const BirdW: int := 80
  const BirdH: int := 80

  /** Where a run starts: the bird's top edge at 300, at rest. */
  const StartY: real := 300.0

  /** A new pipe pair appears once the spawn counter exceeds this many frames. */
  const SpawnInterval: nat := 100
  /** A new pipe pair appears this far to the right of the viewport's right edge. */
  const SpawnOffset: int := 20
  /** A pipe pair is dropped once its left edge is no further right than
      -(PipeWidth + OffscreenMargin). */
  const OffscreenMargin: int := 20

  /** Bounds of the gap's top edge chosen at spawn time. */
  const GapTopMin: int := 100
  const BottomMargin: int := 120
  const GapTopFloor: int := 200

  /** A pipe pair: left edge `x`, gap top `height` (the top pipe spans [0, height], the
      bottom pipe starts at height + Gap), and whether the bird has already scored it. */
  datatype Pipe = Pipe(x: int, height: int, passed: bool)

  /** Largest gap top for a viewport `viewHeight` pixels tall: the viewport less the gap
      and a bottom margin, but never below GapTopFloor. */
  function GapTopMax(viewHeight: int): (m: int)
    ensures m >= GapTopFloor && m >= viewHeight - Gap - BottomMargin
    ensures m == GapTopFloor || m == viewHeight - Gap - BottomMargin
  {
    if viewHeight - Gap - BottomMargin > GapTopFloor then viewHeight - Gap - BottomMargin
    else GapTopFloor
  }

  /** The pipe's column and the bird's column overlap (strict comparisons): the open
      columns (x, x + PipeWidth) and (BirdX, BirdX + BirdW) share a point. */
  function InX(p: Pipe): (r: bool)
    ensures r <==>
      OpenMeet(p.x as real, (p.x + PipeWidth) as real, BirdX as real, (BirdX + BirdW) as real)
  {
    InXIffColumnsShareAPoint(p.x);
    p.x + PipeWidth > BirdX && p.x < BirdX + BirdW
  }

  /** The bird's top edge is above the gap or its bottom edge is below it: the bird's
      closed vertical extent [y, y + BirdH] does not fit in the closed gap band
      [height, height + Gap]. */
  function OutsideGap(y: real, p: Pipe): (r: bool)
    ensures !r <==> ClosedInside(y, y + BirdH as real, p.height as real, (p.height + Gap) as real)
  {
    assert Within(y, y, y + BirdH as real);
    assert Within(y, y + BirdH as real, y + BirdH as real);
    y < p.height as real || y + BirdH as real > (p.height + Gap) as real
  }

  /** The bird hits the pipe pair at top edge `y`. */
  predicate Collides(y: real, p: Pipe) {
    InX(p) && OutsideGap(y, p)
  }

  /** The pipe's right edge is strictly left of the bird's left edge; such a pair is
      out of the bird's column, so it can no longer be hit. */
  function Crossed(p: Pipe): (r: bool)
    ensures r <==> p.x < BirdX - PipeWidth
    ensures r ==> !InX(p)
  {
    p.x + PipeWidth < BirdX
  }

  /** The pipe pair scores now: crossed and not scored before. */
  predicate Scores(p: Pipe) {
    !p.passed && Crossed(p)
  }

  /** The bird's bottom edge is strictly below the bottom of the viewport: for a bird
      not above the top, its closed vertical extent [y, y + BirdH] no longer fits in the
      viewport [0, viewHeight]. */
  function Grounded(y: real, viewHeight: int): (r: bool)
    ensures y >= 0.0 ==> (r <==> !ClosedInside(y, y + BirdH as real, 0.0, viewHeight as real))
  {
    assert Within(y, y + BirdH as real, y + BirdH as real);
    y + BirdH as real > viewHeight as real
  }

  /** How many pipes in `ps` carry the passed flag. */
  function CountPassed(ps: seq<Pipe>): (n: nat)
    ensures n <= |ps|
  {
    if ps == [] then 0
    else CountPassed(ps[..|ps| - 1]) + (if ps[|ps| - 1].passed then 1 else 0)
  }

  lemma {:induction false} CountPassedAppend(a: seq<Pipe>, b: seq<Pipe>)
    ensures CountPassed(a + b) == CountPassed(a) + CountPassed(b)
    decreases |b|
  {
    if b != [] {
      var b' := b[..|b| - 1];
      assert (a + b)[..|a + b| - 1] == a + b';
      CountPassedAppend(a, b');
    } else {
      assert a + b == a;
    }
  }

  /** When every pipe in `ps` is flagged, the count is the length. */
  lemma {:induction false} CountPassedAllFlagged(ps: seq<Pipe>)
    requires forall q :: q in ps ==> q.passed
    ensures CountPassed(ps) == |ps|
  {
    if ps != [] {
      var init := ps[..|ps| - 1];
      assert forall q :: q in init ==> q in ps;
      CountPassedAllFlagged(init);
    }
  }

  /** `t` lies strictly between `lo` and `hi`. */
  predicate Between(lo: real, t: real, hi: real) {
    lo < t < hi
  }

  /** `t` lies between `lo` and `hi`, ends included. */
  predicate Within(lo: real, t: real, hi: real) {
    lo <= t <= hi
  }

  /** The open intervals (a, b) and (c, d) share a point. */
  ghost predicate OpenMeet(a: real, b: real, c: real, d: real) {
    exists t: real :: Between(a, t, b) && Between(c, t, d)
  }

  /** The closed interval [a, b] lies inside the closed interval [c, d]. */
  ghost predicate ClosedInside(a: real, b: real, c: real, d: real) {
    forall t: real :: Within(a, t, b) ==> Within(c, t, d)
  }

  /** For a pipe with left edge `x`, the strict horizontal test is the same as the two
      open columns (x, x + PipeWidth) and (BirdX, BirdX + BirdW) sharing a point. */
  lemma InXIffColumnsShareAPoint(x: int)
    ensures (x + PipeWidth > BirdX && x < BirdX + BirdW) <==>
      OpenMeet(x as real, (x + PipeWidth) as real, BirdX as real, (BirdX + BirdW) as real)
  {
    if x + PipeWidth > BirdX && x < BirdX + BirdW {
      var lo := if x > BirdX then x as real else BirdX as real;
      var hi := if x + PipeWidth < BirdX + BirdW then (x + PipeWidth) as real
                else (BirdX + BirdW) as real;
      var t := (lo + hi) / 2.0;
      assert Between(x as real, t, (x + PipeWidth) as real);
      assert Between(BirdX as real, t, (BirdX + BirdW) as real);
    }
  }

  /** A bird inside the gap band never collides with the pair, wherever the pair is;
      a bird whose top edge is above the gap collides whenever the columns overlap. */
  lemma CollisionScenarios(y: real, p: Pipe)
    ensures p.height as real <= y && y + BirdH as real <= (p.height + Gap) as real ==> !Collides(y, p)
    ensures InX(p) && y < p.height as real ==> Collides(y, p)
    ensures InX(p) && y + BirdH as real > (p.height + Gap) as real ==> Collides(y, p)
  {
  }
}
