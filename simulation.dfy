/** The whole run as a state machine on values: one frame (Step), the jump input (Jump)
    and the reset (Initial), with the invariants that every reachable state keeps. */
module Simulation {
  import opened Rules
  import opened Physics
  import opened Obstacles
  import opened Scoring

  /** Everything the frame loop reads and writes: the bird's top edge and velocity, the
      pipe pairs in spawn order, the score, the game-over latch and the spawn counter. */
  datatype World = World(y: real, v: real, pipes: seq<Pipe>, score: nat, gameOver: bool, spawn: nat)

  /** The state a new run starts from: the bird at rest at StartY, no pairs, no score,
      the latch clear and the counter at 0; it keeps the frame invariant. */
  function Initial(): (r: World)
    ensures Inv(r) && !r.gameOver
    ensures r.y == StartY && r.v == 0.0 && r.pipes == [] && r.score == 0 && r.spawn == 0
  {
    World(StartY, 0.0, [], 0, false, 0)
  }

  /** One frame of a run that is not over: gravity and the ceiling clamp, then the
      scroll and filter, then the spawn rule, then the collision and scoring pass, then
      the ground test. A run that is over does not move. */
  function Step(s: World, viewWidth: nat, viewHeight: nat, gapTop: int): (r: World)
    requires GapTopMin <= gapTop <= GapTopMax(viewHeight)
    ensures s.gameOver ==> r == s
    ensures r.score >= s.score
    ensures !s.gameOver ==> r.y >= 0.0 && r.score <= s.score + |r.pipes|
    ensures !s.gameOver ==> |r.pipes| <= |s.pipes| + 1
    ensures s.spawn <= SpawnInterval ==> r.spawn <= SpawnInterval
  {
    if s.gameOver then s
    else
      var b := Integrate(Body(s.y, s.v));
      var sp := Spawn(s.spawn, Scroll(s.pipes), viewWidth, gapTop);
      var e := Evaluate(b.y, sp.pipes);
      World(b.y, b.v, e.pipes, s.score + e.gained, e.hit || Grounded(b.y, viewHeight), sp.counter)
  }

  /** A state `t` is the frame after `s` when it is what the phases give in turn:
      gravity and the clamp, the scroll and the spawn rule (leaving `mid`), then the
      collision and scoring pass and the ground test at the new height. */
  lemma StepFromPhases(s: World, viewWidth: nat, viewHeight: nat, gapTop: int, mid: seq<Pipe>, t: World)
    requires GapTopMin <= gapTop <= GapTopMax(viewHeight)
    requires !s.gameOver
    requires Body(t.y, t.v) == Integrate(Body(s.y, s.v))
    requires Spawned(t.spawn, mid) == Spawn(s.spawn, Scroll(s.pipes), viewWidth, gapTop)
    requires t.pipes == Marked(mid) && t.score == s.score + Newly(mid)
    requires t.gameOver == (Hits(t.y, mid) || Grounded(t.y, viewHeight))
    ensures t == Step(s, viewWidth, viewHeight, gapTop)
  {
  }

  /** The jump input: restart a run that is over; otherwise set the velocity to JumpVel,
      whatever it was, and touch nothing else. */
  function Jump(s: World): (r: World)
    ensures !r.gameOver
    ensures s.gameOver ==> r == Initial()
    ensures !s.gameOver ==> r.v == JumpVel && r == s.(v := JumpVel)
  {
    if s.gameOver then Initial() else s.(v := JumpVel)
  }

  /** A pair is settled when its gap top is at least GapTopMin and, once its right edge
      is behind the bird, it carries the passed flag. */
  predicate Settled(p: Pipe) {
    p.height >= GapTopMin && (Crossed(p) ==> p.passed)
  }

  /** What holds between frames: the bird is not above the top, the spawn counter is at
      most SpawnInterval, and every pair is settled. */
  predicate Inv(s: World) {
    s.y >= 0.0 && s.spawn <= SpawnInterval &&
    forall i :: 0 <= i < |s.pipes| ==> Settled(s.pipes[i])
  }

  /** Scrolling and spawning keep every gap top at least GapTopMin: the scroll keeps
      heights and the spawned pair takes an admissible gap top. */
  lemma MovedGapTops(s: World, viewWidth: nat, viewHeight: nat, gapTop: int)
    requires GapTopMin <= gapTop <= GapTopMax(viewHeight)
    requires Inv(s)
    ensures var sp := Spawn(s.spawn, Scroll(s.pipes), viewWidth, gapTop);
      forall i :: 0 <= i < |sp.pipes| ==> sp.pipes[i].height >= GapTopMin
  {
    var ps := Scroll(s.pipes);
    ScrollMembers(s.pipes);
    assert forall i :: 0 <= i < |ps| ==> ps[i].height >= GapTopMin by {
      forall i | 0 <= i < |ps| ensures ps[i].height >= GapTopMin {
        assert ps[i] in ps;
        var j :| 0 <= j < |s.pipes| && ps[i] == Advance(s.pipes[j]);
        assert Settled(s.pipes[j]);
      }
    }
    var sp := Spawn(s.spawn, ps, viewWidth, gapTop);
    forall i | 0 <= i < |sp.pipes| ensures sp.pipes[i].height >= GapTopMin {
      if i < |ps| {
        assert sp.pipes[i] == sp.pipes[..|ps|][i] == ps[i];
      }
    }
  }

  /** A frame keeps the invariant. */
  lemma StepKeepsInv(s: World, viewWidth: nat, viewHeight: nat, gapTop: int)
    requires GapTopMin <= gapTop <= GapTopMax(viewHeight)
    requires Inv(s)
    ensures Inv(Step(s, viewWidth, viewHeight, gapTop))
  {
    if !s.gameOver {
      var sp := Spawn(s.spawn, Scroll(s.pipes), viewWidth, gapTop);
      MovedGapTops(s, viewWidth, viewHeight, gapTop);
      var t := Step(s, viewWidth, viewHeight, gapTop);
      assert t.pipes == Marked(sp.pipes);
      forall i | 0 <= i < |t.pipes| ensures Settled(t.pipes[i]) {
        assert t.pipes[i].height == sp.pipes[i].height;
      }
    }
  }

  /** The score ledger of one frame: the score minus the pairs currently flagged grows
      by exactly the number of pairs the scroll retires. So every pair adds one point,
      once, at the frame it is flagged, and no pair leaves the screen unscored. */
  lemma StepLedger(s: World, viewWidth: nat, viewHeight: nat, gapTop: int)
    requires GapTopMin <= gapTop <= GapTopMax(viewHeight)
    requires Inv(s) && !s.gameOver
    ensures var t := Step(s, viewWidth, viewHeight, gapTop);
      t.score + CountPassed(s.pipes) == s.score + CountPassed(t.pipes) + |Retired(s.pipes)|
  {
    var ps := Scroll(s.pipes);
    var b := Integrate(Body(s.y, s.v));
    var sp := Spawn(s.spawn, ps, viewWidth, gapTop);
    ScrollMembers(s.pipes);
    ScrollCounts(s.pipes);
    MarkedLedger(sp.pipes);
    forall q | q in Retired(s.pipes) ensures q.passed {
      var j :| 0 <= j < |s.pipes| && q == Advance(s.pipes[j]);
      assert Settled(s.pipes[j]);
    }
    CountPassedAllFlagged(Retired(s.pipes));
  }

  /** A frame ends the run exactly when the run was already over, or the bird, at its
      new height, collides with one of the pairs now on screen, or is below the ground. */
  lemma StepGameOver(s: World, viewWidth: nat, viewHeight: nat, gapTop: int)
    requires GapTopMin <= gapTop <= GapTopMax(viewHeight)
    ensures var t := Step(s, viewWidth, viewHeight, gapTop);
      t.gameOver <==>
        s.gameOver || Grounded(t.y, viewHeight) ||
        exists i :: 0 <= i < |t.pipes| && Collides(t.y, t.pipes[i])
  {
    // Dafny finds this proof from the contracts of Step's phases alone; these steps
    // only spare the solver: without them the lemma costs about ten times as much.
    if !s.gameOver {
      var t := Step(s, viewWidth, viewHeight, gapTop);
      var sp := Spawn(s.spawn, Scroll(s.pipes), viewWidth, gapTop);
      assert t.pipes == Marked(sp.pipes);
      assert t.gameOver == (Hits(t.y, sp.pipes) || Grounded(t.y, viewHeight));
      HitsMarked(t.y, sp.pipes);
      HitsIffSomeCollision(t.y, t.pipes);
    }
  }

  /** Two jumps in a row are one jump: the impulse replaces the velocity, never adds. */
  lemma JumpNotCumulative(s: World)
    requires !s.gameOver
    ensures Jump(Jump(s)) == Jump(s)
    ensures Jump(s).v == JumpVel
  {
  }

  /** The inputs a run receives, in arrival order: a frame with the viewport's size and
      the gap top a spawn in that frame would use, the jump input, and a (re)start. */
  datatype Event = Frame(viewWidth: nat, viewHeight: nat, gapTop: int) | Activate | Start

  predicate Admissible(e: Event) {
    e.Frame? ==> GapTopMin <= e.gapTop <= GapTopMax(e.viewHeight)
  }

  function Apply(s: World, e: Event): World
    requires Admissible(e)
  {
    match e
    case Frame(w, h, g) => Step(s, w, h, g)
    case Activate => Jump(s)
    case Start => Initial()
  }

  function Run(s: World, evs: seq<Event>): World
    requires forall i :: 0 <= i < |evs| ==> Admissible(evs[i])
    decreases |evs|
  {
    if evs == [] then s else Run(Apply(s, evs[0]), evs[1..])
  }

  /** Every state reachable from a state that keeps the invariant keeps it; in
      particular the bird never goes above the top and the counter never exceeds 100. */
  lemma {:induction false} RunKeepsInv(s: World, evs: seq<Event>)
    requires forall i :: 0 <= i < |evs| ==> Admissible(evs[i])
    requires Inv(s)
    ensures Inv(Run(s, evs))
    decreases |evs|
  {
    if evs != [] {
      if evs[0].Frame? {
        StepKeepsInv(s, evs[0].viewWidth, evs[0].viewHeight, evs[0].gapTop);
      }
      RunKeepsInv(Apply(s, evs[0]), evs[1..]);
    }
  }

  /** Once over, a run stays over until an input restarts it: a run that ends with the
      latch clear, from a state with the latch set, received a jump or a start. */
  lemma {:induction false} OnlyResetClearsGameOver(s: World, evs: seq<Event>)
    requires forall i :: 0 <= i < |evs| ==> Admissible(evs[i])
    requires s.gameOver && !Run(s, evs).gameOver
    ensures exists i :: 0 <= i < |evs| && !evs[i].Frame?
    decreases |evs|
  {
    if evs[0].Frame? {
      OnlyResetClearsGameOver(Apply(s, evs[0]), evs[1..]);
      var i :| 0 <= i < |evs[1..]| && !evs[1..][i].Frame?;
      assert !evs[i + 1].Frame?;
    } else {
      assert !evs[0].Frame?;
    }
  }

  /** Frames alone never change a finished run. */
  lemma {:induction false} FramesFreezeGameOver(s: World, evs: seq<Event>)
    requires forall i :: 0 <= i < |evs| ==> Admissible(evs[i]) && evs[i].Frame?
    requires s.gameOver
    ensures Run(s, evs) == s
    decreases |evs|
  {
    if evs != [] {
      FramesFreezeGameOver(Apply(s, evs[0]), evs[1..]);
    }
  }

  /** Frames alone never lower the score. */
  lemma {:induction false} FramesNeverLowerScore(s: World, evs: seq<Event>)
    requires forall i :: 0 <= i < |evs| ==> Admissible(evs[i]) && evs[i].Frame?
    ensures Run(s, evs).score >= s.score
    decreases |evs|
  {
    if evs != [] {
      FramesNeverLowerScore(Apply(s, evs[0]), evs[1..]);
    }
  }
}
