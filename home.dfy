/** The game component's mutable run state and its three operations, written the way
    the frame loop updates it: field by field, with one in-place pass over the pipes.
    Each operation is proved to produce the state the value-level model prescribes. */
module Home {
  import opened Rules
  import opened Physics
  import opened Obstacles
  import opened Scoring
  import opened Simulation

  class Game {
    var y: real
    var v: real
    var pipes: seq<Pipe>
    var score: nat
    var gameOver: bool
    var spawnCounter: nat

    /** How many pairs have scrolled off the screen during this run. */
    ghost var retired: nat

    /** The state as a value. */
    function State(): World
      reads this
    {
      World(y, v, pipes, score, gameOver, spawnCounter)
    }

    /** Between operations the state keeps the frame invariant, and the score is the
        number of pairs that have left the screen plus the pairs flagged on screen:
        every pair the bird got past counts once. */
    ghost predicate Valid()
      reads this
    {
      Inv(State()) && score == retired + CountPassed(pipes)
    }

    constructor ()
      ensures Valid() && State() == Initial()
    {
      y, v, pipes, score, gameOver, spawnCounter := StartY, 0.0, [], 0, false, 0;
      retired := 0;
    }

    /** Start a new run: clear the pipes, the score and the latch, put the bird back at
        its start height at rest, and restart the spawn counter. */
    method Reset()
      modifies this
      ensures Valid() && State() == Initial()
    {
      pipes := [];
      score := 0;
      gameOver := false;
      v := 0.0;
      y := StartY;
      spawnCounter := 0;
      retired := 0;
    }

    /** The jump input: restart a finished run, otherwise replace the velocity. */
    method Jump()
      requires Valid()
      modifies this
      ensures Valid() && State() == Simulation.Jump(old(State()))
    {
      if gameOver {
        Reset();
        return;
      }
      v := JumpVel;
    }

    /** One frame. `viewWidth` and `viewHeight` are the viewport's size in this frame;
        `gapTop` is the gap top a pair spawned in this frame gets. A finished run does
        not move. */
    method Tick(viewWidth: nat, viewHeight: nat, gapTop: int)
      requires Valid()
      requires GapTopMin <= gapTop <= GapTopMax(viewHeight)
      modifies this
      ensures Valid() && State() == Step(old(State()), viewWidth, viewHeight, gapTop)
      ensures retired == old(retired) + (if old(gameOver) then 0 else |Retired(old(pipes))|)
    {
      if gameOver {
        return;
      }
      StepKeepsInv(State(), viewWidth, viewHeight, gapTop);
      StepLedger(State(), viewWidth, viewHeight, gapTop);
      Frame(viewWidth, viewHeight, gapTop);
    }

    /** The five phases of a frame of a run that is not over, in source order. */
    method Frame(viewWidth: nat, viewHeight: nat, gapTop: int)
      requires !gameOver
      requires GapTopMin <= gapTop <= GapTopMax(viewHeight)
      modifies this
      ensures State() == Step(old(State()), viewWidth, viewHeight, gapTop)
      ensures retired == old(retired) + |Retired(old(pipes))|
    {
      ghost var s := State();
      Move(viewWidth, gapTop);
      ghost var mid := pipes;
      Judge(viewHeight);
      StepFromPhases(s, viewWidth, viewHeight, gapTop, mid, State());
    }

    /** The bird and the pairs move: gravity, the scroll and filter, the spawn rule. */
    method Move(viewWidth: nat, gapTop: int)
      modifies this`y, this`v, this`pipes, this`spawnCounter, this`retired
      ensures Body(y, v) == Integrate(Body(old(y), old(v)))
      ensures Spawned(spawnCounter, pipes) == Spawn(old(spawnCounter), Scroll(old(pipes)), viewWidth, gapTop)
      ensures retired == old(retired) + |Retired(old(pipes))|
    {
      Fall();
      ScrollPipes();
      SpawnPipe(viewWidth, gapTop);
    }

    /** The bird is judged where it now is: the collision and scoring pass, then the
        ground test. */
    method Judge(viewHeight: nat)
      modifies this`pipes, this`score, this`gameOver
      ensures pipes == Marked(old(pipes)) && score == old(score) + Newly(old(pipes))
      ensures gameOver == (old(gameOver) || Hits(y, old(pipes)) || Grounded(y, viewHeight))
    {
      CollideAndScore();
      CheckGround(viewHeight);
    }

    /** Gravity, then the ceiling clamp. */
    method Fall()
      modifies this`y, this`v
      ensures Body(y, v) == Integrate(Body(old(y), old(v)))
    {
      v := v + Gravity;
      y := y + v;
      if y < 0.0 {
        y := 0.0;
        v := 0.0;
      }
    }

    /** Move every pair left and drop those that are off screen. */
    method ScrollPipes()
      modifies this`pipes, this`retired
      ensures pipes == Scroll(old(pipes))
      ensures retired == old(retired) + |Retired(old(pipes))|
    {
      retired := retired + |Retired(pipes)|;
      pipes := Scroll(pipes);
    }

    /** Count the frame; past SpawnInterval, restart the count and append a new pair. */
    method SpawnPipe(viewWidth: nat, gapTop: int)
      modifies this`pipes, this`spawnCounter
      ensures Spawned(spawnCounter, pipes) == Spawn(old(spawnCounter), old(pipes), viewWidth, gapTop)
    {
      spawnCounter := spawnCounter + 1;
      if spawnCounter > SpawnInterval {
        spawnCounter := 0;
        pipes := pipes + [Pipe(viewWidth + SpawnOffset, gapTop, false)];
      }
    }

    /** Test every pair against the bird; flag and score every pair newly behind it. */
    method CollideAndScore()
      modifies this`pipes, this`score, this`gameOver
      ensures pipes == Marked(old(pipes))
      ensures score == old(score) + Newly(old(pipes))
      ensures gameOver == (old(gameOver) || Hits(y, old(pipes)))
    {
      ghost var before := pipes;
      var i := 0;
      while i < |pipes|
        invariant 0 <= i <= |pipes| == |before|
        invariant forall k :: 0 <= k < i ==> pipes[k] == MarkPassed(before[k])
        invariant forall k :: i <= k < |pipes| ==> pipes[k] == before[k]
        invariant score == old(score) + Newly(before[..i])
        invariant gameOver == (old(gameOver) || Hits(y, before[..i]))
      {
        var p := pipes[i];
        if p.x + PipeWidth > BirdX && p.x < BirdX + BirdW {
          if y < p.height as real || y + BirdH as real > (p.height + Gap) as real {
            gameOver := true;
          }
        }
        if !p.passed && p.x + PipeWidth < BirdX {
          pipes := pipes[i := p.(passed := true)];
          score := score + 1;
        }
        assert before[..i + 1][..i] == before[..i];
        i := i + 1;
      }
      assert before[..i] == before;
    }

    /** The ground test. */
    method CheckGround(viewHeight: nat)
      modifies this`gameOver
      ensures gameOver == (old(gameOver) || Grounded(y, viewHeight))
    {
      if y + BirdH as real > viewHeight as real {
        gameOver := true;
      }
    }
  }
}
