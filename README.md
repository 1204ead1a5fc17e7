# Sentient Flappy Buddy: the frame simulation, in Dafny

This project models the game simulation of the `Home` component in `app/page.tsx`. The
bird ("Buddy") falls under gravity and jumps on input. Pipe pairs scroll in from the
right, one new pair every 101 frames, with a gap whose top is chosen at random. The bird
scores once per pair it gets past. A run ends when the bird hits a pair or drops below
the bottom of the viewport, and the next input starts a new run.

The model has two layers:

- **Values.** `Rules` holds the constants, the `Pipe` record and the geometric tests.
  `Physics` holds one frame of gravity with the ceiling clamp. `Obstacles` holds the
  scroll and off-screen filter and the spawn rule. `Scoring` holds the collision and
  scoring pass. `Simulation` is the whole run as a state machine on a `World` value:
  `Step` is one frame, `Jump` is the input, `Initial` is the reset. It also has a `Run`
  over a queue of frame, jump and start events in arrival order.
- **State.** `Home.Game` is a class with the fields the component keeps in refs and
  state: `y`, `v`, `pipes`, `score`, `gameOver` and `spawnCounter`. Its `Tick`, `Jump`
  and `Reset` update those fields step by step, as the source does. The pass over the
  pipes is a loop that flags pairs in place. Each method is proved to leave exactly the
  state that `Step`, `Jump` or `Initial` gives. `Valid()` is the invariant they keep.
  It says the bird is never above the top, the spawn counter stays in 0..100, every pair
  behind the bird is flagged, and the score equals the pairs that have left the screen
  plus the pairs flagged on screen.

Numbers:

- The bird's position and velocity are exact `real`s, so gravity is exactly 1.4.
- Pipe positions and gap tops are integers, as in the source: they start at
  `innerWidth + 20` or at an integer gap top and move by 5.
- The viewport width and height are parameters of each frame.
- The random gap top is a parameter too. It must lie in `[100, max(H - 400, 200)]`,
  the range from which the source draws it.

In three places the model follows the code where a reader of the game rules might expect otherwise:

- The ground test is strict: the bird's bottom edge must be below the viewport height.
  Touching it is not enough.
- Obstacle positions are integers.
- An unavailable viewport is not given fallback dimensions. The source then only skips
  the spawn and the ground test, and the model takes the viewport as always available.

## Model

| member | source | states |
|---|---|---|
| `Rules.GapTopMax` | app/page.tsx:67-68 | the largest gap top is max(H - 280 - 120, 200): at least 200, at least H - 400, and equal to one of the two |
| `Rules.InX` | app/page.tsx:81-83 | the horizontal test holds iff the pipe's open column (x, x + 120) and the bird's open column (140, 220) share a point |
| `Rules.OutsideGap` | app/page.tsx:79-86 | the vertical test lets the bird through iff its whole closed extent [y, y + 80] lies inside the closed gap band [height, height + 280] |
| `Rules.Crossed` | app/page.tsx:90 | a pair counts as behind the bird iff its left edge is below 20; such a pair is outside the bird's column, so it can no longer be hit |
| `Rules.Grounded` | app/page.tsx:107 | for a bird not above the top, the ground test holds iff its closed extent [y, y + 80] no longer fits in the viewport [0, H] |
| `Rules.InXIffColumnsShareAPoint` | app/page.tsx:81-83 | for any left edge x, the strict horizontal test holds iff the pipe's open column (x, x + 120) and the bird's open column (140, 220) share a point |
| `Rules.CollisionScenarios` | app/page.tsx:83-88 | a bird inside the gap band never collides with any pair; a bird whose top is above the gap, or whose bottom is below it, collides whenever the columns overlap |
| `Physics.Integrate` | app/page.tsx:49-55 | after one frame y >= 0; when y + v + 1.4 < 0 the bird is stopped dead at (0, 0), otherwise it is at y + v + 1.4 with velocity v + 1.4 |
| `Physics.FallFromRest` | app/page.tsx:49-55 | from rest at y0 >= 0, n frames give velocity 1.4 n and height y0 + 1.4 n (n + 1) / 2; the clamp never fires on the way down |
| `Obstacles.Shifted` | app/page.tsx:61 | every pair moves left by exactly 5; height, flag, count and order are kept |
| `Obstacles.VisibleSpec` | app/page.tsx:62 | the filter keeps exactly the pairs with x > -140 and drops exactly the others; the kept pairs keep their order, and kept plus dropped is the whole list |
| `Obstacles.VisibleDepartedPartition` | app/page.tsx:62 | the kept pairs and the dropped pairs together are the input as a multiset: equal pairs are counted separately, so none is lost or duplicated |
| `Obstacles.Scroll` | app/page.tsx:59-62 | the scroll adds no pair, and every pair left after it is on screen (x > -140) |
| `Obstacles.Retired` | app/page.tsx:59-62 | every pair the scroll drops is off screen (x <= -140), and the kept and dropped pairs add up to the input's length |
| `Obstacles.ScrollMembers` | app/page.tsx:59-62 | every pair left after the scroll is an input pair moved left by 5 with x > -140; every input pair whose new x is > -140 is kept; every other one is retired, and only those are |
| `Obstacles.ScrollCounts` | app/page.tsx:59-62 | survivors plus retired pairs are the moved input as a multiset, with the same length and the same number of passed flags; the survivors are a subsequence of the moved list |
| `Obstacles.ScrollKeepsAllOnScreen` | app/page.tsx:59-62 | when every new x is > -140, the scroll only moves the pairs and retires none |
| `Obstacles.Spawn` | app/page.tsx:64-72 | the counter goes up by one; once it exceeds 100 it goes back to 0 and exactly one unflagged pair is appended at x = width + 20 with the given gap top; otherwise the list is unchanged; a counter within 0..100 stays there; no flag is added |
| `Obstacles.SpawnCadence` | app/page.tsx:64-66 | from 0, the counter after k frames is k mod 101; frame k spawns iff 101 divides k; k frames spawn k div 101 pairs |
| `Scoring.Marked` | app/page.tsx:90-92 | after the pass each pair has the same x and height and the same place, and is flagged iff it was flagged before or its right edge is behind the bird |
| `Scoring.Evaluate` | app/page.tsx:77-102 | the pass keeps every pair in its place with its x and height, flags exactly the pairs already flagged or behind the bird (right edge < 140), gains at most one point per pair, leaves the flags before plus the points gained, and reports a hit iff the bird collides with some pair |
| `Scoring.HitsMarked` | app/page.tsx:83-91 | flagging a pair does not move it: the flagged list is hit exactly when the list before flagging is |
| `Scoring.HitsIffSomeCollision` | app/page.tsx:83-89 | the pass ends the run iff the bird collides with at least one pair |
| `Scoring.MarkedLedger` | app/page.tsx:90-92 | the flags after the pass are the flags before it plus the points gained, so only unflagged pairs score, each at most once |
| `Scoring.MarkedIdempotent` | app/page.tsx:90-92 | a second pass over the flagged pairs scores nothing and changes nothing |
| `Scoring.NewlyCountsScoringPairs` | app/page.tsx:90-92 | the pass gains no point iff no pair is both unflagged and behind the bird; when every pair is, each gains one |
| `Simulation.Initial` | app/page.tsx:121-129 | a new run has the bird at rest at 300, no pairs, score 0, the latch clear and the counter 0, and keeps the invariant |
| `Simulation.Step` | app/page.tsx:48-118 | a finished run does not move; a frame never lowers the score; in a live run the bird ends at y >= 0, at most one pair is added, and the score grows by at most the number of pairs on screen; a counter within 0..100 stays there |
| `Simulation.Jump` | app/page.tsx:142-148 | the jump input restarts a finished run; otherwise it sets the velocity to exactly -16 and changes nothing else; afterwards the run is never over |
| `Simulation.JumpNotCumulative` | app/page.tsx:147 | two jumps in a row equal one jump; the velocity after a jump is -16 whatever it was before |
| `Simulation.MovedGapTops` | app/page.tsx:59-72 | after the scroll and the spawn rule every gap top is still at least 100, given an admissible new gap top |
| `Simulation.StepKeepsInv` | app/page.tsx:48-110 | one frame keeps the invariant: y >= 0, the counter within 0..100, every gap top >= 100, every pair behind the bird flagged |
| `Simulation.StepLedger` | app/page.tsx:59-102 | in one frame the score grows by exactly the flags newly set: score minus flagged pairs grows by the number of pairs the scroll retires, so no pair leaves the screen unscored and none scores twice |
| `Simulation.StepGameOver` | app/page.tsx:83-110 | after a frame the run is over iff it was already over, or the bird is below the viewport (strict), or it collides with a pair now on screen |
| `Simulation.RunKeepsInv` | app/page.tsx:48-148 | every state reachable by frames, jumps and restarts from a state that keeps the invariant keeps it |
| `Simulation.OnlyResetClearsGameOver` | app/page.tsx:121-148 | a run that was over and is no longer over received a jump or a restart; frames never clear the latch |
| `Simulation.FramesFreezeGameOver` | app/page.tsx:112-118 | frames alone leave a finished run exactly as it was |
| `Simulation.FramesNeverLowerScore` | app/page.tsx:90-92 | frames alone never lower the score |
| `Home.Game.constructor` | app/page.tsx:8-28 | a new game is in the initial state and keeps the invariant |
| `Home.Game.Reset` | app/page.tsx:121-129 | from any state: no pipes, score 0, latch clear, velocity 0, y = 300, counter 0 |
| `Home.Game.Jump` | app/page.tsx:142-148 | the fields change as `Simulation.Jump` prescribes and the invariant is kept |
| `Home.Game.Tick` | app/page.tsx:48-118 | the fields change as `Simulation.Step` prescribes; the invariant is kept, including score = retired pairs + flagged pairs; a finished run does not move |
| `Home.Game.Frame` | app/page.tsx:48-110 | for a live run, the five phases in source order leave exactly the state `Simulation.Step` gives, and retire the pairs the scroll drops |
| `Home.Game.Move` | app/page.tsx:49-72 | the bird moves as `Physics.Integrate` prescribes and the pipe list and counter become what `Obstacles.Spawn` gives after `Obstacles.Scroll` |
| `Home.Game.Judge` | app/page.tsx:77-110 | the pairs are flagged as `Scoring.Marked` does, the score gains `Scoring.Newly`, and the latch is set iff it was set, some pair is hit, or the bird is below the viewport |
| `Home.Game.Fall` | app/page.tsx:49-55 | position and velocity change as `Physics.Integrate` prescribes |
| `Home.Game.ScrollPipes` | app/page.tsx:59-62 | the pipe list becomes the moved and filtered list; the ghost count of retired pairs grows by the pairs dropped |
| `Home.Game.SpawnPipe` | app/page.tsx:64-72 | the counter and the pipe list change as `Obstacles.Spawn` prescribes |
| `Home.Game.CollideAndScore` | app/page.tsx:77-102 | the in-place loop flags the pairs as `Scoring.Marked` does, adds one point per newly flagged pair, and leaves the latch set iff it was set or some pair is hit |
| `Home.Game.CheckGround` | app/page.tsx:105-110 | the latch is set iff it was set or the bird's bottom edge is strictly below the viewport |

## Left out

- React state plumbing is not modelled. This covers `useState`/`useRef` and the effects
  that copy state into refs (app/page.tsx:8-11, 39-45). The model keeps each value in one
  field.
- The effect at app/page.tsx:40-42 copies the rounded display value `Math.round(birdY)`
  back into `birdYRef`. The source's physics therefore keeps running on a rounded
  height. The model keeps `y` exact and does not model the rounding.
- The functional updaters of `setPipes` and `setScore` are modelled as if they run in
  source order within the frame. The same goes for the `setGameOver(true)` calls.
- The stale `gameOver` closure is not modelled. The frame loop decides whether to
  reschedule itself from the `gameOver` its callback captured (app/page.tsx:112-118).
  That value is `false` for the callback that is running, and the effect at
  app/page.tsx:151-169 re-runs `startGame` when the callbacks change. The model follows
  the designed latch instead: `Tick` does nothing once the run is over, and only
  `Reset` (directly or through `Jump`) clears it.
- Frame scheduling is not modelled: `requestAnimationFrame`, `cancelAnimationFrame` and
  `rafRef`. It is replaced by explicit `Tick` calls.
- The input wiring is not modelled: keydown Space, touchstart and mousedown. Only the
  `Jump` operation itself is.
- Audio preload and playback, and their swallowed exceptions, are left out. They have
  no effect on the simulation.
- Rendering is left out. That includes the tilt clamp, the rendered height of the bottom
  pipe with its 300 fallback, and the score and game-over overlays.
- `Math.random` is replaced by the injected gap top.
- The IEEE rounding of the accumulated 1.4 is not modelled: `real` arithmetic is exact.
- The `typeof window` guards are left out: the viewport is always available.
- Home.Game.Tick: requires a valid gap top on every frame, although the source only
  draws one on spawning frames. A valid value always exists, so this excludes no run.
