/** The pipe pairs on screen: the per-frame scroll with its off-screen filter, and the
    spawn rule that appends a new pair every SpawnInterval + 1 frames. */
module Obstacles {
  import opened Rules

  /** One pipe pair moved left by one frame's scroll. */
  function Advance(p: Pipe): Pipe {
    p.(x := p.x - Speed)
  }

  /** A pipe pair is kept while its left edge is strictly right of
      -(PipeWidth + OffscreenMargin), that is, strictly right of -140. */
  predicate OnScreen(p: Pipe) {
    p.x > -PipeWidth - OffscreenMargin
  }

  /** Every pipe pair moved left by Speed, heights and flags untouched, order kept. */
  function Shifted(ps: seq<Pipe>): (r: seq<Pipe>)
    ensures |r| == |ps|
    ensures forall i :: 0 <= i < |ps| ==>
      r[i].x == ps[i].x - Speed && r[i].height == ps[i].height && r[i].passed == ps[i].passed
  {
    if ps == [] then [] else Shifted(ps[..|ps| - 1]) + [Advance(ps[|ps| - 1])]
  }

  /** The pipe pairs of `ps` that stay on screen, in their original order. */
  function Visible(ps: seq<Pipe>): (r: seq<Pipe>)
  {
    if ps == [] then []
    else Visible(ps[..|ps| - 1]) + (if OnScreen(ps[|ps| - 1]) then [ps[|ps| - 1]] else [])
  }

  /** The pipe pairs of `ps` that the filter drops. */
  function Departed(ps: seq<Pipe>): (r: seq<Pipe>)
  {
    if ps == [] then []
    else Departed(ps[..|ps| - 1]) + (if OnScreen(ps[|ps| - 1]) then [] else [ps[|ps| - 1]])
  }

  /** One frame of scrolling: move every pair left, then keep those still on screen.
      No pair is added and every survivor is on screen. */
  function Scroll(ps: seq<Pipe>): (r: seq<Pipe>)
    ensures |r| <= |ps|
    ensures forall q :: q in r ==> OnScreen(q)
  {
    VisibleSpec(Shifted(ps));
    Visible(Shifted(ps))
  }

  /** The pipe pairs that one frame of scrolling drops from `ps`: none of them is on
      screen, and together with the survivors they account for every input pair. */
  function Retired(ps: seq<Pipe>): (r: seq<Pipe>)
    ensures forall q :: q in r ==> !OnScreen(q)
    ensures |r| + |Scroll(ps)| == |ps|
  {
    VisibleSpec(Shifted(ps));
    Departed(Shifted(ps))
  }

  /** `r` is `s` with some elements left out and the rest in their original order. */
  ghost predicate IsSubsequence<T>(r: seq<T>, s: seq<T>)
    decreases |s|
  {
    r == [] ||
    (s != [] &&
     ((r[|r| - 1] == s[|s| - 1] && IsSubsequence(r[..|r| - 1], s[..|s| - 1])) ||
      IsSubsequence(r, s[..|s| - 1])))
  }

  /** The filter keeps exactly the on-screen pairs, drops exactly the others, and keeps
      the survivors in order. */
  lemma {:induction false} VisibleSpec(ps: seq<Pipe>)
    ensures forall q :: q in Visible(ps) <==> q in ps && OnScreen(q)
    ensures forall q :: q in Departed(ps) <==> q in ps && !OnScreen(q)
    ensures |Visible(ps)| + |Departed(ps)| == |ps|
    ensures IsSubsequence(Visible(ps), ps)
  {
    if ps != [] {
      var init, last := ps[..|ps| - 1], ps[|ps| - 1];
      assert ps == init + [last];
      VisibleSpec(init);
      if OnScreen(last) {
        assert Visible(ps)[..|Visible(ps)| - 1] == Visible(init);
      } else {
        assert Visible(ps) == Visible(init);
      }
    }
  }

  /** Flags are split between the pairs that stay and the pairs that leave. */
  lemma {:induction false} VisiblePassedSplit(ps: seq<Pipe>)
    ensures CountPassed(Visible(ps)) + CountPassed(Departed(ps)) == CountPassed(ps)
  {
    if ps != [] {
      var init, last := ps[..|ps| - 1], ps[|ps| - 1];
      VisiblePassedSplit(init);
      assert CountPassed(ps) == CountPassed(init) + CountPassed([last]) by {
        assert [last][..0] == [];
      }
      if OnScreen(last) {
        assert Visible(ps) == Visible(init) + [last];
        assert Departed(ps) == Departed(init);
        CountPassedAppend(Visible(init), [last]);
      } else {
        assert Visible(ps) == Visible(init);
        assert Departed(ps) == Departed(init) + [last];
        CountPassedAppend(Departed(init), [last]);
      }
    }
  }

  /** Kept and dropped pairs together are the input, counting equal pairs separately. */
  lemma {:induction false} VisibleDepartedPartition(ps: seq<Pipe>)
    ensures multiset(Visible(ps)) + multiset(Departed(ps)) == multiset(ps)
  {
    if ps != [] {
      var init, last := ps[..|ps| - 1], ps[|ps| - 1];
      assert ps == init + [last];
      VisibleDepartedPartition(init);
      if OnScreen(last) {
        assert Visible(ps) == Visible(init) + [last];
        assert Departed(ps) == Departed(init);
      } else {
        assert Visible(ps) == Visible(init);
        assert Departed(ps) == Departed(init) + [last];
      }
    }
  }

  /** Shifting moves no flag. */
  lemma {:induction false} ShiftedPassed(ps: seq<Pipe>)
    ensures CountPassed(Shifted(ps)) == CountPassed(ps)
  {
    if ps != [] {
      var init := ps[..|ps| - 1];
      ShiftedPassed(init);
      assert Shifted(ps)[..|ps| - 1] == Shifted(init);
    }
  }

  /** One frame of scrolling, pair by pair: every surviving pair is some input pair
      moved left by exactly Speed with its height and flag, every input pair whose new
      left edge is right of -140 survives, and every other one is retired. */
  lemma {:induction false} ScrollMembers(ps: seq<Pipe>)
    ensures forall q :: q in Scroll(ps) ==>
      OnScreen(q) && exists i :: 0 <= i < |ps| && q == Advance(ps[i])
    ensures forall i :: 0 <= i < |ps| && OnScreen(Advance(ps[i])) ==> Advance(ps[i]) in Scroll(ps)
    ensures forall i :: 0 <= i < |ps| && !OnScreen(Advance(ps[i])) ==> Advance(ps[i]) in Retired(ps)
    ensures forall q :: q in Retired(ps) ==>
      !OnScreen(q) && exists i :: 0 <= i < |ps| && q == Advance(ps[i])
  {
    var s := Shifted(ps);
    assert Scroll(ps) == Visible(s) && Retired(ps) == Departed(s);
    assert forall i :: 0 <= i < |ps| ==> Advance(ps[i]) == s[i];
    assert forall q :: q in Scroll(ps) ==>
        OnScreen(q) && exists i :: 0 <= i < |ps| && q == Advance(ps[i]) by {
      VisibleSpec(s);
      forall q | q in Scroll(ps)
        ensures exists i :: 0 <= i < |ps| && q == Advance(ps[i])
      {
        var i :| 0 <= i < |s| && s[i] == q;
        assert Advance(ps[i]) == q;
      }
    }
    assert forall q :: q in Retired(ps) ==>
        !OnScreen(q) && exists i :: 0 <= i < |ps| && q == Advance(ps[i]) by {
      VisibleSpec(s);
      forall q | q in Retired(ps)
        ensures exists i :: 0 <= i < |ps| && q == Advance(ps[i])
      {
        var i :| 0 <= i < |s| && s[i] == q;
        assert Advance(ps[i]) == q;
      }
    }
    forall i | 0 <= i < |ps|
      ensures OnScreen(Advance(ps[i])) ==> Advance(ps[i]) in Scroll(ps)
      ensures !OnScreen(Advance(ps[i])) ==> Advance(ps[i]) in Retired(ps)
    {
      VisibleSpec(s);
      assert s[i] in s;
    }
  }

  /** One frame of scrolling, as a whole: the survivors keep their order, and the
      moved pairs (as a multiset) and the passed flags are split between the survivors
      and the retired. */
  lemma {:induction false} ScrollCounts(ps: seq<Pipe>)
    ensures |Scroll(ps)| + |Retired(ps)| == |ps|
    ensures IsSubsequence(Scroll(ps), Shifted(ps))
    ensures CountPassed(Scroll(ps)) + CountPassed(Retired(ps)) == CountPassed(ps)
    ensures multiset(Scroll(ps)) + multiset(Retired(ps)) == multiset(Shifted(ps))
  {
    VisibleSpec(Shifted(ps));
    VisiblePassedSplit(Shifted(ps));
    ShiftedPassed(ps);
    VisibleDepartedPartition(Shifted(ps));
  }

  /** When no pair is near the left edge, scrolling only moves the pairs. */
  lemma {:induction false} ScrollKeepsAllOnScreen(ps: seq<Pipe>)
    requires forall i :: 0 <= i < |ps| ==> ps[i].x - Speed > -PipeWidth - OffscreenMargin
    ensures Scroll(ps) == Shifted(ps) && Retired(ps) == []
  {
    if ps != [] {
      var init := ps[..|ps| - 1];
      ScrollKeepsAllOnScreen(init);
      assert Shifted(ps) == Shifted(init) + [Advance(ps[|ps| - 1])];
    }
  }

  /** The spawn counter after one more frame, and whether that frame spawns a pair. */
  function NextCounter(counter: nat): nat {
    if counter + 1 > SpawnInterval then 0 else counter + 1
  }

  predicate Fires(counter: nat) {
    counter + 1 > SpawnInterval
  }

  /** The spawn step: the counter and the pipe list after it. */
  datatype Spawned = Spawned(counter: nat, pipes: seq<Pipe>)

  /** Count one more frame; once the count exceeds SpawnInterval, restart it and append
      one unscored pair SpawnOffset pixels right of the viewport with gap top `gapTop`. */
  function Spawn(counter: nat, ps: seq<Pipe>, viewWidth: nat, gapTop: int): (r: Spawned)
    ensures counter <= SpawnInterval ==> r.counter <= SpawnInterval
    ensures Fires(counter) ==>
      r.counter == 0 && |r.pipes| == |ps| + 1 && r.pipes[..|ps|] == ps
      && r.pipes[|ps|] == Pipe(viewWidth + SpawnOffset, gapTop, false)
    ensures !Fires(counter) ==> r.counter == counter + 1 && r.pipes == ps
    ensures CountPassed(r.pipes) == CountPassed(ps)
  {
    if Fires(counter) then
      CountPassedAppend(ps, [Pipe(viewWidth + SpawnOffset, gapTop, false)]);
      Spawned(NextCounter(counter), ps + [Pipe(viewWidth + SpawnOffset, gapTop, false)])
    else
      Spawned(NextCounter(counter), ps)
  }

  /** The counter after `k` frames of a run that started with the counter at 0. */
  function CounterAfter(k: nat): nat {
    if k == 0 then 0 else NextCounter(CounterAfter(k - 1))
  }

  /** How many of the first `k` frames of a run spawned a pair. */
  function SpawnsIn(k: nat): nat {
    if k == 0 then 0 else SpawnsIn(k - 1) + (if Fires(CounterAfter(k - 1)) then 1 else 0)
  }

  /** Cadence: starting from 0, the counter after k frames is k mod 101, frame number k
      (counting from 1) spawns exactly when k is a multiple of 101, and k frames spawn
      k div 101 pairs. */
  lemma {:induction false} SpawnCadence(k: nat)
    ensures CounterAfter(k) == k % (SpawnInterval + 1)
    ensures CounterAfter(k) <= SpawnInterval
    ensures k > 0 ==> (Fires(CounterAfter(k - 1)) <==> k % (SpawnInterval + 1) == 0)
    ensures SpawnsIn(k) == k / (SpawnInterval + 1)
  {
    if k > 0 {
      SpawnCadence(k - 1);
      var c := (k - 1) % 101;
      assert k - 1 == 101 * ((k - 1) / 101) + c;
      if c == 100 {
        assert k == 101 * ((k - 1) / 101 + 1);
        assert k % 101 == 0 && k / 101 == (k - 1) / 101 + 1;
      } else {
        assert k == 101 * ((k - 1) / 101) + (c + 1);
        assert k % 101 == c + 1 && k / 101 == (k - 1) / 101;
      }
    }
  }
}
