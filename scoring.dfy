/** The collision and scoring pass of one frame: every pipe pair is tested against the
    bird's box, and every pair whose right edge is behind the bird and that has not
    scored yet is flagged and adds one point. */
module Scoring {
  import opened Rules

  /** One pair after the pass: flagged if it scores now, otherwise unchanged. */
  function MarkPassed(p: Pipe): Pipe {
    if Scores(p) then p.(passed := true) else p
  }

  /** The pairs after the pass: same positions and heights, same order, each flag set
      exactly when it was already set or the pair's right edge is behind the bird. */
  function Marked(ps: seq<Pipe>): (r: seq<Pipe>)
    ensures |r| == |ps|
    ensures forall i :: 0 <= i < |ps| ==>
      r[i].x == ps[i].x && r[i].height == ps[i].height &&
      r[i].passed == (ps[i].passed || Crossed(ps[i]))
  {
    if ps == [] then [] else Marked(ps[..|ps| - 1]) + [MarkPassed(ps[|ps| - 1])]
  }

  /** How many pairs score in this pass. */
  function Newly(ps: seq<Pipe>): nat {
    if ps == [] then 0
    else Newly(ps[..|ps| - 1]) + (if Scores(ps[|ps| - 1]) then 1 else 0)
  }

  /** Some pair is hit in this pass. */
  predicate Hits(y: real, ps: seq<Pipe>) {
    ps != [] && (Hits(y, ps[..|ps| - 1]) || Collides(y, ps[|ps| - 1]))
  }

  /** What the pass produces: the flagged pairs, the points gained, whether the bird
      hit a pair. */
  datatype Verdict = Verdict(pipes: seq<Pipe>, gained: nat, hit: bool)

  /** The pass keeps every pair where it is, flags exactly the pairs already flagged or
      behind the bird, gains at most one point per pair, sets exactly one new flag per
      point, and reports a hit exactly when the bird collides with some pair. */
  function Evaluate(y: real, ps: seq<Pipe>): (r: Verdict)
    ensures |r.pipes| == |ps| && r.gained <= |ps|
    ensures forall i :: 0 <= i < |ps| ==>
      r.pipes[i].x == ps[i].x && r.pipes[i].height == ps[i].height &&
      r.pipes[i].passed == (ps[i].passed || Crossed(ps[i]))
    ensures CountPassed(r.pipes) == CountPassed(ps) + r.gained
    ensures r.hit <==> exists i :: 0 <= i < |ps| && Collides(y, ps[i])
  {
    MarkedLedger(ps);
    HitsIffSomeCollision(y, ps);
    Verdict(Marked(ps), Newly(ps), Hits(y, ps))
  }

  /** The pass reports a hit exactly when the bird collides with some pair. */
  lemma {:induction false} HitsIffSomeCollision(y: real, ps: seq<Pipe>)
    ensures Hits(y, ps) <==> exists i :: 0 <= i < |ps| && Collides(y, ps[i])
  {
    if ps != [] {
      var init := ps[..|ps| - 1];
      HitsIffSomeCollision(y, init);
      if Hits(y, init) {
        var i :| 0 <= i < |init| && Collides(y, init[i]);
        assert ps[i] == init[i];
      }
      if exists i :: 0 <= i < |ps| && Collides(y, ps[i]) {
        var i :| 0 <= i < |ps| && Collides(y, ps[i]);
        if i < |init| {
          assert init[i] == ps[i];
        }
      }
    }
  }

  /** Flagging moves no pair, so the pass hits the flagged pairs exactly when it hits
      the pairs before flagging. */
  lemma {:induction false} HitsMarked(y: real, ps: seq<Pipe>)
    ensures Hits(y, Marked(ps)) == Hits(y, ps)
  {
    if ps != [] {
      var init := ps[..|ps| - 1];
      HitsMarked(y, init);
      assert Marked(ps)[..|ps| - 1] == Marked(init);
    }
  }

  /** Each point gained corresponds to one flag newly set: the flags after the pass
      count the flags before it plus the points, so only unflagged pairs score, and each
      of them at most once. */
  lemma {:induction false} MarkedLedger(ps: seq<Pipe>)
    ensures CountPassed(Marked(ps)) == CountPassed(ps) + Newly(ps)
    ensures Newly(ps) <= |ps| - CountPassed(ps)
  {
    if ps != [] {
      var init := ps[..|ps| - 1];
      MarkedLedger(init);
      assert Marked(ps)[..|ps| - 1] == Marked(init);
    }
  }

  /** A second pass over the flagged pairs scores nothing and flags nothing more. */
  lemma {:induction false} MarkedIdempotent(ps: seq<Pipe>)
    ensures Newly(Marked(ps)) == 0
    ensures Marked(Marked(ps)) == Marked(ps)
  {
    if ps != [] {
      var init := ps[..|ps| - 1];
      MarkedIdempotent(init);
      assert Marked(ps)[..|ps| - 1] == Marked(init);
    }
  }

  /** Points gained in one pass are the pairs that are crossed and not yet flagged. */
  lemma {:induction false} NewlyCountsScoringPairs(ps: seq<Pipe>)
    ensures (forall i :: 0 <= i < |ps| ==> !Scores(ps[i])) <==> Newly(ps) == 0
    ensures (forall i :: 0 <= i < |ps| ==> Scores(ps[i])) ==> Newly(ps) == |ps|
  {
    if ps != [] {
      var init := ps[..|ps| - 1];
      NewlyCountsScoringPairs(init);
      assert forall i :: 0 <= i < |init| ==> init[i] == ps[i];
    }
  }
}
