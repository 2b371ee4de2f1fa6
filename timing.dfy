/**
 * The frame timer of the sprite on values: one call of animate is a Tick of a
 * Clock (horizontal cursor plus accumulated time); a frame loop that calls
 * animate once per frame is a Run over the sequence of frame deltas.
 */
module Timing {
  import opened Frames

  /** The part of the sprite's state that animate reads and writes. */
  datatype Clock = Clock(hframe: int, accumulated: real)

  /** Whether a call of animate with `delta` crosses the per-frame duration. */
  predicate Fires(c: Clock, timePerFrame: real, delta: real)
  {
    c.accumulated + delta >= timePerFrame
  }

  /**
   * One call of animate: accumulate `delta`; if the frame duration is reached,
   * pay it back once and move the horizontal cursor one step (with wrap).
   */
  function Tick(c: Clock, hframes: nat, timePerFrame: real, delta: real): (r: Clock)
    requires hframes >= 1 && 0 <= c.hframe < hframes
    ensures 0 <= r.hframe < hframes
    ensures Fires(c, timePerFrame, delta) ==>
              r.hframe == (c.hframe + 1) % hframes &&
              r.accumulated == c.accumulated + delta - timePerFrame
    ensures !Fires(c, timePerFrame, delta) ==>
              r.hframe == c.hframe && r.accumulated == c.accumulated + delta
  {
    WrapOneStepIsModulo(c.hframe, hframes);
    var acc := c.accumulated + delta;
    if acc >= timePerFrame then Clock(Wrap(c.hframe + 1, hframes), acc - timePerFrame)
    else Clock(c.hframe, acc)
  }

  /** Total time handed to a sequence of animate calls. */
  function Sum(deltas: seq<real>): real
  {
    if deltas == [] then 0.0 else deltas[0] + Sum(deltas[1..])
  }

  /**
   * Successive animate calls with the given deltas. Returns the final clock and
   * the number of calls that advanced the cursor: at most one per call, and
   * the cursor has moved by exactly that many steps modulo `hframes`.
   */
  function Run(c: Clock, hframes: nat, timePerFrame: real, deltas: seq<real>): (r: (Clock, nat))
    requires hframes >= 1 && 0 <= c.hframe < hframes
    ensures r.1 <= |deltas|
    ensures 0 <= r.0.hframe < hframes
    ensures r.0.hframe == (c.hframe + r.1) % hframes
    decreases |deltas|
  {
    if deltas == [] then
      ModOfSmall(c.hframe, hframes);
      (c, 0)
    else
      var next := Tick(c, hframes, timePerFrame, deltas[0]);
      var rest := Run(next, hframes, timePerFrame, deltas[1..]);
      if Fires(c, timePerFrame, deltas[0]) then
        ModAddMod(c.hframe + 1, rest.1, hframes);
        (rest.0, rest.1 + 1)
      else
        (rest.0, rest.1)
  }

  /** `k` frame durations, as the accumulator pays them out one by one. */
  function Paid(k: nat, timePerFrame: real): real
  {
    if k == 0 then 0.0 else Paid(k - 1, timePerFrame) + timePerFrame
  }

  /** Paying out `k` frame durations one by one costs `k` times the frame duration. */
  lemma {:induction false} PaidIsProduct(k: nat, timePerFrame: real)
    ensures Paid(k, timePerFrame) == k as real * timePerFrame
  {
    if k > 0 {
      PaidIsProduct(k - 1, timePerFrame);
      ScaleSucc(k - 1, timePerFrame);
    }
  }

  /**
   * No time is lost across animate calls: whatever was handed in and not paid
   * out as frame advances is still in the accumulator.
   */
  lemma {:induction false} RunConservesTime(c: Clock, hframes: nat, timePerFrame: real, deltas: seq<real>)
    requires hframes >= 1 && 0 <= c.hframe < hframes
    decreases |deltas|
    ensures var r := Run(c, hframes, timePerFrame, deltas);
            r.0.accumulated == c.accumulated + Sum(deltas) - Paid(r.1, timePerFrame)
  {
    if deltas != [] {
      var next := Tick(c, hframes, timePerFrame, deltas[0]);
      RunConservesTime(next, hframes, timePerFrame, deltas[1..]);
    }
  }

  /**
   * Called once per frame with exactly the frame duration, starting from a
   * non-negative accumulator, animate advances the cursor on every call and
   * keeps the accumulator where it was: k calls move the cursor k steps.
   */
  lemma {:induction false} RunAtFrameRate(c: Clock, hframes: nat, timePerFrame: real, k: nat)
    requires hframes >= 1 && 0 <= c.hframe < hframes
    requires c.accumulated >= 0.0
    decreases k
    ensures var r := Run(c, hframes, timePerFrame, seq(k, _ => timePerFrame));
            r.1 == k &&
            r.0.hframe == (c.hframe + k) % hframes &&
            r.0.accumulated == c.accumulated
  {
    var deltas := seq(k, _ => timePerFrame);
    if k > 0 {
      var next := Tick(c, hframes, timePerFrame, deltas[0]);
      assert Fires(c, timePerFrame, deltas[0]);
      assert deltas[1..] == seq(k - 1, _ => timePerFrame);
      RunAtFrameRate(next, hframes, timePerFrame, k - 1);
    }
  }

  /**
   * A stall does not make animate skip frames: one call with a delta of at
   * least two frame durations advances exactly one step and leaves a backlog
   * of at least one frame duration for later calls.
   */
  lemma StallAdvancesOnce(c: Clock, hframes: nat, timePerFrame: real, delta: real)
    requires hframes >= 1 && 0 <= c.hframe < hframes
    requires timePerFrame > 0.0 && c.accumulated >= 0.0 && delta >= 2.0 * timePerFrame
    ensures var r := Tick(c, hframes, timePerFrame, delta);
            r.hframe == (c.hframe + 1) % hframes && r.accumulated >= timePerFrame
  {
  }

  lemma ScaleSucc(n: nat, t: real)
    ensures (n + 1) as real * t == n as real * t + t
  {
  }
}
