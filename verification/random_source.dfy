/**
 * The ambient `Math.random()` generator, made an explicit object. A draw may land anywhere in [0, 1), so
 * every comparison against it may come out either way; the methods below return an arbitrary outcome
 * and callers must be correct for all of them.
 */
module Random {

  class Source {
    /**
     * Two loops of the generator advance only when a draw succeeds, so a run of the source ends only
     * if those draws do not fail forever. `slack` is how many of those draws may still fail, in total;
     * once it is spent they succeed. Every run of the source that ends is the run of some `Source`
     * whose initial slack is at least its number of failed retries.
     */
    var slack: nat

    constructor (slack: nat)
      ensures this.slack == slack
    {
      this.slack := slack;
    }

    /** `Math.random() < p`: never true when p <= 0, always true when p >= 1, otherwise either. */
    method Below(p: real) returns (b: bool)
      ensures p <= 0.0 ==> !b
      ensures 1.0 <= p ==> b
    {
      if p <= 0.0 {
        b := false;
      } else if 1.0 <= p {
        b := true;
      } else {
        b := *;
      }
    }

    /** `Math.floor(Math.random() * n)`: some index below `n`. */
    method Index(n: nat) returns (k: nat)
      requires 0 < n
      ensures k < n
    {
      k :| k < n;
    }

    /** `Math.random() < p` inside a loop that only advances when the draw succeeds. */
    method Retry(p: real) returns (b: bool)
      modifies this
      ensures 1.0 <= p ==> b
      ensures b ==> slack == old(slack)
      ensures !b ==> old(slack) > 0 && slack == old(slack) - 1
    {
      if 1.0 <= p || slack == 0 {
        b := true;
      } else {
        b := *;
        if !b {
          slack := slack - 1;
        }
      }
    }

    /**
     * `Math.floor(d * (0.5 + Math.random() * 0.2))` for a distance `d`: a whole number of at least
     * half of `d` and at most seven tenths of it.
     */
    method Fraction(d: nat) returns (k: nat)
      ensures d / 2 <= k && 10 * k <= 7 * d
    {
      k :| d / 2 <= k <= 7 * d / 10;
    }
  }
}
