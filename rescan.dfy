/**
 * The shape shared by both `fstring_replace` dialects: a line is rewritten once
 * and the whole result is handed back to the same routine, until nothing is left
 * to rewrite or the depth bound stops it. Stated once over the single rewrite
 * `step` and the test `held` for "something is left to rewrite".
 */
module Rescan {
  /** `k` rewrites in a row, each on the output of the one before. */
  function Times(step: string -> string, s: string, k: nat): string
    decreases k
  {
    if k == 0 then s else Times(step, step(s), k - 1)
  }

  /** Every line of the first `m` rewrites, the `m`-th included, still held something to rewrite. */
  predicate AllHeld(step: string -> string, held: string -> bool, s: string, m: nat)
  {
    forall k :: 0 <= k <= m ==> held(Times(step, s, k))
  }

  /** A line that `step` leaves alone stays as it is however many times it is applied. */
  lemma {:induction false} TimesOfFixed(step: string -> string, s: string, k: nat)
    requires step(s) == s
    ensures Times(step, s, k) == s
    decreases k
  {
    if k > 0 {
      TimesOfFixed(step, s, k - 1);
    }
  }

  /**
   * When `step` changes only lines that hold something to rewrite, `m` rewrites
   * end either on a line with nothing left, or after a run in which every line,
   * the last included, still held something.
   */
  lemma {:induction false} FixpointOrBound(step: string -> string, held: string -> bool, s: string, m: nat)
    requires forall x :: !held(x) ==> step(x) == x
    ensures !held(Times(step, s, m)) || AllHeld(step, held, s, m)
    decreases m
  {
    if !held(s) {
      TimesOfFixed(step, s, m);
    } else if m > 0 {
      var t := step(s);
      FixpointOrBound(step, held, t, m - 1);
      if AllHeld(step, held, t, m - 1) {
        forall k | 0 <= k <= m
          ensures held(Times(step, s, k))
        {
          if k > 0 {
            assert Times(step, s, k) == Times(step, t, k - 1);
          }
        }
      }
    } else {
      assert Times(step, s, 0) == s;
    }
  }
}
