/** The uniform draws in [0, 1) that stand for `Math.random()` in both simulations. */
module Draws {
  predicate IsDraw(r: real) { 0.0 <= r < 1.0 }

  /** A draw scaled by n >= 1 stays in [0, n), so its floor `Math.floor(r * n)` lies in [0, n-1]. */
  lemma FloorOfScaledDraw(r: real, n: nat)
    requires IsDraw(r) && n >= 1
    ensures 0.0 <= r * n as real < n as real
    ensures 0 <= (r * n as real).Floor < n
  {
    assert (1.0 - r) * n as real > 0.0;
  }
}
