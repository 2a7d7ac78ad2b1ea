/** Repeated application of a function. */
module Iteration {

  /** `f` applied `n` times to `x`. */
  function Iterate<T>(f: T -> T, x: T, n: nat): T {
    if n == 0 then x else f(Iterate(f, x, n - 1))
  }

  /** A fixed point of `f` stays put however often `f` is applied. */
  lemma {:induction false} IterateFixedPoint<T>(f: T -> T, x: T, n: nat)
    requires f(x) == x
    ensures Iterate(f, x, n) == x
  {
    if n > 0 {
      IterateFixedPoint(f, x, n - 1);
    }
  }
}
