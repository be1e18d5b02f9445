/**
 * The integer skeleton of `mandelbrot` (mandel.c:42-65): the do-while loop over the
 * step counter k and the operation counter `*flops`. The floating-point update of z and
 * the test `lengthsq < 4.0` are abstracted by an oracle.
 */
module Escape {

  /**
   * Bounded(i, j, s) holds when, after s applications of z := z*z + c starting from
   * z = 0 at the point c of pixel (row i, column j), |z|^2 is still below 4.
   */
  type Oracle = (int, int, int) -> bool

  /** Step s ends the loop: either |z|^2 reached 4 or the counter reached the cap. */
  predicate StopsAt(bounded: Oracle, i: int, j: int, maxIter: int, s: int)
  {
    !bounded(i, j, s) || s >= maxIter
  }

  /** The step at which the loop stops when it is at step s and has not stopped before. */
  function StopFrom(bounded: Oracle, i: int, j: int, maxIter: int, s: int): (k: int)
    requires 1 <= s <= maxIter
    ensures s <= k <= maxIter
    ensures StopsAt(bounded, i, j, maxIter, k)
    ensures forall t :: s <= t < k ==> !StopsAt(bounded, i, j, maxIter, t)
    decreases maxIter - s
  {
    if StopsAt(bounded, i, j, maxIter, s) then s else StopFrom(bounded, i, j, maxIter, s + 1)
  }

  /** The value `mandelbrot(i, j)` returns: the first step that stops the loop. */
  function Iterations(bounded: Oracle, i: int, j: int, maxIter: int): int
    requires maxIter >= 1
  {
    StopFrom(bounded, i, j, maxIter, 1)
  }

  /** Operations counted for one call: 4 for the coordinate mapping and 10 per step. */
  function Ops(k: int): int
  {
    4 + 10 * k
  }

  /**
   * The result lies in [1, maxIter]; every earlier step kept |z|^2 below 4; and a result
   * below the cap means |z|^2 reached 4 at that step. These facts pin the result down.
   */
  lemma IterationsCharacterized(bounded: Oracle, i: int, j: int, maxIter: int, k: int)
    requires maxIter >= 1
    ensures 1 <= Iterations(bounded, i, j, maxIter) <= maxIter
    ensures k == Iterations(bounded, i, j, maxIter) <==>
      1 <= k <= maxIter
      && (forall s :: 1 <= s < k ==> bounded(i, j, s))
      && (k < maxIter ==> !bounded(i, j, k))
  {
    var n := Iterations(bounded, i, j, maxIter);
    forall s | 1 <= s < n
      ensures bounded(i, j, s)
    {
      assert !StopsAt(bounded, i, j, maxIter, s);
    }
  }

  /** A point escapes before the cap exactly when some step before the cap has |z|^2 >= 4. */
  lemma EscapesIff(bounded: Oracle, i: int, j: int, maxIter: int)
    requires maxIter >= 1
    ensures Iterations(bounded, i, j, maxIter) < maxIter <==>
      exists s :: 1 <= s < maxIter && !bounded(i, j, s)
  {
    var n := Iterations(bounded, i, j, maxIter);
    if n < maxIter {
      assert !bounded(i, j, n);
    } else {
      forall s | 1 <= s < maxIter
        ensures bounded(i, j, s)
      {
        assert !StopsAt(bounded, i, j, maxIter, s);
      }
    }
  }

  /** A point whose |z|^2 stays below 4 at every step is reported at the cap. */
  lemma NeverEscapes(bounded: Oracle, i: int, j: int, maxIter: int)
    requires maxIter >= 1
    requires forall s :: 1 <= s <= maxIter ==> bounded(i, j, s)
    ensures Iterations(bounded, i, j, maxIter) == maxIter
  {
    IterationsCharacterized(bounded, i, j, maxIter, maxIter);
  }

  /** A point whose first step already has |z|^2 >= 4 is reported after one step. */
  lemma EscapesAtFirstStep(bounded: Oracle, i: int, j: int, maxIter: int)
    requires maxIter >= 1 && !bounded(i, j, 1)
    ensures Iterations(bounded, i, j, maxIter) == 1
  {
  }

  /**
   * The do-while loop of `mandelbrot`. `flops` is the counter `*flops` points to on entry
   * and `flopsOut` its value on return.
   */
  method Mandelbrot(i: int, j: int, flops: int, bounded: Oracle, maxIter: int) returns (k: int, flopsOut: int)
    requires maxIter >= 1
    ensures 1 <= k <= maxIter
    ensures forall s :: 1 <= s < k ==> bounded(i, j, s)
    ensures k < maxIter ==> !bounded(i, j, k)
    ensures k == Iterations(bounded, i, j, maxIter)
    ensures flopsOut == flops + Ops(k)
  {
    flopsOut := flops + 4;
    k := 0;
    while true
      invariant 0 <= k < maxIter
      invariant forall s :: 1 <= s <= k ==> bounded(i, j, s)
      invariant flopsOut == flops + 4 + 10 * k
      decreases maxIter - k
    {
      // the update of z and the computation of lengthsq, abstracted
      var lengthsqBelow4 := bounded(i, j, k + 1);
      k := k + 1;
      flopsOut := flopsOut + 10;
      if !(lengthsqBelow4 && k < maxIter) {
        break;
      }
    }
    IterationsCharacterized(bounded, i, j, maxIter, k);
  }
}
