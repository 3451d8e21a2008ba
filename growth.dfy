/**
 * The capacity policy of the array list: a default capacity of 10 and
 * a growth factor of 1.5, truncated to an integer.
 */
module Growth {

  /** Capacity of a newly constructed list. */
  const DEFAULT_CAPACITY: nat := 10

  /**
   * One growth step, `(int) (c * 1.5)`. For a non-negative capacity the
   * product is exact and truncation is the floor, which is `c * 3 / 2`.
   * The step makes progress exactly when the capacity is at least 2, so
   * a capacity of 0 or 1 would never grow.
   */
  function Grow(c: nat): (r: nat)
    ensures c <= r
    ensures c < r <==> 2 <= c
  {
    c * 3 / 2
  }

  /** Growth is monotone: a smaller capacity never grows past a larger one. */
  lemma GrowMonotone(a: nat, b: nat)
    requires a <= b
    ensures Grow(a) <= Grow(b)
  {
  }

  /**
   * The capacity reached from `c` by applying `Grow` until it is at least
   * `required` (no step at all when `c` already suffices). The result is
   * enough, never shrinks, and overshoots by at most one growth step.
   */
  function GrowTo(c: nat, required: nat): (r: nat)
    requires 2 <= c
    ensures required <= r && c <= r
    ensures required <= c ==> r == c
    ensures c < required ==> r <= Grow(required)
    decreases if c < required then required - c else 0
  {
    if required <= c then c
    else
      GrowMonotone(c, required);
      GrowTo(Grow(c), required)
  }

  /** `c` grown `k` times. */
  function GrowSteps(c: nat, k: nat): nat
    decreases k
  {
    if k == 0 then c else GrowSteps(Grow(c), k - 1)
  }

  /** The number of growth steps `GrowTo` takes. */
  function StepsTo(c: nat, required: nat): nat
    requires 2 <= c
    decreases if c < required then required - c else 0
  {
    if required <= c then 0 else 1 + StepsTo(Grow(c), required)
  }

  /**
   * `GrowTo` is the FIRST iterate of the growth step that is large
   * enough: every earlier iterate is below `required`. So the bulk
   * reallocation allocates once, at the smallest capacity the 1.5x
   * policy offers that fits the request.
   */
  lemma {:induction false} GrowToIsFirstSufficient(c: nat, required: nat)
    requires 2 <= c
    ensures GrowSteps(c, StepsTo(c, required)) == GrowTo(c, required)
    ensures forall j :: 0 <= j < StepsTo(c, required) ==> GrowSteps(c, j) < required
    decreases if c < required then required - c else 0
  {
    if c < required {
      GrowToIsFirstSufficient(Grow(c), required);
      forall j | 0 <= j < StepsTo(c, required)
        ensures GrowSteps(c, j) < required
      {
        if j > 0 {
          assert GrowSteps(c, j) == GrowSteps(Grow(c), j - 1);
        }
      }
    }
  }

  /**
   * For a single extra element the one-step growth of the single-element
   * path and the loop of the bulk path agree: growing a full buffer of
   * capacity at least 2 once always makes room for one more element.
   */
  lemma OneStepSuffices(c: nat, size: nat)
    requires 2 <= c && size <= c
    ensures GrowTo(c, size + 1) == (if c <= size then Grow(c) else c)
  {
  }
}
