/** Model of src/constants.rs: the tuning constants of the compressor and the
    firing rule `should_mutate`. The random draw is a parameter; `draw` ranges over
    all values the random source can produce. */
module Constants {

  const INITIAL_POLYGONS: nat := 1
  const WORKERS: nat := 16
  const MUTATIONS: nat := 5
  const POPULATION_SIZE: nat := 10
  const VERTICES: nat := 8

  const ADD_POLYGON_RATE: nat := 400
  const REMOVE_POLYGON_RATE: nat := 1200
  const CHANGE_COLOR_RATE: nat := 1200
  const MOVE_VERTEX_RATE: nat := 1000
  const ADD_VERTEX_RATE: nat := 1000
  const REMOVE_VERTEX_RATE: nat := 1200

  /** Every `*_RATE` constant, the values `should_mutate` is applied to. */
  const RATES: seq<nat> := [ADD_POLYGON_RATE, REMOVE_POLYGON_RATE, CHANGE_COLOR_RATE,
                            MOVE_VERTEX_RATE, ADD_VERTEX_RATE, REMOVE_VERTEX_RATE]

  /** `should_mutate(max)`: fires when the draw leaves remainder 1 modulo `max`.
      `max` must be positive, as the remainder by 0 panics; and only a `max` of at
      least 2 can ever fire. */
  function ShouldMutate(max: nat, draw: nat): (fire: bool)
    requires max > 0
    ensures fire ==> max >= 2
  {
    draw % max == 1
  }

  /** With `max == 1` the rule never fires, since every draw is 0 modulo 1. */
  lemma RateOneNeverFires(draw: nat)
    ensures !ShouldMutate(1, draw)
  {
  }

  /** For `max >= 2`, exactly one draw in `[0, max)` fires: the draw 1. */
  lemma OneFiringDrawPerPeriod(max: nat)
    requires max >= 2
    ensures forall d :: 0 <= d < max ==> (ShouldMutate(max, d) <==> d == 1)
  {
  }

  /** The number of firing draws among `0 .. n - 1`. */
  function Firings(max: nat, n: nat): nat
    requires max > 0
  {
    if n == 0 then 0 else Firings(max, n - 1) + (if ShouldMutate(max, n - 1) then 1 else 0)
  }

  lemma RemainderInPeriod(max: nat, k: nat, j: nat)
    requires 0 < max && j < max
    ensures (k * max + j) % max == j
  {
    var x := k * max + j;
    var q, r := x / max, x % max;
    assert q * max + r == x;
    assert (q - k) * max == j - r;
    if q - k >= 1 {
      MultiplyAtLeastOnce(q - k, max);
    } else if q - k <= -1 {
      MultiplyAtLeastOnce(k - q, max);
    }
  }

  lemma MultiplyAtLeastOnce(a: int, max: nat)
    requires a >= 1
    ensures a * max >= max
  {
  }

  lemma {:induction false} FiringsWithinPeriod(max: nat, k: nat, j: nat)
    requires max >= 2 && j <= max
    ensures Firings(max, k * max + j) == Firings(max, k * max) + (if j >= 2 then 1 else 0)
  {
    if j > 0 {
      FiringsWithinPeriod(max, k, j - 1);
      RemainderInPeriod(max, k, j - 1);
    }
  }

  /** Of the draw values `0 .. k * max - 1`, exactly `k` fire: one value in every
      block of `max` consecutive values. This counts draw values, not successive
      calls of the random source. */
  lemma {:induction false} FiringsPerPeriods(max: nat, k: nat)
    requires max >= 2
    ensures Firings(max, k * max) == k
  {
    if k > 0 {
      FiringsPerPeriods(max, k - 1);
      FiringsWithinPeriod(max, k - 1, max);
      assert (k - 1) * max + max == k * max;
    }
  }

  /** Every rate is at least 2, so every operator can fire and no remainder is by 0;
      the counts are positive and a polygon starts with at least 3 vertices. */
  lemma ConstantsAreUsable()
    ensures forall i :: 0 <= i < |RATES| ==> RATES[i] >= 2
    ensures VERTICES >= 3
    ensures POPULATION_SIZE > 0 && MUTATIONS > 0 && WORKERS > 0 && INITIAL_POLYGONS > 0
  {
  }
}
