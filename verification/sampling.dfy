/**
 * The two choice functions a sweep draws a new label with (sample_random
 * and sample_maximize in src/sample.c). Both scan the T x P weight array
 * in row-major order (topic outer, pov inner); the specification of each
 * is stated on the flat array and the methods show that the nested loops
 * of the source compute it. The uniform draw of the GSL generator is a
 * parameter.
 */
module Sampling {
  import opened Arith

  /** Sum of the first k weights: the running sum after k cells. */
  function PrefixSum(w: seq<real>, k: int): real
    requires 0 <= k <= |w|
  {
    if k == 0 then 0.0 else PrefixSum(w, k - 1) + w[k - 1]
  }

  /** The first cell at or after `from` whose running sum exceeds `chosen`, or -1. */
  function FirstAbove(w: seq<real>, chosen: real, from: int): (k: int)
    requires 0 <= from <= |w|
    ensures k == -1 || from <= k < |w|
    ensures k >= 0 ==> chosen < PrefixSum(w, k + 1)
    ensures forall j | from < j <= |w| && (k == -1 || j <= k) :: PrefixSum(w, j) <= chosen
    decreases |w| - from
  {
    if from == |w| then -1
    else if chosen < PrefixSum(w, from + 1) then from
    else FirstAbove(w, chosen, from + 1)
  }

  /**
   * sample_random on the flat array: the first cell whose running sum
   * exceeds `chosen` (the caller's `probability_sum * uniform`), or -1
   * when none does.
   */
  function SampleRandom(w: seq<real>, chosen: real): (k: int)
    ensures -1 <= k < |w|
    ensures k >= 0 ==> chosen < PrefixSum(w, k + 1) && forall j | 0 < j <= k :: PrefixSum(w, j) <= chosen
    ensures k == -1 ==> forall j | 0 < j <= |w| :: PrefixSum(w, j) <= chosen
    ensures (forall j | 0 < j <= |w| :: PrefixSum(w, j) <= chosen) ==> k == -1
  {
    FirstAbove(w, chosen, 0)
  }

  /** Running sums of non-negative weights never decrease. */
  lemma {:induction false} PrefixSumMonotone(w: seq<real>, i: int, j: int)
    requires forall x | 0 <= x < |w| :: w[x] >= 0.0
    requires 0 <= i <= j <= |w|
    ensures PrefixSum(w, i) <= PrefixSum(w, j)
    decreases j - i
  {
    if i < j {
      PrefixSumMonotone(w, i, j - 1);
    }
  }

  /** Positive weights have a positive total. */
  lemma {:induction false} PrefixSumPositive(w: seq<real>, n: int)
    requires forall x | 0 <= x < |w| :: w[x] > 0.0
    requires 0 < n <= |w|
    ensures PrefixSum(w, n) > 0.0
    decreases n
  {
    if n > 1 {
      PrefixSumPositive(w, n - 1);
    }
  }

  /**
   * With non-negative weights and `chosen` below their total, sample_random
   * finds a cell, and the cell it finds has positive weight.
   */
  lemma FoundCellIsPositive(w: seq<real>, chosen: real)
    requires forall x | 0 <= x < |w| :: w[x] >= 0.0
    requires 0.0 <= chosen < PrefixSum(w, |w|)
    ensures var k := SampleRandom(w, chosen);
            0 <= k < |w| && w[k] > 0.0
  {
    var k := SampleRandom(w, chosen);
    assert |w| > 0;
    assert k != -1;
    if k > 0 {
      assert PrefixSum(w, k) <= chosen;
    }
  }

  /**
   * With a uniform draw in [0, 1) scaling a positive total, the caller's
   * `chosen_topic != -1` assertion holds and a zero-weight label is never
   * drawn.
   */
  lemma RandomDrawFindsPositiveCell(w: seq<real>, u: real)
    requires forall x | 0 <= x < |w| :: w[x] >= 0.0
    requires PrefixSum(w, |w|) > 0.0 && 0.0 <= u < 1.0
    ensures var k := SampleRandom(w, Scaled(PrefixSum(w, |w|), u));
            0 <= k < |w| && w[k] > 0.0
  {
    ScaledInRange(PrefixSum(w, |w|), u);
    FoundCellIsPositive(w, Scaled(PrefixSum(w, |w|), u));
  }

  /** The caller's `probability_sum * uniform`: the point of the total a draw selects. */
  function Scaled(sum: real, u: real): real {
    sum * u
  }

  /** A positive total scaled by a draw in [0, 1) stays in [0, total). */
  lemma ScaledInRange(sum: real, u: real)
    requires sum > 0.0 && 0.0 <= u < 1.0
    ensures 0.0 <= Scaled(sum, u) < sum
  {
    assert sum - sum * u == sum * (1.0 - u);
    assert sum * (1.0 - u) > 0.0;
  }

  /**
   * The nested loops of sample_random. The chosen topic and pov stay -1
   * when no cell is found (the caller initialises them to -1).
   */
  method SampleRandomGrid(w: seq<real>, T: int, P: int, chosen: real) returns (topic: int, pov: int)
    requires T >= 0 && P >= 1 && |w| == T * P
    ensures GridCell(SampleRandom(w, chosen), topic, pov, T, P)
  {
    var running := 0.0;
    var t, base := 0, 0;
    while t < T
      invariant 0 <= t <= T && base == P * t && base <= |w|
      invariant running == PrefixSum(w, base)
      invariant forall j | 0 < j <= base :: PrefixSum(w, j) <= chosen
    {
      MulLt(P, t, T);
      var q := 0;
      while q < P
        invariant 0 <= q <= P
        invariant running == PrefixSum(w, base + q)
        invariant forall j | 0 < j <= base + q :: PrefixSum(w, j) <= chosen
      {
        running := running + w[base + q];
        if chosen < running {
          FirstCellIsUnique(w, chosen, SampleRandom(w, chosen), base + q);
          assert t * P == base;
          return t, q;
        }
        q := q + 1;
      }
      t, base := t + 1, base + P;
    }
    return -1, -1;
  }

  /** Only one cell is the first whose running sum exceeds `chosen`. */
  lemma FirstCellIsUnique(w: seq<real>, chosen: real, k: int, i: int)
    requires k == SampleRandom(w, chosen)
    requires 0 <= i < |w| && chosen < PrefixSum(w, i + 1)
    requires forall j | 0 < j <= i :: PrefixSum(w, j) <= chosen
    ensures k == i
  {
  }

  /**
   * sample_maximize on the first n cells: the cell holding the largest
   * positive weight, the first one on ties (the comparison is strict),
   * with the best weight seen; (-1, 0) while no weight is positive.
   */
  function MaxUpTo(w: seq<real>, n: int): (r: (int, real))
    requires 0 <= n <= |w|
    ensures r.0 == -1 ==> r.1 == 0.0
    ensures -1 <= r.0 < n
    ensures r.0 >= 0 ==> r.1 == w[r.0] && r.1 > 0.0
  {
    if n == 0 then (-1, 0.0)
    else
      var prev := MaxUpTo(w, n - 1);
      if w[n - 1] > prev.1 then (n - 1, w[n - 1]) else prev
  }

  function SampleMaximize(w: seq<real>): int {
    MaxUpTo(w, |w|).0
  }

  /**
   * The cell sample_maximize picks: -1 exactly when no weight is positive;
   * otherwise a positive cell no other cell exceeds, and the first such.
   */
  lemma {:induction false} MaxUpToSpec(w: seq<real>, n: int)
    requires 0 <= n <= |w|
    ensures var k := MaxUpTo(w, n).0;
            && (k == -1 <==> forall j | 0 <= j < n :: w[j] <= 0.0)
            && (k >= 0 ==> forall j | 0 <= j < n :: w[j] <= w[k])
            && (k >= 0 ==> forall j | 0 <= j < k :: w[j] < w[k])
    decreases n
  {
    if n > 0 {
      MaxUpToSpec(w, n - 1);
    }
  }

  lemma SampleMaximizeSpec(w: seq<real>)
    ensures var k := SampleMaximize(w);
            && -1 <= k < |w|
            && (k == -1 <==> forall j | 0 <= j < |w| :: w[j] <= 0.0)
            && (k >= 0 ==> w[k] > 0.0 && forall j | 0 <= j < |w| :: w[j] <= w[k])
            && (k >= 0 ==> forall j | 0 <= j < k :: w[j] < w[k])
  {
    MaxUpToSpec(w, |w|);
  }

  /**
   * The (topic, pov) pair a T x P scan reports for flat cell k: -1/-1 for
   * "none", otherwise the row-major coordinates of k.
   */
  predicate GridCell(k: int, topic: int, pov: int, T: int, P: int) {
    && (k == -1 ==> topic == -1 && pov == -1)
    && (k >= 0 ==> 0 <= topic < T && 0 <= pov < P && k == topic * P + pov)
  }

  /** The nested loops of sample_maximize. */
  method SampleMaximizeGrid(w: seq<real>, T: int, P: int) returns (topic: int, pov: int)
    requires T >= 0 && P >= 1 && |w| == T * P
    ensures GridCell(SampleMaximize(w), topic, pov, T, P)
  {
    var best := 0.0;
    topic, pov := -1, -1;
    var t, base := 0, 0;
    while t < T
      invariant 0 <= t <= T && base == P * t && base <= |w|
      invariant MaxUpTo(w, base).1 == best
      invariant GridCell(MaxUpTo(w, base).0, topic, pov, t, P)
    {
      MulLt(P, t, T);
      topic, pov, best := MaximizeRow(w, P, t, base, topic, pov, best);
      t, base := t + 1, base + P;
    }
    assert base == |w|;
  }

  /** One iteration of the outer loop of sample_maximize: the scan of topic t's row. */
  method MaximizeRow(w: seq<real>, P: int, t: int, base: int, topic0: int, pov0: int, best0: real)
    returns (topic: int, pov: int, best: real)
    requires P >= 1 && t >= 0 && base == t * P && base + P <= |w|
    requires MaxUpTo(w, base).1 == best0
    requires GridCell(MaxUpTo(w, base).0, topic0, pov0, t, P)
    ensures MaxUpTo(w, base + P).1 == best
    ensures GridCell(MaxUpTo(w, base + P).0, topic, pov, t + 1, P)
  {
    topic, pov, best := topic0, pov0, best0;
    var q := 0;
    while q < P
      invariant 0 <= q <= P
      invariant MaxUpTo(w, base + q).1 == best
      invariant GridCell(MaxUpTo(w, base + q).0, topic, pov, t + 1, P)
    {
      if w[base + q] > best {
        best := w[base + q];
        topic, pov := t, q;
      }
      q := q + 1;
    }
  }
}
