/**
 * The counting helpers behind the text reports (src/comparisons.c): how
 * many of a list of revisions revert, POV-revert or are POV-reverted
 * (count_pov_reverts), which (topic, POV) most of them carry
 * (edits_on_max_pov, without the entropy), and the antagonism ratios of
 * the directed POV cells (average_pov_antagonism, pov_controversy).
 *
 * The reports run on a fully assigned index, so out-of-region lookups
 * are excluded by preconditions rather than modelled as failures.
 */
module Reports {
  import opened Records
  import opened Updates
  import opened Arith

  /** Every listed id and every parent and child link names a stored revision. */
  predicate Addressable(revs: seq<Revision>, A: seq<Assignment>, ids: seq<int>) {
    && |A| == |revs|
    && (forall i | 0 <= i < |ids| :: 0 <= ids[i] < |revs|)
    && (forall r | 0 <= r < |revs| :: revs[r].parent < |revs| && revs[r].child < |revs|)
  }

  /** The three outputs of count_pov_reverts. */
  datatype Kind = Reverts | PovReverts | PovReverted

  /**
   * Whether revision r counts towards one output: it reverts; it reverts
   * a parent of the same topic and another POV; it reverts and is itself
   * reverted by a child of the same topic and another POV.
   */
  predicate Counts(revs: seq<Revision>, A: seq<Assignment>, r: int, kind: Kind)
    requires 0 <= r < |revs| == |A| && revs[r].parent < |revs| && revs[r].child < |revs|
  {
    var v, a := revs[r], A[r];
    match kind
    case Reverts => v.disagrees
    case PovReverts =>
      v.disagrees && v.parent >= 0 && A[v.parent].topic == a.topic && A[v.parent].pov != a.pov
    case PovReverted =>
      v.disagrees && v.child >= 0 && revs[v.child].disagrees && A[v.child].topic == a.topic && A[v.child].pov != a.pov
  }

  /** How many of the listed revisions count towards one output. */
  function Tally(revs: seq<Revision>, A: seq<Assignment>, ids: seq<int>, kind: Kind): nat
    requires Addressable(revs, A, ids)
  {
    if |ids| == 0 then 0
    else
      var front := ids[..|ids| - 1];
      assert Addressable(revs, A, front);
      Tally(revs, A, front, kind) + if Counts(revs, A, ids[|ids| - 1], kind) then 1 else 0
  }

  lemma TallyPush(revs: seq<Revision>, A: seq<Assignment>, ids: seq<int>, i: int, kind: Kind)
    requires Addressable(revs, A, ids) && 0 <= i < |ids|
    ensures Addressable(revs, A, ids[..i]) && Addressable(revs, A, ids[..i + 1])
    ensures Tally(revs, A, ids[..i + 1], kind) == Tally(revs, A, ids[..i], kind) + if Counts(revs, A, ids[i], kind) then 1 else 0
  {
    assert ids[..i + 1][..i] == ids[..i];
  }

  /** count_pov_reverts: one pass over the list, the three counts nested under "this revision reverts". */
  method CountPovReverts(revs: seq<Revision>, A: seq<Assignment>, ids: seq<int>)
    returns (numPovReverts: int, numPovReverted: int, numReverts: int)
    requires Addressable(revs, A, ids)
    ensures numReverts == Tally(revs, A, ids, Reverts)
    ensures numPovReverts == Tally(revs, A, ids, PovReverts)
    ensures numPovReverted == Tally(revs, A, ids, PovReverted)
  {
    numReverts, numPovReverts, numPovReverted := 0, 0, 0;
    var i := 0;
    while i < |ids|
      invariant i <= |ids| && Addressable(revs, A, ids[..i])
      invariant numReverts == Tally(revs, A, ids[..i], Reverts)
      invariant numPovReverts == Tally(revs, A, ids[..i], PovReverts)
      invariant numPovReverted == Tally(revs, A, ids[..i], PovReverted)
    {
      TallyPush(revs, A, ids, i, Reverts);
      TallyPush(revs, A, ids, i, PovReverts);
      TallyPush(revs, A, ids, i, PovReverted);
      var r := ids[i];
      var v, a := revs[r], A[r];
      if v.disagrees {
        numReverts := numReverts + 1;
        if v.parent >= 0 {
          var pa := A[v.parent];
          if pa.topic == a.topic && pa.pov != a.pov {
            numPovReverts := numPovReverts + 1;
          }
        }
        if v.child >= 0 {
          var child := revs[v.child];
          if child.disagrees {
            var ca := A[v.child];
            if ca.topic == a.topic && ca.pov != a.pov {
              numPovReverted := numPovReverted + 1;
            }
          }
        }
      }
      i := i + 1;
    }
    assert ids[..i] == ids;
  }

  /**
   * Neither POV count exceeds the number of reverts, which does not exceed
   * the length of the list.
   */
  lemma {:induction false} TalliesBounded(revs: seq<Revision>, A: seq<Assignment>, ids: seq<int>)
    requires Addressable(revs, A, ids)
    ensures Tally(revs, A, ids, PovReverts) <= Tally(revs, A, ids, Reverts)
    ensures Tally(revs, A, ids, PovReverted) <= Tally(revs, A, ids, Reverts)
    ensures Tally(revs, A, ids, Reverts) <= |ids|
  {
    if |ids| > 0 {
      var front := ids[..|ids| - 1];
      assert Addressable(revs, A, front);
      TalliesBounded(revs, A, front);
    }
  }

  /** The row-major slot of a (topic, POV) label in pov_edit_counts. */
  function Cell(P: int, a: Assignment): int {
    P * a.topic + a.pov
  }

  /** Every listed revision carries an in-range label. */
  predicate Labelled(p: Params, A: seq<Assignment>, ids: seq<int>) {
    forall i | 0 <= i < |ids| :: 0 <= ids[i] < |A| && InRange(p, A[ids[i]])
  }

  /** How many listed revisions carry the label in slot c. */
  function LabelCount(P: int, A: seq<Assignment>, ids: seq<int>, c: int): nat
    requires forall i | 0 <= i < |ids| :: 0 <= ids[i] < |A|
  {
    if |ids| == 0 then 0
    else LabelCount(P, A, ids[..|ids| - 1], c) + if Cell(P, A[ids[|ids| - 1]]) == c then 1 else 0
  }

  function Sum(s: seq<int>): int {
    if |s| == 0 then 0 else Sum(s[..|s| - 1]) + s[|s| - 1]
  }

  /** Adding one to an entry adds one to the sum. */
  lemma {:induction false} SumBump(s: seq<int>, c: int)
    requires 0 <= c < |s|
    ensures Sum(s[c := s[c] + 1]) == Sum(s) + 1
  {
    var s' := s[c := s[c] + 1];
    if c < |s| - 1 {
      assert s'[..|s| - 1] == s[..|s| - 1][c := s[c] + 1];
      SumBump(s[..|s| - 1], c);
    } else {
      assert s'[..|s| - 1] == s[..|s| - 1];
    }
  }

  lemma CellInRange(p: Params, a: Assignment)
    requires ValidParams(p) && InRange(p, a)
    ensures 0 <= Cell(p.P(), a) < p.Cells()
  {
    RowMajorBound(p.P(), p.T(), a.topic, a.pov);
  }

  lemma LabelCountPush(P: int, A: seq<Assignment>, ids: seq<int>, i: int, c: int)
    requires (forall j | 0 <= j < |ids| :: 0 <= ids[j] < |A|) && 0 <= i < |ids|
    ensures LabelCount(P, A, ids[..i + 1], c) == LabelCount(P, A, ids[..i], c) + if Cell(P, A[ids[i]]) == c then 1 else 0
  {
    assert ids[..i + 1][..i] == ids[..i];
  }

  lemma {:induction false} SumZeros(n: nat)
    ensures Sum(seq(n, _ => 0)) == 0
  {
    if n > 0 {
      assert seq(n, _ => 0)[..n - 1] == seq(n - 1, _ => 0);
      SumZeros(n - 1);
    }
  }

  /**
   * edits_on_max_pov without the entropy: tally the listed revisions by
   * label, then scan the slots in row-major order (the order of the
   * source's nested topic/POV loops) keeping the first strictly largest
   * count. `max` is None when no slot beats 0, in which case the source
   * leaves max_topic and max_pov as the caller had them.
   */
  method EditsOnMaxPov(p: Params, A: seq<Assignment>, ids: seq<int>) returns (counts: seq<int>, countOnMax: int, max: Option<Assignment>)
    requires ValidParams(p) && Labelled(p, A, ids)
    ensures |counts| == p.Cells() && forall c | 0 <= c < |counts| :: counts[c] == LabelCount(p.P(), A, ids, c)
    ensures Sum(counts) == |ids|
    ensures countOnMax >= 0 && forall c | 0 <= c < |counts| :: counts[c] <= countOnMax
    ensures max.None? <==> countOnMax == 0
    ensures max.Some? ==> && InRange(p, max.value) && 0 <= Cell(p.P(), max.value) < |counts|
                          && counts[Cell(p.P(), max.value)] == countOnMax
                          && forall c | 0 <= c < Cell(p.P(), max.value) :: counts[c] < countOnMax
  {
    counts := TallyLabels(p, A, ids);
    countOnMax, max := FirstMax(p, counts);
  }

  /** The first loop of edits_on_max_pov: pov_edit_counts, one slot per label. */
  method TallyLabels(p: Params, A: seq<Assignment>, ids: seq<int>) returns (counts: seq<int>)
    requires ValidParams(p) && Labelled(p, A, ids)
    ensures |counts| == p.Cells() && forall c | 0 <= c < |counts| :: counts[c] == LabelCount(p.P(), A, ids, c)
    ensures Sum(counts) == |ids|
  {
    var n, P := p.Cells(), p.P();
    counts := seq(n, _ => 0);
    SumZeros(n);
    var i := 0;
    while i < |ids|
      invariant i <= |ids| && |counts| == n && Sum(counts) == i
      invariant forall c | 0 <= c < n :: counts[c] == LabelCount(P, A, ids[..i], c)
    {
      var slot := Cell(P, A[ids[i]]);
      CellInRange(p, A[ids[i]]);
      forall c | 0 <= c < n
        ensures LabelCount(P, A, ids[..i + 1], c) == LabelCount(P, A, ids[..i], c) + if slot == c then 1 else 0
      {
        LabelCountPush(P, A, ids, i, c);
      }
      SumBump(counts, slot);
      counts := counts[slot := counts[slot] + 1];
      i := i + 1;
    }
    assert ids[..i] == ids;
  }

  /** The second loop of edits_on_max_pov: the first slot with the largest positive count. */
  method FirstMax(p: Params, counts: seq<int>) returns (countOnMax: int, max: Option<Assignment>)
    requires ValidParams(p) && |counts| == p.Cells()
    ensures countOnMax >= 0 && forall c | 0 <= c < |counts| :: counts[c] <= countOnMax
    ensures max.None? <==> countOnMax == 0
    ensures max.Some? ==> && InRange(p, max.value) && 0 <= Cell(p.P(), max.value) < |counts|
                          && counts[Cell(p.P(), max.value)] == countOnMax
                          && forall c | 0 <= c < Cell(p.P(), max.value) :: counts[c] < countOnMax
  {
    var n, P := p.Cells(), p.P();
    countOnMax, max := 0, None;
    var c := 0;
    while c < n
      invariant c <= n && countOnMax >= 0 && forall c' | 0 <= c' < c :: counts[c'] <= countOnMax
      invariant max.None? <==> countOnMax == 0
      invariant max.Some? ==> && InRange(p, max.value) && 0 <= Cell(P, max.value) < c && counts[Cell(P, max.value)] == countOnMax
                              && forall c' | 0 <= c' < Cell(P, max.value) :: counts[c'] < countOnMax
    {
      if counts[c] > countOnMax {
        RowMajorSplit(P, p.T(), c);
        countOnMax, max := counts[c], Some(Assignment(c / P, c % P));
      }
      c := c + 1;
    }
  }
  /** average_pov_antagonism divides by the cell's total unless its revert count is 0. */
  predicate Divisible(cs: Counters, t: int, first: int, second: int) {
    var revert := Get(cs, PovRevert(t, first, second));
    revert == 0 || revert + Get(cs, PovNoRevert(t, first, second)) != 0
  }

  /**
   * average_pov_antagonism: the fraction of reverts among the references
   * counted in the directed cell (first, second) of topic t, or 0 when the
   * cell holds no revert.
   */
  function AveragePovAntagonism(cs: Counters, t: int, first: int, second: int): real
    requires Divisible(cs, t, first, second)
  {
    var revert, norevert := Get(cs, PovRevert(t, first, second)), Get(cs, PovNoRevert(t, first, second));
    if revert == 0 then 0.0 else revert as real / (revert + norevert) as real
  }

  /** Both halves of the directed cell (first, second) are non-negative, as the index keeps them. */
  predicate CellNonNegative(cs: Counters, t: int, first: int, second: int) {
    Get(cs, PovRevert(t, first, second)) >= 0 && Get(cs, PovNoRevert(t, first, second)) >= 0
  }

  /**
   * On a non-negative cell the ratio is a fraction: 0 exactly when the cell
   * holds no revert and 1 exactly when it holds only reverts.
   */
  lemma AntagonismRange(cs: Counters, t: int, first: int, second: int)
    requires CellNonNegative(cs, t, first, second)
    ensures Divisible(cs, t, first, second)
    ensures 0.0 <= AveragePovAntagonism(cs, t, first, second) <= 1.0
    ensures AveragePovAntagonism(cs, t, first, second) == 0.0 <==> Get(cs, PovRevert(t, first, second)) == 0
    ensures AveragePovAntagonism(cs, t, first, second) == 1.0
            <==> Get(cs, PovRevert(t, first, second)) > 0 && Get(cs, PovNoRevert(t, first, second)) == 0
  {
    var revert, norevert := Get(cs, PovRevert(t, first, second)), Get(cs, PovNoRevert(t, first, second));
    if revert != 0 {
      var r := revert as real / (revert + norevert) as real;
      assert r * (revert + norevert) as real == revert as real;
      assert r > 0.0;
      if norevert > 0 {
        assert r < 1.0;
      }
    }
  }

  /** Every ratio pov_controversy reads between pov and the other POVs below k is defined. */
  predicate ControversyDefined(cs: Counters, t: int, pov: int, k: int) {
    forall o | 0 <= o < k && o != pov :: Divisible(cs, t, o, pov) && Divisible(cs, t, pov, o)
  }

  /** What pov_controversy has accumulated after the other POVs below k: both directed ratios of each. */
  function ControversySum(cs: Counters, t: int, pov: int, k: int): real
    requires k >= 0 && ControversyDefined(cs, t, pov, k)
  {
    if k == 0 then 0.0
    else
      ControversySum(cs, t, pov, k - 1)
      + if k - 1 == pov then 0.0 else AveragePovAntagonism(cs, t, k - 1, pov) + AveragePovAntagonism(cs, t, pov, k - 1)
  }

  /**
   * pov_controversy: the mean of the 2(P-1) directed ratios between pov and
   * every other POV of topic t. With a single POV the source divides 0 by
   * 0; the model answers None there.
   */
  function PovControversy(cs: Counters, P: int, t: int, pov: int): Option<real>
    requires P >= 1 && ControversyDefined(cs, t, pov, P)
  {
    if P == 1 then None else Some(ControversySum(cs, t, pov, P) / (2 * (P - 1)) as real)
  }

  /** The directed cells between pov and the other POVs below k are non-negative. */
  predicate CellsNonNegative(cs: Counters, t: int, pov: int, k: int) {
    forall o | 0 <= o < k && o != pov :: CellNonNegative(cs, t, o, pov) && CellNonNegative(cs, t, pov, o)
  }

  /** The accumulated sum lies between 0 and two per other POV, and is 0 exactly when none of its cells holds a revert. */
  lemma {:induction false} ControversySumBounds(cs: Counters, t: int, pov: int, k: int)
    requires k >= 0 && CellsNonNegative(cs, t, pov, k)
    ensures ControversyDefined(cs, t, pov, k)
    ensures 0.0 <= ControversySum(cs, t, pov, k) <= 2.0 * (if 0 <= pov < k then k - 1 else k) as real
    ensures ControversySum(cs, t, pov, k) == 0.0
            <==> forall o | 0 <= o < k && o != pov :: Get(cs, PovRevert(t, o, pov)) == 0 && Get(cs, PovRevert(t, pov, o)) == 0
  {
    if k > 0 {
      ControversySumBounds(cs, t, pov, k - 1);
      if k - 1 != pov {
        AntagonismRange(cs, t, k - 1, pov);
        AntagonismRange(cs, t, pov, k - 1);
      }
    }
  }

  /**
   * With at least two POVs and non-negative cells, pov_controversy is a
   * fraction, and it is 0 exactly when no other POV reverts pov or is
   * reverted by it on topic t.
   */
  lemma ControversyRange(cs: Counters, P: int, t: int, pov: int)
    requires P >= 2 && 0 <= pov < P && CellsNonNegative(cs, t, pov, P)
    ensures ControversyDefined(cs, t, pov, P) && PovControversy(cs, P, t, pov).Some?
    ensures 0.0 <= PovControversy(cs, P, t, pov).value <= 1.0
    ensures PovControversy(cs, P, t, pov).value == 0.0
            <==> forall o | 0 <= o < P && o != pov :: Get(cs, PovRevert(t, o, pov)) == 0 && Get(cs, PovRevert(t, pov, o)) == 0
  {
    ControversySumBounds(cs, t, pov, P);
    FractionBound(ControversySum(cs, t, pov, P), (2 * (P - 1)) as real);
  }

  /** A quotient of a non-negative numerator by a larger positive denominator is a fraction. */
  lemma FractionBound(num: real, den: real)
    requires 0.0 <= num <= den && den > 0.0
    ensures 0.0 <= num / den <= 1.0
    ensures num / den == 0.0 <==> num == 0.0
  {
    var r := num / den;
    assert r * den == num;
  }
}
