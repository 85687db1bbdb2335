/**
 * The per-revision steps of a sweep in src/sample.c: resample_revision
 * (draw or maximise a new label from the collapsed conditional),
 * resample_assign (take a label from a reference assignment),
 * null_assignment, resample_initialize and resample_destroy. Each is a
 * function from one thread state to the next; the theorems show that
 * on a consistent thread none of the source's asserts fires and the
 * thread stays consistent.
 */
module Resample {
  import opened Arith
  import opened Records
  import opened Updates
  import opened Recount
  import opened Probability
  import opened Sampling
  import opened Engine

  /** Flat cell k of the T x P sampling array, row-major (topic outer, pov inner). */
  function CellLabel(p: Params, k: int): (a: Assignment)
    requires ValidParams(p) && 0 <= k < p.T() * p.P()
    ensures InRange(p, a) && k == p.P() * a.topic + a.pov
  {
    RowMajorSplit(p.P(), p.T(), k);
    Assignment(k / p.P(), k % p.P())
  }

  /** A cell's weight: its user entry scaled by its probability (named so that equal factors give equal weights). */
  function Times(a: real, b: real): real {
    a * b
  }

  /**
   * The first n cells of resample_revision's sampling array: the user's
   * distribution entry (less one at r's own label, which must not go
   * negative) times revision_probability with the child link scored, the
   * user term left out and r's patch applied. The first failing cell's
   * fault is the result.
   */
  function Weights(p: Params, revs: seq<Revision>, e: Engine, r: int, patch: IndexPatch, n: int): (res: Result<seq<real>>)
    requires ValidParams(p) && 0 <= r < |revs| == |e.labels| && revs[r].parent < |revs| && revs[r].child < |revs|
    requires 0 <= n <= p.T() * p.P()
    ensures res.Success? ==> |res.value| == n
  {
    if n == 0 then Success([])
    else
      var prefix := Weights(p, revs, e, r, patch, n - 1);
      var cand := CellLabel(p, n - 1);
      var own := cand == Assignment(patch.topic, patch.pov);
      var base := UserGet(e.users, revs[r].user, cand.topic, cand.pov) - (if own then 1.0 else 0.0);
      var prob := RevisionProbability(p, e.summary, e.pages, e.users, revs, e.labels, r, cand, true, false, Some(patch));
      if prefix.Failure? then prefix
      else if own && base < 0.0 then Failure(NegativeCounter)
      else if prob.Failure? then Failure(prob.fault)
      else Success(prefix.value + [Times(base, prob.value)])
  }

  /**
   * The collapsed conditional of label `CellLabel(p, k)` for revision r,
   * computed from the recount with r taken out: the user's smoothed count
   * of the label times the link and page terms of revision_probability.
   */
  function Conditional(p: Params, revs: seq<Revision>, A: seq<Assignment>, r: int, k: int): real
    requires ValidCorpus(p, revs) && |A| == |revs| && 0 <= r < |revs| && PositivePriors(p.header)
    requires 0 <= k < p.T() * p.P()
  {
    var cand := CellLabel(p, k);
    Times(UserMean(p, revs, A, r, cand, true), PatchedScore(p, revs, A, r, cand, true, false, Removed(revs, A, r)))
  }

  /** The conditionals of every cell, in the sampling array's order. */
  function Conditionals(p: Params, revs: seq<Revision>, A: seq<Assignment>, r: int): (w: seq<real>)
    requires ValidCorpus(p, revs) && |A| == |revs| && 0 <= r < |revs| && PositivePriors(p.header)
    ensures |w| == p.T() * p.P()
    ensures forall k | 0 <= k < |w| :: w[k] == Conditional(p, revs, A, r, k)
  {
    seq(p.T() * p.P(), k requires 0 <= k < p.T() * p.P() => Conditional(p, revs, A, r, k))
  }

  /** The components of Consistent that the scoring reads, for a drained thread. */
  ghost predicate Scored(p: Params, revs: seq<Revision>, e: Engine) {
    && ValidCorpus(p, revs) && ValidLabels(p, revs, e.labels)
    && CountersAgree(revs, e.labels, e.summary)
    && PagesAgree(revs, e.labels, e.pages)
    && UsersAgree(p, revs, e.labels, e.users)
  }

  /**
   * One cell of the sampling array on a consistent thread: the user entry
   * less r's own count is the user factor with r unassigned, and the
   * patched revision_probability is the rest of the conditional.
   */
  lemma WeightCell(p: Params, revs: seq<Revision>, e: Engine, r: int, k: int)
    requires Scored(p, revs, e) && 0 <= r < |revs| && revs[r].parent < |revs| && revs[r].child < |revs|
    requires InRange(p, e.labels[r]) && PositivePriors(p.header) && p.header.alpha >= 0.0
    requires 0 <= k < p.T() * p.P()
    ensures CellWeighs(p, revs, e, r, FillIndexPatch(revs, e.labels, r), k, Conditional(p, revs, e.labels, r, k))
  {
    assert ValidRevision(p, revs, r);
    var patch := FillIndexPatch(revs, e.labels, r);
    assert Assignment(patch.topic, patch.pov) == e.labels[r];
    UserEntryWithout(p, revs, e.labels, e.users, r, CellLabel(p, k));
    var prob := CellScore(p, revs, e, r, CellLabel(p, k));
    CellWeighsIntro(p, revs, e, r, patch, k, UserMean(p, revs, e.labels, r, CellLabel(p, k), true), prob);
  }

  lemma CellWeighsIntro(p: Params, revs: seq<Revision>, e: Engine, r: int, patch: IndexPatch, k: int, base: real, prob: real)
    requires ValidParams(p) && 0 <= r < |revs| == |e.labels| && revs[r].parent < |revs| && revs[r].child < |revs|
    requires 0 <= k < p.T() * p.P()
    requires base == UserGet(e.users, revs[r].user, CellLabel(p, k).topic, CellLabel(p, k).pov)
                     - (if CellLabel(p, k) == Assignment(patch.topic, patch.pov) then 1.0 else 0.0) >= 0.0
    requires RevisionProbability(p, e.summary, e.pages, e.users, revs, e.labels, r, CellLabel(p, k), true, false, Some(patch))
             == Success(prob)
    ensures CellWeighs(p, revs, e, r, patch, k, Times(base, prob))
  {
  }

  /** The patched revision_probability of a candidate on a consistent thread is the score with r taken out. */
  lemma CellScore(p: Params, revs: seq<Revision>, e: Engine, r: int, cand: Assignment) returns (prob: real)
    requires Scored(p, revs, e) && 0 <= r < |revs| && revs[r].parent < |revs| && revs[r].child < |revs|
    requires PositivePriors(p.header) && InRange(p, cand)
    ensures RevisionProbability(p, e.summary, e.pages, e.users, revs, e.labels, r, cand, true, false,
                                Some(FillIndexPatch(revs, e.labels, r))) == Success(prob)
    ensures prob == PatchedScore(p, revs, e.labels, r, cand, true, false, Removed(revs, e.labels, r))
  {
    RemovedRestores(p, revs, e.labels, r);
    RevisionProbabilityPatched(p, e.summary, e.pages, e.users, revs, e.labels, r, cand, true, false, Removed(revs, e.labels, r));
    prob := PatchedScore(p, revs, e.labels, r, cand, true, false, Removed(revs, e.labels, r));
  }

  /** A user distribution entry less r's own count is the user factor with r unassigned. */
  lemma UserEntryWithout(p: Params, revs: seq<Revision>, A: seq<Assignment>, users: UserDists, r: int, cand: Assignment)
    requires |A| == |revs| && 0 <= r < |revs| && 0 <= revs[r].user < p.numUsers
    requires UsersAgree(p, revs, A, users) && InRange(p, A[r]) && InRange(p, cand) && p.header.alpha >= 0.0
    ensures UserGet(users, revs[r].user, cand.topic, cand.pov) - (if cand == A[r] then 1.0 else 0.0)
            == UserMean(p, revs, A, r, cand, true) >= 0.0
  {
    var user := revs[r].user;
    UserTallyExchange(revs, A, r, Unassigned, user, cand.topic, cand.pov, |revs|);
    assert UserGet(users, user, cand.topic, cand.pov) == p.header.alpha + UserTally(revs, A, user, cand.topic, cand.pov, |revs|) as real;
  }

  /** Cell k of the sampling array is computed without failure and has weight x. */
  predicate CellWeighs(p: Params, revs: seq<Revision>, e: Engine, r: int, patch: IndexPatch, k: int, x: real)
    requires ValidParams(p) && 0 <= r < |revs| == |e.labels| && revs[r].parent < |revs| && revs[r].child < |revs|
    requires 0 <= k < p.T() * p.P()
  {
    var cand := CellLabel(p, k);
    var base := UserGet(e.users, revs[r].user, cand.topic, cand.pov) - (if cand == Assignment(patch.topic, patch.pov) then 1.0 else 0.0);
    var prob := RevisionProbability(p, e.summary, e.pages, e.users, revs, e.labels, r, cand, true, false, Some(patch));
    && base >= 0.0
    && prob.Success?
    && Times(base, prob.value) == x
  }

  /**
   * On a consistent thread the sampling array is the collapsed
   * conditional: resample_revision's cell weights equal the user's
   * smoothed count of each label times revision_probability's link and
   * page terms, all scored as if r were not counted.
   */
  lemma WeightsAreConditionals(p: Params, revs: seq<Revision>, e: Engine, r: int)
    requires Scored(p, revs, e) && 0 <= r < |revs| && revs[r].parent < |revs| && revs[r].child < |revs|
    requires InRange(p, e.labels[r]) && PositivePriors(p.header) && p.header.alpha >= 0.0
    ensures Weights(p, revs, e, r, FillIndexPatch(revs, e.labels, r), p.T() * p.P())
            == Success(Conditionals(p, revs, e.labels, r))
  {
    var patch := FillIndexPatch(revs, e.labels, r);
    var n := p.T() * p.P();
    var target := Conditionals(p, revs, e.labels, r);
    forall k | 0 <= k < n
      ensures CellWeighs(p, revs, e, r, patch, k, target[k])
    {
      WeightCell(p, revs, e, r, k);
    }
    WeightsByCells(p, revs, e, r, patch, target, n);
    assert target[..n] == target;
  }

  /** The sampling array is `target` when each of its cells weighs what `target` says. */
  lemma {:induction false} WeightsByCells(p: Params, revs: seq<Revision>, e: Engine, r: int, patch: IndexPatch,
                                          target: seq<real>, n: int)
    requires ValidParams(p) && 0 <= r < |revs| == |e.labels| && revs[r].parent < |revs| && revs[r].child < |revs|
    requires 0 <= n <= p.T() * p.P() && n <= |target|
    requires forall k | 0 <= k < n :: CellWeighs(p, revs, e, r, patch, k, target[k])
    ensures Weights(p, revs, e, r, patch, n) == Success(target[..n])
    decreases n
  {
    if n > 0 {
      WeightsByCells(p, revs, e, r, patch, target, n - 1);
      assert CellWeighs(p, revs, e, r, patch, n - 1, target[n - 1]);
      var cand := CellLabel(p, n - 1);
      var base := UserGet(e.users, revs[r].user, cand.topic, cand.pov) - (if cand == Assignment(patch.topic, patch.pov) then 1.0 else 0.0);
      var prob := RevisionProbability(p, e.summary, e.pages, e.users, revs, e.labels, r, cand, true, false, Some(patch));
      WeightsStep(p, revs, e, r, patch, n, target[..n - 1], base, prob.value);
      assert target[..n] == target[..n - 1] + [target[n - 1]];
    }
  }

  /** One more cell of the sampling array, when its user entry and probability are known. */
  lemma WeightsStep(p: Params, revs: seq<Revision>, e: Engine, r: int, patch: IndexPatch, n: int,
                    prev: seq<real>, base: real, prob: real)
    requires ValidParams(p) && 0 <= r < |revs| == |e.labels| && revs[r].parent < |revs| && revs[r].child < |revs|
    requires 0 < n <= p.T() * p.P()
    requires Weights(p, revs, e, r, patch, n - 1) == Success(prev)
    requires base == UserGet(e.users, revs[r].user, CellLabel(p, n - 1).topic, CellLabel(p, n - 1).pov)
                     - (if CellLabel(p, n - 1) == Assignment(patch.topic, patch.pov) then 1.0 else 0.0) >= 0.0
    requires RevisionProbability(p, e.summary, e.pages, e.users, revs, e.labels, r, CellLabel(p, n - 1), true, false, Some(patch))
             == Success(prob)
    ensures Weights(p, revs, e, r, patch, n) == Success(prev + [Times(base, prob)])
  {
    var w := Weights(p, revs, e, r, patch, n).value;
    assert w[..n - 1] == prev;
    assert w[n - 1] == Times(base, prob);
    assert w == w[..n - 1] + [w[n - 1]];
  }

  /** A product of a positive and a positive is positive. */
  lemma TimesPositive(a: real, b: real)
    requires a > 0.0 && b > 0.0
    ensures Times(a, b) > 0.0
  {
  }

  /** With a positive alpha, every label has a positive conditional on a consistent thread. */
  lemma ConditionalPositive(p: Params, revs: seq<Revision>, e: Engine, r: int, k: int)
    requires Scored(p, revs, e) && 0 <= r < |revs| && revs[r].parent < |revs| && revs[r].child < |revs|
    requires PositivePriors(p.header) && p.header.alpha > 0.0
    requires 0 <= k < p.T() * p.P()
    ensures Conditional(p, revs, e.labels, r, k) > 0.0
  {
    var cand := CellLabel(p, k);
    assert ValidRevision(p, revs, r);
    var prob := CellScore(p, revs, e, r, cand);
    TimesPositive(UserMean(p, revs, e.labels, r, cand, true), prob);
  }

  /** How a sweep picks the new label: a draw scaled by the total (sample_random) or the best cell (sample_maximize). */
  datatype Chooser = Draw(u: real) | Maximize

  function Choose(w: seq<real>, ch: Chooser): (k: int)
    ensures -1 <= k < |w|
  {
    match ch
    case Draw(u) => SampleRandom(w, Scaled(PrefixSum(w, |w|), u))
    case Maximize => SampleMaximize(w)
  }

  /** A valid draw from [0, 1) or a maximisation over positive weights finds a cell, and it has positive weight. */
  lemma ChooseFindsPositive(w: seq<real>, ch: Chooser)
    requires |w| > 0 && forall x | 0 <= x < |w| :: w[x] > 0.0
    requires ch.Draw? ==> 0.0 <= ch.u < 1.0
    ensures 0 <= Choose(w, ch) < |w| && w[Choose(w, ch)] > 0.0
  {
    if ch.Draw? {
      PrefixSumPositive(w, |w|);
      RandomDrawFindsPositiveCell(w, ch.u);
    } else {
      MaximizeFindsPositive(w);
    }
  }

  lemma MaximizeFindsPositive(w: seq<real>)
    requires |w| > 0 && forall x | 0 <= x < |w| :: w[x] > 0.0
    ensures 0 <= SampleMaximize(w) < |w| && w[SampleMaximize(w)] > 0.0
  {
    SampleMaximizeSpec(w);
    assert w[0] > 0.0;
  }

  /**
   * resample_revision: catch up on the queue, check r is labelled, fill
   * the sampling array, require a positive total, choose a cell (whose
   * absence is a fault) and, when it differs from r's label, commit it.
   * Ids outside their regions are out of range.
   */
  function ResampleRevision(p: Params, revs: seq<Revision>, e: Engine, r: int, ch: Chooser): (res: Result<Engine>)
    requires ValidParams(p) && 0 <= r < |revs| == |e.labels| && revs[r].parent < |revs| && revs[r].child < |revs|
    requires QueueShape(e)
    ensures res.Success? ==> |res.value.labels| == |revs| && InRange(p, res.value.labels[r])
    ensures res.Success? ==> forall x | 0 <= x < |revs| && x != r :: res.value.labels[x] == e.labels[x]
    ensures res.Success? ==> res.value.last == |e.queue| && |e.queue| <= |res.value.queue| <= |e.queue| + 1
  {
    if !(0 <= revs[r].user < p.numUsers) || !(0 <= revs[r].article < p.numPages) then Failure(OutOfRange)
    else
      var patch := FillIndexPatch(revs, e.labels, r);
      var e1 :- CatchUp(Both, e);
      if !(patch.topic >= 0 && patch.pov >= 0) then Failure(NotAssigned)
      else
        var w :- Weights(p, revs, e1, r, patch, p.T() * p.P());
        if !(PrefixSum(w, |w|) > 0.0) then Failure(NonPositiveProbability)
        else
          var k := Choose(w, ch);
          if k == -1 then Failure(NoCandidate)
          else
            var a := CellLabel(p, k);
            if a == Assignment(patch.topic, patch.pov) then Success(e1)
            else Commit(p, revs, e1, r, patch, a)
  }

  /**
   * On a consistent thread with room in the queue, resampling a labelled
   * revision fires none of the source's asserts, keeps the thread
   * consistent, and gives r the label the chooser picks from the
   * collapsed conditionals, one whose conditional is positive.
   */
  lemma ResampleRevisionConsistent(p: Params, revs: seq<Revision>, e: Engine, r: int, ch: Chooser)
    requires Consistent(p, revs, Both, e) && |e.queue| < Capacity(p)
    requires 0 <= r < |revs| && InRange(p, e.labels[r])
    requires PositivePriors(p.header) && p.header.alpha > 0.0
    requires ch.Draw? ==> 0.0 <= ch.u < 1.0
    ensures ValidRevision(p, revs, r)
    ensures var res := ResampleRevision(p, revs, e, r, ch);
            var w := Conditionals(p, revs, e.labels, r);
            var k := Choose(w, ch);
            && res.Success?
            && Consistent(p, revs, Both, res.value)
            && 0 <= k < |w| && w[k] > 0.0
            && res.value.labels == e.labels[r := CellLabel(p, k)]
  {
    assert ValidRevision(p, revs, r);
    CatchUpConsistent(p, revs, Both, e);
    var e1 := CatchUp(Both, e).value;
    CaughtUpIdle(Both, e1);
    assert Scored(p, revs, e1);
    WeightsAreConditionals(p, revs, e1, r);
    var w := Conditionals(p, revs, e.labels, r);
    ConditionalsPositive(p, revs, e1, r);
    ChooseFindsPositive(w, ch);
    PrefixSumPositive(w, |w|);
    var k := Choose(w, ch);
    ResampleRevisionSteps(p, revs, e, r, ch, e1, w, k);
    KeepOrCommit(p, revs, e1, r, CellLabel(p, k));
  }

  /** The outcome of resample_revision once the queue, the label, the array and the choice are known. */
  lemma ResampleRevisionSteps(p: Params, revs: seq<Revision>, e: Engine, r: int, ch: Chooser, e1: Engine, w: seq<real>, k: int)
    requires ValidParams(p) && 0 <= r < |revs| == |e.labels| && revs[r].parent < |revs| && revs[r].child < |revs|
    requires QueueShape(e) && 0 <= revs[r].user < p.numUsers && 0 <= revs[r].article < p.numPages
    requires CatchUp(Both, e) == Success(e1) && InRange(p, e.labels[r])
    requires Weights(p, revs, e1, r, FillIndexPatch(revs, e.labels, r), p.T() * p.P()) == Success(w)
    requires PrefixSum(w, |w|) > 0.0 && k == Choose(w, ch) && 0 <= k < |w|
    ensures ResampleRevision(p, revs, e, r, ch)
            == if CellLabel(p, k) == e.labels[r] then Success(e1)
               else Commit(p, revs, e1, r, FillIndexPatch(revs, e.labels, r), CellLabel(p, k))
  {
    var patch := FillIndexPatch(revs, e.labels, r);
    assert Assignment(patch.topic, patch.pov) == e.labels[r];
  }

  /** Every conditional is positive, with a positive alpha, on a consistent thread. */
  lemma ConditionalsPositive(p: Params, revs: seq<Revision>, e: Engine, r: int)
    requires Scored(p, revs, e) && 0 <= r < |revs| && revs[r].parent < |revs| && revs[r].child < |revs|
    requires PositivePriors(p.header) && p.header.alpha > 0.0
    ensures |Conditionals(p, revs, e.labels, r)| > 0
    ensures forall x | 0 <= x < |Conditionals(p, revs, e.labels, r)| :: Conditionals(p, revs, e.labels, r)[x] > 0.0
  {
    var w := Conditionals(p, revs, e.labels, r);
    forall x | 0 <= x < |w|
      ensures w[x] > 0.0
    {
      ConditionalPositive(p, revs, e, r, x);
    }
    assert p.T() * p.P() > 0;
  }

  /** Keeping r's label leaves a drained consistent thread as it is; changing it commits, consistently. */
  lemma KeepOrCommit(p: Params, revs: seq<Revision>, e: Engine, r: int, a: Assignment)
    requires Consistent(p, revs, Both, e) && e.last == |e.queue| && |e.queue| < Capacity(p)
    requires 0 <= r < |revs| && revs[r].parent < |revs| && revs[r].child < |revs|
    requires InRange(p, e.labels[r]) && InRange(p, a) && p.header.alpha >= 0.0
    ensures var res := if a == e.labels[r] then Success(e) else Commit(p, revs, e, r, FillIndexPatch(revs, e.labels, r), a);
            res.Success? && Consistent(p, revs, Both, res.value) && res.value.labels == e.labels[r := a]
  {
    if a != e.labels[r] {
      CommitConsistent(p, revs, e, r, a);
    } else {
      assert e.labels[r := a] == e.labels;
    }
  }
}
