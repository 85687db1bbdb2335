/**
 * The discrete skeleton of the proposal probability (src/probability.c):
 * which pair of counters a reference is scored against, how the index
 * patch takes the scored revision's own contribution out of those counts,
 * and the product revision_probability forms. Doubles are exact reals.
 *
 * The main result is PatchedReference: scoring a candidate label with the
 * patch of revision r gives the smoothed ratio of the recount with r's
 * touched statistics removed.
 */
module Probability {
  import opened Records
  import opened Updates
  import opened Recount

  /** The three exclusive kinds of reference. */
  datatype RefCase = PovRef | TopicRef | GeneralRef

  function CaseOf(parent: Assignment, child: Assignment): (k: RefCase)
    ensures k == PovRef <==> RefLoc(parent, child, true).PovRevert?
    ensures k == TopicRef <==> RefLoc(parent, child, true).RevertTopic?
    ensures k == GeneralRef <==> RefLoc(parent, child, true).RevertGeneral?
  {
    if parent.topic == child.topic then
      if parent.pov != child.pov then PovRef else TopicRef
    else GeneralRef
  }

  /** The Beta prior of the reference's counters: psi for antagonism cells, gamma otherwise. */
  function PriorFor(h: AssignmentHeader, k: RefCase, revert: bool): real {
    if k == PovRef then (if revert then h.psiAlpha else h.psiBeta)
    else if revert then h.gammaAlpha else h.gammaBeta
  }

  /** Priors the sampler is run with: all positive. */
  predicate PositivePriors(h: AssignmentHeader) {
    h.psiAlpha > 0.0 && h.psiBeta > 0.0 && h.gammaAlpha > 0.0 && h.gammaBeta > 0.0 && h.beta > 0.0
  }

  /** The first patch condition of each case: the patched revision's own parent link lies in the scored counters. */
  predicate ParentLinkHit(k: RefCase, patch: IndexPatch, parent: Assignment, child: Assignment) {
    match k
    case PovRef =>
      patch.topic == child.topic && patch.pov == child.pov
      && patch.parentPov == parent.pov && patch.parentTopic == patch.topic
    case TopicRef =>
      patch.topic == child.topic && patch.parentPov == patch.pov && patch.parentTopic == patch.topic
    case GeneralRef =>
      patch.parentTopic >= 0 && patch.topic == child.topic && patch.parentTopic != patch.topic
  }

  /** The second patch condition of each case: the patched revision's child link lies in the scored counters. */
  predicate ChildLinkHit(k: RefCase, patch: IndexPatch, parent: Assignment, child: Assignment) {
    match k
    case PovRef =>
      patch.childTopic == child.topic && patch.childPov == child.pov
      && patch.pov == parent.pov && patch.topic == patch.childTopic
    case TopicRef =>
      patch.childTopic == child.topic && patch.pov == patch.childPov && patch.topic == patch.childTopic
    case GeneralRef =>
      patch.topic >= 0 && patch.childTopic == child.topic && patch.topic != patch.childTopic
  }

  /**
   * The correction to the outcome's count. The general case assigns 1 for
   * the child link where the others add 1; GeneralHitsExclusive shows the
   * two conditions never both hold there, so the difference is invisible.
   */
  function Correction(k: RefCase, patch: IndexPatch, parent: Assignment, child: Assignment, disagrees: bool): int {
    var first := if ParentLinkHit(k, patch, parent, child) && disagrees == Truthy(patch.disagrees) then 1 else 0;
    var secondAgrees := ChildLinkHit(k, patch, parent, child) && disagrees == Truthy(patch.childDisagrees);
    if k == GeneralRef then (if secondAgrees then 1 else first)
    else first + (if secondAgrees then 1 else 0)
  }

  /**
   * The denominator after the patch conditions: each condition that holds
   * lowers it by one. `assert(denom -= 1.0 >= 0.0)` parses as
   * `denom -= 1`, then asserts the new value is non-zero, so the source
   * aborts only when the denominator reaches exactly 0.
   */
  function PatchedDenominator(denom: real, hit1: bool, hit2: bool): (r: Result<real>)
    ensures r.Success? ==> r.value == denom - (if hit1 then 1.0 else 0.0) - (if hit2 then 1.0 else 0.0)
    ensures r.Failure? <==>
      (hit1 && denom - 1.0 == 0.0) || (hit2 && denom - (if hit1 then 1.0 else 0.0) - 1.0 == 0.0)
  {
    var d1 := if hit1 then denom - 1.0 else denom;
    if hit1 && d1 == 0.0 then Failure(ZeroDenominator)
    else
      var d2 := if hit2 then d1 - 1.0 else d1;
      if hit2 && d2 == 0.0 then Failure(ZeroDenominator)
      else Success(d2)
  }

  /**
   * The smoothed ratio every branch computes: the outcome's count less the
   * correction plus its prior, over the pair's total plus both priors less
   * one per patch condition. The source asserts the ratio is positive.
   * Division by a zero denominator has no real value; it is reported as
   * ZeroDenominator.
   */
  function Smoothed(count: int, correction: int, prior: real, total: int, priors: real, hit1: bool, hit2: bool): (r: Result<real>)
    ensures r.Success? ==> r.value > 0.0
  {
    var d :- PatchedDenominator(total as real + priors, hit1, hit2);
    var numerator := (count - correction) as real + prior;
    if d == 0.0 then Failure(ZeroDenominator)
    else if numerator / d > 0.0 then Success(numerator / d)
    else Failure(NonPositiveProbability)
  }

  /** With enough counted to pay for the patch and positive priors, the ratio exists and is what it should be. */
  lemma SmoothedValue(count: int, correction: int, prior: real, total: int, priors: real, hit1: bool, hit2: bool)
    requires count - correction >= 0 && total - Ind(hit1) - Ind(hit2) >= 0
    requires prior > 0.0 && priors > 0.0
    ensures Smoothed(count, correction, prior, total, priors, hit1, hit2)
            == Success(((count - correction) as real + prior) / ((total - Ind(hit1) - Ind(hit2)) as real + priors))
  {
    var den := (total - Ind(hit1) - Ind(hit2)) as real + priors;
    var num := (count - correction) as real + prior;
    assert PatchedDenominator(total as real + priors, hit1, hit2) == Success(den);
    assert den > 0.0 && num > 0.0;
    assert num / den > 0.0;
  }

  /**
   * The mean of the Beta posterior over "reverts" for a link case: `hits`
   * of the `total` counted links went the asked way, smoothed by that
   * case's two priors.
   */
  function BetaMean(h: AssignmentHeader, k: RefCase, revert: bool, hits: int, total: int): real
    requires PositivePriors(h) && total >= 0
  {
    (hits as real + PriorFor(h, k, revert)) / (total as real + PriorFor(h, k, true) + PriorFor(h, k, false))
  }

  /**
   * reference_probability: the Beta-smoothed probability that `child`
   * reverts (or does not revert) `parent`. A missing or unassigned endpoint
   * scores 1. A NULL parent pointer is modelled by the unassigned label.
   */
  function ReferenceProbability(h: AssignmentHeader, c: Counters, parent: Assignment, child: Assignment,
                                disagrees: bool, patch: Option<IndexPatch>): (r: Result<real>)
    ensures !(Assigned(parent) && Assigned(child)) ==> r == Success(1.0)
    ensures r.Success? ==> r.value > 0.0
  {
    if !(parent.topic >= 0 && parent.pov >= 0 && child.topic >= 0 && child.pov >= 0) then Success(1.0)
    else
      var k := CaseOf(parent, child);
      Smoothed(Get(c, RefLoc(parent, child, disagrees)),
               if patch.Some? then Correction(k, patch.value, parent, child, disagrees) else 0,
               PriorFor(h, k, disagrees),
               Get(c, RefLoc(parent, child, true)) + Get(c, RefLoc(parent, child, false)),
               PriorFor(h, k, true) + PriorFor(h, k, false),
               patch.Some? && ParentLinkHit(k, patch.value, parent, child),
               patch.Some? && ChildLinkHit(k, patch.value, parent, child))
  }

  /** In the general case at most one patch condition holds, so `correction = 1` agrees with `correction += 1`. */
  lemma GeneralHitsExclusive(patch: IndexPatch, parent: Assignment, child: Assignment)
    ensures !(ParentLinkHit(GeneralRef, patch, parent, child) && ChildLinkHit(GeneralRef, patch, parent, child))
  {
  }

  /** Without a patch the probability is the plain smoothed ratio of the counters read. */
  lemma UnpatchedReference(h: AssignmentHeader, c: Counters, parent: Assignment, child: Assignment, disagrees: bool)
    requires Assigned(parent) && Assigned(child) && PositivePriors(h)
    requires Get(c, RefLoc(parent, child, true)) >= 0 && Get(c, RefLoc(parent, child, false)) >= 0
    ensures var k := CaseOf(parent, child);
            ReferenceProbability(h, c, parent, child, disagrees, None)
            == Success(BetaMean(h, k, disagrees, Get(c, RefLoc(parent, child, disagrees)),
                                Get(c, RefLoc(parent, child, true)) + Get(c, RefLoc(parent, child, false))))
  {
    var k := CaseOf(parent, child);
    var count, total := Get(c, RefLoc(parent, child, disagrees)), Get(c, RefLoc(parent, child, true)) + Get(c, RefLoc(parent, child, false));
    var prior, priors := PriorFor(h, k, disagrees), PriorFor(h, k, true) + PriorFor(h, k, false);
    assert ReferenceProbability(h, c, parent, child, disagrees, None) == Smoothed(count, 0, prior, total, priors, false, false);
    SmoothedValue(count, 0, prior, total, priors, false, false);
  }

  /** The patch's own parent link: the statistic r's own label and its parent's label feed. */
  lemma ParentLinkHitIff(p: Params, revs: seq<Revision>, A: seq<Assignment>, r: int,
                         parent: Assignment, child: Assignment, disagrees: bool)
    requires ValidCorpus(p, revs) && ValidLabels(p, revs, A) && 0 <= r < |revs|
    requires revs[r].parent < |revs| && revs[r].child < |revs|
    requires Assigned(parent) && Assigned(child)
    ensures var patch := FillIndexPatch(revs, A, r);
            var own := Contribution(revs, A, r).1;
            var k := CaseOf(parent, child);
            && (ParentLinkHit(k, patch, parent, child) <==> own == RefLoc(parent, child, true) || own == RefLoc(parent, child, false))
            && (own == RefLoc(parent, child, disagrees) <==> ParentLinkHit(k, patch, parent, child) && disagrees == Truthy(patch.disagrees))
  {
    assert ValidRevision(p, revs, r);
    assert ValidLabel(p, A[r]);
    var q := revs[r].parent;
    if q >= 0 {
      assert ValidLabel(p, A[q]);
    }
  }

  /** The patch's child link: the statistic r's child's label and r's own label feed. */
  lemma ChildLinkHitIff(p: Params, revs: seq<Revision>, A: seq<Assignment>, r: int,
                        parent: Assignment, child: Assignment, disagrees: bool)
    requires ValidCorpus(p, revs) && ValidLabels(p, revs, A) && 0 <= r < |revs|
    requires revs[r].parent < |revs| && revs[r].child < |revs|
    requires Assigned(parent) && Assigned(child)
    ensures var patch := FillIndexPatch(revs, A, r);
            var c := revs[r].child;
            var link := if 0 <= c then Contribution(revs, A, c).1 else Scratch;
            var k := CaseOf(parent, child);
            && (ChildLinkHit(k, patch, parent, child) <==> link == RefLoc(parent, child, true) || link == RefLoc(parent, child, false))
            && (link == RefLoc(parent, child, disagrees) <==> ChildLinkHit(k, patch, parent, child) && disagrees == Truthy(patch.childDisagrees))
  {
    assert ValidRevision(p, revs, r);
    assert ValidLabel(p, A[r]);
    var c := revs[r].child;
    if c >= 0 {
      assert ValidLabel(p, A[c]);
      assert ValidRevision(p, revs, c);
    }
  }

  /**
   * The patch conditions count exactly r's touched statistics among the
   * two scored counters, and the correction counts those on the scored
   * outcome.
   */
  lemma PatchHitsAreTouched(p: Params, revs: seq<Revision>, A: seq<Assignment>, r: int,
                            parent: Assignment, child: Assignment, disagrees: bool)
    requires ValidCorpus(p, revs) && ValidLabels(p, revs, A) && 0 <= r < |revs|
    requires revs[r].parent < |revs| && revs[r].child < |revs|
    requires Assigned(parent) && Assigned(child)
    ensures var patch := FillIndexPatch(revs, A, r);
            var k := CaseOf(parent, child);
            var touched := multiset(Touched(revs, A, r));
            && Ind(ParentLinkHit(k, patch, parent, child)) + Ind(ChildLinkHit(k, patch, parent, child))
               == touched[RefLoc(parent, child, true)] + touched[RefLoc(parent, child, false)]
            && Correction(k, patch, parent, child, disagrees) == touched[RefLoc(parent, child, disagrees)]
  {
    var patch := FillIndexPatch(revs, A, r);
    var k := CaseOf(parent, child);
    var c := revs[r].child;
    var own := Contribution(revs, A, r).1;
    var link := if 0 <= c then Contribution(revs, A, c).1 else Scratch;
    var yes, no := RefLoc(parent, child, true), RefLoc(parent, child, false);
    TouchedCount(p, revs, A, r, yes);
    TouchedCount(p, revs, A, r, no);
    ParentLinkHitIff(p, revs, A, r, parent, child, true);
    ChildLinkHitIff(p, revs, A, r, parent, child, true);
    ParentLinkHitIff(p, revs, A, r, parent, child, false);
    ChildLinkHitIff(p, revs, A, r, parent, child, false);
    if k == GeneralRef {
      GeneralHitsExclusive(patch, parent, child);
    }
    assert yes != no;
  }

  /** The recount with r's touched statistics taken out. */
  function Removed(revs: seq<Revision>, A: seq<Assignment>, r: int): multiset<Loc>
    requires 0 <= r < |revs| == |A|
  {
    Recounted(revs, A) - multiset(Touched(revs, A, r))
  }

  /** Taking r's touched statistics out loses nothing: they are all in the recount. */
  lemma RemovedRestores(p: Params, revs: seq<Revision>, A: seq<Assignment>, r: int)
    requires ValidCorpus(p, revs) && |A| == |revs| && 0 <= r < |revs|
    ensures forall l | l != Scratch :: Removed(revs, A, r)[l] + multiset(Touched(revs, A, r))[l] == Recounted(revs, A)[l]
  {
    TouchedWithinRecount(p, revs, A, r);
  }

  /**
   * Scoring with r's patch against counters that agree with the recount is
   * scoring against what the recount holds once r's touched statistics are
   * taken out (`rest`): the corrections remove exactly r's own
   * contributions, the denominators never reach 0, and the result is the
   * smoothed ratio of what remains.
   */
  lemma PatchedReference(p: Params, revs: seq<Revision>, A: seq<Assignment>, r: int, c: Counters,
                         parent: Assignment, child: Assignment, disagrees: bool, rest: multiset<Loc>)
    requires ValidCorpus(p, revs) && ValidLabels(p, revs, A) && 0 <= r < |revs|
    requires revs[r].parent < |revs| && revs[r].child < |revs|
    requires Assigned(parent) && Assigned(child) && PositivePriors(p.header)
    requires forall l | l != Scratch :: Get(c, l) == Recounted(revs, A)[l]
    requires forall l | l != Scratch :: rest[l] + multiset(Touched(revs, A, r))[l] == Recounted(revs, A)[l]
    ensures ReferenceProbability(p.header, c, parent, child, disagrees, Some(FillIndexPatch(revs, A, r)))
            == Success(BetaMean(p.header, CaseOf(parent, child), disagrees, rest[RefLoc(parent, child, disagrees)],
                                rest[RefLoc(parent, child, true)] + rest[RefLoc(parent, child, false)]))
  {
    PatchRemovesTouched(p, revs, A, r, c, parent, child, disagrees, rest);
    ReferenceWithPatch(p.header, c, parent, child, disagrees, FillIndexPatch(revs, A, r), rest);
  }

  /** The counters read less the patch's hits and correction are what remains once r's touched statistics are taken out. */
  lemma PatchRemovesTouched(p: Params, revs: seq<Revision>, A: seq<Assignment>, r: int, c: Counters,
                            parent: Assignment, child: Assignment, disagrees: bool, rest: multiset<Loc>)
    requires ValidCorpus(p, revs) && ValidLabels(p, revs, A) && 0 <= r < |revs|
    requires revs[r].parent < |revs| && revs[r].child < |revs|
    requires Assigned(parent) && Assigned(child)
    requires forall l | l != Scratch :: Get(c, l) == Recounted(revs, A)[l]
    requires forall l | l != Scratch :: rest[l] + multiset(Touched(revs, A, r))[l] == Recounted(revs, A)[l]
    ensures var k, patch := CaseOf(parent, child), FillIndexPatch(revs, A, r);
            && Get(c, RefLoc(parent, child, true)) + Get(c, RefLoc(parent, child, false))
               - Ind(ParentLinkHit(k, patch, parent, child)) - Ind(ChildLinkHit(k, patch, parent, child))
               == rest[RefLoc(parent, child, true)] + rest[RefLoc(parent, child, false)]
            && Get(c, RefLoc(parent, child, disagrees)) - Correction(k, patch, parent, child, disagrees)
               == rest[RefLoc(parent, child, disagrees)]
  {
    PatchHitsAreTouched(p, revs, A, r, parent, child, disagrees);
  }

  /** The patched ratio, given what remains of the counters read once the patch's hits and correction are taken out. */
  lemma ReferenceWithPatch(h: AssignmentHeader, c: Counters, parent: Assignment, child: Assignment,
                           disagrees: bool, patch: IndexPatch, rest: multiset<Loc>)
    requires Assigned(parent) && Assigned(child) && PositivePriors(h)
    requires var k := CaseOf(parent, child);
             && Get(c, RefLoc(parent, child, true)) + Get(c, RefLoc(parent, child, false))
                - Ind(ParentLinkHit(k, patch, parent, child)) - Ind(ChildLinkHit(k, patch, parent, child))
                == rest[RefLoc(parent, child, true)] + rest[RefLoc(parent, child, false)]
             && Get(c, RefLoc(parent, child, disagrees)) - Correction(k, patch, parent, child, disagrees)
                == rest[RefLoc(parent, child, disagrees)]
    ensures ReferenceProbability(h, c, parent, child, disagrees, Some(patch))
            == Success(BetaMean(h, CaseOf(parent, child), disagrees, rest[RefLoc(parent, child, disagrees)],
                                rest[RefLoc(parent, child, true)] + rest[RefLoc(parent, child, false)]))
  {
    var k := CaseOf(parent, child);
    var hit1, hit2 := ParentLinkHit(k, patch, parent, child), ChildLinkHit(k, patch, parent, child);
    var count, total := Get(c, RefLoc(parent, child, disagrees)), Get(c, RefLoc(parent, child, true)) + Get(c, RefLoc(parent, child, false));
    var prior, priors := PriorFor(h, k, disagrees), PriorFor(h, k, true) + PriorFor(h, k, false);
    var corr := Correction(k, patch, parent, child, disagrees);
    assert ReferenceProbability(h, c, parent, child, disagrees, Some(patch)) == Smoothed(count, corr, prior, total, priors, hit1, hit2);
    SmoothedValue(count, corr, prior, total, priors, hit1, hit2);
  }

  /** Only the two link statistics of r's touched list can be a reference counter. */
  lemma TouchedCount(p: Params, revs: seq<Revision>, A: seq<Assignment>, r: int, l: Loc)
    requires ValidCorpus(p, revs) && |A| == |revs| && 0 <= r < |revs|
    requires l != Scratch && !l.TopicTotal?
    ensures var c := revs[r].child;
            multiset(Touched(revs, A, r))[l]
            == Ind(Contribution(revs, A, r).1 == l) + Ind(0 <= c < |A| && Contribution(revs, A, c).1 == l)
  {
    var c := revs[r].child;
    var own := Contribution(revs, A, r);
    var ch := if 0 <= c < |A| then Contribution(revs, A, c) else (Scratch, Scratch);
    assert Touched(revs, A, r) == [own.0, own.1, ch.0, ch.1];
    CountOfFour(own.0, own.1, ch.0, ch.1, l);
    assert own.0 == Scratch || own.0.TopicTotal?;
    assert ch.0 == Scratch || ch.0.TopicTotal?;
  }

  /** Occurrences in a four-entry list, entry by entry. */
  lemma CountOfFour(a: Loc, b: Loc, c: Loc, d: Loc, l: Loc)
    ensures multiset([a, b, c, d])[l] == Ind(a == l) + Ind(b == l) + Ind(c == l) + Ind(d == l)
  {
    CountSnoc([], a, l);
    CountSnoc([a], b, l);
    CountSnoc([a, b], c, l);
    CountSnoc([a, b, c], d, l);
  }

  /** Appending one entry adds one occurrence of it. */
  lemma CountSnoc(s: seq<Loc>, x: Loc, l: Loc)
    ensures multiset(s + [x])[l] == multiset(s)[l] + Ind(x == l)
  {
  }

  function Ind(b: bool): int {
    if b then 1 else 0
  }

  /**
   * The page factor of revision_probability: the smoothed share of topic
   * t's revisions that sit on `page`. With a patch whose own label is in t,
   * one revision is taken off the topic's total, and off the page's count
   * when the patch is for that page.
   */
  function PageFactor(h: AssignmentHeader, numPages: int, pages: PageCounts, c: Counters,
                      t: int, page: int, patch: Option<IndexPatch>): (r: Result<real>)
  {
    var inTopic := patch.Some? && patch.value.topic == t;
    var onPage := inTopic && patch.value.page == page;
    var count := PageGet(pages, t, page) - Ind(onPage);
    var total := Get(c, TopicTotal(t)) - Ind(inTopic);
    var denom := total as real + PriorMass(h.beta, numPages);
    if denom == 0.0 then Failure(ZeroDenominator)
    else Success(Ratio(count as real + h.beta, denom))
  }

  /**
   * beta * n, the prior pseudo-count of a topic over n pages, written as an
   * n-fold sum so that the solver's reasoning about it stays linear
   * (PriorMassIsProduct).
   */
  function PriorMass(beta: real, n: int): real
    decreases n
  {
    if n <= 0 then 0.0 else PriorMass(beta, n - 1) + beta
  }

  lemma {:induction false} PriorMassIsProduct(beta: real, n: int)
    requires n >= 0
    ensures PriorMass(beta, n) == beta * n as real
    decreases n
  {
    if n > 0 {
      PriorMassIsProduct(beta, n - 1);
      assert beta * (n - 1) as real + beta == beta * n as real;
    }
  }

  lemma {:induction false} PriorMassPositive(beta: real, n: int)
    requires beta > 0.0 && n >= 1
    ensures PriorMass(beta, n) > 0.0
    decreases n
  {
    if n > 1 {
      PriorMassPositive(beta, n - 1);
    }
  }

  /**
   * The user factor of revision_probability: the user's (alpha-smoothed)
   * count for the candidate label, less one when the patch is this user's
   * revision currently holding that label.
   */
  function UserFactor(users: UserDists, user: int, cand: Assignment, patch: Option<IndexPatch>): real {
    var own := patch.Some? && patch.value.user == user && cand.pov == patch.value.pov && cand.topic == patch.value.topic;
    UserGet(users, user, cand.topic, cand.pov) - (if own then 1.0 else 0.0)
  }

  /**
   * revision_probability: the unnormalised probability of giving revision
   * r the label `cand`. It multiplies the parent link's factor (when r has
   * a parent), the child link's factor (when r has a child and
   * `includeChild`), the user factor (when `includeUser`) and the page
   * factor, and aborts unless the product is positive.
   */
  function RevisionProbability(p: Params, c: Counters, pages: PageCounts, users: UserDists,
                               revs: seq<Revision>, A: seq<Assignment>, r: int, cand: Assignment,
                               includeChild: bool, includeUser: bool, patch: Option<IndexPatch>): (res: Result<real>)
    requires 0 <= r < |revs| == |A| && revs[r].parent < |revs| && revs[r].child < |revs|
    ensures res.Success? ==> res.value > 0.0
    ensures res.Success? ==>
      (revs[r].parent >= 0 ==> ReferenceProbability(p.header, c, A[revs[r].parent], cand, revs[r].disagrees, patch).Success?)
    ensures res.Success? ==>
      (revs[r].child >= 0 && includeChild ==>
         ReferenceProbability(p.header, c, cand, A[revs[r].child], revs[revs[r].child].disagrees, patch).Success?)
    ensures res.Success? ==> PageFactor(p.header, p.numPages, pages, c, cand.topic, revs[r].article, patch).Success?
  {
    var v := revs[r];
    var parentFactor :- if v.parent >= 0 then ReferenceProbability(p.header, c, A[v.parent], cand, v.disagrees, patch)
                        else Success(1.0);
    var childFactor :- if v.child >= 0 && includeChild
                       then ReferenceProbability(p.header, c, cand, A[v.child], revs[v.child].disagrees, patch)
                       else Success(1.0);
    var userFactor := if includeUser then UserFactor(users, v.user, cand, patch) else 1.0;
    var pageFactor :- PageFactor(p.header, p.numPages, pages, c, cand.topic, v.article, patch);
    var ret := Product(parentFactor, childFactor, userFactor, pageFactor);
    if ret > 0.0 then Success(ret) else Failure(NonPositiveProbability)
  }

  /** Occurrences of a topic total among r's touched statistics: r's own and its child's. */
  lemma TotalInTouched(p: Params, revs: seq<Revision>, A: seq<Assignment>, r: int, t: int)
    requires ValidCorpus(p, revs) && |A| == |revs| && 0 <= r < |revs|
    ensures var c := revs[r].child;
            multiset(Touched(revs, A, r))[TopicTotal(t)]
            == Ind(Assigned(A[r]) && A[r].topic == t) + Ind(0 <= c < |A| && Assigned(A[c]) && A[c].topic == t)
  {
    var c := revs[r].child;
    var own := Contribution(revs, A, r);
    var ch := if 0 <= c < |A| then Contribution(revs, A, c) else (Scratch, Scratch);
    assert Touched(revs, A, r) == [own.0, own.1, ch.0, ch.1];
    CountOfFour(own.0, own.1, ch.0, ch.1, TopicTotal(t));
    ContributionParts(revs, A, r);
    if 0 <= c < |A| {
      ContributionParts(revs, A, c);
    }
  }

  /** A revision's first statistic is its topic's total (scratch when unassigned); its second is never a total. */
  lemma ContributionParts(revs: seq<Revision>, A: seq<Assignment>, x: int)
    requires 0 <= x < |revs| && x < |A|
    ensures Contribution(revs, A, x).0 == if Assigned(A[x]) then TopicTotal(A[x].topic) else Scratch
    ensures !Contribution(revs, A, x).1.TopicTotal?
  {
  }

  /** Unassigning r takes exactly r's own revision out of its topic's total. */
  lemma TopicTotalWithout(p: Params, revs: seq<Revision>, A: seq<Assignment>, r: int, t: int)
    requires ValidCorpus(p, revs) && |A| == |revs| && 0 <= r < |revs|
    ensures Recounted(revs, A)[TopicTotal(t)]
            == Recounted(revs, A[r := Unassigned])[TopicTotal(t)] + Ind(Assigned(A[r]) && A[r].topic == t)
  {
    var B := A[r := Unassigned];
    var l := TopicTotal(t);
    assert ValidRevision(p, revs, r);
    RecountExchangeAt(p, revs, A, r, Unassigned, l);
    TotalInTouched(p, revs, A, r, t);
    TotalInTouchedUnassigned(p, revs, A, r, t);
  }

  /** With r unassigned, only r's child can put a topic total among r's touched statistics. */
  lemma TotalInTouchedUnassigned(p: Params, revs: seq<Revision>, A: seq<Assignment>, r: int, t: int)
    requires ValidCorpus(p, revs) && |A| == |revs| && 0 <= r < |revs|
    ensures var c := revs[r].child;
            multiset(Touched(revs, A[r := Unassigned], r))[TopicTotal(t)]
            == Ind(0 <= c < |A| && Assigned(A[c]) && A[c].topic == t)
  {
    var c := revs[r].child;
    assert ValidRevision(p, revs, r);
    TotalInTouched(p, revs, A[r := Unassigned], r, t);
    assert 0 <= c < |A| ==> A[r := Unassigned][c] == A[c];
  }

  /** The smoothed page share: `count` of a topic's `total` revisions on one page, with prior beta per page. */
  function PageMean(beta: real, numPages: int, count: int, total: int): (m: real)
    requires beta > 0.0 && numPages >= 1 && 0 <= count && 0 <= total
    ensures m > 0.0
  {
    PriorMassPositive(beta, numPages);
    RatioPositive(count as real + beta, total as real + PriorMass(beta, numPages));
    Ratio(count as real + beta, total as real + PriorMass(beta, numPages))
  }

  /** A quotient, named so that equal operands give equal quotients without arithmetic. */
  function Ratio(num: real, den: real): real
    requires den != 0.0
  {
    num / den
  }

  lemma RatioPositive(num: real, den: real)
    requires num > 0.0 && den > 0.0
    ensures Ratio(num, den) > 0.0
  {
  }

  /**
   * The patched page factor of revision r for a candidate topic is the
   * smoothed page share with r itself unassigned: the patch takes r out of
   * its page's count and its topic's total, and nothing else.
   */
  lemma PageFactorPatched(p: Params, revs: seq<Revision>, A: seq<Assignment>, r: int, c: Counters,
                          pages: PageCounts, t: int)
    requires ValidCorpus(p, revs) && ValidLabels(p, revs, A) && 0 <= r < |revs| && t >= 0
    requires revs[r].parent < |revs| && revs[r].child < |revs| && p.numPages >= 1
    requires p.header.beta > 0.0
    requires forall l | l != Scratch :: Get(c, l) == Recounted(revs, A)[l]
    requires forall t', page :: PageGet(pages, t', page) == PageTally(revs, A, t', page, |revs|)
    ensures var B := A[r := Unassigned];
            PageFactor(p.header, p.numPages, pages, c, t, revs[r].article, Some(FillIndexPatch(revs, A, r)))
            == Success(PageMean(p.header.beta, p.numPages, PageTally(revs, B, t, revs[r].article, |revs|),
                                Recounted(revs, B)[TopicTotal(t)]))
  {
    var B := A[r := Unassigned];
    var page := revs[r].article;
    var patch := FillIndexPatch(revs, A, r);
    assert ValidRevision(p, revs, r);
    assert ValidLabel(p, A[r]);
    var inTopic := Assigned(A[r]) && A[r].topic == t;
    assert (patch.topic == t) == inTopic;
    assert patch.page == page;
    var count := PageTally(revs, B, t, page, |revs|);
    var total := Recounted(revs, B)[TopicTotal(t)];
    assert PageGet(pages, t, page) - Ind(inTopic) == count by {
      PageTallyExchange(revs, A, r, Unassigned, t, page, |revs|);
    }
    assert Get(c, TopicTotal(t)) - Ind(inTopic) == total by {
      TopicTotalWithout(p, revs, A, r, t);
    }
    PageFactorValue(p.header, p.numPages, pages, c, t, page, Some(patch), count, total);
  }

  /** The page factor's value once the patched count and total are known. */
  lemma PageFactorValue(h: AssignmentHeader, numPages: int, pages: PageCounts, c: Counters,
                        t: int, page: int, patch: Option<IndexPatch>, count: nat, total: nat)
    requires h.beta > 0.0 && numPages >= 1
    requires var inTopic := patch.Some? && patch.value.topic == t;
             && PageGet(pages, t, page) - Ind(inTopic && patch.value.page == page) == count
             && Get(c, TopicTotal(t)) - Ind(inTopic) == total
    ensures PageFactor(h, numPages, pages, c, t, page, patch) == Success(PageMean(h.beta, numPages, count, total))
  {
    PriorMassPositive(h.beta, numPages);
  }

  /** The patched user factor is the user's smoothed count for the candidate with r itself unassigned. */
  lemma UserFactorPatched(p: Params, revs: seq<Revision>, A: seq<Assignment>, r: int, users: UserDists, cand: Assignment)
    requires ValidCorpus(p, revs) && ValidLabels(p, revs, A) && 0 <= r < |revs| && InRange(p, cand)
    requires revs[r].parent < |revs| && revs[r].child < |revs|
    requires forall u, t, pov | 0 <= u < p.numUsers && 0 <= t < p.T() && 0 <= pov < p.P() ::
               UserGet(users, u, t, pov) == p.header.alpha + UserTally(revs, A, u, t, pov, |revs|) as real
    ensures UserFactor(users, revs[r].user, cand, Some(FillIndexPatch(revs, A, r)))
            == p.header.alpha + UserTally(revs, A[r := Unassigned], revs[r].user, cand.topic, cand.pov, |revs|) as real
  {
    assert ValidRevision(p, revs, r);
    assert ValidLabel(p, A[r]);
    UserTallyExchange(revs, A, r, Unassigned, revs[r].user, cand.topic, cand.pov, |revs|);
  }

  lemma BetaMeanPositive(h: AssignmentHeader, k: RefCase, revert: bool, hits: int, total: int)
    requires PositivePriors(h) && total >= 0 && hits >= 0
    ensures BetaMean(h, k, revert, hits, total) > 0.0
  {
  }

  /**
   * The factor a link contributes to a revision's score once r's touched
   * statistics are taken out (`rest`): 1 when an endpoint is unassigned,
   * otherwise the Beta mean of what remains of the link's two counters.
   */
  function LinkMean(h: AssignmentHeader, parent: Assignment, child: Assignment, revert: bool, rest: multiset<Loc>): real
    requires PositivePriors(h)
  {
    if Assigned(parent) && Assigned(child) then
      BetaMean(h, CaseOf(parent, child), revert, rest[RefLoc(parent, child, revert)],
               rest[RefLoc(parent, child, true)] + rest[RefLoc(parent, child, false)])
    else 1.0
  }

  lemma LinkMeanPositive(h: AssignmentHeader, parent: Assignment, child: Assignment, revert: bool, rest: multiset<Loc>)
    requires PositivePriors(h)
    ensures LinkMean(h, parent, child, revert, rest) > 0.0
  {
    if Assigned(parent) && Assigned(child) {
      BetaMeanPositive(h, CaseOf(parent, child), revert, rest[RefLoc(parent, child, revert)],
                       rest[RefLoc(parent, child, true)] + rest[RefLoc(parent, child, false)]);
    }
  }

  lemma LinkMeanAssigned(h: AssignmentHeader, parent: Assignment, child: Assignment, revert: bool, rest: multiset<Loc>)
    requires PositivePriors(h) && Assigned(parent) && Assigned(child)
    ensures LinkMean(h, parent, child, revert, rest)
            == BetaMean(h, CaseOf(parent, child), revert, rest[RefLoc(parent, child, revert)],
                        rest[RefLoc(parent, child, true)] + rest[RefLoc(parent, child, false)])
  {
  }

  /**
   * The score of label `cand` for revision r computed directly from the
   * recount rather than from a patched index: the link factors from `rest`
   * (the recount without r's touched statistics), the user and page
   * factors from the tallies with r unassigned.
   */
  function PatchedScore(p: Params, revs: seq<Revision>, A: seq<Assignment>, r: int, cand: Assignment,
                        includeChild: bool, includeUser: bool, rest: multiset<Loc>): real
    requires ValidCorpus(p, revs) && |A| == |revs| && 0 <= r < |revs| && PositivePriors(p.header)
  {
    Product(ParentMean(p, revs, A, r, cand, rest), ChildMean(p, revs, A, r, cand, includeChild, rest),
            UserMean(p, revs, A, r, cand, includeUser), PageShare(p, revs, A, r, cand))
  }

  /** The parent link's factor of the patched score: 1 without a parent. */
  function ParentMean(p: Params, revs: seq<Revision>, A: seq<Assignment>, r: int, cand: Assignment, rest: multiset<Loc>): real
    requires ValidCorpus(p, revs) && |A| == |revs| && 0 <= r < |revs| && PositivePriors(p.header)
  {
    assert ValidRevision(p, revs, r);
    if revs[r].parent >= 0 then LinkMean(p.header, A[revs[r].parent], cand, revs[r].disagrees, rest) else 1.0
  }

  /** The child link's factor of the patched score: 1 without a child or when the child is not scored. */
  function ChildMean(p: Params, revs: seq<Revision>, A: seq<Assignment>, r: int, cand: Assignment,
                     includeChild: bool, rest: multiset<Loc>): real
    requires ValidCorpus(p, revs) && |A| == |revs| && 0 <= r < |revs| && PositivePriors(p.header)
  {
    assert ValidRevision(p, revs, r);
    var ch := revs[r].child;
    if ch >= 0 && includeChild then LinkMean(p.header, cand, A[ch], revs[ch].disagrees, rest) else 1.0
  }

  /** The user factor of the patched score: the user's smoothed count with r unassigned. */
  function UserMean(p: Params, revs: seq<Revision>, A: seq<Assignment>, r: int, cand: Assignment, includeUser: bool): real
    requires |A| == |revs| && 0 <= r < |revs|
  {
    if includeUser then p.header.alpha + UserTally(revs, A[r := Unassigned], revs[r].user, cand.topic, cand.pov, |revs|) as real
    else 1.0
  }

  /** The page factor of the patched score: the page share of the candidate topic with r unassigned. */
  function PageShare(p: Params, revs: seq<Revision>, A: seq<Assignment>, r: int, cand: Assignment): real
    requires ValidCorpus(p, revs) && |A| == |revs| && 0 <= r < |revs| && PositivePriors(p.header)
  {
    assert ValidRevision(p, revs, r);
    var B := A[r := Unassigned];
    PageMean(p.header.beta, p.numPages, PageTally(revs, B, cand.topic, revs[r].article, |revs|), Recounted(revs, B)[TopicTotal(cand.topic)])
  }

  /** One link's patched factor: PatchedReference, or 1 when an endpoint is unassigned. */
  lemma LinkFactorPatched(p: Params, revs: seq<Revision>, A: seq<Assignment>, r: int, c: Counters,
                          parent: Assignment, child: Assignment, disagrees: bool, rest: multiset<Loc>)
    requires ValidCorpus(p, revs) && ValidLabels(p, revs, A) && 0 <= r < |revs|
    requires revs[r].parent < |revs| && revs[r].child < |revs| && PositivePriors(p.header)
    requires forall l | l != Scratch :: Get(c, l) == Recounted(revs, A)[l]
    requires forall l | l != Scratch :: rest[l] + multiset(Touched(revs, A, r))[l] == Recounted(revs, A)[l]
    ensures ReferenceProbability(p.header, c, parent, child, disagrees, Some(FillIndexPatch(revs, A, r)))
            == Success(LinkMean(p.header, parent, child, disagrees, rest))
  {
    if Assigned(parent) && Assigned(child) {
      LinkMeanAssigned(p.header, parent, child, disagrees, rest);
      PatchedReference(p, revs, A, r, c, parent, child, disagrees, rest);
    }
  }

  /** The product of the four factors, named so that equal factors give equal products without arithmetic. */
  function Product(a: real, b: real, c: real, d: real): real {
    a * b * c * d
  }

  lemma ProductPositive(a: real, b: real, c: real, d: real)
    requires a > 0.0 && b > 0.0 && c > 0.0 && d > 0.0
    ensures Product(a, b, c, d) > 0.0
  {
    assert a * b > 0.0;
    assert a * b * c > 0.0;
  }

  /**
   * Scoring a candidate with r's patch against an index that agrees with
   * the recount is scoring it against the recount with r taken out: every
   * factor of revision_probability is what it would be if r were not
   * counted, and none of its asserts fires.
   */
  lemma RevisionProbabilityPatched(p: Params, c: Counters, pages: PageCounts, users: UserDists,
                                   revs: seq<Revision>, A: seq<Assignment>, r: int, cand: Assignment,
                                   includeChild: bool, includeUser: bool, rest: multiset<Loc>)
    requires ValidCorpus(p, revs) && ValidLabels(p, revs, A) && 0 <= r < |revs| && InRange(p, cand)
    requires revs[r].parent < |revs| && revs[r].child < |revs|
    requires PositivePriors(p.header) && (includeUser ==> p.header.alpha > 0.0)
    requires forall l | l != Scratch :: Get(c, l) == Recounted(revs, A)[l]
    requires forall t', page :: PageGet(pages, t', page) == PageTally(revs, A, t', page, |revs|)
    requires forall u, t, pov | 0 <= u < p.numUsers && 0 <= t < p.T() && 0 <= pov < p.P() ::
               UserGet(users, u, t, pov) == p.header.alpha + UserTally(revs, A, u, t, pov, |revs|) as real
    requires forall l | l != Scratch :: rest[l] + multiset(Touched(revs, A, r))[l] == Recounted(revs, A)[l]
    ensures RevisionProbability(p, c, pages, users, revs, A, r, cand, includeChild, includeUser, Some(FillIndexPatch(revs, A, r)))
            == Success(PatchedScore(p, revs, A, r, cand, includeChild, includeUser, rest))
  {
    assert ValidRevision(p, revs, r);
    var v := revs[r];
    var B := A[r := Unassigned];
    var patch := Some(FillIndexPatch(revs, A, r));
    var f1, f2 := LinkFactorsPatched(p, revs, A, r, c, cand, includeChild, rest);
    var f3 := UserMean(p, revs, A, r, cand, includeUser);
    if includeUser {
      UserFactorPatched(p, revs, A, r, users, cand);
    }
    var f4 := PageShare(p, revs, A, r, cand);
    PageFactorPatched(p, revs, A, r, c, pages, cand.topic);
    ProductPositive(f1, f2, f3, f4);
    RevisionProbabilityOf(p, c, pages, users, revs, A, r, cand, includeChild, includeUser, patch, f1, f2, f3, f4);
  }

  /** Both link factors of the patched score, with r's patch against an index that agrees with the recount. */
  lemma LinkFactorsPatched(p: Params, revs: seq<Revision>, A: seq<Assignment>, r: int, c: Counters, cand: Assignment,
                           includeChild: bool, rest: multiset<Loc>) returns (f1: real, f2: real)
    requires ValidCorpus(p, revs) && ValidLabels(p, revs, A) && 0 <= r < |revs|
    requires revs[r].parent < |revs| && revs[r].child < |revs| && PositivePriors(p.header)
    requires forall l | l != Scratch :: Get(c, l) == Recounted(revs, A)[l]
    requires forall l | l != Scratch :: rest[l] + multiset(Touched(revs, A, r))[l] == Recounted(revs, A)[l]
    ensures f1 > 0.0 && f2 > 0.0
    ensures f1 == ParentMean(p, revs, A, r, cand, rest)
    ensures f2 == ChildMean(p, revs, A, r, cand, includeChild, rest)
    ensures revs[r].parent >= 0 ==>
              ReferenceProbability(p.header, c, A[revs[r].parent], cand, revs[r].disagrees, Some(FillIndexPatch(revs, A, r))) == Success(f1)
    ensures revs[r].child >= 0 && includeChild ==>
              ReferenceProbability(p.header, c, cand, A[revs[r].child], revs[revs[r].child].disagrees, Some(FillIndexPatch(revs, A, r)))
              == Success(f2)
  {
    var v := revs[r];
    f1, f2 := 1.0, 1.0;
    if v.parent >= 0 {
      f1 := LinkMean(p.header, A[v.parent], cand, v.disagrees, rest);
      LinkFactorPatched(p, revs, A, r, c, A[v.parent], cand, v.disagrees, rest);
      LinkMeanPositive(p.header, A[v.parent], cand, v.disagrees, rest);
    }
    if v.child >= 0 && includeChild {
      f2 := LinkMean(p.header, cand, A[v.child], revs[v.child].disagrees, rest);
      LinkFactorPatched(p, revs, A, r, c, cand, A[v.child], revs[v.child].disagrees, rest);
      LinkMeanPositive(p.header, cand, A[v.child], revs[v.child].disagrees, rest);
    }
  }

  /** revision_probability's value once each of its factors is known and the product is positive. */
  lemma RevisionProbabilityOf(p: Params, c: Counters, pages: PageCounts, users: UserDists,
                              revs: seq<Revision>, A: seq<Assignment>, r: int, cand: Assignment,
                              includeChild: bool, includeUser: bool, patch: Option<IndexPatch>,
                              f1: real, f2: real, f3: real, f4: real)
    requires 0 <= r < |revs| == |A| && revs[r].parent < |revs| && revs[r].child < |revs|
    requires revs[r].parent >= 0 ==> ReferenceProbability(p.header, c, A[revs[r].parent], cand, revs[r].disagrees, patch) == Success(f1)
    requires revs[r].parent < 0 ==> f1 == 1.0
    requires revs[r].child >= 0 && includeChild ==>
               ReferenceProbability(p.header, c, cand, A[revs[r].child], revs[revs[r].child].disagrees, patch) == Success(f2)
    requires !(revs[r].child >= 0 && includeChild) ==> f2 == 1.0
    requires f3 == if includeUser then UserFactor(users, revs[r].user, cand, patch) else 1.0
    requires PageFactor(p.header, p.numPages, pages, c, cand.topic, revs[r].article, patch) == Success(f4)
    requires Product(f1, f2, f3, f4) > 0.0
    ensures RevisionProbability(p, c, pages, users, revs, A, r, cand, includeChild, includeUser, patch) == Success(Product(f1, f2, f3, f4))
  {
  }
}
