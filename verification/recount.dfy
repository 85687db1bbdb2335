/**
 * The recount every index must agree with: what the topic statistics,
 * page counts and user distributions would hold if they were recomputed
 * from scratch from the current labels. This is the invariant the
 * sampler's bookkeeping maintains and that src/check_indexes.c checks
 * (a zero sweep must bring every statistic back to 0).
 *
 * It also holds fill_index_patch (src/probability.c) and the exchange
 * lemma: relabelling one revision changes the recount by exactly what
 * create_index_update subtracts and adds.
 */
module Recount {
  import opened Records
  import opened Layout
  import opened Updates

  /** The revision count stays far below the int64 range, so the scratch slot cannot run out in a sweep. */
  const MaxRevisions: int := 0x0800_0000_0000_0000

  /**
   * One ingested revision as the sampler expects it: page and user in
   * range, parent and child links in range, never to itself, and
   * symmetric (src/verify_mmaps.c checks the symmetry).
   */
  predicate ValidRevision(p: Params, revs: seq<Revision>, x: int)
    requires 0 <= x < |revs|
  {
    var v := revs[x];
    && 0 <= v.article < p.numPages
    && 0 <= v.user < p.numUsers
    && -1 <= v.parent < |revs| && v.parent != x
    && -1 <= v.child < |revs| && v.child != x
    && (v.parent >= 0 ==> revs[v.parent].child == x)
    && (v.child >= 0 ==> revs[v.child].parent == x)
  }

  predicate ValidCorpus(p: Params, revs: seq<Revision>) {
    && ValidParams(p)
    && |revs| <= MaxRevisions
    && forall x | 0 <= x < |revs| :: ValidRevision(p, revs, x)
  }

  /** A label the sampler may hold: unassigned, or a (topic, pov) in range. */
  predicate ValidLabel(p: Params, a: Assignment) {
    a == Unassigned || InRange(p, a)
  }

  predicate ValidLabels(p: Params, revs: seq<Revision>, A: seq<Assignment>) {
    |A| == |revs| && forall x | 0 <= x < |A| :: ValidLabel(p, A[x])
  }

  /** The label of a revision's parent, or unassigned when it has none. */
  function ParentLabel(revs: seq<Revision>, A: seq<Assignment>, x: int): Assignment
    requires 0 <= x < |revs|
  {
    var q := revs[x].parent;
    if 0 <= q < |A| then A[q] else Unassigned
  }

  /** The two statistics revision x feeds under labels A (update_locations of its parent link). */
  function Contribution(revs: seq<Revision>, A: seq<Assignment>, x: int): (Loc, Loc)
    requires 0 <= x < |revs| && x < |A|
  {
    UpdateLocations(ParentLabel(revs, A, x), A[x], Flag(revs[x].disagrees))
  }

  function Pair(c: (Loc, Loc)): multiset<Loc> {
    multiset{c.0, c.1}
  }

  /** The pair each revision feeds, in revision order. */
  function Feeds(revs: seq<Revision>, A: seq<Assignment>): (f: seq<multiset<Loc>>)
    requires |A| == |revs|
    ensures |f| == |revs|
    ensures forall x | 0 <= x < |f| :: f[x] == Pair(Contribution(revs, A, x))
  {
    seq(|revs|, x requires 0 <= x < |revs| => Pair(Contribution(revs, A, x)))
  }

  /** The union of a sequence of multisets. */
  function Sum(s: seq<multiset<Loc>>): multiset<Loc> {
    if |s| == 0 then multiset{} else Sum(s[..|s| - 1]) + s[|s| - 1]
  }

  /** The recount of the topic region: every statistic fed by every revision. */
  function Recounted(revs: seq<Revision>, A: seq<Assignment>): multiset<Loc>
    requires |A| == |revs|
  {
    Sum(Feeds(revs, A))
  }

  /** Number of assigned revisions in topic t on a page (the page vector's entry). */
  function PageTally(revs: seq<Revision>, A: seq<Assignment>, t: int, page: int, n: int): nat
    requires 0 <= n <= |revs| && |A| == |revs|
  {
    if n == 0 then 0
    else PageTally(revs, A, t, page, n - 1)
         + (if Assigned(A[n - 1]) && A[n - 1].topic == t && revs[n - 1].article == page then 1 else 0)
  }

  /** Number of a user's revisions labelled (t, pov) (the user distribution's entry, less the prior). */
  function UserTally(revs: seq<Revision>, A: seq<Assignment>, u: int, t: int, pov: int, n: int): nat
    requires 0 <= n <= |revs| && |A| == |revs|
  {
    if n == 0 then 0
    else UserTally(revs, A, u, t, pov, n - 1)
         + (if Assigned(A[n - 1]) && A[n - 1] == Assignment(t, pov) && revs[n - 1].user == u then 1 else 0)
  }

  /**
   * fill_index_patch: snapshot the revision's user, page, label and flag,
   * its parent's label (-1, -1 without a parent) and its child's label and
   * flag (all -1 without a child).
   */
  function FillIndexPatch(revs: seq<Revision>, A: seq<Assignment>, r: int): (patch: IndexPatch)
    requires 0 <= r < |revs| == |A| && revs[r].parent < |A| && revs[r].child < |A|
    ensures Assignment(patch.topic, patch.pov) == A[r]
    ensures Assignment(patch.parentTopic, patch.parentPov) == ParentLabel(revs, A, r)
    ensures revs[r].child < 0 ==> patch.childTopic == patch.childPov == patch.childDisagrees == NoId
    ensures revs[r].child >= 0 ==> Assignment(patch.childTopic, patch.childPov) == A[revs[r].child]
    ensures revs[r].child >= 0 ==> Truthy(patch.childDisagrees) == revs[revs[r].child].disagrees
    ensures Truthy(patch.disagrees) == revs[r].disagrees
    ensures patch.page == revs[r].article && patch.user == revs[r].user
  {
    var v := revs[r];
    var parent := if v.parent >= 0 then A[v.parent] else Unassigned;
    var child := if v.child >= 0 then A[v.child] else Unassigned;
    var childFlag := if v.child >= 0 then Flag(revs[v.child].disagrees) else NoId;
    IndexPatch(parent.topic, parent.pov, A[r].topic, A[r].pov, Flag(v.disagrees),
               child.topic, child.pov, childFlag, v.article, v.user)
  }

  /** The child's label half of a patch. */
  function ChildLabel(revs: seq<Revision>, A: seq<Assignment>, r: int): Assignment
    requires 0 <= r < |revs|
  {
    var c := revs[r].child;
    if 0 <= c < |A| then A[c] else Unassigned
  }

  /**
   * The statistics a relabelling of r touches: r's own pair and its
   * child's pair (scratch entries when it has none). This is what
   * create_index_update subtracts before, and adds after, the change.
   */
  function Touched(revs: seq<Revision>, A: seq<Assignment>, r: int): seq<Loc>
    requires 0 <= r < |revs| == |A|
  {
    var own := Contribution(revs, A, r);
    var c := revs[r].child;
    var child := if 0 <= c < |A| then Contribution(revs, A, c) else (Scratch, Scratch);
    [own.0, own.1, child.0, child.1]
  }

  /** Only r and its child see r's label; every other revision feeds the same statistics after r is relabelled. */
  lemma ContributionFrame(p: Params, revs: seq<Revision>, A: seq<Assignment>, r: int, a: Assignment, x: int)
    requires ValidCorpus(p, revs) && |A| == |revs|
    requires 0 <= r < |revs| && 0 <= x < |revs| && x != r && x != revs[r].child
    ensures Contribution(revs, A[r := a], x) == Contribution(revs, A, x)
  {
    assert ValidRevision(p, revs, x);
    assert ValidRevision(p, revs, r);
  }

  /** Element i of s, or nothing when i is out of range. */
  function Pick(s: seq<multiset<Loc>>, i: int): multiset<Loc> {
    if 0 <= i < |s| then s[i] else multiset{}
  }

  /** One statistic's count in a sum, one element at a time. */
  lemma {:induction false} SumExchangeAt(s: seq<multiset<Loc>>, s': seq<multiset<Loc>>, i: int, j: int, l: Loc)
    requires |s| == |s'| && i != j
    requires forall k | 0 <= k < |s| && k != i && k != j :: s[k] == s'[k]
    ensures Sum(s)[l] + Pick(s', i)[l] + Pick(s', j)[l] == Sum(s')[l] + Pick(s, i)[l] + Pick(s, j)[l]
  {
    if |s| > 0 {
      var n := |s| - 1;
      var t, t' := s[..n], s'[..n];
      SumExchangeAt(t, t', i, j, l);
      assert Sum(s)[l] == Sum(t)[l] + s[n][l];
      assert Sum(s')[l] == Sum(t')[l] + s'[n][l];
      assert Pick(s, i)[l] == Pick(t, i)[l] + (if i == n then s[n][l] else 0);
      assert Pick(s, j)[l] == Pick(t, j)[l] + (if j == n then s[n][l] else 0);
      assert Pick(s', i)[l] == Pick(t', i)[l] + (if i == n then s'[n][l] else 0);
      assert Pick(s', j)[l] == Pick(t', j)[l] + (if j == n then s'[n][l] else 0);
      assert i == n || j == n || s[n] == s'[n];
    }
  }

  /**
   * Swapping the elements at two positions of a sum: if s and s' agree
   * everywhere except at i and j, their sums differ by exactly those
   * elements.
   */
  lemma SumExchange(s: seq<multiset<Loc>>, s': seq<multiset<Loc>>, i: int, j: int)
    requires |s| == |s'| && i != j
    requires forall k | 0 <= k < |s| && k != i && k != j :: s[k] == s'[k]
    ensures Sum(s) + (Pick(s', i) + Pick(s', j)) == Sum(s') + (Pick(s, i) + Pick(s, j))
  {
    forall l
      ensures (Sum(s) + (Pick(s', i) + Pick(s', j)))[l] == (Sum(s') + (Pick(s, i) + Pick(s, j)))[l]
    {
      SumExchangeAt(s, s', i, j, l);
    }
  }

  /** Two distinct elements of a sum are contained in it. */
  lemma {:induction false} PickWithinSum(s: seq<multiset<Loc>>, i: int, j: int)
    requires i != j
    ensures Pick(s, i) + Pick(s, j) <= Sum(s)
  {
    if |s| > 0 {
      var n := |s| - 1;
      PickWithinSum(s[..n], i, j);
      assert Pick(s, i) == Pick(s[..n], i) + (if i == n then s[n] else multiset{});
      assert Pick(s, j) == Pick(s[..n], j) + (if j == n then s[n] else multiset{});
    }
  }

  /** The touched statistics are r's and its child's feeds, padded with scratch when there is no child. */
  lemma TouchedAsPicks(p: Params, revs: seq<Revision>, A: seq<Assignment>, r: int)
    requires ValidCorpus(p, revs) && |A| == |revs| && 0 <= r < |revs|
    ensures var c := revs[r].child;
            multiset(Touched(revs, A, r))
            == (Pick(Feeds(revs, A), r) + Pick(Feeds(revs, A), c))
               + (if 0 <= c then multiset{} else multiset{Scratch, Scratch})
  {
    assert ValidRevision(p, revs, r);
  }

  /** Relabelling r leaves the feed of every revision other than r and its child alone. */
  lemma FeedsFrame(p: Params, revs: seq<Revision>, A: seq<Assignment>, r: int, a: Assignment)
    requires ValidCorpus(p, revs) && |A| == |revs| && 0 <= r < |revs|
    ensures forall k | 0 <= k < |revs| && k != r && k != revs[r].child :: Feeds(revs, A)[k] == Feeds(revs, A[r := a])[k]
  {
    forall k | 0 <= k < |revs| && k != r && k != revs[r].child
      ensures Feeds(revs, A)[k] == Feeds(revs, A[r := a])[k]
    {
      ContributionFrame(p, revs, A, r, a, k);
    }
  }

  /**
   * Exchange lemma: relabelling r changes the recount by exactly the
   * touched statistics — the old ones leave and the new ones arrive.
   */
  lemma RecountExchange(p: Params, revs: seq<Revision>, A: seq<Assignment>, r: int, a: Assignment)
    requires ValidCorpus(p, revs) && |A| == |revs| && 0 <= r < |revs|
    ensures Recounted(revs, A) + multiset(Touched(revs, A[r := a], r))
         == Recounted(revs, A[r := a]) + multiset(Touched(revs, A, r))
  {
    var B := A[r := a];
    var F, G := Feeds(revs, A), Feeds(revs, B);
    var c := revs[r].child;
    assert ValidRevision(p, revs, r);
    FeedsFrame(p, revs, A, r, a);
    SumExchange(F, G, r, c);
    TouchedAsPicks(p, revs, A, r);
    TouchedAsPicks(p, revs, B, r);
    ExchangePadded(Sum(F), Sum(G), Pick(F, r) + Pick(F, c), Pick(G, r) + Pick(G, c),
                   if 0 <= c then multiset{} else multiset{Scratch, Scratch});
  }

  /** The exchange read at one statistic. */
  lemma RecountExchangeAt(p: Params, revs: seq<Revision>, A: seq<Assignment>, r: int, a: Assignment, l: Loc)
    requires ValidCorpus(p, revs) && |A| == |revs| && 0 <= r < |revs|
    ensures Recounted(revs, A)[l] + multiset(Touched(revs, A[r := a], r))[l]
         == Recounted(revs, A[r := a])[l] + multiset(Touched(revs, A, r))[l]
  {
    RecountExchange(p, revs, A, r, a);
    assert (Recounted(revs, A) + multiset(Touched(revs, A[r := a], r)))[l]
        == (Recounted(revs, A[r := a]) + multiset(Touched(revs, A, r)))[l];
  }

  lemma ExchangePadded(x: multiset<Loc>, y: multiset<Loc>, f: multiset<Loc>, g: multiset<Loc>, pad: multiset<Loc>)
    requires x + g == y + f
    ensures x + (g + pad) == y + (f + pad)
  {
    forall l ensures (x + (g + pad))[l] == (y + (f + pad))[l] {
      assert (x + g)[l] == (y + f)[l];
    }
  }

  /** Every non-scratch statistic a relabelling subtracts is present in the recount, so the subtraction cannot go negative. */
  lemma TouchedWithinRecount(p: Params, revs: seq<Revision>, A: seq<Assignment>, r: int)
    requires ValidCorpus(p, revs) && |A| == |revs| && 0 <= r < |revs|
    ensures forall l | l != Scratch :: multiset(Touched(revs, A, r))[l] <= Recounted(revs, A)[l]
  {
    assert ValidRevision(p, revs, r);
    PickWithinSum(Feeds(revs, A), r, revs[r].child);
    TouchedAsPicks(p, revs, A, r);
  }

  /**
   * create_index_update on a fresh patch subtracts exactly the touched
   * statistics under the current labels and adds exactly those under the
   * new label.
   */
  lemma PatchUpdateIsExchange(p: Params, revs: seq<Revision>, A: seq<Assignment>, r: int, a: Assignment)
    requires ValidCorpus(p, revs) && |A| == |revs| && 0 <= r < |revs|
    requires revs[r].parent < |A| && revs[r].child < |A|
    ensures CreateIndexUpdate(FillIndexPatch(revs, A, r), a)
         == IndexUpdate(Touched(revs, A, r), Touched(revs, A[r := a], r))
  {
    assert ValidRevision(p, revs, r);
    var c := revs[r].child;
    if c >= 0 {
      assert ValidRevision(p, revs, c);
    }
  }

  /**
   * The patch with its child half forced to -1 (resample_initialize and
   * resample_destroy) subtracts and adds only r's own pair.
   */
  function WithoutChild(patch: IndexPatch): IndexPatch {
    patch.(childTopic := NoId, childPov := NoId)
  }

  function OwnOnly(revs: seq<Revision>, A: seq<Assignment>, r: int): seq<Loc>
    requires 0 <= r < |revs| == |A|
  {
    var own := Contribution(revs, A, r);
    [own.0, own.1, Scratch, Scratch]
  }

  lemma ChildlessPatchUpdate(p: Params, revs: seq<Revision>, A: seq<Assignment>, r: int, a: Assignment)
    requires ValidCorpus(p, revs) && |A| == |revs| && 0 <= r < |revs|
    requires revs[r].parent < |A| && revs[r].child < |A|
    ensures CreateIndexUpdate(WithoutChild(FillIndexPatch(revs, A, r)), a)
         == IndexUpdate(OwnOnly(revs, A, r), OwnOnly(revs, A[r := a], r))
  {
    assert ValidRevision(p, revs, r);
  }

  /**
   * Forcing the child half to -1 is harmless exactly when the child's pair
   * does not move, which is the case when there is no child or the child
   * is unassigned.
   */
  lemma ChildlessIsExchange(p: Params, revs: seq<Revision>, A: seq<Assignment>, r: int, a: Assignment)
    requires ValidCorpus(p, revs) && |A| == |revs| && 0 <= r < |revs|
    requires ChildLabel(revs, A, r) == Unassigned
    ensures multiset(OwnOnly(revs, A, r)) + multiset(Touched(revs, A[r := a], r))
         == multiset(OwnOnly(revs, A[r := a], r)) + multiset(Touched(revs, A, r))
  {
    assert ValidRevision(p, revs, r);
    var c := revs[r].child;
    if 0 <= c < |A| {
      assert A[r := a][c] == A[c];
      assert Contribution(revs, A[r := a], c) == (Scratch, Scratch);
    }
    assert Touched(revs, A, r) == OwnOnly(revs, A, r);
    assert Touched(revs, A[r := a], r) == OwnOnly(revs, A[r := a], r);
  }

  lemma {:induction false} PageTallyExchange(revs: seq<Revision>, A: seq<Assignment>, r: int, a: Assignment, t: int, page: int, n: int)
    requires |A| == |revs| && 0 <= r < |revs| && 0 <= n <= |revs|
    ensures PageTally(revs, A[r := a], t, page, n) + (if r < n && Assigned(A[r]) && A[r].topic == t && revs[r].article == page then 1 else 0)
         == PageTally(revs, A, t, page, n) + (if r < n && Assigned(a) && a.topic == t && revs[r].article == page then 1 else 0)
  {
    if n > 0 {
      PageTallyExchange(revs, A, r, a, t, page, n - 1);
    }
  }

  lemma {:induction false} UserTallyExchange(revs: seq<Revision>, A: seq<Assignment>, r: int, a: Assignment, u: int, t: int, pov: int, n: int)
    requires |A| == |revs| && 0 <= r < |revs| && 0 <= n <= |revs|
    ensures UserTally(revs, A[r := a], u, t, pov, n) + (if r < n && Assigned(A[r]) && A[r] == Assignment(t, pov) && revs[r].user == u then 1 else 0)
         == UserTally(revs, A, u, t, pov, n) + (if r < n && Assigned(a) && a == Assignment(t, pov) && revs[r].user == u then 1 else 0)
  {
    if n > 0 {
      UserTallyExchange(revs, A, r, a, u, t, pov, n - 1);
    }
  }

  /** With every revision unassigned nothing is counted anywhere but the scratch slot. */
  lemma {:induction false} NothingCountedWhenUnassigned(revs: seq<Revision>, A: seq<Assignment>, n: int)
    requires |A| == |revs| && 0 <= n <= |revs|
    requires forall x | 0 <= x < |A| :: A[x] == Unassigned
    ensures forall l | l != Scratch :: Sum(Feeds(revs, A)[..n])[l] == 0
    ensures forall t, page :: PageTally(revs, A, t, page, n) == 0
    ensures forall u, t, pov :: UserTally(revs, A, u, t, pov, n) == 0
  {
    if n > 0 {
      NothingCountedWhenUnassigned(revs, A, n - 1);
      assert Feeds(revs, A)[..n][..n - 1] == Feeds(revs, A)[..n - 1];
    }
  }
}
