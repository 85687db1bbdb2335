/**
 * The privileged mutators of src/parse_mmaps.c, which edit the shared
 * index directly rather than through the update queue: change_indexes
 * moves one revision's contribution to the statistics by +1 or -1, and
 * change_revision_assignment relabels a revision by taking its own and
 * its child's contributions out and putting them back under the new
 * label. initialize_user_topics resets the user distributions one
 * thread owns to the prior.
 */
module Mutate {
  import opened Records
  import opened Updates
  import opened Recount
  import opened Engine
  import opened Pages

  /** The shared index as the mutators see it: the labels and the three statistics regions. */
  datatype Index = Index(labels: seq<Assignment>, summary: Counters, pages: PageCounts, users: UserDists)

  /**
   * The counters change_indexes moves for revision x: its topic's total
   * and, when it has a parent, the one reference statistic the parent's
   * label selects. An unassigned parent has topic -1, so it selects the
   * general counts.
   */
  function ChangeLocs(revs: seq<Revision>, A: seq<Assignment>, x: int): (locs: seq<Loc>)
    requires 0 <= x < |revs| == |A|
  {
    var q := revs[x].parent;
    [TopicTotal(A[x].topic)] + if 0 <= q < |A| then [RefLoc(A[q], A[x], revs[x].disagrees)] else []
  }

  function Hit(locs: seq<Loc>, l: Loc): int {
    if l in locs then 1 else 0
  }

  /**
   * change_indexes(x, d): x must be labelled; d is added to its page
   * count, its topic's total, its user's entry and, when it has a parent,
   * which must have a smaller id, to the reference statistic. Each
   * addition is asserted to leave a non-negative value, in that order; a
   * topic, user or page outside its region is out of range. The checks
   * are made on the values before the additions, which comes to the same
   * since the entries are distinct.
   */
  function ChangeIndexes(p: Params, revs: seq<Revision>, ix: Index, x: int, d: int): (res: Result<Index>)
    requires 0 <= x < |revs| == |ix.labels|
    ensures res.Success? ==> res.value.labels == ix.labels && revs[x].parent < x
  {
    var a, v := ix.labels[x], revs[x];
    var total := TopicTotal(a.topic);
    if a.pov < 0 || a.topic < 0 then Failure(NotAssigned)
    else if !(InRange(p, a) && 0 <= v.article < p.numPages && 0 <= v.user < p.numUsers) then Failure(OutOfRange)
    else if PageGet(ix.pages, a.topic, v.article) + d < 0 then Failure(NegativeCounter)
    else if Get(ix.summary, total) + d < 0 then Failure(NegativeCounter)
    else if UserGet(ix.users, v.user, a.topic, a.pov) + d as real < 0.0 then Failure(NegativeCounter)
    else
      var pages := ix.pages[(a.topic, v.article) := PageGet(ix.pages, a.topic, v.article) + d];
      var users := ix.users[(v.user, a.topic, a.pov) := UserGet(ix.users, v.user, a.topic, a.pov) + d as real];
      if v.parent < 0 then Success(Index(ix.labels, Bump(ix.summary, total, d), pages, users))
      else if v.parent >= x then Failure(ParentNotEarlier)
      else
        var link := RefLoc(ix.labels[v.parent], a, v.disagrees);
        if Get(ix.summary, link) + d < 0 then Failure(NegativeCounter)
        else Success(Index(ix.labels, Bump(Bump(ix.summary, total, d), link, d), pages, users))
  }

  /** The entries change_indexes checks: each must stay non-negative after adding d. */
  predicate ChangeAllowed(p: Params, revs: seq<Revision>, ix: Index, x: int, d: int)
    requires 0 <= x < |revs| == |ix.labels|
  {
    var a, v := ix.labels[x], revs[x];
    && InRange(p, a) && 0 <= v.article < p.numPages && 0 <= v.user < p.numUsers
    && v.parent < x
    && PageGet(ix.pages, a.topic, v.article) + d >= 0
    && UserGet(ix.users, v.user, a.topic, a.pov) + d as real >= 0.0
    && forall l | l in ChangeLocs(revs, ix.labels, x) :: Get(ix.summary, l) + d >= 0
  }

  /** change_indexes succeeds exactly when x is labelled in range, its parent comes first and no checked entry goes negative. */
  lemma ChangeIndexesAllowed(p: Params, revs: seq<Revision>, ix: Index, x: int, d: int)
    requires 0 <= x < |revs| == |ix.labels|
    ensures ChangeIndexes(p, revs, ix, x, d).Success? <==> ChangeAllowed(p, revs, ix, x, d)
  {
    var a, v := ix.labels[x], revs[x];
    if InRange(p, a) && 0 <= v.article < p.numPages && 0 <= v.user < p.numUsers && 0 <= v.parent < x {
      LinkApart(revs, ix, x);
    }
  }

  /** With a parent, ChangeLocs is the topic total and a distinct reference counter. */
  lemma LinkApart(revs: seq<Revision>, ix: Index, x: int)
    requires 0 <= x < |revs| == |ix.labels| && 0 <= revs[x].parent < x
    ensures var total, link := TopicTotal(ix.labels[x].topic), RefLoc(ix.labels[revs[x].parent], ix.labels[x], revs[x].disagrees);
            ChangeLocs(revs, ix.labels, x) == [total, link] && total != link
  {
  }

  /**
   * ix2 is ix with revision x's contribution moved by d: its page entry,
   * its user's entry for its label and the counters of ChangeLocs; the
   * labels and every other entry are unchanged.
   */
  ghost predicate Moved(revs: seq<Revision>, ix: Index, ix2: Index, x: int, d: int)
    requires 0 <= x < |revs| == |ix.labels|
  {
    var a, v := ix.labels[x], revs[x];
    && ix2.labels == ix.labels
    && (forall l :: Get(ix2.summary, l) == Get(ix.summary, l) + (if l in ChangeLocs(revs, ix.labels, x) then d else 0))
    && (forall t, page :: PageGet(ix2.pages, t, page)
                          == PageGet(ix.pages, t, page) + (if t == a.topic && page == v.article then d else 0))
    && (forall u, t, pov :: UserGet(ix2.users, u, t, pov)
                            == UserGet(ix.users, u, t, pov) + (if u == v.user && t == a.topic && pov == a.pov then d as real else 0.0))
  }

  /** A successful change_indexes moves x's contribution by d and nothing else. */
  lemma ChangeIndexesMoves(p: Params, revs: seq<Revision>, ix: Index, x: int, d: int)
    requires 0 <= x < |revs| == |ix.labels| && ChangeIndexes(p, revs, ix, x, d).Success?
    ensures Moved(revs, ix, ChangeIndexes(p, revs, ix, x, d).value, x, d)
  {
    MovesSummary(p, revs, ix, x, d);
    MovesTallies(p, revs, ix, x, d);
  }

  lemma MovesSummary(p: Params, revs: seq<Revision>, ix: Index, x: int, d: int)
    requires 0 <= x < |revs| == |ix.labels| && ChangeIndexes(p, revs, ix, x, d).Success?
    ensures forall l :: Get(ChangeIndexes(p, revs, ix, x, d).value.summary, l)
                        == Get(ix.summary, l) + (if l in ChangeLocs(revs, ix.labels, x) then d else 0)
  {
    if revs[x].parent >= 0 {
      LinkApart(revs, ix, x);
    }
  }

  lemma MovesTallies(p: Params, revs: seq<Revision>, ix: Index, x: int, d: int)
    requires 0 <= x < |revs| == |ix.labels| && ChangeIndexes(p, revs, ix, x, d).Success?
    ensures var ix2, a, v := ChangeIndexes(p, revs, ix, x, d).value, ix.labels[x], revs[x];
            && (forall t, page :: PageGet(ix2.pages, t, page)
                                  == PageGet(ix.pages, t, page) + (if t == a.topic && page == v.article then d else 0))
            && (forall u, t, pov :: UserGet(ix2.users, u, t, pov)
                                    == UserGet(ix.users, u, t, pov) + (if u == v.user && t == a.topic && pov == a.pov then d as real else 0.0))
  {
    var a, v := ix.labels[x], revs[x];
    PageStored(ix.pages, a.topic, v.article, d);
    UserStored(ix.users, v.user, a.topic, a.pov, d as real);
  }

  lemma PageStored(pages: PageCounts, t: int, page: int, d: int)
    ensures var pages' := pages[(t, page) := PageGet(pages, t, page) + d];
            forall t', page' :: PageGet(pages', t', page') == PageGet(pages, t', page') + (if t' == t && page' == page then d else 0)
  {
  }

  lemma UserStored(users: UserDists, u: int, t: int, pov: int, d: real)
    ensures var users' := users[(u, t, pov) := UserGet(users, u, t, pov) + d];
            forall u', t', pov' :: UserGet(users', u', t', pov') == UserGet(users, u', t', pov') + (if u' == u && t' == t && pov' == pov then d else 0.0)
  {
  }

  /** Every entry of two indexes reads the same and the labels are equal. */
  ghost predicate Same(ix: Index, ix2: Index) {
    && ix2.labels == ix.labels
    && (forall l :: Get(ix2.summary, l) == Get(ix.summary, l))
    && (forall t, page :: PageGet(ix2.pages, t, page) == PageGet(ix.pages, t, page))
    && (forall u, t, pov :: UserGet(ix2.users, u, t, pov) == UserGet(ix.users, u, t, pov))
  }

  /**
   * change_indexes with -d can always follow change_indexes with d when
   * the entries it touched were non-negative to begin with.
   */
  lemma UndoSucceeds(p: Params, revs: seq<Revision>, ix: Index, ix2: Index, x: int, d: int)
    requires 0 <= x < |revs| == |ix.labels| && ChangeIndexes(p, revs, ix, x, d) == Success(ix2)
    requires var a, v := ix.labels[x], revs[x];
             && PageGet(ix.pages, a.topic, v.article) >= 0 && UserGet(ix.users, v.user, a.topic, a.pov) >= 0.0
             && forall l | l in ChangeLocs(revs, ix.labels, x) :: Get(ix.summary, l) >= 0
    ensures ChangeIndexes(p, revs, ix2, x, -d).Success?
  {
    ChangeIndexesMoves(p, revs, ix, x, d);
    ChangeIndexesAllowed(p, revs, ix, x, d);
    UndoAllowed(p, revs, ix, ix2, x, d);
    ChangeIndexesAllowed(p, revs, ix2, x, -d);
  }

  /** change_indexes with -d undoes change_indexes with d: every entry reads as before. */
  lemma ChangeIndexesUndo(p: Params, revs: seq<Revision>, ix: Index, ix2: Index, ix3: Index, x: int, d: int)
    requires 0 <= x < |revs| == |ix.labels|
    requires ChangeIndexes(p, revs, ix, x, d) == Success(ix2) && ChangeIndexes(p, revs, ix2, x, -d) == Success(ix3)
    ensures Same(ix, ix3)
  {
    UndoSummary(p, revs, ix, ix2, ix3, x, d);
    UndoTallies(p, revs, ix, ix2, ix3, x, d);
  }

  lemma UndoSummary(p: Params, revs: seq<Revision>, ix: Index, ix2: Index, ix3: Index, x: int, d: int)
    requires 0 <= x < |revs| == |ix.labels|
    requires ChangeIndexes(p, revs, ix, x, d) == Success(ix2) && ChangeIndexes(p, revs, ix2, x, -d) == Success(ix3)
    ensures forall l :: Get(ix3.summary, l) == Get(ix.summary, l)
  {
    MovesSummary(p, revs, ix, x, d);
    MovesSummary(p, revs, ix2, x, -d);
  }

  lemma UndoTallies(p: Params, revs: seq<Revision>, ix: Index, ix2: Index, ix3: Index, x: int, d: int)
    requires 0 <= x < |revs| == |ix.labels|
    requires ChangeIndexes(p, revs, ix, x, d) == Success(ix2) && ChangeIndexes(p, revs, ix2, x, -d) == Success(ix3)
    ensures forall t, page :: PageGet(ix3.pages, t, page) == PageGet(ix.pages, t, page)
    ensures forall u, t, pov :: UserGet(ix3.users, u, t, pov) == UserGet(ix.users, u, t, pov)
  {
    assert ix2.labels == ix.labels;
    var a, v := ix.labels[x], revs[x];
    MovesTallies(p, revs, ix, x, d);
    MovesTallies(p, revs, ix2, x, -d);
    forall t, page
      ensures PageGet(ix3.pages, t, page) == PageGet(ix.pages, t, page)
    {
      assert PageGet(ix2.pages, t, page) == PageGet(ix.pages, t, page) + (if t == a.topic && page == v.article then d else 0);
    }
    forall u, t, pov
      ensures UserGet(ix3.users, u, t, pov) == UserGet(ix.users, u, t, pov)
    {
      assert UserGet(ix2.users, u, t, pov) == UserGet(ix.users, u, t, pov) + (if u == v.user && t == a.topic && pov == a.pov then d as real else 0.0);
    }
  }


  lemma UndoAllowed(p: Params, revs: seq<Revision>, ix: Index, ix2: Index, x: int, d: int)
    requires 0 <= x < |revs| == |ix.labels| && ChangeAllowed(p, revs, ix, x, d) && Moved(revs, ix, ix2, x, d)
    requires var a, v := ix.labels[x], revs[x];
             && PageGet(ix.pages, a.topic, v.article) >= 0 && UserGet(ix.users, v.user, a.topic, a.pov) >= 0.0
             && forall l | l in ChangeLocs(revs, ix.labels, x) :: Get(ix.summary, l) >= 0
    ensures ChangeAllowed(p, revs, ix2, x, -d)
  {
  }

  /** How often the relabelling of r moves l through its child's change_indexes calls (0 without a child). */
  function ChildHit(revs: seq<Revision>, A: seq<Assignment>, r: int, l: Loc): int
    requires 0 <= r < |revs| == |A|
  {
    var c := revs[r].child;
    if 0 <= c < |A| then Hit(ChangeLocs(revs, A, c), l) else 0
  }

  /**
   * With x and its parent labelled, change_indexes moves exactly the
   * statistics the sampler's update_locations feeds for x (away from the
   * scratch slot).
   */
  lemma ContributionHits(revs: seq<Revision>, A: seq<Assignment>, x: int, l: Loc)
    requires 0 <= x < |revs| == |A| && -1 <= revs[x].parent < |revs| && l != Scratch
    requires Assigned(A[x]) && (revs[x].parent >= 0 ==> Assigned(A[revs[x].parent]))
    ensures Pair(Contribution(revs, A, x))[l] == Hit(ChangeLocs(revs, A, x), l)
  {
  }

  /**
   * Where the two disagree: for a revision whose parent is unlabelled,
   * update_locations parks the reference in the scratch slot, while
   * change_indexes compares against the parent's topic of -1 and moves a
   * general reference counter.
   */
  lemma UnlabelledParentDiverges(revs: seq<Revision>, A: seq<Assignment>, x: int)
    requires 0 <= x < |revs| == |A| && 0 <= revs[x].parent < |revs|
    requires Assigned(A[x]) && A[revs[x].parent] == Unassigned
    ensures Contribution(revs, A, x).1 == Scratch
    ensures |ChangeLocs(revs, A, x)| == 2
    ensures ChangeLocs(revs, A, x)[1] == if revs[x].disagrees then RevertGeneral(A[x].topic) else NoRevertGeneral(A[x].topic)
  {
  }

  /**
   * The statistics a relabelling of r touches in the sampler's exchange
   * are exactly those change_revision_assignment moves through r and its
   * child, once every revision is labelled in range.
   */
  lemma TouchedHits(p: Params, revs: seq<Revision>, A: seq<Assignment>, r: int, l: Loc)
    requires ValidCorpus(p, revs) && |A| == |revs| && 0 <= r < |revs| && AllInRange(p, A) && l != Scratch
    ensures multiset(Touched(revs, A, r))[l] == Lost(revs, A, r, l)
  {
    assert ValidRevision(p, revs, r);
    var q, c := revs[r].parent, revs[r].child;
    TouchedPairs(revs, A, r, l);
    assert InRange(p, A[r]);
    if q >= 0 {
      assert InRange(p, A[q]);
    }
    ContributionHits(revs, A, r, l);
    if c >= 0 {
      assert ValidRevision(p, revs, c) && InRange(p, A[c]);
      ContributionHits(revs, A, c, l);
    }
  }

  /** The touched list counts r's pair and its child's pair. */
  lemma TouchedPairs(revs: seq<Revision>, A: seq<Assignment>, r: int, l: Loc)
    requires 0 <= r < |revs| == |A| && l != Scratch
    ensures var c := revs[r].child;
            multiset(Touched(revs, A, r))[l]
            == Pair(Contribution(revs, A, r))[l] + (if 0 <= c < |A| then Pair(Contribution(revs, A, c))[l] else 0)
  {
  }

  /** The counters the relabelling of r moves through r and its child under labels A. */
  function Lost(revs: seq<Revision>, A: seq<Assignment>, r: int, l: Loc): int
    requires 0 <= r < |revs| == |A|
  {
    Hit(ChangeLocs(revs, A, r), l) + ChildHit(revs, A, r, l)
  }

  /** Every counter the relabelling takes out is there to be taken out. */
  lemma LostWithinRecount(p: Params, revs: seq<Revision>, A: seq<Assignment>, r: int)
    requires ValidCorpus(p, revs) && |A| == |revs| && 0 <= r < |revs| && AllInRange(p, A)
    ensures forall l | l != Scratch :: Lost(revs, A, r, l) <= Recounted(revs, A)[l]
  {
    TouchedWithinRecount(p, revs, A, r);
    forall l | l != Scratch
      ensures Lost(revs, A, r, l) <= Recounted(revs, A)[l]
    {
      TouchedHits(p, revs, A, r, l);
    }
  }

  /**
   * Taking out what r and its child move under A and putting back what
   * they move under A[r := a] turns the recount of A into the recount of
   * A[r := a].
   */
  lemma CountersExchange(p: Params, revs: seq<Revision>, A: seq<Assignment>, r: int, a: Assignment, l: Loc)
    requires ValidCorpus(p, revs) && |A| == |revs| && 0 <= r < |revs| && AllInRange(p, A) && AllInRange(p, A[r := a])
    requires l != Scratch
    ensures Recounted(revs, A)[l] - Lost(revs, A, r, l) + Lost(revs, A[r := a], r, l) == Recounted(revs, A[r := a])[l]
  {
    TouchedHits(p, revs, A, r, l);
    TouchedHits(p, revs, A[r := a], r, l);
    RecountExchangeAt(p, revs, A, r, a, l);
  }

  /** The child's half of change_revision_assignment: change_indexes on r's child, when r has one. */
  function ChildChange(p: Params, revs: seq<Revision>, ix: Index, r: int, d: int): (res: Result<Index>)
    requires 0 <= r < |revs| == |ix.labels| && revs[r].child < |revs|
    ensures res.Success? ==> res.value.labels == ix.labels
  {
    var c := revs[r].child;
    if c >= 0 then ChangeIndexes(p, revs, ix, c, d) else Success(ix)
  }

  /**
   * change_revision_assignment(r, a): r must be labelled. Its child's
   * contribution and its own are taken out under the old label, the label
   * is set to a, and both are put back under the new one. A child id past
   * the end of the revision region is out of range.
   */
  function ChangeRevisionAssignment(p: Params, revs: seq<Revision>, ix: Index, r: int, a: Assignment): (res: Result<Index>)
    requires 0 <= r < |revs| == |ix.labels|
    ensures res.Success? ==> res.value.labels == ix.labels[r := a]
  {
    var cur := ix.labels[r];
    if cur.topic < 0 || cur.pov < 0 then Failure(NotAssigned)
    else if revs[r].child >= |revs| then Failure(OutOfRange)
    else
      var unlinked :- ChildChange(p, revs, ix, r, -1);
      var removed :- ChangeIndexes(p, revs, unlinked, r, -1);
      var added :- ChangeIndexes(p, revs, removed.(labels := removed.labels[r := a]), r, 1);
      ChildChange(p, revs, added, r, 1)
  }

  /** The indexes between the four change_indexes calls of a successful relabelling. */
  lemma RelabelSteps(p: Params, revs: seq<Revision>, ix: Index, r: int, a: Assignment) returns (i1: Index, i2: Index, i3: Index)
    requires 0 <= r < |revs| == |ix.labels| && ChangeRevisionAssignment(p, revs, ix, r, a).Success?
    ensures revs[r].child < |revs|
    ensures ChildChange(p, revs, ix, r, -1) == Success(i1) && i1.labels == ix.labels
    ensures ChangeIndexes(p, revs, i1, r, -1) == Success(i2) && i2.labels == ix.labels
    ensures ChangeIndexes(p, revs, i2.(labels := ix.labels[r := a]), r, 1) == Success(i3) && i3.labels == ix.labels[r := a]
    ensures ChildChange(p, revs, i3, r, 1) == ChangeRevisionAssignment(p, revs, ix, r, a)
  {
    i1 := ChildChange(p, revs, ix, r, -1).value;
    i2 := ChangeIndexes(p, revs, i1, r, -1).value;
    i3 := ChangeIndexes(p, revs, i2.(labels := ix.labels[r := a]), r, 1).value;
  }

  /**
   * A successful change_revision_assignment moves exactly what r and its
   * child feed: the counters Lost counts under the old labels come out
   * and those under the new labels go in, r's page count moves from its
   * old topic to a's, and its user's count from its old label to a, and
   * nothing else changes.
   */
  lemma ChangeAssignmentMoves(p: Params, revs: seq<Revision>, ix: Index, r: int, a: Assignment)
    requires 0 <= r < |revs| == |ix.labels| && revs[r].child != r && ChangeRevisionAssignment(p, revs, ix, r, a).Success?
    ensures var res, A := ChangeRevisionAssignment(p, revs, ix, r, a).value, ix.labels;
            forall l :: Get(res.summary, l) + Lost(revs, A, r, l) == Get(ix.summary, l) + Lost(revs, A[r := a], r, l)
    ensures var res, b, v := ChangeRevisionAssignment(p, revs, ix, r, a).value, ix.labels[r], revs[r];
            forall t, page :: PageGet(res.pages, t, page) + (if t == b.topic && page == v.article then 1 else 0)
                              == PageGet(ix.pages, t, page) + (if t == a.topic && page == v.article then 1 else 0)
    ensures var res, b, v := ChangeRevisionAssignment(p, revs, ix, r, a).value, ix.labels[r], revs[r];
            forall u, t, pov :: UserGet(res.users, u, t, pov) + (if u == v.user && t == b.topic && pov == b.pov then 1.0 else 0.0)
                                == UserGet(ix.users, u, t, pov) + (if u == v.user && t == a.topic && pov == a.pov then 1.0 else 0.0)
  {
    var i1, i2, i3 := RelabelSteps(p, revs, ix, r, a);
    var i2' := i2.(labels := ix.labels[r := a]);
    var c := revs[r].child;
    ChangeIndexesMoves(p, revs, i1, r, -1);
    ChangeIndexesMoves(p, revs, i2', r, 1);
    var res := ChildChange(p, revs, i3, r, 1).value;
    if c >= 0 {
      ChangeIndexesMoves(p, revs, ix, c, -1);
      ChangeIndexesMoves(p, revs, i3, c, 1);
      assert ix.labels[r := a][c] == ix.labels[c];
      ComposeSummary(revs, ix, i1, i2, i2', i3, res, r, a);
      ComposePages(revs, ix, i1, i2, i2', i3, res, r, a);
      ComposeUsers(revs, ix, i1, i2, i2', i3, res, r, a);
    } else {
      ComposeChildless(revs, ix, i2, i2', res, r, a);
    }
  }

  lemma ComposeSummary(revs: seq<Revision>, ix: Index, i1: Index, i2: Index, i2': Index, i3: Index, res: Index, r: int, a: Assignment)
    requires 0 <= r < |revs| == |ix.labels| && 0 <= revs[r].child < |revs| && revs[r].child != r
    requires i1.labels == i2.labels == ix.labels && i2'.summary == i2.summary && i2'.labels == ix.labels[r := a] && i3.labels == ix.labels[r := a]
    requires Moved(revs, ix, i1, revs[r].child, -1) && Moved(revs, i1, i2, r, -1)
    requires Moved(revs, i2', i3, r, 1) && Moved(revs, i3, res, revs[r].child, 1)
    ensures var A := ix.labels;
            forall l :: Get(res.summary, l) + Lost(revs, A, r, l) == Get(ix.summary, l) + Lost(revs, A[r := a], r, l)
  {
  }

  lemma ComposePages(revs: seq<Revision>, ix: Index, i1: Index, i2: Index, i2': Index, i3: Index, res: Index, r: int, a: Assignment)
    requires 0 <= r < |revs| == |ix.labels| && 0 <= revs[r].child < |revs| && revs[r].child != r
    requires i1.labels == i2.labels == ix.labels && i2'.pages == i2.pages && i2'.labels == ix.labels[r := a] && i3.labels == ix.labels[r := a]
    requires ix.labels[r := a][revs[r].child] == ix.labels[revs[r].child]
    requires Moved(revs, ix, i1, revs[r].child, -1) && Moved(revs, i1, i2, r, -1)
    requires Moved(revs, i2', i3, r, 1) && Moved(revs, i3, res, revs[r].child, 1)
    ensures var b, v := ix.labels[r], revs[r];
            forall t, page :: PageGet(res.pages, t, page) + (if t == b.topic && page == v.article then 1 else 0)
                              == PageGet(ix.pages, t, page) + (if t == a.topic && page == v.article then 1 else 0)
  {
  }

  lemma ComposeUsers(revs: seq<Revision>, ix: Index, i1: Index, i2: Index, i2': Index, i3: Index, res: Index, r: int, a: Assignment)
    requires 0 <= r < |revs| == |ix.labels| && 0 <= revs[r].child < |revs| && revs[r].child != r
    requires i1.labels == i2.labels == ix.labels && i2'.users == i2.users && i2'.labels == ix.labels[r := a] && i3.labels == ix.labels[r := a]
    requires ix.labels[r := a][revs[r].child] == ix.labels[revs[r].child]
    requires Moved(revs, ix, i1, revs[r].child, -1) && Moved(revs, i1, i2, r, -1)
    requires Moved(revs, i2', i3, r, 1) && Moved(revs, i3, res, revs[r].child, 1)
    ensures var b, v := ix.labels[r], revs[r];
            forall u, t, pov :: UserGet(res.users, u, t, pov) + (if u == v.user && t == b.topic && pov == b.pov then 1.0 else 0.0)
                                == UserGet(ix.users, u, t, pov) + (if u == v.user && t == a.topic && pov == a.pov then 1.0 else 0.0)
  {
  }

  lemma ComposeChildless(revs: seq<Revision>, ix: Index, i2: Index, i2': Index, res: Index, r: int, a: Assignment)
    requires 0 <= r < |revs| == |ix.labels| && !(0 <= revs[r].child < |revs|)
    requires i2.labels == ix.labels && i2' == i2.(labels := ix.labels[r := a])
    requires Moved(revs, ix, i2, r, -1) && Moved(revs, i2', res, r, 1)
    ensures var A := ix.labels;
            forall l :: Get(res.summary, l) + Lost(revs, A, r, l) == Get(ix.summary, l) + Lost(revs, A[r := a], r, l)
    ensures var b, v := ix.labels[r], revs[r];
            forall t, page :: PageGet(res.pages, t, page) + (if t == b.topic && page == v.article then 1 else 0)
                              == PageGet(ix.pages, t, page) + (if t == a.topic && page == v.article then 1 else 0)
    ensures var b, v := ix.labels[r], revs[r];
            forall u, t, pov :: UserGet(res.users, u, t, pov) + (if u == v.user && t == b.topic && pov == b.pov then 1.0 else 0.0)
                                == UserGet(ix.users, u, t, pov) + (if u == v.user && t == a.topic && pov == a.pov then 1.0 else 0.0)
  {
  }

  /** The page and user regions agree with labels B. */
  ghost predicate TalliesAgree(p: Params, revs: seq<Revision>, B: seq<Assignment>, ix: Index)
    requires |B| == |revs|
  {
    PagesAgree(revs, B, ix.pages) && UsersAgree(p, revs, B, ix.users)
  }

  /**
   * The shared index of an initialized model: every revision labelled in
   * range and every statistic equal to its recount from the labels.
   */
  ghost predicate Agreeing(p: Params, revs: seq<Revision>, ix: Index) {
    && ValidCorpus(p, revs) && |ix.labels| == |revs| && AllInRange(p, ix.labels) && p.header.alpha >= 0.0
    && CountersAgree(revs, ix.labels, ix.summary) && TalliesAgree(p, revs, ix.labels, ix)
  }

  /** The labels with r's child taken out, as the regions see them after the first call. */
  function Unlinked(revs: seq<Revision>, A: seq<Assignment>, r: int): seq<Assignment>
    requires 0 <= r < |revs| == |A|
  {
    var c := revs[r].child;
    if 0 <= c < |A| then A[c := Unassigned] else A
  }

  lemma TalliesLost(p: Params, revs: seq<Revision>, B: seq<Assignment>, cur: Index, next: Index, x: int)
    requires |B| == |revs| == |cur.labels| && 0 <= x < |revs|
    requires TalliesAgree(p, revs, B, cur) && Assigned(B[x]) && cur.labels[x] == B[x] && Moved(revs, cur, next, x, -1)
    ensures TalliesAgree(p, revs, B[x := Unassigned], next)
  {
    PagesLost(revs, B, x, cur.pages);
    UsersLost(p, revs, B, x, cur.users);
  }

  lemma TalliesGained(p: Params, revs: seq<Revision>, B: seq<Assignment>, cur: Index, next: Index, x: int)
    requires |B| == |revs| == |cur.labels| && 0 <= x < |revs|
    requires TalliesAgree(p, revs, B, cur) && !Assigned(B[x]) && Assigned(cur.labels[x]) && Moved(revs, cur, next, x, 1)
    ensures TalliesAgree(p, revs, B[x := cur.labels[x]], next)
  {
    PagesGained(revs, B, x, cur.labels[x], cur.pages);
    UsersGained(p, revs, B, x, cur.labels[x], cur.users);
  }

  /**
   * A change_indexes call whose counters stay non-negative is allowed
   * once the page and user regions agree with some labels B: taking a
   * revision out finds it counted under B, putting one in only adds.
   */
  lemma AllowedFrom(p: Params, revs: seq<Revision>, B: seq<Assignment>, cur: Index, x: int, d: int)
    requires ValidCorpus(p, revs) && |B| == |revs| == |cur.labels| && 0 <= x < |revs| && p.header.alpha >= 0.0
    requires TalliesAgree(p, revs, B, cur) && InRange(p, cur.labels[x]) && revs[x].parent < x
    requires d == 1 || (d == -1 && B[x] == cur.labels[x])
    requires forall l | l in ChangeLocs(revs, cur.labels, x) :: Get(cur.summary, l) + d >= 0
    ensures ChangeAllowed(p, revs, cur, x, d)
  {
    assert ValidRevision(p, revs, x);
    if d == -1 {
      PageCountsSelf(revs, B, x);
      UserCountsSelf(revs, B, x);
    }
  }

  /** The first call: the child's contribution comes out. */
  lemma ChildOut(p: Params, revs: seq<Revision>, ix: Index, r: int) returns (i1: Index)
    requires Agreeing(p, revs, ix) && 0 <= r < |revs| && (revs[r].child >= 0 ==> r < revs[r].child)
    ensures revs[r].child < |revs|
    ensures ChildChange(p, revs, ix, r, -1) == Success(i1) && i1.labels == ix.labels
    ensures TalliesAgree(p, revs, Unlinked(revs, ix.labels, r), i1)
    ensures forall l | l != Scratch :: Get(i1.summary, l) == Recounted(revs, ix.labels)[l] - ChildHit(revs, ix.labels, r, l)
  {
    var A, c := ix.labels, revs[r].child;
    assert ValidRevision(p, revs, r);
    if c >= 0 {
      assert ValidRevision(p, revs, c) && InRange(p, A[c]);
      LostWithinRecount(p, revs, A, r);
      AllowedFrom(p, revs, A, ix, c, -1);
      ChangeIndexesAllowed(p, revs, ix, c, -1);
      i1 := ChangeIndexes(p, revs, ix, c, -1).value;
      ChangeIndexesMoves(p, revs, ix, c, -1);
      TalliesLost(p, revs, A, ix, i1, c);
    } else {
      i1 := ix;
    }
  }

  /** The second call: r's own contribution comes out under its old label. */
  lemma SelfOut(p: Params, revs: seq<Revision>, ix: Index, i1: Index, r: int) returns (i2: Index)
    requires Agreeing(p, revs, ix) && 0 <= r < |revs| && revs[r].parent < r && i1.labels == ix.labels
    requires TalliesAgree(p, revs, Unlinked(revs, ix.labels, r), i1)
    requires forall l | l != Scratch :: Get(i1.summary, l) == Recounted(revs, ix.labels)[l] - ChildHit(revs, ix.labels, r, l)
    ensures ChangeIndexes(p, revs, i1, r, -1) == Success(i2) && i2.labels == ix.labels
    ensures TalliesAgree(p, revs, Unlinked(revs, ix.labels, r)[r := Unassigned], i2)
    ensures forall l | l != Scratch :: Get(i2.summary, l) == Recounted(revs, ix.labels)[l] - Lost(revs, ix.labels, r, l)
  {
    var A, B := ix.labels, Unlinked(revs, ix.labels, r);
    assert ValidRevision(p, revs, r) && InRange(p, A[r]);
    assert B[r] == A[r];
    LostWithinRecount(p, revs, A, r);
    AllowedFrom(p, revs, B, i1, r, -1);
    ChangeIndexesAllowed(p, revs, i1, r, -1);
    i2 := ChangeIndexes(p, revs, i1, r, -1).value;
    ChangeIndexesMoves(p, revs, i1, r, -1);
    TalliesLost(p, revs, B, i1, i2, r);
  }

  /** The third call: r's contribution goes back in under the new label a. */
  lemma SelfIn(p: Params, revs: seq<Revision>, ix: Index, i2: Index, r: int, a: Assignment) returns (i3: Index)
    requires Agreeing(p, revs, ix) && 0 <= r < |revs| && revs[r].parent < r && InRange(p, a) && i2.labels == ix.labels
    requires TalliesAgree(p, revs, Unlinked(revs, ix.labels, r)[r := Unassigned], i2)
    requires forall l | l != Scratch :: Get(i2.summary, l) >= 0
    ensures ChangeIndexes(p, revs, i2.(labels := ix.labels[r := a]), r, 1) == Success(i3) && i3.labels == ix.labels[r := a]
    ensures TalliesAgree(p, revs, Unlinked(revs, ix.labels, r)[r := a], i3)
    ensures forall l | l != Scratch :: Get(i3.summary, l) >= 0
  {
    var B := Unlinked(revs, ix.labels, r)[r := Unassigned];
    var i2' := i2.(labels := ix.labels[r := a]);
    AllowedFrom(p, revs, B, i2', r, 1);
    ChangeIndexesAllowed(p, revs, i2', r, 1);
    i3 := ChangeIndexes(p, revs, i2', r, 1).value;
    ChangeIndexesMoves(p, revs, i2', r, 1);
    TalliesGained(p, revs, B, i2', i3, r);
    assert B[r := a] == Unlinked(revs, ix.labels, r)[r := a];
  }

  /** The fourth call: the child's contribution goes back in, now against r's new label. */
  lemma ChildIn(p: Params, revs: seq<Revision>, ix: Index, i3: Index, r: int, a: Assignment)
    requires Agreeing(p, revs, ix) && 0 <= r < |revs| && (revs[r].child >= 0 ==> r < revs[r].child)
    requires InRange(p, a) && i3.labels == ix.labels[r := a]
    requires TalliesAgree(p, revs, Unlinked(revs, ix.labels, r)[r := a], i3)
    requires forall l | l != Scratch :: Get(i3.summary, l) >= 0
    ensures revs[r].child < |revs| && ChildChange(p, revs, i3, r, 1).Success?
  {
    var c := revs[r].child;
    assert ValidRevision(p, revs, r);
    if c >= 0 {
      assert ValidRevision(p, revs, c) && InRange(p, ix.labels[c]);
      AllowedFrom(p, revs, Unlinked(revs, ix.labels, r)[r := a], i3, c, 1);
      ChangeIndexesAllowed(p, revs, i3, c, 1);
    }
  }

  /**
   * On an index that agrees with its labels, change_revision_assignment
   * to an in-range label succeeds, provided r's parent has a smaller id
   * and its child a larger one, as change_indexes asserts.
   */
  lemma ChangeAssignmentSucceeds(p: Params, revs: seq<Revision>, ix: Index, r: int, a: Assignment)
    requires Agreeing(p, revs, ix) && 0 <= r < |revs| && InRange(p, a)
    requires revs[r].parent < r && (revs[r].child >= 0 ==> r < revs[r].child)
    ensures ChangeRevisionAssignment(p, revs, ix, r, a).Success?
  {
    assert InRange(p, ix.labels[r]);
    var i1 := ChildOut(p, revs, ix, r);
    var i2 := SelfOut(p, revs, ix, i1, r);
    LostWithinRecount(p, revs, ix.labels, r);
    var i3 := SelfIn(p, revs, ix, i2, r, a);
    ChildIn(p, revs, ix, i3, r, a);
  }

  /**
   * change_revision_assignment keeps the index in agreement: relabelling r
   * to an in-range a on an index that agrees with its labels succeeds and
   * leaves an index that agrees with the new labels, every statistic its
   * recount under A[r := a], with the scratch slot untouched.
   */
  lemma ChangeAssignmentAgrees(p: Params, revs: seq<Revision>, ix: Index, r: int, a: Assignment)
    requires Agreeing(p, revs, ix) && 0 <= r < |revs| && InRange(p, a)
    requires revs[r].parent < r && (revs[r].child >= 0 ==> r < revs[r].child)
    ensures ChangeRevisionAssignment(p, revs, ix, r, a).Success?
    ensures var res := ChangeRevisionAssignment(p, revs, ix, r, a).value;
            Agreeing(p, revs, res) && Get(res.summary, Scratch) == Get(ix.summary, Scratch)
  {
    ChangeAssignmentSucceeds(p, revs, ix, r, a);
    assert ValidRevision(p, revs, r) && InRange(p, ix.labels[r]);
    ChangeAssignmentMoves(p, revs, ix, r, a);
    var res, A := ChangeRevisionAssignment(p, revs, ix, r, a).value, ix.labels;
    assert AllInRange(p, A[r := a]);
    CountersFollow(p, revs, A, r, a, ix.summary, res.summary);
    PagesFollow(revs, A, r, a, ix.pages, res.pages);
    UsersFollow(p, revs, A, r, a, ix.users, res.users);
  }

  lemma CountersFollow(p: Params, revs: seq<Revision>, A: seq<Assignment>, r: int, a: Assignment, cs: Counters, cs2: Counters)
    requires ValidCorpus(p, revs) && |A| == |revs| && 0 <= r < |revs| && AllInRange(p, A) && AllInRange(p, A[r := a])
    requires CountersAgree(revs, A, cs)
    requires forall l :: Get(cs2, l) + Lost(revs, A, r, l) == Get(cs, l) + Lost(revs, A[r := a], r, l)
    ensures CountersAgree(revs, A[r := a], cs2) && Get(cs2, Scratch) == Get(cs, Scratch)
  {
    forall l | l != Scratch
      ensures Get(cs2, l) == Recounted(revs, A[r := a])[l]
    {
      CountersExchange(p, revs, A, r, a, l);
    }
    assert Lost(revs, A, r, Scratch) == 0 == Lost(revs, A[r := a], r, Scratch);
  }

  lemma PagesFollow(revs: seq<Revision>, A: seq<Assignment>, r: int, a: Assignment, pages: PageCounts, pages2: PageCounts)
    requires |A| == |revs| && 0 <= r < |revs| && Assigned(A[r]) && Assigned(a) && PagesAgree(revs, A, pages)
    requires forall t, page :: PageGet(pages2, t, page) + (if t == A[r].topic && page == revs[r].article then 1 else 0)
                               == PageGet(pages, t, page) + (if t == a.topic && page == revs[r].article then 1 else 0)
    ensures PagesAgree(revs, A[r := a], pages2)
  {
    PagesMoved(revs, A, r, a, pages);
  }

  lemma UsersFollow(p: Params, revs: seq<Revision>, A: seq<Assignment>, r: int, a: Assignment, users: UserDists, users2: UserDists)
    requires |A| == |revs| && 0 <= r < |revs| && Assigned(A[r]) && Assigned(a) && UsersAgree(p, revs, A, users)
    requires forall u, t, pov :: UserGet(users2, u, t, pov) + (if u == revs[r].user && t == A[r].topic && pov == A[r].pov then 1.0 else 0.0)
                                 == UserGet(users, u, t, pov) + (if u == revs[r].user && t == a.topic && pov == a.pov then 1.0 else 0.0)
    ensures UsersAgree(p, revs, A[r := a], users2)
  {
    UsersMoved(p, revs, A, r, a, users);
  }

  /**
   * On an index that agrees with its labels, relabelling r to a can
   * always be followed by relabelling it back.
   */
  lemma RelabelBackSucceeds(p: Params, revs: seq<Revision>, ix: Index, r: int, a: Assignment)
    requires Agreeing(p, revs, ix) && 0 <= r < |revs| && InRange(p, a)
    requires revs[r].parent < r && (revs[r].child >= 0 ==> r < revs[r].child)
    ensures ChangeRevisionAssignment(p, revs, ix, r, a).Success?
    ensures ChangeRevisionAssignment(p, revs, ChangeRevisionAssignment(p, revs, ix, r, a).value, r, ix.labels[r]).Success?
  {
    ChangeAssignmentAgrees(p, revs, ix, r, a);
    assert InRange(p, ix.labels[r]);
    ChangeAssignmentAgrees(p, revs, ChangeRevisionAssignment(p, revs, ix, r, a).value, r, ix.labels[r]);
  }

  /**
   * Relabelling r to a and then back to its old label restores the index:
   * every entry reads as before.
   */
  lemma ChangeAssignmentUndo(p: Params, revs: seq<Revision>, ix: Index, ix1: Index, ix2: Index, r: int, a: Assignment)
    requires 0 <= r < |revs| == |ix.labels| && revs[r].child != r
    requires ChangeRevisionAssignment(p, revs, ix, r, a) == Success(ix1)
    requires ChangeRevisionAssignment(p, revs, ix1, r, ix.labels[r]) == Success(ix2)
    ensures Same(ix, ix2)
  {
    ChangeAssignmentMoves(p, revs, ix, r, a);
    ChangeAssignmentMoves(p, revs, ix1, r, ix.labels[r]);
    assert ix.labels[r := a][r := ix.labels[r]] == ix.labels;
    BackAndForth(revs, ix, ix1, ix2, r, a);
  }

  /** The arithmetic of the undo: two relabellings whose moves cancel. */
  lemma BackAndForth(revs: seq<Revision>, ix: Index, ix1: Index, ix2: Index, r: int, a: Assignment)
    requires 0 <= r < |revs| == |ix.labels| && ix1.labels == ix.labels[r := a] && ix2.labels == ix.labels
    requires var A, b, v := ix.labels, ix.labels[r], revs[r];
             && (forall l :: Get(ix1.summary, l) + Lost(revs, A, r, l) == Get(ix.summary, l) + Lost(revs, A[r := a], r, l))
             && (forall t, page :: PageGet(ix1.pages, t, page) + (if t == b.topic && page == v.article then 1 else 0)
                                   == PageGet(ix.pages, t, page) + (if t == a.topic && page == v.article then 1 else 0))
             && (forall u, t, pov :: UserGet(ix1.users, u, t, pov) + (if u == v.user && t == b.topic && pov == b.pov then 1.0 else 0.0)
                                     == UserGet(ix.users, u, t, pov) + (if u == v.user && t == a.topic && pov == a.pov then 1.0 else 0.0))
    requires var A, b, v := ix1.labels, ix1.labels[r], revs[r];
             && (forall l :: Get(ix2.summary, l) + Lost(revs, A, r, l) == Get(ix1.summary, l) + Lost(revs, ix.labels, r, l))
             && (forall t, page :: PageGet(ix2.pages, t, page) + (if t == b.topic && page == v.article then 1 else 0)
                                   == PageGet(ix1.pages, t, page) + (if t == ix.labels[r].topic && page == v.article then 1 else 0))
             && (forall u, t, pov :: UserGet(ix2.users, u, t, pov) + (if u == v.user && t == b.topic && pov == b.pov then 1.0 else 0.0)
                                     == UserGet(ix1.users, u, t, pov) + (if u == v.user && t == ix.labels[r].topic && pov == ix.labels[r].pov then 1.0 else 0.0))
    ensures Same(ix, ix2)
  {
  }

  /**
   * The ordering change_indexes asserts is not implied by the links: when
   * r's child has the smaller id, relabelling r on an agreeing index fails
   * at the first call, on the child's parent check.
   */
  lemma ChildBeforeParentFails(p: Params, revs: seq<Revision>, ix: Index, r: int, a: Assignment)
    requires Agreeing(p, revs, ix) && 0 <= r < |revs| && 0 <= revs[r].child < r
    ensures ChangeRevisionAssignment(p, revs, ix, r, a) == Failure(ParentNotEarlier)
  {
    assert ValidRevision(p, revs, r) && InRange(p, ix.labels[r]);
    ParentCheckFails(p, revs, ix, r);
  }

  lemma ParentCheckFails(p: Params, revs: seq<Revision>, ix: Index, r: int)
    requires Agreeing(p, revs, ix) && 0 <= r < |revs| && 0 <= revs[r].child < r
    ensures ChangeIndexes(p, revs, ix, revs[r].child, -1) == Failure(ParentNotEarlier)
  {
    var A, c := ix.labels, revs[r].child;
    assert ValidRevision(p, revs, r) && ValidRevision(p, revs, c) && InRange(p, A[c]);
    PageCountsSelf(revs, A, c);
    UserCountsSelf(revs, A, c);
    var total := TopicTotal(A[c].topic);
    assert ChildHit(revs, A, r, total) == 1;
    LostWithinRecount(p, revs, A, r);
    assert Get(ix.summary, total) == Recounted(revs, A)[total] >= 1;
    assert PageGet(ix.pages, A[c].topic, revs[c].article) >= 1;
  }

  /**
   * What initialize_user_topics(s, m) leaves: every in-range (topic, pov)
   * entry of each user on thread s's stride (s, s + m, ... below the
   * number of users) is alpha, and every other entry is as it was.
   */
  ghost predicate ThreadReset(p: Params, users: UserDists, users2: UserDists, s: int, m: int)
    requires 0 <= s && m >= 1
  {
    forall u, t, pov :: UserGet(users2, u, t, pov)
                        == if u in ForwardPages(p.numUsers, s, m) && 0 <= t < p.T() && 0 <= pov < p.P()
                           then p.header.alpha else UserGet(users, u, t, pov)
  }

  /** initialize_user_topics(s, m): the user distributions thread s of m owns are reset to the prior alpha. */
  method InitializeUserTopics(p: Params, users: UserDists, s: int, m: int) returns (res: UserDists)
    requires 0 <= s && m >= 1
    ensures ThreadReset(p, users, res, s, m)
  {
    var n := p.numUsers;
    res := users;
    var u := s;
    ghost var done: seq<int> := [];
    while u < n
      invariant s <= u && ForwardPages(n, s, m) == done + ForwardPages(n, u, m)
      invariant forall w, t, pov :: UserGet(res, w, t, pov)
                                    == if w in done && 0 <= t < p.T() && 0 <= pov < p.P()
                                       then p.header.alpha else UserGet(users, w, t, pov)
      decreases n - u
    {
      res := ResetUser(p, res, u);
      done, u := done + [u], u + m;
    }
  }

  /** The body of the outer loop: every (topic, pov) entry of user u becomes alpha. */
  method ResetUser(p: Params, users: UserDists, u: int) returns (res: UserDists)
    ensures forall w, t, pov :: UserGet(res, w, t, pov)
                                == if w == u && 0 <= t < p.T() && 0 <= pov < p.P() then p.header.alpha else UserGet(users, w, t, pov)
  {
    res := users;
    var t := 0;
    while t < p.T()
      invariant 0 <= t
      invariant forall w, t', pov :: UserGet(res, w, t', pov)
                                     == if w == u && 0 <= t' < t && t' < p.T() && 0 <= pov < p.P() then p.header.alpha else UserGet(users, w, t', pov)
    {
      res := ResetTopic(p, res, u, t);
      t := t + 1;
    }
  }

  /** The innermost loop: every pov entry of user u's topic t becomes alpha. */
  method ResetTopic(p: Params, users: UserDists, u: int, t: int) returns (res: UserDists)
    ensures forall w, t', pov :: UserGet(res, w, t', pov)
                                 == if w == u && t' == t && 0 <= pov < p.P() then p.header.alpha else UserGet(users, w, t', pov)
  {
    res := users;
    var pov := 0;
    while pov < p.P()
      invariant 0 <= pov
      invariant forall w, t', pov' :: UserGet(res, w, t', pov')
                                      == if w == u && t' == t && 0 <= pov' < pov && pov' < p.P() then p.header.alpha else UserGet(users, w, t', pov')
    {
      var next := res[(u, t, pov) := p.header.alpha];
      UserSet(res, next, u, t, pov, p.header.alpha);
      forall w, t', pov'
        ensures UserGet(next, w, t', pov')
                == if w == u && t' == t && 0 <= pov' < pov + 1 && pov' < p.P() then p.header.alpha else UserGet(users, w, t', pov')
      {
        assert UserGet(next, w, t', pov') == if w == u && t' == t && pov' == pov then p.header.alpha else UserGet(res, w, t', pov');
      }
      res, pov := next, pov + 1;
    }
  }

  lemma UserSet(users: UserDists, next: UserDists, u: int, t: int, pov: int, v: real)
    requires next == users[(u, t, pov) := v]
    ensures forall u', t', pov' :: UserGet(next, u', t', pov')
                                   == if u' == u && t' == t && pov' == pov then v else UserGet(users, u', t', pov')
  {
  }

  /**
   * Running initialize_user_topics for every thread s < m resets every
   * in-range entry of every user: each user is on exactly one stride, and
   * the threads after its owner leave it alone.
   */
  lemma AllThreadsReset(p: Params, steps: seq<UserDists>, m: int)
    requires m >= 1 && |steps| == m + 1
    requires forall s | 0 <= s < m :: ThreadReset(p, steps[s], steps[s + 1], s, m)
    ensures forall u, t, pov | 0 <= u < p.numUsers && 0 <= t < p.T() && 0 <= pov < p.P() :: UserGet(steps[m], u, t, pov) == p.header.alpha
  {
    forall u, t, pov | 0 <= u < p.numUsers && 0 <= t < p.T() && 0 <= pov < p.P()
      ensures UserGet(steps[m], u, t, pov) == p.header.alpha
    {
      ThreadsPartitionPages(p.numUsers, m, u);
      StaysReset(p, steps, m, u, t, pov, m);
    }
  }

  lemma {:induction false} StaysReset(p: Params, steps: seq<UserDists>, m: int, u: int, t: int, pov: int, j: int)
    requires m >= 1 && |steps| == m + 1 && 0 <= u < p.numUsers && 0 <= t < p.T() && 0 <= pov < p.P()
    requires forall s | 0 <= s < m :: ThreadReset(p, steps[s], steps[s + 1], s, m)
    requires forall s | 0 <= s < m && u in ForwardPages(p.numUsers, s, m) :: s == u % m
    requires u in ForwardPages(p.numUsers, u % m, m)
    requires u % m < j <= m
    ensures UserGet(steps[j], u, t, pov) == p.header.alpha
    decreases j
  {
    assert ThreadReset(p, steps[j - 1], steps[j], j - 1, m);
    if j - 1 > u % m {
      StaysReset(p, steps, m, u, t, pov, j - 1);
    }
  }

  /**
   * Once every in-range entry is alpha, the user distributions agree with
   * a model where no revision is labelled yet.
   */
  lemma ResetUsersAgree(p: Params, revs: seq<Revision>, A: seq<Assignment>, users: UserDists)
    requires |A| == |revs| && forall x | 0 <= x < |A| :: A[x] == Unassigned
    requires forall u, t, pov | 0 <= u < p.numUsers && 0 <= t < p.T() && 0 <= pov < p.P() :: UserGet(users, u, t, pov) == p.header.alpha
    ensures UsersAgree(p, revs, A, users)
  {
    NothingCountedWhenUnassigned(revs, A, |revs|);
  }
}
