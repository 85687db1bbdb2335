/**
 * The per-revision callbacks of src/sample.c other than resample_revision:
 * resample_assign (copy a reference label), null_assignment (forget a
 * label), resample_initialize (draw a first label, recursing into a child
 * that was skipped earlier) and resample_destroy (take a label's counts
 * back out). Draws are parameters: `picks[x]` is the uniform
 * (topic, pov) pair gsl_rng_uniform_int returns when x is initialized.
 *
 * Each callback keeps the thread consistent under the applier its sweep
 * installs, provided the labels around it are in the state the sweep
 * order guarantees. resample_initialize as written re-initializes a
 * revision it already reached through its parent; InitializeOnce is the
 * corrected callback, and Sweep.InitializeTwice and Sweep.InitializeTwiceCounts
 * exhibit the double count.
 */
module Relabel {
  import opened Records
  import opened Updates
  import opened Recount
  import opened Engine
  import opened Probability
  import opened Resample

  // ---------------------------------------------------------------- assign

  /**
   * resample_assign: catch up on the queue and, when the reference label
   * differs from r's label, commit it exactly as resample_revision does.
   */
  function ResampleAssign(p: Params, revs: seq<Revision>, e: Engine, r: int, reference: seq<Assignment>): (res: Result<Engine>)
    requires 0 <= r < |revs| == |e.labels| == |reference| && revs[r].parent < |revs| && revs[r].child < |revs|
    requires QueueShape(e)
    ensures res.Success? ==> res.value.labels == e.labels[r := reference[r]]
    ensures res.Success? ==> res.value.last == |e.queue| && |e.queue| <= |res.value.queue| <= |e.queue| + 1
    ensures CatchUp(Both, e).Failure? ==> res.Failure?
  {
    var patch := FillIndexPatch(revs, e.labels, r);
    var e1 :- CatchUp(Both, e);
    var a := reference[r];
    if a == Assignment(patch.topic, patch.pov) then Success(e1)
    else Commit(p, revs, e1, r, patch, a)
  }

  /**
   * On a consistent thread with room in the queue, copying an in-range
   * reference label onto a labelled revision fires no assert and keeps
   * the thread consistent.
   */
  lemma ResampleAssignConsistent(p: Params, revs: seq<Revision>, e: Engine, r: int, reference: seq<Assignment>)
    requires Consistent(p, revs, Both, e) && |e.queue| < Capacity(p)
    requires 0 <= r < |revs| == |reference| && InRange(p, e.labels[r]) && InRange(p, reference[r])
    requires p.header.alpha >= 0.0
    ensures ValidRevision(p, revs, r)
    ensures var res := ResampleAssign(p, revs, e, r, reference);
            && res.Success? && Consistent(p, revs, Both, res.value)
            && res.value.labels == e.labels[r := reference[r]]
  {
    assert ValidRevision(p, revs, r);
    CatchUpConsistent(p, revs, Both, e);
    var e1 := CatchUp(Both, e).value;
    KeepOrCommit(p, revs, e1, r, reference[r]);
  }

  // ------------------------------------------------------------------ null

  /** null_assignment: r's label becomes -1/-1; no statistic is touched. */
  function NullAssignment(e: Engine, r: int): (e': Engine)
    requires 0 <= r < |e.labels|
    ensures |e'.labels| == |e.labels| && !Assigned(e'.labels[r])
    ensures forall x | 0 <= x < |e.labels| && x != r :: e'.labels[x] == e.labels[x]
    ensures e'.summary == e.summary && e'.pages == e.pages && e'.users == e.users && e'.queue == e.queue
  {
    e.(labels := e.labels[r := Unassigned])
  }

  /**
   * The state create_indexes leaves and resample_null completes: every
   * label -1/-1, every statistic but the scratch slot zero, every page
   * vector zero, every user entry alpha, and an empty queue. It is
   * consistent under any applier.
   */
  lemma NulledConsistent(p: Params, revs: seq<Revision>, mode: Applier, e: Engine)
    requires ValidCorpus(p, revs) && |revs| <= Capacity(p) <= MaxRevisions
    requires |e.labels| == |revs| && forall x | 0 <= x < |e.labels| :: e.labels[x] == Unassigned
    requires forall l | l != Scratch :: Get(e.summary, l) == 0
    requires Get(e.summary, Scratch) >= 4 * Capacity(p)
    requires forall t, page :: PageGet(e.pages, t, page) == 0
    requires forall u, t, pov :: UserGet(e.users, u, t, pov) == p.header.alpha
    requires e.queue == [] && e.last == 0
    ensures Consistent(p, revs, mode, e)
  {
    NothingCountedWhenUnassigned(revs, e.labels, |revs|);
    assert Feeds(revs, e.labels)[..|revs|] == Feeds(revs, e.labels);
    CaughtUpIdle(mode, e);
  }

  // ---------------------------------------------------------- initialize

  /**
   * The tail of resample_initialize: write the drawn label, queue the
   * update, and add one count to the user's entry and one revision to
   * the page vector of the drawn topic. Nothing is subtracted.
   */
  function Introduce(p: Params, revs: seq<Revision>, e: Engine, r: int, patch: IndexPatch, a: Assignment): (res: Result<Engine>)
    requires 0 <= r < |revs| && |e.labels| == |revs|
    ensures res.Success? <==> InRange(p, a) && 0 <= revs[r].user < p.numUsers && 0 <= revs[r].article < p.numPages
                              && |e.queue| < Capacity(p)
    ensures res.Success? ==> res.value == e.(labels := e.labels[r := a], queue := e.queue + [CreateIndexUpdate(patch, a)],
                                             users := AddUser(e.users, revs[r].user, a.topic, a.pov, 1.0),
                                             pages := AddPage(e.pages, a.topic, revs[r].article, 1))
  {
    var user, page := revs[r].user, revs[r].article;
    if !InRange(p, a) || !(0 <= user < p.numUsers) || !(0 <= page < p.numPages) then Failure(OutOfRange)
    else
      var e1 :- PushQueue(p, e.(labels := e.labels[r := a]), CreateIndexUpdate(patch, a));
      Success(e1.(users := AddUser(e1.users, user, a.topic, a.pov, 1.0), pages := AddPage(e1.pages, a.topic, page, 1)))
  }

  /** resample_initialize once r's parent is known to be labelled: catch up, then introduce the draw. */
  function InitializeHere(p: Params, revs: seq<Revision>, e: Engine, r: int, a: Assignment): (res: Result<Engine>)
    requires 0 <= r < |revs| == |e.labels| && revs[r].parent < |revs| && revs[r].child < |revs| && QueueShape(e)
    ensures res.Success? ==> res.value.labels == e.labels[r := a] && QueueShape(res.value)
                             && |res.value.queue| == |e.queue| + 1
  {
    var patch := WithoutChild(FillIndexPatch(revs, e.labels, r));
    var e1 :- CatchUp(AddOnly, e);
    Introduce(p, revs, e1, r, patch, a)
  }

  /**
   * resample_initialize as written. A revision whose parent is still
   * unlabelled is skipped (the parent must come later in id order);
   * otherwise r draws its label with the child half of its patch forced
   * to -1, and, when its child has a smaller id, the child (which must
   * still be unlabelled) is initialized at once. Nothing stops r itself
   * from being initialized a second time.
   */
  function ResampleInitialize(p: Params, revs: seq<Revision>, e: Engine, r: int, picks: seq<Assignment>): (res: Result<Engine>)
    requires 0 <= r < |revs| == |e.labels| == |picks| && QueueShape(e)
    ensures res.Success? ==> |res.value.labels| == |revs| && QueueShape(res.value) && |e.queue| <= |res.value.queue|
    ensures res.Success? ==> forall x | 0 <= x < |revs| :: res.value.labels[x] == e.labels[x] || res.value.labels[x] == picks[x]
    decreases r
  {
    var v := revs[r];
    if !(v.parent < |revs| && v.child < |revs|) then Failure(OutOfRange)
    else if v.parent >= 0 && !Assigned(e.labels[v.parent]) then
      if v.parent > r then Success(e) else Failure(ParentNotLater)
    else
      var e2 :- InitializeHere(p, revs, e, r, picks[r]);
      var c := v.child;
      if 0 <= c < r then
        if !(e2.labels[c].topic < 0 && e2.labels[c].pov < 0) then Failure(ChildAlreadyAssigned)
        else ResampleInitialize(p, revs, e2, c, picks)
      else Success(e2)
  }

  /** The corrected callback: a revision that already has a label (given through its parent) is left alone. */
  function InitializeOnce(p: Params, revs: seq<Revision>, e: Engine, r: int, picks: seq<Assignment>): (res: Result<Engine>)
    requires 0 <= r < |revs| == |e.labels| == |picks| && QueueShape(e)
    ensures Assigned(e.labels[r]) ==> res == Success(e)
    ensures !Assigned(e.labels[r]) ==> res == ResampleInitialize(p, revs, e, r, picks)
  {
    if Assigned(e.labels[r]) then Success(e) else ResampleInitialize(p, revs, e, r, picks)
  }

  /** Number of unlabelled revisions: the pushes a uniform sweep can still make. */
  function Unlabelled(A: seq<Assignment>): (n: nat)
    ensures n <= |A|
  {
    if |A| == 0 then 0 else Unlabelled(A[..|A| - 1]) + (if Assigned(A[|A| - 1]) then 0 else 1)
  }

  lemma {:induction false} UnlabelledAssign(A: seq<Assignment>, r: int, a: Assignment)
    requires 0 <= r < |A| && !Assigned(A[r]) && Assigned(a)
    ensures Unlabelled(A[r := a]) + 1 == Unlabelled(A)
  {
    var n := |A| - 1;
    if r == n {
      assert A[r := a][..n] == A[..n];
    } else {
      UnlabelledAssign(A[..n], r, a);
      assert A[r := a][..n] == A[..n][r := a];
    }
  }

  /** Every labelled revision's parent is labelled: the shape a parents-first initialization keeps. */
  predicate ParentClosed(revs: seq<Revision>, A: seq<Assignment>)
    requires |A| == |revs|
  {
    forall x | 0 <= x < |revs| && Assigned(A[x]) && 0 <= revs[x].parent < |revs| :: Assigned(A[revs[x].parent])
  }

  /** Labels only appear: every labelled revision keeps its label, and a new label is the revision's draw. */
  predicate Grows(A: seq<Assignment>, B: seq<Assignment>, picks: seq<Assignment>)
    requires |A| == |B| == |picks|
  {
    forall x | 0 <= x < |A| :: B[x] == A[x] || (!Assigned(A[x]) && B[x] == picks[x])
  }

  /** Under ParentClosed the child of an unlabelled revision is unlabelled too. */
  lemma ChildOfUnlabelled(p: Params, revs: seq<Revision>, A: seq<Assignment>, r: int)
    requires ValidCorpus(p, revs) && ValidLabels(p, revs, A) && ParentClosed(revs, A)
    requires 0 <= r < |revs| && !Assigned(A[r])
    ensures ChildLabel(revs, A, r) == Unassigned
  {
    assert ValidRevision(p, revs, r);
    var c := revs[r].child;
    if 0 <= c < |A| {
      assert ValidRevision(p, revs, c);
      assert ValidLabel(p, A[c]);
    }
  }

  /**
   * One initialization of an unlabelled revision whose parent is labelled
   * (or absent), on a consistent thread with a queue slot for every
   * unlabelled revision: the add-only update keeps the thread consistent.
   */
  lemma IntroduceConsistent(p: Params, revs: seq<Revision>, e: Engine, r: int, a: Assignment)
    requires Consistent(p, revs, AddOnly, e) && e.last == |e.queue| && |e.queue| < Capacity(p)
    requires 0 <= r < |revs| && !Assigned(e.labels[r]) && InRange(p, a)
    requires ChildLabel(revs, e.labels, r) == Unassigned
    ensures ValidRevision(p, revs, r)
    ensures var res := Introduce(p, revs, e, r, WithoutChild(FillIndexPatch(revs, e.labels, r)), a);
            && res.Success?
            && Consistent(p, revs, AddOnly, res.value)
            && res.value.labels == e.labels[r := a]
            && |res.value.queue| == |e.queue| + 1
  {
    var A := e.labels;
    assert ValidRevision(p, revs, r);
    var patch := WithoutChild(FillIndexPatch(revs, A, r));
    var u := CreateIndexUpdate(patch, a);
    var e' := Introduce(p, revs, e, r, patch, a).value;
    assert ValidLabels(p, revs, e'.labels);
    CaughtUpIdle(AddOnly, e);
    IntroduceShape(p, revs, A, r, a);
    ExchangeQueued(p, revs, A, r, a, e, AddOnly, u);
    CaughtUpSameQueue(AddOnly, e.(queue := e.queue + [u]), e');
    PagesGained(revs, A, r, a, e.pages);
    UsersGained(p, revs, A, r, a, e.users);
  }

  /** The childless update of a first label, under apply_index_update_add, is the exchange of r's touched statistics. */
  lemma IntroduceShape(p: Params, revs: seq<Revision>, A: seq<Assignment>, r: int, a: Assignment)
    requires ValidCorpus(p, revs) && |A| == |revs| && 0 <= r < |revs|
    requires revs[r].parent < |revs| && revs[r].child < |revs|
    requires !Assigned(A[r]) && ChildLabel(revs, A, r) == Unassigned
    ensures var u := CreateIndexUpdate(WithoutChild(FillIndexPatch(revs, A, r)), a);
            && (forall l | l != Scratch :: Subtracted(AddOnly, u)[l] == multiset(Touched(revs, A, r))[l])
            && (forall l | l != Scratch :: Added(AddOnly, u)[l] == multiset(Touched(revs, A[r := a], r))[l])
            && Subtracted(AddOnly, u)[Scratch] <= 4
  {
    var u := CreateIndexUpdate(WithoutChild(FillIndexPatch(revs, A, r)), a);
    ChildlessShape(p, revs, A, r, a);
    assert Subtracted(AddOnly, u) == multiset{} && Added(AddOnly, u) == multiset(Touched(revs, A[r := a], r));
    ScratchOff(p, revs, A, r);
  }

  /**
   * The head of resample_initialize on an unlabelled revision whose parent
   * is labelled or absent: after catching up and introducing r's draw the
   * thread is consistent and ParentClosed, r holds its draw, one push
   * paid for one label, and what remains is the recursion into a child
   * with a smaller id, which is unlabelled and has r as its parent.
   */
  lemma InitializeHead(p: Params, revs: seq<Revision>, e: Engine, r: int, picks: seq<Assignment>) returns (e2: Engine)
    requires Consistent(p, revs, AddOnly, e) && ParentClosed(revs, e.labels)
    requires |e.queue| + Unlabelled(e.labels) <= Capacity(p)
    requires 0 <= r < |revs| == |picks| && InRange(p, picks[r])
    requires !Assigned(e.labels[r])
    requires 0 <= revs[r].parent < |revs| ==> Assigned(e.labels[revs[r].parent])
    ensures ValidRevision(p, revs, r)
    ensures InitializeHere(p, revs, e, r, picks[r]) == Success(e2)
    ensures Consistent(p, revs, AddOnly, e2) && ParentClosed(revs, e2.labels)
    ensures |e2.queue| + Unlabelled(e2.labels) == |e.queue| + Unlabelled(e.labels)
    ensures e2.labels == e.labels[r := picks[r]]
    ensures 0 <= revs[r].child < r ==> e2.labels[revs[r].child] == Unassigned && revs[revs[r].child].parent == r
  {
    assert ValidRevision(p, revs, r);
    var v := revs[r];
    var A := e.labels;
    var a := picks[r];
    CatchUpConsistent(p, revs, AddOnly, e);
    var e1 := CatchUp(AddOnly, e).value;
    CaughtUpIdle(AddOnly, e1);
    ChildOfUnlabelled(p, revs, A, r);
    UnlabelledAssign(A, r, a);
    IntroduceConsistent(p, revs, e1, r, a);
    e2 := Introduce(p, revs, e1, r, WithoutChild(FillIndexPatch(revs, A, r)), a).value;
    ParentClosedGains(p, revs, A, r, a);
  }

  /**
   * Labelling an unlabelled revision whose parent is labelled (or absent)
   * keeps ParentClosed, and leaves its child unlabelled with r as its
   * parent.
   */
  lemma ParentClosedGains(p: Params, revs: seq<Revision>, A: seq<Assignment>, r: int, a: Assignment)
    requires ValidCorpus(p, revs) && ValidLabels(p, revs, A) && ParentClosed(revs, A)
    requires 0 <= r < |revs| && !Assigned(A[r])
    requires 0 <= revs[r].parent < |revs| ==> Assigned(A[revs[r].parent])
    ensures ParentClosed(revs, A[r := a])
    ensures 0 <= revs[r].child < |revs| ==> A[r := a][revs[r].child] == Unassigned && revs[revs[r].child].parent == r
  {
    forall x | 0 <= x < |revs| && Assigned(A[r := a][x]) && 0 <= revs[x].parent < |revs|
      ensures Assigned(A[r := a][revs[x].parent])
    {
      assert ValidRevision(p, revs, x);
    }
    assert ValidRevision(p, revs, r);
    var c := revs[r].child;
    if 0 <= c < |revs| {
      assert ValidRevision(p, revs, c);
      assert ValidLabel(p, A[c]);
    }
  }

  /** Labels that only appear compose. */
  lemma GrowsTwice(A: seq<Assignment>, B: seq<Assignment>, C: seq<Assignment>, picks: seq<Assignment>)
    requires |A| == |B| == |C| == |picks| && Grows(A, B, picks) && Grows(B, C, picks)
    ensures Grows(A, C, picks)
  {
    forall x | 0 <= x < |A|
      ensures C[x] == A[x] || (!Assigned(A[x]) && C[x] == picks[x])
    {
      if B[x] != A[x] && C[x] != B[x] {
        assert !Assigned(B[x]);
      }
    }
  }

  /**
   * resample_initialize on an unlabelled revision, with ParentClosed
   * labels, a slot for every unlabelled revision and in-range draws,
   * fires no assert when its parent is labelled or comes later, keeps
   * the thread consistent and ParentClosed, and only adds labels, each
   * push paying for one of them. r is labelled unless it was skipped.
   */
  lemma {:induction false} InitializeConsistent(p: Params, revs: seq<Revision>, e: Engine, r: int, picks: seq<Assignment>)
    requires Consistent(p, revs, AddOnly, e) && ParentClosed(revs, e.labels)
    requires |e.queue| + Unlabelled(e.labels) <= Capacity(p)
    requires 0 <= r < |revs| == |picks| && forall x | 0 <= x < |picks| :: InRange(p, picks[x])
    requires !Assigned(e.labels[r])
    requires 0 <= revs[r].parent < |revs| && !Assigned(e.labels[revs[r].parent]) ==> revs[r].parent > r
    ensures var res := ResampleInitialize(p, revs, e, r, picks);
            && res.Success?
            && Consistent(p, revs, AddOnly, res.value) && ParentClosed(revs, res.value.labels)
            && |res.value.queue| + Unlabelled(res.value.labels) == |e.queue| + Unlabelled(e.labels)
            && Grows(e.labels, res.value.labels, picks)
            && if 0 <= revs[r].parent < |revs| && !Assigned(e.labels[revs[r].parent]) then res.value == e
               else res.value.labels[r] == picks[r]
    decreases r
  {
    assert ValidRevision(p, revs, r);
    var v := revs[r];
    if v.parent >= 0 && !Assigned(e.labels[v.parent]) {
      return;
    }
    var e2 := InitializeHead(p, revs, e, r, picks);
    GrowsOne(e.labels, r, picks);
    InitializeUnfold(p, revs, e, r, picks, e2);
    var c := v.child;
    if 0 <= c < r {
      InitializeConsistent(p, revs, e2, c, picks);
      var e3 := ResampleInitialize(p, revs, e2, c, picks).value;
      GrowsTwice(e.labels, e2.labels, e3.labels, picks);
      assert e3.labels[r] == e2.labels[r];
    }
  }

  lemma GrowsOne(A: seq<Assignment>, r: int, picks: seq<Assignment>)
    requires 0 <= r < |A| == |picks| && !Assigned(A[r])
    ensures Grows(A, A[r := picks[r]], picks)
  {
  }

  /** One unfolding of resample_initialize past its head. */
  lemma InitializeUnfold(p: Params, revs: seq<Revision>, e: Engine, r: int, picks: seq<Assignment>, e2: Engine)
    requires 0 <= r < |revs| == |e.labels| == |picks| && QueueShape(e)
    requires -1 <= revs[r].parent < |revs| && revs[r].child < |revs|
    requires 0 <= revs[r].parent ==> Assigned(e.labels[revs[r].parent])
    requires InitializeHere(p, revs, e, r, picks[r]) == Success(e2)
    requires 0 <= revs[r].child < r ==> e2.labels[revs[r].child] == Unassigned
    ensures var c := revs[r].child;
            ResampleInitialize(p, revs, e, r, picks)
            == if 0 <= c < r then ResampleInitialize(p, revs, e2, c, picks) else Success(e2)
  {
  }

  // ------------------------------------------------------------- destroy

  /**
   * The tail of resample_destroy: write -1/-1, queue the update, and take
   * one count out of the user's entry and one revision out of the page
   * vector of the old label; either going negative is a fault.
   */
  function Retire(p: Params, revs: seq<Revision>, e: Engine, r: int, patch: IndexPatch): (res: Result<Engine>)
    requires 0 <= r < |revs| && |e.labels| == |revs|
    ensures var prev := Assignment(patch.topic, patch.pov);
            res.Success? <==> InRange(p, prev) && 0 <= revs[r].user < p.numUsers && 0 <= revs[r].article < p.numPages
                              && |e.queue| < Capacity(p)
                              && UserGet(e.users, revs[r].user, prev.topic, prev.pov) >= 1.0
                              && PageGet(e.pages, prev.topic, revs[r].article) >= 1
    ensures var prev := Assignment(patch.topic, patch.pov);
            res.Success? ==> res.value == e.(labels := e.labels[r := Unassigned],
                                             queue := e.queue + [CreateIndexUpdate(patch, Unassigned)],
                                             users := AddUser(e.users, revs[r].user, prev.topic, prev.pov, -1.0),
                                             pages := AddPage(e.pages, prev.topic, revs[r].article, -1))
  {
    var prev := Assignment(patch.topic, patch.pov);
    var user, page := revs[r].user, revs[r].article;
    if !InRange(p, prev) || !(0 <= user < p.numUsers) || !(0 <= page < p.numPages) then Failure(OutOfRange)
    else
      var e1 :- PushQueue(p, e.(labels := e.labels[r := Unassigned]), CreateIndexUpdate(patch, Unassigned));
      if UserGet(e1.users, user, prev.topic, prev.pov) - 1.0 < 0.0 then Failure(NegativeCounter)
      else if PageGet(e1.pages, prev.topic, page) - 1 < 0 then Failure(NegativeCounter)
      else Success(e1.(users := AddUser(e1.users, user, prev.topic, prev.pov, -1.0),
                       pages := AddPage(e1.pages, prev.topic, page, -1)))
  }

  /**
   * resample_destroy: catch up on the queue, then take r's label out with
   * the child half of its patch forced to -1. An unlabelled revision
   * addresses entry -1 of its user's distribution and is out of range.
   */
  function ResampleDestroy(p: Params, revs: seq<Revision>, e: Engine, r: int): (res: Result<Engine>)
    requires 0 <= r < |revs| == |e.labels| && revs[r].parent < |revs| && revs[r].child < |revs| && QueueShape(e)
    ensures res.Success? ==> InRange(p, e.labels[r])
    ensures res.Success? ==> res.value.labels == e.labels[r := Unassigned] && QueueShape(res.value)
                             && |res.value.queue| == |e.queue| + 1
  {
    var patch := WithoutChild(FillIndexPatch(revs, e.labels, r));
    var e1 :- CatchUp(SubOnly, e);
    Retire(p, revs, e1, r, patch)
  }

  /**
   * Taking out a labelled revision whose child is unlabelled or absent,
   * on a drained consistent thread with room in the queue, fires no
   * assert and keeps the thread consistent under apply_index_update_sub.
   */
  lemma RetireConsistent(p: Params, revs: seq<Revision>, e: Engine, r: int)
    requires Consistent(p, revs, SubOnly, e) && e.last == |e.queue| && |e.queue| < Capacity(p)
    requires 0 <= r < |revs| && InRange(p, e.labels[r])
    requires ChildLabel(revs, e.labels, r) == Unassigned && p.header.alpha >= 0.0
    ensures ValidRevision(p, revs, r)
    ensures var res := Retire(p, revs, e, r, WithoutChild(FillIndexPatch(revs, e.labels, r)));
            && res.Success?
            && Consistent(p, revs, SubOnly, res.value)
            && res.value.labels == e.labels[r := Unassigned]
  {
    var A := e.labels;
    assert ValidRevision(p, revs, r);
    var patch := WithoutChild(FillIndexPatch(revs, A, r));
    var u := CreateIndexUpdate(patch, Unassigned);
    UserCountsSelf(revs, A, r);
    PageCountsSelf(revs, A, r);
    var e' := Retire(p, revs, e, r, patch).value;
    assert ValidLabels(p, revs, e'.labels);
    CaughtUpIdle(SubOnly, e);
    RetireShape(p, revs, A, r);
    ExchangeQueued(p, revs, A, r, Unassigned, e, SubOnly, u);
    CaughtUpSameQueue(SubOnly, e.(queue := e.queue + [u]), e');
    PagesLost(revs, A, r, e.pages);
    UsersLost(p, revs, A, r, e.users);
  }

  /** The childless update of a take-out, under apply_index_update_sub, is the exchange of r's touched statistics. */
  lemma RetireShape(p: Params, revs: seq<Revision>, A: seq<Assignment>, r: int)
    requires ValidCorpus(p, revs) && |A| == |revs| && 0 <= r < |revs|
    requires revs[r].parent < |revs| && revs[r].child < |revs|
    requires ChildLabel(revs, A, r) == Unassigned
    ensures var u := CreateIndexUpdate(WithoutChild(FillIndexPatch(revs, A, r)), Unassigned);
            && (forall l | l != Scratch :: Subtracted(SubOnly, u)[l] == multiset(Touched(revs, A, r))[l])
            && (forall l | l != Scratch :: Added(SubOnly, u)[l] == multiset(Touched(revs, A[r := Unassigned], r))[l])
            && Subtracted(SubOnly, u)[Scratch] <= 4
  {
    var u := CreateIndexUpdate(WithoutChild(FillIndexPatch(revs, A, r)), Unassigned);
    var t := Touched(revs, A, r);
    ChildlessShape(p, revs, A, r, Unassigned);
    assert Subtracted(SubOnly, u) == multiset(t) && Added(SubOnly, u) == multiset{};
    assert ValidRevision(p, revs, r);
    assert ChildLabel(revs, A[r := Unassigned], r) == Unassigned;
    ScratchOff(p, revs, A[r := Unassigned], r);
    CountOfFour(t[0], t[1], t[2], t[3], Scratch);
    assert t == [t[0], t[1], t[2], t[3]];
  }

  /** An unlabelled revision with an unlabelled or absent child touches nothing but the scratch slot. */
  lemma ScratchOff(p: Params, revs: seq<Revision>, B: seq<Assignment>, r: int)
    requires ValidCorpus(p, revs) && |B| == |revs| && 0 <= r < |revs|
    requires !Assigned(B[r]) && ChildLabel(revs, B, r) == Unassigned
    ensures forall l | l != Scratch :: multiset(Touched(revs, B, r))[l] == 0
  {
    ScratchTouched(p, revs, B, r);
    forall l | l != Scratch
      ensures multiset(Touched(revs, B, r))[l] == 0
    {
      CountOfFour(Scratch, Scratch, Scratch, Scratch, l);
    }
  }

  /** resample_destroy keeps a consistent thread consistent when r's child is already unlabelled. */
  lemma DestroyConsistent(p: Params, revs: seq<Revision>, e: Engine, r: int)
    requires Consistent(p, revs, SubOnly, e) && |e.queue| < Capacity(p)
    requires 0 <= r < |revs| && InRange(p, e.labels[r])
    requires ChildLabel(revs, e.labels, r) == Unassigned && p.header.alpha >= 0.0
    ensures ValidRevision(p, revs, r)
    ensures var res := ResampleDestroy(p, revs, e, r);
            && res.Success?
            && Consistent(p, revs, SubOnly, res.value)
            && res.value.labels == e.labels[r := Unassigned]
  {
    assert ValidRevision(p, revs, r);
    CatchUpConsistent(p, revs, SubOnly, e);
    var e1 := CatchUp(SubOnly, e).value;
    CaughtUpIdle(SubOnly, e1);
    RetireConsistent(p, revs, e1, r);
  }

  /**
   * What check_indexes asserts after resample_zero: on a consistent
   * thread whose labels are all -1/-1, every statistic but the scratch
   * slot is zero once the queue is applied, every page vector entry is
   * zero and every user entry is back to alpha.
   */
  lemma UnlabelledIsZero(p: Params, revs: seq<Revision>, mode: Applier, e: Engine)
    requires Consistent(p, revs, mode, e)
    requires forall x | 0 <= x < |e.labels| :: !Assigned(e.labels[x])
    ensures forall l | l != Scratch :: Get(CaughtUp(mode, e).value.0, l) == 0
    ensures forall t, page :: PageGet(e.pages, t, page) == 0
    ensures forall u, t, pov | 0 <= u < p.numUsers && 0 <= t < p.T() && 0 <= pov < p.P() ::
              UserGet(e.users, u, t, pov) == p.header.alpha
  {
    forall x | 0 <= x < |e.labels|
      ensures e.labels[x] == Unassigned
    {
      assert ValidLabel(p, e.labels[x]);
    }
    NothingCountedWhenUnassigned(revs, e.labels, |revs|);
    assert Feeds(revs, e.labels)[..|revs|] == Feeds(revs, e.labels);
  }
}
