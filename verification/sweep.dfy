/**
 * One sweep of src/sample.c. resample_internal installs a revision
 * callback, an index update function (the applier) and a direction in
 * every thread; each thread walks its pages (resample_pages_modn) and
 * each page's revision list (resample_page), calling the callback on
 * every revision; at the end every thread is reset and the queue cursor
 * rewound. The model runs one thread's walk; with one thread that walk
 * is every page list in order.
 *
 * Draws are parameters indexed by revision id: a sweep calls the
 * callback on each revision once, so the random numbers it consumes can
 * be named by the revision they are drawn for.
 */
module Sweep {
  import opened Records
  import opened Updates
  import opened Recount
  import opened Probability
  import opened Engine
  import opened Resample
  import opened Relabel
  import opened Pages

  /** The revision callbacks a sweep can install. */
  datatype Callback =
    | Revise(choosers: seq<Chooser>)
    | InitializeAsWritten(picks: seq<Assignment>)
    | Initialize(picks: seq<Assignment>)
    | Forget
    | Destroy
    | Restore(reference: seq<Assignment>)

  /** The per-revision draws cover every revision id. */
  predicate Fits(revs: seq<Revision>, cb: Callback) {
    match cb
    case Revise(choosers) => |choosers| == |revs|
    case InitializeAsWritten(picks) => |picks| == |revs|
    case Initialize(picks) => |picks| == |revs|
    case Restore(reference) => |reference| == |revs|
    case _ => true
  }

  /**
   * One callback on revision r: resample_revision, resample_initialize
   * (as written, or the corrected once-only version), null_assignment,
   * resample_destroy or resample_assign. All but null_assignment read r's
   * parent and child, which must lie inside the revision region.
   */
  function Step(p: Params, revs: seq<Revision>, cb: Callback, e: Engine, r: int): (res: Result<Engine>)
    requires ValidParams(p) && 0 <= r < |revs| == |e.labels| && Fits(revs, cb) && QueueShape(e)
    ensures res.Success? ==> |res.value.labels| == |revs| && QueueShape(res.value) && |e.queue| <= |res.value.queue|
  {
    if cb.Forget? then Success(NullAssignment(e, r))
    else if !(revs[r].parent < |revs| && revs[r].child < |revs|) then Failure(OutOfRange)
    else match cb
      case Revise(choosers) => ResampleRevision(p, revs, e, r, choosers[r])
      case InitializeAsWritten(picks) => ResampleInitialize(p, revs, e, r, picks)
      case Initialize(picks) => InitializeOnce(p, revs, e, r, picks)
      case Destroy => ResampleDestroy(p, revs, e, r)
      case Restore(reference) => ResampleAssign(p, revs, e, r, reference)
  }

  predicate IdsIn(order: seq<int>, n: int) {
    forall i | 0 <= i < |order| :: 0 <= order[i] < n
  }

  /** The callback on each revision of `order` in turn; an id outside the revision region is out of range. */
  function Run(p: Params, revs: seq<Revision>, cb: Callback, e: Engine, order: seq<int>): (res: Result<Engine>)
    requires ValidParams(p) && |revs| == |e.labels| && Fits(revs, cb) && QueueShape(e)
    ensures res.Success? ==> |res.value.labels| == |revs| && QueueShape(res.value) && |e.queue| <= |res.value.queue|
    decreases |order|
  {
    if |order| == 0 then Success(e)
    else
      var e1 :- Run(p, revs, cb, e, order[..|order| - 1]);
      var r := order[|order| - 1];
      if !(0 <= r < |revs|) then Failure(OutOfRange) else Step(p, revs, cb, e1, r)
  }

  /** The first i entries of a run, and the run that follows them. */
  lemma RunSplit(p: Params, revs: seq<Revision>, cb: Callback, e: Engine, order: seq<int>)
    requires ValidParams(p) && |revs| == |e.labels| && Fits(revs, cb) && QueueShape(e) && |order| > 0
    ensures var front, r := order[..|order| - 1], order[|order| - 1];
            Run(p, revs, cb, e, order)
            == match Run(p, revs, cb, e, front)
               case Failure(f) => Failure(f)
               case Success(e1) => if 0 <= r < |revs| then Step(p, revs, cb, e1, r) else Failure(OutOfRange)
  {
  }

  /**
   * A null sweep's run (resample_null) succeeds exactly when every id is
   * a revision, turns the visited revisions' labels to -1/-1, keeps every
   * other label and touches no statistic and no queue entry.
   */
  lemma {:induction false} ForgetRun(p: Params, revs: seq<Revision>, e: Engine, order: seq<int>)
    requires ValidParams(p) && |revs| == |e.labels| && QueueShape(e)
    ensures var res := Run(p, revs, Forget, e, order);
            && (res.Success? <==> IdsIn(order, |revs|))
            && (res.Success? ==>
                  && (forall x | 0 <= x < |revs| :: res.value.labels[x] == if x in order then Unassigned else e.labels[x])
                  && res.value.summary == e.summary && res.value.pages == e.pages && res.value.users == e.users
                  && res.value.queue == e.queue && res.value.last == e.last)
    decreases |order|
  {
    if |order| > 0 {
      var front, r := order[..|order| - 1], order[|order| - 1];
      ForgetRun(p, revs, e, front);
      RunSplit(p, revs, Forget, e, order);
      if IdsIn(order, |revs|) {
        assert IdsIn(front, |revs|);
        var e1 := Run(p, revs, Forget, e, front).value;
        var res := Run(p, revs, Forget, e, order).value;
        assert res == NullAssignment(e1, r);
        forall x | 0 <= x < |revs|
          ensures res.labels[x] == if x in order then Unassigned else e.labels[x]
        {
          assert x in order <==> x in front || x == r;
        }
      }
    }
  }

  /**
   * A resample sweep's run (resample, resample_reverse or
   * resample_maximize) on a consistent, fully labelled thread with a
   * queue slot per visited revision fires none of the source's asserts,
   * keeps the thread consistent and fully labelled, and leaves the
   * labels of unvisited revisions alone.
   */
  lemma {:induction false} ReviseRunConsistent(p: Params, revs: seq<Revision>, e: Engine, order: seq<int>, choosers: seq<Chooser>)
    requires Consistent(p, revs, Both, e) && AllInRange(p, e.labels)
    requires |e.queue| + |order| <= Capacity(p) && IdsIn(order, |revs|)
    requires |choosers| == |revs| && forall x | 0 <= x < |choosers| && choosers[x].Draw? :: 0.0 <= choosers[x].u < 1.0
    requires PositivePriors(p.header) && p.header.alpha > 0.0
    ensures var res := Run(p, revs, Revise(choosers), e, order);
            && res.Success? && Consistent(p, revs, Both, res.value) && AllInRange(p, res.value.labels)
            && |res.value.queue| <= |e.queue| + |order|
            && forall x | 0 <= x < |revs| && x !in order :: res.value.labels[x] == e.labels[x]
    decreases |order|
  {
    if |order| > 0 {
      var front, r := order[..|order| - 1], order[|order| - 1];
      ReviseRunConsistent(p, revs, e, front, choosers);
      RunSplit(p, revs, Revise(choosers), e, order);
      var e1 := Run(p, revs, Revise(choosers), e, front).value;
      ReviseStep(p, revs, e1, r, choosers);
      var res := Run(p, revs, Revise(choosers), e, order).value;
      forall x | 0 <= x < |revs| && x !in order
        ensures res.labels[x] == e.labels[x]
      {
        assert x !in front;
      }
    }
  }

  /** One resample_revision call of a resample sweep, in the terms the run needs. */
  lemma ReviseStep(p: Params, revs: seq<Revision>, e: Engine, r: int, choosers: seq<Chooser>)
    requires Consistent(p, revs, Both, e) && AllInRange(p, e.labels) && |e.queue| < Capacity(p) && 0 <= r < |revs|
    requires |choosers| == |revs| && (choosers[r].Draw? ==> 0.0 <= choosers[r].u < 1.0)
    requires PositivePriors(p.header) && p.header.alpha > 0.0
    ensures var res := Step(p, revs, Revise(choosers), e, r);
            && res.Success? && Consistent(p, revs, Both, res.value) && AllInRange(p, res.value.labels)
            && |res.value.queue| <= |e.queue| + 1
            && forall x | 0 <= x < |revs| && x != r :: res.value.labels[x] == e.labels[x]
  {
    assert ValidRevision(p, revs, r);
    assert Step(p, revs, Revise(choosers), e, r) == ResampleRevision(p, revs, e, r, choosers[r]);
    ResampleRevisionConsistent(p, revs, e, r, choosers[r]);
  }

  /**
   * A restore sweep's run (resample_restore) on a consistent, fully
   * labelled thread with a queue slot per visited revision fires no
   * assert, keeps the thread consistent, and gives every visited revision
   * its reference label and every other revision its old one.
   */
  lemma {:induction false} RestoreRunConsistent(p: Params, revs: seq<Revision>, e: Engine, order: seq<int>, reference: seq<Assignment>)
    requires Consistent(p, revs, Both, e) && AllInRange(p, e.labels)
    requires |e.queue| + |order| <= Capacity(p) && IdsIn(order, |revs|)
    requires |reference| == |revs| && AllInRange(p, reference) && p.header.alpha >= 0.0
    ensures var res := Run(p, revs, Restore(reference), e, order);
            && res.Success? && Consistent(p, revs, Both, res.value) && AllInRange(p, res.value.labels)
            && |res.value.queue| <= |e.queue| + |order|
            && forall x | 0 <= x < |revs| :: res.value.labels[x] == if x in order then reference[x] else e.labels[x]
    decreases |order|
  {
    if |order| > 0 {
      var front, r := order[..|order| - 1], order[|order| - 1];
      RestoreRunConsistent(p, revs, e, front, reference);
      RunSplit(p, revs, Restore(reference), e, order);
      var e1 := Run(p, revs, Restore(reference), e, front).value;
      RestoreStep(p, revs, e1, r, reference);
      var res := Run(p, revs, Restore(reference), e, order).value;
      forall x | 0 <= x < |revs|
        ensures res.labels[x] == if x in order then reference[x] else e.labels[x]
      {
        assert x in order <==> x in front || x == r;
      }
    }
  }

  lemma RestoreStep(p: Params, revs: seq<Revision>, e: Engine, r: int, reference: seq<Assignment>)
    requires Consistent(p, revs, Both, e) && AllInRange(p, e.labels) && |e.queue| < Capacity(p) && 0 <= r < |revs|
    requires |reference| == |revs| && AllInRange(p, reference) && p.header.alpha >= 0.0
    ensures var res := Step(p, revs, Restore(reference), e, r);
            && res.Success? && Consistent(p, revs, Both, res.value) && AllInRange(p, res.value.labels)
            && |res.value.queue| <= |e.queue| + 1
            && res.value.labels == e.labels[r := reference[r]]
  {
    assert ValidRevision(p, revs, r);
    assert Step(p, revs, Restore(reference), e, r) == ResampleAssign(p, revs, e, r, reference);
    ResampleAssignConsistent(p, revs, e, r, reference);
  }

  /** Every revision's parent is visited before it (or it has none). */
  predicate ParentsFirst(revs: seq<Revision>, order: seq<int>) {
    forall i | 0 <= i < |order| && 0 <= order[i] < |revs| && revs[order[i]].parent >= 0 :: revs[order[i]].parent in order[..i]
  }

  /** Every revision's child is visited before it (or it has none). */
  predicate ChildrenFirst(revs: seq<Revision>, order: seq<int>) {
    forall i | 0 <= i < |order| && 0 <= order[i] < |revs| && revs[order[i]].child >= 0 :: revs[order[i]].child in order[..i]
  }

  lemma ParentsFirstPrefix(revs: seq<Revision>, order: seq<int>)
    requires |order| > 0 && ParentsFirst(revs, order)
    ensures ParentsFirst(revs, order[..|order| - 1])
  {
    var front := order[..|order| - 1];
    forall i | 0 <= i < |front| && 0 <= front[i] < |revs| && revs[front[i]].parent >= 0
      ensures revs[front[i]].parent in front[..i]
    {
      assert front[..i] == order[..i];
    }
  }

  lemma ChildrenFirstPrefix(revs: seq<Revision>, order: seq<int>)
    requires |order| > 0 && ChildrenFirst(revs, order)
    ensures ChildrenFirst(revs, order[..|order| - 1])
  {
    var front := order[..|order| - 1];
    forall i | 0 <= i < |front| && 0 <= front[i] < |revs| && revs[front[i]].child >= 0
      ensures revs[front[i]].child in front[..i]
    {
      assert front[..i] == order[..i];
    }
  }

  /**
   * A uniform sweep's run (resample_uniform, with the corrected
   * initializer) over an order that visits every parent before its
   * child, on a consistent ParentClosed thread with a queue slot for every
   * unlabelled revision and in-range draws: no assert fires, the thread
   * stays consistent, every visited revision ends labelled, labels only
   * appear (each new one the revision's draw) and each push pays for one
   * new label.
   */
  lemma {:induction false} UniformRunConsistent(p: Params, revs: seq<Revision>, e: Engine, order: seq<int>, picks: seq<Assignment>)
    requires Consistent(p, revs, AddOnly, e) && ParentClosed(revs, e.labels)
    requires |e.queue| + Unlabelled(e.labels) <= Capacity(p)
    requires |picks| == |revs| && AllInRange(p, picks)
    requires IdsIn(order, |revs|) && ParentsFirst(revs, order)
    ensures var res := Run(p, revs, Initialize(picks), e, order);
            && res.Success? && Consistent(p, revs, AddOnly, res.value) && ParentClosed(revs, res.value.labels)
            && |res.value.queue| + Unlabelled(res.value.labels) == |e.queue| + Unlabelled(e.labels)
            && Grows(e.labels, res.value.labels, picks)
            && forall i | 0 <= i < |order| :: Assigned(res.value.labels[order[i]])
    decreases |order|
  {
    if |order| > 0 {
      var front, r := order[..|order| - 1], order[|order| - 1];
      ParentsFirstPrefix(revs, order);
      UniformRunConsistent(p, revs, e, front, picks);
      RunSplit(p, revs, Initialize(picks), e, order);
      var e1 := Run(p, revs, Initialize(picks), e, front).value;
      var v := revs[r];
      assert ValidRevision(p, revs, r);
      assert v.parent >= 0 ==> v.parent in front;
      UniformStep(p, revs, e1, r, picks);
      var res := Run(p, revs, Initialize(picks), e, order).value;
      GrowsTwice(e.labels, e1.labels, res.labels, picks);
      VisitedStayAssigned(order, e1.labels, res.labels, picks);
    }
  }

  /** Labels that only grow keep the earlier visits labelled. */
  lemma VisitedStayAssigned(order: seq<int>, A: seq<Assignment>, B: seq<Assignment>, picks: seq<Assignment>)
    requires |order| > 0 && |A| == |B| == |picks| && IdsIn(order, |A|) && Grows(A, B, picks)
    requires var front := order[..|order| - 1]; forall i | 0 <= i < |front| :: Assigned(A[front[i]])
    requires Assigned(B[order[|order| - 1]])
    ensures forall i | 0 <= i < |order| :: Assigned(B[order[i]])
  {
    var front := order[..|order| - 1];
    forall i | 0 <= i < |order|
      ensures Assigned(B[order[i]])
    {
      if i < |front| {
        assert order[i] == front[i];
      }
    }
  }

  /** One call of the corrected initializer on a revision whose parent is labelled or absent. */
  lemma UniformStep(p: Params, revs: seq<Revision>, e: Engine, r: int, picks: seq<Assignment>)
    requires Consistent(p, revs, AddOnly, e) && ParentClosed(revs, e.labels)
    requires |e.queue| + Unlabelled(e.labels) <= Capacity(p)
    requires |picks| == |revs| && AllInRange(p, picks) && 0 <= r < |revs|
    requires 0 <= revs[r].parent < |revs| ==> Assigned(e.labels[revs[r].parent])
    ensures var res := Step(p, revs, Initialize(picks), e, r);
            && res.Success? && Consistent(p, revs, AddOnly, res.value) && ParentClosed(revs, res.value.labels)
            && |res.value.queue| + Unlabelled(res.value.labels) == |e.queue| + Unlabelled(e.labels)
            && Grows(e.labels, res.value.labels, picks)
            && Assigned(res.value.labels[r])
  {
    assert ValidRevision(p, revs, r);
    assert Step(p, revs, Initialize(picks), e, r) == InitializeOnce(p, revs, e, r, picks);
    if !Assigned(e.labels[r]) {
      InitializeConsistent(p, revs, e, r, picks);
    }
  }

  /**
   * A zero sweep's run (resample_zero) over distinct revisions, each
   * visited after its child, on a consistent thread with a queue slot per
   * visited revision and every visited revision labelled: no assert
   * fires, the thread stays consistent under apply_index_update_sub, and
   * exactly the visited revisions end unlabelled.
   */
  lemma {:induction false} ZeroRunConsistent(p: Params, revs: seq<Revision>, e: Engine, order: seq<int>)
    requires Consistent(p, revs, SubOnly, e) && |e.queue| + |order| <= Capacity(p) && p.header.alpha >= 0.0
    requires IdsIn(order, |revs|) && Distinct(order) && ChildrenFirst(revs, order)
    requires forall i | 0 <= i < |order| :: InRange(p, e.labels[order[i]])
    ensures var res := Run(p, revs, Destroy, e, order);
            && res.Success? && Consistent(p, revs, SubOnly, res.value)
            && |res.value.queue| == |e.queue| + |order|
            && forall x | 0 <= x < |revs| :: res.value.labels[x] == if x in order then Unassigned else e.labels[x]
    decreases |order|
  {
    if |order| > 0 {
      var front, r := order[..|order| - 1], order[|order| - 1];
      ZeroPrefix(revs, order);
      ZeroRunConsistent(p, revs, e, front);
      RunSplit(p, revs, Destroy, e, order);
      var e1 := Run(p, revs, Destroy, e, front).value;
      assert ValidRevision(p, revs, r);
      ZeroStep(p, revs, e1, r);
      ClearVisits(order, e.labels, e1.labels, Run(p, revs, Destroy, e, order).value.labels);
    }
  }

  /** The order facts a zero run needs about its prefix and its last id. */
  lemma ZeroPrefix(revs: seq<Revision>, order: seq<int>)
    requires |order| > 0 && IdsIn(order, |revs|) && Distinct(order) && ChildrenFirst(revs, order)
    ensures var front, r := order[..|order| - 1], order[|order| - 1];
            && IdsIn(front, |revs|) && Distinct(front) && ChildrenFirst(revs, front)
            && r !in front && (revs[r].child >= 0 ==> revs[r].child in front)
  {
    ChildrenFirstPrefix(revs, order);
  }

  /** Clearing the last id of a run on top of clearing the others clears them all. */
  lemma ClearVisits(order: seq<int>, A: seq<Assignment>, B: seq<Assignment>, C: seq<Assignment>)
    requires |order| > 0 && |A| == |B| && 0 <= order[|order| - 1] < |B|
    requires forall x | 0 <= x < |A| :: B[x] == if x in order[..|order| - 1] then Unassigned else A[x]
    requires C == B[order[|order| - 1] := Unassigned]
    ensures forall x | 0 <= x < |A| :: C[x] == if x in order then Unassigned else A[x]
  {
    var front, r := order[..|order| - 1], order[|order| - 1];
    forall x | 0 <= x < |A|
      ensures C[x] == if x in order then Unassigned else A[x]
    {
      assert x in order <==> x in front || x == r;
    }
  }

  lemma ZeroStep(p: Params, revs: seq<Revision>, e: Engine, r: int)
    requires Consistent(p, revs, SubOnly, e) && |e.queue| < Capacity(p) && p.header.alpha >= 0.0
    requires 0 <= r < |revs| && InRange(p, e.labels[r]) && ChildLabel(revs, e.labels, r) == Unassigned
    ensures var res := Step(p, revs, Destroy, e, r);
            && res.Success? && Consistent(p, revs, SubOnly, res.value)
            && |res.value.queue| == |e.queue| + 1
            && res.value.labels == e.labels[r := Unassigned]
  {
    assert ValidRevision(p, revs, r);
    assert Step(p, revs, Destroy, e, r) == ResampleDestroy(p, revs, e, r);
    DestroyConsistent(p, revs, e, r);
  }

  // ------------------------------------------------- the double count

  /**
   * resample_initialize as written, over a page whose list holds a
   * parent r before its child c with a smaller id (the order fill_mmaps
   * gives when ids are not in file order). Initializing r recurses into
   * c; visiting c afterwards initializes it again. The run pushes three
   * updates for two labels: when the queue has exactly one slot per
   * unlabelled revision, as after resample_null, the third push is a
   * QueueOverflow, which in the C is a write past the end of the queue
   * buffer (push_queue checks nothing); with room to spare, c's page is
   * counted twice under its topic. The model's second initialization of
   * c reuses c's draw, where the C draws afresh; the double count of c's
   * page does not depend on which label the second draw picks.
   */
  lemma InitializeTwice(p: Params, revs: seq<Revision>, e: Engine, r: int, picks: seq<Assignment>)
    requires Consistent(p, revs, AddOnly, e) && ParentClosed(revs, e.labels)
    requires |e.queue| + Unlabelled(e.labels) == Capacity(p) && Unlabelled(e.labels) == 2
    requires |picks| == |revs| && AllInRange(p, picks)
    requires 0 <= r < |revs| && revs[r].parent == NoId && !Assigned(e.labels[r])
    requires 0 <= revs[r].child < r && revs[revs[r].child].child == NoId
    ensures var c := revs[r].child;
            && ParentsFirst(revs, [r, c])
            && Run(p, revs, InitializeAsWritten(picks), e, [r, c]) == Failure(QueueOverflow)
  {
    assert ValidRevision(p, revs, r);
    var c := revs[r].child;
    assert ValidRevision(p, revs, c);
    ParentThenChild(revs, r, c);
    var e3 := FirstVisit(p, revs, e, r, picks);
    RunTwo(p, revs, InitializeAsWritten(picks), e, r, c);
    SecondVisit(p, revs, e3, c, picks);
  }

  lemma ParentThenChild(revs: seq<Revision>, r: int, c: int)
    requires 0 <= r < |revs| && 0 <= c < |revs| && revs[r].parent < 0 && revs[c].parent == r
    ensures ParentsFirst(revs, [r, c])
  {
    assert [r, c][..1] == [r];
  }

  /** With room to spare in the queue, the same run succeeds but counts c's page twice. */
  lemma InitializeTwiceCounts(p: Params, revs: seq<Revision>, e: Engine, r: int, picks: seq<Assignment>)
    requires Consistent(p, revs, AddOnly, e) && ParentClosed(revs, e.labels)
    requires |e.queue| + Unlabelled(e.labels) < Capacity(p)
    requires |picks| == |revs| && AllInRange(p, picks)
    requires 0 <= r < |revs| && revs[r].parent == NoId && !Assigned(e.labels[r])
    requires 0 <= revs[r].child < r && revs[revs[r].child].child == NoId
    ensures var c := revs[r].child;
            var res := Run(p, revs, InitializeAsWritten(picks), e, [r, c]);
            && res.Success? && res.value.labels[c] == picks[c]
            && |res.value.queue| + Unlabelled(res.value.labels) == |e.queue| + Unlabelled(e.labels) + 1
            && !PagesAgree(revs, res.value.labels, res.value.pages)
  {
    assert ValidRevision(p, revs, r);
    var c := revs[r].child;
    assert ValidRevision(p, revs, c);
    var e3 := FirstVisit(p, revs, e, r, picks);
    RunTwo(p, revs, InitializeAsWritten(picks), e, r, c);
    SecondVisit(p, revs, e3, c, picks);
  }

  /** A run of two ids is the callback on the first, then on the second. */
  lemma RunTwo(p: Params, revs: seq<Revision>, cb: Callback, e: Engine, r: int, c: int)
    requires ValidParams(p) && |revs| == |e.labels| && Fits(revs, cb) && QueueShape(e)
    requires 0 <= r < |revs| && 0 <= c < |revs|
    ensures var first := Step(p, revs, cb, e, r);
            Run(p, revs, cb, e, [r, c]) == if first.Success? then Step(p, revs, cb, first.value, c) else first
  {
    assert Run(p, revs, cb, e, [r]) == Step(p, revs, cb, e, r) by {
      RunSplit(p, revs, cb, e, [r]);
      assert [r][..0] == [];
    }
    RunSplit(p, revs, cb, e, [r, c]);
    assert [r, c][..1] == [r];
  }

  /** The first visit: r and, through the recursion, its child c are labelled with their draws, one push each. */
  lemma FirstVisit(p: Params, revs: seq<Revision>, e: Engine, r: int, picks: seq<Assignment>) returns (e3: Engine)
    requires Consistent(p, revs, AddOnly, e) && ParentClosed(revs, e.labels)
    requires |e.queue| + Unlabelled(e.labels) <= Capacity(p)
    requires |picks| == |revs| && AllInRange(p, picks)
    requires 0 <= r < |revs| && revs[r].parent == NoId && !Assigned(e.labels[r])
    requires 0 <= revs[r].child < r && revs[revs[r].child].child == NoId
    ensures Step(p, revs, InitializeAsWritten(picks), e, r) == Success(e3)
    ensures Consistent(p, revs, AddOnly, e3)
    ensures e3.labels == e.labels[r := picks[r]][revs[r].child := picks[revs[r].child]]
    ensures |e3.queue| == |e.queue| + 2 && Unlabelled(e3.labels) + 2 == Unlabelled(e.labels)
  {
    assert ValidRevision(p, revs, r);
    var c := revs[r].child;
    assert ValidRevision(p, revs, c);
    var e2 := InitializeHead(p, revs, e, r, picks);
    InitializeUnfold(p, revs, e, r, picks, e2);
    UnlabelledAssign(e.labels, r, picks[r]);
    UnlabelledAssign(e2.labels, c, picks[c]);
    assert Step(p, revs, InitializeAsWritten(picks), e, r) == ResampleInitialize(p, revs, e, r, picks);
    assert ResampleInitialize(p, revs, e2, c, picks) == InitializeHere(p, revs, e2, c, picks[c]);
    InitializeConsistent(p, revs, e2, c, picks);
    e3 := ResampleInitialize(p, revs, e2, c, picks).value;
  }

  /** The second visit of c: its parent is labelled, so it is initialized again on top of its first label. */
  lemma SecondVisit(p: Params, revs: seq<Revision>, e3: Engine, c: int, picks: seq<Assignment>)
    requires Consistent(p, revs, AddOnly, e3) && |picks| == |revs| && AllInRange(p, picks)
    requires 0 <= c < |revs| && e3.labels[c] == picks[c] && revs[c].child == NoId
    requires 0 <= revs[c].parent < |revs| && Assigned(e3.labels[revs[c].parent])
    ensures var res := Step(p, revs, InitializeAsWritten(picks), e3, c);
            && (|e3.queue| == Capacity(p) ==> res == Failure(QueueOverflow))
            && (|e3.queue| < Capacity(p) ==>
                  && res.Success? && res.value.labels == e3.labels && |res.value.queue| == |e3.queue| + 1
                  && !PagesAgree(revs, res.value.labels, res.value.pages))
  {
    assert ValidRevision(p, revs, c);
    var a := picks[c];
    var page := revs[c].article;
    CatchUpConsistent(p, revs, AddOnly, e3);
    var e1 := CatchUp(AddOnly, e3).value;
    var patch := WithoutChild(FillIndexPatch(revs, e3.labels, c));
    assert Step(p, revs, InitializeAsWritten(picks), e3, c) == Introduce(p, revs, e1, c, patch, a);
    if |e3.queue| < Capacity(p) {
      var e4 := Introduce(p, revs, e1, c, patch, a).value;
      assert e4.labels == e3.labels;
      assert PageGet(e4.pages, a.topic, page) == PageGet(e3.pages, a.topic, page) + 1;
      assert PageGet(e3.pages, a.topic, page) == PageTally(revs, e3.labels, a.topic, page, |revs|);
    }
  }

  // ------------------------------------------------------------- wiring

  /** The public sweeps of src/sample.c. */
  datatype SweepKind =
    | ResampleSweep(draws: seq<real>)
    | MaximizeSweep
    | UniformSweep(picks: seq<Assignment>)
    | UniformOnceSweep(picks: seq<Assignment>)
    | NullSweep
    | ZeroSweep
    | RestoreSweep(reference: seq<Assignment>)
    | ReverseSweep(draws: seq<real>)

  datatype Wiring = Wiring(callback: Callback, mode: Applier, forward: bool)

  function Draws(u: seq<real>): (ch: seq<Chooser>)
    ensures |ch| == |u| && forall x | 0 <= x < |u| :: ch[x] == Draw(u[x])
  {
    seq(|u|, x requires 0 <= x < |u| => Draw(u[x]))
  }

  /**
   * What each sweep installs: resample and resample_reverse run
   * resample_revision with apply_index_update, forwards and backwards;
   * resample_maximize takes the best cell instead of a draw;
   * resample_uniform and resample_null add only; resample_zero subtracts
   * only, backwards; resample_restore copies a reference labelling.
   * resample_uniform installs resample_initialize as written;
   * UniformOnceSweep is resample_uniform with the corrected initializer.
   */
  function Wire(kind: SweepKind, n: nat): (w: Wiring)
    ensures w.mode == Both <==> w.callback.Revise? || w.callback.Restore?
    ensures w.mode == SubOnly <==> w.callback.Destroy?
    ensures w.mode == AddOnly <==> kind.UniformSweep? || kind.UniformOnceSweep? || kind.NullSweep?
    ensures !w.forward <==> kind.ZeroSweep? || kind.ReverseSweep?
  {
    match kind
    case ResampleSweep(draws) => Wiring(Revise(Draws(draws)), Both, true)
    case MaximizeSweep => Wiring(Revise(seq(n, _ => Maximize)), Both, true)
    case UniformSweep(picks) => Wiring(InitializeAsWritten(picks), AddOnly, true)
    case UniformOnceSweep(picks) => Wiring(Initialize(picks), AddOnly, true)
    case NullSweep => Wiring(Forget, AddOnly, true)
    case ZeroSweep => Wiring(Destroy, SubOnly, false)
    case RestoreSweep(reference) => Wiring(Restore(reference), Both, true)
    case ReverseSweep(draws) => Wiring(Revise(Draws(draws)), Both, false)
  }

  /**
   * resample_internal for thread s of m: the callback over the thread's
   * walk, then reset_thread with the installed applier, which drains the
   * queue, and the rewinding of the cursor.
   */
  function SweepThread(p: Params, revs: seq<Revision>, kind: SweepKind, e: Engine, lists: seq<seq<int>>, s: int, m: int): (res: Result<Engine>)
    requires ValidParams(p) && |revs| == |e.labels| && QueueShape(e) && 0 <= s < m
    requires Fits(revs, Wire(kind, |revs|).callback)
    ensures res.Success? ==> res.value.queue == [] && res.value.last == 0 && |res.value.labels| == |revs|
  {
    var w := Wire(kind, |revs|);
    var e1 :- Run(p, revs, w.callback, e, ThreadOrder(lists, s, m, w.forward));
    Reset(w.mode, e1)
  }

  // ------------------------------------------------------- whole sweeps

  predicate Covers(order: seq<int>, n: int) {
    forall x | 0 <= x < n :: x in order
  }

  /**
   * The page lists of a well-formed page index: together they list every
   * revision once, and every parent before its child.
   */
  predicate PageLists(revs: seq<Revision>, lists: seq<seq<int>>) {
    var order := Flatten(lists);
    IdsIn(order, |revs|) && Distinct(order) && Covers(order, |revs|) && ParentsFirst(revs, order)
  }

  /** Walking a parents-first order backwards visits every child before its parent. */
  lemma ReversedParentsFirst(p: Params, revs: seq<Revision>, order: seq<int>)
    requires ValidCorpus(p, revs) && IdsIn(order, |revs|) && Distinct(order) && Covers(order, |revs|)
    requires ParentsFirst(revs, order)
    ensures ChildrenFirst(revs, Reverse(order))
  {
    var R := Reverse(order);
    forall i | 0 <= i < |R| && 0 <= R[i] < |revs| && revs[R[i]].child >= 0
      ensures revs[R[i]].child in R[..i]
    {
      ChildComesLater(p, revs, order, |order| - 1 - i);
    }
  }

  /** In a parents-first order of distinct ids covering the corpus, a revision's child comes after it. */
  lemma ChildComesLater(p: Params, revs: seq<Revision>, order: seq<int>, j: int)
    requires ValidCorpus(p, revs) && IdsIn(order, |revs|) && Distinct(order) && Covers(order, |revs|)
    requires ParentsFirst(revs, order) && 0 <= j < |order| && revs[order[j]].child >= 0
    ensures var R, i := Reverse(order), |order| - 1 - j; revs[R[i]].child in R[..i]
  {
    var k := ChildIndex(p, revs, order, j);
    LaterInReverse(order, j, k);
  }

  /** Where a parents-first order of distinct ids covering the corpus visits the child of its j-th entry. */
  lemma ChildIndex(p: Params, revs: seq<Revision>, order: seq<int>, j: int) returns (k: int)
    requires ValidCorpus(p, revs) && IdsIn(order, |revs|) && Distinct(order) && Covers(order, |revs|)
    requires ParentsFirst(revs, order) && 0 <= j < |order| && revs[order[j]].child >= 0
    ensures j < k < |order| && order[k] == revs[order[j]].child
  {
    var x := order[j];
    assert ValidRevision(p, revs, x);
    var c := revs[x].child;
    k := IndexOf(order, c);
    assert ValidRevision(p, revs, c);
    var k' := ParentIndex(revs, order, k);
    DistinctIndex(order, k', j);
  }

  lemma {:induction false} LaterInReverse(order: seq<int>, j: int, k: int)
    requires 0 <= j < k < |order|
    ensures var R := Reverse(order); R[|order| - 1 - j] == order[j] && order[k] in R[..|order| - 1 - j]
  {
    var R, n := Reverse(order), |order|;
    var i, i' := n - 1 - j, n - 1 - k;
    assert R[i'] == order[k];
    var front := R[..i];
    assert front[i'] == R[i'];
  }

  lemma DistinctIndex(order: seq<int>, a: int, b: int)
    requires Distinct(order) && 0 <= a < |order| && 0 <= b < |order| && order[a] == order[b]
    ensures a == b
  {
  }

  lemma IndexOf(order: seq<int>, x: int) returns (k: int)
    requires x in order
    ensures 0 <= k < |order| && order[k] == x
  {
    k :| 0 <= k < |order| && order[k] == x;
  }

  /** Where a parents-first order visits the parent of its k-th entry. */
  lemma ParentIndex(revs: seq<Revision>, order: seq<int>, k: int) returns (k': int)
    requires ParentsFirst(revs, order) && 0 <= k < |order| && 0 <= order[k] < |revs| && revs[order[k]].parent >= 0
    ensures 0 <= k' < k && order[k'] == revs[order[k]].parent
  {
    var q := revs[order[k]].parent;
    assert q in order[..k];
    k' := IndexOf(order[..k], q);
  }

  /**
   * resample, resample_reverse and resample_maximize: on a consistent,
   * fully labelled thread whose walk has a queue slot per revision, the
   * sweep fires no assert and leaves the thread consistent, fully
   * labelled and drained.
   */
  lemma ResampleSweepConsistent(p: Params, revs: seq<Revision>, kind: SweepKind, e: Engine, lists: seq<seq<int>>, s: int, m: int)
    requires kind.ResampleSweep? || kind.ReverseSweep? || kind.MaximizeSweep?
    requires !kind.MaximizeSweep? ==> |kind.draws| == |revs| && forall x | 0 <= x < |kind.draws| :: 0.0 <= kind.draws[x] < 1.0
    requires Consistent(p, revs, Both, e) && AllInRange(p, e.labels) && 0 <= s < m
    requires var order := ThreadOrder(lists, s, m, Wire(kind, |revs|).forward);
             IdsIn(order, |revs|) && |e.queue| + |order| <= Capacity(p)
    requires PositivePriors(p.header) && p.header.alpha > 0.0
    ensures var res := SweepThread(p, revs, kind, e, lists, s, m);
            res.Success? && Consistent(p, revs, Both, res.value) && AllInRange(p, res.value.labels)
  {
    var w := Wire(kind, |revs|);
    var order := ThreadOrder(lists, s, m, w.forward);
    ReviseRunConsistent(p, revs, e, order, w.callback.choosers);
    var e1 := Run(p, revs, w.callback, e, order).value;
    ResetConsistent(p, revs, Both, Both, e1);
  }

  lemma {:induction false} UnlabelledNone(A: seq<Assignment>)
    requires forall x | 0 <= x < |A| :: !Assigned(A[x])
    ensures Unlabelled(A) == |A|
  {
    if |A| > 0 {
      UnlabelledNone(A[..|A| - 1]);
    }
  }

  /** resample_null over every revision, on indexes create_indexes left zeroed: all labels -1/-1 and the thread consistent. */
  lemma NullSweepClears(p: Params, revs: seq<Revision>, e: Engine, lists: seq<seq<int>>)
    requires ValidCorpus(p, revs) && |revs| <= Capacity(p) <= MaxRevisions && |e.labels| == |revs|
    requires forall l | l != Scratch :: Get(e.summary, l) == 0
    requires Get(e.summary, Scratch) >= 4 * Capacity(p)
    requires forall t, page :: PageGet(e.pages, t, page) == 0
    requires forall u, t, pov :: UserGet(e.users, u, t, pov) == p.header.alpha
    requires e.queue == [] && e.last == 0
    requires IdsIn(Flatten(lists), |revs|) && Covers(Flatten(lists), |revs|)
    ensures var res := SweepThread(p, revs, NullSweep, e, lists, 0, 1);
            && res.Success? && Consistent(p, revs, AddOnly, res.value) && res.value.queue == []
            && forall x | 0 <= x < |revs| :: res.value.labels[x] == Unassigned
  {
    var order := Flatten(lists);
    SingleThreadOrder(lists);
    ForgetRun(p, revs, e, order);
    var r0 := Run(p, revs, Forget, e, order).value;
    forall x | 0 <= x < |revs|
      ensures r0.labels[x] == Unassigned
    {
      assert x in order;
    }
    NulledConsistent(p, revs, AddOnly, r0);
    ResetConsistent(p, revs, AddOnly, AddOnly, r0);
  }

  /** A thread's sweep is its run followed by the reset with the installed applier. */
  lemma SweepThreadRun(p: Params, revs: seq<Revision>, kind: SweepKind, e: Engine, lists: seq<seq<int>>, s: int, m: int, r: Engine)
    requires ValidParams(p) && |revs| == |e.labels| && QueueShape(e) && 0 <= s < m
    requires Fits(revs, Wire(kind, |revs|).callback)
    requires Run(p, revs, Wire(kind, |revs|).callback, e, ThreadOrder(lists, s, m, Wire(kind, |revs|).forward)) == Success(r)
    ensures SweepThread(p, revs, kind, e, lists, s, m) == Reset(Wire(kind, |revs|).mode, r)
  {
  }

  /**
   * Every child has a larger id than its parent, the order in which
   * revision ids are normally handed out. Under it resample_initialize
   * never recurses into a child.
   */
  predicate ChildrenLater(revs: seq<Revision>) {
    forall x | 0 <= x < |revs| && revs[x].child >= 0 :: x < revs[x].child
  }

  /** When children come later, resample_initialize changes at most r's own label. */
  lemma InitializeNoRecursion(p: Params, revs: seq<Revision>, e: Engine, r: int, picks: seq<Assignment>)
    requires 0 <= r < |revs| == |e.labels| == |picks| && QueueShape(e) && ChildrenLater(revs)
    ensures var res := ResampleInitialize(p, revs, e, r, picks);
            res.Success? ==> forall x | 0 <= x < |revs| && x != r :: res.value.labels[x] == e.labels[x]
  {
    var v := revs[r];
    if v.parent < |revs| && v.child < |revs| && !(v.parent >= 0 && !Assigned(e.labels[v.parent])) {
      var e2 := InitializeHere(p, revs, e, r, picks[r]);
      if e2.Success? {
        assert !(0 <= v.child < r);
      }
    }
  }

  /**
   * When children come later, a run of resample_initialize as written
   * over distinct, unlabelled revisions is the run of the corrected
   * initializer: no revision is initialized twice, and the revisions
   * not visited keep their labels.
   */
  lemma {:induction false} InitializeRunsAgree(p: Params, revs: seq<Revision>, e: Engine, order: seq<int>, picks: seq<Assignment>)
    requires ValidParams(p) && |revs| == |e.labels| == |picks| && QueueShape(e) && ChildrenLater(revs)
    requires Distinct(order) && forall i | 0 <= i < |order| && 0 <= order[i] < |revs| :: !Assigned(e.labels[order[i]])
    ensures Run(p, revs, InitializeAsWritten(picks), e, order) == Run(p, revs, Initialize(picks), e, order)
    ensures var res := Run(p, revs, Initialize(picks), e, order);
            res.Success? ==> forall x | 0 <= x < |revs| && x !in order :: res.value.labels[x] == e.labels[x]
    decreases |order|
  {
    if |order| > 0 {
      var front, r := order[..|order| - 1], order[|order| - 1];
      assert forall i | 0 <= i < |front| :: front[i] == order[i];
      InitializeRunsAgree(p, revs, e, front, picks);
      RunSplit(p, revs, InitializeAsWritten(picks), e, order);
      RunSplit(p, revs, Initialize(picks), e, order);
      var first := Run(p, revs, Initialize(picks), e, front);
      if first.Success? && 0 <= r < |revs| {
        var e1 := first.value;
        assert r !in front by {
          forall i | 0 <= i < |front| ensures front[i] != r {
            assert order[i] != order[|order| - 1];
          }
        }
        assert !Assigned(e1.labels[r]);
        if revs[r].parent < |revs| && revs[r].child < |revs| {
          assert Step(p, revs, Initialize(picks), e1, r) == ResampleInitialize(p, revs, e1, r, picks);
          InitializeNoRecursion(p, revs, e1, r, picks);
        }
      }
    }
  }

  /**
   * resample_uniform as written over a well-formed page index whose
   * children come later, from a consistent drained thread with no
   * labels: every revision gets its draw, and the thread is ready for
   * resampling.
   */
  lemma UniformSweepLabels(p: Params, revs: seq<Revision>, e: Engine, lists: seq<seq<int>>, picks: seq<Assignment>)
    requires Consistent(p, revs, AddOnly, e) && e.queue == [] && |revs| <= Capacity(p)
    requires forall x | 0 <= x < |revs| :: e.labels[x] == Unassigned
    requires PageLists(revs, lists) && ChildrenLater(revs) && |picks| == |revs| && AllInRange(p, picks)
    ensures var res := SweepThread(p, revs, UniformSweep(picks), e, lists, 0, 1);
            && res.Success? && res.value.labels == picks
            && Consistent(p, revs, Both, res.value) && res.value.queue == []
  {
    var r2 := UniformRunLabels(p, revs, e, lists, picks);
    SingleThreadOrder(lists);
    InitializeRunsAgree(p, revs, e, Flatten(lists), picks);
    SweepThreadRun(p, revs, UniformSweep(picks), e, lists, 0, 1, r2);
    ResetConsistent(p, revs, AddOnly, Both, r2);
  }

  /**
   * resample_uniform with the corrected initializer, over any well-formed
   * page index, from a consistent drained thread with no labels: every
   * revision gets its draw, and the thread is ready for resampling.
   */
  lemma UniformOnceSweepLabels(p: Params, revs: seq<Revision>, e: Engine, lists: seq<seq<int>>, picks: seq<Assignment>)
    requires Consistent(p, revs, AddOnly, e) && e.queue == [] && |revs| <= Capacity(p)
    requires forall x | 0 <= x < |revs| :: e.labels[x] == Unassigned
    requires PageLists(revs, lists) && |picks| == |revs| && AllInRange(p, picks)
    ensures var res := SweepThread(p, revs, UniformOnceSweep(picks), e, lists, 0, 1);
            && res.Success? && res.value.labels == picks
            && Consistent(p, revs, Both, res.value) && res.value.queue == []
  {
    var r2 := UniformRunLabels(p, revs, e, lists, picks);
    SweepThreadRun(p, revs, UniformOnceSweep(picks), e, lists, 0, 1, r2);
    ResetConsistent(p, revs, AddOnly, Both, r2);
  }

  /** The run of a uniform sweep from no labels: every revision gets its draw, consistently. */
  lemma UniformRunLabels(p: Params, revs: seq<Revision>, e: Engine, lists: seq<seq<int>>, picks: seq<Assignment>) returns (r2: Engine)
    requires Consistent(p, revs, AddOnly, e) && e.queue == [] && |revs| <= Capacity(p)
    requires forall x | 0 <= x < |revs| :: e.labels[x] == Unassigned
    requires PageLists(revs, lists) && |picks| == |revs| && AllInRange(p, picks)
    ensures Run(p, revs, Initialize(picks), e, ThreadOrder(lists, 0, 1, true)) == Success(r2)
    ensures Consistent(p, revs, AddOnly, r2) && r2.labels == picks
  {
    var order := Flatten(lists);
    SingleThreadOrder(lists);
    UnlabelledNone(e.labels);
    UniformRunConsistent(p, revs, e, order, picks);
    r2 := Run(p, revs, Initialize(picks), e, order).value;
    AllDrawn(e.labels, r2.labels, picks, order);
  }

  /** Labels that grew from nothing over a covering order, ending all assigned, are the draws. */
  lemma AllDrawn(A: seq<Assignment>, B: seq<Assignment>, picks: seq<Assignment>, order: seq<int>)
    requires |A| == |B| == |picks| && Grows(A, B, picks) && Covers(order, |A|)
    requires forall x | 0 <= x < |A| :: A[x] == Unassigned
    requires forall i | 0 <= i < |order| :: 0 <= order[i] < |B| && Assigned(B[order[i]])
    ensures B == picks
  {
    forall x | 0 <= x < |A|
      ensures B[x] == picks[x]
    {
      assert x in order;
      var i :| 0 <= i < |order| && order[i] == x;
      assert Assigned(B[order[i]]);
    }
  }

  /**
   * resample_zero over a well-formed page index, from a consistent,
   * fully labelled, drained thread: no assert fires and every statistic
   * is taken back to its empty value.
   */
  lemma ZeroSweepClears(p: Params, revs: seq<Revision>, e: Engine, lists: seq<seq<int>>)
    requires Consistent(p, revs, SubOnly, e) && AllInRange(p, e.labels) && e.queue == [] && |revs| <= Capacity(p)
    requires PageLists(revs, lists) && p.header.alpha >= 0.0
    ensures var res := SweepThread(p, revs, ZeroSweep, e, lists, 0, 1);
            && res.Success? && Consistent(p, revs, SubOnly, res.value)
            && (forall x | 0 <= x < |revs| :: res.value.labels[x] == Unassigned)
            && (forall l | l != Scratch :: Get(res.value.summary, l) == 0)
            && (forall t, page :: PageGet(res.value.pages, t, page) == 0)
            && (forall u, t, pov | 0 <= u < p.numUsers && 0 <= t < p.T() && 0 <= pov < p.P() ::
                  UserGet(res.value.users, u, t, pov) == p.header.alpha)
  {
    var r2 := ZeroRunClears(p, revs, e, lists);
    SweepThreadRun(p, revs, ZeroSweep, e, lists, 0, 1, r2);
    ResetConsistent(p, revs, SubOnly, SubOnly, r2);
    DrainedEmpty(p, revs, Reset(SubOnly, r2).value);
  }

  /** The run of a zero sweep: every revision loses its label, consistently. */
  lemma ZeroRunClears(p: Params, revs: seq<Revision>, e: Engine, lists: seq<seq<int>>) returns (r2: Engine)
    requires Consistent(p, revs, SubOnly, e) && AllInRange(p, e.labels) && e.queue == [] && |revs| <= Capacity(p)
    requires PageLists(revs, lists) && p.header.alpha >= 0.0
    ensures Run(p, revs, Destroy, e, ThreadOrder(lists, 0, 1, false)) == Success(r2)
    ensures Consistent(p, revs, SubOnly, r2) && forall x | 0 <= x < |revs| :: r2.labels[x] == Unassigned
  {
    var back := ThreadOrder(lists, 0, 1, false);
    ZeroOrder(p, revs, lists);
    ZeroRunConsistent(p, revs, e, back);
    r2 := Run(p, revs, Destroy, e, back).value;
  }

  /** The backward walk of a well-formed page index: each revision once, children first, every revision. */
  lemma ZeroOrder(p: Params, revs: seq<Revision>, lists: seq<seq<int>>)
    requires ValidCorpus(p, revs) && PageLists(revs, lists)
    ensures var back := ThreadOrder(lists, 0, 1, false);
            && IdsIn(back, |revs|) && Distinct(back) && ChildrenFirst(revs, back) && |back| <= |revs|
            && forall x | 0 <= x < |revs| :: x in back
  {
    var order := Flatten(lists);
    DistinctBound(order, |revs|);
    ThreadOrderReversed(lists, 0, 1);
    SingleThreadOrder(lists);
    ReverseEntries(order);
    ReversedParentsFirst(p, revs, order);
  }

  /** A consistent drained thread with no labels holds the empty statistics. */
  lemma DrainedEmpty(p: Params, revs: seq<Revision>, e: Engine)
    requires Consistent(p, revs, SubOnly, e) && e.queue == []
    requires forall x | 0 <= x < |revs| :: e.labels[x] == Unassigned
    ensures forall l | l != Scratch :: Get(e.summary, l) == 0
    ensures forall t, page :: PageGet(e.pages, t, page) == 0
    ensures forall u, t, pov | 0 <= u < p.numUsers && 0 <= t < p.T() && 0 <= pov < p.P() ::
              UserGet(e.users, u, t, pov) == p.header.alpha
  {
    UnlabelledIsZero(p, revs, SubOnly, e);
    CaughtUpIdle(SubOnly, e);
  }

  /**
   * The initialize program with one thread: resample_null, then the
   * given uniform sweep.
   */
  function InitializeProgram(p: Params, revs: seq<Revision>, e: Engine, lists: seq<seq<int>>, uniform: SweepKind): (res: Result<Engine>)
    requires ValidParams(p) && |revs| == |e.labels| && QueueShape(e)
    requires (uniform.UniformSweep? || uniform.UniformOnceSweep?) && |uniform.picks| == |revs|
    ensures res.Success? ==> res.value.queue == [] && |res.value.labels| == |revs|
  {
    var e1 :- SweepThread(p, revs, NullSweep, e, lists, 0, 1);
    SweepThread(p, revs, uniform, e1, lists, 0, 1)
  }

  /**
   * The initialize program: resample_null then resample_uniform, with one
   * thread, on indexes create_indexes left zeroed, over a corpus whose
   * children come later. Every revision ends labelled with its draw, and
   * the sampler is ready for resampling: consistent under
   * apply_index_update, queue drained.
   */
  lemma InitializeIndexes(p: Params, revs: seq<Revision>, e: Engine, lists: seq<seq<int>>, picks: seq<Assignment>)
    requires ValidCorpus(p, revs) && |revs| <= Capacity(p) <= MaxRevisions && |e.labels| == |revs|
    requires forall l | l != Scratch :: Get(e.summary, l) == 0
    requires Get(e.summary, Scratch) >= 4 * Capacity(p)
    requires forall t, page :: PageGet(e.pages, t, page) == 0
    requires forall u, t, pov :: UserGet(e.users, u, t, pov) == p.header.alpha
    requires e.queue == [] && e.last == 0
    requires PageLists(revs, lists) && ChildrenLater(revs) && |picks| == |revs| && AllInRange(p, picks)
    ensures var res := InitializeProgram(p, revs, e, lists, UniformSweep(picks));
            res.Success? && res.value.labels == picks && Consistent(p, revs, Both, res.value)
  {
    NullSweepClears(p, revs, e, lists);
    var e1 := SweepThread(p, revs, NullSweep, e, lists, 0, 1).value;
    UniformSweepLabels(p, revs, e1, lists, picks);
  }

  /**
   * The initialize program with the corrected initializer, over any
   * well-formed page index: every revision is labelled exactly once with
   * its draw, and the sampler is consistent and drained.
   */
  lemma InitializeOnceIndexes(p: Params, revs: seq<Revision>, e: Engine, lists: seq<seq<int>>, picks: seq<Assignment>)
    requires ValidCorpus(p, revs) && |revs| <= Capacity(p) <= MaxRevisions && |e.labels| == |revs|
    requires forall l | l != Scratch :: Get(e.summary, l) == 0
    requires Get(e.summary, Scratch) >= 4 * Capacity(p)
    requires forall t, page :: PageGet(e.pages, t, page) == 0
    requires forall u, t, pov :: UserGet(e.users, u, t, pov) == p.header.alpha
    requires e.queue == [] && e.last == 0
    requires PageLists(revs, lists) && |picks| == |revs| && AllInRange(p, picks)
    ensures var res := InitializeProgram(p, revs, e, lists, UniformOnceSweep(picks));
            res.Success? && res.value.labels == picks && Consistent(p, revs, Both, res.value)
  {
    NullSweepClears(p, revs, e, lists);
    var e1 := SweepThread(p, revs, NullSweep, e, lists, 0, 1).value;
    UniformOnceSweepLabels(p, revs, e1, lists, picks);
  }

  /**
   * The check_indexes program: resample then resample_zero, with one
   * thread, on a consistent, fully labelled, drained sampler. Neither
   * sweep fires an assert, and afterwards every label is -1/-1, every
   * statistic but the scratch slot is zero, every page vector entry is
   * zero and every user entry is back to alpha, which is what
   * check_indexes asserts.
   */
  lemma CheckIndexes(p: Params, revs: seq<Revision>, e: Engine, lists: seq<seq<int>>, draws: seq<real>)
    requires Consistent(p, revs, Both, e) && AllInRange(p, e.labels) && e.queue == [] && |revs| <= Capacity(p)
    requires PageLists(revs, lists)
    requires |draws| == |revs| && forall x | 0 <= x < |draws| :: 0.0 <= draws[x] < 1.0
    requires PositivePriors(p.header) && p.header.alpha > 0.0
    ensures var e1 := SweepThread(p, revs, ResampleSweep(draws), e, lists, 0, 1);
            && e1.Success?
            && var e2 := SweepThread(p, revs, ZeroSweep, e1.value, lists, 0, 1);
            && e2.Success?
            && (forall x | 0 <= x < |revs| :: e2.value.labels[x] == Unassigned)
            && (forall l | l != Scratch :: Get(e2.value.summary, l) == 0)
            && (forall t, page :: PageGet(e2.value.pages, t, page) == 0)
            && (forall u, t, pov | 0 <= u < p.numUsers && 0 <= t < p.T() && 0 <= pov < p.P() ::
                  UserGet(e2.value.users, u, t, pov) == p.header.alpha)
  {
    var order := Flatten(lists);
    SingleThreadOrder(lists);
    DistinctBound(order, |revs|);
    ResampleSweepConsistent(p, revs, ResampleSweep(draws), e, lists, 0, 1);
    var e1 := SweepThread(p, revs, ResampleSweep(draws), e, lists, 0, 1).value;
    ResetConsistent(p, revs, Both, SubOnly, e1);
    ZeroSweepClears(p, revs, e1, lists);
  }
}
