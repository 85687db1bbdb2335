/**
 * The sampler thread of src/sample.c run on its own: the revision labels,
 * the thread's view of the topic statistics, the shared page vectors and
 * user distributions, and the update queue with the thread's read
 * position. Each per-revision step of a sweep is a function from one
 * engine state to the next; an `assert` of the source that fires, or an
 * access outside a region, is a Failure.
 *
 * The invariant is Consistent: once the queue is drained, every statistic
 * equals the recount from the current labels, the page vectors and user
 * distributions equal their tallies, and the scratch slot still has room
 * for every update the queue can take.
 */
module Engine {
  import opened Records
  import opened Updates
  import opened Recount
  import opened Probability

  /** INT64_MAX / 2: the scratch slot's value after initialize_threads and reset_thread. */
  const ScratchReset: int := 0x3FFF_FFFF_FFFF_FFFF

  /**
   * One thread's state. `summary` is the topic statistics the thread reads
   * (the shared index for thread 0); `queue` is the shared update queue,
   * whose length is the global cursor, and `last` the thread's read
   * position in it.
   */
  datatype Engine = Engine(
    labels: seq<Assignment>,
    summary: Counters,
    pages: PageCounts,
    users: UserDists,
    queue: seq<IndexUpdate>,
    last: int)

  /** The queue holds count_revisions updates (initialize_threads). */
  function Capacity(p: Params): int {
    p.header.countRevisions
  }

  predicate QueueShape(e: Engine) {
    0 <= e.last <= |e.queue|
  }

  /** The thread's statistics once it has applied the queue up to the global cursor. */
  function CaughtUp(mode: Applier, e: Engine): Result<(Counters, int)>
    requires QueueShape(e)
  {
    Drained(mode, e.summary, e.queue, e.last, |e.queue|)
  }

  /** Every statistic but the scratch slot equals its recount. */
  ghost predicate CountersAgree(revs: seq<Revision>, A: seq<Assignment>, cs: Counters)
    requires |A| == |revs|
  {
    forall l | l != Scratch :: Get(cs, l) == Recounted(revs, A)[l]
  }

  /** Every page vector entry equals the number of revisions of that topic on that page. */
  ghost predicate PagesAgree(revs: seq<Revision>, A: seq<Assignment>, pages: PageCounts)
    requires |A| == |revs|
  {
    forall t, page :: PageGet(pages, t, page) == PageTally(revs, A, t, page, |revs|)
  }

  /** Every user distribution entry is alpha plus the user's revisions with that label. */
  ghost predicate UsersAgree(p: Params, revs: seq<Revision>, A: seq<Assignment>, users: UserDists)
    requires |A| == |revs|
  {
    forall u, t, pov | 0 <= u < p.numUsers && 0 <= t < p.T() && 0 <= pov < p.P() ::
      UserGet(users, u, t, pov) == p.header.alpha + UserTally(revs, A, u, t, pov, |revs|) as real
  }

  /** The statistics invariant of a thread running sweeps with applier `mode`. */
  ghost predicate Consistent(p: Params, revs: seq<Revision>, mode: Applier, e: Engine) {
    && ValidCorpus(p, revs) && ValidLabels(p, revs, e.labels)
    && QueueShape(e) && |e.queue| <= Capacity(p) <= MaxRevisions
    && CaughtUp(mode, e).Success?
    && CountersAgree(revs, e.labels, CaughtUp(mode, e).value.0)
    && Get(CaughtUp(mode, e).value.0, Scratch) >= 4 * (Capacity(p) - |e.queue|)
    && PagesAgree(revs, e.labels, e.pages)
    && UsersAgree(p, revs, e.labels, e.users)
  }

  /** pop_queue up to the global cursor: apply what the thread has not yet seen. */
  function CatchUp(mode: Applier, e: Engine): (r: Result<Engine>)
    requires QueueShape(e)
    ensures r.Success? <==> CaughtUp(mode, e).Success?
    ensures r.Success? ==> r.value == e.(summary := CaughtUp(mode, e).value.0, last := |e.queue|)
  {
    var d :- CaughtUp(mode, e);
    Success(e.(summary := d.0, last := d.1))
  }

  /**
   * push_queue: store at the cursor and advance it; the queue has
   * Capacity(p) slots. The C checks nothing here: QueueOverflow stands
   * for a write past the end of the queue buffer.
   */
  function PushQueue(p: Params, e: Engine, u: IndexUpdate): (r: Result<Engine>)
    ensures r.Success? <==> |e.queue| < Capacity(p)
    ensures r.Failure? ==> r.fault == QueueOverflow
    ensures r.Success? ==> r.value == e.(queue := e.queue + [u])
  {
    if |e.queue| >= Capacity(p) then Failure(QueueOverflow)
    else Success(e.(queue := e.queue + [u]))
  }

  /**
   * The end of a sweep: reset_thread drains the queue, rewinds the read
   * position and refills the scratch slot; resample_internal then rewinds
   * the global cursor.
   */
  function Reset(mode: Applier, e: Engine): (r: Result<Engine>)
    requires QueueShape(e)
    ensures r.Success? ==> r.value.queue == [] && r.value.last == 0
    ensures r.Success? ==> r.value.labels == e.labels && r.value.pages == e.pages && r.value.users == e.users
    ensures r.Success? <==> CaughtUp(mode, e).Success?
  {
    var d :- CaughtUp(mode, e);
    Success(e.(summary := d.0[Scratch := ScratchReset], queue := [], last := 0))
  }

  /** A drained thread has nothing left to apply. */
  lemma CaughtUpIdle(mode: Applier, e: Engine)
    requires QueueShape(e) && e.last == |e.queue|
    ensures CaughtUp(mode, e) == Success((e.summary, e.last))
  {
  }

  /** Catching up keeps the invariant and leaves the thread drained, with the same caught-up statistics. */
  lemma CatchUpConsistent(p: Params, revs: seq<Revision>, mode: Applier, e: Engine)
    requires Consistent(p, revs, mode, e)
    ensures CatchUp(mode, e).Success?
    ensures var e' := CatchUp(mode, e).value;
            && Consistent(p, revs, mode, e')
            && e'.last == |e'.queue| && e'.summary == CaughtUp(mode, e).value.0
            && e'.labels == e.labels && e'.pages == e.pages && e'.users == e.users && e'.queue == e.queue
  {
    var e' := CatchUp(mode, e).value;
    CaughtUpIdle(mode, e');
  }

  /** Resetting keeps the invariant, under any applier, since the queue it leaves is empty. */
  lemma ResetConsistent(p: Params, revs: seq<Revision>, mode: Applier, mode': Applier, e: Engine)
    requires Consistent(p, revs, mode, e)
    ensures Reset(mode, e).Success?
    ensures Consistent(p, revs, mode', Reset(mode, e).value)
  {
    var e' := Reset(mode, e).value;
    CaughtUpIdle(mode', e');
    assert 4 * Capacity(p) <= 4 * MaxRevisions < ScratchReset;
    assert forall l | l != Scratch :: Get(e'.summary, l) == Get(CaughtUp(mode, e).value.0, l);
  }

  /** One page vector entry moved by d. */
  function AddPage(pages: PageCounts, t: int, page: int, d: int): (r: PageCounts)
    ensures forall t', page' :: PageGet(r, t', page') == PageGet(pages, t', page') + (if t' == t && page' == page then d else 0)
  {
    pages[(t, page) := PageGet(pages, t, page) + d]
  }

  /** One user distribution entry moved by d. */
  function AddUser(users: UserDists, u: int, t: int, pov: int, d: real): (r: UserDists)
    ensures forall u', t', pov' :: UserGet(r, u', t', pov') == UserGet(users, u', t', pov') + (if u' == u && t' == t && pov' == pov then d else 0.0)
  {
    users[(u, t, pov) := UserGet(users, u, t, pov) + d]
  }

  function IndReal(b: bool): real {
    if b then 1.0 else 0.0
  }

  /**
   * The page vectors after r is relabelled from A[r] to a: one revision of
   * r's page leaves the old topic (when r was assigned) and joins the new
   * one (when a is assigned).
   */
  lemma PagesMoved(revs: seq<Revision>, A: seq<Assignment>, r: int, a: Assignment, pages: PageCounts)
    requires |A| == |revs| && 0 <= r < |revs| && PagesAgree(revs, A, pages)
    ensures var page := revs[r].article;
            PagesAgree(revs, A[r := a],
                       AddPage(AddPage(pages, A[r].topic, page, -Ind(Assigned(A[r]))), a.topic, page, Ind(Assigned(a))))
  {
    forall t, page
      ensures PageTally(revs, A[r := a], t, page, |revs|)
              + (if Assigned(A[r]) && A[r].topic == t && revs[r].article == page then 1 else 0)
              == PageTally(revs, A, t, page, |revs|)
                 + (if Assigned(a) && a.topic == t && revs[r].article == page then 1 else 0)
    {
      PageTallyExchange(revs, A, r, a, t, page, |revs|);
    }
  }

  /** The user distributions after r is relabelled: one count of r's user moves from the old label to the new. */
  lemma UsersMoved(p: Params, revs: seq<Revision>, A: seq<Assignment>, r: int, a: Assignment, users: UserDists)
    requires |A| == |revs| && 0 <= r < |revs| && UsersAgree(p, revs, A, users)
    ensures var u := revs[r].user;
            UsersAgree(p, revs, A[r := a],
                       AddUser(AddUser(users, u, A[r].topic, A[r].pov, -IndReal(Assigned(A[r]))), u, a.topic, a.pov, IndReal(Assigned(a))))
  {
    forall u, t, pov | 0 <= u < p.numUsers && 0 <= t < p.T() && 0 <= pov < p.P()
      ensures UserTally(revs, A[r := a], u, t, pov, |revs|)
              + (if Assigned(A[r]) && A[r] == Assignment(t, pov) && revs[r].user == u then 1 else 0)
              == UserTally(revs, A, u, t, pov, |revs|)
                 + (if Assigned(a) && a == Assignment(t, pov) && revs[r].user == u then 1 else 0)
    {
      UserTallyExchange(revs, A, r, a, u, t, pov, |revs|);
    }
  }

  /** Labelling an unassigned revision adds one revision of its page to the new topic's page vector. */
  lemma PagesGained(revs: seq<Revision>, A: seq<Assignment>, r: int, a: Assignment, pages: PageCounts)
    requires |A| == |revs| && 0 <= r < |revs| && PagesAgree(revs, A, pages)
    requires !Assigned(A[r]) && Assigned(a)
    ensures PagesAgree(revs, A[r := a], AddPage(pages, a.topic, revs[r].article, 1))
  {
    forall t, page
      ensures PageTally(revs, A[r := a], t, page, |revs|)
              == PageTally(revs, A, t, page, |revs|) + (if a.topic == t && revs[r].article == page then 1 else 0)
    {
      PageTallyExchange(revs, A, r, a, t, page, |revs|);
    }
  }

  /** Unlabelling an assigned revision takes one revision of its page out of the old topic's page vector. */
  lemma PagesLost(revs: seq<Revision>, A: seq<Assignment>, r: int, pages: PageCounts)
    requires |A| == |revs| && 0 <= r < |revs| && PagesAgree(revs, A, pages) && Assigned(A[r])
    ensures PagesAgree(revs, A[r := Unassigned], AddPage(pages, A[r].topic, revs[r].article, -1))
  {
    forall t, page
      ensures PageTally(revs, A[r := Unassigned], t, page, |revs|) + (if A[r].topic == t && revs[r].article == page then 1 else 0)
              == PageTally(revs, A, t, page, |revs|)
    {
      PageTallyExchange(revs, A, r, Unassigned, t, page, |revs|);
    }
  }

  /** Labelling an unassigned revision adds one count to its user's entry for the new label. */
  lemma UsersGained(p: Params, revs: seq<Revision>, A: seq<Assignment>, r: int, a: Assignment, users: UserDists)
    requires |A| == |revs| && 0 <= r < |revs| && UsersAgree(p, revs, A, users)
    requires !Assigned(A[r]) && Assigned(a)
    ensures UsersAgree(p, revs, A[r := a], AddUser(users, revs[r].user, a.topic, a.pov, 1.0))
  {
    forall u, t, pov | 0 <= u < p.numUsers && 0 <= t < p.T() && 0 <= pov < p.P()
      ensures UserTally(revs, A[r := a], u, t, pov, |revs|)
              == UserTally(revs, A, u, t, pov, |revs|) + (if a == Assignment(t, pov) && revs[r].user == u then 1 else 0)
    {
      UserTallyExchange(revs, A, r, a, u, t, pov, |revs|);
    }
  }

  /** Unlabelling an assigned revision takes one count out of its user's entry for the old label. */
  lemma UsersLost(p: Params, revs: seq<Revision>, A: seq<Assignment>, r: int, users: UserDists)
    requires |A| == |revs| && 0 <= r < |revs| && UsersAgree(p, revs, A, users) && Assigned(A[r])
    ensures UsersAgree(p, revs, A[r := Unassigned], AddUser(users, revs[r].user, A[r].topic, A[r].pov, -1.0))
  {
    forall u, t, pov | 0 <= u < p.numUsers && 0 <= t < p.T() && 0 <= pov < p.P()
      ensures UserTally(revs, A[r := Unassigned], u, t, pov, |revs|)
              + (if A[r] == Assignment(t, pov) && revs[r].user == u then 1 else 0)
              == UserTally(revs, A, u, t, pov, |revs|)
    {
      UserTallyExchange(revs, A, r, Unassigned, u, t, pov, |revs|);
    }
  }

  /** An assigned revision counts in its own user's entry for its label. */
  lemma UserCountsSelf(revs: seq<Revision>, A: seq<Assignment>, r: int)
    requires |A| == |revs| && 0 <= r < |revs| && Assigned(A[r])
    ensures UserTally(revs, A, revs[r].user, A[r].topic, A[r].pov, |revs|) >= 1
  {
    UserTallyExchange(revs, A, r, Unassigned, revs[r].user, A[r].topic, A[r].pov, |revs|);
  }

  /** An assigned revision counts in its topic's page vector entry for its page. */
  lemma PageCountsSelf(revs: seq<Revision>, A: seq<Assignment>, r: int)
    requires |A| == |revs| && 0 <= r < |revs| && Assigned(A[r])
    ensures PageTally(revs, A, A[r].topic, revs[r].article, |revs|) >= 1
  {
    PageTallyExchange(revs, A, r, Unassigned, A[r].topic, revs[r].article, |revs|);
  }

  /**
   * Applying an update that subtracts r's touched statistics under A and
   * adds those under A[r := a] (off the scratch slot) to statistics that
   * agree with the recount never goes negative and agrees with the recount
   * after the relabelling; the scratch slot loses at most 4.
   */
  lemma CountersExchanged(p: Params, revs: seq<Revision>, A: seq<Assignment>, r: int, a: Assignment,
                          cs: Counters, mode: Applier, u: IndexUpdate)
    requires ValidCorpus(p, revs) && |A| == |revs| && 0 <= r < |revs|
    requires CountersAgree(revs, A, cs) && Get(cs, Scratch) >= 4
    requires forall l | l != Scratch :: Subtracted(mode, u)[l] == multiset(Touched(revs, A, r))[l]
    requires forall l | l != Scratch :: Added(mode, u)[l] == multiset(Touched(revs, A[r := a], r))[l]
    requires Subtracted(mode, u)[Scratch] <= 4
    ensures ApplyIndexUpdate(mode, cs, u).Success?
    ensures CountersAgree(revs, A[r := a], ApplyIndexUpdate(mode, cs, u).value)
    ensures Get(ApplyIndexUpdate(mode, cs, u).value, Scratch) >= Get(cs, Scratch) - 4
  {
    ExchangeApplies(p, revs, A, r, cs, mode, u);
    ExchangeAgrees(p, revs, A, r, a, cs, mode, u);
  }

  /** The subtractions of such an update are all paid for. */
  lemma ExchangeApplies(p: Params, revs: seq<Revision>, A: seq<Assignment>, r: int, cs: Counters, mode: Applier, u: IndexUpdate)
    requires ValidCorpus(p, revs) && |A| == |revs| && 0 <= r < |revs|
    requires CountersAgree(revs, A, cs) && Get(cs, Scratch) >= 4
    requires forall l | l != Scratch :: Subtracted(mode, u)[l] == multiset(Touched(revs, A, r))[l]
    requires Subtracted(mode, u)[Scratch] <= 4
    ensures ApplyIndexUpdate(mode, cs, u).Success?
  {
    ApplyIndexUpdateEffect(mode, cs, u);
    TouchedWithinRecount(p, revs, A, r);
    forall l | l in Subtracted(mode, u)
      ensures Get(cs, l) + Added(mode, u)[l] >= Subtracted(mode, u)[l]
    {
      if l != Scratch {
        assert Subtracted(mode, u)[l] == multiset(Touched(revs, A, r))[l] <= Recounted(revs, A)[l];
      }
    }
  }

  /** The statistics such an update leaves agree with the recount after the relabelling. */
  lemma ExchangeAgrees(p: Params, revs: seq<Revision>, A: seq<Assignment>, r: int, a: Assignment,
                       cs: Counters, mode: Applier, u: IndexUpdate)
    requires ValidCorpus(p, revs) && |A| == |revs| && 0 <= r < |revs|
    requires CountersAgree(revs, A, cs)
    requires forall l | l != Scratch :: Subtracted(mode, u)[l] == multiset(Touched(revs, A, r))[l]
    requires forall l | l != Scratch :: Added(mode, u)[l] == multiset(Touched(revs, A[r := a], r))[l]
    requires Subtracted(mode, u)[Scratch] <= 4
    requires ApplyIndexUpdate(mode, cs, u).Success?
    ensures CountersAgree(revs, A[r := a], ApplyIndexUpdate(mode, cs, u).value)
    ensures Get(ApplyIndexUpdate(mode, cs, u).value, Scratch) >= Get(cs, Scratch) - 4
  {
    ApplyIndexUpdateEffect(mode, cs, u);
    var cs' := ApplyIndexUpdate(mode, cs, u).value;
    forall l | l != Scratch
      ensures Get(cs', l) == Recounted(revs, A[r := a])[l]
    {
      RecountExchangeAt(p, revs, A, r, a, l);
    }
  }

  /** After a push onto a drained thread's queue, catching up applies exactly the pushed update. */
  lemma PushedCaughtUp(mode: Applier, e: Engine, u: IndexUpdate)
    requires QueueShape(e) && e.last == |e.queue|
    ensures var e' := e.(queue := e.queue + [u]);
            && (ApplyIndexUpdate(mode, e.summary, u).Success? ==>
                 CaughtUp(mode, e') == Success((ApplyIndexUpdate(mode, e.summary, u).value, |e'.queue|)))
            && (ApplyIndexUpdate(mode, e.summary, u).Failure? ==> CaughtUp(mode, e').Failure?)
  {
    var q := e.queue + [u];
    assert q[|e.queue|..|q|] == [u];
    ApplyAllSingle(mode, e.summary, u);
  }

  /** One count of user u's distribution moved from label `from` to label `to`. */
  function MoveUser(users: UserDists, u: int, from: Assignment, to: Assignment): UserDists {
    AddUser(AddUser(users, u, from.topic, from.pov, -1.0), u, to.topic, to.pov, 1.0)
  }

  /** One revision of `page` moved from topic `from` to topic `to` in the page vectors. */
  function MovePage(pages: PageCounts, page: int, from: int, to: int): PageCounts {
    AddPage(AddPage(pages, from, page, -1), to, page, 1)
  }

  /**
   * What a label change needs: both labels and r's user and page inside
   * their regions, a free queue slot, and a count of at least one in the
   * user's entry for the old label.
   */
  predicate CommitAllowed(p: Params, revs: seq<Revision>, e: Engine, r: int, prev: Assignment, a: Assignment)
    requires 0 <= r < |revs|
  {
    && InRange(p, prev) && InRange(p, a)
    && 0 <= revs[r].user < p.numUsers && 0 <= revs[r].article < p.numPages
    && |e.queue| < Capacity(p)
    && UserGet(e.users, revs[r].user, prev.topic, prev.pov) >= 1.0
  }

  /**
   * The bookkeeping of a label change, the tail of resample_revision and
   * resample_assign: build the update from the patch, write the new
   * label, queue the update, move one count of the revision's user from
   * the old label to the new (the old entry must stay non-negative) and
   * one revision of its page from the old topic to the new. Labels or ids
   * outside the regions are out of range.
   */
  function Commit(p: Params, revs: seq<Revision>, e: Engine, r: int, patch: IndexPatch, a: Assignment): (res: Result<Engine>)
    requires 0 <= r < |revs| && |e.labels| == |revs|
    ensures res.Success? <==> CommitAllowed(p, revs, e, r, Assignment(patch.topic, patch.pov), a)
    ensures res.Success? ==> res.value == e.(labels := e.labels[r := a], queue := e.queue + [CreateIndexUpdate(patch, a)],
                                             users := MoveUser(e.users, revs[r].user, Assignment(patch.topic, patch.pov), a),
                                             pages := MovePage(e.pages, revs[r].article, patch.topic, a.topic))
    ensures res.Failure? && InRange(p, Assignment(patch.topic, patch.pov)) && InRange(p, a)
            && 0 <= revs[r].user < p.numUsers && 0 <= revs[r].article < p.numPages
            ==> res.fault == (if |e.queue| >= Capacity(p) then QueueOverflow else NegativeCounter)
  {
    var prev := Assignment(patch.topic, patch.pov);
    var user, page := revs[r].user, revs[r].article;
    if !InRange(p, prev) || !InRange(p, a) || !(0 <= user < p.numUsers) || !(0 <= page < p.numPages) then
      Failure(OutOfRange)
    else
      var e1 :- PushQueue(p, e.(labels := e.labels[r := a]), CreateIndexUpdate(patch, a));
      var dec := UserGet(e1.users, user, prev.topic, prev.pov) - 1.0;
      if dec < 0.0 then Failure(NegativeCounter)
      else
        var users := AddUser(AddUser(e1.users, user, prev.topic, prev.pov, -1.0), user, a.topic, a.pov, 1.0);
        var pages := AddPage(AddPage(e1.pages, prev.topic, page, -1), a.topic, page, 1);
        Success(e1.(users := users, pages := pages))
  }

  /** An update built from a fresh patch is the exchange of r's touched statistics, under apply_index_update. */
  lemma FullPatchShape(p: Params, revs: seq<Revision>, A: seq<Assignment>, r: int, a: Assignment)
    requires ValidCorpus(p, revs) && |A| == |revs| && 0 <= r < |revs|
    requires revs[r].parent < |revs| && revs[r].child < |revs|
    ensures var u := CreateIndexUpdate(FillIndexPatch(revs, A, r), a);
            && Subtracted(Both, u) == multiset(Touched(revs, A, r))
            && Added(Both, u) == multiset(Touched(revs, A[r := a], r))
            && Subtracted(Both, u)[Scratch] <= 4
  {
    PatchUpdateIsExchange(p, revs, A, r, a);
    var t := Touched(revs, A, r);
    CountOfFour(t[0], t[1], t[2], t[3], Scratch);
    assert t == [t[0], t[1], t[2], t[3]];
  }

  /**
   * Queueing the update of an exchange on a drained thread: catching up
   * applies it, the statistics agree with the recount under the new
   * labels, and the scratch slot keeps room for the rest of the queue.
   */
  lemma ExchangeQueued(p: Params, revs: seq<Revision>, A: seq<Assignment>, r: int, a: Assignment,
                       e: Engine, mode: Applier, u: IndexUpdate)
    requires ValidCorpus(p, revs) && |A| == |revs| && 0 <= r < |revs|
    requires QueueShape(e) && e.last == |e.queue| && |e.queue| < Capacity(p)
    requires CountersAgree(revs, A, e.summary) && Get(e.summary, Scratch) >= 4 * (Capacity(p) - |e.queue|)
    requires forall l | l != Scratch :: Subtracted(mode, u)[l] == multiset(Touched(revs, A, r))[l]
    requires forall l | l != Scratch :: Added(mode, u)[l] == multiset(Touched(revs, A[r := a], r))[l]
    requires Subtracted(mode, u)[Scratch] <= 4
    ensures var e' := e.(queue := e.queue + [u]);
            && CaughtUp(mode, e').Success?
            && CountersAgree(revs, A[r := a], CaughtUp(mode, e').value.0)
            && Get(CaughtUp(mode, e').value.0, Scratch) >= 4 * (Capacity(p) - |e'.queue|)
  {
    CountersExchanged(p, revs, A, r, a, e.summary, mode, u);
    PushedCaughtUp(mode, e, u);
  }

  /** CaughtUp reads only the statistics, the queue and the read position. */
  lemma CaughtUpSameQueue(mode: Applier, e: Engine, e': Engine)
    requires QueueShape(e) && e'.summary == e.summary && e'.queue == e.queue && e'.last == e.last
    ensures CaughtUp(mode, e') == CaughtUp(mode, e)
  {
  }

  /**
   * A label change on a drained, consistent thread with room in the queue
   * succeeds and keeps the thread consistent under the new labels.
   */
  lemma CommitConsistent(p: Params, revs: seq<Revision>, e: Engine, r: int, a: Assignment)
    requires Consistent(p, revs, Both, e) && e.last == |e.queue| && |e.queue| < Capacity(p)
    requires 0 <= r < |revs| && revs[r].parent < |revs| && revs[r].child < |revs|
    requires InRange(p, e.labels[r]) && InRange(p, a) && p.header.alpha >= 0.0
    ensures var res := Commit(p, revs, e, r, FillIndexPatch(revs, e.labels, r), a);
            && res.Success?
            && Consistent(p, revs, Both, res.value)
            && res.value.labels == e.labels[r := a]
            && |res.value.queue| == |e.queue| + 1
  {
    var A := e.labels;
    var patch := FillIndexPatch(revs, A, r);
    var u := CreateIndexUpdate(patch, a);
    assert ValidRevision(p, revs, r);
    assert Assignment(patch.topic, patch.pov) == A[r];
    UserCountsSelf(revs, A, r);
    assert CommitAllowed(p, revs, e, r, A[r], a);
    var e' := Commit(p, revs, e, r, patch, a).value;
    assert ValidLabels(p, revs, e'.labels);
    CaughtUpIdle(Both, e);
    FullPatchShape(p, revs, A, r, a);
    ExchangeQueued(p, revs, A, r, a, e, Both, u);
    CaughtUpSameQueue(Both, e.(queue := e.queue + [u]), e');
    PagesMoved(revs, A, r, a, e.pages);
    UsersMoved(p, revs, A, r, a, e.users);
  }

  /**
   * With r's child unassigned or absent, the patch with its child half
   * forced to -1 still builds the exchange of r's touched statistics.
   */
  lemma ChildlessShape(p: Params, revs: seq<Revision>, A: seq<Assignment>, r: int, a: Assignment)
    requires ValidCorpus(p, revs) && |A| == |revs| && 0 <= r < |revs|
    requires revs[r].parent < |revs| && revs[r].child < |revs|
    requires ChildLabel(revs, A, r) == Unassigned
    ensures CreateIndexUpdate(WithoutChild(FillIndexPatch(revs, A, r)), a)
         == IndexUpdate(Touched(revs, A, r), Touched(revs, A[r := a], r))
  {
    ChildlessPatchUpdate(p, revs, A, r, a);
    assert ValidRevision(p, revs, r);
    var c := revs[r].child;
    if 0 <= c < |A| {
      assert A[r := a][c] == A[c];
    }
  }

  /** An unassigned revision with an unassigned or absent child touches only the scratch slot. */
  lemma ScratchTouched(p: Params, revs: seq<Revision>, A: seq<Assignment>, r: int)
    requires ValidCorpus(p, revs) && |A| == |revs| && 0 <= r < |revs|
    requires !Assigned(A[r]) && ChildLabel(revs, A, r) == Unassigned
    ensures Touched(revs, A, r) == [Scratch, Scratch, Scratch, Scratch]
  {
    assert ValidRevision(p, revs, r);
  }
}
