/**
 * Index updates of the sampler (src/sample.c): which statistic a revision
 * feeds (update_locations), the four-subtract / four-add update a label
 * change produces (create_index_update), the three ways of applying an
 * update, and the update queue a thread drains (pop_queue).
 *
 * The topic region's statistics are a map from `Loc` to count; an absent
 * key reads as 0. Layout.LocOffsetInjective shows that distinct `Loc`s are
 * distinct words of the region, so updating a map entry is what the source
 * does when it adds to a byte offset.
 */
module Updates {
  import opened Records
  import opened Layout

  type Counters = map<Loc, int>

  function Get(c: Counters, l: Loc): int {
    if l in c then c[l] else 0
  }

  function Bump(c: Counters, l: Loc, d: int): Counters {
    c[l := Get(c, l) + d]
  }

  /**
   * The statistic a reference from `parent` to `child` is counted in: the
   * three branches of reference_probability (src/probability.c) and of
   * change_indexes (src/parse_mmaps.c). Same topic and different POV: the
   * directed antagonism cell (child pov, parent pov); same topic and POV:
   * the topic counts; otherwise the child topic's general counts. The
   * revert/no-revert half is chosen by the child's flag.
   */
  function RefLoc(parent: Assignment, child: Assignment, revert: bool): (l: Loc)
    ensures l != Scratch && !l.TopicTotal? && l.topic == child.topic
    ensures l.PovRevert? || l.RevertTopic? || l.RevertGeneral? <==> revert
    ensures l.PovRevert? || l.PovNoRevert? <==> parent.topic == child.topic && parent.pov != child.pov
    ensures l.RevertTopic? || l.NoRevertTopic? <==> parent.topic == child.topic && parent.pov == child.pov
    ensures l.PovRevert? || l.PovNoRevert? ==> l.pov == child.pov && l.ant == parent.pov
  {
    if parent.topic == child.topic then
      if parent.pov != child.pov then
        if revert then PovRevert(child.topic, child.pov, parent.pov) else PovNoRevert(child.topic, child.pov, parent.pov)
      else if revert then RevertTopic(child.topic) else NoRevertTopic(child.topic)
    else if revert then RevertGeneral(child.topic) else NoRevertGeneral(child.topic)
  }

  /**
   * A label is well formed when it is either unassigned (-1, -1) or fully
   * assigned; the source never writes anything else.
   */
  predicate WellFormed(a: Assignment) {
    a == Unassigned || Assigned(a)
  }

  /**
   * update_locations: the two statistics a revision labelled `own` with a
   * parent labelled `parent` contributes to. An unassigned revision
   * contributes nothing (both go to the scratch slot); an assigned one
   * counts once in its topic's total and once in the reference statistic,
   * or in the scratch slot when its parent is unassigned.
   */
  function UpdateLocations(parent: Assignment, own: Assignment, disagrees: int): (locs: (Loc, Loc))
    ensures !Assigned(own) ==> locs == (Scratch, Scratch)
    ensures Assigned(own) ==> locs.0 == TopicTotal(own.topic)
    ensures Assigned(own) && (Assigned(parent) || parent.topic == own.topic)
            ==> locs.1 == RefLoc(parent, own, Truthy(disagrees))
    ensures Assigned(own) && !Assigned(parent) && parent.topic != own.topic ==> locs.1 == Scratch
  {
    if own.topic < 0 || own.pov < 0 then (Scratch, Scratch)
    else
      var first := TopicTotal(own.topic);
      if parent.topic == own.topic then
        if parent.pov != own.pov then
          (first, if Truthy(disagrees) then PovRevert(own.topic, own.pov, parent.pov)
                  else PovNoRevert(own.topic, own.pov, parent.pov))
        else (first, if Truthy(disagrees) then RevertTopic(own.topic) else NoRevertTopic(own.topic))
      else if parent.topic >= 0 && parent.pov >= 0 then
        (first, if Truthy(disagrees) then RevertGeneral(own.topic) else NoRevertGeneral(own.topic))
      else (first, Scratch)
  }

  /** struct index_update: four statistics to decrement and four to increment. */
  datatype IndexUpdate = IndexUpdate(subtract: seq<Loc>, add: seq<Loc>)

  /**
   * create_index_update: take out the revision's and its child's current
   * contributions and put in those under the new label. A patch without a
   * child (child label -1, -1) yields scratch entries for the child half.
   */
  function CreateIndexUpdate(patch: IndexPatch, newLabel: Assignment): (u: IndexUpdate)
    ensures |u.subtract| == 4 && |u.add| == 4
    ensures var old_ := Assignment(patch.topic, patch.pov);
            var child := Assignment(patch.childTopic, patch.childPov);
            var parent := Assignment(patch.parentTopic, patch.parentPov);
            && (u.subtract[0], u.subtract[1]) == UpdateLocations(parent, old_, patch.disagrees)
            && (u.subtract[2], u.subtract[3]) == UpdateLocations(old_, child, patch.childDisagrees)
            && (u.add[0], u.add[1]) == UpdateLocations(parent, newLabel, patch.disagrees)
            && (u.add[2], u.add[3]) == UpdateLocations(newLabel, child, patch.childDisagrees)
  {
    var parent := Assignment(patch.parentTopic, patch.parentPov);
    var old_ := Assignment(patch.topic, patch.pov);
    var child := Assignment(patch.childTopic, patch.childPov);
    var s0 := UpdateLocations(parent, old_, patch.disagrees);
    var s1 := UpdateLocations(old_, child, patch.childDisagrees);
    var a0 := UpdateLocations(parent, newLabel, patch.disagrees);
    var a1 := UpdateLocations(newLabel, child, patch.childDisagrees);
    IndexUpdate([s0.0, s0.1, s1.0, s1.1], [a0.0, a0.1, a1.0, a1.1])
  }

  /** Increment every listed statistic once per occurrence, in order. */
  function AddAll(c: Counters, locs: seq<Loc>): Counters
    decreases |locs|
  {
    if |locs| == 0 then c else AddAll(Bump(c, locs[0], 1), locs[1..])
  }

  /** Decrement the listed statistics in order, each one checked to stay non-negative as the source's asserts do. */
  function SubAll(c: Counters, locs: seq<Loc>): Result<Counters>
    decreases |locs|
  {
    if |locs| == 0 then Success(c)
    else if Get(c, locs[0]) - 1 < 0 then Failure(NegativeCounter)
    else SubAll(Bump(c, locs[0], -1), locs[1..])
  }

  /** Adding a list of statistics raises each one by its number of occurrences. */
  lemma {:induction false} AddAllCounts(c: Counters, locs: seq<Loc>)
    ensures forall l :: Get(AddAll(c, locs), l) == Get(c, l) + multiset(locs)[l]
    decreases |locs|
  {
    if |locs| > 0 {
      assert locs == [locs[0]] + locs[1..];
      AddAllCounts(Bump(c, locs[0], 1), locs[1..]);
    }
  }

  /**
   * Subtracting a list of statistics succeeds exactly when none of them
   * holds fewer than its number of occurrences, and then lowers each one by
   * that number. The order of the list does not matter.
   */
  lemma {:induction false} SubAllCounts(c: Counters, locs: seq<Loc>)
    ensures SubAll(c, locs).Success? <==> forall l | l in multiset(locs) :: Get(c, l) >= multiset(locs)[l]
    ensures SubAll(c, locs).Success? ==> forall l :: Get(SubAll(c, locs).value, l) == Get(c, l) - multiset(locs)[l]
    ensures SubAll(c, locs).Failure? ==> SubAll(c, locs).fault == NegativeCounter
    decreases |locs|
  {
    if |locs| > 0 {
      assert locs == [locs[0]] + locs[1..];
      if Get(c, locs[0]) - 1 < 0 {
        assert multiset(locs)[locs[0]] >= 1;
      } else {
        var c' := Bump(c, locs[0], -1);
        SubAllCounts(c', locs[1..]);
        if SubAll(c', locs[1..]).Failure? {
          var l :| l in multiset(locs[1..]) && Get(c', l) < multiset(locs[1..])[l];
          assert Get(c, l) < multiset(locs)[l];
        }
      }
    }
  }

  /** The three index_update_function variants of src/sample.c. */
  datatype Applier =
    | Both     // apply_index_update: all adds, then all checked subtracts
    | AddOnly  // apply_index_update_add
    | SubOnly  // apply_index_update_sub

  function Added(mode: Applier, u: IndexUpdate): multiset<Loc> {
    if mode.SubOnly? then multiset{} else multiset(u.add)
  }

  function Subtracted(mode: Applier, u: IndexUpdate): multiset<Loc> {
    if mode.AddOnly? then multiset{} else multiset(u.subtract)
  }

  /** Apply one update to a thread's statistics, as the selected applier does. */
  function ApplyIndexUpdate(mode: Applier, c: Counters, u: IndexUpdate): Result<Counters> {
    match mode
    case Both => SubAll(AddAll(c, u.add), u.subtract)
    case AddOnly => Success(AddAll(c, u.add))
    case SubOnly => SubAll(c, u.subtract)
  }

  /**
   * The net effect of one update is the added multiset minus the
   * subtracted one; it aborts exactly when some statistic would be driven
   * below zero (apply_index_update adds first, so an added entry can pay
   * for a subtracted one).
   */
  lemma ApplyIndexUpdateEffect(mode: Applier, c: Counters, u: IndexUpdate)
    ensures ApplyIndexUpdate(mode, c, u).Success? <==>
      forall l | l in Subtracted(mode, u) :: Get(c, l) + Added(mode, u)[l] >= Subtracted(mode, u)[l]
    ensures ApplyIndexUpdate(mode, c, u).Success? ==>
      forall l :: Get(ApplyIndexUpdate(mode, c, u).value, l) == Get(c, l) + Added(mode, u)[l] - Subtracted(mode, u)[l]
  {
    match mode
    case Both =>
      AddAllCounts(c, u.add);
      SubAllCounts(AddAll(c, u.add), u.subtract);
    case AddOnly =>
      AddAllCounts(c, u.add);
    case SubOnly =>
      SubAllCounts(c, u.subtract);
  }

  /** Apply a sequence of queued updates in order. */
  function ApplyAll(mode: Applier, c: Counters, q: seq<IndexUpdate>): Result<Counters>
    decreases |q|
  {
    if |q| == 0 then Success(c)
    else
      match ApplyIndexUpdate(mode, c, q[0])
      case Success(c') => ApplyAll(mode, c', q[1..])
      case Failure(f) => Failure(f)
  }

  /** A queue of one update applies that update. */
  lemma ApplyAllSingle(mode: Applier, c: Counters, u: IndexUpdate)
    ensures ApplyAll(mode, c, [u]) == ApplyIndexUpdate(mode, c, u)
  {
    assert [u][1..] == [];
  }

  /** Applying two runs of the queue one after the other is applying their concatenation. */
  lemma {:induction false} ApplyAllAppend(mode: Applier, c: Counters, q1: seq<IndexUpdate>, q2: seq<IndexUpdate>)
    ensures ApplyAll(mode, c, q1 + q2) ==
      (match ApplyAll(mode, c, q1)
       case Success(c') => ApplyAll(mode, c', q2)
       case Failure(f) => Failure(f))
    decreases |q1|
  {
    if |q1| == 0 {
      assert q1 + q2 == q2;
    } else {
      assert (q1 + q2)[0] == q1[0];
      assert (q1 + q2)[1..] == q1[1..] + q2;
      match ApplyIndexUpdate(mode, c, q1[0])
      case Success(c') =>
        ApplyAllAppend(mode, c', q1[1..], q2);
      case Failure(_) =>
    }
  }

  /** The total of every update's net effect: what the whole queue does to one statistic. */
  function NetEffect(mode: Applier, q: seq<IndexUpdate>, l: Loc): int
    decreases |q|
  {
    if |q| == 0 then 0
    else Added(mode, q[0])[l] - Subtracted(mode, q[0])[l] + NetEffect(mode, q[1..], l)
  }

  /** A drained queue leaves every statistic moved by exactly the queue's net effect. */
  lemma {:induction false} ApplyAllNet(mode: Applier, c: Counters, q: seq<IndexUpdate>)
    requires ApplyAll(mode, c, q).Success?
    ensures forall l :: Get(ApplyAll(mode, c, q).value, l) == Get(c, l) + NetEffect(mode, q, l)
    decreases |q|
  {
    if |q| > 0 {
      var c' := ApplyIndexUpdate(mode, c, q[0]).value;
      ApplyIndexUpdateEffect(mode, c, q[0]);
      ApplyAllNet(mode, c', q[1..]);
    }
  }

  /** Applying one more queued update after a run of the queue. */
  lemma ApplyAllStep(mode: Applier, c: Counters, queue: seq<IndexUpdate>, last: int, pos: int, cur: Counters)
    requires 0 <= last <= pos < |queue|
    requires ApplyAll(mode, c, queue[last..pos]) == Success(cur)
    ensures ApplyAll(mode, c, queue[last..pos + 1]) == ApplyIndexUpdate(mode, cur, queue[pos])
  {
    var q := queue[last..pos];
    var u := queue[pos];
    assert ApplyAll(mode, c, q + [u]) == ApplyIndexUpdate(mode, cur, u) by {
      ApplyAllAppend(mode, c, q, [u]);
      ApplyAllSingle(mode, cur, u);
    }
    assert queue[last..pos + 1] == q + [u];
  }

  /** What draining the queue from `last` up to `to` yields: the statistics and the new read position. */
  function Drained(mode: Applier, c: Counters, queue: seq<IndexUpdate>, last: int, to: int): Result<(Counters, int)>
    requires 0 <= last <= |queue| && to <= |queue|
  {
    if last >= to then Success((c, last))
    else
      match ApplyAll(mode, c, queue[last..to])
      case Success(c') => Success((c', to))
      case Failure(f) => Failure(f)
  }

  /** One iteration of pop_queue: either it extends the applied prefix or the whole drain aborts with its fault. */
  lemma DrainStep(mode: Applier, c: Counters, queue: seq<IndexUpdate>, last: int, pos: int, to: int, cur: Counters)
    requires 0 <= last <= pos < to <= |queue|
    requires ApplyAll(mode, c, queue[last..pos]) == Success(cur)
    ensures ApplyIndexUpdate(mode, cur, queue[pos]).Failure? ==>
      Drained(mode, c, queue, last, to) == Failure(ApplyIndexUpdate(mode, cur, queue[pos]).fault)
    ensures ApplyIndexUpdate(mode, cur, queue[pos]).Success? ==>
      ApplyAll(mode, c, queue[last..pos + 1]) == ApplyIndexUpdate(mode, cur, queue[pos])
  {
    ApplyAllStep(mode, c, queue, last, pos, cur);
    PopQueueInSteps(mode, c, queue, last, pos + 1, to);
  }

  /** Once the applied prefix reaches `to` the drain is complete. */
  lemma DrainDone(mode: Applier, c: Counters, queue: seq<IndexUpdate>, last: int, pos: int, to: int, cur: Counters)
    requires 0 <= last <= pos <= |queue| && to <= |queue|
    requires pos == if last >= to then last else to
    requires ApplyAll(mode, c, queue[last..pos]) == Success(cur)
    ensures Drained(mode, c, queue, last, to) == Success((cur, pos))
  {
  }

  /**
   * pop_queue: apply the queued updates from the thread's read position
   * up to (not including) `to`, one at a time, and advance the read
   * position. A position at or past `to` applies nothing.
   */
  method PopQueue(mode: Applier, c: Counters, queue: seq<IndexUpdate>, last: int, to: int)
    returns (r: Result<(Counters, int)>)
    requires 0 <= last <= |queue| && to <= |queue|
    ensures r == Drained(mode, c, queue, last, to)
    ensures r.Success? ==> r.value.1 == if last >= to then last else to
  {
    var pos := last;
    var cur := c;
    assert queue[last..last] == [];
    while pos < to
      invariant last <= pos <= |queue| && (pos > last ==> pos <= to)
      invariant ApplyAll(mode, c, queue[last..pos]) == Success(cur)
    {
      var next := ApplyIndexUpdate(mode, cur, queue[pos]);
      DrainStep(mode, c, queue, last, pos, to, cur);
      if next.Failure? {
        return Failure(next.fault);
      }
      cur := next.value;
      pos := pos + 1;
    }
    DrainDone(mode, c, queue, last, pos, to, cur);
    return Success((cur, pos));
  }

  /** Draining in two steps reaches the same statistics as draining in one. */
  lemma PopQueueInSteps(mode: Applier, c: Counters, queue: seq<IndexUpdate>, last: int, mid: int, to: int)
    requires 0 <= last <= mid <= to <= |queue|
    ensures ApplyAll(mode, c, queue[last..to]) ==
      (match ApplyAll(mode, c, queue[last..mid])
       case Success(c') => ApplyAll(mode, c', queue[mid..to])
       case Failure(f) => Failure(f))
  {
    assert queue[last..to] == queue[last..mid] + queue[mid..to];
    ApplyAllAppend(mode, c, queue[last..mid], queue[mid..to]);
  }
}
